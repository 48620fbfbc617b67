/**
 * The linear-hashing arithmetic of src/dynMap.c, on values.
 *
 * A table is a sequence of bucket chains together with the modulus `mod`
 * and the split pointer `split`. Buckets below `split` have already been
 * divided in this round and are addressed with `2 * mod`; the others still
 * use `mod`. Inserting moves the split one bucket forward (Split) and erasing
 * moves it one bucket back (Rewind); each step re-buckets a single chain.
 */
module LinearHash {

  /** INITIAL_MODULUS: "N" in the usual description of linear hashing. */
  const INITIAL_MODULUS: nat := 2
  /** SHRINK_FACTOR: how many times the bucket count the capacity may reach before it is reclaimed. */
  const SHRINK_FACTOR: nat := 4
  const HASH_LIMIT: nat := 0x1_0000_0000

  /** dynMapHash: an unsigned 32-bit value. */
  type Hash = h: nat | h < HASH_LIMIT

  /** A key is a string or an integer; one table uses one kind only. */
  datatype Key = StrKey(s: string) | IntKey(i: int)

  /** HASHSTRING / HASHINT, supplied by the caller, applied to a key of either kind. */
  function KeyHash(hashString: string -> Hash, hashInt: int -> Hash, k: Key): Hash
  {
    match k
    case StrKey(s) => hashString(s)
    case IntKey(i) => hashInt(i)
  }

  /**
   * dynMapEntry: the key and its cached hash never change once the entry
   * exists; the value slot (calloc'd, so 0) belongs to the caller.
   */
  class Entry {
    const key: Key
    const hash: Hash
    var value: int

    constructor (key: Key, hash: Hash)
      ensures this.key == key && this.hash == hash && value == 0
    {
      this.key := key;
      this.hash := hash;
      value := 0;
    }
  }

  /** A bucket chain, head first (the `next` links of the C entries). */
  type Chain = seq<Entry>

  /** The shape of a linear hash: buckets, modulus and split pointer. */
  datatype Table = Table(buckets: seq<Chain>, mod: nat, split: int)

  predicate IsPow2(n: nat)
  {
    n == 1 || (n >= 2 && n % 2 == 0 && IsPow2(n / 2))
  }

  /** linearHashCompute: hash % mod, or hash % (2 * mod) when that bucket has already been split. */
  function Address(hash: nat, mod: nat, split: int): nat
    requires mod > 0
  {
    if hash % mod < split then hash % (2 * mod) else hash % mod
  }

  lemma {:induction false} MulAtLeast(m: nat, d: nat)
    requires d >= 1
    ensures m * d >= m
  {
    if d > 1 {
      MulAtLeast(m, d - 1);
      assert m * d == m * (d - 1) + m;
    }
  }

  lemma Distrib(m: nat, a: nat, d: nat)
    ensures m * (a + d) == m * a + m * d
  {
  }

  lemma DivMod(h: nat, n: nat)
    requires n > 0
    ensures h / n >= 0 && h == n * (h / n) + h % n && h % n < n
  {
  }

  /** The remainder is the unique r < m with h == m * q + r. */
  lemma ModUnique(h: nat, m: nat, q: nat, r: nat)
    requires m > 0 && r < m && h == m * q + r
    ensures h % m == r
  {
    var q', r' := h / m, h % m;
    DivMod(h, m);
    if q' < q {
      Distrib(m, q', q - q');
      MulAtLeast(m, q - q');
    } else if q' > q {
      Distrib(m, q, q' - q);
      MulAtLeast(m, q' - q);
    }
  }

  lemma Halves(h: nat, m: nat, q: nat, r: nat)
    requires m > 0 && r < 2 * m && h == (2 * m) * q + r
    ensures h % m == (if r < m then r else r - m)
  {
    assert (2 * m) * q == m * (q + q);
    if r < m {
      ModUnique(h, m, q + q, r);
    } else {
      Distrib(m, q + q, 1);
      ModUnique(h, m, q + q + 1, r - m);
    }
  }

  /** Reducing by twice the modulus leaves either the smaller remainder or that plus the modulus. */
  lemma ModDouble(h: nat, m: nat)
    requires m > 0
    ensures h % (2 * m) == h % m || h % (2 * m) == h % m + m
  {
    DivMod(h, 2 * m);
    Halves(h, m, h / (2 * m), h % (2 * m));
  }

  /**
   * With 0 <= split < mod every address lies in [0, split + mod), and it is
   * congruent to the hash modulo mod: a split bucket b only ever divides
   * into b and b + mod.
   */
  lemma AddressInRange(hash: nat, mod: nat, split: int)
    requires 0 <= split < mod
    ensures Address(hash, mod, split) < split + mod
    ensures Address(hash, mod, split) % mod == hash % mod
    ensures hash % mod >= split ==> Address(hash, mod, split) == hash % mod
  {
    DivMod(hash, mod);
    ModDouble(hash, mod);
    var a, r := Address(hash, mod, split), hash % mod;
    if a == r {
      ModUnique(a, mod, 0, r);
    } else {
      ModUnique(a, mod, 1, r);
    }
  }

  /** The modulus and split pointer after one growth step (dmNewEntry). */
  function Advanced(mod: nat, split: int): (r: (nat, int))
  {
    if split + 1 == mod then (2 * mod, 0) else (mod, split + 1)
  }

  /** The modulus and split pointer after one rewind step (dmRewindSplit). */
  function Rewound(mod: nat, split: int): (r: (nat, int))
  {
    if split - 1 < 0 then (mod / 2, mod / 2 - 1) else (mod, split - 1)
  }

  /** Advancing the split moves no entry except those of the bucket at the split. */
  lemma AdvanceKeepsAddress(hash: nat, mod: nat, split: int)
    requires 0 <= split < mod
    requires Address(hash, mod, split) != split
    ensures Advanced(mod, split).0 > 0
    ensures Address(hash, Advanced(mod, split).0, Advanced(mod, split).1) == Address(hash, mod, split)
  {
    ModDouble(hash, mod);
  }

  /** Rewinding the split moves no entry except those of the bucket at the new split + mod. */
  lemma RewindKeepsAddress(hash: nat, mod: nat, split: int)
    requires 0 <= split < mod && mod % 2 == 0 && (split == 0 ==> mod >= 4)
    requires Address(hash, mod, split) != Rewound(mod, split).1 + Rewound(mod, split).0
    ensures Rewound(mod, split).0 > 0
    ensures Address(hash, Rewound(mod, split).0, Rewound(mod, split).1) == Address(hash, mod, split)
  {
    if split == 0 {
      var m := mod / 2;
      assert 2 * m == mod;
      ModDouble(hash, m);
    } else {
      ModDouble(hash, mod);
    }
  }

  /**
   * Both steps undo each other on (mod, split). A rewind from split 0 halves
   * mod, which the following advance doubles again, so the second direction
   * needs only an even mod, i.e. mod >= 2.
   */
  lemma AdvanceRewindInverse(mod: nat, split: int)
    requires 0 <= split < mod && IsPow2(mod)
    ensures Rewound(Advanced(mod, split).0, Advanced(mod, split).1) == (mod, split)
    ensures mod >= 2 ==> Advanced(Rewound(mod, split).0, Rewound(mod, split).1) == (mod, split)
  {
    if mod >= 2 {
      Pow2Half(mod);
    }
  }

  lemma Pow2Double(n: nat)
    requires IsPow2(n)
    ensures IsPow2(2 * n)
  {
    assert (2 * n) / 2 == n;
  }

  lemma Pow2Half(n: nat)
    requires IsPow2(n) && n >= 2
    ensures n % 2 == 0 && IsPow2(n / 2) && (n >= 3 ==> n / 2 >= 2)
  {
  }

  // ---------------------------------------------------------------------------
  // Buckets as a whole

  /** Every entry, bucket by bucket and head first: the order in which dmIterate visits them. */
  function Flatten(t: seq<Chain>): (r: seq<Entry>)
  {
    if t == [] then [] else t[0] + Flatten(t[1..])
  }

  ghost function Elements(t: seq<Chain>): multiset<Entry>
  {
    multiset(Flatten(t))
  }

  lemma {:induction false} FlattenAppend(t: seq<Chain>, u: seq<Chain>)
    ensures Flatten(t + u) == Flatten(t) + Flatten(u)
  {
    if t == [] {
      assert t + u == u;
    } else {
      assert (t + u)[1..] == t[1..] + u;
      FlattenAppend(t[1..], u);
    }
  }

  lemma {:induction false} FlattenEmpty(t: seq<Chain>)
    requires forall b :: 0 <= b < |t| ==> t[b] == []
    ensures Flatten(t) == []
  {
    if t != [] {
      FlattenEmpty(t[1..]);
    }
  }

  /** Dropping trailing empty buckets drops no entry. */
  lemma FlattenTake(t: seq<Chain>, n: nat)
    requires n <= |t| && forall b :: n <= b < |t| ==> t[b] == []
    ensures Flatten(t[..n]) == Flatten(t)
  {
    assert t == t[..n] + t[n..];
    FlattenAppend(t[..n], t[n..]);
    FlattenEmpty(t[n..]);
  }

  /** Replacing one chain replaces its entries and nothing else. */
  lemma {:induction false} FlattenUpdate(t: seq<Chain>, i: nat, c: Chain)
    requires i < |t|
    ensures multiset(Flatten(t[i := c])) + multiset(t[i]) == multiset(Flatten(t)) + multiset(c)
  {
    if i == 0 {
      assert t[i := c][1..] == t[1..];
      assert Flatten(t[i := c]) == c + Flatten(t[1..]);
      assert Flatten(t) == t[0] + Flatten(t[1..]);
    } else {
      var u := t[1..];
      assert t[i := c][1..] == u[i - 1 := c];
      FlattenUpdate(u, i - 1, c);
      var A, X, Y := t[0], Flatten(u[i - 1 := c]), Flatten(u);
      assert Flatten(t[i := c]) == A + X;
      assert Flatten(t) == A + Y;
      assert multiset(A + X) + multiset(t[i]) == multiset(A) + (multiset(X) + multiset(t[i]));
    }
  }

  lemma MultisetCancel<X>(x: multiset<X>, y: multiset<X>, m: multiset<X>)
    requires x + m == y + m
    ensures x == y
  {
    assert forall e :: x[e] == (x + m)[e] - m[e];
    assert forall e :: y[e] == (y + m)[e] - m[e];
  }

  /** Every entry of the table sits at some bucket and chain position. */
  lemma {:induction false} FlattenMember(t: seq<Chain>, e: Entry) returns (b: nat, j: nat)
    requires e in Flatten(t)
    ensures b < |t| && j < |t[b]| && t[b][j] == e
  {
    if e in t[0] {
      b := 0;
      j :| j < |t[0]| && t[0][j] == e;
    } else {
      var b', j' := FlattenMember(t[1..], e);
      b, j := b' + 1, j';
    }
  }

  /** Every chain position holds an entry of the table. */
  lemma {:induction false} InFlatten(t: seq<Chain>, b: nat, j: nat)
    requires b < |t| && j < |t[b]|
    ensures t[b][j] in Flatten(t)
  {
    if b > 0 {
      InFlatten(t[1..], b - 1, j);
    }
  }

  // ---------------------------------------------------------------------------
  // The invariant

  /** Every entry sits in the bucket that linearHashCompute names for its hash. */
  ghost predicate Placed(t: seq<Chain>, mod: nat, split: int)
    requires mod > 0
  {
    forall b, j :: 0 <= b < |t| && 0 <= j < |t[b]| ==> Address(t[b][j].hash, mod, split) == b
  }

  /** Each cached hash is the hash of its entry's key. */
  ghost predicate Cached(m: multiset<Entry>, hashString: string -> Hash, hashInt: int -> Hash)
  {
    forall e :: e in m ==> e.hash == KeyHash(hashString, hashInt, e.key)
  }

  /** No entry is chained twice and no two entries share a key. */
  ghost predicate UniqueKeys(m: multiset<Entry>)
  {
    (forall e :: e in m ==> m[e] <= 1) &&
    (forall e1, e2 {:trigger m[e1], m[e2]} :: e1 in m && e2 in m && e1.key == e2.key ==> e1 == e2)
  }

  ghost predicate Inv(T: Table, hashString: string -> Hash, hashInt: int -> Hash)
  {
    T.mod >= INITIAL_MODULUS && IsPow2(T.mod) && 0 <= T.split < T.mod &&
    |T.buckets| == 2 * T.mod &&
    Placed(T.buckets, T.mod, T.split) &&
    Cached(Elements(T.buckets), hashString, hashInt) &&
    UniqueKeys(Elements(T.buckets))
  }

  /** The buckets [split + mod, 2 * mod) of a valid table are empty. */
  lemma TailEmpty(T: Table, hashString: string -> Hash, hashInt: int -> Hash)
    requires Inv(T, hashString, hashInt)
    ensures forall b :: T.split + T.mod <= b < |T.buckets| ==> T.buckets[b] == []
  {
    forall b | T.split + T.mod <= b < |T.buckets|
      ensures T.buckets[b] == []
    {
      if T.buckets[b] != [] {
        AddressInRange(T.buckets[b][0].hash, T.mod, T.split);
      }
    }
  }

  /** So the buckets [0, split + mod) that dmIterate walks hold every entry. */
  lemma IterationCoversAll(T: Table, hashString: string -> Hash, hashInt: int -> Hash)
    requires Inv(T, hashString, hashInt)
    ensures Flatten(T.buckets[..T.split + T.mod]) == Flatten(T.buckets)
  {
    TailEmpty(T, hashString, hashInt);
    FlattenTake(T.buckets, T.split + T.mod);
  }

  /** A key that is not in the bucket its hash addresses is nowhere in a valid table. */
  lemma AbsentFromBucket(T: Table, hashString: string -> Hash, hashInt: int -> Hash, key: Key)
    requires Inv(T, hashString, hashInt)
    requires var a := Address(KeyHash(hashString, hashInt, key), T.mod, T.split);
             forall j :: 0 <= j < |T.buckets[a]| ==> T.buckets[a][j].key != key
    ensures forall e :: e in Elements(T.buckets) ==> e.key != key
  {
    AddressInRange(KeyHash(hashString, hashInt, key), T.mod, T.split);
    forall e | e in Elements(T.buckets)
      ensures e.key != key
    {
      var b, j := FlattenMember(T.buckets, e);
    }
  }

  // ---------------------------------------------------------------------------
  // dmBucketEntryChain

  /** Prepend each entry of `chain`, in order, to the bucket its hash addresses. */
  function Bucketed(t: seq<Chain>, chain: Chain, mod: nat, split: int): (r: seq<Chain>)
    requires mod > 0
    requires forall j :: 0 <= j < |chain| ==> Address(chain[j].hash, mod, split) < |t|
    ensures |r| == |t|
    decreases chain
  {
    if chain == [] then t
    else
      var a := Address(chain[0].hash, mod, split);
      Bucketed(t[a := [chain[0]] + t[a]], chain[1..], mod, split)
  }

  lemma PrependElements(t: seq<Chain>, a: nat, e: Entry)
    requires a < |t|
    ensures Elements(t[a := [e] + t[a]]) == Elements(t) + multiset{e}
  {
    FlattenUpdate(t, a, [e] + t[a]);
    assert multiset([e] + t[a]) == multiset{e} + multiset(t[a]);
    MultisetCancel(Elements(t[a := [e] + t[a]]), Elements(t) + multiset{e}, multiset(t[a]));
  }

  /** Re-bucketing a chain adds exactly its entries... */
  lemma {:induction false} BucketedElements(t: seq<Chain>, chain: Chain, mod: nat, split: int)
    requires mod > 0
    requires forall j :: 0 <= j < |chain| ==> Address(chain[j].hash, mod, split) < |t|
    ensures Elements(Bucketed(t, chain, mod, split)) == Elements(t) + multiset(chain)
    decreases chain
  {
    if chain != [] {
      var a := Address(chain[0].hash, mod, split);
      var t' := t[a := [chain[0]] + t[a]];
      assert Bucketed(t, chain, mod, split) == Bucketed(t', chain[1..], mod, split);
      PrependElements(t, a, chain[0]);
      BucketedElements(t', chain[1..], mod, split);
      assert chain == [chain[0]] + chain[1..];
      assert multiset(chain) == multiset{chain[0]} + multiset(chain[1..]);
    }
  }

  /** ...and puts each of them where linearHashCompute says. */
  lemma {:induction false} BucketedPlaced(t: seq<Chain>, chain: Chain, mod: nat, split: int)
    requires mod > 0
    requires forall j :: 0 <= j < |chain| ==> Address(chain[j].hash, mod, split) < |t|
    requires Placed(t, mod, split)
    ensures Placed(Bucketed(t, chain, mod, split), mod, split)
    decreases chain
  {
    if chain != [] {
      var a := Address(chain[0].hash, mod, split);
      var t' := t[a := [chain[0]] + t[a]];
      assert Placed(t', mod, split) by {
        forall b, j | 0 <= b < |t'| && 0 <= j < |t'[b]|
          ensures Address(t'[b][j].hash, mod, split) == b
        {
          if b == a && j > 0 {
            assert t'[b][j] == t[a][j - 1];
          }
        }
      }
      BucketedPlaced(t', chain[1..], mod, split);
    }
  }

  // ---------------------------------------------------------------------------
  // The steps of dmNewEntry, dmEraseString/Integer and dmRewindSplit

  /** A smaller collection of entries keeps unique keys and correct cached hashes. */
  lemma SubKeeps(small: multiset<Entry>, big: multiset<Entry>, hashString: string -> Hash, hashInt: int -> Hash)
    requires small <= big
    requires UniqueKeys(big) && Cached(big, hashString, hashInt)
    ensures UniqueKeys(small) && Cached(small, hashString, hashInt)
  {
    forall e | e in small
      ensures small[e] <= 1
    {
      assert small[e] <= big[e];
    }
  }

  /** dmNewEntry's first step: chain entry e into its bucket. */
  function Insert(T: Table, e: Entry): (r: Table)
    requires 0 <= T.split < T.mod && |T.buckets| == 2 * T.mod
  {
    assert Address(e.hash, T.mod, T.split) < |T.buckets| by {
      AddressInRange(e.hash, T.mod, T.split);
    }
    Table(Bucketed(T.buckets, [e], T.mod, T.split), T.mod, T.split)
  }

  /**
   * The buckets once dmNewEntry has stolen the chain at the split, advanced
   * the split and, at the end of a round, grown the table to 2 * (2 * mod).
   */
  function Stolen(T: Table): (r: seq<Chain>)
    requires 0 <= T.split < T.mod && |T.buckets| == 2 * T.mod
    ensures |r| == 2 * Advanced(T.mod, T.split).0
  {
    var stolen := T.buckets[T.split := []];
    if T.split + 1 == T.mod then stolen + seq(2 * T.mod, _ => []) else stolen
  }

  /** dmNewEntry's growth step: the stolen chain is re-bucketed under the advanced split. */
  function Split(T: Table): (r: Table)
    requires 0 <= T.split < T.mod && |T.buckets| == 2 * T.mod
  {
    var (m, s) := Advanced(T.mod, T.split);
    var chain := T.buckets[T.split];
    assert forall j :: 0 <= j < |chain| ==> Address(chain[j].hash, m, s) < 2 * m by {
      forall j | 0 <= j < |chain| {
        AddressInRange(chain[j].hash, m, s);
      }
    }
    Table(Bucketed(Stolen(T), chain, m, s), m, s)
  }

  /** The unlink of dmEraseString/Integer: drop position i of chain b. */
  function Remove(T: Table, b: nat, i: nat): (r: Table)
    requires b < |T.buckets| && i < |T.buckets[b]|
  {
    Table(T.buckets[b := T.buckets[b][..i] + T.buckets[b][i + 1..]], T.mod, T.split)
  }

  /**
   * The buckets once dmRewindSplit has moved the split back, at the start of
   * a round shrunk the table to 2 * (mod / 2), and emptied bucket split + mod.
   */
  function Cleared(T: Table): (r: seq<Chain>)
    requires 0 <= T.split < T.mod && T.mod % 2 == 0 && (T.split == 0 ==> T.mod >= 4)
    requires |T.buckets| == 2 * T.mod
    ensures |r| == 2 * Rewound(T.mod, T.split).0
  {
    var (m, s) := Rewound(T.mod, T.split);
    T.buckets[..2 * m][s + m := []]
  }

  /** dmRewindSplit: the emptied chain is re-bucketed under the rewound split. */
  function Rewind(T: Table): (r: Table)
    requires 0 <= T.split < T.mod && T.mod >= 2 && IsPow2(T.mod) && T.split + T.mod >= 3
    requires |T.buckets| == 2 * T.mod
  {
    assert T.mod % 2 == 0 && (T.split == 0 ==> T.mod >= 4) by {
      Pow2Half(T.mod);
    }
    var (m, s) := Rewound(T.mod, T.split);
    var chain := T.buckets[s + m];
    assert forall j :: 0 <= j < |chain| ==> Address(chain[j].hash, m, s) < 2 * m by {
      forall j | 0 <= j < |chain| {
        AddressInRange(chain[j].hash, m, s);
      }
    }
    Table(Bucketed(Cleared(T), chain, m, s), m, s)
  }

  /** The growth step spelled out for the advanced (mod, split) pair m, s. */
  lemma SplitIs(T: Table, m: nat, s: int, stolen: seq<Chain>, chain: Chain)
    requires 0 <= T.split < T.mod && |T.buckets| == 2 * T.mod && (m, s) == Advanced(T.mod, T.split)
    requires stolen == Stolen(T) && chain == T.buckets[T.split]
    ensures Split(T) == Table(Bucketed(stolen, chain, m, s), m, s)
  {
  }

  /**
   * The rewind step spelled out: the table cut to the rewound size, then the
   * chain at s + m taken out and re-bucketed.
   */
  lemma RewindIs(T: Table, m: nat, s: int, retreated: seq<Chain>)
    requires 0 <= T.split < T.mod && T.mod >= 2 && IsPow2(T.mod) && T.split + T.mod >= 3
    requires |T.buckets| == 2 * T.mod && (m, s) == Rewound(T.mod, T.split)
    requires T.mod % 2 == 0 && (T.split == 0 ==> T.mod >= 4)
    requires retreated == T.buckets[..2 * m]
    ensures 0 <= s + m < |retreated|
    ensures Rewind(T) == Table(Bucketed(retreated[s + m := []], retreated[s + m], m, s), m, s)
  {
  }

  /** Chaining a new entry whose key is absent keeps the invariant and adds exactly that entry. */
  lemma InsertKeepsInv(T: Table, e: Entry, hashString: string -> Hash, hashInt: int -> Hash)
    requires Inv(T, hashString, hashInt)
    requires e.hash == KeyHash(hashString, hashInt, e.key)
    requires e !in Elements(T.buckets)
    requires forall x :: x in Elements(T.buckets) ==> x.key != e.key
    ensures Inv(Insert(T, e), hashString, hashInt)
    ensures Elements(Insert(T, e).buckets) == Elements(T.buckets) + multiset{e}
  {
    AddressInRange(e.hash, T.mod, T.split);
    BucketedElements(T.buckets, [e], T.mod, T.split);
    BucketedPlaced(T.buckets, [e], T.mod, T.split);
  }

  lemma StolenPlaced(T: Table)
    requires 0 <= T.split < T.mod && |T.buckets| == 2 * T.mod && Placed(T.buckets, T.mod, T.split)
    ensures Placed(Stolen(T), Advanced(T.mod, T.split).0, Advanced(T.mod, T.split).1)
  {
    var (m, s) := Advanced(T.mod, T.split);
    var sized: seq<Chain> := Stolen(T);
    forall b: int, j: int | 0 <= b < |sized| && 0 <= j < |sized[b]|
      ensures Address(sized[b][j].hash, m, s) == b
    {
      assert b < |T.buckets| && b != T.split && sized[b] == T.buckets[b];
      AdvanceKeepsAddress(T.buckets[b][j].hash, T.mod, T.split);
    }
  }

  lemma StolenElements(T: Table)
    requires 0 <= T.split < T.mod && |T.buckets| == 2 * T.mod
    ensures Elements(Stolen(T)) + multiset(T.buckets[T.split]) == Elements(T.buckets)
  {
    var stolen := T.buckets[T.split := []];
    var sized := Stolen(T);
    assert Elements(sized) == Elements(stolen) by {
      if sized != stolen {
        var empties: seq<Chain> := seq(2 * T.mod, _ => []);
        FlattenAppend(stolen, empties);
        FlattenEmpty(empties);
        assert Flatten(sized) == Flatten(stolen) + [];
      }
    }
    FlattenUpdate(T.buckets, T.split, []);
  }

  lemma SplitParts(T: Table)
    requires 0 <= T.split < T.mod && |T.buckets| == 2 * T.mod && Placed(T.buckets, T.mod, T.split)
    ensures (Split(T).mod, Split(T).split) == Advanced(T.mod, T.split)
    ensures |Split(T).buckets| == 2 * Split(T).mod
    ensures Placed(Split(T).buckets, Split(T).mod, Split(T).split)
    ensures Elements(Split(T).buckets) == Elements(T.buckets)
  {
    var (m, s) := Advanced(T.mod, T.split);
    var chain := T.buckets[T.split];
    assert Split(T) == Table(Bucketed(Stolen(T), chain, m, s), m, s);
    StolenPlaced(T);
    StolenElements(T);
    Rebucket(Stolen(T), chain, m, s);
  }

  /** The growth step keeps the invariant and the entries, and moves split + mod up by one. */
  lemma SplitKeepsInv(T: Table, hashString: string -> Hash, hashInt: int -> Hash)
    requires Inv(T, hashString, hashInt)
    ensures Inv(Split(T), hashString, hashInt)
    ensures Elements(Split(T).buckets) == Elements(T.buckets)
    ensures (Split(T).mod, Split(T).split) == Advanced(T.mod, T.split)
    ensures Split(T).split + Split(T).mod == T.split + T.mod + 1
  {
    SplitParts(T);
    Pow2Double(T.mod);
  }

  lemma RemoveElements(t: seq<Chain>, b: nat, i: nat)
    requires b < |t| && i < |t[b]|
    ensures Elements(t[b := t[b][..i] + t[b][i + 1..]]) + multiset{t[b][i]} == Elements(t)
  {
    var c := t[b];
    var c' := c[..i] + c[i + 1..];
    assert c == c[..i] + [c[i]] + c[i + 1..];
    assert multiset(c) == multiset(c') + multiset{c[i]};
    FlattenUpdate(t, b, c');
    MultisetCancel(Elements(t[b := c']) + multiset{c[i]}, Elements(t), multiset(c'));
  }

  lemma RemovePlaced(t: seq<Chain>, b: nat, i: nat, mod: nat, split: int)
    requires b < |t| && i < |t[b]| && mod > 0
    requires Placed(t, mod, split)
    ensures Placed(t[b := t[b][..i] + t[b][i + 1..]], mod, split)
  {
    var c := t[b];
    var t': seq<Chain> := t[b := c[..i] + c[i + 1..]];
    forall b': int, j: int | 0 <= b' < |t'| && 0 <= j < |t'[b']|
      ensures Address(t'[b'][j].hash, mod, split) == b'
    {
      if b' == b {
        if j < i {
          assert t'[b'][j] == c[j];
        } else {
          assert t'[b'][j] == c[j + 1];
        }
      }
    }
  }

  /** Unlinking one entry keeps the invariant and removes exactly that entry. */
  lemma RemoveKeepsInv(T: Table, b: nat, i: nat, hashString: string -> Hash, hashInt: int -> Hash)
    requires Inv(T, hashString, hashInt)
    requires b < |T.buckets| && i < |T.buckets[b]|
    ensures Inv(Remove(T, b, i), hashString, hashInt)
    ensures Elements(Remove(T, b, i).buckets) + multiset{T.buckets[b][i]} == Elements(T.buckets)
  {
    var t' := Remove(T, b, i).buckets;
    RemoveElements(T.buckets, b, i);
    RemovePlaced(T.buckets, b, i, T.mod, T.split);
    SubKeeps(Elements(t'), Elements(T.buckets), hashString, hashInt);
  }

  /** A table whose 2 * m buckets are all empty satisfies the invariant for any split. */
  lemma EmptyTableInv(buckets: seq<Chain>, m: nat, s: int, hashString: string -> Hash, hashInt: int -> Hash)
    requires m >= INITIAL_MODULUS && IsPow2(m) && 0 <= s < m
    requires buckets == seq(2 * m, _ => [])
    ensures Inv(Table(buckets, m, s), hashString, hashInt)
    ensures Elements(buckets) == multiset{}
  {
    FlattenEmpty(buckets);
  }

  lemma ClearedPlaced(T: Table)
    requires 0 <= T.split < T.mod && T.mod % 2 == 0 && (T.split == 0 ==> T.mod >= 4)
    requires |T.buckets| == 2 * T.mod && Placed(T.buckets, T.mod, T.split)
    ensures Placed(Cleared(T), Rewound(T.mod, T.split).0, Rewound(T.mod, T.split).1)
  {
    var (m, s) := Rewound(T.mod, T.split);
    var cleared: seq<Chain> := Cleared(T);
    forall b: int, j: int | 0 <= b < |cleared| && 0 <= j < |cleared[b]|
      ensures Address(cleared[b][j].hash, m, s) == b
    {
      assert b != s + m && cleared[b] == T.buckets[b];
      RewindKeepsAddress(T.buckets[b][j].hash, T.mod, T.split);
    }
  }

  lemma ClearedElements(T: Table)
    requires 0 <= T.split < T.mod && T.mod % 2 == 0 && (T.split == 0 ==> T.mod >= 4)
    requires |T.buckets| == 2 * T.mod
    requires forall b :: T.split + T.mod <= b < |T.buckets| ==> T.buckets[b] == []
    ensures Elements(Cleared(T)) + multiset(T.buckets[Rewound(T.mod, T.split).1 + Rewound(T.mod, T.split).0])
            == Elements(T.buckets)
  {
    var (m, s) := Rewound(T.mod, T.split);
    var sized := T.buckets[..2 * m];
    assert Elements(sized) == Elements(T.buckets) by {
      if m != T.mod {
        FlattenTake(T.buckets, 2 * m);
      } else {
        assert sized == T.buckets;
      }
    }
    assert sized[s + m] == T.buckets[s + m];
    FlattenUpdate(sized, s + m, []);
  }

  lemma RewindParts(T: Table, hashString: string -> Hash, hashInt: int -> Hash)
    requires Inv(T, hashString, hashInt)
    requires T.mod % 2 == 0 && (T.split == 0 ==> T.mod >= 4)
    ensures (Rewind(T).mod, Rewind(T).split) == Rewound(T.mod, T.split)
    ensures |Rewind(T).buckets| == 2 * Rewind(T).mod
    ensures Placed(Rewind(T).buckets, Rewind(T).mod, Rewind(T).split)
    ensures Elements(Rewind(T).buckets) == Elements(T.buckets)
  {
    var (m, s) := Rewound(T.mod, T.split);
    var cleared := Cleared(T);
    var chain := T.buckets[s + m];
    assert Rewind(T) == Table(Bucketed(cleared, chain, m, s), m, s);
    TailEmpty(T, hashString, hashInt);
    ClearedPlaced(T);
    ClearedElements(T);
    Rebucket(cleared, chain, m, s);
  }

  /** The rewind step keeps the invariant and the entries, and moves split + mod down by one. */
  lemma RewindKeepsInv(T: Table, hashString: string -> Hash, hashInt: int -> Hash)
    requires Inv(T, hashString, hashInt)
    requires T.split + T.mod >= 3
    ensures T.mod % 2 == 0 && (T.split == 0 ==> T.mod >= 4)
    ensures Inv(Rewind(T), hashString, hashInt)
    ensures Elements(Rewind(T).buckets) == Elements(T.buckets)
    ensures (Rewind(T).mod, Rewind(T).split) == Rewound(T.mod, T.split)
    ensures Rewind(T).split + Rewind(T).mod == T.split + T.mod - 1
  {
    Pow2Half(T.mod);
    RewindParts(T, hashString, hashInt);
  }

  /**
   * dmNewEntry as a whole: chaining an entry whose key is absent and then
   * splitting keeps the invariant and adds exactly that entry.
   */
  lemma NewEntryKeepsInv(T: Table, e: Entry, U: Table, hashString: string -> Hash, hashInt: int -> Hash)
    requires Inv(T, hashString, hashInt)
    requires e.hash == KeyHash(hashString, hashInt, e.key) && e !in Elements(T.buckets)
    requires forall x :: x in Elements(T.buckets) ==> x.key != e.key
    requires U == Split(Insert(T, e))
    ensures Inv(U, hashString, hashInt)
    ensures Elements(U.buckets) == Elements(T.buckets) + multiset{e}
    ensures (U.mod, U.split) == Advanced(T.mod, T.split)
  {
    InsertKeepsInv(T, e, hashString, hashInt);
    SplitKeepsInv(Insert(T, e), hashString, hashInt);
  }

  /**
   * A successful erase as a whole: unlinking entry i of chain b and then
   * rewinding keeps the invariant, drops exactly that entry, and leaves no
   * entry with its key.
   */
  lemma EraseKeepsInv(T: Table, b: nat, i: nat, U: Table, hashString: string -> Hash, hashInt: int -> Hash)
    requires Inv(T, hashString, hashInt) && T.split + T.mod >= 3
    requires b < |T.buckets| && i < |T.buckets[b]|
    requires U == Rewind(Remove(T, b, i))
    ensures Inv(U, hashString, hashInt)
    ensures Elements(U.buckets) == Elements(T.buckets) - multiset{T.buckets[b][i]}
    ensures |Elements(U.buckets)| == |Elements(T.buckets)| - 1
    ensures forall e :: e in Elements(U.buckets) ==> e in Elements(T.buckets) && e.key != T.buckets[b][i].key
    ensures (U.mod, U.split) == Rewound(T.mod, T.split) && U.split + U.mod == T.split + T.mod - 1
  {
    var gone := T.buckets[b][i];
    var R := Remove(T, b, i);
    RemoveKeepsInv(T, b, i, hashString, hashInt);
    RewindKeepsInv(R, hashString, hashInt);
    InFlatten(T.buckets, b, i);
    var left := Elements(Rewind(R).buckets);
    assert left + multiset{gone} == Elements(T.buckets);
    assert gone !in left by {
      assert Elements(T.buckets)[gone] == left[gone] + 1;
    }
    forall e | e in left
      ensures e.key != gone.key
    {
      assert e in Elements(T.buckets) && e != gone;
    }
  }

  /** Re-bucketing a chain into a placed table of 2 * m buckets. */
  lemma Rebucket(t: seq<Chain>, chain: Chain, m: nat, s: int)
    requires 0 <= s < m && |t| == 2 * m && Placed(t, m, s)
    ensures forall j :: 0 <= j < |chain| ==> Address(chain[j].hash, m, s) < |t|
    ensures Placed(Bucketed(t, chain, m, s), m, s)
    ensures Elements(Bucketed(t, chain, m, s)) == Elements(t) + multiset(chain)
  {
    forall j | 0 <= j < |chain| {
      AddressInRange(chain[j].hash, m, s);
    }
    BucketedElements(t, chain, m, s);
    BucketedPlaced(t, chain, m, s);
  }
}
