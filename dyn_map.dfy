/**
 * The linear-hashing map of src/dynMap.c as an object.
 *
 * The bucket table is a growable array of chains (the collaborator of
 * src/dynArray.c); `split`, `mod` and `count` are updated in place by every
 * insertion and every successful erase. The hash functions HASHSTRING and
 * HASHINT are fixed when the map is created and are otherwise abstract.
 */
module DynMap {
  import opened LinearHash
  import DynArray

  /** The entry's key kind matches the map's flags (DKF_INTEGER or not). */
  predicate KindMatches(k: Key, integerKeys: bool)
  {
    k.IntKey? == integerKeys
  }

  /** Distinct multiplicities in a sequence make its elements pairwise distinct. */
  lemma DistinctFromCounts(s: seq<Entry>, m: multiset<Entry>)
    requires multiset(s) == m && forall e :: e in m ==> m[e] <= 1
    ensures forall i, j :: 0 <= i < j < |s| ==> s[i] != s[j]
  {
    forall i, j | 0 <= i < j < |s|
      ensures s[i] != s[j]
    {
      TwoPositions(s, i, j);
    }
  }

  /** Walking buckets [0, split + mod) of a valid table yields every entry exactly once. */
  lemma VisitedAll(T: Table, visited: seq<Entry>, hashString: string -> Hash, hashInt: int -> Hash)
    requires Inv(T, hashString, hashInt) && visited == Flatten(T.buckets[..T.split + T.mod])
    ensures multiset(visited) == Elements(T.buckets)
    ensures forall i, j :: 0 <= i < j < |visited| ==> visited[i] != visited[j]
  {
    IterationCoversAll(T, hashString, hashInt);
    DistinctFromCounts(visited, Elements(T.buckets));
  }

  lemma TwoPositions(s: seq<Entry>, i: nat, j: nat)
    requires i < j < |s|
    ensures s[i] == s[j] ==> multiset(s)[s[i]] >= 2
  {
    assert s == s[..i] + [s[i]] + s[i + 1..j] + [s[j]] + s[j + 1..];
  }

  /**
   * The chain walk of dmFindString, dmFindInteger, dmEraseString and
   * dmEraseInteger: the first position holding key, or |chain| when none does.
   */
  method SearchChain(chain: Chain, key: Key) returns (i: nat)
    ensures i <= |chain|
    ensures i < |chain| ==> chain[i].key == key
    ensures forall j :: 0 <= j < i ==> chain[j].key != key
  {
    i := 0;
    while i < |chain|
      invariant i <= |chain|
      invariant forall j :: 0 <= j < i ==> chain[j].key != key
    {
      if chain[i].key == key {
        return;
      }
      i := i + 1;
    }
  }

  class DynMap {
    /** DKF_INTEGER: the map is keyed by integers rather than strings. */
    const integerKeys: bool
    /** The size of the value blob behind each entry. */
    const elementSize: nat
    const hashString: string -> Hash
    const hashInt: int -> Hash
    /** dm->table: 2 * mod bucket heads, each the chain that starts there. */
    const table: DynArray.DynArray<Chain>
    var split: int
    var mod: nat
    var count: int
    /** Entries dropped by a clear while `count` kept counting them. */
    ghost var stale: nat
    /** Every entry handed to a destructor callback so far, in call order. */
    ghost var destroyed: seq<Entry>

    ghost function Shape(): Table
      reads this, table, table.data
      requires table.Valid()
    {
      Table(table.Contents(), mod, split)
    }

    /**
     * The table is live and holds 2 * mod buckets, with the split inside
     * [0, mod): what the bucket arithmetic needs, without the placement of
     * the entries.
     */
    ghost predicate Laid()
      reads this, table, table.data
    {
      table.Valid() && table.live && table.zero == [] &&
      0 <= split < mod && table.size == 2 * mod
    }

    ghost predicate Valid()
      reads this, table, table.data
    {
      Laid() &&
      Inv(Shape(), hashString, hashInt) &&
      count == |Elements(table.Contents())| + stale &&
      split + mod == count + 2 &&
      (forall e :: e in Elements(table.Contents()) ==> KindMatches(e.key, integerKeys))
    }

    /** The entries of the map, each once. */
    ghost function Entries(): multiset<Entry>
      reads this, table, table.data
      requires Valid()
    {
      Elements(table.Contents())
    }

    ghost predicate HasKey(k: Key)
      reads this, table, table.data
      requires Valid()
    {
      exists e :: e in Entries() && e.key == k
    }

    /** The one entry holding key k. */
    ghost function EntryOf(k: Key): (e: Entry)
      reads this, table, table.data
      requires Valid() && HasKey(k)
      ensures e in Entries() && e.key == k
    {
      var e :| e in Entries() && e.key == k; e
    }

    /**
     * dmCreate: an empty map with INITIAL_MODULUS, split 0 and a table of
     * 2 * INITIAL_MODULUS empty buckets; a zero elementSize selects
     * defaultElementSize.
     */
    constructor (integerKeys: bool, elementSize: nat, defaultElementSize: nat,
                 hashString: string -> Hash, hashInt: int -> Hash)
      ensures Valid() && fresh(table)
      ensures this.integerKeys == integerKeys && this.hashString == hashString && this.hashInt == hashInt
      ensures this.elementSize == if elementSize > 0 then elementSize else defaultElementSize
      ensures split == 0 && mod == INITIAL_MODULUS && count == 0
      ensures table.Contents() == seq(2 * INITIAL_MODULUS, _ => []) && Entries() == multiset{}
      ensures table.capacity == 2 * INITIAL_MODULUS
      ensures stale == 0 && destroyed == []
    {
      this.integerKeys := integerKeys;
      this.elementSize := if elementSize > 0 then elementSize else defaultElementSize;
      this.hashString := hashString;
      this.hashInt := hashInt;
      table := new DynArray.DynArray<Chain>([]);
      split := 0;
      mod := INITIAL_MODULUS;
      count := 0;
      stale := 0;
      destroyed := [];
      new;
      table.SetSize(2 * mod, false);
      assert table.Contents() == seq(2 * INITIAL_MODULUS, _ => []);
      EmptyTableInv(table.Contents(), mod, split, hashString, hashInt);
    }

    /**
     * dmBucketEntryChain: prepend each entry of `chain`, in order, to the
     * bucket linearHashCompute names for its hash.
     */
    method BucketEntryChain(chain: Chain)
      requires table.Valid() && mod > 0
      requires forall j :: 0 <= j < |chain| ==> Address(chain[j].hash, mod, split) < table.size
      modifies table.data
      ensures table.Valid()
      ensures table.Contents() == Bucketed(old(table.Contents()), chain, mod, split)
    {
      var i := 0;
      while i < |chain|
        invariant 0 <= i <= |chain| && table.Valid()
        invariant Bucketed(table.Contents(), chain[i..], mod, split) == Bucketed(old(table.Contents()), chain, mod, split)
      {
        var entry := chain[i];
        var tableIndex := Address(entry.hash, mod, split);
        ghost var t := table.Contents();
        assert chain[i..][0] == entry && chain[i..][1..] == chain[i + 1..];
        table.data[tableIndex] := [entry] + table.data[tableIndex];
        assert table.Contents() == t[tableIndex := [entry] + t[tableIndex]];
        i := i + 1;
      }
    }


    /** Detach the chain at bucket index, leaving that bucket empty. */
    method TakeBucket(index: nat) returns (chain: Chain)
      requires table.Valid() && index < table.size
      modifies table.data
      ensures table.Valid()
      ensures chain == old(table.Contents())[index]
      ensures table.Contents() == old(table.Contents())[index := []]
    {
      chain := table.data[index];
      table.data[index] := [];
    }

    /** Take the chain at bucket index out of the table and re-bucket its entries. */
    method RebucketChain(index: nat)
      requires Laid() && index < table.size
      modifies table.data
      ensures Laid()
      ensures table.Contents() == Bucketed(old(table.Contents())[index := []], old(table.Contents())[index], mod, split)
    {
      var chain := table.data[index];
      table.data[index] := [];
      forall j | 0 <= j < |chain| {
        AddressInRange(chain[j].hash, mod, split);
      }
      BucketEntryChain(chain);
    }

    /**
     * dmNewEntry: chain a fresh entry for an absent key into the bucket its
     * hash addresses, run one growth step, and count the entry.
     */
    method NewEntry(hash: Hash, key: Key) returns (entry: Entry)
      requires Valid() && hash == KeyHash(hashString, hashInt, key) && KindMatches(key, integerKeys)
      requires forall e :: e in Entries() ==> e.key != key
      modifies this, table, table.data
      ensures Valid() && fresh(entry)
      ensures entry.key == key && entry.hash == hash && entry.value == 0
      ensures Shape() == Split(Insert(old(Shape()), entry))
      ensures Entries() == old(Entries()) + multiset{entry}
      ensures count == old(count) + 1 && (mod, split) == Advanced(old(mod), old(split))
      ensures table.capacity == if 2 * mod > old(table.capacity) then 2 * mod else old(table.capacity)
      ensures stale == old(stale) && destroyed == old(destroyed) && table.destroyed == old(table.destroyed)
    {
      ghost var T0 := Shape();
      entry := ChainNew(hash, key);
      SplitStep();
      count := count + 1;
      InsertedValid(T0, entry);
    }

    /** The state after chaining the fresh entry e into T0 and splitting once is valid. */
    lemma InsertedValid(T0: Table, e: Entry)
      requires Laid() && Inv(T0, hashString, hashInt)
      requires e.hash == KeyHash(hashString, hashInt, e.key) && e !in Elements(T0.buckets)
      requires forall x :: x in Elements(T0.buckets) ==> x.key != e.key
      requires T0.split + T0.mod + 1 == count + 2 && count == |Elements(T0.buckets)| + 1 + stale
      requires forall x :: x in Elements(T0.buckets) ==> KindMatches(x.key, integerKeys)
      requires KindMatches(e.key, integerKeys)
      requires Shape() == Split(Insert(T0, e))
      ensures Valid()
      ensures Entries() == Elements(T0.buckets) + multiset{e}
      ensures (mod, split) == Advanced(T0.mod, T0.split)
    {
      NewEntryKeepsInv(T0, e, Shape(), hashString, hashInt);
    }

    /** The first half of dmNewEntry: a zeroed entry for key, chained into its bucket. */
    method ChainNew(hash: Hash, key: Key) returns (entry: Entry)
      requires Laid()
      modifies table.data
      ensures Laid() && fresh(entry)
      ensures entry.key == key && entry.hash == hash && entry.value == 0
      ensures Shape() == Insert(old(Shape()), entry)
    {
      ghost var T0 := Shape();
      entry := new Entry(key, hash);
      AddressInRange(hash, mod, split);
      BucketEntryChain([entry]);
    }

    /**
     * The growth step of dmNewEntry: steal the chain at the split, advance
     * the split (doubling mod and the table at the end of a round), and
     * re-bucket the stolen chain.
     */
    method SplitStep()
      requires Laid()
      modifies this, table, table.data
      ensures Laid()
      ensures Shape() == Split(old(Shape()))
      ensures table.capacity == if 2 * mod > old(table.capacity) then 2 * mod else old(table.capacity)
      ensures count == old(count) && stale == old(stale) && destroyed == old(destroyed)
      ensures table.destroyed == old(table.destroyed)
    {
      ghost var T1 := Shape();
      var chain := TakeBucket(split);
      AdvanceSplit();
      assert table.Contents() == Stolen(T1);
      forall j | 0 <= j < |chain| {
        AddressInRange(chain[j].hash, mod, split);
      }
      ghost var moved := table.Contents();
      BucketEntryChain(chain);
      SplitIs(T1, mod, split, moved, chain);
    }

    /** Advance the split; at the end of a round double mod and grow the table to 2 * mod buckets. */
    method AdvanceSplit()
      requires table.Valid() && table.live && table.zero == [] && 0 <= split < mod && table.size == 2 * mod
      modifies this, table, table.data
      ensures table.Valid() && table.live && table.size == 2 * mod
      ensures (mod, split) == Advanced(old(mod), old(split))
      ensures table.Contents() ==
              if old(split) + 1 == old(mod) then old(table.Contents()) + seq(2 * old(mod), _ => []) else old(table.Contents())
      ensures table.capacity == if 2 * mod > old(table.capacity) then 2 * mod else old(table.capacity)
      ensures count == old(count) && stale == old(stale) && destroyed == old(destroyed)
      ensures table.destroyed == old(table.destroyed)
      ensures table.data == old(table.data) || fresh(table.data)
    {
      split := split + 1;
      if split == mod {
        mod := mod * 2;
        split := 0;
        table.SetSize(2 * mod, false);
      }
    }

    /**
     * dmRewindSplit: move the split back one bucket, then re-bucket the
     * chain at split + mod.
     */
    method RewindSplit()
      requires Laid() && IsPow2(mod) && mod >= 2 && split + mod >= 3
      modifies this, table, table.data
      ensures Laid()
      ensures Shape() == Rewind(old(Shape()))
      ensures table.capacity ==
              if old(split) == 0 && 2 * mod * SHRINK_FACTOR < old(table.capacity) then 2 * mod * SHRINK_FACTOR
              else old(table.capacity)
      ensures count == old(count) && stale == old(stale) && destroyed == old(destroyed)
    {
      ghost var T0 := Shape();
      Pow2Half(mod);
      RetreatSplit();
      ghost var retreated := table.Contents();
      var indexToRebucket := split + mod;
      RebucketChain(indexToRebucket);
      RewoundShape(T0, retreated);
    }

    /** The table after retreating T0 to `retreated` and re-bucketing split + mod is Rewind(T0). */
    lemma RewoundShape(T0: Table, retreated: seq<Chain>)
      requires 0 <= T0.split < T0.mod && T0.mod >= 2 && IsPow2(T0.mod) && T0.split + T0.mod >= 3
      requires |T0.buckets| == 2 * T0.mod && (mod, split) == Rewound(T0.mod, T0.split)
      requires T0.mod % 2 == 0 && (T0.split == 0 ==> T0.mod >= 4)
      requires retreated == T0.buckets[..2 * mod] && 0 <= split + mod < |retreated|
      requires table.Valid()
      requires table.Contents() == Bucketed(retreated[split + mod := []], retreated[split + mod], mod, split)
      ensures Shape() == Rewind(T0)
    {
      RewindIs(T0, mod, split, retreated);
    }

    /**
     * Move the split back one bucket; below zero, halve mod, cut the table
     * to 2 * mod buckets, and cut a capacity above SHRINK_FACTOR times that
     * size down to exactly that.
     */
    method RetreatSplit()
      requires Laid() && mod % 2 == 0 && (split == 0 ==> mod >= 4)
      modifies this, table, table.data
      ensures Laid()
      ensures (mod, split) == Rewound(old(mod), old(split))
      ensures table.Contents() == old(table.Contents())[..2 * mod]
      ensures table.capacity ==
              if old(split) == 0 && 2 * mod * SHRINK_FACTOR < old(table.capacity) then 2 * mod * SHRINK_FACTOR
              else old(table.capacity)
      ensures count == old(count) && stale == old(stale) && destroyed == old(destroyed)
      ensures table.destroyed == old(table.destroyed)
      ensures table.data == old(table.data) || fresh(table.data)
    {
      split := split - 1;
      if split < 0 {
        mod := mod / 2;
        split := mod - 1;
        table.SetSize(2 * mod, false);
        // Time to shrink!
        var size := table.Size();
        var capacity := table.Capacity();
        if size * SHRINK_FACTOR < capacity {
          table.SetCapacity(size * SHRINK_FACTOR, false);
        }
      }
    }

    /**
     * dmFindString / dmFindInteger: search the bucket the key's hash
     * addresses; on a miss, create the entry when asked to.
     */
    method FindKey(key: Key, hash: Hash, autoCreate: bool) returns (entry: Entry?)
      requires Valid() && hash == KeyHash(hashString, hashInt, key) && KindMatches(key, integerKeys)
      modifies if autoCreate then {this, table, table.data} else {}
      ensures Valid()
      ensures old(HasKey(key)) ==> entry == old(EntryOf(key))
      ensures old(HasKey(key)) || !autoCreate ==>
                Shape() == old(Shape()) && count == old(count) && table.capacity == old(table.capacity)
      ensures !old(HasKey(key)) && !autoCreate ==> entry == null
      ensures !old(HasKey(key)) && autoCreate ==>
                entry != null && fresh(entry) && entry.key == key && entry.hash == hash && entry.value == 0 &&
                Entries() == old(Entries()) + multiset{entry} &&
                count == old(count) + 1 && (mod, split) == Advanced(old(mod), old(split))
      ensures entry != null ==> entry.key == key && entry in Entries()
      ensures stale == old(stale) && destroyed == old(destroyed)
    {
      var index := Address(hash, mod, split);
      AddressInRange(hash, mod, split);
      var chain := table.data[index];
      var i := SearchChain(chain, key);
      if i < |chain| {
        InFlatten(table.Contents(), index, i);
        return chain[i];
      }
      AbsentFromBucket(Shape(), hashString, hashInt, key);
      if autoCreate {
        entry := NewEntry(hash, key);
        return entry;
      }
      return null;
    }

    /** dmGetString: the entry for key, created (with a zero value) when absent. */
    method GetString(key: string) returns (entry: Entry)
      requires Valid() && !integerKeys
      modifies this, table, table.data
      ensures Valid() && entry.key == StrKey(key) && entry in Entries()
      ensures old(HasKey(StrKey(key))) ==>
                entry == old(EntryOf(StrKey(key))) && Shape() == old(Shape()) && count == old(count)
      ensures !old(HasKey(StrKey(key))) ==>
                fresh(entry) && entry.value == 0 && Entries() == old(Entries()) + multiset{entry} &&
                count == old(count) + 1 && (mod, split) == Advanced(old(mod), old(split))
      ensures stale == old(stale) && destroyed == old(destroyed)
    {
      entry := FindKey(StrKey(key), hashString(key), true);
    }

    /** dmHasString: whether some entry holds key; nothing changes. */
    method HasString(key: string) returns (b: bool)
      requires Valid() && !integerKeys
      ensures b <==> HasKey(StrKey(key))
    {
      var entry := FindKey(StrKey(key), hashString(key), false);
      b := entry != null;
    }

    /** dmGetInteger: the entry for key, created (with a zero value) when absent. */
    method GetInteger(key: int) returns (entry: Entry)
      requires Valid() && integerKeys
      modifies this, table, table.data
      ensures Valid() && entry.key == IntKey(key) && entry in Entries()
      ensures old(HasKey(IntKey(key))) ==>
                entry == old(EntryOf(IntKey(key))) && Shape() == old(Shape()) && count == old(count)
      ensures !old(HasKey(IntKey(key))) ==>
                fresh(entry) && entry.value == 0 && Entries() == old(Entries()) + multiset{entry} &&
                count == old(count) + 1 && (mod, split) == Advanced(old(mod), old(split))
      ensures stale == old(stale) && destroyed == old(destroyed)
    {
      entry := FindKey(IntKey(key), hashInt(key), true);
    }

    /** dmHasInteger: whether some entry holds key; nothing changes. */
    method HasInteger(key: int) returns (b: bool)
      requires Valid() && integerKeys
      ensures b <==> HasKey(IntKey(key))
    {
      var entry := FindKey(IntKey(key), hashInt(key), false);
      b := entry != null;
    }


    /**
     * dmEraseString / dmEraseInteger: unlink the entry holding key, hand it
     * to the destructor, decrement count and rewind the split once; an
     * absent key changes nothing.
     */
    method EraseKey(key: Key, hash: Hash, withDestructor: bool)
      requires Valid() && hash == KeyHash(hashString, hashInt, key)
      modifies this, table, table.data
      ensures Valid() && !HasKey(key)
      ensures old(HasKey(key)) ==>
                Entries() == old(Entries()) - multiset{old(EntryOf(key))} &&
                destroyed == old(destroyed) + (if withDestructor then [old(EntryOf(key))] else []) &&
                count == old(count) - 1 && (mod, split) == Rewound(old(mod), old(split)) &&
                table.capacity ==
                  if old(split) == 0 && 2 * mod * SHRINK_FACTOR < old(table.capacity) then 2 * mod * SHRINK_FACTOR
                  else old(table.capacity)
      ensures !old(HasKey(key)) ==>
                Shape() == old(Shape()) && count == old(count) && destroyed == old(destroyed) &&
                table.capacity == old(table.capacity)
      ensures stale == old(stale)
    {
      var index := Address(hash, mod, split);
      AddressInRange(hash, mod, split);
      var chain := table.data[index];
      var i := SearchChain(chain, key);
      if i == |chain| {
        AbsentFromBucket(Shape(), hashString, hashInt, key);
        return;
      }
      InFlatten(table.Contents(), index, i);
      assert chain[i] == EntryOf(key);
      EraseAt(index, i, chain[i], withDestructor);
    }

    /**
     * The found-entry half of dmEraseString / dmEraseInteger: unlink the
     * entry at position i of bucket index, hand it to the destructor,
     * decrement count and rewind the split once.
     */
    method EraseAt(index: nat, i: nat, ghost gone: Entry, withDestructor: bool)
      requires Valid() && index < table.size && i < |table.Contents()[index]|
      requires gone == table.Contents()[index][i]
      modifies this, table, table.data
      ensures Valid()
      ensures Entries() == old(Entries()) - multiset{gone}
      ensures forall e :: e in Entries() ==> e.key != gone.key
      ensures destroyed == old(destroyed) + (if withDestructor then [gone] else [])
      ensures count == old(count) - 1 && (mod, split) == Rewound(old(mod), old(split))
      ensures table.capacity ==
              if old(split) == 0 && 2 * mod * SHRINK_FACTOR < old(table.capacity) then 2 * mod * SHRINK_FACTOR
              else old(table.capacity)
      ensures stale == old(stale)
    {
      ghost var T0 := Shape();
      InFlatten(T0.buckets, index, i);
      UnlinkAndRewind(index, i);
      destroyed := destroyed + if withDestructor then [gone] else [];
      count := count - 1;
      ErasedValid(T0, index, i);
    }

    /** The state after unlinking entry i of bucket index from T0 and rewinding is valid. */
    lemma ErasedValid(T0: Table, index: nat, i: nat)
      requires Laid() && Inv(T0, hashString, hashInt) && index < |T0.buckets| && i < |T0.buckets[index]|
      requires T0.split + T0.mod == count + 3 && count + 1 == |Elements(T0.buckets)| + stale
      requires T0.split + T0.mod >= 3
      requires forall e :: e in Elements(T0.buckets) ==> KindMatches(e.key, integerKeys)
      requires Shape() == Rewind(Remove(T0, index, i))
      ensures Valid()
      ensures Entries() == Elements(T0.buckets) - multiset{T0.buckets[index][i]}
      ensures forall e :: e in Entries() ==> e.key != T0.buckets[index][i].key
      ensures (mod, split) == Rewound(T0.mod, T0.split)
    {
      EraseKeepsInv(T0, index, i, Shape(), hashString, hashInt);
    }

    /** Unlink position i of bucket index, then rewind the split once. */
    method UnlinkAndRewind(index: nat, i: nat)
      requires Laid() && IsPow2(mod) && mod >= 2 && split + mod >= 3
      requires index < table.size && i < |table.Contents()[index]|
      modifies this, table, table.data
      ensures Laid()
      ensures Shape() == Rewind(Remove(old(Shape()), index, i))
      ensures table.capacity ==
              if old(split) == 0 && 2 * mod * SHRINK_FACTOR < old(table.capacity) then 2 * mod * SHRINK_FACTOR
              else old(table.capacity)
      ensures count == old(count) && stale == old(stale) && destroyed == old(destroyed)
    {
      ghost var T0 := Shape();
      // prev->next = entry->next, or the bucket head when there is no prev.
      Unlink(index, i);
      assert Shape() == Remove(T0, index, i);
      RewindSplit();
    }

    /** Drop position i of the chain at bucket index. */
    method Unlink(index: nat, i: nat)
      requires table.Valid() && index < table.size && i < |table.Contents()[index]|
      modifies table.data
      ensures table.Valid()
      ensures table.Contents() ==
              old(table.Contents())[index := old(table.Contents())[index][..i] + old(table.Contents())[index][i + 1..]]
    {
      var chain := table.data[index];
      table.data[index] := chain[..i] + chain[i + 1..];
    }

    /** dmEraseString. */
    method EraseString(key: string, withDestructor: bool)
      requires Valid() && !integerKeys
      modifies this, table, table.data
      ensures Valid() && !HasKey(StrKey(key))
      ensures old(HasKey(StrKey(key))) ==>
                Entries() == old(Entries()) - multiset{old(EntryOf(StrKey(key)))} &&
                destroyed == old(destroyed) + (if withDestructor then [old(EntryOf(StrKey(key)))] else []) &&
                count == old(count) - 1 && (mod, split) == Rewound(old(mod), old(split)) &&
                table.capacity ==
                  if old(split) == 0 && 2 * mod * SHRINK_FACTOR < old(table.capacity) then 2 * mod * SHRINK_FACTOR
                  else old(table.capacity)
      ensures !old(HasKey(StrKey(key))) ==>
                Shape() == old(Shape()) && count == old(count) && destroyed == old(destroyed) &&
                table.capacity == old(table.capacity)
      ensures stale == old(stale)
    {
      EraseKey(StrKey(key), hashString(key), withDestructor);
    }

    /** dmEraseInteger. */
    method EraseInteger(key: int, withDestructor: bool)
      requires Valid() && integerKeys
      modifies this, table, table.data
      ensures Valid() && !HasKey(IntKey(key))
      ensures old(HasKey(IntKey(key))) ==>
                Entries() == old(Entries()) - multiset{old(EntryOf(IntKey(key)))} &&
                destroyed == old(destroyed) + (if withDestructor then [old(EntryOf(IntKey(key)))] else []) &&
                count == old(count) - 1 && (mod, split) == Rewound(old(mod), old(split)) &&
                table.capacity ==
                  if old(split) == 0 && 2 * mod * SHRINK_FACTOR < old(table.capacity) then 2 * mod * SHRINK_FACTOR
                  else old(table.capacity)
      ensures !old(HasKey(IntKey(key))) ==>
                Shape() == old(Shape()) && count == old(count) && destroyed == old(destroyed) &&
                table.capacity == old(table.capacity)
      ensures stale == old(stale)
    {
      EraseKey(IntKey(key), hashInt(key), withDestructor);
    }


    /** The bucket walk of dmIterate and dmClearInternal: the chains of buckets [0, n), in order. */
    method VisitBuckets(n: int) returns (visited: seq<Entry>)
      requires table.Valid() && 0 <= n <= table.size
      ensures visited == Flatten(table.Contents()[..n])
    {
      ghost var t := table.Contents();
      visited := [];
      var i := 0;
      while i < n
        invariant 0 <= i <= n
        invariant visited == Flatten(t[..i])
      {
        var chain := table.data[i];
        var j := 0;
        while j < |chain|
          invariant 0 <= j <= |chain|
          invariant visited == Flatten(t[..i]) + chain[..j]
        {
          visited := visited + [chain[j]];
          j := j + 1;
        }
        assert t[..i + 1] == t[..i] + [chain];
        FlattenAppend(t[..i], [chain]);
        assert Flatten([chain]) == chain + Flatten([]);
        i := i + 1;
      }
    }

    /**
     * dmIterate: visit the buckets [0, split + mod) in order, each chain
     * head first. Every entry is visited, and exactly once.
     */
    method Iterate() returns (visited: seq<Entry>)
      requires Valid()
      ensures multiset(visited) == Entries()
      ensures forall i, j :: 0 <= i < j < |visited| ==> visited[i] != visited[j]
    {
      var bucketCount := split + mod;
      visited := VisitBuckets(bucketCount);
      VisitedAll(Shape(), visited, hashString, hashInt);
    }

    /**
     * dmClearInternal's walk: every entry of every bucket, in bucket order,
     * is handed to the destructor (when there is one) and released.
     */
    method ReleaseChains(withDestructor: bool)
      requires table.Valid()
      modifies this
      ensures destroyed == old(destroyed) + if withDestructor then Flatten(table.Contents()) else []
      ensures split == old(split) && mod == old(mod) && count == old(count) && stale == old(stale)
    {
      ghost var t := table.Contents();
      var size := table.Size();
      var tableIndex := 0;
      while tableIndex < size
        invariant 0 <= tableIndex <= size
        invariant split == old(split) && mod == old(mod) && count == old(count) && stale == old(stale)
        invariant destroyed == old(destroyed) + if withDestructor then Flatten(t[..tableIndex]) else []
      {
        var chain := table.data[tableIndex];
        var j := 0;
        while j < |chain|
          invariant 0 <= j <= |chain|
          invariant split == old(split) && mod == old(mod) && count == old(count) && stale == old(stale)
          invariant destroyed == old(destroyed) + if withDestructor then Flatten(t[..tableIndex]) + chain[..j] else []
        {
          if withDestructor {
            destroyed := destroyed + [chain[j]];
          }
          j := j + 1;
        }
        assert t[..tableIndex + 1] == t[..tableIndex] + [chain];
        FlattenAppend(t[..tableIndex], [chain]);
        assert Flatten([chain]) == chain + Flatten([]);
        tableIndex := tableIndex + 1;
      }
      assert t[..size] == t;
    }

    /**
     * dmClear / dmClearIndirect: release every entry, then empty every
     * bucket. split, mod and count are left as they were.
     */
    method Clear(withDestructor: bool)
      requires Valid()
      modifies this, table.data
      ensures Valid() && Entries() == multiset{}
      ensures table.Contents() == seq(2 * mod, _ => [])
      ensures split == old(split) && mod == old(mod) && count == old(count)
      ensures stale == old(stale) + |old(Entries())|
      ensures destroyed == old(destroyed) + if withDestructor then Flatten(old(table.Contents())) else []
    {
      ReleaseChains(withDestructor);
      stale := stale + |Elements(table.Contents())|;
      // memset(dm->table, 0, ...)
      var size := table.Size();
      forall i | 0 <= i < size {
        table.data[i] := [];
      }
      assert table.Contents() == seq(2 * mod, _ => []);
      EmptyTableInv(table.Contents(), mod, split, hashString, hashInt);
    }
  }
}
