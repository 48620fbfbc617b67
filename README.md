# dyn: dynamic arrays, strings, a linear-hashing map and a regex NFA builder, in Dafny

This project models the core of joedrago/dyn, a small C library of dynamic containers:

- **Linear-hashing map** (`src/dynMap.c`), modules `LinearHash` and `DynMap`. A table has `2 * mod` bucket chains and a split pointer. A key's bucket is `hash % mod`. When that bucket lies below the split, the bucket is `hash % (2 * mod)` instead.
  - Every new entry moves the split one bucket forward. It steals the chain at the split, advances the split, doubles `mod` at the end of a round, and re-buckets the stolen chain.
  - Every successful erase moves the split one bucket back.
  - `LinearHash` states these steps as functions on a `Table` value and proves that they keep the table invariant:
    - every entry sits in the bucket `linearHashCompute` names for it;
    - the cached hashes are right;
    - keys are unique;
    - `mod` is a power of two, at least `INITIAL_MODULUS`, with `0 <= split < mod`;
    - the table has `2 * mod` buckets, and the buckets from `split + mod` on are empty.
  - `DynMap` is the map object. Its bucket table is a `DynArray` object, and its methods update `split`, `mod` and `count` in place. Each method is proved to leave exactly the table these functions describe. The object invariant adds `split + mod == count + 2`.
- **Growable array** (`src/dynArray.c`), module `DynArray`. A class over a Dafny `array`. The caller's NULL pointer is an object whose `live` flag is false. The methods cover lazy creation, doubling growth, push, pop, shift, unshift, insert, erase, set-size, set-capacity and squash.
- **Byte string builder** (`src/dynString.c`), module `DynString`. A class over a NUL-terminated byte buffer of `capacity + 1` bytes. Its methods are copy, concat, set-length, set-capacity, clear, calc-length, compare, length and capacity.
- **Older pointer array** (`dynamic/array.c`), module `PtrArray`. It creates itself on first use, grows by doubling, pushes, and hands its entries to a clear callback.
- **Regex lexer and NFA builder** (`tests/grep.c`), modules `Regex` and `RegexBuilder`.
  - `Regex` states regexLex and dynRegexParse as functions on a graph value. A graph is a node count plus the links in creation order.
  - `Regex` proves how each token kind builds the graph and what it adds to each node's list of links, and states each character-class rule for any position and any state of the class loop. It also proves the error results (`EarlyEof`, `InvalidMore`, `InvalidCc`), that every link stays between existing nodes, and that a successful parse ends with a link into its end node.
  - `RegexBuilder` is the imperative parser. A `Parser` object holds the read position, and a `DynRegex` object holds the node and link arrays. Its methods are proved to build exactly the graph the `Regex` functions give, so every property proved there holds for the builder too.

Callbacks (destructors, the clear and iterate callbacks) are ghost logs of the elements they were handed. The hash functions HASHSTRING and HASHINT are the map's constructor parameters.

## Definitions

The functions below define the model's terms. They carry no claim of their own; the rows named after each one state its properties.

- `LinearHash.Address`: linearHashCompute (src/dynMap.c:53-65). Rows: AddressInRange, AdvanceKeepsAddress, RewindKeepsAddress.
- `LinearHash.Advanced` and `LinearHash.Rewound`: the split moves of dmNewEntry (src/dynMap.c:114-122) and dmRewindSplit (src/dynMap.c:136-141). Rows: AdvanceRewindInverse, AdvanceKeepsAddress, RewindKeepsAddress.
- `LinearHash.Bucketed`: dmBucketEntryChain (src/dynMap.c:69-80). Rows: BucketedElements, BucketedPlaced, Rebucket, DynMap.DynMap.BucketEntryChain.
- `LinearHash.Insert`, `LinearHash.Stolen` and `LinearHash.Split`: dmNewEntry (src/dynMap.c:107-125). Rows: InsertKeepsInv, SplitKeepsInv, NewEntryKeepsInv, DynMap.DynMap.ChainNew, DynMap.DynMap.SplitStep, DynMap.DynMap.NewEntry.
- `LinearHash.Remove`, `LinearHash.Cleared` and `LinearHash.Rewind`: the unlink of dmEraseString/dmEraseInteger (src/dynMap.c:304-312) and dmRewindSplit (src/dynMap.c:131-155). Rows: RemoveKeepsInv, RewindKeepsInv, EraseKeepsInv, DynMap.DynMap.Unlink, DynMap.DynMap.RewindSplit, DynMap.DynMap.UnlinkAndRewind.
- `LinearHash.Inv`: the table invariant described above. Rows: EmptyTableInv, InsertKeepsInv, SplitKeepsInv, RemoveKeepsInv, RewindKeepsInv, NewEntryKeepsInv, EraseKeepsInv, TailEmpty, IterationCoversAll, AbsentFromBucket. `DynMap.DynMap.Valid` includes it.
- `Regex.Parse`, `Regex.Loop` and `Regex.Step`: dynRegexParse (tests/grep.c:230-392), one token per `Step`. Rows: EndOfInput, CloseOrStray, OrSharesEnds, RepeatNeedsAtom, RepeatLinks, RepeatAfterRepeat, ClassBetweenNewNodes, CaptureBetweenNewNodes, CharAddsTwoNodesTwoLinks, OkEndsWithLinkToEnd, LoopKeepsClosed, UnclosedCaptureFails, RegexBuilder.DynRegex.Parse.
- `Regex.Class` and `Regex.ClassStep`: the class loop (tests/grep.c:296-358). Rows: ClassClose, ClassCaret, ClassDash, ClassCharacter, ClassRange, ClassNextToken, ClassTouchesOnlyItsLink, ClassKeepsClosed, UnclosedClassFails, RegexBuilder.DynRegex.ReadClass.
- `Regex.AddNode` and `Regex.AddLink`: dynRegexNodeCreate and dynRegexLinkCreate (tests/grep.c:106-129). `Regex.AddRange`, `Regex.SetNot`, `Regex.Finish`, `Regex.Repeated`, `Regex.CharAtom` and `Regex.ClassAtom` are the building steps made of them (tests/grep.c:137-140, 274-278, 289-294, 322, 376-384, 390). Rows: OutgoingExactly, OutgoingAppend, AddLinkNodeLists, AddNodeNodeLists, RangesKeepNodeLists, FinishNodeLists, RepeatedNodeLists, CharAtomNodeLists, CharAtomKeepsClosed, CharAtomEndHasNoLinks, ClassAtomNodeLists, ClassAtomKeepsClosed, ClassAtomEndHasNoLinks, and the RegexBuilder.DynRegex methods that build each step.
- `Regex.Seeded`: the start and end nodes dynRegexCreate makes before parsing (tests/grep.c:407-408). Rows: Create, CreatedIsClosed, RegexBuilder.DynRegex.Create.
- `DynArray.Squashed`: the reference definition of daSquash (src/dynArray.c:398-428). Rows: SquashedCounts, SquashedAppend, SquashedIdempotent, DynArray.DynArray.Squash.
- `DynString.CString` and `DynString.StrCmp`: the C string a buffer spells, and strcmp on it, as used by dsCopy, dsConcat and dsCalcLength (src/dynString.c:161, 174, 243) and dsCmp (src/dynString.c:256-266). Rows: Strlen, CStringOfTerminated, StrCmpZeroIff, StrCmpAntisymmetric, StrCmpTransitive, DynString.DynString.Cmp.
- `PtrArray.Calls`: the callback calls daClear makes (dynamic/array.c:76-87). Rows: CallsAppend, PtrArray.PtrArray.Clear.

## Model

| member | source | states |
|---|---|---|
| LinearHash.AddressInRange | src/dynMap.c:53-65 | for `0 <= split < mod`, linearHashCompute lands in `[0, split + mod)`, agrees with `hash % mod` modulo `mod`, and is `hash % mod` whenever that is at or after the split |
| LinearHash.AdvanceKeepsAddress | src/dynMap.c:114-122 | advancing the split changes no entry's bucket except the entries of the bucket at the split |
| LinearHash.RewindKeepsAddress | src/dynMap.c:136-148 | moving the split back changes no entry's bucket except the entries of bucket `split + mod` after the move |
| LinearHash.AdvanceRewindInverse | src/dynMap.c:114-140 | a rewind step undoes a growth step on `(mod, split)`; a growth step undoes a rewind step whenever `mod >= 2`, at split 0 too, where the rewind halves `mod` and the growth step doubles it back |
| LinearHash.TailEmpty | src/dynMap.c:111-112 | in a valid table, the buckets from `split + mod` to `2 * mod` are empty |
| LinearHash.IterationCoversAll | src/dynMap.c:367-380 | walking buckets `[0, split + mod)` meets the same chains as walking the whole table |
| LinearHash.AbsentFromBucket | src/dynMap.c:244-253 | a key missing from the bucket its hash addresses is missing from the whole table |
| LinearHash.BucketedElements | src/dynMap.c:69-80 | dmBucketEntryChain loses and duplicates no entry: the table afterwards holds its old entries plus the chain's |
| LinearHash.BucketedPlaced | src/dynMap.c:69-80 | dmBucketEntryChain puts every entry into the bucket linearHashCompute names for it |
| LinearHash.InsertKeepsInv | src/dynMap.c:108 | chaining a fresh entry with an absent key into its bucket keeps the invariant and adds exactly that entry |
| LinearHash.SplitKeepsInv | src/dynMap.c:111-125 | the growth step keeps the invariant and every entry, moves `(mod, split)` as dmNewEntry does, and grows `split + mod` by one |
| LinearHash.RemoveKeepsInv | src/dynMap.c:296-314 | unlinking one chain position keeps the invariant and removes exactly that entry |
| LinearHash.RewindKeepsInv | src/dynMap.c:131-155 | the rewind step keeps the invariant and every entry, moves `(mod, split)` as dmRewindSplit does, and shrinks `split + mod` by one; `split + mod >= 3` is enough for `mod` to stay at least INITIAL_MODULUS |
| LinearHash.NewEntryKeepsInv | src/dynMap.c:82-129 | a whole dmNewEntry (chain in, then split) keeps the invariant, adds exactly the new entry, and advances `(mod, split)` |
| LinearHash.EraseKeepsInv | src/dynMap.c:292-320 | a whole successful erase (unlink, then rewind) keeps the invariant, removes exactly the erased entry and no other with its key, and rewinds `(mod, split)` |
| LinearHash.EmptyTableInv | src/dynMap.c:160-170 | `2 * mod` empty buckets form a valid, empty table |
| LinearHash.Rebucket | src/dynMap.c:69-80 | re-bucketing a chain into a placed table keeps it placed and adds exactly the chain's entries |
| DynMap.SearchChain | src/dynMap.c:248-253 | the chain walk finds the first position holding the key, or reports that none does |
| DynMap.VisitedAll | src/dynMap.c:367-380 | the entries met in buckets `[0, split + mod)` are exactly the map's entries, each met once |
| DynMap.DynMap.constructor | src/dynMap.c:160-170 | dmCreate: split 0, mod INITIAL_MODULUS, count 0, a table of `2 * INITIAL_MODULUS` empty buckets whose capacity is exactly `2 * INITIAL_MODULUS`, and the element size or its default |
| DynMap.DynMap.BucketEntryChain | src/dynMap.c:69-80 | the table afterwards is `Bucketed` of the old table and the chain, each entry prepended to its bucket in chain order |
| DynMap.DynMap.TakeBucket | src/dynMap.c:111-112 | returns the chain at the index and leaves that bucket empty |
| DynMap.DynMap.RebucketChain | src/dynMap.c:150-154 | takes a bucket's chain out and re-buckets it |
| DynMap.DynMap.ChainNew | src/dynMap.c:88-108 | a fresh zeroed entry with the key and hash, chained into its bucket |
| DynMap.DynMap.AdvanceSplit | src/dynMap.c:114-122 | advances `(mod, split)`; at the end of a round doubles `mod` and appends `2 * mod` empty buckets, growing capacity as daSetSize does |
| DynMap.DynMap.SplitStep | src/dynMap.c:111-125 | the shape afterwards is `Split` of the shape before; count is not changed |
| DynMap.DynMap.NewEntry | src/dynMap.c:82-129 | keeps the map valid, adds exactly one fresh entry with the key and hash, increments count and advances `(mod, split)` |
| DynMap.DynMap.RetreatSplit | src/dynMap.c:136-148 | rewinds `(mod, split)`; below zero cuts the table to `2 * mod` buckets, and cuts a capacity above `SHRINK_FACTOR` times that to exactly that |
| DynMap.DynMap.RewindSplit | src/dynMap.c:131-155 | the shape afterwards is `Rewind` of the shape before; when the split wraps below zero and the capacity exceeds SHRINK_FACTOR times the new `2 * mod` buckets, the table capacity is cut to exactly that, and otherwise it is unchanged; count, stale and the destroyed log are unchanged |
| DynMap.DynMap.FindKey | src/dynMap.c:244-280 | a present key returns its entry and changes nothing; an absent key returns NULL, or with autoCreate one fresh entry for that key, with count incremented and the split advanced |
| DynMap.DynMap.GetString | src/dynMap.c:282-285 | the entry for the key; the map is unchanged if the key was present, and has exactly one new entry if it was absent |
| DynMap.DynMap.HasString | src/dynMap.c:287-290 | true exactly when some entry holds the key; nothing changes |
| DynMap.DynMap.GetInteger | src/dynMap.c:322-325 | as GetString, for integer keys |
| DynMap.DynMap.HasInteger | src/dynMap.c:327-330 | as HasString, for integer keys |
| DynMap.DynMap.Unlink | src/dynMap.c:303-310 | drops exactly one position of one chain |
| DynMap.DynMap.UnlinkAndRewind | src/dynMap.c:303-316 | the shape afterwards is `Rewind(Remove(...))` of the shape before; when the split wraps below zero and the capacity exceeds SHRINK_FACTOR times the new `2 * mod` buckets, the table capacity is cut to exactly that, and otherwise it is unchanged |
| DynMap.DynMap.EraseAt | src/dynMap.c:301-316 | removes exactly the erased entry, logs it to the destructor when there is one, decrements count and rewinds the split; when the split wraps below zero and the capacity exceeds SHRINK_FACTOR times the new `2 * mod` buckets, the table capacity is cut to exactly that, and otherwise it is unchanged |
| DynMap.DynMap.EraseKey | src/dynMap.c:292-360 | afterwards no entry holds the key; a present key's entry is removed and logged to the destructor when there is one, count is decremented, the split is rewound once, and when the split wraps below zero and the capacity exceeds SHRINK_FACTOR times the new `2 * mod` buckets, the capacity is cut to exactly that, and otherwise it is unchanged; an absent key changes neither the table, the count, the destroyed log nor the capacity; `stale` never changes |
| DynMap.DynMap.EraseString | src/dynMap.c:292-320 | for a string key: afterwards no entry holds the key; a present key's entry is removed and logged to the destructor when there is one, count is decremented, the split is rewound once, and when the split wraps below zero and the capacity exceeds SHRINK_FACTOR times the new `2 * mod` buckets, the capacity is cut to exactly that, and otherwise it is unchanged; an absent key changes neither the table, the count, the destroyed log nor the capacity; `stale` never changes |
| DynMap.DynMap.EraseInteger | src/dynMap.c:332-360 | for an integer key: afterwards no entry holds the key; a present key's entry is removed and logged to the destructor when there is one, count is decremented, the split is rewound once, and when the split wraps below zero and the capacity exceeds SHRINK_FACTOR times the new `2 * mod` buckets, the capacity is cut to exactly that, and otherwise it is unchanged; an absent key changes neither the table, the count, the destroyed log nor the capacity; `stale` never changes |
| DynMap.DynMap.VisitBuckets | src/dynMap.c:370-379 | the entries of buckets `[0, n)` in bucket order, each chain from its head |
| DynMap.DynMap.Iterate | src/dynMap.c:367-380 | visits every entry of the map exactly once |
| DynMap.DynMap.ReleaseChains | src/dynMap.c:207-229 | hands every entry of every bucket, in bucket order, to the destructor when there is one |
| DynMap.DynMap.Clear | src/dynMap.c:201-232 | empties every bucket and destroys every entry in bucket order; split, mod and count stay as they were |
| DynArray.Grown | src/dynArray.c:115-127 | the capacity daMakeRoom settles on holds what is needed, is the old capacity when that is enough, and is below twice what is needed when it grew |
| DynArray.GrownIsDoubling | src/dynArray.c:120-121 | growth only multiplies a nonzero capacity by a power of two |
| DynArray.GrowAsWritten | src/dynArray.c:120-121 | k turns of the C doubling loop multiply the capacity by `2^k` |
| DynArray.GrowAsWrittenStuckAtZero | src/dynArray.c:120-121 | from capacity 0 the C loop never reaches a positive need |
| DynArray.SquashedCounts | src/dynArray.c:398-428 | squash keeps each non-zero element exactly as often as it occurs and drops every zero element |
| DynArray.SquashedAppend | src/dynArray.c:398-428 | squash works element by element, so it distributes over concatenation and keeps the order |
| DynArray.SquashedIdempotent | src/dynArray.c:398-428 | squashing twice is squashing once |
| DynArray.DynArray.constructor | src/dynArray.c:76-93 | a NULL array: not live, nothing destroyed |
| DynArray.DynArray.ChangeCapacity | src/dynArray.c:35-73 | capacity becomes exactly the new value; the first `min(size, newCapacity)` elements are kept in order, and size becomes that minimum |
| DynArray.DynArray.Get | src/dynArray.c:76-93 | reports whether the array exists; with autoCreate a NULL array becomes an empty one of capacity 2 |
| DynArray.DynArray.ChangeSize | src/dynArray.c:96-112 | size becomes the new value; growing past the capacity raises it to exactly the new size, and growing zero-fills the new slots; shrinking keeps the prefix |
| DynArray.DynArray.MakeRoom | src/dynArray.c:115-127 | capacity becomes `Grown` of the old capacity (2 for a NULL array); contents unchanged; a big enough array keeps its buffer |
| DynArray.DynArray.ClearRange | src/dynArray.c:130-142 | hands elements `[start, end)` to the destructor, in order |
| DynArray.DynArray.Clear | src/dynArray.c:218-226 | destroys all elements in order and empties the array; capacity unchanged |
| DynArray.DynArray.Shift | src/dynArray.c:257-269 | on a live non-empty array yields the first element and keeps the rest in order; otherwise changes nothing and leaves the caller's element as it was |
| DynArray.DynArray.Unshift | src/dynArray.c:271-281 | the element goes in front of the old contents |
| DynArray.DynArray.Push | src/dynArray.c:283-290 | returns the old size; the element goes after the old contents |
| DynArray.DynArray.Pop | src/dynArray.c:292-303 | on a live non-empty array yields the last element and keeps the rest; otherwise changes nothing and leaves the caller's element as it was |
| DynArray.DynArray.Insert | src/dynArray.c:308-322 | an index inside `[0, size)` puts the element at that index with the tail shifted up; any other index appends |
| DynArray.DynArray.Erase | src/dynArray.c:324-335 | an index inside `[0, size)` removes that element with the order kept; any other index changes nothing |
| DynArray.DynArray.SetSize | src/dynArray.c:340-345 | destroys `[newSize, size)` when shrinking, then resizes as ChangeSize does |
| DynArray.DynArray.Size | src/dynArray.c:361-367 | the element count, 0 for a NULL array |
| DynArray.DynArray.SetCapacity | src/dynArray.c:369-374 | destroys the elements beyond the new capacity, then changes capacity as ChangeCapacity does |
| DynArray.DynArray.Capacity | src/dynArray.c:390-396 | the capacity, 0 for a NULL array |
| DynArray.DynArray.Squash | src/dynArray.c:398-428 | the contents become `Squashed` of the old contents; capacity and buffer unchanged |
| DynArray.MoveAsWritten | src/dynArray.c:333 | the memmove as written needs one slot beyond the live data; where one exists, the first `size - 1` slots come out right |
| DynArray.EraseOnFullArrayReadsPastBuffer | src/dynArray.c:333 | erasing from a full two-element array reads past the buffer |
| DynString.Strlen | src/dynString.c:238-245 | the number of bytes before the first NUL |
| DynString.CStringOfTerminated | src/dynString.c:159-162 | the C string of `t` followed by NUL is `t` |
| DynString.StrCmpZeroIff | src/dynString.c:256-266 | strcmp is 0 exactly for equal strings |
| DynString.StrCmpAntisymmetric | src/dynString.c:256-266 | swapping the operands negates strcmp |
| DynString.StrCmpTransitive | src/dynString.c:256-266 | strcmp's "less than" is transitive |
| DynString.Resized | src/dynString.c:215-236 | set-length keeps the first `min(length, n)` bytes and pads with spaces |
| DynString.ResizedTwice | src/dynString.c:215-236 | resizing to the same length is the identity, and a longer resize followed by a shorter one is the shorter one alone |
| DynString.DynString.Text | src/dynString.c:256-266 | the C string a pointer spells: a NULL string reads as "" |
| DynString.DynString.constructor | src/dynString.c:89-106 | a NULL string |
| DynString.DynString.ChangeCapacity | src/dynString.c:58-86 | capacity becomes exactly the new value; the first `min(length, newCapacity)` bytes are kept, and the string stays NUL-terminated when nothing was cut |
| DynString.DynString.Get | src/dynString.c:89-106 | with autoCreate a NULL string becomes an empty one of capacity 0 |
| DynString.DynString.MakeRoom | src/dynString.c:109-120 | capacity rises to exactly the room needed (`len`, plus the length when appending) only when that exceeds it |
| DynString.DynString.Clear | src/dynString.c:141-146 | the string becomes empty and NUL-terminated; capacity unchanged; a NULL string is created |
| DynString.DynString.CopyLen | src/dynString.c:151-157 | the contents become exactly `text[0..len)`, NUL-terminated |
| DynString.DynString.Copy | src/dynString.c:159-162 | the contents become the C string of the text |
| DynString.DynString.ConcatLen | src/dynString.c:164-170 | the contents become the old contents followed by `text[0..len)`, NUL-terminated |
| DynString.DynString.Concat | src/dynString.c:172-175 | the contents become the old contents followed by the C string of the text |
| DynString.DynString.SetLength | src/dynString.c:215-236 | the contents become `Resized` of the old contents, NUL-terminated; an equal length changes nothing |
| DynString.DynString.CalcLength | src/dynString.c:238-245 | the length becomes `strlen` of the buffer |
| DynString.DynString.SetCapacity | src/dynString.c:247-251 | capacity becomes the new value; the length becomes `min(length, n)`; the kept prefix stays, NUL-terminated |
| DynString.DynString.Cmp | src/dynString.c:256-266 | the strcmp ordering of the two strings, a NULL string reading as "": 0 exactly when they are equal |
| DynString.DynString.Length | src/dynString.c:268-276 | the length, 0 for a NULL string |
| DynString.DynString.Capacity | src/dynString.c:278-286 | the capacity, 0 for a NULL string |
| PtrArray.Doubled | dynamic/array.c:57-69 | the capacity daMakeRoom settles on holds what is needed, is the old capacity when that is enough, and is below twice what is needed when it grew |
| PtrArray.DoubledKeepsPowers | dynamic/array.c:57-69 | growing keeps the capacity a power-of-two multiple of the initial capacity 2 |
| PtrArray.CallsAppend | dynamic/array.c:76-87 | the callback calls for `a + b` are those for `a`, then those for `b`: the clear loop's log grows by one call per entry, in index order |
| PtrArray.PtrArray.constructor | dynamic/array.c:41-55 | a NULL array |
| PtrArray.PtrArray.ChangeCapacity | dynamic/array.c:19-39 | capacity becomes exactly the new value; the first `min(size, newCapacity)` entries are kept in order, and the rest of the buffer is NULL |
| PtrArray.PtrArray.Get | dynamic/array.c:41-55 | a NULL array becomes an empty one of capacity 2; a live one is unchanged |
| PtrArray.PtrArray.MakeRoom | dynamic/array.c:57-69 | capacity becomes `Doubled` of the old capacity; contents unchanged; a big enough array keeps its buffer |
| PtrArray.PtrArray.Create | dynamic/array.c:71-74 | makes sure the array exists |
| PtrArray.PtrArray.Clear | dynamic/array.c:76-87 | calls the callback once per entry in index order; the size is not reset |
| PtrArray.PtrArray.Size | dynamic/array.c:96-100 | the size, creating a NULL array |
| PtrArray.PtrArray.Push | dynamic/array.c:102-107 | returns the old size; the entry goes after the old contents |
| PtrArray.PushFive | tests/main.c:29-35 | after five pushes onto a new array, entry i is the i-th object pushed and the capacity is 8 |
| Regex.Lex | tests/grep.c:142-212 | regexLex: a token and the position after it; the position advances by one except at the end of the input |
| Regex.LexSpecials | tests/grep.c:149-197 | each of the seven special characters lexes to its own token type |
| Regex.LexReadsOneCharacter | tests/grep.c:142-212 | Eof exactly at the end of the input; otherwise the token is spelt by the character read, and is a character token exactly when that character is not special |
| Regex.OutgoingExactly | tests/grep.c:120-129 | a node's link list holds exactly the links leaving it, in creation order |
| Regex.OutgoingAppend | tests/grep.c:126-127 | creating a link adds it to the end of its source node's list only |
| Regex.AddLinkNodeLists | tests/grep.c:120-129 | dynRegexLinkCreate puts the new link on its source node's list and no other, and a link between existing nodes keeps the graph closed |
| Regex.AddNodeNodeLists | tests/grep.c:106-112 | dynRegexNodeCreate's new node has no links, and adding it keeps a closed graph closed |
| Regex.RangesKeepNodeLists | tests/grep.c:137-140 | adding a range to a link, or setting its `not` flag as line 322 does, changes no node's link list and keeps every link between existing nodes |
| Regex.FinishNodeLists | tests/grep.c:390-391 | the closing blank link goes onto appendNode's list and no other, the outcome then ends with a blank link into the end node, and the link joins existing nodes |
| Regex.RepeatedNodeLists | tests/grep.c:274-278 | '*' puts the link lastStart -> lastEnd on lastStart's list, and '*' and '+' both then put lastEnd -> lastStart on lastEnd's list; the graph stays closed |
| Regex.CharAtomNodeLists | tests/grep.c:376-384 | a literal's entry link goes onto appendNode's list and its character link onto the first new node's, and no other list changes |
| Regex.CharAtomKeepsClosed | tests/grep.c:376-384 | from a closed graph and an existing appendNode, a literal's atom keeps every link between existing nodes |
| Regex.CharAtomEndHasNoLinks | tests/grep.c:376-384 | the second new node of a literal's atom lists no link |
| Regex.ClassAtomNodeLists | tests/grep.c:289-294 | '[' puts its entry link onto appendNode's list and its class link onto the first new node's, and no other list changes |
| Regex.ClassAtomKeepsClosed | tests/grep.c:289-294 | from a closed graph and an existing appendNode, the atom of '[' keeps every link between existing nodes |
| Regex.ClassAtomEndHasNoLinks | tests/grep.c:289-294 | the second new node of the atom of '[' lists no link |
| Regex.Create | tests/grep.c:401-423 | a regex exists exactly when parsing between nodes 0 and 1 up to Eof succeeds |
| Regex.EndOfInput | tests/grep.c:242-250 | at the end of the input the top level finishes, and a capture is `EarlyEof` |
| Regex.CloseOrStray | tests/grep.c:242-250 | ')' closes a capture; a ')' at the top level, and any ']', is skipped and forgets the last atom |
| Regex.OrSharesEnds | tests/grep.c:254-264 | '|' parses the rest between the same start and end nodes, then closes the branch so far into the end node |
| Regex.RepeatNeedsAtom | tests/grep.c:266-272 | a repeat with no atom before it is `InvalidMore`, and nothing is built |
| Regex.RepeatLinks | tests/grep.c:266-280 | a repeat after an atom adds the repeat's links and forgets the atom |
| Regex.RepeatAfterRepeat | tests/grep.c:266-272 | a repeat right after a repeat is `InvalidMore` |
| Regex.ClassBetweenNewNodes | tests/grep.c:282-360 | '[' reads the class into a new link between two new nodes; its error ends the parse, and on success the class becomes the last atom |
| Regex.CaptureBetweenNewNodes | tests/grep.c:362-374 | '(' parses the group between two new nodes up to ')', and only then links appendNode to the group's start |
| Regex.CharAddsTwoNodesTwoLinks | tests/grep.c:376-388 | a literal character adds exactly two nodes and two links and becomes the last atom |
| Regex.ClassTouchesOnlyItsLink | tests/grep.c:296-358 | the class loop changes no link but its own, and keeps that link's type and ends |
| Regex.ClassKeepsClosed | tests/grep.c:296-358 | the class loop keeps every link between existing nodes |
| Regex.OkEndsWithLinkToEnd | tests/grep.c:230-392 | a successful parse leaves its last link going into the end node |
| Regex.LoopKeepsClosed | tests/grep.c:230-392 | parsing keeps every link between existing nodes |
| Regex.UnclosedCaptureFails | tests/grep.c:242-250 | a capture with no ')' left in the input never succeeds |
| Regex.UnclosedCaptureHasNoRegex | tests/grep.c:401-423 | a regex that opens a group and never closes it is not created |
| Regex.CreatedIsClosed | tests/grep.c:401-423 | a created regex has every link between existing nodes and ends with a link into its final node 1 |
| Regex.ClassClose | tests/grep.c:303-310 | in any state of the class loop, ']' ends the class with `Ok`, adding a pending character `c` as (c, 0); an open "c-" keeps only c |
| Regex.ClassCaret | tests/grep.c:318-328 | in any state, a '^' read first sets `not`, and any later '^' is added as the range ('^', 0) with the pending character kept |
| Regex.ClassDash | tests/grep.c:329-339 | in any state, a '-' after a pending character opens a range, and with nothing pending it is added as ('-', 0) |
| Regex.ClassCharacter | tests/grep.c:340-357 | in any state, any other ordinary character y closes an open "c-" as the range (c, y); otherwise it flushes a pending c as (c, 0) and becomes the pending character |
| Regex.ClassRange | tests/grep.c:329-347 | from any state with no range open, "x-y" adds the single range (x, y), after flushing a pending character as (c, 0) |
| Regex.ClassNegatedRange | tests/grep.c:318-348 | example: `[^a-z]` sets `not` and adds the range (a, z) |
| Regex.ClassSingles | tests/grep.c:350-356 | example: `[ab]` adds (a, 0), then (b, 0) at the ']' |
| Regex.ClassLeadingDash | tests/grep.c:331-340 | example: in `[-a]` the '-' has no pending character and is added as ('-', 0) |
| Regex.ClassLateCaret | tests/grep.c:318-328 | example: in `[a^]` the '^' is not first and is added as ('^', 0) |
| Regex.ClassTrailingDash | tests/grep.c:303-310 | example: in `[a-]` the pending 'a' is flushed as (a, 0) at the ']' and the '-' is dropped |
| Regex.ClassErrors | tests/grep.c:298-315 | a special token inside a class is `InvalidCc`; the end of the input inside one is `EarlyEof` |
| Regex.ClassNextToken | tests/grep.c:298-315 | the same two error rules, at any position and state of the class loop |
| Regex.AlternationBuilds | tests/grep.c:254-264 | the exact graph "a|b" builds: both branches between nodes 0 and 1, the second branch closed first |
| Regex.LeadingRepeatHasNoRegex | tests/grep.c:266-272 | a regex starting with a repeat is not created |
| Regex.UnclosedClassFails | tests/grep.c:296-315 | a class with no ']' left never succeeds |
| Regex.UnclosedClassHasNoRegex | tests/grep.c:296-315 | a regex that opens a class and never closes it is not created |
| Regex.DoubleRepeatHasNoRegex | tests/grep.c:266-272 | "a**" and the like are not created: the first repeat clears the last atom |
| Regex.SpecialInClassHasNoRegex | tests/grep.c:312-315 | a special character inside a class stops the regex from being created |
| RegexBuilder.Parser.Lex | tests/grep.c:142-212 | the parser's Lex yields exactly `Regex.Lex` at the read position and moves the position to where it says |
| RegexBuilder.DynRegex.constructor | tests/grep.c:404 | the calloc'ed regex: no nodes, no links |
| RegexBuilder.DynRegex.NodeCreate | tests/grep.c:106-112 | appends one node without links and returns its index |
| RegexBuilder.DynRegex.LinkCreate | tests/grep.c:120-129 | appends the link to the link array and to its source node's list, and returns its index |
| RegexBuilder.DynRegex.LinkAddRange | tests/grep.c:137-140 | the graph afterwards is `AddRange` of the graph before |
| RegexBuilder.DynRegex.AddRepeat | tests/grep.c:274-278 | the graph afterwards is `Repeated` of the graph before |
| RegexBuilder.DynRegex.AddCharAtom | tests/grep.c:378-382 | the graph afterwards is `CharAtom` of the graph before |
| RegexBuilder.DynRegex.AddClassAtom | tests/grep.c:289-294 | the graph afterwards is `ClassAtom` of the graph before |
| RegexBuilder.DynRegex.ReadClass | tests/grep.c:296-358 | the class loop leaves the result, graph and position `Regex.Class` gives |
| RegexBuilder.DynRegex.ParseOr | tests/grep.c:254-264 | the '|' case leaves what `Regex.Loop` gives from that token |
| RegexBuilder.DynRegex.ParseRepeat | tests/grep.c:266-280 | the repeat case leaves what `Regex.Loop` gives from that token |
| RegexBuilder.DynRegex.ParseChar | tests/grep.c:376-388 | the character case leaves what `Regex.Loop` gives from that token |
| RegexBuilder.DynRegex.ParseClass | tests/grep.c:282-360 | the '[' case leaves what `Regex.Loop` gives from that token |
| RegexBuilder.DynRegex.ParseCapture | tests/grep.c:362-374 | the '(' case leaves what `Regex.Loop` gives from that token |
| RegexBuilder.DynRegex.ParseToken | tests/grep.c:252-388 | the switch on a token leaves what `Regex.Loop` gives from that token |
| RegexBuilder.DynRegex.Parse | tests/grep.c:230-392 | dynRegexParse leaves the result, graph and position `Regex.Parse` gives, and keeps every node's list equal to the links leaving it |
| RegexBuilder.DynRegex.Create | tests/grep.c:401-423 | NULL exactly when `Regex.Create` has no regex; otherwise the graph `Regex.Create` gives, start node 0, end node 1, and node 1 the only final node |

## Left out

- Memory mechanics: calloc, realloc and free; the size/capacity header stored before the data; strdup key ownership (`DKF_UNOWNED_KEYS`); and the destroy functions (dmDestroy, daDestroy, dsDestroy, dynRegexDestroy and the node, link and range destroyers). Objects hold Dafny sequences or arrays instead, and keys are values.
- The P1/P2 variants of the dynArray.c clear, destroy and set-size operations, and daClearStrings/daDestroyStrings. They differ only in the extra arguments passed to the callback; one callback log covers them.
- Callbacks are ghost logs of the elements handed to them. The direct/indirect distinction of dmClear and dmClearIndirect, and the callback's own effects, are not modelled.
- HASHSTRING and HASHINT (MurmurHash3, djb2) are parameters of the map, not code. The map's behaviour does not depend on which hash is used.
- Element sizes are not modelled: an array or map element is one Dafny value, and "all-zero bytes" is equality with a `zero` value.
- Integers are unbounded. C's `int`/`dynSize` overflow on huge sizes and the 32-bit wrap-around in the hash are not modelled; a hash is a value below 2^32.
- DynString.DynString.Cmp: returns the sign of strcmp (-1, 0 or 1) rather than the C library's unspecified magnitude.
- DynMap.DynMap.Clear: as written, dmClear leaves `count` unchanged. The model keeps that behaviour, counts the dropped entries in a ghost `stale` field so that `split + mod == count + 2` still holds, and makes no claim that `count` is the number of entries after a clear.
- RegexBuilder: node and link pointers are indices into the node and link arrays. The per-node `generation` numbers, the unused `flags` parameter, dynRegexDot, dsAppendChar, generation and main are debugging output and are left out.
- RegexBuilder: C's `lastStart`/`lastEnd` pair is one optional pair. The `int c` token field is a `char`, and a pending class character of 0 stands for "none", as in C.
- RegexBuilder.DynRegex.ReadClass: the character-class loop, and each case of the token switch (ParseOr … ParseCapture, ParseToken), are separate methods here. In C they are inline in dynRegexParse.
- dsPrintf, dsConcatv, dsConcatf and dsCreate/dsDestroy's formatting and freeing: they delegate to the C library.
- src/dynJSON.c, the headers, and tests/main.c as code. tests/main.c is only the PushFive scenario.

## Findings

| source | as written | input that shows it | evidently intended | confidence | as-written member | corrected member |
|---|---|---|---|---|---|---|
| src/dynArray.c:120-121 | daMakeRoom doubles `newCapacity` starting from the current capacity; a capacity of 0 stays 0, so the loop never ends | `daSetCapacity(&a, 0, NULL)` then `daPush(&a, &x)` | start from a nonzero capacity (DYNAMIC_ARRAY_INITIAL_SIZE) when the capacity is 0 | not executed | DynArray.GrowAsWrittenStuckAtZero | DynArray.Grown |
| src/dynArray.c:333 | daErase's memmove copies `size - index` elements from `index + 1`, reading slot `size`, one past the live data, which is outside the buffer when the array is full | two pushes onto a NULL array (size = capacity = 2), then `daErase(&a, 0)` | move `size - index - 1` elements | not executed | DynArray.EraseOnFullArrayReadsPastBuffer | DynArray.DynArray.Erase |
