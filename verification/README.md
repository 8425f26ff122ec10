# skaled core structures, modelled and proved

A Dafny model of the data structures at the core of skaled, and proofs of what
they promise.

**The Merkle Patricia trie.** `TrieNode` gives insertion and removal on trees of
nodes (with `TrieInsert` and `TrieDelete` on what they keep), `TrieItem` the RLP
item of a node (children below 32 bytes inline, others by hash), `NodeDb` the
reference-counted store over memory and disk, and `TrieDb` the trie on that store,
step by step as the program does it. The tree of a trie is canonical and determined
by its contents (`TrieContents`), so the root hash is a function of the map a run of
operations makes (`TrieRuns`) and equals the hash computed from the map directly
(`TrieHash`). Reference counts are exact at every step, also with two tries on one
store (`TriePair`), and a committed root keeps its map over every later run of
updates, commits, losses of memory and reopenings (`TrieCommits`). `TrieOrder`,
`TrieSeek` and `TrieIterator` treat iteration and lower bounds, and `TrieWalk`
iteration after a run. `TrieBytes` has small nodes byte by byte.

**RLP.** `Rlp` has the recursive encoding and the strict reader, `RlpStream` the
writer that back-patches list headers, `RlpReader` integers, the cached index and
the iterator. `BigEndian` and `HexPrefix` are the layers below.

**The rotating database.** `Rotation` has the marks on disk and their recovery,
`RotatingDb` the process over the files with a crash after any disk step, and
`RotationLog` the reference: a log of writes with their ages.

**Smaller structures.** `RangeMask` (sets as ranges), `SocketRing` and `LogRing`
(the profiler's two ring buffers, under stale reads), `HashBase` (hashing a
database whole or in parts) and `LruCache`.

## Conventions

- The hash of a node is any injective function on items with non-empty results.
  Its width is left open, as no injective function into 32 bytes exists. The store
  holds items instead of their bytes; `Rlp.RoundTrip` and `Rlp.EncodeInjective`
  say that this is the same.
- Classes follow objects that the program updates in place. Their ghost fields
  (`builder`, `node`, `refs`, `spots`, `chosen`, `entries`, ...) are the abstract
  value that each method is proved against.
- `Db.refs` counts references as a caller who keeps the rules does. Off disk the
  real counts equal it; what is on disk is never removed, and its counts do not
  matter.
- Removal has three outcomes on nodes: `Absent`, `Changed` and `Fault`. `Fault`
  stands for the places where the program reads a nibble past the end of a key,
  or takes a value for the hash of a node (a `Hazard`: it throws on values of more
  than 32 bytes and may follow one that is the hash of a pair).
  `FaultExactlyWhenUnsafe` says for which keys this happens.
- A method or event with a `power` dies after that many disk steps. Every write
  or deletion in a LevelDB, and every renaming or removal of its directory, is one
  step. What a dead process is asked to do has no effect until it is reopened, and
  reopening may die in turn.
- Each step of `SocketRing` is one atomic step of one thread: a load, the copying of
  one byte, or a store. In `LogRing` a call works on a read index loaded before the
  consumer moves on.
- Behaviour that the comments do not mention is modelled as coded:
  `RangeMask::operator-=` enlarges the ground range, and `hashBasePartially` goes
  back to the beginning at a key "start".

## Model

| member | source | states |
|---|---|---|
| `BigEndian.BytesRequired` | libdevcore/CommonData.h:236-243 | the number of bytes of the minimal big-endian form |
| `BigEndian.FromBigEndian` | libdevcore/CommonData.h:137-143 | the shift-and-or loop yields the positional value of any byte string |
| `BigEndian.ToBigEndian` | libdevcore/CommonData.h:123-130 | filling a buffer from its end leaves the low bytes of the number, zero-padded or cut off to the buffer's length |
| `BigEndian.ToCompactBigEndian` | libdevcore/CommonData.h:170-179 | the value is kept, the length is the larger of `_min` and the minimal one, and without padding the result is the minimal form |
| `BigEndian.ValueOfCompact` | libdevcore/CommonData.h:137-179 | reading the minimal form back gives the number |
| `BigEndian.CompactOfValue` | libdevcore/CommonData.h:137-179 | a byte string without leading zero is the minimal form of its value, so the two directions are inverse |
| `BigEndian.ValueOfPadded` | libdevcore/CommonData.h:116-130 | a buffer that is too small keeps the value modulo a power of 256 |
| `BigEndian.WidthBound` | libdevcore/CommonData.h:236-243 | a number needs at most w bytes exactly when it is below 256 to the w |
| `Rlp.HeaderReads` | libdevcore/RLP.cpp:150-202 | length and payload offset of a written header are read back, whatever follows it |
| `Rlp.LongLengthExactly` | libdevcore/RLP.cpp:150-202 | a length of its own in up to eight bytes, the first not zero, of 56 or more, is read exactly if it is below 2^64 - 257, whatever follows |
| `Rlp.EncodingReads` | libdevcore/RLP.cpp:106-114 | every encoded item, in front of any bytes, is measured with exactly its own size |
| `Rlp.RoundTrip` | libdevcore/RLP.cpp:41-202 | strict reading of an encoded tree, recursively through all lists, returns that tree |
| `Rlp.HeaderCanonical` | libdevcore/RLP.cpp:150-202 | an accepted header is byte for byte the one the writer makes for that length |
| `Rlp.ParseCanonical` | libdevcore/RLP.cpp:41-56 | any string that is accepted with exact size, down through all its lists, is the encoding of the tree it is read as |
| `Rlp.ParseInjective` | libdevcore/RLP.cpp:41-56 | no two accepted strings are read as the same tree |
| `Rlp.EncodeInjective` | libdevcore/RLP.cpp:259-326 | no two trees have the same encoding |
| `Rlp.EncodeNumerals` | libdevcore/RLP.cpp:259-326 | the bytes of every encoding: 0x80 plus the length or 0xb7 plus the length of the length for strings, 0xc0 and 0xf7 for lists, with 55 as the last short length, and single bytes below 0x80 as they are |
| `Rlp.EncodeListExample` | libdevcore/RLP.cpp:259-326 | the list of "cat" and "dog" is c8 83 636174 83 646f67 |
| `Rlp.OpenStrict` | libdevcore/RLP.cpp:41-56 | opening succeeds exactly on strings whose encoded size is their length |
| `Rlp.SizeAsEncoded` | libdevcore/RLP.h:438-441 | a size that is returned lies within the data and is positive for non-empty data |
| `RlpReader.IntPayload` | libdevcore/RLP.cpp:128-148 | of strings, exactly the empty one and those with a non-zero first byte count as integers |
| `RlpReader.ToIntExact` | libdevcore/RLP.h:345-363 | an exactly sized string reads as the integer v exactly when it is the encoding of v's minimal big-endian bytes and these fit the integer type |
| `RlpReader.SplitEncoded` | libdevcore/RLP.cpp:204-213 | scanning an encoded list finds the encodings of its items, in order |
| `RlpReader.SplitIsScan` | libdevcore/RLP.cpp:204-213 | what a scan finds stands one behind the other and fills the payload |
| `RlpReader.Items` | libdevcore/RLP.cpp:204-213 | the number of children one fresh scan finds, none for what is no list, or the error that reading the payload or the scan meets |
| `RlpReader.CachedList.constructor` | libdevcore/RLP.cpp:79-91 | a list opens with an empty cache that agrees with a fresh scan |
| `RlpReader.CachedList.At` | libdevcore/RLP.cpp:79-91 | after any sequence of accesses, forwards, backwards or past the end, the cached index returns the child a fresh scan finds, or nothing behind the last |
| `RlpReader.ItemIterator.Begin` | libdevcore/RLP.cpp:68-77 | the iterator starts on the first child of a fresh scan |
| `RlpReader.ItemIterator.Current` | libdevcore/RLP.cpp:58-77 | the iterator shows the child at its index and equals the end iterator exactly behind the last child |
| `RlpReader.ItemIterator.Advance` | libdevcore/RLP.cpp:58-66 | each step moves on by one child and stays at the end |
| `RlpReader.ToList` | libdevcore/RLP.cpp:93-104 | walking the iterator to its end collects what one scan finds |
| `RlpStream.BalancedRuns` | libdevcore/RLP.cpp:215-275 | a run of list and data calls leaves no list open and holds the trees xs exactly when it is the sequence of calls that writes out xs |
| `RlpStream.RunTree` | libdevcore/RLP.cpp:259-295 | from any state and at any depth, the calls for a tree add exactly that tree |
| `RlpStream.ReplayRun` | libdevcore/RLP.cpp:215-275 | no call is lost or reordered: what a run leaves behind determines the run |
| `RlpStream.PatchInt` | libdevcore/RLP.cpp:245-249 | the backwards byte loop overwrites exactly the minimal big-endian bytes of the number |
| `RlpStream.Stream.constructor` | libdevcore/RLP.h:538-541 | an empty stream holds nothing |
| `RlpStream.Stream.InsertHeader` | libdevcore/RLP.cpp:235-253 | the payload is shifted and the list header for its size stands in front of it |
| `RlpStream.Stream.CloseList` | libdevcore/RLP.cpp:235-253 | back-patching turns the payload of a finished list into the encoding of that list |
| `RlpStream.Stream.NoteAppended` | libdevcore/RLP.cpp:221-257 | an append that exceeds the pending count of the innermost list is refused; otherwise the pending counts go down, every list that is complete is closed, and buffer and stack are again those of the tree built so far |
| `RlpStream.Stream.AppendRaw` | libdevcore/RLP.cpp:215-219 | raw encodings count as the items they encode |
| `RlpStream.Stream.AppendList` | libdevcore/RLP.cpp:259-275 | opens a list, or adds an empty one at once |
| `RlpStream.Stream.PushCount` | libdevcore/RLP.cpp:320-326 | the header of a long string or list |
| `RlpStream.Stream.PushInt` | libdevcore/RLP.h:659-665 | appends the minimal big-endian bytes |
| `RlpStream.Stream.Append` | libdevcore/RLP.cpp:277-295 | adds the string, without its leading zeros in compact form |
| `RlpStream.Stream.AppendInt` | libdevcore/RLP.cpp:297-318 | adds the same item as appending the integer's minimal big-endian bytes |
| `RlpStream.Stream.Out` | libdevcore/RLP.h:631-635 | an error exactly while a list is open, otherwise the encodings of all items |
| `RlpStream.Write` | libdevcore/RLP.cpp:215-295 | for every sequence of calls, the stream can be read out exactly when the sequence is balanced, and the back-patched buffer is then the recursive encoding of its items |
| `RlpStream.WriteTree` | libdevcore/RLP.cpp:41-295 | writing a tree by calls gives its encoding, and reading that back gives the tree |
| `HexPrefix.EncodeInverts` | libdevcore/TrieCommon.h:104-121 | key and leaf flag are recovered from an encoding, for every nibble sequence and either parity |
| `HexPrefix.EncodeInjective` | libdevcore/TrieCommon.h:104-121 | no two keys with their flags share an encoding |
| `HexPrefix.EncodeNibbles` | libdevcore/TrieCommon.cpp:47-66 | the nibbles of every encoding: 2 for a leaf plus 1 for an odd length, a zero exactly for an even length, then the key |
| `HexPrefix.EncodeEvenBytes` | libdevcore/TrieCommon.cpp:47-66 | the bytes for an even length: 0x20 for a leaf or 0x00, then two nibbles a byte, the first in the upper half |
| `HexPrefix.EncodeOddBytes` | libdevcore/TrieCommon.cpp:47-66 | the bytes for an odd length: 0x30 for a leaf or 0x10 plus the first nibble, then two nibbles a byte |
| `HexPrefix.EncodeExamples` | libdevcore/TrieCommon.cpp:47-66 | the nibbles 1 2 of a leaf are 20 12, and of an extension 00 12; 1 2 3 are 31 23 and 11 23 |
| `HexPrefix.ReadsBits` | libdevcore/TrieCommon.h:104-121 | what is read from any bytes: the leaf flag is bit 5 of the first byte, and bit 4 says whether the key begins at the second nibble or the third |
| `HexPrefix.EncodeVector` | libdevcore/TrieCommon.cpp:47-60 | the first form encodes the nibbles between its bounds, a negative end counting from the back |
| `HexPrefix.EncodeSlice` | libdevcore/TrieCommon.cpp:62-82 | the second form encodes a stretch of the nibbles of a byte string, from an offset on |
| `HexPrefix.EncodePair` | libdevcore/TrieCommon.cpp:84-112 | the third form encodes the nibbles of two slices one behind the other |
| `HexPrefix.AsNibblesAt` | libdevcore/TrieCommon.h:32-34 | the nibble at an index is that of the list of all nibbles |
| `HexPrefix.NibbleSlice.CountShared` | libdevcore/TrieCommon.h:38-74 | the length of the longest common prefix of two slices |
| `HexPrefix.NibbleSlice.IsEarlierThan` | libdevcore/TrieCommon.h:80-91 | a slice is earlier exactly when it comes before the other in lexicographic order |
| `TrieInsert.InsertLookup` | libdevcore/TrieDB.h:822-905 | after an insertion the key has the new value and every other key the old one, through every cleve and branch |
| `TrieInsert.InsertCanonical` | libdevcore/TrieDB.h:822-905 | insertion keeps the canonical shape: non-empty values, extensions with a non-empty key over a branch, branches with two used places |
| `TrieDelete.DeleteLookup` | libdevcore/TrieDB.h:929-1017 | a removal that changes the trie clears that key and no other, through every merge and graft; one that reports no change was of an absent key |
| `TrieDelete.DeleteCanonical` | libdevcore/TrieDB.h:929-1017 | removal restores the canonical shape |
| `TrieDelete.DeleteFindsPresent` | libdevcore/TrieDB.h:929-1017 | a removal changes the trie only if the key is stored |
| `TrieNode.UniqueInUse` | libdevcore/TrieCommon.cpp:114-124 | the one place of a branch that is used, or 255 when there are none or several |
| `TrieInsert.CleveLookup` | libdevcore/TrieDB.h:1081-1096 | splitting a pair keeps all its contents |
| `TrieInsert.BranchOfLookup` | libdevcore/TrieDB.h:1133-1159 | turning a pair into a branch keeps all its contents |
| `TrieDelete.RejigLookup` | libdevcore/TrieDB.h:1002-1016 | merging a branch that has one place left keeps all its contents |
| `TrieDelete.JoinLookup` | libdevcore/TrieDB.h:1098-1118 | grafting a pair onto a prefix keeps its contents under the longer keys |
| `TrieContents.CanonicalUnique` | libdevcore/TrieDB.h:766-1159 | two canonical tries with the same contents are the same trie |
| `TrieContents.FaultExactlyWhenUnsafe` | libdevcore/TrieDB.h:929-1017 | removal goes wrong exactly when the key set is unsafe for it: an absent key below a stored one or at a parting of stored keys, or a stored key whose removal isolates a value that is taken for a hash |
| `TrieContents.SameLengthIsSafe` | libdevcore/TrieDB.h:324-380 | keys of one length are always safe to remove |
| `TrieContents.FaultExamples` | libdevcore/TrieDB.h:946-1017 | tries of one and two keys on which each kind of unsafe removal goes wrong |
| `TrieItem.ItemInjective` | libdevcore/TrieDB.h:1072-1079 | no two canonical nodes have the same item, inline or hashed |
| `TrieItem.RefByBytes` | libdevcore/TrieDB.h:1072-1085 | every node whose encoding has at most 31 bytes is part of its parent and has no reference of its own; from 32 bytes on it is mentioned by its hash and has one |
| `TrieItem.LeafOf32` | libdevcore/TrieDB.h:1072-1085 | every leaf with three nibbles and a value of 27 bytes has 32 bytes and is stored by its hash |
| `TrieItem.LeafOf31` | libdevcore/TrieDB.h:1072-1085 | with one byte less it is part of its parent |
| `TrieItem.TakenByBytes` | libdevcore/TrieDB.h:918-927 | a value is taken for a reference exactly if it has more than 32 bytes or is the end of the 32-byte hash of some pair behind zeros |
| `TrieBytes.SmallLeaf` | libdevcore/TrieDB.h:1072-1085 | the bytes of a small leaf |
| `TrieBytes.ExtensionExample` | libdevcore/TrieDB.h:1072-1085 | the bytes of an extension with that leaf inside |
| `TrieBytes.BranchExample` | libdevcore/TrieDB.h:1072-1085 | the bytes of a branch with it: sixteen slots in order, then the value |
| `TrieItem.RootDeterminesTrie` | libdevcore/TrieDB.h:776-778 | two canonical tries with the same root hash are the same |
| `NodeDb.Db.constructor` | libdevcore/MemoryDB.cpp:55-69 | an empty memory layer over given nodes on disk |
| `NodeDb.Db.Lookup` | libdevcore/OverlayDB.cpp:112-118 | a node is found exactly if it is on disk or in memory, there with a reference where these are enforced; what is found has the hash asked for, and whatever is referenced is found |
| `NodeDb.Db.Insert` | libdevcore/OverlayDB.cpp:127-134 | the entry with one more reference and nothing else in memory; when every insertion commits, memory is empty and the disk has gained exactly the node and what else was referenced |
| `NodeDb.Db.Kill` | libdevcore/MemoryDB.cpp:96-118 | one reference fewer where memory counts one, the value kept, nothing else anywhere |
| `NodeDb.Db.Commit` | libdevcore/OverlayDB.cpp:45-89 | the disk has gained exactly the nodes with a positive count, which includes everything referenced, and nothing leaves it |
| `NodeDb.Db.Rollback` | libdevcore/OverlayDB.cpp:105-110 | the disk keeps everything, only uncommitted references are forgotten |
| `NodeDb.Db.Purge` | libdevcore/MemoryDB.cpp:144-153 | entries without references go, all others and all counts stay |
| `NodeDb.Referenced` | libdevcore/MemoryDB.cpp:144-153 | erasing one by one in a loop leaves exactly the entries with a positive count |
| `NodeDb.Db.Keys` | libdevcore/MemoryDB.cpp:163-172 | exactly the hashes with a positive count |
| `TrieDb.Trie.Init` | libdevcore/TrieDB.h:70-73 | an empty trie, its root stored once |
| `TrieDb.Trie.Open` | libdevcore/TrieDB.h:75-84 | a trie whose nodes are all on disk can be opened by its root |
| `TrieDb.Trie.At` | libdevcore/TrieDB.h:781-784 | the stored value of a key, or nothing |
| `TrieDb.Trie.AtAux` | libdevcore/TrieDB.h:786-814 | lookup on items follows lookup on nodes, through inline and hashed children |
| `TrieDb.Trie.Deref` | libdevcore/TrieDB.h:924-927 | a reference, inline or by hash, leads to the item of its node |
| `TrieDb.Trie.KillNode` | libdevcore/TrieDB.h:300-303 | exactly nodes whose encoding has 32 bytes or more lose a reference, others change nothing |
| `TrieDb.Trie.StreamNode` | libdevcore/TrieDB.h:1072-1079 | a node whose encoding has at most 31 bytes is mentioned inline and nothing is stored; from 32 bytes on it is stored and mentioned by hash |
| `TrieDb.Trie.Place` | libdevcore/TrieDB.h:1037-1052 | the value is placed, and of a node that was never stored no reference is taken |
| `TrieDb.Trie.Cleve` | libdevcore/TrieDB.h:1081-1096 | the split node, with exactly its references gained and lost |
| `TrieDb.Trie.ToBranch` | libdevcore/TrieDB.h:1133-1159 | the pair as a branch, with exactly its references gained and lost |
| `TrieDb.Trie.MergeAt` | libdevcore/TrieDB.h:816-885 | the item of the node after insertion, and the store's references change by exactly what the node lost and gained |
| `TrieDb.Trie.MergeAtAux` | libdevcore/TrieDB.h:887-905 | the same below a reference |
| `TrieDb.Trie.IsTwoItemNode` | libdevcore/TrieDB.h:918-922 | tells pairs from branches behind a reference |
| `TrieDb.Trie.IsTwoItemValue` | libdevcore/TrieDB.h:918-922 | a value of at most 32 bytes that is not the hash of a pair is not taken for a reference to one |
| `TrieDb.Trie.Graft` | libdevcore/TrieDB.h:1098-1118 | two pairs joined into one, the inner one losing its reference |
| `TrieDb.Trie.UniqueInUse` | libdevcore/TrieCommon.cpp:114-124 | the scan over 17 items agrees with the node's used places |
| `TrieDb.Trie.MergeItem` | libdevcore/TrieDB.h:1120-1131 | a branch with one place left becomes the pair, or the leaf, that keeps its contents, with exact references |
| `TrieDb.Trie.RejigItem` | libdevcore/TrieDB.h:967-1017 | what is left of a branch is put in canonical shape, with exact references |
| `TrieDb.Trie.DeleteAt` | libdevcore/TrieDB.h:929-1017 | the item of the node after removal with exact references, or no change at all for an absent key |
| `TrieDb.Trie.DeleteAtAux` | libdevcore/TrieDB.h:1019-1035 | the same below a reference |
| `TrieDb.Trie.Insert` | libdevcore/TrieDB.h:766-779 | the trie becomes that of the insertion and the store loses exactly the old trie's references and gains the new one's |
| `TrieDb.Trie.Remove` | libdevcore/TrieDB.h:907-916 | likewise for a removal; an absent key changes neither the trie nor anything in the store, in memory or on disk |
| `TrieDb.Trie.LeftOvers` | libdevcore/TrieDB.h:205-209 | on a store that holds nothing but this trie no key is left over, and the scan meets no invalid node |
| `TrieDb.Trie.DescendList` | libdevcore/TrieDB.h:184-202 | the scan strikes exactly the hashes stored below a node and accepts every canonical shape |
| `TrieRuns.ApplyCorrect` | libdevcore/TrieDB.h:766-1159 | one operation on the trie is that operation on the map it holds |
| `TrieRuns.RunCorrect` | libdevcore/TrieDB.h:766-1159 | after any allowed run the trie is canonical and holds the map that the run makes |
| `TrieRuns.FixedLengthAllowed` | libdevcore/TrieDB.h:324-380 | every run of insertions and removals with keys of one length and non-empty values is allowed |
| `TrieRuns.InsertionsAllowed` | libdevcore/TrieDB.h:766-779 | every run of insertions with non-empty values is allowed, for keys of any lengths |
| `TrieRuns.RootIsContents` | libdevcore/TrieDB.h:766-1159 | after any two allowed runs the root hashes agree exactly when the resulting maps do: history does not matter |
| `TrieRuns.RunOn` | libdevcore/TrieDB.h:766-916 | a run on a stored trie ends in the trie of the run, and the references change by exactly the two tries' references |
| `TrieRuns.RunInMemory` | libdevcore/MemoryDB.cpp:81-118 | in a memory store of its own, the count of every hash is the number of its occurrences in the tree unfolded from the root |
| `TriePair.StepBeside` | libdevcore/TrieDB.h:766-916 | with two tries on one store, an operation on one leaves the other valid, and the references of both are counted still |
| `TriePair.RunBoth` | libdevcore/TrieDB.h:766-916 | any interleaving of operations on two tries of one store ends in the tries that the two runs make alone, and the references change by exactly theirs |
| `TriePair.BothInMemory` | libdevcore/MemoryDB.cpp:81-118 | in a memory store of their own, the count of every hash is the number of its occurrences in both tries |
| `TrieCommits.FixedLengthPermitted` | libdevcore/TrieDB.h:324-380 | over keys of one length, with non-empty values, every run of updates, commits, losses and reopenings of committed roots is permitted |
| `TrieCommits.RunHolds` | libdevcore/TrieDB.h:766-1159 | after any such run the current trie and every committed one hold the maps that the run makes |
| `TrieCommits.OpenRoot` | libdevcore/TrieDB.h:65-84 | a root whose trie is on disk opens as that trie, and memory and disk stay as they were |
| `TrieCommits.LoseMemory` | libdevcore/OverlayDB.cpp:105-110 | losing the memory layer, by a rollback or a crash, empties it, leaves the disk as it was, and with it every committed trie |
| `TrieCommits.RunOnStore` | libdevcore/OverlayDB.cpp:45-118 | on the store: after any run of updates, commits, losses of memory and reopenings the current trie is valid and as the run makes it, every trie ever committed is on disk as a whole under its root, the disk has lost nothing, and memory is empty whenever nothing was updated since the last commit or loss |
| `TrieCommits.ReadCommitted` | libdevcore/OverlayDB.cpp:45-118 | any root that such a run committed, opened from disk afterwards, returns the values of its own map |
| `TrieHash.SharedPrefix` | libdevcore/TrieHash.cpp:40-49 | the exact number of nibbles shared by all keys of a range |
| `TrieHash.NextNibbles` | libdevcore/TrieHash.cpp:56-70 | in a sorted range only the first key may end at the common prefix, and the next nibbles ascend |
| `TrieHash.RunOf` | libdevcore/TrieHash.cpp:62-64 | the run of entries with a given next nibble is exactly those |
| `TrieHash.HashSlot` | libdevcore/TrieHash.cpp:61-70 | one slot takes exactly the run of entries with its nibble, as a canonical trie of them |
| `TrieHash.HashSlots` | libdevcore/TrieHash.cpp:61-70 | the sixteen slots partition the range by next nibble |
| `TrieHash.Hash256Rlp` | libdevcore/TrieHash.cpp:29-77 | the item of a canonical trie that holds exactly the entries of the range |
| `TrieHash.HexMap` | libdevcore/TrieHash.cpp:94-96 | the nibble map lists the byte map's entries in the same order |
| `TrieHash.NibbleOrder` | libdevcore/TrieHash.cpp:94-96 | reading bytes as nibbles keeps lexicographic order |
| `Bytes.PrecedesByLetters` | libdevcore/LevelDB.cpp:354-379 | the order of keys: the first letters decide, equal ones leave it to the rest, and a prefix comes first |
| `TrieHash.Rlp256` | libdevcore/TrieHash.cpp:90-100 | the item of the canonical trie that holds the map |
| `TrieHash.Hash256` | libdevcore/TrieHash.cpp:102-104 | the root computed from the map alone is the root of every trie that came to hold the map by an allowed run |
| `TrieOrder.EntriesExact` | libdevcore/TrieDB.h:671-753 | the entries to be visited are exactly the stored pairs |
| `TrieOrder.EntriesIncreasing` | libdevcore/TrieDB.h:671-753 | they come in strictly increasing key order, so each comes once |
| `TrieIterator.TurnCorrect` | libdevcore/TrieDB.h:554-669 | every turn of the loop skips only entries before the bound, never passes one that is not, and makes progress |
| `TrieIterator.PairStep` | libdevcore/TrieDB.h:587-623 | at a pair: what each of the comparisons with the remaining key implies for the entries below and behind it |
| `TrieIterator.BranchStep` | libdevcore/TrieDB.h:624-667 | at a branch: the slot of the next nibble splits the entries at the bound |
| `TrieIterator.FindPlace` | libdevcore/TrieDB.h:646-667 | the inner loop finds the first used place and skips nothing |
| `TrieIterator.Iterator.Begin` | libdevcore/TrieDB.h:525-531 | the iterator stands on the first entry, with all entries to come |
| `TrieIterator.Iterator.LowerBound` | libdevcore/TrieDB.h:533-539 | the iterator stands on the least stored key not less than the bound, or at the end: the entries split there into those before the bound and those not |
| `TrieIterator.Iterator.Step` | libdevcore/TrieDB.h:557-668 | one turn on frames is that turn on nodes and paths |
| `TrieIterator.Iterator.Seek` | libdevcore/TrieDB.h:554-669 | the loop ends, and stops on the first entry that is not before the bound |
| `TrieIterator.Iterator.Advance` | libdevcore/TrieDB.h:671-753 | exactly the current entry is left behind; the end stays the end |
| `TrieIterator.Iterator.Current` | libdevcore/TrieDB.h:541-552 | key bytes and value of the current entry |
| `TrieIterator.Collect` | libdevcore/TrieDB.h:109-160 | iteration from begin to end yields every stored pair once, in key order |
| `TrieWalk.ByteOrder` | libdevcore/TrieHash.cpp:94-96 | the order of nibbles is the order of the bytes they come from |
| `TrieWalk.CollectRun` | libdevcore/TrieDB.h:109-160 | after any allowed run over byte keys of any lengths, iteration yields exactly the pairs of the map that the run makes, each once, in the order of the byte keys |
| `Rotation.RecoverIdempotent` | libbatched-io/batched_rotating_db_io.cpp:109-128 | whatever the marks, recovery leaves no two neighbours marked and a second recovery changes nothing |
| `Rotation.RecoverTouches` | libbatched-io/batched_rotating_db_io.cpp:109-128 | recovery changes marks only, and adds none |
| `Rotation.RecoverResumes` | libbatched-io/batched_rotating_db_io.cpp:109-128 | whatever the marks, recovery that died before removing any of its marks and starts again ends as if it had not died |
| `Rotation.ChoosesCurrent` | libbatched-io/batched_rotating_db_io.cpp:24-42 | with three files or more the current file is found again after a crash anywhere, and no other file keeps a mark |
| `Rotation.NewChosenExactly` | libbatched-io/batched_rotating_db_io.cpp:102-128 | with both marks on disk the new file is chosen exactly when there are three files or more or it is file 1 |
| `Rotation.TwoFilesChooseOne` | libbatched-io/batched_rotating_db_io.cpp:109-128 | with two files and both marks, file 1 is chosen whichever is new |
| `RotatingDb.PlaceMod` | libbatched-io/batched_rotating_db_io.cpp:44-50 | the file at place k is (current + k) modulo the number of files |
| `RotatingDb.RotatingDb.constructor` | libbatched-io/batched_rotating_db_io.cpp:14-22 | a directory without any file, to be opened |
| `RotatingDb.OpenPass` | libbatched-io/batched_rotating_db_io.cpp:17-22 | for any number of files, the loop that opens them creates each missing one, at one disk step each, changes nothing that is stored or marked, and gets through exactly if it has as many steps as files are missing |
| `RotatingDb.RotatingDb.OpenFiles` | libbatched-io/batched_rotating_db_io.cpp:17-22 | the same on the object, with its contents unchanged |
| `RotatingDb.RecoverPass` | libbatched-io/batched_rotating_db_io.cpp:109-128 | for any number of files and any marks, the loop computes recovery up to its last disk step, and gets through exactly if it has as many steps as marks have to go |
| `RotatingDb.RotatingDb.Recover` | libbatched-io/batched_rotating_db_io.cpp:109-128 | recovery on the object changes no contents |
| `RotatingDb.RotatingDb.FindCurrent` | libbatched-io/batched_rotating_db_io.cpp:29-42 | the first marked file, or file 0 |
| `RotatingDb.RotatingDb.BringToFront` | libbatched-io/batched_rotating_db_io.cpp:44-50 | the deque is turned to start with the current file |
| `RotatingDb.RotatingDb.OpenArchives` | libbatched-io/batched_rotating_db_io.cpp:54-66 | the archives follow behind the files |
| `RotatingDb.RotatingDb.Crash` | libbatched-io/batched_rotating_db_io.cpp:69-107 | a process may die at any moment, with nothing on disk changed |
| `RotatingDb.RotatingDb.Repair` | libbatched-io/batched_rotating_db_io.cpp:14-42 | what opening does on disk changes no contents and is complete exactly with as many steps as files are missing and second marks there |
| `RotatingDb.RotatingDb.Reopen` | libbatched-io/batched_rotating_db_io.cpp:14-67 | a process started after a crash at any disk step, and possibly crashing itself, sees the same pieces in the same order; it comes up exactly if it has as many disk steps as there are files missing and second marks |
| `RotatingDb.RotatingDb.RemoveOldest` | libbatched-io/batched_rotating_db_io.cpp:70-92 | only the oldest piece leaves, into the archives if there are any |
| `RotatingDb.RotatingDb.TurnPieces` | libbatched-io/batched_rotating_db_io.cpp:75-100 | the in-memory order stays: files from the current one on, then archives |
| `RotatingDb.RotatingDb.Rotate` | libbatched-io/batched_rotating_db_io.cpp:69-107 | a rotation that ends after any disk step leaves the old current file until the new mark is written and the new one from then on; its effect on pieces, archives and what is to be repaired is the step of the reference |
| `RotatingDb.RotatingDb.Lookup` | libdevcore/ManuallyRotatingLevelDB.cpp:19-28 | the first non-empty value in piece order |
| `RotatingDb.RotatingDb.Exists` | libdevcore/ManuallyRotatingLevelDB.cpp:30-38 | whether any piece has the key |
| `RotatingDb.RotatingDb.Insert` | libdevcore/ManuallyRotatingLevelDB.cpp:40-43 | into the current piece only |
| `RotatingDb.RotatingDb.Kill` | libdevcore/ManuallyRotatingLevelDB.cpp:45-49 | out of the pieces and then the archives, front to back, one disk step each, as far as the process lives; nothing else changes |
| `RotatingDb.LookupAfter` | libdevcore/ManuallyRotatingLevelDB.cpp:13-49 | after every run of writes, kills, rotations, crashes and reopenings, with a crash at any disk step of any of them, the database is up exactly if the next write would be found, and then a lookup gives the latest write that the log still has |
| `RotatingDb.StoredAfter` | libbatched-io/batched_rotating_db_io.cpp:75-92 | in archive mode the database after any two runs in a row is in the state of both, and a pair stored after the first is stored still if the second does not write or kill its key |
| `RotationLog.LookIsRecall` | libdevcore/ManuallyRotatingLevelDB.cpp:19-28 | lookup through the pieces finds the latest write of a key in the log, or nothing once that is too old |
| `RotationLog.RunRepresents` | libdevcore/ManuallyRotatingLevelDB.cpp:13-49 | over every run each piece holds the latest writes of its age, and older writes are in older pieces; a kill takes from the log what is younger than the number of its disk steps |
| `RotationLog.RunLooksUpLatest` | libdevcore/ManuallyRotatingLevelDB.cpp:13-49 | the same for lookups after a run from empty pieces |
| `RotationLog.WriteSurvives` | libdevcore/ManuallyRotatingLevelDB.cpp:13-49 | a write is found until as many rotations as there are pieces have been begun, whatever crashed and was reopened in between |
| `RotationLog.NeverStaleExactly` | libdevcore/ManuallyRotatingLevelDB.cpp:45-49 | no crash within a kill lets an older value of the key show, exactly when at most one piece holds the key |
| `RotationLog.StaleExample` | libdevcore/ManuallyRotatingLevelDB.cpp:45-49 | a run in which it does: a value overwritten after a rotation shows again after a kill that ends at its first step |
| `RotationLog.KillDone` | libdevcore/ManuallyRotatingLevelDB.cpp:45-49 | a kill that gets to its end leaves no value of the key |
| `RotationLog.WritableAfterKill` | libdevcore/ManuallyRotatingLevelDB.cpp:45-49 | after a kill the next write is found exactly if the kill had as many steps as there are pieces and archives |
| `RotationLog.WritableAfterTurn` | libbatched-io/batched_rotating_db_io.cpp:69-107 | after a rotation, exactly if it made its four steps |
| `RotationLog.WritableAfterOthers` | libdevcore/ManuallyRotatingLevelDB.cpp:40-43 | after a write or opening again it is, after a crash it is not |
| `RotationLog.NothingGetsIn` | libbatched-io/batched_rotating_db_io.cpp:14-67 | where the next write would not be found, no event changes a pair, and opening with at least as many steps as there is to repair is all that makes an end of that |
| `RotationLog.KillReaches` | libdevcore/ManuallyRotatingLevelDB.cpp:45-49 | a kill takes the key, and nothing else, out of as many pieces and then archives as it has steps |
| `RotationLog.KilledIsGone` | libdevcore/ManuallyRotatingLevelDB.cpp:45-49 | one that gets to its end leaves no value of the key in any piece or archive |
| `RotationLog.ArchiveKeeps` | libbatched-io/batched_rotating_db_io.cpp:75-92 | in archive mode no pair is lost over any run, with crashes and reopenings anywhere, that does not write or kill its key |
| `RangeMask.Unique` | libdevcore/RangeMask.h:40-45 | equal sets have equal sorted, separated ranges |
| `RangeMask.Choose` | libdevcore/RangeMask.h:237-282 | each branch of the merge picks ranges to replace so that separation is kept and only numbers of the argument are added |
| `RangeMask.UnionStep` | libdevcore/RangeMask.h:237-282 | one turn adds the numbers up to where it gets, keeps the ranges separated, and makes progress |
| `RangeMask.LowestExactly` | libdevcore/RangeMask.h:66-72 | `lowest` is right exactly when no sum of a range's start and the items left wraps around 32 bits |
| `RangeMask.LowestExample` | libdevcore/RangeMask.h:66-72 | an input where it wraps: asked for 2^32 - 1 items, the mask 10 to 19 yields a range that ends before it begins |
| `RangeMask.SubtractExample` | libdevcore/RangeMask.h:95-103 | an input where the ground range widens: nothing over 0 to 1, minus nothing over 0 to 4, is 2 to 4 |
| `RangeMask.NextExample` | libdevcore/RangeMask.h:190-200 | behind the greatest 32-bit number comes 10 in the mask 10 to 19 over 0 to 29 |
| `RangeMask.RangeMask.constructor` | libdevcore/RangeMask.h:55-60 | an empty mask over its ground range |
| `RangeMask.AddRange` | libdevcore/RangeMask.h:237-282 | the loop over the ranges ends and yields the union with the range, separated |
| `RangeMask.RangeMask.UnionWithRange` | libdevcore/RangeMask.h:237-282 | the set is the union with the range |
| `RangeMask.RangeMask.UnionWith` | libdevcore/RangeMask.h:107-113 | the union of the sets over the union of the ground ranges |
| `RangeMask.RangeMask.Inverted` | libdevcore/RangeMask.h:78-89 | the complement in the ground range, sorted and separated |
| `RangeMask.RangeMask.Invert` | libdevcore/RangeMask.h:91-93 | the mask becomes its complement |
| `RangeMask.RangeMask.Subtract` | libdevcore/RangeMask.h:95-103 | what double inversion yields, and that this is the difference exactly when the other's ground range adds no number that the other lacks; a mask subtracted from itself stays as it is |
| `RangeMask.RangeMask.Contains` | libdevcore/RangeMask.h:124-129 | membership |
| `RangeMask.RangeMask.Next` | libdevcore/RangeMask.h:190-200 | the least larger number or the end of the ground range, exactly unless the argument is the greatest 32-bit number and the mask is not empty, when it is the least number of the mask |
| `RangeMask.RangeMask.Size` | libdevcore/RangeMask.h:202-208 | the number of elements of the set |
| `RangeMask.RangeMask.Full` | libdevcore/RangeMask.h:133-137 | whether the whole ground range is in the set |
| `RangeMask.RangeMask.FirstOut` | libdevcore/RangeMask.h:210-214 | the first number of the ground range outside the set, or its end |
| `RangeMask.RangeMask.LastIn` | libdevcore/RangeMask.h:216-220 | the greatest element |
| `RangeMask.RangeMask.Lowest` | libdevcore/RangeMask.h:66-72 | the smallest elements, as many as asked for, exactly if nothing wraps around |
| `SocketRing.RoomIsSafe` | libdevcore/microprofile.cpp:4287-4300 | the room computed from a possibly stale read index never reaches an unsent byte |
| `SocketRing.RoomExactly` | libdevcore/microprofile.cpp:4287-4300 | the room is all there is, up to one byte in front of the first unsent one or to the end of the buffer, and none exactly if the ring is full |
| `SocketRing.StretchExactly` | libdevcore/microprofile.cpp:4250-4261 | the stretch is all bytes queued, or those up to the end of the buffer |
| `SocketRing.FirstPlan` | libdevcore/microprofile.cpp:4287-4301 | on an empty ring the queueing thread takes the offer and plans all of it, up to 10239 bytes |
| `SocketRing.StretchIsQueued` | libdevcore/microprofile.cpp:4250-4261 | the stretch to send holds queued bytes only, and is empty exactly when nothing is queued |
| `SocketRing.Ring.constructor` | libdevcore/microprofile.cpp:391-398 | an empty ring |
| `SocketRing.Ring.LoadGet` | libdevcore/microprofile.cpp:4287-4290 | the step that loads the read index, exactly |
| `SocketRing.Ring.LoadPut` | libdevcore/microprofile.cpp:4287-4301 | the step that plans the amount, exactly |
| `SocketRing.Ring.CopyByte` | libdevcore/microprofile.cpp:4303 | the step that copies one byte, exactly |
| `SocketRing.Ring.StorePut` | libdevcore/microprofile.cpp:4304-4306 | the step that publishes what was copied, exactly |
| `SocketRing.Ring.QueueStep` | libdevcore/microprofile.cpp:4280-4311 | any step of the queueing thread is the step of the state machine |
| `SocketRing.Ring.SendStep` | libdevcore/microprofile.cpp:4242-4278 | any step of the sending thread is the step of the state machine |
| `SocketRing.CopyKeeps` | libdevcore/microprofile.cpp:4303 | copying a byte overwrites none that is not sent yet |
| `SocketRing.NextKeeps` | libdevcore/microprofile.cpp:4242-4311 | every step of either thread, on whatever indices it loaded before, keeps the invariant and takes exactly the bytes offered |
| `SocketRing.RunKeeps` | libdevcore/microprofile.cpp:4242-4311 | and so does every interleaving |
| `SocketRing.SentIsPrefix` | libdevcore/microprofile.cpp:4242-4311 | in every interleaving the bytes on the wire are the first of the bytes taken, in their order, none lost or doubled |
| `SocketRing.QuietIsDelivered` | libdevcore/microprofile.cpp:4242-4311 | when both threads are idle and the indices meet, all bytes taken are on the wire |
| `SocketRing.Progress` | libdevcore/microprofile.cpp:4242-4311 | in every state that an interleaving reaches, unless all is quiet, a step of one thread brings fewer bytes to copy, publish or send, or fewer steps up to one |
| `SocketRing.Delivers` | libdevcore/microprofile.cpp:4242-4311 | after every interleaving there are further steps, without a new offer, after which all is quiet and exactly the bytes taken are on the wire |
| `SocketRing.Interleave` | libdevcore/microprofile.cpp:4242-4311 | playing any interleaving on the ring ends in the state the steps make, with these two properties |
| `RingIndex.SlotIsRemainder` | libdevcore/microprofile.cpp:1525 | the position on the ring is the remainder that the program computes |
| `RingIndex.Position` | libdevcore/microprofile.cpp:1525 | computing that remainder gives the position |
| `LogRing.DistanceIs` | libdevcore/microprofile.cpp:1527 | the 32-bit difference modulo the ring size is the distance on the ring |
| `LogRing.DistanceIsFree` | libdevcore/microprofile.cpp:1525-1527 | the distance is the number of free slots |
| `LogRing.LogRing.Put` | libdevcore/microprofile.cpp:1521-1536 | logs exactly when the room kept back for leaves is not touched |
| `LogRing.LogRing.Enter` | libdevcore/microprofile.cpp:1538-1559 | enters exactly when both its entries and all leaves to come have room |
| `LogRing.LogRing.Leave` | libdevcore/microprofile.cpp:1560-1573 | a matched leave never finds the ring full and always logs |
| `LogRing.LogRing.Advance` | libdevcore/microprofile.cpp:1521-1573 | a consumer that moves on keeps the invariant and every index read before |
| `LogRing.LeaveLogs` | libdevcore/microprofile.cpp:1560-1573 | after any run that meets the program's assertions, a leave is logged, as the last entry |
| `LogRing.RoomThroughout` | libdevcore/microprofile.cpp:1521-1573 | at every point of every run of puts, enters, leaves and consumer advances that meets the program's assertions, more slots are free than scopes are open |
| `LogRing.FirstEntries` | libdevcore/microprofile.cpp:1521-1536 | an empty ring logs 2097150 entries in a row |
| `LogRing.FullRefuses` | libdevcore/microprofile.cpp:1521-1536 | and refuses the next |
| `LogRing.Run` | libdevcore/microprofile.cpp:1521-1573 | playing any such run on the ring ends with the entries and open scopes that the calls make, and with that room |
| `HashBase.Whole` | libdevcore/LevelDB.cpp:295-321 | one pass writes key and value of every pair but the skipped one, in key order, those of the last pair last |
| `HashBase.StreamOneMore` | libdevcore/LevelDB.cpp:304-316 | one pair more at the end writes its key and then its value behind everything else, or nothing if its key is "pieceUsageBytes" |
| `HashBase.KeysInLetters` | libdevcore/LevelDB.cpp:310-354 | the two special keys are the letters of "start" and "pieceUsageBytes" |
| `HashBase.Part` | libdevcore/LevelDB.cpp:347-379 | a call writes the stretch from its start key on and returns the key to go on with, or the end |
| `HashBase.PartIsFull` | libdevcore/LevelDB.cpp:354-379 | a part ends right behind the last pair it may write, not counting the skipped key, or at the end of the database |
| `HashBase.InParts` | libdevcore/LevelDB.cpp:347-379 | parts of any positive size end, and together write what one pass writes |
| `HashBase.AbsentKeyIsEnough` | libdevcore/LevelDB.cpp:354-357 | a database without the key "start" always qualifies |
| `HashBase.EndsExactly` | libdevcore/LevelDB.cpp:354-379 | hashing in parts ends exactly when no part begins at the key "start" |
| `HashBase.StartExample` | libdevcore/LevelDB.cpp:354-379 | two pairs on which it never ends |
| `LruCache.CacheIsRecent` | libdevcore/LruCache.h:21-53 | after any run of inserts and touches the list is the first `capacity` distinct keys of the reversed trace of effective uses |
| `LruCache.ValuesAreCreated` | libdevcore/LruCache.h:21-34 | each value is the one of the insert that last found its key missing |
| `LruCache.LruCache.constructor` | libdevcore/LruCache.h:19 | an empty cache |
| `LruCache.LruCache.Insert` | libdevcore/LruCache.h:21-34 | a present key only moves to the front; a new one evicts the last when the cache is full; list and index agree |
| `LruCache.LruCache.Touch` | libdevcore/LruCache.h:46-53 | moves a present key to the front and tells whether there was one |
| `LruCache.LruCache.Remove` | libdevcore/LruCache.h:36-44 | takes the key out of list and index |
| `LruCache.LruCache.Contains` | libdevcore/LruCache.h:55 | membership in the list |
| `LruCache.Play` | libdevcore/LruCache.h:21-53 | the cache object after any trace is the one the reference gives |

## Left out

- Keccak, SHA-256 and all other cryptography: hashes are injective functions, and a hash context is the bytes written to it.
- LevelDB itself, locks, file-system errors, logging and retries: a database is a map or a sorted sequence, and each of its operations is atomic.
- Reference counts wrap at 32 bits in the program and are unbounded here; the auxiliary maps of the node stores, `FatGenericTrieDB` and `HashedGenericTrieDB` are not modelled.
- TrieDb.Trie.Insert: requires a non-empty value, as an empty one cannot be told from absence by any lookup.
- TrieDb.Trie.Open: requires that the whole trie is on disk, as it is for every root committed before. A second trie on nodes that are only in memory shares their counts with the first, so its updates may kill nodes of the other; a lost node makes the program throw at the first access to it.
- TrieHash.Rlp256: requires non-empty values, like insertion.
- TrieHash.Hash256: requires non-empty values, like insertion.
- TrieNode.Delete: counts isolating a value that is the hash of some pair as a fault even if that pair is not stored, because the outcome then depends on what else the store holds.
- TrieDb.Trie.Remove: requires a key that is safe to remove; what the program does otherwise is undefined.
- RlpStream.Write: requires that the buffer with all headers stays below the size limit of the reader, which memory guarantees.
- RlpReader.CachedList.At: for exactly sized lists that can be scanned; on others the program may throw at any access.
- RotatingDb.RotatingDb.constructor: requires three files or more, and so do the methods of the class; with two, recovery may fall back to the old current file (`Rotation.NewChosenExactly`), and one is not supported by the program.
- Batch kills through `ManuallyRotatingLevelDB::commit`, which reach the current piece only; insert-only batches are insertions. The key that marks the current piece is not a key of users.
- RotationLog.ArchiveKeeps: says that a pair is kept, not which of several values an archive lookup finds; the program looks at the oldest archive first.
- SocketRing.Interleave: one connection that does not fail; after a failure the program sends nothing more.
- LogRing.LogRing.Leave: requires a matched enter and at most 1200 open scopes, as the program asserts.
- LogRing.Run: over runs in which every leave meets these assertions.
- LruCache.CacheIsRecent: for inserts and touches; after a removal fewer keys than the capacity are kept, and older ones do not come back.
- LruCache.LruCache.constructor: yields a usable cache only for a capacity above zero; with none the program would evict from an empty list.
- RangeMask.RangeMask.constructor: yields a valid mask only for a ground range that does not end before it begins, which the operations require.
- The rest of the repository (consensus, block chain, RPC, EVM and the profiler's user interface) is not modelled.
