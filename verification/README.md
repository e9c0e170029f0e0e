# OP.MagicTrie: a verified model

This project models three parts of OP.MagicTrie, a C++ library, in Dafny and proves what they promise.

**The persistent radix trie** (`impl/op/trie`). Nodes live in an address space and are changed in place through their
addresses; a header counts keys, nodes and versions. A node is a table from a first byte to an entry with a stem, an
optional value and an optional child. Iterators are objects with a spelled prefix and a stack of positions, and outlive
changes of the trie by comparing the version that each position recorded with the version of its node.

- `TrieModel`, `TriePath`, `TrieOrder`, `TrieVersions`, `TrieSync`, `TrieSearch`: the stored form, the abstract map that
  it stands for, paths, lexicographic order, what versions tell an old iterator, which iterators can always be brought
  back, and what a comparison along a path decides.
- `TrieChange`, `TrieMoves`, `TrieInsert`, `TrieErase`, `TrieSubtree`: what each step of an operation does to all this.
- `TrieIteration`, `TrieStore`: the two classes. Every operation of these classes is proved against the abstract map.
- `NodeSteps` is the interface between the layers: what each node operation asks for and does to the entries and the
  version of a node. `TrieStore` takes these steps on the nodes it addresses, where they can be taken; `TrieNodes` proves
  that a node in memory, with its two presence sets and its growing table, does exactly them; `HashTables` proves that
  the bounded-probe table is a map over any run of inserts and erases; `Presences`, `Bitsets` and `Bits` prove the
  presence sets, bit by bit, on the words that hold them.
- `TrieLosses`, `TrieCounterexamples`: a method that loses an iterator whose flags are not sound, and concrete states in
  which an operation does not do what its caller expects.

**The span container** (`impl/op/common/SpanContainer.h`). A tree of hulls over a list of spans: `Zones`, `SpanTree`,
`SpanList`, `SpanListing`, `SpanRepair` and the classes in `SpanContainers`. Queries answer exactly what a scan of the
list would, after any history of insertions and erasures.

**Protocols and lazy sequences**. `AppendAtomicLists` and `Minibatches` are state machines over single atomic steps of
any number of threads, with theorems about every interleaving. `HierarchyTraversals`, `OrderingFlatMappings`, `Diffs` and
`OrderedJoins` are sequence classes, each with a `Remaining` or `Left` that says what it still yields.

`dafny verify dfyconfig.toml` checks the whole project.

## What turned out false, and exactly when

- **Insertion at the end of a stem.** If a key ends exactly where the stem of an entry without a value ends, `insert`
  asks for a byte behind the stem (`impl/op/trie/Trie.h:1223-1229`, `impl/op/trie/TrieNode.h:390-392`), the call that
  takes the rest of the stem throws (`impl/op/common/Utils.h:338-348`) and the transaction is rolled back.
  `TrieStore.Trie.Insert` says that it throws if and only if `StopsAtStemEnd` holds, a test on the trie before the call;
  `TrieCounterexamples.EndOfStem` is an instance.
- **The child flag after an insertion below a leaf.** That branch (`impl/op/trie/Trie.h:1321-1332`) does not raise the
  child flag of the position above the new one, unlike the branch for a split. If the lower node changes later, the
  search that would bring the iterator back cannot start, and `sync_iterator` gives up a key that is stored.
  `TrieStore.Trie.Insert` says when: the iterator is never given up while its key is stored if and only if the key did
  not extend a leaf, which its caller can tell from the stored keys. Behind this are `TrieSync.SoundIsFindable`, over any
  run of changes, and `TrieSync.FlagsDecide`, for both directions; `TrieLosses.LoseIterator` loses any such iterator by
  inserting and erasing one key beside its path. `TrieStore.Trie.SyncIterator` has the exact condition at any single
  moment, and `TrieCounterexamples.KeyIsLost` is an instance.
- **`next_sibling`.** The table in its comment (`impl/op/trie/Trie.h:195-202`) sends "abc" to "abc.1". The code goes to
  the least key that does not continue "abc"; this is what is proved, and `TrieCounterexamples.SiblingOfAbc` says that
  there is none among the keys of the table.
- **`end()` of the append-only list.** An iterator that differs from `end()` may be on a link that is not stored yet.
  `AppendAtomicLists.DereferenceIsSafe` says exactly when it is stored, and `EndIsNotEnough` is an instance.
- **`CyclicBuffer::emplace`.** The write counter moves before the element is stored (`impl/op/flur/Minibatch.h:42`), so
  that a consumer may read a slot too early. In `Minibatches` the two are separate steps. `LookIsRight` says exactly when
  a read is right, `TakenInOrder` exactly when all that was taken is, and `LookIsSafe` when a consumer need not worry:
  with two elements in the ring, or with no job unfinished. `CounterBeforeElement` is a run that goes wrong.
- **Growing a table.** The comment at `impl/op/trie/HashTable.h:293` says that a copy into twice the slots always succeeds.
  `HashTables.HashTable.GrowFrom` says exactly when it does not, and `HashTables.DoublingCanFail` is an instance. The node
  then tries the next capacity: `TrieNodes.TrieNode.GrowTable` says at which it ends.
- **The counting difference after an empty first pass.** The counts are taken over at the first element of the first
  generation (`impl/op/flur/Diff.h:103-109`). If that pass had none, later ones drop nothing: `Diffs.DistinctSequence.Start`
  states the difference for every generation but these, and the plain source for these; `Diffs.EmptyFirstPass` is an
  instance.

## Model

| member | source | states |
|---|---|---|
| `TrieStore.Trie.Insert` | impl/op/trie/Trie.h:1287-1351 | the whole of `insert`: it throws exactly for a key that ends where the stem of an entry without a value ends, and then nothing has changed; otherwise a stored or empty key changes nothing, and a new key is added with its value while every other pair stays; the returned iterator spells the key with every recorded version current, and it has sound flags, and is never given up while its key is stored, exactly if the key did not extend a leaf; of the nodes there were, only the one in which the comparison stops is changed, one node is made exactly if the key needs one below the entry where it stops, and old iterators survive it |
| `TrieStore.Trie.Erase` | impl/op/trie/Trie.h:836-847 | removes exactly the key under the iterator, if the iterator can be brought back into step, and reports it; the result is on the least remaining key above the erased one, or at the end; as long as the node of the key keeps other entries, no other node changes |
| `TrieStore.Trie.PrefixedEraseAll` | impl/op/trie/Trie.h:862-920 | with the prefix itself: removes exactly the stored keys that start with the iterator's key, and returns how many they were; the result is a usable iterator on the least remaining key above them, or at the end, with sound flags if the iterator had them; with an iterator that cannot be brought back nothing changes, and that iterator is the result |
| `TrieStore.Trie.Update` | impl/op/trie/Trie.h:756-766 | overwrites the value of exactly the key under the iterator; the trie version stands still and yet old iterators stay sound; the iterator it was done through has recorded the new version of the node, the positions above it are as they were unless the search had to find them again, and with sound flags it is never given up while its key is stored |
| `TrieStore.Trie.Iterate` | impl/op/trie/Trie.h:145-181 | iteration from `begin` to the end yields every stored key once, in strictly ascending order, and nothing else |
| `TrieStore.Trie.Begin` | impl/op/trie/Trie.h:145-162 | the iterator on the least stored key, or the end exactly if nothing is stored; every recorded version is current, and while the key stays stored no later change makes the iterator useless |
| `TrieStore.Trie.Next` | impl/op/trie/Trie.h:174-181 | from an iterator of any age whose key can be found again: to the least stored key above its own |
| `TrieStore.Trie.NextSibling` | impl/op/trie/Trie.h:204-232 | from an iterator whose key can be found again: to the least stored key above the current one that does not continue it |
| `TrieStore.Trie.Find` | impl/op/trie/Trie.h:376-385 | on the key exactly if it is stored, and at the end otherwise; every recorded version is current, and while the key stays stored no later change makes the iterator useless |
| `TrieStore.Trie.CheckExists` | impl/op/trie/Trie.h:439-448 | true exactly for the stored keys |
| `TrieStore.Trie.CheckPrefixExists` | impl/op/trie/Trie.h:451-460 | for a non-empty string: true exactly if some stored key starts with it |
| `TrieStore.Trie.SyncIterator` | impl/op/trie/Trie.h:1572-1615 | succeeds exactly if the key is still stored and the search for it can start where the version check stopped, so with sound flags exactly if the key is still stored; it is then on the same key, with every recorded version current unless the trie version had not moved |
| `TrieStore.Trie.Mismatch` | impl/op/trie/Trie.h:1118-1208 | walks in place what `Walk` says, spells what it consumed, and stops with the outcome that `Compared` ties to the entry it stopped at |
| `TrieStore.Trie.CompareEntry` | impl/op/trie/Trie.h:1134-1198 | one round of `mismatch`: first byte, flags, version and as much of the stem as matches |
| `TrieStore.Trie.MatchStem` | impl/op/trie/Trie.h:1166-1184 | the longest common prefix of stem and string, and why it ends there |
| `TrieStore.Trie.LowerBoundExact` | impl/op/trie/Trie.h:1486-1504 | `lower_bound_impl` as an exact search: true exactly if the key is stored, and then on it |
| `TrieStore.Trie.CommonPrefix` | impl/op/trie/Trie.h:1449-1460 | the comparison from the root, or `unequals` for an empty string |
| `TrieStore.Trie.NavigationMode` | impl/op/trie/Trie.h:1401-1422 | a bare position for the root or the child of the last entry, exactly if the flag says there is one |
| `TrieStore.Trie.Advance` | impl/op/trie/Trie.h:1667-1706 | `_next`: the least stored key above the current one, with or without the keys that continue it; keeps flags sound |
| `TrieStore.Trie.ClimbRight` | impl/op/trie/Trie.h:1684-1705 | right or up until something greater is found, or the end when everything has been passed |
| `TrieStore.Trie.TurnRight` | impl/op/trie/Trie.h:1685-1693 | the next entry of the same node, and nothing stored in between; or the last entry was the rightmost |
| `TrieStore.Trie.GoRight` | impl/op/trie/Trie.h:1685-1701 | the same, down to the first stored key |
| `TrieStore.Trie.EnterDeepUntilTerminal` | impl/op/trie/Trie.h:1716-1727 | ends, because no node below the root is empty, on the least stored key below the node |
| `TrieStore.Trie.EnterUnlessTerminal` | impl/op/trie/Trie.h:1694-1700 | the current entry if it has a value, else the first stored key below it |
| `TrieStore.Trie.LoadIterator` | impl/op/trie/Trie.h:1626-1665 | appends or replaces one position together with exactly its bytes in the prefix |
| `TrieStore.Trie.CheckVersions` | impl/op/trie/Trie.h:1582-1613 | the number of positions whose recorded version is current, and the length of what they spell |
| `TrieStore.Trie.CutStale` | impl/op/trie/Trie.h:1596-1603 | cutting prefix and stack leaves a path to the node where the check stopped |
| `TrieStore.Trie.Relocate` | impl/op/trie/Trie.h:1590-1609 | finds the rest of the key again from there, exactly if it is stored and the flag lets the search start |
| `TrieStore.Trie.InsertImpl` | impl/op/trie/Trie.h:1287-1351 | all outcomes of the comparison lead to the same result: the pair is added and the iterator is on it |
| `TrieStore.Trie.InsertAt` | impl/op/trie/Trie.h:1304-1350 | the four ways to add an entry, each by its own steps on the nodes |
| `TrieStore.Trie.InsertNoEntry` | impl/op/trie/Trie.h:1304-1307 | a new entry in the node that was reached |
| `TrieStore.Trie.InsertOnEntry` | impl/op/trie/Trie.h:1234-1240 | a value on an inner entry that had none |
| `TrieStore.Trie.InsertInStem` | impl/op/trie/Trie.h:1223-1240 | a split inside a stem, then the value on its front part; or the exception when nothing is left to split |
| `TrieStore.Trie.InsertStemEnd` | impl/op/trie/Trie.h:1321-1332 | a new child below a leaf |
| `TrieStore.Trie.InsertUnequals` | impl/op/trie/Trie.h:1333-1347 | a split where the stem differs, then the rest of the key beside what was cut off |
| `TrieStore.Trie.SplitEntry` | impl/op/trie/Trie.h:1226-1228 | allocates a node and moves the end of a stem into it, or throws exactly at the stem's end; `TrieInsert.SplitAtStop` says that the stored map is unchanged |
| `TrieStore.Trie.MoveFromEntry` | impl/op/trie/TrieNode.h:377-427 | the two nodes after the move, as `MovedOut` and `MovedIn` say |
| `TrieStore.Trie.UnconditionalInsert` | impl/op/trie/Trie.h:1086-1114 | the entry, the position, and the header counters |
| `TrieStore.Trie.AllocateNode` | impl/op/trie/Trie.h:1037-1050 | a new empty node at an address that was free, and the counter |
| `TrieStore.Trie.RemoveNode` | impl/op/trie/Trie.h:1052-1061 | the node is gone, and the counter follows |
| `TrieStore.Trie.EraseUpwards` | impl/op/trie/Trie.h:1359-1387 | the climb of `erase_impl`: the key is gone, no empty node is left but the root, and what is left sits where it was |
| `TrieStore.Trie.EraseRound` | impl/op/trie/Trie.h:1363-1380 | one node of the climb: the reference to a freed child goes, then the entry if nothing holds it |
| `TrieStore.Trie.EraseImpl` | impl/op/trie/Trie.h:1353-1396 | takes the successor before it erases, and the successor's path survives the erase |
| `TrieStore.Trie.EraseAll` | impl/op/trie/TrieNode.h:170-201 | the number of values in the node and its children by ascending byte, the same step that the node in memory takes |
| `TrieStore.Trie.WipeSubtree` | impl/op/trie/Trie.h:885-893 | frees every node below an entry, each once, and counts exactly the keys they held |
| `TrieStore.Trie.CutBelow` | impl/op/trie/Trie.h:878-895 | the keys that properly continue the entry's string are gone and counted; the entry itself stays |
| `TrieStore.Trie.constructor` | impl/op/trie/Trie.h:86-104 | a trie that stores nothing |
| `TrieStore.Trie.OnKeyCanSync` | impl/op/trie/Trie.h:1572-1577 | any iterator on a stored key can be brought back into step |
| `TrieModel.LookupIffStored` | impl/op/trie/Trie.h:1118-1208 | walking down from the root finds exactly the pairs that the entries spell |
| `TrieModel.FindDescends` | impl/op/trie/Trie.h:1199-1204 | searching from the root is searching the rest of the string from any node on its way |
| `TrieModel.SlotIsFound` | impl/op/trie/Trie.h:1138-1146 | every entry is found under the string it spells, so no two entries spell the same |
| `TrieChange.AddEntry` | impl/op/trie/TrieNode.h:87-119 | a new entry adds exactly one pair to the stored map |
| `TrieChange.PutValue` | impl/op/trie/TrieNode.h:302-307 | a value on an entry that had none adds exactly one pair |
| `TrieChange.DropValue` | impl/op/trie/TrieNode.h:138-144 | erasing the value of an entry with a child removes exactly one pair |
| `TrieChange.DropEntry` | impl/op/trie/TrieNode.h:139-144 | erasing an entry without a child removes exactly one pair |
| `TrieChange.AddChild` | impl/op/trie/TrieNode.h:232-242 | hanging an empty node below an entry changes no pair |
| `TrieChange.DropChild` | impl/op/trie/TrieNode.h:245-257 | taking an empty node away changes no pair |
| `TrieChange.Split` | impl/op/trie/TrieNode.h:345-427 | splitting a stem changes no pair |
| `TrieOrder.TraversalIsExact` | impl/op/trie/Trie.h:145-181 | starting at the least key and always taking the least key above visits every stored key once, in strictly increasing order |
| `TrieOrder.RightIsLeast` | impl/op/trie/Trie.h:1684-1701 | turning right skips nothing: what is found is the least key above |
| `TrieOrder.DownIsLeast` | impl/op/trie/Trie.h:1672-1683 | going down first finds the least key above |
| `TrieOrder.PassedUp` | impl/op/trie/Trie.h:1702-1705 | when the rightmost entry of a node is passed, so is everything below its parent entry |
| `TrieOrder.ChildIsDeeper` | impl/op/trie/Trie.h:1716-1727 | a child spells a longer string, so a descent ends |
| `Lex.LessTotal` | impl/op/trie/TrieIterator.h:109-118 | the order on keys is total |
| `Lex.LessTransitive` | impl/op/trie/TrieIterator.h:109-118 | and transitive |
| `Lex.LessByNextByte` | impl/op/trie/TrieIterator.h:109-118 | two strings that part after a common prefix are ordered by the next byte |
| `TrieVersions.TrackableSurvives` | impl/op/trie/Trie.h:1580-1613 | whatever one change does to the trie, and whatever addresses are reused with version 0, an iterator that could be brought back still can |
| `TrieVersions.TrackableOverRun` | impl/op/trie/Trie.h:1572-1615 | the same over any run of changes |
| `TrieVersions.AllVersionsMatch` | impl/op/trie/Trie.h:1582-1614 | if after a run every position still carries the version of its node, the stack is still a path and spells the same stored key |
| `TrieVersions.EvolvesTransitive` | impl/op/trie/Trie.h:1572-1615 | changes compose |
| `TrieVersions.KeptByOperation` | impl/op/trie/TrieNode.h:118-118 | a change that bumps every node it touches is one that iterators survive |
| `TrieVersions.CutLeads` | impl/op/trie/Trie.h:1596-1603 | where the check stops, the positions before it still lead to a node on the key's way |
| `TrieVersions.FirstStaleIs` | impl/op/trie/Trie.h:1582-1592 | the first version that differs is where the path stops being exact |
| `TrieVersions.CurrentIsFound` | impl/op/trie/Trie.h:1582-1592 | over a path with current versions the check runs to its end: such an iterator needs no search |
| `TrieSync.SoundRelocates` | impl/op/trie/Trie.h:1590-1609 | with sound flags the search can start wherever the version check stops |
| `TrieSync.SoundIsFindable` | impl/op/trie/Trie.h:1572-1615 | an iterator with sound flags is brought back, after any run of changes, exactly if its key is still stored |
| `TrieSync.SoundIsKept` | impl/op/trie/Trie.h:1572-1615 | with sound flags, whatever versions it has recorded, an iterator is never given up while its key is stored |
| `TrieSync.FlagsDecide` | impl/op/trie/Trie.h:1572-1615 | a current iterator is never given up while its key is stored if and only if its flags are sound |
| `TrieSync.StopsAtMoved` | impl/op/trie/Trie.h:1582-1592 | when of all nodes only that of one position has changed, the version check stops at that position |
| `TrieLosses.LoseIterator` | impl/op/trie/Trie.h:1572-1615 | for any wrong flag on any current iterator: after adding and erasing one key beside its path, or erasing and putting back one, `sync_iterator` gives the iterator up, although exactly the same pairs are stored |
| `TrieLosses.Lost` | impl/op/trie/Trie.h:1582-1609 | an iterator whose node below a wrong flag has changed can not be brought back |
| `TrieLosses.Toggle` | impl/op/trie/Trie.h:1287-1351 | adding or erasing the key that a node spells with one more byte changes that node and no other |
| `TrieLosses.WalkComesTo` | impl/op/trie/Trie.h:1118-1208 | the comparison with a string that runs through a node's string comes to that node |
| `TrieLosses.BetweenToggles` | impl/op/trie/Trie.h:1582-1609 | a current path to a node leads to it still when only that node has changed |
| `TriePath.FrontCurrent` | impl/op/trie/Trie.h:1117-1351 | a change of the node that a path leads to, or of new nodes, leaves the versions recorded on the path current |
| `TrieSearch.WalkCompares` | impl/op/trie/Trie.h:1118-1208 | the comparison spells what it consumes, and what it reports is what the entry it stopped at decides |
| `TrieMoves.WalkCurrent` | impl/op/trie/Trie.h:1134-1208 | the comparison records the current version of every node it passes |
| `TrieSearch.ComparedDecides` | impl/op/trie/Trie.h:439-460 | from its outcome: whether the string is stored, and whether some stored key starts with it |
| `TrieSearch.ComparedStops` | impl/op/trie/Trie.h:1185-1193 | when it stops at the end of a non-empty stem without a value |
| `TrieSearch.ComparedExtends` | impl/op/trie/Trie.h:1187-1188 | it stops behind a stem without a child exactly for strings that extend a leaf |
| `TrieSearch.StopsMeansAbsent` | impl/op/trie/Trie.h:1223-1229 | the keys that `insert` throws for are not stored |
| `TrieCounterexamples.EndOfStem` | impl/op/trie/Trie.h:1223-1229 | after inserting "abcd" and "abcx", "abc" is not stored, and yet a key for which `insert` throws |
| `TrieCounterexamples.ForkedByInserting` | impl/op/trie/Trie.h:1333-1346 | what these two insertions make of an empty trie, step by step |
| `TrieCounterexamples.KeyIsLost` | impl/op/trie/Trie.h:1321-1332 | after inserting "a", "ab" and "ac", the iterator returned for "ab" is given up although "ab" is stored |
| `TrieCounterexamples.GrownByInserting` | impl/op/trie/Trie.h:1321-1332 | what these insertions make of an empty trie, and the iterator that the second returns |
| `TrieCounterexamples.SiblingOfAbc` | impl/op/trie/Trie.h:186-202 | for the keys in the comment no key is a next sibling of "abc" |
| `TrieErase.AfterErase` | impl/op/trie/Trie.h:1353-1396 | the successor's path is still a path to a stored key, and it is the least key above the erased one in what is left |
| `TrieErase.ErasingClimbs` | impl/op/trie/Trie.h:1359-1387 | one round of the climb keeps the shape, takes nothing but what is empty, and bumps what it touches |
| `TrieErase.ChildSurvives` | impl/op/trie/Trie.h:1372-1380 | an entry on the way to another stored key keeps its child |
| `TrieSubtree.CutContents` | impl/op/trie/Trie.h:878-893 | cutting off a subtree removes exactly the keys that properly continue the entry's string |
| `TrieSubtree.WipeEnds` | impl/op/trie/Trie.h:885-893 | the stack of nodes to free reaches every node of the subtree |
| `TrieSubtree.NothingBelow` | impl/op/trie/Trie.h:870-876 | an entry without a child has no key below it |
| `TrieSubtree.ErasedNode` | impl/op/trie/TrieNode.h:170-201 | what `erase_all` counts and lists of a node are the keys that the node held and its children, each once |
| `TrieIteration.TrieIterator.Emplace` | impl/op/trie/TrieIterator.h:187-199 | one more position and exactly its bytes |
| `TrieIteration.TrieIterator.UpdateBack` | impl/op/trie/TrieIterator.h:201-214 | the last position and its bytes exchanged for another |
| `TrieIteration.TrieIterator.UpdateStem` | impl/op/trie/TrieIterator.h:176-183 | the stem of the last position, once |
| `TrieIteration.TrieIterator.Pop` | impl/op/trie/TrieIterator.h:237-242 | the last position goes with its bytes |
| `NodeSteps.KeyFrom` | impl/op/trie/TrieNode.h:451-483 | the least key at or after a byte, or none |
| `TrieNodes.TrieNode.Insert` | impl/op/trie/TrieNode.h:87-119 | after growing as often as needed and no more: the node with exactly one entry more, and a greater version |
| `TrieNodes.TrieNode.InsertEntry` | impl/op/trie/TrieNode.h:90-117 | ends with the entry in the table and all other entries preserved; grows only if the key has no room, and then to the first larger capacity into which all keys fit and the new one after them |
| `TrieNodes.TrieNode.GrowTable` | impl/op/trie/TrieNode.h:542-561 | ends with the same entries in the first larger table into which all of them fit, at the latest with 256 cells |
| `TrieNodes.TrieNode.GrowTo` | impl/op/trie/TrieNode.h:550-559 | one try: fails exactly if the keys, copied in ascending order, do not all fit into this capacity, and then nothing has changed |
| `TrieNodes.TrieNode.Grow` | impl/op/trie/TrieNode.h:542-563 | and bumps the version |
| `TrieNodes.TrieNode.Erase` | impl/op/trie/TrieNode.h:125-161 | the step that the trie counts on, and whether the node is empty now |
| `TrieNodes.TrieNode.EraseData` | impl/op/trie/TrieNode.h:131-145 | the value goes, and the entry with it exactly if it has no child |
| `TrieNodes.TrieNode.EraseAll` | impl/op/trie/TrieNode.h:170-201 | both presence sets end empty; the values counted and the children listed are those of the step that the trie counts on |
| `TrieNodes.TrieNode.SetChild` | impl/op/trie/TrieNode.h:232-242 | the step, and the coupling of presence sets and table kept |
| `TrieNodes.TrieNode.RemoveChild` | impl/op/trie/TrieNode.h:245-257 | the entry goes exactly if it has no value; the coupling is kept |
| `TrieNodes.TrieNode.SetValue` | impl/op/trie/TrieNode.h:302-319 | the step, and the coupling kept |
| `TrieNodes.TrieNode.MoveTo` | impl/op/trie/TrieNode.h:365-427 | both nodes after a stem was cut: what the trie counts on |
| `TrieNodes.TrieNode.TableInsert` | impl/op/trie/TrieNode.h:95-115 | takes the key exactly if it has room: always in an empty table and in one of 256 cells |
| `TrieNodes.CapacityByFit` | impl/op/trie/TrieNode.h:90-117 | growing until the keys fit, and again until the new key has room as well, comes to the first capacity with room for all |
| `TrieNodes.TrieNode.PresenceFirstSet` | impl/op/trie/TrieNode.h:451-460 | the least key of the table |
| `TrieNodes.TrieNode.PresenceNextSet` | impl/op/trie/TrieNode.h:474-483 | the next key of the table |
| `TrieNodes.TrieNode.EraseEntries` | impl/op/trie/TrieNode.h:177-199 | the loop of `erase_all` on the two bit sets: it ends with both empty, having counted every value and listed every child once |
| `TrieNodes.TrieNode.WithoutChild` | impl/op/trie/TrieNode.h:248-257 | which entry and which bits go with an entry that loses its child |
| `Presences.LesserIsNext` | impl/op/trie/TrieNode.h:474-483 | the lesser of the next bits of the two sets is the next key |
| `Presences.Presence.FirstSet` | impl/op/trie/TrieNode.h:451-460 | the least byte with a child or a value, found in the words of both sets |
| `Presences.Presence.NextSet` | impl/op/trie/TrieNode.h:474-483 | the next byte with a child or a value, found in the words of both sets |
| `Presences.Presence.Get` | impl/op/trie/TrieNode.h:447-450 | whether a byte has a child or a value |
| `TrieNodes.CoupledWith` | impl/op/trie/TrieNode.h:447-450 | writing an entry with the bits that go with it keeps sets and table coupled |
| `TrieNodes.CoupledWithout` | impl/op/trie/TrieNode.h:139-149 | and so does taking it out |
| `TrieNodes.ClearStep` | impl/op/trie/TrieNode.h:177-199 | clearing, counting and listing one byte keeps account of all, and does not change what comes next |
| `TrieNodes.AntiHashTable.GrowFrom` | impl/op/trie/AntiHashTable.h:118-140 | copies every present entry, and cannot fail |
| `TrieNodes.AntiHashTable.Insert` | impl/op/trie/AntiHashTable.h:57-66 | the map gains the key |
| `TrieNodes.AntiHashTable.Erase` | impl/op/trie/AntiHashTable.h:108-116 | the map loses the key |
| `TrieNodes.AntiHashTable.Get` | impl/op/trie/AntiHashTable.h:89-106 | the entry exactly of a present key |
| `TrieNodes.GrowSize` | impl/op/trie/HashTable.h:46-57 | the least larger capacity of a hash table, or 256 |
| `HashTables.HashTable.Insert` | impl/op/trie/HashTable.h:305-335 | adds a new key, in the first free slot of the neighborhood of its hash; refuses exactly if the whole neighborhood is taken by other keys; finds a key that is there; a key that differs from all others modulo the capacity is always added, at its hash |
| `HashTables.HashTable.FindSlot` | impl/op/trie/HashTable.h:337-358 | finds exactly the keys of the map, at their places |
| `HashTables.HashTable.Get` | impl/op/trie/HashTable.h:241-262 | the value of exactly the keys of the map |
| `HashTables.HashTable.Erase` | impl/op/trie/HashTable.h:191-214 | removes exactly the key, and says whether it was there |
| `HashTables.HashTable.RestoreOnErase` | impl/op/trie/HashTable.h:365-394 | ends, and removes exactly the key at the erased slot: all others stay reachable from their hashes |
| `HashTables.HashTable.ShiftBack` | impl/op/trie/HashTable.h:383-390 | one shift moves the hole on and brings a key nearer to its hash |
| `HashTables.HashTable.GrowFrom` | impl/op/trie/HashTable.h:269-301 | copies the pairs in ascending order of their keys; gives up exactly if one of them finds its neighborhood full when all lesser ones have been copied, and else the maps are equal |
| `HashTables.HashTable.TryInsert` | impl/op/trie/HashTable.h:191-214 | adds a new key exactly if its neighborhood is not full, as in an empty table |
| `HashTables.HashTable.PlaceAt` | impl/op/trie/HashTable.h:314-327 | a new pair in the first free slot of its neighborhood, and nothing else moved |
| `HashTables.HashSpreads` | impl/op/trie/HashTable.h:66-71 | the odd multiplier keeps apart what the capacity keeps apart: two keys have the same hash exactly if they are equal modulo the capacity |
| `HashTables.HomeIsFree` | impl/op/trie/HashTable.h:305-335 | in any valid table a key that differs from all others modulo the capacity finds the slot of its hash free |
| `HashTables.ApartFit` | impl/op/trie/HashTable.h:269-301 | keys that are pairwise different modulo the capacity always fit into a new table |
| `HashTables.AlikeFits` | impl/op/trie/HashTable.h:25-45 | keys that are equal modulo the capacity fit into a new table exactly up to 2, 3, 3, 4 and 2 of them for 8, 16, 32, 64 and 128 slots |
| `HashTables.DoublingCanFail` | impl/op/trie/HashTable.h:293-298 | three keys that fit into 64 slots and not into 128 |
| `HashTables.LessPosIsCyclic` | impl/op/trie/HashTable.h:396-414 | the comparison is the cyclic order below half the table, for all positions |
| `HashTables.ShiftTest` | impl/op/trie/HashTable.h:378-383 | the hole is always the greater of the two positions it compares, and the test says exactly whether the hole would cut the key off |
| `HashTables.ShiftedBack` | impl/op/trie/HashTable.h:385-387 | a shift keeps every other key reachable |
| `HashTables.ShiftedNearer` | impl/op/trie/HashTable.h:385-389 | and lowers the total distance of the keys from their hashes |
| `HashTables.SettledBeyond` | impl/op/trie/HashTable.h:376-377 | behind an empty slot no key needs the hole |
| `HashTables.HoleEmptied` | impl/op/trie/HashTable.h:392-392 | when no neighbor needs the hole, it can be emptied |
| `HashTables.NotFurther` | impl/op/trie/HashTable.h:343-357 | a search that stops at an empty slot or after the neighborhood has missed nothing |
| `HashTables.Placed` | impl/op/trie/HashTable.h:314-327 | a new pair in the first empty slot of its neighborhood keeps all keys reachable |
| `Bitsets.Bitset.NextSet` | impl/op/common/Bitset.h:412-426 | the least element above an index, across all words |
| `Bitsets.Bitset.NextSetOrThis` | impl/op/common/Bitset.h:429-442 | the least element from an index on |
| `Bitsets.Bitset.PrevSet` | impl/op/common/Bitset.h:445-458 | the greatest element below an index |
| `Bitsets.Bitset.FirstSet` | impl/op/common/Bitset.h:394-404 | the least element |
| `Bitsets.Bitset.LastSet` | impl/op/common/Bitset.h:549-560 | the greatest element |
| `Bitsets.Bitset.Elements` | impl/op/common/Bitset.h:271-294 | iteration lists exactly the elements, in ascending order |
| `Bitsets.Bitset.SetBit` | impl/op/common/Bitset.h:490-494 | adds exactly one element |
| `Bitsets.Bitset.Clear` | impl/op/common/Bitset.h:497-501 | removes exactly one element |
| `Bitsets.MaskedBits` | impl/op/common/Bitset.h:414-418 | which bits the masks of the queries leave, at all 64 by 64 positions |
| `Bits.Ctz64IsLowest` | impl/op/common/Bitset.h:71-77 | the multiply-and-look-up trick finds the lowest bit of every word |
| `Bits.Ctz32From` | impl/op/common/Bitset.h:61-69 | the same for 32 bits |
| `Bits.Log64IsHighest` | impl/op/common/Bitset.h:35-41 | the smear-and-look-up trick finds the highest bit of every word |
| `Bits.Log32From` | impl/op/common/Bitset.h:23-33 | the same for 32 bits |
| `Bits.LowTableIsRight` | impl/op/common/Bitset.h:63-68 | the table inverts the de Bruijn product |
| `Bits.HighTableIsRight` | impl/op/common/Bitset.h:14-18 | and so does the other one |
| `SpanContainers.SpanContainer.Emplace` | impl/op/common/SpanContainer.h:343-349 | adds exactly one element, whatever the tree looks like, at the front of the list or right behind the last of a run of equal spans, and the others keep their order; the runs still partition the list and every node records exactly the hull of what is below it |
| `SpanContainers.SpanContainer.AddIndex` | impl/op/common/SpanContainer.h:542-618 | finds a place and ends, with all nodes on the way widened by exactly the new span, and the element where it was put in the list, or behind a run of equal spans |
| `SpanContainers.OthersKeepOrder` | impl/op/common/SpanContainer.h:455-461 | taking the new element out of the list gives the list there was |
| `SpanContainers.SpanContainer.Intersecting` | impl/op/common/SpanContainer.h:364-368 | yields exactly the elements whose span overlaps the boundary, each once; none for an empty boundary |
| `SpanContainers.SpanContainer.Erase` | impl/op/common/SpanContainer.h:381-417 | removes exactly the element at the iterator and returns 1, 0 for the end; the order of the others stays |
| `SpanContainers.SpanContainer.EraseAt` | impl/op/common/SpanContainer.h:392-411 | the run is shortened at the right end, or goes with its terminal |
| `SpanContainers.SpanContainer.OptimizeUp` | impl/op/common/SpanContainer.h:485-509 | drops the nodes that became empty, up to but not including the root, and every hull on the path is exact again |
| `SpanContainers.SpanContainer.PutLeaf` | impl/op/common/SpanContainer.h:581-605 | a terminal in a free slot; later slots shift right |
| `SpanContainers.SpanContainer.PutNode` | impl/op/common/SpanContainer.h:569-580 | a new node between a node and one of its slots |
| `SpanContainers.SpanContainer.AppendDataRef` | impl/op/common/SpanContainer.h:455-461 | the element moves right behind the last of an equal run |
| `SpanContainers.SpanContainer.UniteSlots` | impl/op/common/SpanContainer.h:497-503 | the hull from scratch |
| `SpanContainers.SpanContainer.InRun` | impl/op/common/SpanContainer.h:396-414 | whether an element belongs to the run of a terminal |
| `SpanContainers.IntersectionTracker.Next` | impl/op/common/SpanContainer.h:296-321 | goes to the next overlapping terminal and ends; nothing is skipped or met twice |
| `SpanContainers.IntersectionTracker.LookAtSlot` | impl/op/common/SpanContainer.h:300-317 | one slot: passed, entered or arrived at, with what is left to list unchanged but for the terminal |
| `SpanContainers.IntersectionTracker.Advance` | impl/op/common/SpanContainer.h:267-280 | takes exactly the current element off what is left; the exception exactly at the end |
| `SpanContainers.IntersectionTracker.constructor` | impl/op/common/SpanContainer.h:189-198 | what is left is the whole answer |
| `SpanListing.ListingIsExact` | impl/op/common/SpanContainer.h:189-327 | entering only nodes whose hull overlaps lists exactly the overlapping terminals, each once |
| `SpanListing.ListedUp` | impl/op/common/SpanContainer.h:323-327 | pruning loses nothing: every hull above an overlapping span overlaps |
| `SpanListing.ListingOnce` | impl/op/common/SpanContainer.h:296-321 | no terminal is met on two ways |
| `SpanTree.AddLeaf` | impl/op/common/SpanContainer.h:581-585 | shape and exact hulls after a shift right |
| `SpanTree.SplitSlot` | impl/op/common/SpanContainer.h:569-580 | shape and exact hulls after a split |
| `SpanTree.WidenChild` | impl/op/common/SpanContainer.h:557-563 | widening a child makes its parent's hull exact again |
| `SpanTree.DropLeaf` | impl/op/common/SpanContainer.h:472-482 | shape after a terminal is taken out; only hulls on the path may be loose |
| `SpanTree.DropSub` | impl/op/common/SpanContainer.h:487-493 | the same for an empty node |
| `SpanTree.Tighten` | impl/op/common/SpanContainer.h:495-508 | recomputing a hull makes it exact without touching others |
| `SpanRepair.EraseEmpty` | impl/op/common/SpanContainer.h:487-493 | one empty node less, and the path still leads down |
| `SpanRepair.TightenTop` | impl/op/common/SpanContainer.h:495-508 | one loose hull less |
| `SpanList.RunExtended` | impl/op/common/SpanContainer.h:455-461 | runs still partition the list after an element joined one |
| `SpanList.NewRun` | impl/op/common/SpanContainer.h:549-553 | and after a new one-element run at the front |
| `SpanList.RunShortened` | impl/op/common/SpanContainer.h:400-409 | and after an element left its run |
| `SpanList.RunGone` | impl/op/common/SpanContainer.h:401-404 | and after a run ended |
| `SpanList.RunsAreExact` | impl/op/common/SpanContainer.h:396-414 | the runs of some terminals list exactly their elements, each once |
| `Zones.OverlapIsShared` | impl/op/common/Range.h:50-55 | two non-empty ranges overlap exactly if they share a position |
| `Zones.HullInsert` | impl/op/common/Range.h:110-120 | the hull of several ranges does not depend on where one is inserted |
| `Zones.HullWiden` | impl/op/common/Range.h:110-120 | widening one range widens the hull by the same |
| `Zones.HullIsLeast` | impl/op/common/Range.h:110-120 | the hull is the least cover |
| `AppendAtomicLists.RunKeepsInv` | impl/op/common/AppendAtomicList.h:197-212 | every interleaving of any threads keeps the list sound |
| `AppendAtomicLists.TraversalReadsPrefix` | impl/op/common/AppendAtomicList.h:98-109 | what a traversal has read is a prefix of the order of the tail swaps, then and ever after |
| `AppendAtomicLists.MissingLinkIsOwed` | impl/op/common/AppendAtomicList.h:203-210 | a link is missing exactly while one thread, and no other, is between its exchange and its store |
| `AppendAtomicLists.QuiescentListIsOrder` | impl/op/common/AppendAtomicList.h:153-161 | once all appends are done, the links from the head are all nodes in swap order, and `end()` is behind the last |
| `AppendAtomicLists.NothingIsLost` | impl/op/common/AppendAtomicList.h:197-212 | and every node ever appended is there, once |
| `AppendAtomicLists.OrderGrows` | impl/op/common/AppendAtomicList.h:203-208 | the order only grows, at its end |
| `AppendAtomicLists.AppendEnds` | impl/op/common/AppendAtomicList.h:197-212 | in any run in which none of its exchanges fails spuriously and no other node joins, an append ends with its second or third step from there and not earlier, and the order has gained exactly its node |
| `AppendAtomicLists.AppendAlone` | impl/op/common/AppendAtomicList.h:197-212 | from every reachable state an append that is under way can end by its own steps alone |
| `AppendAtomicLists.OwnStepAdvances` | impl/op/common/AppendAtomicList.h:203-208 | each undisturbed step of its own is one step nearer to the end: a failed exchange has read the current `_last` |
| `AppendAtomicLists.FailuresArePaid` | impl/op/common/AppendAtomicList.h:203-208 | in every run, each exchange of a thread that fails and not spuriously is paid for by a node that has joined since the thread last read `_last`: lock freedom |
| `AppendAtomicLists.FailsOnlyIfOvertaken` | impl/op/common/AppendAtomicList.h:203-208 | an exchange that is not spurious fails only if the order has grown since the thread last read `_last` |
| `AppendAtomicLists.ReadAdvances` | impl/op/common/AppendAtomicList.h:98-109 | a traversal that is not at a missing link goes on by exactly one node |
| `AppendAtomicLists.TraversalEnds` | impl/op/common/AppendAtomicList.h:153-161 | once no append is under way, a traversal reads the whole list in as many steps as there are nodes, and ends at `end()` |
| `AppendAtomicLists.DereferenceIsSafe` | impl/op/common/AppendAtomicList.h:105-109 | an iterator that is not `end()` can be dereferenced exactly if no thread owes the link it is on |
| `AppendAtomicLists.EndIsNotEnough` | impl/op/common/AppendAtomicList.h:158-161 | a reachable state where it cannot |
| `AppendAtomicLists.StepKeepsInv` | impl/op/common/AppendAtomicList.h:197-212 | what every single step keeps |
| `Minibatches.NeverOverflows` | impl/op/flur/Minibatch.h:38-46 | in every interleaving, what is in the ring and what is ordered together never exceed N, the element being stored counted once; so `emplace` never throws |
| `Minibatches.TakenInOrder` | impl/op/flur/Minibatch.h:165-176 | what has been taken, place by place, in every interleaving: the source's element, or, where the consumer looked before it was stored, the one a turn before; so it is the beginning of the source if and only if these are equal at every early place |
| `Minibatches.LookIsRight` | impl/op/flur/Minibatch.h:48-53 | what `current` reads is the element if and only if it has been stored, or the slot held an equal one before; it has not been stored exactly if the counters are one apart in the middle of `emplace` |
| `Minibatches.LookIsSafe` | impl/op/flur/Minibatch.h:48-53 | `current` is right when the counters are two apart, and when no job is unfinished, as after an `in_range` that waited |
| `Minibatches.EarlyMeansPending` | impl/op/flur/Minibatch.h:38-62 | a place is read early exactly in the middle of `emplace`, and is recorded so when the consumer goes on |
| `Minibatches.RunKeepsInv` | impl/op/flur/Minibatch.h:134-214 | every interleaving of the halves of `emplace`, the jobs and the consumer keeps counters, credits, ring and what was taken in step |
| `Minibatches.AnswerIsExact` | impl/op/flur/Minibatch.h:150-187 | `in_range` is true exactly while something is left to take; on an empty ring `next` takes nothing, and throws exactly if everything has been taken |
| `Minibatches.StepKeepsInv` | impl/op/flur/Minibatch.h:134-214 | credits are conserved by every step while the source has more |
| `Minibatches.WaitEnds` | impl/op/flur/Minibatch.h:156-160 | a waiting consumer does not wait forever |
| `Minibatches.UsefulHelps` | impl/op/flur/Minibatch.h:134-214 | in every reachable state some step brings the consumer nearer to its next element |
| `Minibatches.AllCanBeTaken` | impl/op/flur/Minibatch.h:134-214 | nothing gets stuck: unless `next` has thrown, every reachable state leads on to one in which the whole source has been taken |
| `Minibatches.CounterBeforeElement` | impl/op/flur/Minibatch.h:38-43 | a run of the machine in which the second element taken is the blank of a slot that was never written |
| `Minibatches.SlotsDiffer` | impl/op/flur/Minibatch.h:42-42 | within one turn no two counters share a slot |
| `HierarchyTraversals.BreadthFirstSequence.Start` | impl/op/flur/HierarchyTraversal.h:159-169 | from then on exactly level 1, then level 2, and so on, below the roots |
| `HierarchyTraversals.BreadthFirstSequence.Next` | impl/op/flur/HierarchyTraversal.h:185-212 | takes exactly the current element off, and in range exactly while something is left |
| `HierarchyTraversals.QueueListsLevels` | impl/op/flur/HierarchyTraversal.h:185-212 | a queue that puts children at its end lists whole levels |
| `HierarchyTraversals.DeepFirstSequence.Start` | impl/op/flur/HierarchyTraversal.h:56-65 | from then on the preorder of what is below each root |
| `HierarchyTraversals.DeepFirstSequence.Next` | impl/op/flur/HierarchyTraversal.h:78-85 | takes exactly the current element off, and in range exactly while something is left |
| `HierarchyTraversals.DeepFirstSequence.StepOut` | impl/op/flur/HierarchyTraversal.h:114-131 | leaves exactly the lists that are used up, and the root with the last of them |
| `HierarchyTraversals.PassTop` | impl/op/flur/HierarchyTraversal.h:90-109 | the stack yields the current tree, its children, and then what it has suspended |
| `OrderingFlatMappings.OrderingFlatMapping.All` | impl/op/flur/OrderingFlatMapping.h:38-75 | the sorted merge of all children with multiplicities, or the exception for an unordered child |
| `OrderingFlatMappings.OrderingFlatMapping.Start` | impl/op/flur/OrderingFlatMapping.h:38-56 | nothing is lost, and the index is a heap with its least entry set aside |
| `OrderingFlatMappings.OrderingFlatMapping.Next` | impl/op/flur/OrderingFlatMapping.h:68-75 | takes exactly the current element away |
| `OrderingFlatMappings.OrderingFlatMapping.Current` | impl/op/flur/OrderingFlatMapping.h:58-61 | a least element of all that is left |
| `OrderingFlatMappings.LeastOfAll` | impl/op/flur/OrderingFlatMapping.h:134-142 | the least current element is the least of all elements |
| `OrderingFlatMappings.OrderingFlatMapping.PopHeap` | impl/op/flur/OrderingFlatMapping.h:164-171 | the least entry goes to the end and the rest is a heap |
| `OrderingFlatMappings.OrderingFlatMapping.PushHeap` | impl/op/flur/OrderingFlatMapping.h:145-155 | the last entry joins the heap |
| `Diffs.DroppedIsDifference` | impl/op/flur/Diff.h:33-60 | what is left of each value is the difference of its multiplicities |
| `Diffs.DistinctSequence.Start` | impl/op/flur/Distinct.h:116-122 | from then on the source without the first copies that the subtrahend has, in every generation and under both policies; the one exception is stated exactly |
| `Diffs.EmptyFirstPass` | impl/op/flur/Diff.h:101-117 | an empty first pass and then a pass over [1] with subtrahend [1]: nothing is dropped |
| `Diffs.DistinctSequence.Next` | impl/op/flur/Distinct.h:134-140 | takes exactly the current element off what is left |
| `Diffs.DistinctSequence.Seek` | impl/op/flur/Distinct.h:145-152 | skips exactly the elements to be dropped |
| `Diffs.OrderedOrderedPolicy.Keep` | impl/op/flur/Diff.h:33-60 | keeps an element exactly if the sorted subtrahend has no copy left for it |
| `Diffs.OrderedOrderedPolicy.CatchUp` | impl/op/flur/Diff.h:67-85 | to the first value not below the current element, step by step or with `lower_bound`, and loses nothing that can still matter |
| `Diffs.UnorderedDiffPolicy.Keep` | impl/op/flur/Diff.h:101-115 | keeps an element exactly if no copy is left in this generation |
| `Diffs.UnorderedDiffPolicy.Deduct` | impl/op/flur/Diff.h:125-138 | one copy less, exactly while some are left in this generation |
| `Diffs.UnorderedDiffPolicy.NewGeneration` | impl/op/flur/SequenceState.h:29-34 | every copy counts again, wherever the last generation was abandoned |
| `Diffs.UnorderedDiffPolicy.Drain` | impl/op/flur/Diff.h:155-170 | the multiplicities of the subtrahend |
| `OrderedJoins.OrderedJoin.Start` | impl/op/flur/OrderedJoin.h:55-66 | from then on exactly the left elements whose key is on the right, in order, left duplicates kept |
| `OrderedJoins.OrderedJoin.Next` | impl/op/flur/OrderedJoin.h:80-90 | takes exactly the current element off, and in range exactly while something is left |
| `OrderedJoins.OrderedJoin.Seek` | impl/op/flur/OrderedJoin.h:134-162 | skips nothing that could be joined |
| `OrderedJoins.OrderedJoin.OptNext` | impl/op/flur/OrderedJoin.h:105-123 | stepping and `lower_bound` go to the same place |
| `OrderedJoins.RightSkips` | impl/op/flur/OrderedJoin.h:158-159 | what the right side skips matters to no left element to come |
| `OrderedJoins.LeftSkips` | impl/op/flur/OrderedJoin.h:145-149 | what the left side skips has no partner |
| `Common.LowerBoundKeeps` | impl/op/flur/OrderedJoin.h:134-162 | `lower_bound` skips nothing that is not below the key |
| `OrderedJoins.JoinedCounts` | impl/op/flur/OrderedJoin.h:134-162 | each left element as often as it occurs on the left, if it occurs on the right at all |

## Left out

- TrieStore.Trie.LowerBoundExact: only the exact match is stated; where an inexact search leaves the iterator is not modelled, because `lower_bound` steps on from partly matched stems in ways that do not yield the first key not below the string.
- TrieStore.Trie.PrefixedEraseAll: where the entry has a child, lines 905-918 write a trie version, a node version and a flag into the iterator they return; the version and the flag belong to another node. They are left out there: the result stated is the iterator as `erase_impl` returned it. Where the entry has no child these lines are not run, and nothing is left out.
- TrieStore.Trie.Next: says nothing about where an iterator is left whose key was erased; the code leaves it at the outcome of an inexact search.
- TrieStore.Trie.NextSibling: the same.
- TrieStore.Trie.SyncIterator: says nothing about where a failed search leaves the iterator, nor about the key that the code can fall back to there; both are outcomes of an inexact search.
- TrieStore.Trie.Relocate: the same.
- NodeSteps.Inserted: leaves open by how much the version of a node grows, because growing the table bumps it too.
- Minibatches.NeverOverflows: holds for one `start` of the sequence; starting it again is not modelled.
- SpanContainers.SpanContainer.Emplace: asks for a span that is not empty. `unite_zones` passes over empty ranges, so that no hull need cover them, and `is_overlapping` can hold for one; what a query finds of them depends on where they were put.
- SpanContainers.SpanContainer.AddIndex: the same.
- `erase_prefix = false` in `prefixed_erase_all`, `prefixed_key_erase_all`, `prefixed_insert`, `upsert`, `first_child`, `last_child`, and the ranges and joins built on prefixed lower bounds.
- The wrap-around of 32-bit node versions and the 16-bit limit on stem lengths: both are unbounded numbers here.
- Segment managers, transactions, heap and string memory, and file mapping: operations are atomic, stems are sequences, and no claim is made about freeing what stems or tables occupied. Undoing a transaction is modelled as restoring the fields it wrote.
- Values are opaque; serialisation is not modelled. In a node's entry a destroyed value is an absent one.
- The preallocated caches, move semantics and the payload of map entries in the span container.
- `remove` and `clear` of the append-only list while others append, and C++ memory orders: steps are sequentially consistent.
- The order in which the thread pool runs jobs, beyond that each waits for the one before it.
- `lower_bound` of a right sequence in `OrderedJoin` is the first element not below the key; the mode that stops at the first of equal left elements is not modelled.
- `std::push_heap` and `std::pop_heap` are modelled by the usual sifting in a binary heap; keys and sequence elements are integers.
- `MergeSortUnion`, the older hash table in `Containers.h`, `count_bits` and `first_clear` of the bit set, and everything in the library that is input, output, types or plain mapping and filtering.
