# Verified core of the system design curriculum

This project models the components of the repository that carry the hardest guarantees, and proves those
guarantees for every input, every run or every reachable state. Each component has two parts: a
specification on values, about which the theorems are proved, and a class (or several) that changes its
fields in place as the original does and is proved to refine that specification.

| component | files | main results |
|---|---|---|
| B-tree | `BTreeSpec.dfy`, `BTree.dfy` | shape, order and membership after any inserts; logarithmic search; when a duplicate is stored again |
| Skip list | `SkipListSpec.dfy`, `SkipList.dfy` | every level exact; a map whose answers do not depend on the random levels |
| Vector clocks | `VectorClock.dfy` | comparison decides happened-before exactly |
| Open addressing hash table | `OpenAddressing.dfy` | a map through tombstones and resizes; occupancy between one and three quarters; unreachable panics; no amortised bound |
| Chaining hash table | `ChainingSpec.dfy`, `BucketHashTable.dfy` | a map; occupancy between one and three quarters; at most five entries copied a call, amortised |
| LFU cache | `LFUSpec.dfy`, `LFURuns.dfy`, `LFU.dfy` | in every run, eviction of the cached key with the fewest uses since entered, then the oldest last use |
| LRU cache | `LRUSpec.dfy`, `LRU.dfy` | inclusion across capacities; in every run, a put caches its pair and evicts exactly the least recently used key |
| Graph search | `GraphDatabase.dfy` | a shortest path, or none exactly when there is none |
| Binary heap | `BinaryHeap.dfy` | linear construction; sorted draining |
| LSM tree and write-ahead log | `StorageRuns.dfy`, `LSMTree.dfy`, `WriteAheadLog.dfy` | flush and compaction invisible; recovery gives the visible map |
| Async read-write lock | `ReadWriteLock.dfy` | exclusion; the exact waiting time, and exactly which requests have one; which repeated releases do harm |
| Trie | `Trie.dfy` | canonical form; prefix queries; listing once each |
| Consistent hashing | `ConsistentHashing.dfy` | the nearest point clockwise; which keys move, and the exact condition for it |
| CRDT counters | `CRDT.dfy` | convergence over an unreliable network |

`Basics.dfy` holds the optional result and the hashing of a key that several of them share.

`dafny verify dfyconfig.toml` checks the whole project.

Where the code and its prose differ the model follows the code:

- 21-B-Tree/main.go:72 says duplicates are ignored. They are only when met in the leaf the descent ends in
  (`DuplicateIgnoredIff`); a key in an internal node is stored again (`DuplicateStoredTwice`), so the
  order across subtrees is weak and the claims about contents are about sets.
- 34-Vector-Clocks/README.md:33 calls [1,0,0] and [1,1,0] concurrent; the code says before
  (`DocumentedPair`).
- 07-Trie/main.go:65 promises a stored word for every accepted prefix; the empty prefix of an empty trie
  is accepted too (`StartsWithExactly`).
- In the lock, a queued reader with no writer right before it or behind it can be overtaken without end
  (`OvertakenForever`), so the waiting time is stated for the other requests, which include all writers.
- The lock does not guard against a release that is called again. `RepeatedReleaseExactly` says which of
  these calls are harmless.
- The open addressing table has no amortised constant bound on copying (`NoAmortisedBound`): cleaning at the
  same capacity repeats near the threshold. The chaining table has one (`RunCost`).

Hash functions, checksums and the comparator of the heap are arbitrary functions; the random level of the
skip list is any number up to the maximum; the iteration order of every map is arbitrary. The load
thresholds, which the original computes in floating point, are exact integer tests. `StrictWeakOrder` is
assumed of the heap's comparator only where the order of the heap is claimed; the permutation and the
swap bounds hold for any comparator.

## Model

| member | source | states |
|---|---|---|
| `BTreeSpec.RunInvariant` | 21-B-Tree/main.go:74-138 | After any sequence of inserts, with duplicates anywhere, all leaves stand at one depth, every non-root node has t-1 to 2t-1 keys and one child more than keys, keys are weakly ordered across subtrees, and the tree holds exactly the inserted keys |
| `BTreeSpec.SearchExact` | 21-B-Tree/main.go:44-68 | On every reachable tree a search succeeds exactly for the inserted keys |
| `BTreeSpec.SearchIffHolds` | 21-B-Tree/main.go:56-68 | One descent decides membership in any ordered tree of uniform depth: a key equal to no separator on the way can be in no other child |
| `BTreeSpec.SearchLogarithmic` | 21-B-Tree/main.go:56-68 | A search visits at most height + 1 nodes, and a tree of height h >= 1 needs at least 2*t^h - 1 keys, so the number of visits is logarithmic in the number of inserts |
| `BTreeSpec.InnerSlots` | 21-B-Tree/main.go:90-138 | A subtree of height h with its minimum occupancy stores at least t^(h+1) - 1 keys |
| `BTreeSpec.RootSlots` | 21-B-Tree/main.go:74-138 | A whole tree of height h >= 1 stores at least 2*t^h - 1 keys |
| `BTreeSpec.InsertKeeps` | 21-B-Tree/main.go:74-84 | One insert keeps the whole invariant, adds exactly its key to the set, and stores at most one key more |
| `BTreeSpec.InsertNonFullHolds` | 21-B-Tree/main.go:90-116 | Insertion below a non-full node adds exactly its key to the key set |
| `BTreeSpec.InsertNonFullOrdered` | 21-B-Tree/main.go:90-116 | It keeps the weak order across subtrees, also for a key equal to a promoted median, which goes left |
| `BTreeSpec.DescentTouchesOne` | 21-B-Tree/main.go:90-116 | Below a node the insertion leaves every child alone but the one right of the last key not above the new key |
| `BTreeSpec.DescentTouchesHalf` | 21-B-Tree/main.go:107-138 | If that child is full its median rises, the left half keeps the first t-1 keys and the right half the last, and only one of them is entered: the left one for a key up to the median, the median itself included |
| `BTreeSpec.InsertNonFullOccupied` | 21-B-Tree/main.go:90-116 | It keeps the occupancy bounds: the node descended into is never full |
| `BTreeSpec.InsertNonFullSlots` | 21-B-Tree/main.go:90-116 | The number of stored keys grows by one unless the key is found in the leaf that the descent ends in |
| `BTreeSpec.SplitUniform` | 21-B-Tree/main.go:121-138 | Splitting a full child keeps all leaves at one depth |
| `BTreeSpec.SplitHolds` | 21-B-Tree/main.go:121-138 | Splitting a full child keeps the key set |
| `BTreeSpec.SplitOrdered` | 21-B-Tree/main.go:121-138 | Splitting a full child keeps the order across subtrees |
| `BTreeSpec.SplitOccupied` | 21-B-Tree/main.go:121-138 | Both halves have the minimum occupancy, and the parent gains one key |
| `BTreeSpec.SplitSlots` | 21-B-Tree/main.go:121-138 | Splitting neither stores nor loses a key |
| `BTreeSpec.DuplicateIgnoredIff` | 21-B-Tree/main.go:70-98 | The documented rule that duplicates are ignored holds for an insert if and only if the key is already in the leaf that the descent ends in |
| `BTreeSpec.DuplicateStoredTwice` | 21-B-Tree/main.go:70-98 | A key in an internal node is stored a second time: for every a < b < c < d, inserting b again after a, b, c, d into a tree of degree 2 stores five keys, in a root b over the leaves a and b, c, d |
| `BTrees.BTree.constructor` | 21-B-Tree/main.go:33-40 | A new tree is the empty run |
| `BTrees.BTree.Search` | 21-B-Tree/main.go:44-50 | Answers true exactly for the keys inserted so far |
| `BTrees.BTree.SearchBTree` | 21-B-Tree/main.go:56-68 | The heap descent agrees with the descent on values |
| `BTrees.BTree.Insert` | 21-B-Tree/main.go:74-84 | The heap tree after the call is the run with one insert more, in separate node objects |
| `BTrees.BTree.GrowRoot` | 21-B-Tree/main.go:77-82 | A full root is split in place under a new root |
| `BTrees.BTree.InsertNonFull` | 21-B-Tree/main.go:90-116 | In-place insertion refines insertion on values |
| `BTrees.BTree.SplitIfFull` | 21-B-Tree/main.go:107-114 | Splits a full child before descending and picks the half to enter |
| `BTrees.BTree.SplitChild` | 21-B-Tree/main.go:121-138 | The in-place split refines the split on values and shares no node between the halves |
| `BTrees.BTree.Halve` | 21-B-Tree/main.go:121-131 | Truncates the full node, copies its upper half to a new sibling and yields the median |
| `SkipListSpec.RunRefinesMap` | 05-Skip-List/main.go:55-132 | For every run and every choice of levels the list is strictly sorted and its contents are the plain map of the calls |
| `SkipListSpec.CoinFlipsInvisible` | 05-Skip-List/main.go:74-142 | Two runs of the same calls that differ only in the random levels answer every search alike |
| `SkipListSpec.WalkMeetsLevel` | 05-Skip-List/main.go:55-70 | Following the pointers of one level meets exactly the nodes tall enough for it |
| `SkipListSpec.LevelsNest` | 05-Skip-List/main.go:74-132 | Each level is strictly sorted, is exactly the nodes tall enough for it, and is a subsequence of the level below |
| `SkipListSpec.LevelIsTop` | 05-Skip-List/main.go:127-129 | The recorded level is the top non-empty level |
| `SkipListSpec.LevelUnique` | 05-Skip-List/main.go:127-129 | No other number than the trimmed level bounds all towers and is reached by one |
| `SkipListSpec.LevelGrows` | 05-Skip-List/main.go:90-95 | A new tower raises the level exactly when it is taller than all others |
| `SkipListSpec.HeightOfRun` | 05-Skip-List/main.go:74-102 | In every run a node stands on exactly as many levels as were drawn for it when its key was entered, however often it is put since |
| `SkipListSpec.InsertIsMapUpdate` | 05-Skip-List/main.go:74-102 | An insert is a map update |
| `SkipListSpec.InsertFind` | 05-Skip-List/main.go:74-102 | An insert changes the answer for its own key only |
| `SkipListSpec.DeleteIsMapRemoval` | 05-Skip-List/main.go:106-132 | A delete is a map removal |
| `SkipListSpec.DeleteFind` | 05-Skip-List/main.go:106-132 | A delete changes the answer for its own key only |
| `SkipListSpec.NextBefore` | 05-Skip-List/main.go:96-100 | After a splice the pointers of earlier nodes go to the new node exactly where it is tall enough and they jumped over its place |
| `SkipListSpec.NextAfter` | 05-Skip-List/main.go:96-100 | After a splice the pointers of later nodes go where they went |
| `SkipLists.SkipList.constructor` | 05-Skip-List/main.go:38-51 | An empty list; a non-positive maximum level becomes 16 |
| `SkipLists.SkipList.Search` | 05-Skip-List/main.go:55-70 | Answers as the plain map of all calls so far |
| `SkipLists.SkipList.Descend` | 05-Skip-List/main.go:74-82 | Finds, level by level, the last node before the key |
| `SkipLists.SkipList.Walk` | 05-Skip-List/main.go:58-62 | On one level, goes to the last node before the key |
| `SkipLists.SkipList.Insert` | 05-Skip-List/main.go:74-102 | The heap list after the call is the run with one put more, for any random level |
| `SkipLists.SkipList.Splice` | 05-Skip-List/main.go:96-100 | Links the new node into each of its levels |
| `SkipLists.SkipList.Delete` | 05-Skip-List/main.go:106-132 | The heap list after the call is the run with one removal more; tells whether the key was there |
| `SkipLists.SkipList.Unlink` | 05-Skip-List/main.go:120-126 | Unlinks a node from each of its levels, stopping at the first level it is not on |
| `SkipLists.SkipList.Trim` | 05-Skip-List/main.go:127-129 | Lowers the level to the top non-empty one |
| `SkipLists.SplicedIsThreaded` | 05-Skip-List/main.go:96-100 | Pointers after a splice are exactly those of the longer list, on every level |
| `SkipLists.UnlinkedIsThreaded` | 05-Skip-List/main.go:120-126 | Pointers after an unlink are exactly those of the shorter list, on every level |
| `VectorClocks.CompareDecidesCausality` | 34-Vector-Clocks/main.go:26-76 | In every execution of local, send and receive steps, comparing two clocks says before, after, equal or concurrent exactly as happened-before does |
| `VectorClocks.CountsRank` | 34-Vector-Clocks/main.go:26-42 | A clock never counts more of a node than its events so far, and counts all of its own |
| `VectorClocks.PrecedesGrows` | 34-Vector-Clocks/main.go:26-42 | A cause comes earlier and its clock is at most the clock of its effect |
| `VectorClocks.CountedIsCause` | 34-Vector-Clocks/main.go:26-42 | An event counted by a clock is that event or one of its causes |
| `VectorClocks.PrecedesTransitive` | 34-Vector-Clocks/main.go:26-42 | Happened-before is transitive |
| `VectorClocks.DocumentedPair` | 34-Vector-Clocks/main.go:48-76 | [1,0,0] compares as before [1,1,0], against the table at line 33 of that directory's README.md |
| `VectorClocks.VectorClock.Tick` | 34-Vector-Clocks/main.go:26-29 | Adds one to the node's own entry and to no other |
| `VectorClocks.VectorClock.Merge` | 34-Vector-Clocks/main.go:34-42 | The loop over the other clock leaves the entrywise maximum |
| `VectorClocks.Merged` | 34-Vector-Clocks/main.go:34-42 | The merge is the least clock above both |
| `VectorClocks.VectorClock.Compare` | 34-Vector-Clocks/main.go:48-76 | The two loops decide the relation of the two clocks |
| `OpenAddressing.OpenAddressingHashTable.Get` | 03-Hash-Table/open-addressing-hash-table.go:163-183 | Answers as the plain map through tombstones |
| `OpenAddressing.OpenAddressingHashTable.Set` | 03-Hash-Table/open-addressing-hash-table.go:187-227 | A map update through tombstone reuse, cleaning and growing; used slots stay within three quarters of the capacity, and the forced grow, the panic and the grow after the insert are proved unreachable; doubles, cleans and copies by the exact thresholds, and without a rebuild writes only the first bucket on the probe path that holds no live entry |
| `OpenAddressing.OpenAddressingHashTable.Delete` | 03-Hash-Table/open-addressing-hash-table.go:231-262 | A map removal that buries the entry and shrinks the table by the rule of `BuriedExactly`; tells whether the key was there |
| `OpenAddressing.OpenAddressingHashTable.FindSlot` | 03-Hash-Table/open-addressing-hash-table.go:117-145 | Finds the key if it is there, otherwise the first free slot of its probe chain, tombstones included |
| `OpenAddressing.OpenAddressingHashTable.InsertRehashedEntry` | 03-Hash-Table/open-addressing-hash-table.go:149-159 | Always finds a nil slot, so its panic is unreachable |
| `OpenAddressing.OpenAddressingHashTable.Resize` | 03-Hash-Table/open-addressing-hash-table.go:266-282 | Keeps the contents and leaves no tombstones |
| `OpenAddressing.OpenAddressingHashTable.Size` | 03-Hash-Table/open-addressing-hash-table.go:78-80 | The number of live keys |
| `OpenAddressing.OpenAddressingHashTable.constructor` | 03-Hash-Table/open-addressing-hash-table.go:49-65 | An empty table; the capacity is raised to the minimum |
| `OpenAddressing.StoreKeepsWf` | 03-Hash-Table/open-addressing-hash-table.go:205-225 | Storing at the first free slot of the chain keeps keys unique and every live key reachable over non-nil slots |
| `OpenAddressing.OverwriteKeepsWf` | 03-Hash-Table/open-addressing-hash-table.go:187-204 | Overwriting a value keeps both |
| `OpenAddressing.BuryKeepsWf` | 03-Hash-Table/open-addressing-hash-table.go:231-262 | A tombstone keeps every other key reachable |
| `OpenAddressing.ProbeMisses` | 03-Hash-Table/open-addressing-hash-table.go:117-145 | A probe that meets nil, or goes all the way round, proves the key absent |
| `OpenAddressing.NoneFree` | 03-Hash-Table/open-addressing-hash-table.go:117-145 | A probe that finds no free slot has seen every slot used |
| `OpenAddressing.PairCopies` | 03-Hash-Table/open-addressing-hash-table.go:195-257 | In a table filled to its load bound, deleting a key and storing a new one cleans the whole table, copies all entries but one, and leaves it full again |
| `OpenAddressing.OccupancyOfRun` | 03-Hash-Table/open-addressing-hash-table.go:81-110 | Between any two calls at most three quarters of the buckets have been used, and at least one quarter hold keys unless the table is no larger than at the start, which for one started at 16 means unless it has 16 buckets |
| `OpenAddressing.StoredExactly` | 03-Hash-Table/open-addressing-hash-table.go:187-227 | A new key doubles the capacity exactly above three quarters of live keys, copies all entries exactly above three quarters of live or used buckets, and then leaves no tombstones |
| `OpenAddressing.BuriedExactly` | 03-Hash-Table/open-addressing-hash-table.go:231-262 | A removal halves the capacity, down to 16 at the least, and copies the rest, exactly if it leaves less than one quarter in a table above 16 |
| `OpenAddressing.AlternationCopies` | 03-Hash-Table/open-addressing-hash-table.go:195-257 | So n such pairs copy n times the size less one, for any hash and any choice of keys |
| `OpenAddressing.NoAmortisedBound` | 03-Hash-Table/open-addressing-hash-table.go:187-282 | There is no amortised constant bound: for any k and m, and any hash, a run of set and delete calls on one table, recorded call by call with the counters after each, copies more than k times the calls plus m times the capacity |
| `OpenAddressing.TraceStep` | 03-Hash-Table/open-addressing-hash-table.go:187-262 | A call whose counters follow from those before by the rule, resize tests included, extends the recorded run |
| `OpenAddressing.OpenAddressingHashTable.MakeRoom` | 03-Hash-Table/open-addressing-hash-table.go:195-203 | Grows, cleans or does nothing by the exact tests, after which one more key keeps the load bound |
| `OpenAddressing.LiveCountIsSize` | 03-Hash-Table/open-addressing-hash-table.go:78-80 | The live slots are as many as the keys of the map |
| `OpenAddressing.CountsAfter` | 03-Hash-Table/open-addressing-hash-table.go:205-262 | How one slot write changes the live and the used counts |
| `LFUSpec.LastIsVictim` | 02-LFU-Cache/main.go:126-132 | While anything is cached, the last item of the least bucket has the least (frequency, last use) of all cached keys |
| `LFUSpec.VictimUnique` | 02-LFU-Cache/main.go:126-132 | There is exactly one such key |
| `LFUSpec.EvictionSpec` | 02-LFU-Cache/main.go:126-132 | Evicting it removes that key from the buckets and the entries, and nothing else |
| `LFUSpec.UseKeeps` | 02-LFU-Cache/main.go:149-165 | A use moves a key up one frequency, to the front of its bucket, and keeps buckets ordered by last use and the least frequency least |
| `LFUSpec.LeastAfterUse` | 02-LFU-Cache/main.go:149-165 | Raising the least frequency by one when its bucket empties is exact |
| `LFUSpec.EnterKeeps` | 02-LFU-Cache/main.go:134-144 | A new key enters with frequency 1, which is then the least |
| `LFUSpec.StoreThenUse` | 02-LFU-Cache/main.go:118-124 | Overwriting a value and then counting the use is one use with the new value |
| `LFUCaches.DoublyLinkedList.AddNode` | 02-LFU-Cache/main.go:47-53 | Links a loose node right after the head |
| `LFUCaches.DoublyLinkedList.Remove` | 02-LFU-Cache/main.go:56-60 | Unlinks exactly one node |
| `LFUCaches.DoublyLinkedList.RemoveLast` | 02-LFU-Cache/main.go:64-71 | Unlinks the node before the tail, or answers null for an empty list |
| `LFUCaches.LFUCache.constructor` | 02-LFU-Cache/main.go:86-95 | An empty cache |
| `LFUCaches.LFUCache.Get` | 02-LFU-Cache/main.go:99-108 | Answers the cached value and counts one use, or -1 without any change; the cache is the run of the rule with one call more |
| `LFUCaches.LFUCache.Put` | 02-LFU-Cache/main.go:112-145 | Overwrites and uses a cached key, or enters a new one after evicting, when full, the key of least frequency and then oldest use; capacity 0 stores nothing; the cache is the run of the rule with one call more |
| `LFUCaches.LFUCache.Update` | 02-LFU-Cache/main.go:149-165 | Moves a node between the lists as one use of its key |
| `LFUCaches.LFUCache.Evict` | 02-LFU-Cache/main.go:126-132 | Removes the rule's victim from its list and from the map |
| `LFUCaches.LFUCache.Enter` | 02-LFU-Cache/main.go:134-144 | Adds a node of frequency 1 to the map and to its list |
| `LFURuns.EntryOfRun` | 02-LFU-Cache/main.go:99-165 | In every run a cached key's frequency is the number of calls that used it since it was entered last, its time is that of its last use, and its value is the one last stored |
| `LFURuns.FrequencyOfRun` | 02-LFU-Cache/main.go:149-165 | The frequency part of this, by induction over the calls |
| `LFURuns.OrderOfRun` | 02-LFU-Cache/main.go:126-132 | The order of eviction is the order by uses since entered, then by last use, as counted over the calls |
| `LFURuns.VictimOfRun` | 02-LFU-Cache/main.go:126-132 | In every run a key is the one to evict if and only if it is cached and every other cached key has more uses since entered, or as many and a later last use |
| `LFURuns.EvictionOfRun` | 02-LFU-Cache/main.go:112-145 | Storing a new key in a full cache removes exactly such a key; in any other cache it removes none |
| `LFURuns.RunFits` | 02-LFU-Cache/main.go:112-145 | No run caches more keys than the capacity |
| `LFURuns.ClockGrows` | 02-LFU-Cache/main.go:99-165 | Calls that used their keys are told apart by time |
| `LFURuns.VictimExists` | 02-LFU-Cache/main.go:126-132 | Unless nothing is cached, the rule names a key |
| `Graphs.GraphDatabase.ShortestPath` | 28-Graph-Database/main.go:68-98 | For every graph and neighbour order: a real edge path no other path beats, or nil exactly when an endpoint is missing or unreachable |
| `Graphs.GraphDatabase.AddNode` | 28-Graph-Database/main.go:34-41 | Sets the properties and changes no neighbours |
| `Graphs.GraphDatabase.AddEdge` | 28-Graph-Database/main.go:47-62 | Adds exactly the edge, and its reverse if undirected, and makes exactly the missing endpoints, with no properties |
| `Graphs.GraphDatabase.Expand` | 28-Graph-Database/main.go:88-94 | Queues one longer path to every neighbour not seen before, and marks them seen |
| `Graphs.ExpandKeeps` | 28-Graph-Database/main.go:79-96 | Expanding the first path keeps the queue shortest-first, complete and within one step of its front |
| `Graphs.NewPath` | 28-Graph-Database/main.go:88-94 | A path to an unseen neighbour is a shortest one |
| `Graphs.NotAtDistance` | 28-Graph-Database/main.go:79-96 | Everything one step further than the front has been seen |
| `Graphs.ClosedReach` | 28-Graph-Database/main.go:78-98 | Once the queue is empty every reachable node has been seen |
| `Graphs.Unreachable` | 28-Graph-Database/main.go:97-97 | A node never expanded when the queue is empty is reached by no path |
| `ChainingSpec.RunCost` | 03-Hash-Table/bucket-hash-table.go:92-208 | Over any run of sets and deletes from any starting capacity c, 4 * entries copied + potential <= 20 * calls + 3 * c, and the table is the plain map of the calls |
| `ChainingSpec.ApplyPays` | 03-Hash-Table/bucket-hash-table.go:106-179 | Every call pays for its own resize out of the potential |
| `ChainingSpec.OccupancyOfRun` | 03-Hash-Table/bucket-hash-table.go:90-101 | Between any two calls the table is at most three quarters full, and at least one quarter unless it is no larger than at the start, which for a start of up to 16 means unless it has 16 buckets |
| `ChainingSpec.PutExactly` | 03-Hash-Table/bucket-hash-table.go:106-132 | A put is a map update that doubles the capacity, copying every entry, exactly if it adds a key and leaves more than the floor of three quarters |
| `ChainingSpec.RemoveExactly` | 03-Hash-Table/bucket-hash-table.go:153-179 | A removal is a map removal that halves the capacity, down to 16 at the least, copying every entry, exactly if it finds its key in a table above 16 and leaves less than the floor of one quarter |
| `ChainingSpec.InsertPays` | 03-Hash-Table/bucket-hash-table.go:92-132 | A grow is paid for by the inserts since the last resize |
| `ChainingSpec.DeletePays` | 03-Hash-Table/bucket-hash-table.go:99-179 | A shrink is paid for by the deletes since the last resize |
| `ChainingSpec.PushKeeps` | 03-Hash-Table/bucket-hash-table.go:106-132 | A new entry at the head of its chain is a map update |
| `ChainingSpec.OverwriteKeeps` | 03-Hash-Table/bucket-hash-table.go:106-132 | A new value in place is a map update |
| `ChainingSpec.RemoveKeeps` | 03-Hash-Table/bucket-hash-table.go:153-179 | An unlinked entry is a map removal |
| `BucketHashTables.BucketHashTable.CopiesAmortized` | 03-Hash-Table/bucket-hash-table.go:184-208 | A table counts at most five copied entries a call, and three quarters of its starting capacity |
| `BucketHashTables.BucketHashTable.constructor` | 03-Hash-Table/bucket-hash-table.go:68-81 | An empty table of at least the minimum capacity |
| `BucketHashTables.BucketHashTable.Get` | 03-Hash-Table/bucket-hash-table.go:136-148 | Answers as the plain map of the calls |
| `BucketHashTables.BucketHashTable.Set` | 03-Hash-Table/bucket-hash-table.go:106-132 | The table after the call is the run with one put more, grown by the rule of `PutExactly` |
| `BucketHashTables.BucketHashTable.Delete` | 03-Hash-Table/bucket-hash-table.go:153-179 | The table after the call is the run with one removal more, shrunk by the rule of `RemoveExactly`; tells whether the key was there |
| `BucketHashTables.BucketHashTable.Walk` | 03-Hash-Table/bucket-hash-table.go:107-117 | Finds the entry of a key and the one before it in its chain |
| `BucketHashTables.BucketHashTable.Unlink` | 03-Hash-Table/bucket-hash-table.go:153-179 | Relinks the chain around one entry, which removes exactly its key |
| `BucketHashTables.BucketHashTable.Resize` | 03-Hash-Table/bucket-hash-table.go:184-208 | Copies every entry once into fresh chains and keeps the contents |
| `BucketHashTables.CutAfter` | 03-Hash-Table/bucket-hash-table.go:160-164 | Relinking around an inner entry leaves all other chains alone |
| `BinaryHeaps.BinaryHeap.constructor` | 06-Min-Heap-Max-Heap/main.go:25-32 | Floyd's loop makes a heap of the same multiset with fewer swaps than values; data and swaps are those of the sinking rule |
| `BinaryHeaps.BinaryHeap.SiftDown` | 06-Min-Heap-Max-Heap/main.go:91-106 | Repairs a heap that is wrong at one place only, in at most as many swaps as that place can sink; makes exactly the swaps of the sinking rule |
| `BinaryHeaps.BinaryHeap.SiftUp` | 06-Min-Heap-Max-Heap/main.go:78-87 | Repairs a heap whose one element is too low, in logarithmically many swaps; makes exactly the swaps of the rising rule |
| `BinaryHeaps.BinaryHeap.Peek` | 06-Min-Heap-Max-Heap/main.go:41-48 | An element that no other one outranks, or none |
| `BinaryHeaps.BinaryHeap.Insert` | 06-Min-Heap-Max-Heap/main.go:51-55 | Adds exactly one element in logarithmically many swaps |
| `BinaryHeaps.BinaryHeap.Extract` | 06-Min-Heap-Max-Heap/main.go:59-74 | Removes exactly one element, which no other one outranks, in logarithmically many swaps |
| `BinaryHeaps.BinaryHeap.Drain` | 06-Min-Heap-Max-Heap/main.go:59-74 | Repeated extraction, as the demo at lines 124-127 does it, yields a priority-sorted permutation |
| `BinaryHeaps.BinaryHeap.Heapify` | 06-Min-Heap-Max-Heap/main.go:28-31 | The loop of the construction sinks every inner element, the last one first, and counts each swap |
| `BinaryHeaps.SunkSwaps` | 06-Min-Heap-Max-Heap/main.go:91-106 | Under any comparator an element sinks at most as often as its place can be doubled |
| `BinaryHeaps.HeapifiedSwaps` | 06-Min-Heap-Max-Heap/main.go:28-31 | Sinking every element before a place makes at most as many swaps as their bounds add up to |
| `BinaryHeaps.FewerSwapsThanElements` | 06-Min-Heap-Max-Heap/main.go:28-31 | Floyd's bound: heapifying makes fewer swaps than there are elements, under any comparator |
| `BinaryHeaps.TopIsHighest` | 06-Min-Heap-Max-Heap/main.go:41-48 | In a heap under a strict weak order nothing outranks the top |
| `BinaryHeaps.TotalBelowSize` | 06-Min-Heap-Max-Heap/main.go:28-31 | The bounds of all sift-downs of the construction add up to less than n |
| `BinaryHeaps.DoublingsIsLog` | 06-Min-Heap-Max-Heap/main.go:78-106 | The swap bound is the integer logarithm |
| `BinaryHeaps.Sunk` | 06-Min-Heap-Max-Heap/main.go:91-106 | Swapping with the better child moves the only wrong place down |
| `BinaryHeaps.Rose` | 06-Min-Heap-Max-Heap/main.go:78-87 | Swapping with the parent moves the only wrong place up |
| `BinaryHeaps.Replaced` | 06-Min-Heap-Max-Heap/main.go:59-74 | Moving the last element to the top leaves a heap wrong at the top only |
| `LSMTrees.NewestIsHighest` | 22-LSM-Tree/main.go:77-91 | Newest-first lookup is highest-sequence lookup |
| `LSMTrees.MergeKeepsNewest` | 22-LSM-Tree/main.go:118-126 | Merging by sequence number keeps for every key what a newest-first search finds |
| `LSMTrees.CompactionInvisible` | 22-LSM-Tree/main.go:115-137 | Compaction with dropped tombstones changes no answer |
| `LSMTrees.FlushInvisible` | 22-LSM-Tree/main.go:96-109 | A flush changes no lookup |
| `LSMTrees.CompactionRising` | 22-LSM-Tree/main.go:115-137 | After compaction sequence numbers still rise from the table to the memtable |
| `LSMTrees.CompactionExact` | 22-LSM-Tree/main.go:115-137 | The compacted table has, for each key, what a newest-first search of the old tables finds, if that is not a tombstone, and nothing else |
| `LSMTrees.WriteKeeps` | 22-LSM-Tree/main.go:48-71 | A write keeps every key's sequence numbers strictly rising from older tables to the memtable |
| `LSMTrees.LSMTree.constructor` | 22-LSM-Tree/main.go:36-42 | An empty tree; a non-positive threshold becomes 4 |
| `LSMTrees.LSMTree.Get` | 22-LSM-Tree/main.go:77-91 | Answers as the plain map of all calls, whatever flushes and compactions lie between |
| `LSMTrees.LSMTree.Put` | 22-LSM-Tree/main.go:48-57 | The memtable with the new entry under the next sequence number, or, exactly when that reaches the threshold, an empty one and that one as the newest table; between calls the memtable stays below the threshold |
| `LSMTrees.LSMTree.Delete` | 22-LSM-Tree/main.go:63-71 | The same with a tombstone as the new entry |
| `LSMTrees.LSMTree.Flush` | 22-LSM-Tree/main.go:96-109 | Moves a non-empty memtable into a newest table of its own and keeps what readers see |
| `LSMTrees.LSMTree.Compact` | 22-LSM-Tree/main.go:115-137 | Leaves one table, the merge without tombstones, the same memtable, and what readers see |
| `LSMTrees.LSMTree.Merge` | 22-LSM-Tree/main.go:118-126 | The nested loops compute the merge by sequence number |
| `StorageRuns.ReplayIsLive` | 23-Write-Ahead-Log/main.go:57-76 | Replaying the records of the puts and deletes gives the map the whole call history gives |
| `StorageRuns.ReplayIsLastRecord` | 23-Write-Ahead-Log/main.go:60-72 | A key is in the replayed map exactly if its last record is a put, and with that record's value; every other operation removes it |
| `WriteAheadLogs.WriteAheadLog.Append` | 23-Write-Ahead-Log/main.go:43-51 | Appends one intact record under the next number |
| `WriteAheadLogs.WriteAheadLog.Recover` | 23-Write-Ahead-Log/main.go:57-76 | Replays the log if and only if every record is intact, as in every log built by appending alone, and otherwise names the first record whose checksum is wrong |
| `CrashRecovery.RecoveredIsVisible` | 23-Write-Ahead-Log/main.go:57-76 | Recovery yields exactly the map visible through an LSM tree fed the same puts and deletes, whatever flushes and compactions are interleaved |
| `ReadWriteLockSpec.RunSafe` | 16-Read-Write-Lock/main.ts:7-45 | Every lawful run excludes a writer beside anyone else, and never leaves a request waiting for a free lock |
| `ReadWriteLockSpec.GrantedExactly` | 16-Read-Write-Lock/main.ts:7-45 | A request with a writer right before it, at it or behind it, so every queued writer, is granted by release number holders + position, and not before |
| `ReadWriteLockSpec.WriterShielded` | 16-Read-Write-Lock/main.ts:18-30 | A queued writer meets that condition |
| `ReadWriteLockSpec.OvertakenForever` | 16-Read-Write-Lock/main.ts:7-45 | Any other queued request, necessarily a reader, can be left waiting through any number of releases |
| `ReadWriteLockSpec.ShieldedAcquire` | 16-Read-Write-Lock/main.ts:8-30 | While the condition holds a new request changes neither holders nor the line in front |
| `ReadWriteLockSpec.ShieldedRelease` | 16-Read-Write-Lock/main.ts:32-45 | While the condition holds a release brings the request closer by exactly one |
| `ReadWriteLocks.ExclusionInCounters` | 16-Read-Write-Lock/main.ts:2-5 | In the lock's own counters: no readers beside a writer, a non-empty queue implies a holder, and waitingWriters is positive exactly when a writer is queued |
| `ReadWriteLocks.AsyncReadWriteLock.constructor` | 16-Read-Write-Lock/main.ts:2-5 | A free lock |
| `ReadWriteLocks.AsyncReadWriteLock.AcquireRead` | 16-Read-Write-Lock/main.ts:7-16 | Enters at once, beside any number of other readers, exactly when no writer holds or waits, and otherwise joins the end of the queue; nothing else changes |
| `ReadWriteLocks.AsyncReadWriteLock.AcquireWrite` | 16-Read-Write-Lock/main.ts:18-30 | Enters at once exactly when the lock is free, and otherwise joins the end of the queue and is counted as waiting; nothing else changes |
| `ReadWriteLocks.AsyncReadWriteLock.ReleaseRead` | 16-Read-Write-Lock/main.ts:32-35 | The holders, the queue and all counters after any call, repeated or not: the first in line enters, and it alone, exactly if the counters leave nobody in the lock; a holder's call is the plain release |
| `ReadWriteLocks.AsyncReadWriteLock.ReleaseWrite` | 16-Read-Write-Lock/main.ts:37-40 | The holders, the queue and all counters after any call, repeated or not: the first in line enters, and it alone, unless the count says that readers hold the lock; a holder's call is the plain release |
| `ReadWriteLocks.AsyncReadWriteLock.Drain` | 16-Read-Write-Lock/main.ts:42-45 | A free lock goes to exactly one queued request |
| `ReadWriteLocks.CalledAgrees` | 16-Read-Write-Lock/main.ts:7-45 | Lawful calls keep the counters equal to what they stand for, so each step of the code is the plain step |
| `ReadWriteLocks.NeverBreaks` | 16-Read-Write-Lock/main.ts:7-45 | From right counters, lawful calls keep every writer alone |
| `ReadWriteLocks.RepeatedReleaseExactly` | 16-Read-Write-Lock/main.ts:32-45 | A release called again can be followed by lawful calls that put a writer beside another holder if and only if it is a reader's or a writer holds the lock; otherwise it changes nothing |
| `ReadWriteLocks.DeficitBreaks` | 16-Read-Write-Lock/main.ts:7-45 | Once the count of readers is one too low, lawful calls alone lead to a writer beside a reader |
| `ReadWriteLocks.ReleasedTwice` | 16-Read-Write-Lock/main.ts:32-45 | One such case, call by call from a free lock: two readers enter, one of them releases twice, and a writer is let in beside the other reader |
| `LRUSpec.Inclusion` | 01-LRU-Cache/main.go:56-110 | On any common trace a smaller cache's recency list is the larger one's with pairs left out, and the same list until the smaller is full |
| `LRUSpec.HitsIncluded` | 01-LRU-Cache/main.go:56-94 | A hit in the smaller cache is the same hit, with the same value, in the larger |
| `LRUSpec.HitsGrow` | 01-LRU-Cache/main.go:56-94 | A larger cache never has fewer hits on a trace |
| `LRUSpec.RecencyOrdered` | 01-LRU-Cache/main.go:56-110 | The list is ordered by last use, so what eviction takes from its front is the least recently used key |
| `LRUSpec.HitIsLastStored` | 01-LRU-Cache/main.go:56-94 | A cached value is the one last stored for its key |
| `LRUSpec.PutOfRun` | 01-LRU-Cache/main.go:72-94 | In every run a put leaves its pair cached and the other values as they were; a new key in a full cache replaces exactly the key whose last use is the oldest, and otherwise none |
| `LRUSpec.GetOfRun` | 01-LRU-Cache/main.go:56-66 | In every run a get changes neither the cached keys nor their values |
| `LRUSpec.FrontLeastRecent` | 01-LRU-Cache/main.go:81-87 | The pair in front of the list is the one whose key has the oldest last use |
| `LRUSpec.RunSound` | 01-LRU-Cache/main.go:56-110 | Keys are distinct and never more than the capacity |
| `LRUCaches.LRUCache.constructor` | 01-LRU-Cache/main.go:37-51 | An empty cache between two sentinels |
| `LRUCaches.LRUCache.Get` | 01-LRU-Cache/main.go:56-66 | Answers the cached value and makes it the most recent, or -1 without any change |
| `LRUCaches.LRUCache.Put` | 01-LRU-Cache/main.go:72-94 | The heap list after the call is the run of the rule with one put more, which `PutOfRun` describes |
| `LRUCaches.CapacityZeroEvictsTail` | 01-LRU-Cache/main.go:81-84 | Exactly at capacity 0 the cache counts as full while its first node is the tail, whose missing successor the unlinking writes through |
| `LRUCaches.LRUCache.AddNode` | 01-LRU-Cache/main.go:98-103 | Links a loose node in front of the tail |
| `LRUCaches.LRUCache.DeleteNode` | 01-LRU-Cache/main.go:107-110 | Unlinks exactly one node |
| `LRUCaches.LRUCache.Evict` | 01-LRU-Cache/main.go:81-87 | Unlinks and forgets the least recent key |
| `LRUCaches.LRUCache.Renew` | 01-LRU-Cache/main.go:63-64 | Moves a listed node in front of the tail |
| `Tries.SameWordsSameShape` | 07-Trie/main.go:40-131 | Two tries with the same stored words have the same nodes, children, flags and values, whatever was inserted and deleted: the structure is the one built from the surviving words |
| `Tries.PathsArePrefixes` | 07-Trie/main.go:40-131 | Besides the root, exactly the prefixes of stored words have nodes, so every node leads to a stored word |
| `Tries.StartsWithExactly` | 07-Trie/main.go:65-71 | The documented meaning of StartsWith fails exactly for the empty prefix of an empty trie |
| `Tries.Trie.constructor` | 07-Trie/main.go:33-36 | A trie without words |
| `Tries.Trie.Insert` | 07-Trie/main.go:40-51 | A map update of the stored words |
| `Tries.Trie.Search` | 07-Trie/main.go:55-63 | The stored value of exactly this word |
| `Tries.Trie.StartsWith` | 07-Trie/main.go:67-71 | True exactly when some stored word extends the prefix, or the prefix is empty |
| `Tries.Trie.Delete` | 07-Trie/main.go:75-83 | A map removal of the stored words; tells whether the word was there |
| `Tries.Trie.DeleteFrom` | 07-Trie/main.go:114-131 | Removes the word and prunes below its node; touches nothing if the word is not stored |
| `Tries.Trie.Cut` | 07-Trie/main.go:127-129 | Deleting a childless unmarked child keeps the tree linked and pruned |
| `Tries.Trie.WordsWithPrefix` | 07-Trie/main.go:87-97 | Lists every stored word that extends the prefix exactly once |
| `Tries.Trie.Collect` | 07-Trie/main.go:134-141 | Appends the words below a node exactly once, for any order of the children |
| `Tries.Trie.FindNode` | 07-Trie/main.go:101-110 | The node at the end of the path, or null exactly when there is none |
| `RingSpec.LeavingMovesOnlyOwn` | 08-Consistent-Hashing/main.go:60-89 | A node's departure leaves every key it did not own where it was, on every ring |
| `RingSpec.JoiningMovesOnlyToNew` | 08-Consistent-Hashing/main.go:46-89 | If no two nodes of the ring share a hash, a new node takes keys to itself only, however the sort breaks ties |
| `RingSpec.JoinThenLeave` | 08-Consistent-Hashing/main.go:46-74 | Under the same condition, adding a new node and removing it restores the very ring, and so every owner |
| `RingSpec.OwnerIsNearest` | 08-Consistent-Hashing/main.go:79-89 | The owner of a hash has a point that no other point comes before, counting from the hash clockwise and round past the largest one |
| `RingSpec.OwnerExactly` | 08-Consistent-Hashing/main.go:79-89 | Without ties no other node has such a point |
| `RingSpec.TieMovesBetweenOld` | 08-Consistent-Hashing/main.go:46-56 | The condition is needed: for any tie between two nodes some outcome of the unstable sort hands the hash they share from one old node to another |
| `RingSpec.SortedUnique` | 08-Consistent-Hashing/main.go:54-54 | Without ties there is only one way to sort |
| `RingSpec.WithoutSorted` | 08-Consistent-Hashing/main.go:60-74 | Dropping points keeps a ring sorted |
| `ConsistentHashing.SameMembersSameRing` | 08-Consistent-Hashing/main.go:46-74 | Without ties the members alone decide the ring, in whatever order they joined and left |
| `ConsistentHashing.ConsistentHashRing.constructor` | 08-Consistent-Hashing/main.go:35-41 | An empty ring; a non-positive replica count becomes 100 |
| `ConsistentHashing.ConsistentHashRing.AddNode` | 08-Consistent-Hashing/main.go:46-56 | The ring after the call is a sorted permutation of the other nodes' points and the node's own, as many as there are replicas |
| `ConsistentHashing.PointsNamed` | 08-Consistent-Hashing/main.go:46-54 | A member has a point for the name of each of its replicas |
| `ConsistentHashing.LabelsDiffer` | 08-Consistent-Hashing/main.go:48-53 | No two replicas, be they of one node or of two, have the same name |
| `ConsistentHashing.DigitsRead` | 08-Consistent-Hashing/main.go:48-53 | The replica number is written in decimal without leading zeros |
| `ConsistentHashing.ConsistentHashRing.RemoveNode` | 08-Consistent-Hashing/main.go:60-74 | The ring after the call is the old one without the node's points, in the same store |
| `ConsistentHashing.Compact` | 08-Consistent-Hashing/main.go:60-70 | The in-place compaction keeps the other nodes' points in order |
| `ConsistentHashing.ConsistentHashRing.GetNode` | 08-Consistent-Hashing/main.go:79-89 | The node of the nearest point clockwise from the key's hash, going round; none for an empty ring |
| `ConsistentHashing.Search` | 08-Consistent-Hashing/main.go:85-85 | The binary search finds the first point at or after the hash |
| `ConsistentHashing.SortPoints` | 08-Consistent-Hashing/main.go:54-54 | Sorts, promising nothing about points with equal hashes |
| `CRDTSpec.ValueIsNetSeen` | 35-CRDT/main.go:27-101 | In every run over a network that delays, reorders and repeats snapshots, a replica's value is the net of exactly the updates it has seen |
| `CRDTSpec.Convergence` | 35-CRDT/main.go:27-101 | Replicas that have seen the same updates agree in every slot and in value |
| `CRDTSpec.RunInv` | 35-CRDT/main.go:27-101 | Every replica and every snapshot in the network holds exactly its seen updates, of each node the earliest ones |
| `CRDTSpec.FaithfulMerged` | 35-CRDT/main.go:39-47 | The entrywise maximum counts the union of what two replicas have seen |
| `CRDTSpec.SlotUnion` | 35-CRDT/main.go:39-47 | Of two counts of one node the larger is the count of everything either has seen |
| `CRDTSpec.MergeLaws` | 35-CRDT/main.go:39-47 | Merging is idempotent, and commutative and associative in every slot and in value |
| `CRDTs.GCounter.Increment` | 35-CRDT/main.go:27-34 | Adds to one slot; a negative amount is refused |
| `CRDTs.GCounter.Merge` | 35-CRDT/main.go:39-47 | The loop leaves the entrywise maximum, also when a counter is merged with itself |
| `CRDTs.GCounter.Value` | 35-CRDT/main.go:51-57 | The sum of all slots, in any order of the loop |
| `CRDTs.PNCounter.Increment` | 35-CRDT/main.go:77-80 | An upward update in one slot |
| `CRDTs.PNCounter.Decrement` | 35-CRDT/main.go:84-87 | A downward update in one slot |
| `CRDTs.PNCounter.Merge` | 35-CRDT/main.go:91-95 | Merges both directions |
| `CRDTs.PNCounter.Value` | 35-CRDT/main.go:99-101 | The ups less the downs |

## Left out

- Output, timing and log lines, and all the demo programs, except the heap's draining loop.
- Integer overflow and memory limits: counters and sizes are unbounded; ring hashes are 32-bit numbers.
- The internals of the FNV-1a hashes, of the log's checksum and of number formatting beyond the decimal digits of a replica.
- A B-tree of minimum degree below 2 and a negative counter increment end the original program: the first is excluded, the second is a refused call.
- LRUCaches.LRUCache.Put: excludes capacity 0, for which 01-LRU-Cache/main.go:81-84 unlinks the tail sentinel and fails on its missing successor (`CapacityZeroEvictsTail`).
- The moment at which a resolved promise's continuation runs: a request counts as granted when the lock resolves its promise.
- The lock's queued closures are the requests they would grant; running one is `Grant`.
- Node objects' key, child, forward and child-map slices are sequence and map fields that the methods reassign, not shared backing arrays; the slots of the open addressing table are values.
- Capacity growth of Go slices: the ring's store doubles, which no claim depends on.
- The sort of the ring is an insertion sort whose contract leaves the order of equal hashes open, as the original's unstable sort does.
- The 1/N share of keys that a ring move affects on average: it depends on the hash.
- Words of the trie that are not valid UTF-8: words are sequences of runes.
- The probabilistic running time of the skip list.
- 40-Consensus and 33-Gossip-Protocol: votes are not cleared for a new term, appends go to every log, and equal versions with different values never reconcile, so the protocol theorems do not hold of them.
- 27-Document-Store and 24-Inverted-Index: adding an id again leaves stale index entries, so index and scan do not agree in general.
- 19-Producer-Consumer and 30-Column-Store in TypeScript: first-in first-out order and column alignment do not hold of them.
- 13 to 18 other than the lock: thin wrappers over Go channels, the sync package or promises.
- 04, 09, 11, 25 and 29: floating point, clocks or trigonometry.
- 10-Circuit-Breaker, 12-ID-Generator, 26-Key-Value-Store and 32-Distributed-Lock: a few guards on a clock over one record or counter, with no structure whose shape a call must keep.
- 20-Connection-Pool, 36-Distributed-Transaction, 37-Two-Phase-Commit and 38-Replication: one counter or one loop over given actions, so that each promise can be read off a single function.
- 31-Leader-Election and 39-Sharding: the largest of a set, and a map split by a hash.
- The TypeScript twins of the Go components.
