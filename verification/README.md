# tsalgo core in Dafny

A model of the algorithmic core of tsalgo, a small C library of data
structures and algorithms, with proofs about it. The model covers:

- **Buffer sorts** (`src/tsalgo/bufsort.c`). A natural merge sort and a
  randomised quicksort over a buffer of fixed-size records. Either sort
  hands back the caller's buffer when it is already in order, and a newly
  allocated sorted copy otherwise.
- **External file sort** (`src/tsalgo/filesort.c`). Sorts a file of
  records: chunks of one buffer are sorted with the quicksort, then merge
  passes over two staging files double the sorted chunk length until the
  whole file is one run. The same record-stream merge also merges two
  sorted files.
- **Doubly linked list** (`src/tsalgo/list.c`). Modelled over an explicit
  memory of nodes, so that the pointer structure itself is checked. The
  test suite's promote and degrade (`test/listrandom.c`) are included.
- **List merge sort** (`src/tsalgo/listsort.c`). Counts runs, splits the
  list into non-descending runs and merges them pairwise. A list with
  many runs is reversed first.
- **AVL tree** (`src/tsalgo/tree.c`):
  - insertion and deletion with the four rotations and their balance
    bookkeeping;
  - find;
  - the height and balance checks;
  - toList;
  - search and filter;
  - destroy;
  - the public wrappers that keep the node count.
- **LRU cache** (`src/tsalgo/lru.c`). An AVL tree indexes the contents
  and a list keeps them most recent first. Entries can be marked
  resident; resident entries rotate to the head instead of being evicted.
- **Chained hash map** (`src/tsalgo/map.c`):
  - init, add, get, remove, delete and update;
  - the iterator;
  - the fourfold resize that add triggers.
- **Key-list parser** (`tools/treei.c`). `getList` turns a string of
  comma-separated keys of one to three digits into a list of numbers.

## How the model is built

**Comparisons.** The comparison callback is a function `(T, T) -> Cmp`.
The sorts and the tree are proved correct for every callback that is a
total preorder (`Order.Comparator`). Their shape and permutation
properties hold for any callback, except for the list sort, which needs a
total preorder throughout (see ListSort.Sort under "Left out").

**Records and buffers.** A buffer or file of records is a `seq<T>`. Byte
offsets are record indices times the record size.

**Merge.** One reference merge, `Order.Merge`, carries a flag saying which
input wins ties. Every merge loop in the library is proved equal to it:
the buffer merge lets the second run win, and the file and list merges
let the first win.

**Lists.** The list module keeps a memory of nodes (`Heap`) and the
addresses of a list from head to last. The other modules model a list by
the sequence of its contents.

**Allocation.** Where the source checks an allocation, a boolean
parameter says whether it succeeds, except in the places listed under
"Left out".

**Callbacks and randomness.** rand() is a parameter `pick`: every proof
holds whatever it returns. The update callback's return code is a
parameter too. The contents that the delete and destroy callbacks
receive are returned as part of the result.

## Model

| member | source | states |
|---|---|---|
| Order.MergePermutes | src/tsalgo/bufsort.c:203-229 | a merge holds exactly the records of both inputs |
| Order.MergeSorted | src/tsalgo/bufsort.c:203-229 | merging two sorted sequences gives a sorted sequence |
| Order.MergeStable | src/tsalgo/filesort.c:227-237 | among records that compare Equal, the input that wins ties comes first and each input keeps its own order |
| Order.AscendingIsSorted | src/tsalgo/bufsort.c:72-87 | checking only neighbours for descents is the same as checking all pairs, under the comparator laws |
| Order.StepdownsZero | src/tsalgo/listsort.c:118-134 | a sequence has no stepdowns exactly when it is non-descending |
| Order.ReverseStepdowns | src/tsalgo/bufsort.c:481-499 | a sequence and its reversal together have at most one descent per neighbouring pair |
| BufSort.GetRun | src/tsalgo/bufsort.c:72-87 | the run at the front is non-descending and ends at a descent or at the end of the buffer |
| BufSort.GetRuns | src/tsalgo/bufsort.c:101-130 | the runs tile the buffer in order; each is non-descending; each later run starts at a descent; there are exactly stepdowns + 1 runs |
| BufSort.MergeRuns | src/tsalgo/bufsort.c:203-229 | the target is the merge of the two runs in which the second run wins ties |
| BufSort.MergeBuf | src/tsalgo/bufsort.c:249-298 | a pass keeps the records, halves the run list rounding up, puts each pair's merge at its run, and turns sorted runs into sorted runs |
| BufSort.BufferMerge | src/tsalgo/bufsort.c:338-361 | repeated passes give a permutation of the buffer, sorted when the runs were sorted |
| BufSort.SortBufMerge | src/tsalgo/bufsort.c:443-512 | NULL exactly for invalid arguments; the caller's buffer exactly when it is one non-descending run; otherwise a sorted permutation, which is the plain reversal when many runs reverse into one |
| BufSort.RandIdx | src/tsalgo/bufsort.c:373-384 | the pivot offset is a record boundary within [l, u], whatever rand() returns |
| BufSort.Swap | src/tsalgo/bufsort.c:390-400 | two records change places, all others stay, and the records are permuted |
| BufSort.Partition | src/tsalgo/bufsort.c:418-429 | the pivot lands at m, everything left of it is below it, nothing right of it is, and nothing outside the range moves |
| BufSort.Quicksort | src/tsalgo/bufsort.c:406-437 | the range becomes a sorted permutation of itself and the rest of the buffer is untouched, for every choice of pivots |
| BufSort.ScanNoDrop | src/tsalgo/bufsort.c:533-538 | the backward scan reports sorted exactly when no record is below its predecessor |
| BufSort.SortedNoDrop | src/tsalgo/bufsort.c:533-538 | a sorted buffer passes the backward scan |
| BufSort.SortBufQuick | src/tsalgo/bufsort.c:518-557 | NULL exactly for invalid arguments; the caller's buffer exactly when it passes the scan; otherwise a sorted permutation |
| BufSort.Release | src/tsalgo/bufsort.c:563-568 | only memory the sort allocated is freed, never the caller's buffer |
| FileMerge.Refill | src/tsalgo/filesort.c:207-226 | an empty window is refilled with the next records of its stream; the read fails only when the stream is shorter than declared |
| FileMerge.Choose | src/tsalgo/filesort.c:227-237 | an exhausted stream forces the other; otherwise stream 1 is taken unless the comparison says Greater |
| FileMerge.Flush | src/tsalgo/filesort.c:239-247 | a full output buffer is written out as a full block without changing what has been written |
| FileMerge.MergeStreams | src/tsalgo/filesort.c:168-253 | succeeds exactly when both streams hold their declared sizes; the blocks written are full except the last and spell the merge in which stream 1 wins ties |
| FileSort.SortBuffers | src/tsalgo/filesort.c:108-160 | FOPEN exactly when the input cannot be opened or the output cannot be created, FREAD exactly for a short input; otherwise every aligned chunk is a sorted permutation of the same chunk of the input |
| FileSort.MergeStride | src/tsalgo/filesort.c:284-320 | one stride takes the lengths Stride gives and writes what the reference pass writes for them |
| FileSort.MergePass | src/tsalgo/filesort.c:276-324 | the loop over the strides writes exactly the reference pass over the file |
| FileSort.PassPermutes | src/tsalgo/filesort.c:288-297 | a pass keeps the records, including the short or missing second stream at the end |
| FileSort.PassSorted | src/tsalgo/filesort.c:284-320 | a pass over sorted chunks of n records leaves sorted chunks of 2n records |
| FileSort.ChunkLenPow | src/tsalgo/filesort.c:270-271 | the sorted chunk length after step passes is pow(2, step) times the buffer size |
| FileSort.MergeBuffers | src/tsalgo/filesort.c:260-331 | passes continue exactly while the chunk length is below the file size; the file that holds the result is a permutation of the input, sorted when the chunks were |
| FileSort.SortFile | src/tsalgo/filesort.c:337-427 | INVALID exactly for bad arguments; FOPEN exactly when the input cannot be opened, the first staging file cannot be created, or after a successful chunk sort the second staging file or a merge descriptor cannot be opened; FREAD exactly for a short input; otherwise the staging file that holds the result is a sorted permutation of the input |
| FileSort.MergeFiles | src/tsalgo/filesort.c:433-462 | FOPEN exactly when a file cannot be opened and FREAD exactly for a short input; otherwise the output is the merge with file 1 winning ties, sorted when both inputs are |
| FileSort.NoDropSorted | src/tsalgo/bufsort.c:533-538 | a chunk the quicksort hands back unsorted is already sorted |
| LinkedList.InitEmpty | src/tsalgo/list.c:11-15 | the initial header is a well-linked empty list |
| LinkedList.OrderUnique | include/tsalgo/list.h:16-30 | the header and the nxt/prv pointers fix the order of the nodes |
| LinkedList.Destroy | src/tsalgo/list.c:21-33 | the header becomes an empty list |
| LinkedList.DestroyAll | src/tsalgo/list.c:34-44 | every content is released once, in list order, and the list is empty |
| LinkedList.InsertAsWritten | src/tsalgo/list.c:50-72 | on success the new node heads a well-linked list; on failure a non-empty list is left with a NULL head and its old length |
| LinkedList.InsertFailureCorrupts | src/tsalgo/list.c:63-65 | after a failed insert into a non-empty list, no order of nodes agrees with the header |
| LinkedList.Insert | src/tsalgo/list.c:50-72 | on success the content is first and the rest follow in order; a failed insert leaves the list as it was |
| LinkedList.Append | src/tsalgo/list.c:78-89 | on success the content is last and the rest precede it in order; a failed append changes nothing |
| LinkedList.RemoveAsWritten | src/tsalgo/list.c:95-118 | it fails exactly for a NULL node or the sole node; otherwise the list without that node stays well linked and one shorter |
| LinkedList.RemoveNullFromEmpty | test/listrandom.c:38-42 | removing the head of an empty list, which is NULL, fails as written and changes nothing once corrected |
| LinkedList.Remove | src/tsalgo/list.c:95-118 | removing NULL changes nothing; otherwise the remaining nodes form a well-linked list of the other contents in order, one shorter |
| LinkedList.Copy | src/tsalgo/list.c:124-142 | a new list in fresh nodes holds the same contents in order, and the original is unchanged |
| LinkedList.ReverseList | src/tsalgo/list.c:148-169 | NULL exactly for an empty list; otherwise a new list of fresh nodes holds the contents reversed, and the original is unchanged |
| LinkedList.Promote | test/listrandom.c:145-195 | the content at k changes places with its predecessor and nothing else moves |
| LinkedList.Degrade | test/listrandom.c:217-267 | the content at k changes places with its successor and nothing else moves |
| LinkedList.DegradeUndoesPromote | test/listrandom.c:145-267 | degrading the predecessor undoes a promotion |
| LinkedList.PromoteUndoesDegrade | test/listrandom.c:145-267 | promoting the successor undoes a degradation |
| ListSort.ListMerge | src/tsalgo/listsort.c:75-112 | the result is the merge in which the first list wins ties; it is a permutation of both lists, sorted when they are |
| ListSort.CountRunsAsWritten | src/tsalgo/listsort.c:118-134 | it fails exactly on the empty list; otherwise it gives stepdowns + 1 |
| ListSort.CountRuns | src/tsalgo/listsort.c:118-134 | zero runs exactly for the empty list; otherwise stepdowns + 1, which is one exactly when the list is non-descending |
| ListSort.SplitRuns | src/tsalgo/listsort.c:140-201 | the runs concatenate to the list, each is non-empty and non-descending, and there are stepdowns + 1 of them |
| ListSort.MergeSweep | src/tsalgo/listsort.c:208-243 | one sweep of the loop is the reference sweep: pairs merged, an odd run left in place |
| ListSort.SweepPermutes | src/tsalgo/listsort.c:208-243 | a sweep keeps the elements |
| ListSort.SweepHalves | src/tsalgo/listsort.c:208-243 | a sweep halves the number of runs, rounding up |
| ListSort.MergeRuns | src/tsalgo/listsort.c:208-243 | the merged list is a permutation of the runs, sorted when the runs are |
| ListSort.ReversedFewRuns | src/tsalgo/listsort.c:33-69 | a list with more runs than half its length reverses into one with few enough, so the reverse branch recurses once |
| ListSort.Sort | src/tsalgo/listsort.c:33-69 | NULL exactly for the empty list; otherwise a sorted permutation, and the list itself when it is one run |
| AvlTree.AvlChecks | src/tsalgo/tree.c:102-126 | the AVL invariant is exactly baltest together with treebalanced at every node |
| AvlTree.RotateRightBalances | src/tsalgo/tree.c:236-276 | a left-heavy subtree becomes AVL again; it is one level lower unless deletion met a balanced left child |
| AvlTree.RotateLeftBalances | src/tsalgo/tree.c:337-377 | the mirror of RotateRightBalances |
| AvlTree.RotateRightKeepsOrder | src/tsalgo/tree.c:183-276 | right rotations, single and double, keep the contents in order |
| AvlTree.RotateLeftKeepsOrder | src/tsalgo/tree.c:282-377 | left rotations, single and double, keep the contents in order |
| AvlTree.GrewLeftBalances | src/tsalgo/tree.c:398-406 | after the left subtree grew, the node is AVL; it grew exactly when the flag says so, and a grown node leans |
| AvlTree.GrewRightBalances | src/tsalgo/tree.c:410-418 | the mirror of GrewLeftBalances |
| AvlTree.ShrunkLeftBalances | src/tsalgo/tree.c:487-495 | after the left subtree shrank, the node is AVL and shrank exactly when the flag says so |
| AvlTree.ShrunkRightBalances | src/tsalgo/tree.c:502-510 | the mirror of ShrunkLeftBalances |
| AvlTree.RebalanceKeepsOrder | src/tsalgo/tree.c:398-418 | every rebalancing step keeps the contents in order |
| AvlTree.InsBalances | src/tsalgo/tree.c:384-425 | insertion keeps the AVL invariant, and the tree grew by one level exactly when the flag says so |
| AvlTree.InsUnchanged | src/tsalgo/tree.c:132-176 | an insertion that adds no node leaves the tree as it was |
| AvlTree.InsFollowsFind | src/tsalgo/tree.c:384-425 | insertion reports the duplicate find would return, and adds a node only when find returns nothing and the allocation succeeds |
| AvlTree.DelMaxBalances | src/tsalgo/tree.c:432-470 | removing the greatest content keeps the AVL invariant, and the tree shrank exactly when the flag says so |
| AvlTree.DelMaxOrder | src/tsalgo/tree.c:432-470 | the content del removes is the last one in order |
| AvlTree.DelBalances | src/tsalgo/tree.c:476-562 | deletion keeps the AVL invariant, the tree shrank by one level exactly when the flag says so, and a miss changes nothing |
| AvlTree.DelFollowsFind | src/tsalgo/tree.c:476-562 | the content handed to onDelete is the one find returns |
| TreeOrder.FindFound | src/tsalgo/tree.c:70-83 | what find returns is a content of the tree comparing Equal to the key |
| TreeOrder.FindMissing | src/tsalgo/tree.c:70-83 | in a search tree, find returns nothing exactly when no content compares Equal |
| TreeOrder.InsPlaces | src/tsalgo/tree.c:384-425 | insertion puts the new content in its sorted place and otherwise changes nothing |
| TreeOrder.DelDrops | src/tsalgo/tree.c:476-562 | deletion takes the content comparing Equal out of the in-order sequence |
| TreeOrder.PlaceDrop | src/tsalgo/tree.c:731-768 | deleting a key just inserted gives the contents back |
| TreeOrder.DropIncreasing | src/tsalgo/tree.c:476-562 | after deletion the contents are still strictly increasing and none compares Equal to the key |
| TreeHead.InitValid | src/tsalgo/tree.c:692-710 | a fresh tree is valid and empty |
| TreeHead.TreeFindSpec | src/tsalgo/tree.c:774-779 | find returns the content comparing Equal to the key when the tree holds one, and nothing otherwise |
| TreeHead.TreeInsertValid | src/tsalgo/tree.c:731-754 | insertion keeps the tree AVL, a search tree, and correctly counted |
| TreeHead.TreeInsertKept | src/tsalgo/tree.c:731-754 | a key already present goes to onUpdate, whose Err alone is reported, and the tree stays; a failed allocation is Err and the tree stays |
| TreeHead.TreeInsertNew | src/tsalgo/tree.c:731-754 | a new key takes its sorted place, becomes findable and counts one more |
| TreeHead.TreeDeleteValid | src/tsalgo/tree.c:760-768 | deletion keeps the tree valid, hands on what find returned, and leaves nothing findable under the key |
| TreeHead.TreeDeleteRemoves | src/tsalgo/tree.c:760-768 | a miss changes nothing; a hit removes that one content, keeps the rest in order, and counts one less |
| TreeHead.DelCounts | src/tsalgo/tree.c:476-562 | deletion removes exactly one content, the one find returns, or nothing |
| TreeHead.AvlSize | src/tsalgo/tree.c:102-109 | an AVL tree of height h holds at least 2^((h+1)/2) - 1 contents |
| TreeHead.HeightLogarithmic | test/treerandom.c:257-258 | a non-empty AVL tree of at most 2^c contents is at most 2c + 1 levels tall |
| TreeHead.FlattenInOrder | src/tsalgo/tree.c:568-583 | toList fails with NO_MEM exactly when one of its appends cannot allocate; otherwise it appends the contents in order to the list built so far |
| TreeHead.ToList | src/tsalgo/tree.c:830-844 | NULL exactly for the empty tree, a failed list allocation or a failed append; otherwise the contents in order |
| TreeHead.ToListSorted | src/tsalgo/tree.c:830-844 | a non-empty valid tree gives a list whenever every allocation succeeds, and the list is strictly increasing and as long as the count |
| TreeHead.SeekFirst | src/tsalgo/tree.c:592-607 | search returns the first match in preorder |
| TreeHead.Search | src/tsalgo/tree.c:904-910 | the result is the first preorder content that matches, or nothing if none does |
| TreeHead.KeepMatches | src/tsalgo/tree.c:616-637 | the filter keeps exactly the matching contents |
| TreeHead.CollectKeeps | src/tsalgo/tree.c:616-637 | treefilter appends the matches in preorder to the list |
| TreeHead.Filter | src/tsalgo/tree.c:919-928 | an empty tree leaves the list alone, a missing list is INVALID, otherwise the matches are appended |
| TreeHead.PreOrderPermutes | src/tsalgo/tree.c:592-607 | search and filter visit every content exactly once |
| TreeHead.DestroyEach | src/tsalgo/tree.c:716-725 | destroy hands every content to onDestroy exactly once |
| LruCache.InitInv | src/tsalgo/lru.c:99-124 | a new cache is consistent: the tree and the list hold the same contents |
| LruCache.FindInList | src/tsalgo/lru.c:139-151 | in a consistent cache, the tree finds a key exactly when the list holds it, with the same content |
| LruCache.GetSpec | src/tsalgo/lru.c:139-151 | a miss changes nothing; a hit returns the content and promotes its entry one place, keeping the cache consistent |
| LruCache.RotateSpec | src/tsalgo/lru.c:157-188 | the resident entries at the end move to the head in order until a non-resident entry is last; a list of one entry or all resident entries is left alone |
| LruCache.EvictedSpec | src/tsalgo/lru.c:194-203 | only a full bounded cache of two or more entries loses one: the last non-resident entry; never a resident one |
| LruCache.EvictSpec | src/tsalgo/lru.c:194-203 | eviction does that to the list, removes the same content from the tree, and hands it to onDelete |
| LruCache.AddPresent | src/tsalgo/lru.c:209-231 | adding a key the cache holds leaves the cache as it was; the code is NO_MEM for a failed node allocation, Err when onUpdate fails, and Ok otherwise |
| LruCache.AddFails | src/tsalgo/lru.c:209-231 | a failed allocation for a new key leaves the list and the tree contents as they were and the cache consistent: NO_MEM for the LRU node, Err for the tree node, and Err with the content handed to onDelete for the list node |
| LruCache.AddSucceeds | src/tsalgo/lru.c:209-249 | a new key becomes the head entry, is indexed, and a full cache then evicts |
| LruCache.AddAsWrittenDuplicates | src/tsalgo/lru.c:220-229 | as written, re-adding a held key links a second entry, so the tree count no longer matches the list |
| LruCache.RevokeSpec | src/tsalgo/lru.c:255-264 | only the resident flag of the key's entry is cleared; a missing key changes nothing |
| LruCache.DestroyEach | src/tsalgo/lru.c:130-133 | every cached content goes to onDestroy exactly once |
| HashMap.InitSpec | src/tsalgo/map.c:89-99 | NULL is INVALID and a failed allocation is NO_MEM; otherwise an empty map of sz buckets, or 8192 for zero |
| HashMap.GetSpec | src/tsalgo/map.c:136-156 | get finds a key exactly when some slot holds it, and returns that slot's data |
| HashMap.GetOnly | src/tsalgo/map.c:136-156 | a key whose slots all carry the same data is found with that data |
| HashMap.PutSpec | src/tsalgo/map.c:129-132 | linking a slot keeps the map well formed and adds exactly that slot |
| HashMap.PutGet | src/tsalgo/map.c:129-132 | the put key is then found with the put data |
| HashMap.AddSpec | src/tsalgo/map.c:122-134 | success exactly when the resize a full map needs and both allocations succeed; then one slot more, the key found with its data, and four times the buckets exactly when the map was full; NO_MEM loses no slot; Err counts a slot it did not link |
| HashMap.AddGetOther | src/tsalgo/map.c:122-134 | an add without resize leaves the lookup of every other key alone |
| HashMap.AddBounded | src/tsalgo/map.c:124-128 | the map never holds more than twice as many slots as buckets |
| HashMap.RemoveSpec | src/tsalgo/map.c:158-171 | remove returns what get finds and takes exactly that slot out; a miss changes nothing |
| HashMap.RemoveUndoesAdd | src/tsalgo/map.c:158-171 | removing right after an add that did not resize gives the map back |
| HashMap.RemoveAsWritten | src/tsalgo/map.c:158-171 | as written, remove fails exactly when the key is the only slot of its bucket; every other call agrees with the corrected remove |
| HashMap.RemoveOnlySlot | src/tsalgo/map.c:158-171 | with one bucket, adding key 0 and removing it fails as written, while the corrected remove returns the data and the empty map |
| HashMap.DeleteSpec | src/tsalgo/map.c:173-176 | the corrected delete removes like remove, and passes the address of the removed data to del exactly when there is a callback and the key was found |
| HashMap.DeleteAsWrittenPassesData | src/tsalgo/map.c:173-176 | as written, delete leaves the same map and calls del in the same cases, but hands it the data pointer instead of its address |
| HashMap.DeleteWithCallback | src/tsalgo/map.c:173-176 | with a callback, deleting a held key hands del the raw data as written, while destroy hands it the address |
| HashMap.UpdateSpec | src/tsalgo/map.c:178-183 | update succeeds exactly when get finds the key; then get finds the new data, one slot's data is exchanged, and the count stays |
| HashMap.UpdateGetOther | src/tsalgo/map.c:178-183 | update leaves the lookup of every other key alone |
| HashMap.IterateLength | src/tsalgo/map.c:185-219 | a loop over the iterator runs exactly count times |
| HashMap.IterateVisits | src/tsalgo/map.c:198-232 | what the iterator yields: it skips the first slot, or the last when bucket 0 is empty, and yields the final slot twice |
| HashMap.CopyIntoSpec | src/tsalgo/map.c:26-42 | adding a run of slots keeps the map well formed and adds exactly those slots |
| HashMap.ResizeSpec | src/tsalgo/map.c:44-65 | the corrected resize keeps the slots and the count in four times the buckets, and frees no data |
| HashMap.ResizeFinds | src/tsalgo/map.c:44-65 | after the corrected resize, get finds the same keys |
| HashMap.ResizeGetOnly | src/tsalgo/map.c:44-65 | after the corrected resize, a key with one datum is found with it |
| HashMap.ResizeAsWrittenCopies | src/tsalgo/map.c:26-42 | as written, resize copies what the iterator yields: every slot but one, and one slot twice |
| HashMap.AddAsWrittenLosesKey | src/tsalgo/map.c:44-65 | as written, adding a third key to a one-bucket map loses key 1, duplicates key 0's slot and frees its data; the corrected add keeps key 1 |
| HashMap.AsWrittenResizeOfTwoKeys | src/tsalgo/map.c:57-62 | the as-written resize of that map, with the data handed to del |
| HashMap.CorrectAddKeepsKey | src/tsalgo/map.c:122-134 | the corrected add of the third key keeps key 1 with its data |
| KeyList.Strnlen | tools/treei.c:157 | the length is the number of characters before the first NUL, at most the bound |
| KeyList.ConvertKeeps | tools/treei.c:163-195 | conversion keeps the list it starts from, appends the atoi value of each key it accepts, and stops at the first key that fails |
| KeyList.ConvertSucceeds | tools/treei.c:163-195 | conversion succeeds exactly when every key passes its checks and its allocation |
| KeyList.ScanFields | tools/treei.c:163-195 | the character loop converts the comma-separated keys of the string, the partial key included |
| KeyList.GetListFields | tools/treei.c:151-197 | getList refuses a long string and otherwise converts the keys up to the NUL |
| KeyList.GetListTooLong | tools/treei.c:157-161 | a string of 4095 characters or more is refused and the list is left alone |
| KeyList.EmptyKeyRefused | tools/treei.c:168-172 | an empty string, a leading or trailing comma, or two commas in a row are refused |
| KeyList.GoodDecimal | tools/treei.c:174-185 | a key that passes the corrected checks is one to three digits, and its value is below 1000 |
| KeyList.GetListKeys | tools/treei.c:151-197 | on success one key per field is appended, each the decimal value of its digits, below 1000 |
| KeyList.ErrorKeepsPrefix | tools/treei.c:163-195 | on an error, the keys before the failing one stay appended |
| KeyList.AsWrittenAcceptsLetter | tools/treei.c:174-179 | as written, "1a" gives the key 1; the corrected check refuses it |
| KeyList.AsWrittenAcceptsLetterAlone | tools/treei.c:174-179 | as written, "a" gives the key 0; the corrected check refuses it |

## Left out

- **File I/O** is reduced to its outcomes.
  - A file is its sequence of records; an unopenable file is `None`.
  - A read that hits the end early is FREAD.
  - fseek, fflush, fwrite and rename failures are not modelled, nor is the
    removal of staging files.
  - FileSort.SortFile returns the content of the staging file holding the
    result, instead of renaming it.
- **Allocation failures** are not modelled in these places:
  - the buffer sorts (their NULL on failed malloc);
  - the file sort and file merge (NO_MEM);
  - list copy and reverse;
  - listsort;
  - the iterator allocation inside copyall;
  - the adds inside copyall (see HashMap.CopyIntoSpec below).
- **Releasing memory** is not modelled, apart from the contents handed to
  the delete and destroy callbacks.
- **Memory layout**:
  - malloc bookkeeping;
  - the tree's dummy node;
  - the lru_node_t that the tree and the list of the LRU cache share.
- **Diagnostics and random sources**:
  - print and show helpers: tree show/showbal and map showslots;
  - `pow` and `rand`, beyond the parameters described above;
  - src/tsalgo/random.c.
- **Not modelled at all**:
  - the rest of tools/treei.c, tools/readkeys.c and tools/shuffle.c;
  - the test drivers;
  - ts_algo_tree_grabGeneration.
- **Allocating constructors.** `ts_algo_*_new` only allocates and then
  calls init, so only init is modelled.
- **Map interface.** The hashed-key variant of the map interface used by
  the map tests is not modelled. Neither is the signature of `update` in
  include/tsalgo/map.h, which differs from map.c.
- ListSort.Sort: requires the comparison to be a total preorder. With an
  inconsistent comparison the reverse branch of ts_algo_list_sort can
  recurse without end.
- FileSort.MergeFiles: requires the record size to divide the 8192-byte
  block. Otherwise the C merge would split records across windows.
- FileSort.MergeFiles: a file size that is not a whole number of records
  is rounded down to whole records. The C merge (filesort.c:225-236)
  steps past such a file's end and then compares and copies bytes beyond
  its window; that is not modelled.
- BufSort.ScanNoDrop: the scan index is unbounded. In the C code it is an
  `int` (bufsort.c:523), so buffers of 2^31 bytes or more would be scanned
  with a truncated index; the quicksort built on it (BufSort.SortBufQuick)
  shares this limit.
- HashMap.CopyIntoSpec: the adds that copyall makes into the new buckets
  are taken to succeed. When one fails, bufresize (map.c:51-54) destroys
  the new buckets with the delete callback, freeing data the old buckets
  still hold; that outcome is not modelled.
- HashMap.Add: its failure branch for the list node uses the corrected
  list insert (LinkedList.Insert). As written (list.c:63-65) a failed node
  allocation nulls the head of a non-empty bucket, so the bucket's other
  slots become unreachable; see the list insert row under Findings.
- HashMap.AddSpec: the failure case rests on the corrected list insert,
  as HashMap.Add does.
- HashMap.AddGetOther: rests on the same corrected list insert when the
  node allocation fails.
- HashMap.RemoveSpec: states the corrected remove. As written, removing the
  only slot of a bucket crashes (see Findings and HashMap.RemoveAsWritten).
- HashMap.DeleteSpec: built on the corrected remove, like HashMap.RemoveSpec,
  and states the corrected callback argument (see Findings).
- LruCache.Add: its failure branch for the list node uses the corrected
  list insert. As written (list.c:63-65, called from lru.c:224) the head of
  a non-empty LRU list is NULL afterwards.
- LruCache.AddFails: the list-node failure case rests on the corrected
  list insert, as LruCache.Add does.
- LruCache.AddAsWritten: models the add2lru defect (lru.c:220-229) only;
  its list insert is the corrected one.
- HashMap.Add: the slot counter and the bucket counts `curSize<<1` and
  `curSize<<2` are unbounded integers. The 32-bit wrap-around of the C
  fields is modelled only where remove decrements the counter below zero.
- TreeHead.TreeInsertValid: requires the count to be below 2^32 - 1. The
  C count is a 32-bit integer and wraps beyond that; Step32 models the
  wrap in the insert and delete functions themselves.
- TreeHead.Filter: the list append inside treefilter is taken to succeed.
  Its allocation failure, which ends the filter early, is not modelled.
- KeyList.Atoi: treats keys as characters below 128. A signed-char byte of
  0x80 or above, and atoi's handling of leading blanks and signs, are not
  modelled; no key that passes the corrected checks contains them.
- **Contents as pointers.** NULL contents are indistinguishable from
  stored data in the C interfaces. The model returns `None` only where
  the C code returns NULL for "not found".

## Findings

| source | as written | input that shows it | evidently intended | confidence | as-written member | corrected member |
|---|---|---|---|---|---|---|
| src/tsalgo/listsort.c:125-126 | countRuns reads `runner->nxt` of the head before checking for an empty list | ts_algo_list_sort on an empty list | an empty list has no runs and the sort returns NULL | high, not executed | ListSort.CountRunsAsWritten | ListSort.CountRuns |
| src/tsalgo/list.c:105-107 | removing the sole node sets `last` to its NULL `prv` and then writes `last->nxt` | remove the only node of a one-element list | the list becomes empty | high, not executed | LinkedList.RemoveAsWritten | LinkedList.Remove |
| src/tsalgo/list.c:97-98 | remove compares the node with `head` before checking it for NULL, then reads `node->nxt` | remove the head of an empty list, which is NULL (as test/listrandom.c:38-42 does) | removing NULL changes nothing | high, not executed | LinkedList.RemoveAsWritten | LinkedList.Remove |
| src/tsalgo/map.c:158-171 | remove unlinks the slot's node with the list remove, which crashes on the only node of a list | init with one bucket, add key 0, remove key 0 | the bucket becomes empty and the data is returned | high, not executed | HashMap.RemoveAsWritten | HashMap.Remove |
| src/tsalgo/map.c:175 | delete calls `del(NULL, data)` although the callback takes a `void **` (include/tsalgo/types.h:91) and the bucket destroy (map.c:106) passes `&x` | delete a held key from a map with a callback that frees `*k` | del receives the address of the data, as on destroy | high, not executed | HashMap.DeleteAsWrittenPassesData | HashMap.DeleteSpec |
| src/tsalgo/list.c:63-65 | insert overwrites `head` with the result of malloc before checking it | a failed allocation when inserting into a non-empty list | a failed insert leaves the list intact | high, not executed | LinkedList.InsertFailureCorrupts | LinkedList.Insert |
| src/tsalgo/lru.c:220-229 | add2lru links the new node into the list even when the tree already held the key, and lruUpdate (line 47) has then freed that node | add the same content twice to an unbounded cache | a held key adds no list entry | medium, not executed | LruCache.AddAsWrittenDuplicates | LruCache.AddPresent |
| src/tsalgo/map.c:198-219 | the iterator's reset advances once before the first get, and eof allows one get past the last advance, so copyall skips one slot and copies another twice | init with one bucket, add keys 0 and 1, then add key 2 | resize copies every slot once | high, not executed | HashMap.AddAsWrittenLosesKey | HashMap.CorrectAddKeepsKey |
| src/tsalgo/map.c:57-62 | bufresize destroys the old buckets with the map's delete callback, which frees data the new buckets still hold | the same three adds with a delete callback | the old buckets are freed without calling del | high, not executed | HashMap.AsWrittenResizeOfTwoKeys | HashMap.ResizeSpec |
| tools/treei.c:175 | the digit check compares the index `x` with '9' instead of `buf[x]` | the key list "1a" (also "a") | only decimal digits pass | high, not executed | KeyList.AsWrittenAcceptsLetter | KeyList.GetListKeys |
