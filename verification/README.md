# nebase in Dafny

Models of the algorithmic core of nebase, with proofs. Each component is modelled in the form
that the C code has: arrays filled by loops, objects whose methods update fields, nodes in
memory that are relinked. Specifications are independent of the code (a leftmost occurrence, a
sum by definition, a set, a longest prefix, a sorted sequence), and the theorems hold for all
inputs, all reachable states or all runs.

| component | source | files |
|---|---|---|
| Boyer-Moore search | src/str/bm.c | BoyerMoore |
| Internet checksum | src/sock/csum.c | Checksum |
| hash table | compat/hashtable/hash.c | Flattening, HashTransfer, HashOrder, HashTable |
| radix routing tree | compat/net_radix/radix.c | Radix, RadixUpdate, RadixHistory, RadixPairs, RadixTree |
| route table and netmasks | src/net/radix.c, src/net/ipaddr.c | RouteTable, NetMask |
| red-black tree | compat/rbtree/rb.c | RbShape, RbRules, RbHeap, RbSwap, RbMoves, RbOrder, RbWalk, RbTree |
| timer | src/evdp/timer.c | TimerState, TimerRun, TimerEffect, TimerPass, EvTimer, TimerOrder |
| obstack | compat/obstack | ObstackState, Obstack |

`dafny verify dfyconfig.toml` checks everything.

## How the models read

- Boyer-Moore, checksum: bytes are numbers below 256, buffers are sequences or arrays. The
  checksum is parametrised by the byte order of the host and by the address modulo 4; 32-bit
  wrap-around is written out.
- Hash table: overflow cells carry an identity, so that the model shows where every cell goes;
  `malloc` succeeds a given number of times. The new bucket count of a rehash is arbitrary.
- Radix tree: a key is a sequence of bits, a mask its prefix length; a leaf stands for a chain
  of duplicate keys, an annotation for the route it belongs to. The loops of the source run
  over the path from the top. RadixPairs adds where each node lives: every route brings an
  allocated pair of a leaf and an internal node, and deletion copies internal
  nodes between pairs. As rn_addroute assumes, the bits of a key outside its mask are zero.
- Red-black tree: all nodes are in an explicit memory (`RbHeap.Heap`) with child pointers,
  father pointer, position and colour; the father of the root is the tree head, written zero,
  and writing its child writes the root pointer. A focus (`RbShape.Ctx` and `Tree`) says what
  the memory around a node looks like. The comparison callback is an arbitrary total preorder.
- Timer: a callback is an arbitrary finite sequence of new/del/reset calls and a return code;
  a time is one number, and the tree of nodes a map in which times are distinct
  (`TimerOrder` shows that the comparison is one the red-black tree accepts). `serial` tells
  apart points that live in the same memory one after the other. A pass is a sequence of
  configurations (`TimerPass.IsPass`): look at a node, fire the head of its list, make a call of
  the callback, return from it, leave the node.
- Obstack: addresses are numbers, memory is a map from addresses to bytes, the header is 16
  bytes (64-bit host), and rounding up to the alignment is written as arithmetic.

## What does not hold as one might expect

- `rn_match` does not find a covering route for the all-ones address: it stops at the sentinel
  leaf (`RadixHistory.AllOnesIsMissed`); `Radix.AllOnesExactly` says exactly when the answer is
  right for that address. For every other address it is (`Radix.MatchIsLongest`).
- `neb_sock_csum_ip4_fill` takes the header length from the packet; with a length below three
  words the checksum field lies outside, and `Checksum.Ip4Fill` states what then holds.
- A timer callback that resets its own point and then empties the node it was reset to leaves
  a dangling reference (`TimerRun.DanglingNode`). `TimerRun.ExecOk` gives the condition under
  which a call keeps the invariant, in both directions; outside callbacks it always holds, and
  `TimerPass.StuckMeans` says exactly which calls of a callback violate it.
- A point that resets itself in its callback to the time just being served is not fired again
  but kept: `TimerRun.ResetThenKept` says that the reset takes effect iff it is to another time.
- A pass may leave points that are due: one armed in a callback for an earlier time than the
  current one waits for the next pass (`TimerPass.EarlierWaits`). `TimerPass.LeftOver` says
  exactly which nodes are left, and `TimerPass.NothingDueIsLeft` when there are none.
- `_obstack_begin` accepts a chunk size too small for its own header; `ObstackState.BegunOk`
  says exactly when the first chunk is usable.

## Model

| member | source | states |
|---|---|---|
| BoyerMoore.PreBmBc | src/str/bm.c:22-28 | every bad-character entry is the distance of the last such byte before the final position, or the length |
| BoyerMoore.Suffixes | src/str/bm.c:30-47 | suff[i] is the longest common suffix of x[..i+1] and x for every i, with at most m successful comparisons in the whole run |
| BoyerMoore.CopiedRun | src/str/bm.c:36-37 | a run inside the known window that stops early has the length of its image near the end |
| BoyerMoore.ExtendedRun | src/str/bm.c:38-45 | a run that does not stop early may continue from g |
| BoyerMoore.FillBorders | src/str/bm.c:55-61 | the second loop leaves at every position the least border shift beyond it |
| BoyerMoore.PreBmGs | src/str/bm.c:49-64 | bmGs[i] is the least shift in 1..m that re-aligns the matched suffix and puts a different byte, or none, under i |
| BoyerMoore.SkipIsSafe | src/str/bm.c:77-85 | no occurrence starts strictly inside a skip by either table |
| BoyerMoore.Scan | src/str/bm.c:77-87 | the skip loop returns the leftmost occurrence, or none exactly when there is none |
| BoyerMoore.Search | src/str/bm.c:66-88 | for every pattern of length at least 1 and every text: the leftmost occurrence, NULL iff there is none |
| BoyerMoore.SearchContext.constructor | src/str/bm.c:90-102 | the context holds exact tables for the pattern |
| BoyerMoore.SearchContext.Search | src/str/bm.c:109-126 | the context form returns the leftmost occurrence as well |
| BoyerMoore.LeftmostIsUnique | src/str/bm.c:109-126 | the result is determined, hence the same in both forms |
| Checksum.WordSumIsReduced | src/sock/csum.c:31-83 | the sum by definition (words with end-around carry) is the reduced sum of the byte lanes |
| Checksum.ReduceIsModulo | src/sock/csum.c:22-29 | the reduced sum is 0 for 0 and otherwise the representative in 1..65535 modulo 65535 |
| Checksum.ZeroTotal | src/sock/csum.c:31-83 | the lane sum is 0 iff all bytes are zero |
| Checksum.CarryRound | src/sock/csum.c:56-63 | adding a 32-bit word with the carry of the previous round loses no carry |
| Checksum.SumHead | src/sock/csum.c:38-53 | odd byte and half word bring the cursor to a word boundary with the exact lane sum |
| Checksum.SumWords | src/sock/csum.c:54-66 | the word loop and its fold keep the reduced lane sum |
| Checksum.SumTail | src/sock/csum.c:67-77 | the rest of at most three bytes is added in its lanes |
| Checksum.SumBytes | src/sock/csum.c:36-77 | the accumulator before the last fold stands for the lanes as the address sets them |
| Checksum.SwappedIsPlain | src/sock/csum.c:78-80 | swapping the bytes of the result undoes the exchange of lanes at an odd address |
| Checksum.DoCsum | src/sock/csum.c:31-83 | at every alignment and length the value is the ones'-complement sum of the bytes by definition |
| Checksum.CsumPartial | src/sock/csum.c:97-107 | adds the sum of a buffer to a running sum in 32 bits, with the carry at the low end |
| Checksum.CsumTcpudpNofold | src/sock/csum.c:118-132 | adds exactly the IPv4 pseudo-header |
| Checksum.CsumIpv6Magic | src/sock/csum.c:161-217 | the complement of the running sum plus the IPv6 pseudo-header |
| Checksum.From32to16IsReduce | src/sock/csum.c:22-29 | two folds reduce any 32-bit sum |
| Checksum.From64to32KeepsSum | src/sock/csum.c:109-116 | the 64-bit fold keeps the sum modulo 65535 |
| Checksum.VerifiesInEitherOrder | src/sock/csum.c:97-143 | the receiver's test does not depend on the byte order of the host |
| Checksum.WordSumInNetworkOrder | src/sock/csum.c:31-83 | the sum that a little-endian host takes is the one in network byte order with its bytes swapped |
| Checksum.ComplementVerifies | src/sock/csum.c:137-143 | the complement stored in the zeroed field makes header and data verify |
| Checksum.StoredComplement | src/sock/csum.c:137-143 | the complement that a host stores reads, in network byte order, as the complement of the sum in that order |
| Checksum.Tcp4Fill | src/sock/csum.c:219-225 | only bytes 16 and 17 change; with the pseudo-header (protocol 6, length in 16 bits) the segment verifies; the field is the complement of the sum with a zero field |
| Checksum.Tcp6Fill | src/sock/csum.c:227-233 | the same with the IPv6 pseudo-header (length in 32 bits, next header 6) |
| Checksum.Icmp4Fill | src/sock/csum.c:235-239 | only bytes 2 and 3 change, the message verifies, and the field is the complement of the sum with a zero field |
| Checksum.Ip4Fill | src/sock/csum.c:241-245 | only bytes 10 and 11 change; for every version and ihl in the first byte the 4 * ihl bytes verify iff ihl is at least 3 or they did before; in any case the field is the complement of their sum with a zero field |
| HashTransfer.TransferEntries | compat/hashtable/hash.c:769-841 | a transfer, complete or not, loses and doubles no entry and keeps both tables well formed |
| HashTransfer.TransferCells | compat/hashtable/hash.c:769-841 | a transfer loses and shares no cell: what is added came from malloc |
| HashTransfer.TransferOutcome | compat/hashtable/hash.c:769-841 | a safe pass always succeeds and leaves bucket heads only; a full one empties the source |
| HashTransfer.TransferNeeds | compat/hashtable/hash.c:769-841 | a transfer takes at most one new cell for each used bucket and fails only when malloc has nothing left |
| HashTransfer.FewerCells | compat/hashtable/hash.c:900-916 | on the way back, one more entry for a used bucket finds a recycled cell |
| HashTransfer.UndoSucceeds | compat/hashtable/hash.c:900-916 | the second pass of the undo never asks malloc and never fails |
| HashTransfer.ForwardTransfer | compat/hashtable/hash.c:844-887 | entries and cells after the transfer into the new array |
| HashTransfer.FailedTransfer | compat/hashtable/hash.c:900-920 | both passes of the undo succeed and give the old table back |
| HashTransfer.CompleteTransfer | compat/hashtable/hash.c:887-898 | a successful transfer leaves all entries in the new array |
| HashTransfer.RehashIsSafe | compat/hashtable/hash.c:844-920 | hash_rehash never reaches abort; no entry and no cell is lost, done or not; on failure every bucket, the counters and the size are as before; it fails only without a size, without the array, or when malloc has no cell left and had fewer than there are used buckets |
| HashOrder.PutIsNext | compat/hashtable/hash.c:769-841 | the first entry that arrives in a bucket is its head, each later one goes right behind the head |
| HashOrder.RehashOrder | compat/hashtable/hash.c:769-898 | after a rehash every bucket holds its entries in exactly the order that follows from the walk over the old buckets, overflow before head |
| HashTable.LookupIsMembership | compat/hashtable/hash.c:241-254 | lookup finds the first equal entry of its chain iff there is an equal entry |
| HashTable.InsertRefinesSet | compat/hashtable/hash.c:923-1012 | insertion adds exactly the entry, or reports the one that is there; a table that was to grow has the new size when the entry is in; it fails, and then changes nothing, only if the cell, the array or the cells of a rehash were not to be had |
| HashTable.InsertMeans | compat/hashtable/hash.c:923-1002 | what an insertion leaves in every bucket, the counters and the free list: the rehash first, without which nothing is inserted; then the entry as head of an empty bucket or right behind the head in a recycled or else new cell; failure iff there is none |
| HashTable.RehashHasEffect | compat/hashtable/hash.c:844-920 | the outcome for each new size: nothing for the old size; refused without a size or an array; else the new array of that size with all entries in order, or the old one after malloc has given all it could |
| HashTable.RemoveRefinesSet | compat/hashtable/hash.c:1015-1078 | removal takes exactly the equal entry out, whatever the shrinking rehash does |
| HashTable.RemoveMeans | compat/hashtable/hash.c:1015-1072 | removal takes the first equal entry out of its chain, whose order stays, and recycles its cell; only when the bucket is empty the table shrinks to the new size, and a refused shrink gives the spare cells back |
| HashTable.ClearEmpties | compat/hashtable/hash.c:567-602 | clearing leaves a valid empty table with as many buckets |
| HashTable.ClearRecycles | compat/hashtable/hash.c:567-602 | clearing keeps every cell |
| HashTable.ClearFreesAll | compat/hashtable/hash.c:567-602 | the data freer gets every entry once, bucket by bucket, overflow before head |
| HashTable.GetFirstIsFirst | compat/hashtable/hash.c:259-271 | get_first is the first entry of the walk and never aborts on a valid table |
| HashTable.GetNextIsNext | compat/hashtable/hash.c:274-296 | get_next is the next entry of the walk, NULL at its end |
| HashTable.WalkIsDistinct | compat/hashtable/hash.c:259-296 | the walk meets every entry once |
| HashTable.StepRefinesSet | compat/hashtable/hash.c:567-1072 | every operation keeps the table valid, does not abort, and does what it does to a set modulo the comparator; only an insertion without enough memory may be refused |
| HashTable.RunRefinesSet | compat/hashtable/hash.c:567-1072 | so does every run of insert, remove, rehash and clear |
| HashTable.NewTableIsValid | compat/hashtable/hash.c:512-564 | the initial table is valid and empty |
| HashTable.HashTable.constructor | compat/hashtable/hash.c:512-564 | the initial table |
| HashTable.HashTable.Find | compat/hashtable/hash.c:241-254 | the loop computes the lookup that is proved to be membership |
| HashTable.HashTable.AllocateEntry | compat/hashtable/hash.c:660-679 | the first cell of the free list, else a new one from malloc, else none; nothing else changes |
| HashTable.HashTable.TransferFrom | compat/hashtable/hash.c:769-841 | the loops compute the transfer that is proved to conserve entries and cells |
| HashTable.HashTable.DoRehash | compat/hashtable/hash.c:844-920 | the rehash that is proved never to abort, with the outcome for each new size |
| HashTable.HashTable.InsertIfAbsent | compat/hashtable/hash.c:923-1002 | the insertion that refines a set, bucket by bucket as InsertMeans says |
| HashTable.HashTable.RemoveEntry | compat/hashtable/hash.c:1015-1072 | the removal that refines a set, bucket by bucket as RemoveMeans says |
| HashTable.HashTable.Clear | compat/hashtable/hash.c:567-602 | the clearing that keeps every cell |
| HashTable.HashTable.FirstEntry | compat/hashtable/hash.c:259-271 | the first entry of the walk |
| HashTable.HashTable.NextEntry | compat/hashtable/hash.c:274-296 | the next entry of the walk |
| HashTable.HashTable.TableOk | compat/hashtable/hash.c:184-210 | true iff both counters agree with the buckets |
| Radix.SearchFinds | compat/net_radix/radix.c:145-157 | the search ends at the leaf of every key in the tree |
| Radix.DefaultAtLeftmost | compat/net_radix/radix.c:164-177 | the masked search of a default annotation ends at the default route |
| Radix.LeafClimb | compat/net_radix/radix.c:294-344 | what the comparison with the leaf and its chain decides |
| Radix.ScanFindsFirst | compat/net_radix/radix.c:356-369 | the scan of an annotation list stops at the first mask that fits |
| Radix.FoundBelow | compat/net_radix/radix.c:345-371 | an answer from below stays the longest at the node above |
| Radix.FoundHere | compat/net_radix/radix.c:346-370 | an annotation found at a node is the longest match below it |
| Radix.MatchIsLongest | compat/net_radix/radix.c:274-372 | for every address but all ones: the stored route with the longest matching prefix, NULL exactly when none matches |
| Radix.MatchOfAllOnes | compat/net_radix/radix.c:305-320 | the all-ones address finds only a route to exactly itself |
| Radix.AllOnesExactly | compat/net_radix/radix.c:305-320 | for it the answer is right iff it has such a route or none covers it |
| Radix.LookupIsExact | compat/net_radix/radix.c:212-250 | rn_lookup finds exactly the stored route with this key and mask |
| RadixUpdate.InsertEntryOk | compat/net_radix/radix.c:625-667 | a chain stays sorted from most to least specific |
| RadixUpdate.EnteredMasks | compat/net_radix/radix.c:709-748 | the annotation list stays sorted and complete, and the non-unique-route branch is not reached |
| RadixUpdate.RaisedMasksOk | compat/net_radix/radix.c:687-708 | the annotations that move to a new node are exactly those that fit its bit |
| RadixUpdate.LoweredOk | compat/net_radix/radix.c:687-708 | what stays below is valid under the new node |
| RadixUpdate.BranchOk | compat/net_radix/radix.c:445-484 | the new node separates the new key from all keys below it |
| RadixUpdate.AddInOk | compat/net_radix/radix.c:595-749 | insertion keeps the invariant below every node and adds exactly one route |
| RadixUpdate.DemotedChainOk | compat/net_radix/radix.c:891-907 | a sibling chain takes its annotations back in step, and none is orphaned |
| RadixUpdate.DemotedOk | compat/net_radix/radix.c:873-908 | the sibling that replaces a vanishing node is valid in its place |
| RadixUpdate.DelInOk | compat/net_radix/radix.c:752-933 | deletion keeps the invariant below every node and removes exactly one route |
| RadixHistory.EmptyTreeIsValid | compat/net_radix/radix.c:1091-1106 | the initial tree is valid and empty |
| RadixHistory.AddRouteOk | compat/net_radix/radix.c:595-749 | rn_addroute refuses exactly a stored route, keeps the invariant, adds exactly the route |
| RadixHistory.DeleteRouteOk | compat/net_radix/radix.c:752-933 | rn_delete refuses exactly what is not stored, keeps the invariant, removes exactly the route |
| RadixHistory.Canonical | compat/net_radix/radix.c:84-120 | valid trees with the same contents are the same tree |
| RadixHistory.RoutesDetermineTree | compat/net_radix/radix.c:84-120 | the stored routes determine shape, chains and annotations |
| RadixHistory.DeleteUndoesAdd | compat/net_radix/radix.c:595-933 | deleting a route that was added gives the tree of before |
| RadixHistory.AddUndoesDelete | compat/net_radix/radix.c:595-933 | and the other way round |
| RadixHistory.RunOk | compat/net_radix/radix.c:595-933 | every run keeps the tree valid and stores exactly the remaining routes |
| RadixHistory.MatchAfterRun | compat/net_radix/radix.c:274-372 | after every run rn_match is the longest match among the remaining routes |
| RadixHistory.RunsAgree | compat/net_radix/radix.c:595-933 | runs with the same remaining routes end in the same tree |
| RadixHistory.AllOnesIsMissed | compat/net_radix/radix.c:305-320 | a default route is stored, and the all-ones address finds nothing |
| RadixPairs.HostNewOk | compat/net_radix/radix.c:423-484 | a new pair holds its leaf, and an internal node exactly if the key is new |
| RadixPairs.AddKeepsHosts | compat/net_radix/radix.c:595-675 | every leaf and every internal node lives in a pair of its own |
| RadixPairs.DropFromChain | compat/net_radix/radix.c:828-872 | when a chain goes on, exactly one of its pairs hosts an internal node again; a sentinel's chain never hosts one, so the top node is not overwritten |
| RadixPairs.DropFromOk | compat/net_radix/radix.c:828-908 | which internal node a deletion sets free, below every node |
| RadixPairs.DeleteKeepsHosts | compat/net_radix/radix.c:828-933 | after the copying of internal nodes the returned pair holds no node of the tree |
| RadixPairs.HostNewIsAdd | compat/net_radix/radix.c:595-749 | this is the insertion that is proved valid |
| RadixPairs.DropFromIsDel | compat/net_radix/radix.c:752-933 | this is the deletion that is proved valid |
| RadixPairs.AddLives | compat/net_radix/radix.c:595-749 | a valid tree in its pairs stays one when a route with a fresh pair is added |
| RadixPairs.DeleteLives | compat/net_radix/radix.c:752-933 | and when a route is deleted: the tree then lives in the other pairs alone, and the returned one may be freed |
| RadixPairs.EmptyLives | compat/net_radix/radix.c:1091-1106 | the initial tree lives in the base allocation |
| RadixTree.NextIsNext | compat/net_radix/radix.c:1061-1068 | up while coming from the right, then right and left: the next leaf in the order of keys |
| RadixTree.RadixHead.NextLeaf | compat/net_radix/radix.c:1061-1068 | the climb and the descent as loops find this leaf |
| RadixTree.RadixHead.constructor | compat/net_radix/radix.c:1122-1158 | an empty valid tree |
| RadixTree.RadixHead.FindLeaf | compat/net_radix/radix.c:145-157 | the loop finds the leaf of the search |
| RadixTree.RadixHead.ScanNode | compat/net_radix/radix.c:356-369 | the loop over an annotation list |
| RadixTree.RadixHead.Match | compat/net_radix/radix.c:274-372 | descent and climb as loops return the longest match |
| RadixTree.RadixHead.AddMask | compat/net_radix/radix.c:514-524 | masks are entered once, never removed, and need memory when new |
| RadixTree.RadixHead.AddRoute | compat/net_radix/radix.c:595-749 | succeeds iff the route is new and its mask can be entered; then the tree is the one proved valid |
| RadixTree.RadixHead.DeleteRoute | compat/net_radix/radix.c:752-933 | succeeds iff the route is stored; exactly it leaves |
| RadixTree.RadixHead.Lookup | compat/net_radix/radix.c:212-250 | exactly the stored route |
| RadixTree.RadixHead.DeleteAll | compat/net_radix/radix.c:1045-1081 | the deleting walk meets every route exactly once, in order of keys and most specific first; only a route to all ones stays |
| RouteTable.RouteTable.constructor | src/net/radix.c:169-200 | an empty table |
| RouteTable.RouteTable.DropEntry | src/net/radix.c:43-58 | the value of a leaving entry goes to on_del |
| RouteTable.RouteTable.Set | src/net/radix.c:221-254 | succeeds exactly under the source's conditions; stores the value under exactly its network, sends a replaced value to on_del; on failure nothing changes; accepted values stay conserved; its mask is known from then on |
| RouteTable.RouteTable.Unset | src/net/radix.c:256-286 | removes exactly the network, its value goes to on_del |
| RouteTable.RouteTable.LpmGet | src/net/radix.c:288-326 | the value of the longest matching network, zero exactly when there is none or the address is all ones; fill returns the network |
| RouteTable.RouteTable.Destroy | src/net/radix.c:202-219 | empties the table; every value ever accepted has then been passed to on_del exactly once |
| RouteTable.Balanced | src/net/radix.c:242-253 | replacing a reported value keeps accepted values equal to stored plus reported ones |
| NetMask.FillMask | src/net/ipaddr.c:180-189 | writes the bytes of the mask and no others |
| NetMask.MaskBytesArePrefix | src/net/ipaddr.c:180-189 | over zeros the written mask has ones exactly in its prefix |
| NetMask.ContigIsPrefix | compat/net_radix/radix.c:540-550 | the CONTIG test holds exactly for bytes that are ones followed by zeros |
| NetMask.MaskIndex | compat/net_radix/radix.c:508-555 | for every mask: the position of its first zero bit, and normal iff nothing but zeros follows |
| NetMask.WriteAndRead | src/net/radix.c:108-141 | a prefix length written as a mask is read back as a normal mask of that index |
| RbShape.HeightBound | compat/rbtree/rb.c:123-139 | paths in a red-black tree have at most 2 log2(n+1) nodes |
| RbShape.GoodIsRedBlack | compat/rbtree/rb.c:392-495 | a good focus is inside a red-black tree |
| RbShape.RedBlackIsGood | compat/rbtree/rb.c:748-810 | and every focus of a red-black tree is good |
| RbRules.RotatedSeq | compat/rbtree/rb.c:328-389 | the rotation keeps the in-order sequence |
| RbRules.InvertedOk | compat/rbtree/rb.c:421-451 | case 1 of insertion restores the rules or moves the violation up |
| RbRules.InnerToOuter | compat/rbtree/rb.c:459-475 | case 2 leads to case 3 |
| RbRules.OuterOk | compat/rbtree/rb.c:478-494 | case 3 restores the rules |
| RbRules.RedBrother | compat/rbtree/rb.c:835-854 | case 1 of removal leads to a black brother |
| RbRules.AllBlack | compat/rbtree/rb.c:855-875 | case 2 moves the deficit up, or out at the root |
| RbRules.RedFather | compat/rbtree/rb.c:881-902 | case 2b restores the rules |
| RbRules.NearNephew | compat/rbtree/rb.c:911-928 | case 3 leads to case 4 |
| RbRules.FarNephew | compat/rbtree/rb.c:929-957 | case 4 restores the rules |
| RbHeap.RotateEffect | compat/rbtree/rb.c:328-389 | every node after rb_tree_reparent_nodes, field by field |
| RbHeap.RotateOk | compat/rbtree/rb.c:328-389 | the writes in memory are the rotation of the tree, with all links, positions and colours |
| RbHeap.AddLeafOk | compat/rbtree/rb.c:250-284 | a node is linked in as a leaf |
| RbHeap.SpliceOk | compat/rbtree/rb.c:498-745 | a node with at most one child leaves and the child takes its place |
| RbHeap.ReplaceOk | compat/rbtree/rb.c:652-671 | a node takes over all links of another |
| RbSwap.SwapChild | compat/rbtree/rb.c:559-666 | the writes when the stand-in is a child of the node |
| RbSwap.SwapDeep | compat/rbtree/rb.c:559-666 | the writes when it is deeper down |
| RbSwap.SwapOk | compat/rbtree/rb.c:550-693 | after the swap the stand-in is in the node's place and its son in its own, all links correct |
| RbTree.RbTree.constructor | compat/rbtree/rb.c:101-120 | an empty valid tree |
| RbTree.RbTree.Find | compat/rbtree/rb.c:123-139 | exactly the node equal to the key, in at most 2 log2(n+1) steps |
| RbTree.RbTree.FindGeq | compat/rbtree/rb.c:142-160 | the least node not below the key |
| RbTree.RbTree.FindLeq | compat/rbtree/rb.c:163-181 | the greatest node not above the key |
| RbTree.RbTree.RaiseRed | compat/rbtree/rb.c:405-452 | the loop of the insertion rebalance terminates and keeps the sequence |
| RbTree.RbTree.RotateOut | compat/rbtree/rb.c:454-494 | cases 2 and 3 restore the rules; painting the root changes nothing |
| RbTree.RbTree.InsertRebalance | compat/rbtree/rb.c:392-495 | a red-black tree again, with the same sequence |
| RbTree.RbTree.Insert | compat/rbtree/rb.c:184-318 | if there is an equal node, or the node itself, it is returned and nothing changes; if not, the tree is red-black, sorted, with exactly one more node and correct extremes |
| RbTree.RbTree.RemovalRebalance | compat/rbtree/rb.c:813-961 | terminates with a red-black tree and the same sequence; its loop test never fails |
| RbTree.RbTree.PruneNode | compat/rbtree/rb.c:498-544 | a childless node leaves |
| RbTree.RbTree.PruneBlackRed | compat/rbtree/rb.c:703-745 | a node with one child leaves |
| RbTree.RbTree.SwapPruneAndRebalance | compat/rbtree/rb.c:550-693 | a node with two children leaves |
| RbTree.RbTree.Remove | compat/rbtree/rb.c:748-810 | in every case a valid red-black tree with the sequence minus exactly the node, links and cached extremes correct |
| RbTree.RbTree.Extreme | compat/rbtree/rb.c:972-985 | the cached minimum and maximum are the true ones |
| RbTree.RbTree.Iterate | compat/rbtree/rb.c:964-1010 | exactly the in-order neighbour |
| RbTree.RbTree.RemoveAll | include/nebase/compat/rbtree/sys/rbtree.h:111-114 | a safe loop that removes each node visits all of them once in order and ends with an empty tree |
| TimerState.NewPointOk | src/evdp/timer.c:194-213 | keeps the invariant; fails exactly without memory; the new point waits at its time |
| TimerState.DelPointOk | src/evdp/timer.c:215-231 | keeps the invariant iff it takes away no node that a running point was reset to |
| TimerState.ResetPointOk | src/evdp/timer.c:233-261 | keeps the invariant under the same condition, iff |
| TimerState.CheckedDelOk | src/evdp/timer.c:87-96 | a node leaves the tree for the cache iff its list is empty and it is not flagged, else nothing changes; it may go iff nobody runs who will land on it |
| TimerState.ObtainedOk | src/evdp/timer.c:196-204 | the node for a time is unique; node memory is in use or cached, never both |
| TimerState.LiftedOk | src/evdp/timer.c:288-290 | taking a point out of its list keeps the invariant |
| TimerState.LandedOk | src/evdp/timer.c:302-310 | putting it into the list it refers to keeps the invariant |
| TimerState.FreedOk | src/evdp/timer.c:40-48 | giving it back keeps the invariant and the cache bound |
| TimerRun.DelPointMeans | src/evdp/timer.c:215-231 | the point is gone, or will be when its callback returns; no other point changes |
| TimerRun.ResetPointMeans | src/evdp/timer.c:233-261 | succeeds exactly with memory; the point then refers to the node of the new time; no other point changes |
| TimerRun.ReturnedOk | src/evdp/timer.c:292-312 | after a callback the point stays exactly if it was not deleted and is to be kept; it waits where it was reset to, or in the keep list; the invariant holds |
| TimerRun.ExecOk | src/evdp/timer.c:194-261 | every call on live points keeps each point in exactly one place and the caches in bounds, iff it is harmless |
| TimerRun.CallsKeepInvariant | src/evdp/timer.c:194-261 | outside callbacks every run of calls on live points goes through and keeps the invariant |
| TimerRun.TrackedCall | src/evdp/timer.c:291-291 | a call in a callback changes nothing for points it is not about |
| TimerRun.TrackedFired | src/evdp/timer.c:288-290 | a point that is fired was due and had not been fired, and it is recorded with its own time |
| TimerRun.TrackedReturned | src/evdp/timer.c:292-312 | after its callback a point is gone, kept, or where it was reset to |
| TimerRun.TrackedDone | src/evdp/timer.c:314-318 | the step to the next node passes over nothing that is due |
| TimerRun.ResetThenKept | src/evdp/timer.c:233-310 | a running point that is reset with success and kept waits for the new time iff that is not the time being served; else it is in the keep list |
| TimerRun.DanglingNode | src/evdp/timer.c:87-96 | a callback whose calls are all on live points, and which leaves a dangling reference |
| TimerEffect.ObtainedEffect | src/evdp/timer.c:50-85 | the node of a time, or a new one from the end of the cache or from calloc; an unused one is the last entry of the cache iff there is room |
| TimerEffect.NewPointEffect | src/evdp/timer.c:194-213 | the new point is the head of the list of the node of its time; without memory for a node nothing changes, without memory for the point at most an empty node is new |
| TimerEffect.DelPointEffect | src/evdp/timer.c:215-231 | a waiting point leaves its list, whose order stays; its node leaves iff it was the only one there and the node is not flagged; point and node are the last entries of their caches iff there is room |
| TimerEffect.ResetPointEffect | src/evdp/timer.c:233-261 | a waiting point becomes the head of the list of its new node and leaves the old list, with the old node under the same condition; a running one, or one that is there already, only refers to the node; without memory nothing changes |
| TimerEffect.ExecEffect | src/evdp/timer.c:194-261 | each call of a callback does this, with its own arguments |
| TimerEffect.LiftedEffect | src/evdp/timer.c:288-290 | the head of the list is taken out and runs |
| TimerEffect.ReturnedEffect | src/evdp/timer.c:292-312 | after its callback a point is the last entry of the cache iff there is room, or the head of the keep list, or the head of the list of its new node |
| TimerEffect.NodeDoneEffect | src/evdp/timer.c:314-318 | a node that is done leaves the tree and is the last entry of the cache iff there is room |
| TimerPass.StepIsSound | src/evdp/timer.c:282-318 | every step of a pass keeps each point in exactly one place, exactly the called point running, and the current node due and protected |
| TimerPass.PassIsSound | src/evdp/timer.c:278-322 | so does every pass, to its end |
| TimerPass.PassIsRecorded | src/evdp/timer.c:278-322 | at every moment of a pass the firings are in nondecreasing time and none is beyond the current one; every point that no call was about is untouched and still ahead, or was due and was fired once for its time |
| TimerPass.PassOutcome | src/evdp/timer.c:278-322 | when a pass is over, every point due at entry that no callback deleted or reset was fired exactly once, for its time, and every other one is as it was |
| TimerPass.DueIsFired | src/evdp/timer.c:278-322 | every point due at entry is fired for its time, unless a callback deletes or resets it before it was fired |
| TimerPass.FiringIsReal | src/evdp/timer.c:286-293 | every entry of the log is the firing of the head of the list of a due node |
| TimerPass.StepLog | src/evdp/timer.c:286-293 | the log grows by one with each firing and not otherwise |
| TimerPass.TouchedIsAimed | src/evdp/timer.c:291-291 | only points that are named in a call of a callback count as deleted or reset |
| TimerPass.LeftOver | src/evdp/timer.c:282-318 | a finished pass leaves a node that is due iff a New or Reset of a callback made it when the pass was at a later time, and no call took it away again |
| TimerPass.NothingDueIsLeft | src/evdp/timer.c:282-318 | if callbacks arm only for times after the end of the pass, no node that is due is left |
| TimerPass.EarlierWaits | src/evdp/timer.c:282-318 | a pass up to time 10 that is over while a point waits for time 5 |
| TimerPass.PassEnds | src/evdp/timer.c:278-322 | every pass can be carried on until it is over or stands before a call that must not be made; none goes on for ever |
| TimerPass.PassIsUnique | src/evdp/timer.c:278-322 | timer, time and callbacks determine the whole pass |
| TimerPass.StuckMeans | src/evdp/timer.c:215-261 | a call on a live point must not be made iff it deletes or moves the only point on the node to which the running point was reset |
| TimerPass.NeverStuck | src/evdp/timer.c:278-322 | if no callback resets a point, every call on a live point may be made |
| EvTimer.EvTimer.constructor | src/evdp/timer.c:130-161 | an empty timer with empty caches |
| EvTimer.EvTimer.NewPoint | src/evdp/timer.c:194-213 | the state proved to keep the invariant, with the effect of NewPointEffect |
| EvTimer.EvTimer.DelPoint | src/evdp/timer.c:215-231 | the state of the deletion, with the effect of DelPointEffect |
| EvTimer.EvTimer.ResetPoint | src/evdp/timer.c:233-261 | succeeds iff there is memory for a node, with the effect of ResetPointEffect |
| EvTimer.EvTimer.Nearest | src/evdp/timer.c:263-276 | -1 iff there is no node, zero iff one is due, else exactly the time until the earliest node |
| EvTimer.EvTimer.RunScript | src/evdp/timer.c:291-291 | the calls of a callback, step by step of the pass; it stops only before a call that must not be made in the state reached |
| EvTimer.EvTimer.Return | src/evdp/timer.c:292-312 | what happens to the point when its callback has returned, with the effect of ReturnedEffect |
| EvTimer.EvTimer.FireHead | src/evdp/timer.c:288-313 | one callback: the record grows by exactly the head of the list with the time of its node, and the pass goes on at the node or stops before a call that must not be made |
| EvTimer.EvTimer.RunNode | src/evdp/timer.c:286-314 | callbacks until the list of the node is empty; the count is the length of the record |
| EvTimer.EvTimer.LeaveNode | src/evdp/timer.c:314-318 | the node leaves the tree for the cache, and the next one in time is looked at |
| EvTimer.EvTimer.RunUntil | src/evdp/timer.c:278-322 | follows the one pass of this timer, time and callbacks to its end and returns the number of firings, with what PassOutcome says of it; or stops in the state in which the next call of the callback under way must not be made |
| TimerOrder.CmpIsNanos | src/evdp/timer.c:98-128 | comparing seconds, then nanoseconds, is comparing times |
| TimerOrder.WaitFor | src/evdp/timer.c:263-276 | the time left until the earliest node in seconds and nanoseconds, with borrow: the difference in nanoseconds, or zero |
| TimerOrder.CompareIsOrder | src/evdp/timer.c:106-116 | the comparison is a total preorder, as the tree needs |
| TimerOrder.KeyIsCut | src/evdp/timer.c:118-128 | a search for a time is one the tree can answer |
| ObstackState.AlignUpOk | include/nebase/compat/obstack/gnulib/obstack.h:136-147 | the least multiple of the alignment from the address on |
| ObstackState.ObjectsAreDisjoint | compat/obstack/obstack.c:180-229 | finished objects share no byte |
| ObstackState.ObjectIsPlaced | include/nebase/compat/obstack/gnulib/obstack.h:414-427 | non-empty objects are aligned and apart from the growing one |
| ObstackState.NewChunkOk | compat/obstack/obstack.c:181-229 | the growing object moves with all its bytes and room for more; finished objects stay, byte for byte; a chunk with objects is not given back |
| ObstackState.NewChunkHasEffect | compat/obstack/obstack.c:181-229 | size of the new chunk, the first aligned address behind its header, the bytes that change, and that the old chunk leaves iff the growing object is all it holds |
| ObstackState.GrownOk | include/nebase/compat/obstack/gnulib/obstack.h:324-332 | bytes are appended to the growing object, no finished one changes |
| ObstackState.FinishedOk | include/nebase/compat/obstack/gnulib/obstack.h:414-427 | the growing object becomes the newest finished one; the next begins at the least aligned address, or at the end of the chunk if that lies beyond; an empty object is noted; nothing else changes |
| ObstackState.SearchFindsChunk | compat/obstack/obstack.c:266-278 | the search passes over exactly the newer chunks |
| ObstackState.QuickTestIsRight | include/nebase/compat/obstack/gnulib/obstack.h:429-436 | the shortcut of the macro is taken only for objects of the current chunk |
| ObstackState.FreedFromOk | compat/obstack/obstack.c:261-288 | what is left after a free is valid: the chunks up to that of the object, an object growing at its address, and a note if chunks have left |
| ObstackState.BegunOk | compat/obstack/obstack.c:108-146 | the first chunk is valid iff it holds its header; the first object begins at the least aligned address behind it |
| Obstack.ObstackHead.constructor | compat/obstack/obstack.c:108-146 | an empty obstack of one chunk with the default size and alignment, its object at the least aligned address behind the header |
| Obstack.ObstackHead.AddChunk | compat/obstack/obstack.c:181-229 | the growing object is preserved, objects stay, there is room; chunks are conserved; size, place and departure of the old chunk as NewChunkHasEffect says |
| Obstack.ObstackHead.MakeRoom | include/nebase/compat/obstack/gnulib/obstack.h:308-315 | a new chunk iff the room does not suffice, else nothing changes |
| Obstack.ObstackHead.Grow | include/nebase/compat/obstack/gnulib/obstack.h:324-332 | appends the bytes, in place iff there is room, and changes no other byte |
| Obstack.ObstackHead.Blank | include/nebase/compat/obstack/gnulib/obstack.h:386-392 | makes the object longer, in place iff there is room, and keeps what is there |
| Obstack.ObstackHead.Finish | include/nebase/compat/obstack/gnulib/obstack.h:414-427 | returns the address at which the object stays; the next one begins at the least aligned address after it, or at the end of the chunk; chunks and memory stay |
| Obstack.ObstackHead.Free | include/nebase/compat/obstack/gnulib/obstack.h:429-436 | discards exactly the object and everything newer; an object grows at its address again; memory is not written |
| Obstack.ObstackHead.FreeChunks | compat/obstack/obstack.c:261-288 | gives back exactly the newer chunks and does not reach the abort |

## Left out

- BoyerMoore.SearchContext.constructor: the failing allocation of the context, after which there is none.
- HashTable.NewTableIsValid: the bucket count that hash_initialize computes from the tuning is given from outside.
- HashTable.HashTable.constructor: the same, and the failing allocations of hash_initialize, after which there is no table.
- RadixUpdate.AddInOk: the tree below a node is a value that is rebuilt; the writes to rn_parent, rn_dupedkey and the annotation lists are not captured one by one.
- RadixUpdate.DelInOk: the same; nor the messages of rn_delete about a missing annotation: a valid tree has all of them.
- RadixHistory.AddRouteOk: as RadixUpdate.AddInOk; memory for the annotation is taken for granted.
- RadixHistory.DeleteRouteOk: as RadixUpdate.DelInOk.
- RadixTree.NextIsNext: the order of leaves on the tree value; RadixTree.RadixHead.NextLeaf climbs over the path from the top where the source follows rn_parent.
- RadixTree.RadixHead.DeleteAll: the same.
- RadixTree.RadixHead.constructor: the failing allocations of rn_inithead, after which there is no tree.
- RadixTree.RadixHead.AddRoute: the tree is a value that is rebuilt along the path; parent pointers are not captured, but RadixPairs follows which allocated pair every node lives in.
- RadixTree.RadixHead.DeleteRoute: the same; nor is a failing allocation of an annotation (rn_new_radix_mask) captured, after which the source goes on without it.
- RadixTree.RadixHead.AddMask: masks are entered in a set; the second radix tree in which the source keeps them is not modelled.
- Radix: non-contiguous masks and host routes without a mask, which the route table never creates; rn_walktree_from.
- RouteTable.RouteTable.constructor: address families other than IPv4 and IPv6, and failing allocations; the source returns NULL for both.
- RouteTable.RouteTable.Set: an address with bits set outside the prefix. neb_net_radix_tree_set accepts it and copies the bits unmasked into the key (src/net/radix.c:61-105); the radix code assumes them to be zero, and so does the model.
- RouteTable.RouteTable.Destroy: the values passed to on_del are listed after the whole walk, in its order, instead of between its steps.
- RouteTable.RouteTable.Unset: prefix lengths above the address width, for which the source writes past its buffer.
- Hash table: tuning by floating point (the new size is arbitrary), is_prime and next_prime, hash_string, obstack-backed cells, statistics and printing.
- Red-black tree: the packing of colour, position and father into one word, and the debugging and statistics code.
- EvTimer.EvTimer.RunUntil: stops at the first call that a callback must not make (a dead point, or a node that is awaited), where the source goes on with freed memory.
- EvTimer.EvTimer.Nearest: times are single numbers here; the subtraction of timespecs with its borrow is TimerOrder.WaitFor.
- EvTimer.EvTimer.constructor: the failing allocations of neb_evdp_timer_create, after which there is no timer.
- neb_evdp_timer_destroy, which only frees memory.
- Obstack.ObstackHead.constructor: chunk sizes below header and alignment, which _obstack_begin accepts; ObstackState.BegunOk covers them.
- Obstack: size overflow, obstack_free with a null pointer, obstack_grow0 and the other grow variants, memory accounting.
- ObstackState.AlignUpOk: the bit mask of the macro is written as division, which is the same for powers of two.
- Checksum: lengths that do not fit the fields of the packet other than by truncation to 16 bits.
- Everything else in nebase: event queue and drivers, sockets, files, processes, random pool, plugins, logging.
