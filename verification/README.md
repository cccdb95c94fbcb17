# u80211 in Dafny

A model of the u80211 station layer and proofs about it. `dafny verify dfyconfig.toml` checks it.

| files | what they model |
|---|---|
| `red_black_theory.dfy`, `rb_tree.dfy` | the red-black tree: a theory of trees and paths, and the linked nodes that the code rewrites in place |
| `bss_cache.dfy`, `cache_runs.dfy` | the cache of access points on that tree, with reference counts, and any interleaving of a purge with those who hold references |
| `association.dfy`, `association_runs.dfy` | the critical sections of association, and any interleaving of them |
| `ring_buffer.dfy`, `scan.dfy`, `scan_runs.dfy` | the byte ring, the beacons framed onto it, and any interleaving of scanning |
| `linked_list.dfy`, `packet_numbers.dfy`, `key_store.dfy`, `key_runs.dfy` | the key list, the counters, the key store, and whole runs of it |
| `michael.dfy` | the Michael code (section 12.5.2.3 of IEEE Std 802.11-2016) |
| `rates.dfy`, `headers.dfy`, `frames.dfy`, `on_the_air.dfy` | information elements, headers, Ethernet over 802.11 in both directions, and what that is in bytes |
| `bytes.dfy`, `options.dfy` | bytes, little-endian numbers, bits, and writing into buffers; a value that may be absent |

## How to read it

Code that changes things in place is a class or a method on arrays whose contract gives the new state
as a function of the old one; lemmas prove what the source promises about those functions. A protocol
is a state machine over its steps: one step is one critical section or one action outside the lock,
and the main results are about every state that any sequence of steps can reach.

- **Tree.** A place in a tree is a path and a subtree, so that a rotation or a fix-up deep in the tree
  is one small change. `RbTree.Focus` says that the heap nodes are linked as such a pair. The colour is
  a field rather than the low bit of the parent pointer.
- **Cache.** `contents` is the map the cache means. Every cached access point has a reference count of one plus
  the references handed out. `container` stands for `container_of`. In
  `CacheRuns` a purge is a walk of single steps, with holders taking and releasing references between any two.
- **Association.** The sections are functions on `Device`, and the methods of `Station` are proved equal to them.
  Timers are events for any context at any time, so stale ones are included. A cleanup request is a
  thread past its section, which enqueues later and may be coalesced; a run of the work clears the pending
  mark when it starts, and may find nothing to do.
- **Scanning.** The buffer's bytes always are whole records. A beacon header is its 80 bytes as laid out where
  pointers and sizes take eight bytes. The channel rules are any table of 14.
- **Keys and frames.** A key list is a linked list on the heap and a sequence of key values in the contracts. `Transmission` and `Received`
  describe sending and receiving as functions on key values and bytes; the buffer methods are proved equal to them, and
  `OnTheAir` says in bytes and numbers, without naming their parts, what they send, open, drop and hand up.

## What the proofs found

- References to access points are conserved if and only if no association is torn down while an
  earlier disconnected access point still waits to be released (`StepConserves`). The code lets that happen when an
  associate call begins while associated, and `ReferenceCanBeLost` is such a run, from the initial state on: `disconnected_ap` is
  overwritten at `src/association.c:135`. When callers keep associate calls apart, it cannot happen (`RunConserves`).
- Each context is destroyed exactly once because runs of one work item do not overlap. `include/u80211/kernel_interface.h:80-82` does not
  say so, although `tests/kernel_interface.c` runs a work item on one thread of its own. `OverlappingRunsDestroyTwice` shows what overlapping runs would do.
- Packet numbers are disciplined for each key from the moment it is set (`PacketNumbersAreDisciplined`), but not for key bytes: setting a
  key starts its counter again, at `src/key.c:71`. Set, send, set again, send hands out 1 twice under the same bytes (`SettingAgainRepeats`).
  Two keys ever set share a number exactly when something was sent under each (`SharedExactly`). No number repeats under the same bytes
  when each key is set only while no other key in the store has its bytes and nothing was ever sent under them (`CarefulRunsRepeatNothing`);
  it is not enough that nothing was sent under them yet (`TwoPeersRepeat`), and breaking the rule repeats a number as soon as the keys
  are used (`CarelessSetRepeats`).

## Model

| member | source | states |
|---|---|---|
| RedBlack.InsertIsRedBlack | src/rbtree.c:117-219 | inserting into any red-black tree leaves a red-black tree: black root, no red node with a red child, equal black heights |
| RedBlack.InsertInOrder | src/rbtree.c:117-142 | the in-order sequence after an insert is the old one with the node at its sorted place, after all nodes it compares above and before the others |
| RedBlack.InsertNodes | src/rbtree.c:117-142 | an insert adds exactly the one node |
| RedBlack.FixInsertInOrder | src/rbtree.c:143-219 | recolouring and rotating upwards, however far it goes, never changes the in-order sequence |
| RedBlack.FixInsertRedBlack | src/rbtree.c:143-219 | the upward loop repairs every red-red violation with black heights kept |
| RedBlack.FixPathFits | src/rbtree.c:358-480 | the black-leaf fix-up, from any node short of one black, makes the rest of the tree fit a subtree one black lower, whatever case it ends in |
| RedBlack.FixPathInOrder | src/rbtree.c:358-480 | the black-leaf fix-up never changes the in-order sequence |
| RedBlack.RemoveIsRedBlack | src/rbtree.c:490-555 | removing any node (leaf, one child, two children with the successor near or far) from a red-black tree leaves a red-black tree |
| RedBlack.RemoveInOrder | src/rbtree.c:490-555 | the in-order sequence after a removal is what was before the node followed by what was after it, with the two-child swap undone by the removal |
| RedBlack.RemoveLeavesTheRest | src/rbtree.c:490-555 | a removal takes exactly that node out of the sequence and out of the set of nodes |
| RedBlack.SwapIsRedBlack | src/rbtree.c:512-551 | relinking a node with its successor, colours exchanged, keeps the tree red-black around the node |
| RedBlack.SpineInOrder | src/rbtree.c:515-516 | the successor of a node with two children is the leftmost node of its right subtree, and everything else keeps its place |
| RedBlack.HeightBound | src/rbtree.c:117-135 | in any red-black tree the height is at most twice the black height, and 2 to the black height is at most the node count plus one |
| RedBlack.StepsBound | src/rbtree.c:103-135 | a descent of at most the height takes at most 2*log2(n+1) steps on n nodes |
| RedBlack.FollowsSurvivesRemoval | src/bss_cache.c:70-81 | the successor taken before a removal is still a node afterwards, and then follows the removed node's predecessor |
| RedBlack.FollowsUnique | src/rbtree.c:293-341 | what follows a node in order is determined, so that successor and predecessor invert one another |
| RedBlack.AscendingIsOrdered | src/rbtree.c:103-115 | in a tree with ascending keys, comparing one key along the sequence gives positive, then at most one zero, then negative |
| RbTrees.RbTree.RotateRight | src/rbtree.c:15-48 | the pointer rotation is the rotation of the tree, for a subtree at any place, with parent links consistent |
| RbTrees.RbTree.RotateLeft | src/rbtree.c:50-83 | the mirror image |
| RbTrees.RbTree.FixUp | src/rbtree.c:143-218 | the recolouring loop ends, never meets a red parent without a grandparent, and yields the repaired tree |
| RbTrees.RbTree.Insert | src/rbtree.c:117-219 | the linked tree afterwards is the specified one, still valid, after a descent of at most its height |
| RbTrees.RbTree.FixRemove | src/rbtree.c:358-479 | the loop ends; the sibling and the nephews it dereferences are never null; the linked tree afterwards is the specified one |
| RbTrees.RbTree.Settle | src/rbtree.c:380-419 | the red-sibling rotation and the red-parent recolouring, on links, are the specified steps |
| RbTrees.RbTree.Borrow | src/rbtree.c:421-479 | the one or two rotations around a red nephew, with their recolouring, on links, are the specified steps |
| RbTrees.RbTree.RemoveLeaf | src/rbtree.c:343-488 | a leaf goes, red or black, root or not |
| RbTrees.RbTree.RemoveWithChild | src/rbtree.c:495-509 | a node with one child is replaced by that child, coloured black |
| RbTrees.RbTree.SwapWithSuccessor | src/rbtree.c:512-551 | a node with two children changes places with its successor by relinking, adjacent or not; no key is copied |
| RbTrees.RbTree.Remove | src/rbtree.c:490-555 | the tree stays valid and red-black, exactly that node is gone, and the order of the others is kept |
| RbTrees.RbTree.Lookup | src/rbtree.c:103-115 | returns a node with an equal key, or null exactly when there is none, within the height of the tree |
| RbTrees.RbTree.FindFirstLargerEqual | src/rbtree.c:85-101 | returns the least node not below the key, or null when every node is below it |
| RbTrees.RbTree.FirstNode | src/rbtree.c:278-283 | the first node in order |
| RbTrees.RbTree.LastNode | src/rbtree.c:285-290 | the last node in order |
| RbTrees.RbTree.Successor | src/rbtree.c:293-316 | the node that follows in order, or null after the last: walking from the first enumerates the sequence |
| RbTrees.RbTree.Predecessor | src/rbtree.c:318-341 | the node this one follows, or null before the first |
| MacOrder.CompareBytes | src/bss_cache.c:9-18 | the byte loop is negative exactly when, at the first byte where two addresses differ, the first has the lower; zero exactly for equal ones; positive exactly the other way round |
| MacOrder.CompareIsLower | src/bss_cache.c:9-31 | the comparison the tree uses is negative exactly for the address with the lower first differing byte |
| MacOrder.CompareIsTotalOrder | src/bss_cache.c:9-31 | that comparison is a total order with results -1, 0 and 1, as the tree needs |
| MacOrder.CompareEqual | src/bss_cache.c:9-31 | it is zero exactly for equal addresses |
| BssCaches.AccessPoint.Hold | include/u80211/ap.h:23-25 | one more reference |
| BssCaches.AccessPoint.Release | include/u80211/ap.h:27-30 | one fewer, and freed exactly when none is left |
| BssCaches.BssCache.constructor | src/bss_cache.c:33-42 | an empty cache means the empty map |
| BssCaches.BssCache.Search | src/bss_cache.c:86-95 | tree lookup by address agrees with the map the cache means |
| BssCaches.BssCache.Insert | src/bss_cache.c:86-101 | adds the access point unless its address is present, which is never replaced; takes one reference exactly when it adds |
| BssCaches.BssCache.Remove | src/bss_cache.c:103-120 | takes the address out of the map, drops the cache's reference once, touches no other access point |
| BssCaches.BssCache.Find | src/bss_cache.c:122-138 | hands out a reference to exactly the access point the map has, or null |
| BssCaches.BssCache.GiveBack | include/u80211/ap.h:27-30 | giving back a reference to a cached access point never frees it and keeps the cache valid |
| BssCaches.BssCache.Purge | src/bss_cache.c:65-84 | keeps exactly the access points whose reference count was not 1, each with its count; frees the others; every entry is visited once |
| CacheRuns.StepKeeps | src/bss_cache.c:65-138 | every step of every interleaving of holders, the cache calls and the steps of a purge keeps the counts, the entries and the place of the walk |
| CacheRuns.ReachableIsCounted | src/bss_cache.c:65-138 | in every reachable state, in the middle of a purge too: a count is the references there are; what is cached or held has not been freed, and what is neither was freed exactly once |
| CacheRuns.LookReadsHolders | src/bss_cache.c:76 | a purge reads a count of 1 exactly when nobody outside the cache holds a reference at that moment |
| CacheRuns.OneIsStable | src/bss_cache.c:76-80 | between reading a count of 1 and dropping the entry, whatever others do, the count stays 1 |
| CacheRuns.PurgedExactly | src/bss_cache.c:65-84 | whatever is held and released meanwhile: a purge visits each entry there was exactly once, in order, keeps exactly those whose count it did not read as 1, and the others have been freed once |
| BssCaches.BssCache.PurgeMovesOn | src/bss_cache.c:70-81 | whether the current node stays or goes, the successor fetched before is where the walk goes on, and no entry is skipped |
| BssCaches.BssCache.Deinit | src/bss_cache.c:44-63 | empties the cache; every access point in it loses the cache's reference exactly once |
| BssCaches.BssCache.GetAps | src/bss_cache.c:140-156 | copies out min(capacity, size) access points: those with the lowest addresses, by the first differing byte, in strictly ascending order, one reference each and no other count changed |
| BssCaches.BssCache.GetCount | src/bss_cache.c:158-165 | the count is the size of the map |
| BssCaches.BssCache.CountIsSize | src/bss_cache.c:86-120 | entry_count equals the size of the map in every valid state |
| BssCaches.ReleaseHeld | include/u80211/ap.h:27-30 | a holder's release keeps the count equal to cached plus handed out, and frees the access point exactly with the last one |
| Association.Station.SetState | include/u80211/u80211.h:77-79 | compare and swap of the state word |
| Association.Station.ScheduleCleanup | src/association.c:105-109 | moves the context to the cleanup fields |
| Association.Station.TakeDisconnectedAp | src/association.c:68-78 | the section of release_disconnected_ap |
| Association.Station.PublishContext | src/association.c:332-347 | the second section of an associate call, refused while a cleanup is pending or the device is not down; the last received sequence control is forgotten |
| Association.Station.IsDuplicate | src/association.c:51-66 | the duplicate filter for the frames of one state |
| Association.RepetitionsExactly | src/association.c:51-66 | the first frame of an attempt is never taken for a repetition; later ones are exactly when they are retransmissions with the number of the frame before |
| Association.GenerationMovesOn | src/association.c:105-211 | whatever ends an attempt or an association moves the generation on by one modulo 2^32, and nothing else does; a timer of another generation does nothing |
| Association.Station.ProcessAuthentication | src/association.c:226-261 | the section for an authentication frame |
| Association.Station.ProcessResponse | src/association.c:156-185 | the section for an association response |
| Association.Station.TimeOut | src/association.c:187-211 | the section for a timer |
| Association.Station.ProcessTeardown | src/association.c:111-146 | the section for deauthentication and disassociation frames |
| Association.Station.BeginLeave | src/association.c:369-384 | the first section of leaving: it goes on exactly when associated |
| Association.Station.EndLeave | src/association.c:389-396 | the second section of leaving: the device goes down and the access point is the caller's to release |
| Association.Station.EndCleanup | src/association.c:31-38 | every listed waiter is woken, in order, with the one result |
| Association.Station.WaitFor | src/association.c:417-428 | a caller is answered at once exactly when there is no attempt and no cleanup pending, and then with the stored result; otherwise it joins the list |
| Association.ReactionAdvances | src/association.c:105-261 | any frame or timer does nothing, moves to the next phase, ends the attempt in progress with one cleanup, or ends an established association; the device invariant is kept |
| Association.ExpireOnlyItsAttempt | src/association.c:187-211 | a timer acts exactly on the attempt and the phase it was started for; a stale one changes nothing |
| Association.OutcomesExactly | src/association.c:111-261 | during an attempt, success comes exactly from its access point accepting it in the second phase, a time-out exactly from its own timer in its own phase, a rejection exactly from its access point refusing or deauthenticating; it moves on exactly when authentication succeeds; frames of others change nothing |
| Association.SettledExactly | src/association.c:111-146 | outside an attempt nothing changes except that its access point takes down an association |
| Association.ScanCannotRaceTeardown | src/association.c:119-125 | a scan that starts or ends between the two state accesses of a teardown does not change what it does |
| AssociationRuns.StepKeeps | src/association.c:68-433 | every step of every interleaving (frames, timers, callers, scans, the cleanup work) keeps the whole invariant |
| AssociationRuns.ReachableIsSound | src/association.c:80-433 | in every reachable state: an attempt exactly when there is a context, with the right access point, generation and no cleanup pending; no scan overlaps; each context destroyed exactly once or still live; each woken waiter got the outcome of the attempt it waited on, and each listed one waits on an attempt not yet cleaned up |
| AssociationRuns.OutcomesAreFinal | src/association.c:105-261 | the outcome of an attempt never changes once there |
| AssociationRuns.AttemptEndsWithOutcome | src/association.c:105-261 | an attempt stops being current only by a completion that records its outcome and passes its context to the cleanup |
| AssociationRuns.PendingCleanupIsStable | src/association.c:80-103 | while a cleanup is pending its context and result cannot change and no waiter is lost, so the cleanup context is never overwritten |
| AssociationRuns.WaitersAreServed | src/association.c:404-433 | over any run, a listed waiter is still listed on the same attempt, or was woken with the outcome of that attempt |
| AssociationRuns.LateCallerIsAnswered | src/association.c:417-425 | in every state a caller is answered at once exactly when there is no attempt and no cleanup pending, with how the last attempt ended |
| AssociationRuns.LateCallersGotTheOutcome | src/association.c:404-433 | over any run, whoever was answered at once got the outcome of the attempt published last before, or an unknown error when there had been none |
| AssociationRuns.LeavingWaits | src/association.c:369-396 | whatever happens between the two sections of leaving, the device keeps its state and its access point |
| AssociationRuns.LeavingEnds | src/association.c:369-396 | so leaving ends the association it began on: the device is down, and its reference is the caller's to release |
| AssociationRuns.CleanupFinishes | src/association.c:80-103 | a pending cleanup can always run to its end without waiting for anyone; then its context has been destroyed once and every waiter woken with its outcome |
| AssociationRuns.WorkGoesOn | include/u80211/kernel_interface.h:80-82 | even with coalesced or spurious requests, a pending cleanup always has a run queued, under way or about to be requested |
| AssociationRuns.NobodySetsBack | src/association.c:80-103 | no step of anyone takes a pending cleanup further from its end |
| AssociationRuns.FairRunsFinish | src/association.c:80-103 | in any interleaving, after at most six steps of the cleanup work the pending cleanup is over: its context destroyed once and every waiter woken with its outcome |
| AssociationRuns.OverlappingRunsDestroyTwice | src/association.c:80-103 | two overlapping runs of the work would take one context and destroy it twice: the exact assumption the code makes on its work queue |
| AssociationRuns.StepConserves | src/association.c:68-402 | references held on an access point stay equal to those owed, step by step, for one access point, if and only if the step does not tear down an association while that access point still waits to be released as disconnected (it may be the same one again) |
| AssociationRuns.StepInOrder | src/association.c:267-346 | with associate calls one at a time and not during an attempt or association, that step cannot happen |
| AssociationRuns.RunConserves | src/association.c:68-402 | over whole runs in which callers keep that rule, no reference is lost or released twice |
| AssociationRuns.DisorderLosesReference | src/association.c:134-139 | without that rule, from any state that keeps the invariant with an associate call begun while associated, no cleanup pending and no disconnected access point waiting, five steps lose one |
| AssociationRuns.ReferenceCanBeLost | src/association.c:267-346 | such a state is reachable: a whole run from the initial state after which one reference is held that nothing owes |
| RingBuffers.WindowIsTwoPieces | src/ringbuffer.c:43-55 | bytes from any position on, around the end, are at most two pieces of the array |
| RingBuffers.WrittenExtends | src/ringbuffer.c:75-87 | writing after the contents extends them and disturbs none of them, wherever the wrap falls |
| RingBuffers.RingBuffer.Init | src/ringbuffer.c:9-26 | an empty queue of that size, refused exactly when the size is zero or there is no memory |
| RingBuffers.RingBuffer.Read | src/ringbuffer.c:43-55 | hands out and drops the longest available prefix |
| RingBuffers.RingBuffer.Peek | src/ringbuffer.c:57-73 | hands out the slice at an offset, and changes nothing |
| RingBuffers.RingBuffer.Write | src/ringbuffer.c:75-87 | appends the longest prefix that fits |
| RingBuffers.RingBuffer.Truncate | src/ringbuffer.c:37-41 | drops a prefix |
| RingBuffers.RingBuffer.Remove | src/ringbuffer.c:89-93 | drops a suffix |
| Scan.FramesAppend | src/scan.c:90-91 | the two writes of a beacon put one whole record behind the others |
| Scan.FramesHead | src/scan.c:130-136 | the two reads of the drain take exactly the first record off |
| Scan.FramesUnique | src/scan.c:90-91 | the bytes in the buffer can be cut into records in only one way |
| Scan.AcceptKeeps | src/scan.c:72-94 | recording keeps the buffer a whole number of records that fits |
| Scan.HandedExactly | src/scan.c:138-146 | the beacons handed to the cache are exactly the recorded ones for the channel drained, with an individual address, for which there was memory |
| Scan.ValidBssid | src/scan.c:96-107 | neither six zeros, nor six bytes 255, nor an odd first byte |
| Scan.NextChannel | src/scan.c:110-119 | the least channel above the current one that is neither disabled nor passive, or -1 when there is none |
| Scan.NextExtends | src/scan.c:110-119 | each choice adds exactly one to the list of usable channels passed, and -1 comes exactly when all are passed |
| Scan.UsablesExactly | src/regulatory_database.c:22-29 | the list holds exactly the channels the rules allow, for any rules |
| Scan.ScanState.constructor | src/scan.c:170-200 | an empty buffer, not receiving |
| Scan.ScanState.ProcessResponse | src/scan.c:72-94 | recorded exactly when receiving, with at most 255 RSN bytes and room for the whole record; the record is the beacon's bytes but for the channel, which is its own where it gave one and the current one otherwise |
| Scan.RecordIsWorthy | src/scan.c:87-139 | a record goes to the cache exactly when the beacon as it came in named no channel or the one listened on, and an individual address |
| Scan.ScanState.ReadBeacon | src/scan.c:130-136 | reads back exactly the first record; neither read is ever short |
| Scan.ScanState.Drain | src/scan.c:129-147 | reads back every record in order, ends with the buffer empty, and hands on exactly those worth keeping for which there is memory, whichever those are |
| Scan.ScanState.Work | src/scan.c:121-163 | one run of the work: drain the channel, then the next usable channel or the end |
| ScanRuns.StepKeeps | src/scan.c:33-250 | every step of every interleaving (callers, beacons, waiters, both work items, associations) keeps the invariant |
| ScanRuns.CompletedScans | src/scan.c:72-167 | for any channel rules: a completed scan completed once, listened on each channel from 1 to 14 that is neither disabled nor passive exactly once in ascending order, read back all it recorded in order, and passed on exactly the beacons that came in while it listened on a channel, named no channel or that one, and had an individual address, but for those without memory for their access points |
| ScanRuns.ReachableIsExclusive | src/scan.c:60-70 | at most one scan is under way, exactly when the state says so; waiters exist only then; whoever was woken waited on a scan that is over |
| ScanRuns.NoWriterWhileDraining | src/scan.c:125-129 | no beacon is recorded while the work drains |
| ScanRuns.CleanupIsNeverIgnored | src/scan.c:50-58 | the cleanup request of a completed scan is never the one that coalescing drops |
| ScanRuns.ScanFinishes | src/scan.c:50-70 | a scan under way can always go on to its end; then the device is down and every waiter woken |
| ScanRuns.ComesNearer | src/scan.c:50-167 | no step of anyone takes the scan under way further from its end, and its own steps bring it nearer |
| ScanRuns.FairRunsFinish | src/scan.c:50-167 | in any interleaving, after a bounded number of its own steps the scan is over: the device down, every usable channel listened on, every waiter woken |
| LinkedLists.List.constructor | include/u80211/list.h:18-21 | the empty list |
| LinkedLists.List.PushFront | include/u80211/list.h:23-32 | the node goes in front; all links stay consistent |
| LinkedLists.List.PushBack | include/u80211/list.h:34-43 | the node goes behind; all links stay consistent |
| LinkedLists.List.Remove | include/u80211/list.h:45-58 | exactly that node goes, at either end or inside, and its own links are cleared |
| LinkedLists.List.PopFront | include/u80211/list.h:60-67 | the first node, or null for the empty list |
| LinkedLists.List.PopBack | include/u80211/list.h:69-76 | the last node, or null for the empty list |
| PacketNumbers.SequenceIsNewer | src/key.c:190-197 | true exactly when the little-endian number is greater |
| PacketNumbers.IncrementSequence | src/key.c:244-257 | adds one, failing exactly at the largest number and then changing nothing |
| PacketNumbers.CarryAddsOne | src/key.c:244-257 | clearing a run of 255s and incrementing the byte above adds one to the number |
| PacketNumbers.HighestByteDecides | src/key.c:190-197 | the highest differing byte decides the order of the numbers |
| PacketNumbers.MicEqual | src/key.c:199-204 | the accumulated difference is zero exactly for equal codes |
| KeyStores.InstalledIsUnique | src/key.c:53-101 | setting a key puts it in front and leaves every key with another index, peer or flags, and no two keys with all three the same |
| KeyStores.DeletedIsUnique | src/key.c:103-126 | deleting leaves exactly the keys with another index, peer or flags |
| KeyStores.SelectedKeyFits | src/key.c:128-146 | the selected key is for the direction and the kind of the frame, is the other end's key unless the frame is for a group, and every key before it fails one of these |
| KeyStores.SelectedAtFits | src/key.c:148-155 | the key selected by number has that number and fits the header, and no key before it does both |
| KeyStores.HandedOutExactly | src/key.c:286-304 | a number is handed out exactly under the selected key, if that has the index and the cipher asked for and a number left; it is one more than the last and nothing else changes |
| KeyStores.TkipHandedOutExactly | src/key.c:259-284 | under TKIP exactly for a key of 32 bytes with a number left, with the code under bytes 16 to 23 |
| KeyStores.AcceptedExactly | src/key.c:230-243 | a received number is accepted exactly under the key of that index and cipher, when it is newer, and is then the one remembered |
| KeyStores.TkipAcceptedExactly | src/key.c:203-228 | under TKIP exactly when the code under bytes 24 to 31 of the key is right as well |
| KeyStores.KeyStore.constructor | src/key.c:35-42 | an empty store |
| KeyStores.KeyStore.SetKey | src/key.c:53-101 | the new key is in front, in place of the one of its identity, with the receive counter given if that has six bytes and zeros otherwise, and a transmit counter of zeros; missing bytes, too many bytes, no memory and a refusal of the driver are told apart and change nothing |
| KeyStores.KeyStore.DelKey | src/key.c:103-126 | takes the key of that identity out; a refusal of the driver changes nothing |
| KeyStores.KeyStore.SelectKey | src/key.c:139-146 | the first key in list order that matches the header, or none |
| KeyStores.KeyStore.SelectKeyByIndex | src/key.c:149-156 | the first such key with that index, or none |
| KeyStores.KeyStore.SelectKeyIndex | src/key.c:158-164 | its index, or -1 |
| KeyStores.KeyStore.SelectCipherByIndex | src/key.c:178-188 | its cipher, or none |
| KeyStores.KeyStore.UpdateRxSequence | src/key.c:230-242 | accepts and records a number exactly when it is newer than the last under the selected key and cipher |
| KeyStores.KeyStore.ValidateTkipRx | src/key.c:206-228 | accepts and records exactly a newer number with the right code under a whole TKIP key |
| KeyStores.KeyStore.NextTxSequence | src/key.c:286-304 | hands out the next number of the selected key, or none at the end of the counter |
| KeyStores.KeyStore.PrepareTkipTx | src/key.c:259-284 | hands out the next number and the code, or changes nothing |
| KeyRuns.StepIsStore | src/key.c:53-304 | the histories of a run are histories of the store itself |
| KeyRuns.StepKeeps | src/key.c:53-304 | every event keeps the discipline of every installed key |
| KeyRuns.PacketNumbersAreDisciplined | src/key.c:190-304 | over any run, for every key ever set: accepted numbers strictly increase, from above the six-byte counter given when it was set, if there was one; numbers handed out are 1, 2, 3 and so on; none repeats or wraps; one key for each identity |
| KeyRuns.SharedExactly | src/key.c:53-304 | over any run, two keys ever set share a number handed out if and only if something was sent under each, because both began at 1 |
| KeyRuns.CarefulRunsRepeatNothing | src/key.c:53-304 | no number is handed out twice under the same cipher and key bytes, over any run in which keys are set only when, without the key they replace, no key of the store has those bytes and nothing was sent under them |
| KeyRuns.CarelessSetRepeats | src/key.c:53-101 | that rule is needed: setting bytes that something was sent under, or that another key of the store has, makes sending under the keys repeat a number |
| KeyRuns.SettingAgainRepeats | src/key.c:70-95 | set, send, set again, send: from the empty store, for any peer and any bytes, the same number is handed out twice under the same bytes |
| KeyRuns.TwoPeersRepeat | src/key.c:85-95 | the same bytes set for two peers before anything is sent: both then hand out the same number |
| Michael.AbsorbSplits | src/michael.c:36-61 | two updates equal one with the bytes joined, for every split and every number of pending bytes |
| Michael.BlocksSplit | src/michael.c:51-55 | the fold over words can be cut at any word |
| Michael.MichaelContext.BlockIn | src/michael.c:24-34 | the block function on the context |
| Michael.MichaelContext.Fill | src/michael.c:39-49 | filling up the pending bytes |
| Michael.MichaelContext.Update | src/michael.c:36-61 | an update absorbs exactly the bytes given, with fewer than four pending afterwards |
| Michael.MichaelMic | src/michael.c:63-86 | the streamed code is the one-shot definition |
| Michael.MicCovers | src/michael.c:63-75 | the code of a frame is over destination, source, priority, three zeros and the data, in that order |
| Michael.WordComesBack | src/michael.c:71-85 | the bytes of a word are the four it was made of, in their order |
| Michael.PaddingAdds | src/michael.c:77-82 | the two padding updates are exactly the padding of the definition |
| Rates.WithRatesExactly | src/packet_management.c:33-45 | handling rates adds exactly those listed, but for the two special values |
| Rates.ElementFields.HandleRates | src/packet_management.c:33-45 | the loop on the bitmap is that addition |
| Rates.ElementFields.ProcessElement | src/packet_management.c:73-104 | one element fills its field, or is refused exactly for a bad size |
| Rates.ElementFields.ProcessInformationElements | src/packet_management.c:59-110 | the offset-driven loop is the element-by-element parse, with the fields as they are where it stops |
| Rates.ParsedElement | src/packet_management.c:62-106 | an element in front is parsed and then the rest |
| Rates.RefusedExactly | src/packet_management.c:73-97 | an element is refused exactly for an SSID over 32 bytes, a channel not of one byte, or over eight supported rates, and then changes nothing |
| Rates.NotWholeIsRefused | src/packet_management.c:62-71 | bytes that do not make up a whole element are refused |
| Rates.ChannelComesBack | src/packet_management.c:83-89 | a channel element sets the channel where it is wanted |
| Rates.RsnComesBack | src/packet_management.c:98-103 | an RSN element sets the RSN bytes where they are wanted |
| Rates.SsidComesBack | src/packet_management.c:74-82 | an SSID element of at most 32 bytes sets the SSID, closed by a zero, where it is wanted |
| Rates.OthersArePassedOver | src/packet_management.c:62-106 | an element with any other number is passed over |
| Rates.RatesAdded | src/packet_management.c:33-97 | a rate element, supported or extended, sets the bits of the low seven bits of its bytes, eight rates to a byte from the lowest bit on, but for 126 and 127 |
| Rates.WrittenExactly | src/packet_management.c:131-154 | up to eight rates are one element with number 1; of more, the first eight are, and the others are one with number 50 |
| Rates.CountRates | src/packet_management.c:112-120 | the number of rates from 0 to 125 in the bitmap |
| Rates.RatesBelowExactly | src/packet_management.c:133-151 | the rates written are exactly those of the bitmap, up to 125 |
| Rates.RatesAscend | src/packet_management.c:133-151 | each rate is written once, in ascending order |
| Rates.PrefixIsElements | src/packet_management.c:122-129 | the computed size is exactly the size of the elements |
| Rates.SerializeRateInformationElements | src/packet_management.c:131-154 | writes exactly the elements, and not a byte besides |
| Rates.RatesRoundTrip | src/packet_management.c:33-154 | parsing what was written adds the written rates to the bitmap and goes on with the rest |
| Rates.BitmapComesBack | src/packet_management.c:33-154 | for any bitmap, into an empty one, exactly the rates 0 to 125 of it come back |
| Rates.PlainBitmapComesBack | src/packet_management.c:36-40 | the bitmap comes back whole if and only if it lacks the two special values |
| Rates.RequestComesBack | src/packet_management.c:342-369 | the SSID and rates of an association request come back, followed by the caller's elements |
| Headers.HeaderComesBack | src/packet.c:161-294 | every header that can be written is read back, whatever follows it |
| Headers.HeaderWasThere | src/packet.c:161-229 | what is read is what was there: writing it again gives the same bytes |
| Headers.ReadableExactly | src/packet.c:161-229 | exactly the frames that can be read: management with 24 bytes, and data and null data with 24, or 30 where both direction bits are set |
| Headers.HeaderLayout | src/packet.c:232-294 | where the frame control, duration, addresses and sequence control are in a written header |
| Headers.TxBuffer.AllocateSpace | include/u80211/u80211.h:13-19 | space in front of the frame, refused exactly when there is too little |
| Headers.TxBuffer.SerializeHeader | src/packet.c:232-294 | puts the header in front of the frame, or changes nothing |
| Frames.KeyIdBack | src/packet.c:17-24 | the key number comes back from the cipher header |
| Frames.AllocateTxBuffer | src/packet_data.c:113-123 | headroom and tailroom are set aside |
| Frames.Encapsulate | src/packet_data.c:147-163 | the Ethernet header gives way to LLC/SNAP in place |
| Frames.PrepareCcmpTx | src/packet_data.c:57-77 | the CCMP header with the next number goes in front; a refusal hands out no number |
| Frames.PrepareTkipTx | src/packet_data.c:79-111 | the TKIP header goes in front and the code over the unprotected frame behind |
| Frames.TransmitBuffer | src/packet_data.c:125-212 | for every frame an allocated buffer can hold: never out of headroom or tailroom, and on the air goes exactly what is specified |
| Frames.SentUnderSupportedKey | src/packet_data.c:176-202 | under a selected key a frame goes out if and only if the key number is at most 3, the counter is not exhausted, and the cipher is CCMP or TKIP with a whole key |
| OnTheAir.OpenOnAir | src/packet_data.c:125-212 | without a key, on the air goes byte for byte: 08 01 00 00, access point, source, destination, sequence control, AA AA 03 00 00 00, and the frame from its type on |
| OnTheAir.CcmpOnAir | src/packet_data.c:57-212 | under CCMP, byte for byte: the protected header, the number after the last in its CCMP layout with the key number, and the same body |
| OnTheAir.TkipOnAir | src/packet_data.c:79-212 | under TKIP, byte for byte: the protected header, the number in its TKIP layout, the body, and the code over destination, source and body |
| OnTheAir.SeedBits | src/packet_data.c:95-98 | the TKIP seed byte is the number's second byte with bit 5 set and bit 7 clear |
| OnTheAir.RefusedExactly | src/packet_data.c:130-202 | when nothing is sent the keys stay as they are and the status says why: not associated, shorter than 14 bytes, key number over 3, no number left or no whole TKIP key, or another cipher |
| Frames.ProcessCcmpRx | src/packet.c:43-62 | strips the CCMP header and trailer exactly for a newer number |
| Frames.ProcessTkipRx | src/packet.c:64-105 | strips the TKIP header and trailers exactly for a newer number and the right code |
| Frames.ProcessDataPacket | src/packet_data.c:21-55 | makes the Ethernet frame in place, with room for its header always there |
| Frames.ProcessPacket | src/packet.c:107-151 | reception as specified: header, protection, addressee, duplicates, decapsulation |
| OnTheAir.RepeatedExactly | src/packet.c:139-149 | of two frames from the access point the second is handed up exactly when it is not a retransmission with the number of the first, and its number is then remembered |
| OnTheAir.NotRepeated | src/packet.c:139-149 | a frame of another station, a frame not sent again and the first frame of all are never dropped as repetitions; only those of the access point are remembered |
| OnTheAir.OnlyCarriedFrames | src/packet.c:107-151 | nothing is handed up or remembered but data frames for this station or a group that open |
| OnTheAir.HandedUpExactly | src/packet_data.c:21-55 | handed up is destination, source and body from its type on, by the direction bits, exactly for a body of at least eight bytes that begins with AA AA 03 00 00 00 |
| OnTheAir.FilterAgrees | src/association.c:51-66 | the duplicate test of the data path is the filter of the association while associated |
| OnTheAir.CcmpOpensExactly | src/packet.c:43-62 | a body under CCMP opens exactly with at least 16 bytes, the number bit and a newer number, whose bytes are 0, 1 and 4 to 7 |
| OnTheAir.TkipOpensExactly | src/packet.c:64-105 | a body under TKIP opens exactly for plain data with at least 20 bytes, the number bit, the right seed byte, a newer number and the right code under bytes 24 to 31 of the key |
| OnTheAir.NothingElseOpens | src/packet.c:107-135 | under no key or another cipher nothing opens |
| Frames.BodyComesBack | src/packet.c:30-41 | addresses, type and payload come back from the header and the body |
| Frames.EveryDirectionComesThrough | src/packet.c:107-151 | in each of the four directions an unprotected frame is handed up as the Ethernet frame it carries, exactly to the station or group addressed |
| Frames.CcmpReceived | src/packet.c:43-62 | a CCMP frame from any direction, sent for the first time or again, is accepted and its number recorded exactly when the number is newer; its body is handed on unless it repeats the last frame |
| Frames.TkipReceived | src/packet.c:64-105 | a TKIP frame from any direction, sent for the first time or again, is accepted exactly when its number is newer and its code is right for its addresses and data; its body is handed on unless it repeats the last frame |
| Frames.OpenComesThrough | src/packet_data.c:21-212 | without a key every frame of at least 14 bytes comes through as it was |
| Frames.CcmpComesThrough | src/packet_data.c:21-212 | under a shared CCMP key, with the hardware trailer, the frame and its packet number come through exactly when the number is newer than the receiver's last |
| Frames.TkipComesThrough | src/packet_data.c:21-212 | the same under TKIP, where the sender's transmit MIC key is the receiver's receive MIC key |

## Left out

- RbTrees.RbTree.SwapWithSuccessor: independent pointer writes are grouped by node, so intermediate states between them are not those of the source; the final state is.
- RbTrees.RbTree.FindFirstLargerEqual: the comparison function is assumed to return -1, 0 or 1, which the source's equality tests on the result need.
- BssCaches.BssCache.Purge: runs undisturbed on the linked nodes; references held and released during a purge are in `CacheRuns`, on values.
- CacheRuns.StepKeeps: a cache call other than a purge is one step, since it touches one reference count under the lock (copying out is a series of finds, and emptying the cache is left to `BssCache`); where an insert goes in the order is left to the tree.
- RingBuffers.RingBuffer.Write: the counters are unbounded numbers; the source's wrap at the end of `uintmax_t` is only consistent when the size divides it.
- ScanRuns.StepKeeps: the section in which the cleanup moves the device down and wakes the waiters is one step; another scan's compare and swap inside it commutes with the waking.
- AssociationRuns.StepKeeps: contexts have unique numbers, and the access point and generation of a context are fixed from the moment it is published; use of a context after its lock is dropped, and the unlocked read of the access point while an association request is built, are not modelled.
- Frames.TransmitBuffer: selecting the key, its cipher and its next number are separate sections in the source and one uninterrupted call here; in `KeyRuns` the number is drawn by an event of its own, whatever key and cipher were selected before, and `AssociationRuns` has the reference held on the access point meanwhile.
- Frames.ProcessPacket: management frames end after their header and protection; their handlers appear as the stimuli of the association model and as `Scan.ScanState.ProcessResponse`.
- Headers.HeaderComesBack: a three-address header leaves the fourth address unset in the source and zero here.
- KeyStores.KeyStore.SetKey: the driver's answer, the greatest size an allocation has room for and whether there is memory are parameters; the allocation and the driver call come before the lock is taken and are in the one call here.
- Sending frames, setting channels and driver calls, beyond their place in the sequence of steps.
- Allocation failures other than those of the ring, of keys and of drained access points, and the release ladders behind them.
- `u80211_rbtree_check`, which asserts nothing.
- Weak memory ordering: each atomic operation and each section is one step.
- Kernel interface implementations, the simulated hardware, the test programs and the concrete regulatory table.
- Encryption by the hardware: the trailers it adds are arbitrary bytes of the right number.
- Clearing key memory, and emptying the key list when a device goes away.
