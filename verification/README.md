# Verified model of the co_stream engine

This project models the parts of the repository whose correctness does not show from one function alone, and
proves what they promise.

* **Ordered structures.** The red-black and the splay tree of `tree.h` and the binary heap of `heap-inl.h` are
  linked objects updated in place. `trees.dfy` has trees and zippers, `links.dfy` says what the fields of linked
  nodes must hold to represent a tree and proves the pointer updates, and `red_black*.dfy`, `heap.dfy` and
  `splay.dfy` prove the operations. `ordered_sets.dfy` puts whole runs of both search trees together. Keys are
  integers; heap priorities have any strict weak order. `timer_books.dfy` says as functions what
  timer operations, callbacks and whole runs make of the armed timers and proves laws of them, `timers.dfy` is the
  timer lifecycle in place, and `timer_heap.dfy` proves that the heap is the map of armed timers.
* **Concurrent protocols.** `thread_pool.dfy`, `async.dfy` and `barrier.dfy` are state machines under sequential
  consistency. A step is one critical section (thread pool, barrier) or one access to shared memory (wakeup
  handles). The number of threads is arbitrary; runs are all interleavings.
* **Codecs.** `punycode.dfy` and `idna.dfy` (UTF-8 reading, Punycode, host names), `inet.dfy` and `inet_grammar.dfy`
  (address texts), `base64.dfy`, `crc_tables.dfy` and `crc.dfy`, and `http.dfy` and `http_requests.dfy` (request
  printer and incremental parser).
* **Tables and buffers.** `watchers.dfy` (the descriptor table and its queue), `data_buffer.dfy` (the sliding
  buffer) and `queue.dfy` (intrusive lists). `wrappers.dfy` holds what several modules need.

The environment appears as parameters: the clock as the loop's `time`, the wakeup descriptor as one readable bit,
the scheduler as the choice of the next action, timer callbacks as scripts of timer operations, and the handler of
an HTTP request as the outcome `Call`.

Four findings about the code are stated with their exact conditions.

* The compaction of `DataBuffer` can copy overlapping ranges with `memcpy`, for which the result is undefined.
  `Buffers.CompactionOverlap` has the condition on one append and tells copies of a range onto itself from the others,
  `Buffers.RefinesQueue` has the conditions on a run, and `Buffers.OverlapExample` reaches an overlap of different
  ranges with the default size: 350 bytes appended, 100 consumed, 9500 appended. A buffer that is only appended to and
  reset never gets there (`Buffers.AppendsOnly`).
* The size computation of the watcher table wraps around to zero for the largest descriptor that the asserts allow
  (`PowerOfTwo.LargestDescriptor`); the reallocation to size zero then makes the program abort
  (`Watchers.Loop.IoStart` has it as its result `false`, exactly for this descriptor).
* At the very last instant of a 64-bit clock a repeating timer is due again at once. With callbacks that do nothing,
  the loop over due timers ends if and only if it is another instant or no armed timer repeats
  (`Timers.Loop.RunTimers`); otherwise any number of rounds leaves a timer due (`Timers.Loop.EndlessRounds`), and
  `Timers.EndlessLoop` builds such a loop. The clock of the Unix back end, a 64-bit counter of nanoseconds divided by a
  million, does not reach that instant (`Timers.Loop.UpdateTime`).
* The UTF-8 reader tests the leading bits of all continuation bytes of a character at once. The test is exact for one
  continuation byte, for two it asks only that their leading bits are equal (`Utf8.LooseTest`), so that some text that
  is not well-formed is read (`Utf8.IllFormedRead`). Where every lead byte has its continuation bytes behind it, just
  the well-formed text is read (`Utf8.ReadIsWellFormed`).

In `inet_ntop6` the case of seven zero words never gets an embedded quad, because word 6 then lies inside the run
that is skipped; the model has the same test in the same place.

## Model

| member | source | states |
|---|---|---|
| Links.Head.RotateLeft | 3rdparty/libuv/include/uv/tree.h:342-360 | rotating the links in place turns the represented subtree into its left rotation; the rest of the tree and every other link stay |
| Links.Head.RotateRight | 3rdparty/libuv/include/uv/tree.h:362-380 | the same for the right rotation |
| RedBlack.InsertColor | 3rdparty/libuv/include/uv/tree.h:407-449 | from a tree whose only fault is a red node under a red parent, the loop reaches a balanced tree with a black root and the same nodes in the same order |
| RedBlack.RemoveColor | 3rdparty/libuv/include/uv/tree.h:451-528 | from a tree that is short of one black node at one place, the loop reaches a balanced tree with the same nodes in the same order |
| RedBlack.RemoveNode | 3rdparty/libuv/include/uv/tree.h:530-595 | removing any member, inner nodes by way of their successor, leaves a balanced tree of the remaining nodes in the same order |
| RedBlack.RbTree.Insert | 3rdparty/libuv/include/uv/tree.h:597-626 | a key that is present leaves the tree alone and returns its node; otherwise the node is added at its place in the order; search order, links, black root, no red under red and equal black heights are kept |
| RedBlack.RbTree.Remove | 3rdparty/libuv/include/uv/tree.h:530-595 | exactly the given member leaves the order; all tree invariants are kept |
| RedBlack.RbTree.Find | 3rdparty/libuv/include/uv/tree.h:628-644 | the node with the key, or null exactly when no node has it |
| RedBlack.RbTree.NFind | 3rdparty/libuv/include/uv/tree.h:646-665 | the least node that is not below the key, or null exactly when all are below |
| RedBlack.RbTree.Next | 3rdparty/libuv/include/uv/tree.h:667-687 | the node that follows in the order of keys |
| RedBlack.RbTree.Min | 3rdparty/libuv/include/uv/tree.h:711-724 | the first node in the order of keys |
| RedBlackShape.HeightBound | 3rdparty/libuv/include/uv/tree.h:53-62 | two to the height of a balanced tree is at most the square of its size plus one: the height is at most 2 lg (n + 1) |
| RedBlack.RbTree.HeightOfMembers | 3rdparty/libuv/include/uv/tree.h:53-62 | this holds of every tree that the operations keep, for the number of its members |
| OrderedSets.RbReplay | 3rdparty/libuv/include/uv/tree.h:597-687 | after any sequence of inserts and removes, walking from the first node lists exactly the keys added and not removed since, in ascending order; its loop keeps the height bound |
| Splay.SplayTree.Splay | 3rdparty/libuv/include/uv/tree.h:209-242 | top-down splaying keeps the nodes and their order, and leaves everything left of the root before the target and everything right of it after the target |
| Splay.FoundAtRoot | 3rdparty/libuv/include/uv/tree.h:209-242 | after a splay for a key, the root has the key exactly when some node has it |
| Splay.SplayTree.Insert | 3rdparty/libuv/include/uv/tree.h:164-186 | exact set insertion: the new node takes its place in the order, or the present node with its key is returned and nothing changes |
| Splay.SplayTree.Remove | 3rdparty/libuv/include/uv/tree.h:188-207 | exact set removal of the node with the key of the argument; the argument is returned exactly when there was one |
| Splay.SplayTree.RemoveRoot | 3rdparty/libuv/include/uv/tree.h:196-203 | the second splay leaves the largest smaller node without a right child, so that hanging the right subtree there loses nothing |
| Splay.SplayTree.Find | 3rdparty/libuv/include/uv/tree.h:127-137 | the node with the key, moved to the root, or null exactly when there is none |
| Splay.SplayTree.Next | 3rdparty/libuv/include/uv/tree.h:139-153 | the node that follows in the order of keys |
| Splay.SplayTree.MinMax | 3rdparty/libuv/include/uv/tree.h:246-278 | the first or the last node, moved to the root |
| OrderedSets.SplayReplay | 3rdparty/libuv/include/uv/tree.h:164-242 | after any sequence of inserts and removes the tree holds exactly the keys added and not removed since, in ascending order |
| Heaps.NodeSwap | 3rdparty/libuv/src/heap-inl.h:72-104 | exchanging a node with its parent changes six links and the root pointer so that memory again represents a tree, with the two nodes swapped |
| Heaps.Follow | 3rdparty/libuv/src/heap-inl.h:119-135 | the bits of the number of nodes lead to the left-most free place, or to the last node |
| Heaps.SiftUp | 3rdparty/libuv/src/heap-inl.h:143-147 | swapping upwards restores heap order for any strict weak order |
| Heaps.SiftDown | 3rdparty/libuv/src/heap-inl.h:216-229 | swapping with the smaller child restores heap order below the node |
| Heaps.Heap.Insert | 3rdparty/libuv/src/heap-inl.h:106-148 | the heap keeps its complete shape, links and order, and gains exactly the new node |
| Heaps.Heap.Remove | 3rdparty/libuv/src/heap-inl.h:150-237 | removing an arbitrary member keeps shape, links and order, and loses exactly that node |
| Heaps.Heap.Min | 3rdparty/libuv/src/heap-inl.h:67-69 | the root is least among all members, null exactly when there is none |
| Heaps.Heap.Dequeue | 3rdparty/libuv/src/heap-inl.h:239-241 | exactly one least member leaves |
| TimerBooks.LessThanIsStrictTotal | 3rdparty/libuv/src/timer.c:38-55 | the comparison of timers is a strict weak order, as the heap needs, and tells any two deadlines apart |
| Timers.Loop.HandleStart | 3rdparty/libuv/src/uv-common.h:278-284 | the active count stays the number of active, referenced handles |
| Timers.Loop.HandleStop | 3rdparty/libuv/src/uv-common.h:286-292 | the active count stays the number of active, referenced handles |
| Timers.Loop.SetRef | 3rdparty/libuv/src/uv-common.h:294-309 | referencing and unreferencing adjust the active count for active handles only |
| Timers.Loop.TimerStart | 3rdparty/libuv/src/timer.c:67-95 | the timer is armed for the clamped 64-bit sum and takes the next start number, unless it is closing or has no callback; nothing else changes; a timer is active exactly when it is in the heap |
| TimerBooks.ClampWraps | 3rdparty/libuv/src/timer.c:79-81 | the wrapped sum compared with the timeout gives the clamped sum |
| Timers.Loop.TimerStop | 3rdparty/libuv/src/timer.c:98-108 | the timer leaves the heap and is no longer active; nothing else changes |
| Timers.Loop.TimerAgain | 3rdparty/libuv/src/timer.c:111-121 | a repeating timer is armed again from now; one without callback is refused |
| TimerHeap.Arm | 3rdparty/libuv/src/timer.c:83-91 | on the heap itself: arming a timer that is not armed adds exactly its entry to the map of armed timers and deadlines |
| TimerHeap.Disarm | 3rdparty/libuv/src/timer.c:98-104 | on the heap itself: exactly this timer's entry leaves the map |
| TimerHeap.Min | 3rdparty/libuv/src/timer.c:146-152 | the root of the heap is a least entry of the map, null exactly when the map is empty |
| TimerBooks.OnlyLeast | 3rdparty/libuv/src/timer.c:38-55 | start numbers make the least armed timer unique, so that the loop's choice is the root of the heap |
| Timers.Loop.Perform | 3rdparty/libuv/src/timer.c:67-130 | each operation changes exactly the handle, the entry and the start number that the specification says |
| Timers.Loop.Rearm | 3rdparty/libuv/src/timer.c:176-177 | a due timer is stopped, and started again if it repeats |
| TimerBooks.RearmedBook | 3rdparty/libuv/src/timer.c:176-177 | a fired timer is due no longer; only one that repeats, at the last instant of the clock, is due again at once; all other timers stay |
| Timers.Loop.Fire | 3rdparty/libuv/src/timer.c:176-178 | re-arming and then the callback, with all its effects |
| TimerBooks.ArmedDue | 3rdparty/libuv/src/timer.c:79-81 | exactly a zero timeout, or the last instant of the clock, arms a timer that is due at once |
| Timers.Loop.RunTimers | 3rdparty/libuv/src/timer.c:163-180 | at every instant and whatever the callbacks do: what is armed in the end is what the noted firings and the callbacks of the script make of what was armed at first; each firing was of the least of the timers then armed, and it was due; either none that is due is left, or the callbacks are over, it is the last instant of the clock and an armed timer repeats, so that the loop does not end; with callbacks that do nothing it ends exactly when this is not so at first, and then each timer due at first fires exactly once; with callbacks that arm nothing due, at most once |
| TimerBooks.EarliestFirst | 3rdparty/libuv/src/timer.c:38-55 | the timer chosen has the earliest deadline, and of several with the same the one started first |
| TimerBooks.StartedLater | 3rdparty/libuv/src/timer.c:87-88 | a timer started later has a greater start number |
| TimerBooks.StopIsFinal | 3rdparty/libuv/src/timer.c:98-108 | in such a run a timer that a callback stops or closes does not fire again until a callback starts it |
| TimerBooks.CloseIsFinal | 3rdparty/libuv/src/timer.c:72-73 | in such a run a timer that a callback closes never fires again, whatever the callbacks do |
| TimerBooks.LastActionHolds | 3rdparty/libuv/src/timer.c:67-130 | in such a run the last action on a timer decides whether it is armed, for when, and what its handle holds, for as long as it is not fired |
| Timers.Loop.UpdateTime | 3rdparty/libuv/src/unix/internal.h:371-375 | the loop's time on Unix stays below the last instant |
| Timers.Loop.EndlessRounds | 3rdparty/libuv/src/timer.c:163-180 | from such a state any number of further rounds, each firing the least timer, leads to such a state with a timer due |
| Timers.EndlessLoop | 3rdparty/libuv/src/timer.c:163-180 | a loop at the last instant with one repeating timer is such a state |
| Timers.Loop.NextTimeout | 3rdparty/libuv/src/timer.c:142-160 | the loop never sleeps past an armed deadline, and for ever exactly when none is armed |
| ThreadPool.PoolStep | 3rdparty/libuv/src/threadpool.c:57-160 | one critical section of any thread keeps the pool invariant: exact counters, throttled slow work, the run-slow message present while slow work waits, and as many workers coming as there is work while any sleeps |
| ThreadPool.PlaceStep | 3rdparty/libuv/src/threadpool.c:57-139 | every step keeps every item in one place, consistent with its history |
| ThreadPool.SlowWorkThrottled | 3rdparty/libuv/src/threadpool.c:45-47 | in every reachable state at most (n + 1) / 2 slow items run, slow being what was submitted as slow, and pending slow work implies the message in the main queue |
| ThreadPool.ThrottleExact | 3rdparty/libuv/src/threadpool.c:87-111 | in every run a worker that takes the message starts the first slow item if and only if fewer than (n + 1) / 2 workers are on slow work; otherwise it leaves them all |
| ThreadPool.SlowInOrder | 3rdparty/libuv/src/threadpool.c:87-146 | in every run, while a slow item waits no more slow items start than were before it, and no submission raises that number |
| ThreadPool.MainInOrder | 3rdparty/libuv/src/threadpool.c:87-155 | the same for the entries of the main queue |
| ThreadPool.CallbacksInOrder | 3rdparty/libuv/src/threadpool.c:124-322 | in every run, while an item waits for its callback no more callbacks of its loop are called than there were items completed or cancelled before it |
| ThreadPool.BatchServed | 3rdparty/libuv/src/threadpool.c:308-322 | in every run a loop takes all that is complete, and has called all these callbacks before it takes again |
| ThreadPool.NoLostWakeup | 3rdparty/libuv/src/threadpool.c:70-160 | in every reachable state, if all workers are asleep with no signal under way then both queues are empty |
| ThreadPool.PendingWorkProceeds | 3rdparty/libuv/src/threadpool.c:57-138 | while work is queued some worker has a step that is not a spurious wakeup |
| ThreadPool.QueuedItemStarts | 3rdparty/libuv/src/threadpool.c:57-160 | in every run an item waits in the main queue for at most six worker steps for each entry before it, four for each worker, and two for each submission or spurious wakeup meanwhile: the run-slow message cannot rotate for ever before it |
| ThreadPool.StepNearer | 3rdparty/libuv/src/threadpool.c:57-160 | every step of a worker lowers that distance, and no other step raises it by more than two |
| ThreadPool.ExactlyOnePlace | 3rdparty/libuv/src/threadpool.c:87-138 | between submission and callback an item is in exactly one of main queue, slow queue, execution, completion list or cancellation; afterwards in none |
| ThreadPool.ItemsServedOnce | 3rdparty/libuv/src/threadpool.c:308-345 | work and callback run at most once; the callback gets success only for work that ran to its end, and the cancelled status only for work that never ran |
| ThreadPool.CancelIsFinal | 3rdparty/libuv/src/threadpool.c:281-305 | after an accepted cancellation the work never runs and its callback can only get the cancelled status |
| ThreadPool.CancelOnlyPending | 3rdparty/libuv/src/threadpool.c:281-291 | a cancellation is accepted exactly for work that has not started; otherwise nothing changes |
| Async.Step | 3rdparty/libuv/src/unix/async.c:46-178 | every single access by any sender or by the loop keeps the protocol invariant |
| Async.PendingOnItsWay | 3rdparty/libuv/src/unix/async.c:65-87 | a set flag of an open handle always has the descriptor readable, a sender about to write, or the loop still due to visit the handle |
| Async.NothingLostAtRest | 3rdparty/libuv/src/unix/async.c:132-178 | when the loop sleeps and no sender is about to write, each rise of the flag was followed by exactly one callback |
| Async.ReadableExactly | 3rdparty/libuv/src/unix/async.c:142-157 | in every run the descriptor is readable exactly when it was written after it was last read |
| Async.ReadsNeedWrites | 3rdparty/libuv/src/unix/async.c:142-157 | in every run there is a write between two reads |
| Async.OneWriteEach | 3rdparty/libuv/src/unix/async.c:80-82 | in every run each rise of a flag leads to one write and nothing else does |
| Async.LoopRests | 3rdparty/libuv/src/unix/async.c:132-178 | while nothing is written the loop takes at most the steps of one more reading and walking, and then it sleeps |
| Async.LoopGoesOn | 3rdparty/libuv/src/unix/async.c:132-178 | until it sleeps the loop has a step |
| Async.VisitsInOrder | 3rdparty/libuv/src/unix/async.c:159-178 | in every run a handle of the walk is visited after as many visits as there are handles before it |
| Async.SendAnswered | 3rdparty/libuv/src/unix/async.c:65-87 | after a send, however it returned, the callback starts later or the flag is still set, as long as the handle stays open |
| Async.QuietAfterSpin | 3rdparty/libuv/src/unix/async.c:92-129 | once the spin is over no sender ever writes for the handle again and its callback never runs again |
| Async.SpinEnds | 3rdparty/libuv/src/unix/async.c:92-122 | a spinning closer waits only for senders that can go on |
| Barrier.Step | 3rdparty/libuv/src/thread-common.c:85-120 | every critical section and every wakeup, spurious ones included, keeps the barrier invariant |
| Barrier.ResumeReady | 3rdparty/libuv/src/thread-common.c:109-111 | a woken thread goes on exactly when its own cycle is filled, and then the out counter is positive |
| Barrier.PhasesSeparate | 3rdparty/libuv/src/thread-common.c:101-111 | in every run a thread leaves only a filled cycle, and is counted in a new one, or fills it as the last of as many as the threshold, only when all have left the previous one |
| Barrier.OneSerialThread | 3rdparty/libuv/src/thread-common.c:114-119 | in every run, of each cycle that all have left exactly one thread returned 1, and none has returned 1 from a cycle still being left |
| Barrier.SomeoneGoesOn | 3rdparty/libuv/src/thread-common.c:101-116 | with as many threads inside as the threshold, one can go on without a spurious wakeup |
| Barrier.ArrivalsReturn | 3rdparty/libuv/src/thread-common.c:85-120 | in every run the arrivals are the returns and the threads inside |
| Utf8.DecodeEncode | 3rdparty/libuv/src/idna.c:26-103 | the reader of characters returns the characters of every well-formed text |
| Utf8.ReadIsWellFormed | 3rdparty/libuv/src/idna.c:26-103 | of texts whose lead bytes have their continuation bytes behind them just the well-formed ones are read: no overlong forms, no surrogates, nothing past the last character |
| Utf8.LooseTest | 3rdparty/libuv/src/idna.c:69-70 | what the common test of the continuation bytes asks of them |
| Utf8.IllFormedRead | 3rdparty/libuv/src/idna.c:46-70 | three bytes that are not well-formed and are read as one character, for a family of them |
| PunycodeLetters.DigitIs | 3rdparty/libuv/src/idna.c:107 | the digits are those of the literal alphabet |
| IdnaLetters.DotsAre | 3rdparty/libuv/src/idna.c:285-290 | the four dots of section 3.1 of RFC 3490 |
| PunycodeText.ReadDigits | 3rdparty/libuv/src/idna.c:214-240 | a variable-length integer is read back by the decoder of RFC 3492 |
| Idna.WriteDelta | 3rdparty/libuv/src/idna.c:214-240 | the digit loop writes the variable-length integer of section 3.3 of RFC 3492 |
| Idna.AdaptBias | 3rdparty/libuv/src/idna.c:242-258 | the two divisions and the loop compute the bias of section 6.1 of RFC 3492 |
| Idna.OverflowTest | 3rdparty/libuv/src/idna.c:196-197 | the division test is exact: it fires if and only if the 32-bit sum would overflow |
| Idna.InsertHandled | 3rdparty/libuv/src/idna.c:203-264 | writing the encoder's delta makes the decoder insert the character at its place among those handled |
| Idna.EncodePass | 3rdparty/libuv/src/idna.c:202-264 | one pass over the text writes every occurrence of one character, in step with the decoder |
| Idna.EncodeLabel | 3rdparty/libuv/src/idna.c:105-268 | refused exactly for text that cannot be read; too large exactly when a delta, as the text alone determines it, does not fit into 32 bits, which does not happen for short labels; on success an all-ASCII label is copied and any other is decoded, after its prefix, to exactly its characters |
| Idna.EncodeText | 3rdparty/libuv/src/idna.c:26-268 | the text of any characters is encoded and stands for them, unless a delta does not fit |
| Idna.OverflowsExact | 3rdparty/libuv/src/idna.c:191-264 | running through all passes fails exactly when the peak of some pass, in closed form over two characters that follow each other in order, is too large |
| Idna.ToAscii | 3rdparty/libuv/src/idna.c:270-315 | the output's fields between dots stand for the labels between the four dot characters, one for one, and a zero ends it |
| InetText.QuadRoundTrip | 3rdparty/libuv/src/inet.c:175-211 | a text is accepted as a dotted quad, and read as given bytes, if and only if it is the canonical text of these bytes |
| InetText.AddressRoundTrip | 3rdparty/libuv/src/inet.c:62-143 | every 128-bit address is read back from its text, with compression and embedded quads |
| InetText.CompressionUnique | 3rdparty/libuv/src/inet.c:83-106 | there is only one run that may be compressed |
| Inet.Ntop4 | 3rdparty/libuv/src/inet.c:48-59 | the canonical dotted quad, or an error exactly when it does not fit |
| Inet.Pton4 | 3rdparty/libuv/src/inet.c:175-211 | the character loop computes the parse that the round trip is about |
| Inet.LongestRun | 3rdparty/libuv/src/inet.c:83-106 | the run found is the first longest run of at least two zero words, as in section 4.2 of RFC 5952, or there is none |
| Inet.Ntop6 | 3rdparty/libuv/src/inet.c:62-143 | the text of the address with that run compressed; it always fits the inner buffer, and the parser reads it as this address |
| Inet.ShiftTail | 3rdparty/libuv/src/inet.c:283-292 | the in-place shift moves the words behind the colons to the end and leaves zeros between |
| Inet.Pton6 | 3rdparty/libuv/src/inet.c:214-298 | the character loop and the shift compute the parse that the round trip and the grammar are about |
| InetGrammar.HexValueIs | 3rdparty/libuv/src/inet.c:215-236 | the value of a digit is its place in one of the two literals |
| InetGrammar.AddressTexts | 3rdparty/libuv/src/inet.c:214-298 | a text is accepted, and read as given bytes, if and only if it consists of groups of one to four hexadecimal digits of either case with at most one pair of colons, perhaps a dotted quad at the end, and denotes these bytes |
| InetGrammar.FiveDigits | 3rdparty/libuv/src/inet.c:240-241 | a fifth digit is refused |
| InetGrammar.ColonsTwice | 3rdparty/libuv/src/inet.c:246-248 | two colons a second time are refused |
| InetGrammar.NineGroups | 3rdparty/libuv/src/inet.c:254-275 | a ninth group is refused |
| InetGrammar.HexCanonical | 3rdparty/libuv/src/inet.c:62-143 | a printed word has lower-case digits and no leading zero |
| InetGrammar.PrintedQuads | 3rdparty/libuv/src/inet.c:118-127 | four bytes behind six zero words, or behind five and ffff, are printed as a quad |
| InetGrammar.PrintedWords | 3rdparty/libuv/src/inet.c:107-135 | all other addresses are printed as words only |
| PowerOfTwo.NextPowerOfTwoLeast | 3rdparty/libuv/src/unix/core.c:846-855 | up to two to the 31st the result is the least power of two that is large enough; beyond it the sum wraps around to zero |
| PowerOfTwo.LargestDescriptor | 3rdparty/libuv/src/unix/core.c:874 | for the largest descriptor that may be started the result is zero |
| Watchers.Loop.MaybeResize | 3rdparty/libuv/src/unix/core.c:857-889 | the table grows to the least sufficient power of two less two, keeps all entries and the two values behind them, and the new slots are free; it fails, and the program aborts, exactly beyond two to the 31st |
| Watchers.Loop.IoStart | 3rdparty/libuv/src/unix/core.c:904-929 | the asked mask grows, the watcher is in its slot and counted once, and it is queued if something is left to register; a watcher whose mask came back to what is registered stays as it is, queued or not; the program aborts exactly for the largest descriptor |
| Watchers.Loop.IoStop | 3rdparty/libuv/src/unix/core.c:932-960 | a watcher that asks for nothing leaves queue, slot and count; otherwise it is queued |
| Watchers.Loop.IoClose | 3rdparty/libuv/src/unix/core.c:963-970 | the watcher is nowhere any more |
| Watchers.Loop.Register | 3rdparty/libuv/src/unix/kqueue.c:162-214 | the asserts on a drained watcher hold, and its additions are exactly what was asked for and not registered |
| Watchers.Loop.Drain | 3rdparty/libuv/src/unix/kqueue.c:154-214 | an empty table means an empty queue; afterwards what is registered is what is asked for, and every missing registration was handed over |
| Queues.InsertTail | 3rdparty/libuv/src/queue.h:92-99 | the node is linked behind the last one |
| Queues.InsertHead | 3rdparty/libuv/src/queue.h:83-90 | the node is linked before the first one |
| Queues.IsEmpty | 3rdparty/libuv/src/queue.h:39-40 | the head follows itself exactly when the list is empty |
| Queues.Remove | 3rdparty/libuv/src/queue.h:101-106 | exactly this node leaves the circle; its own links are left |
| Queues.Move | 3rdparty/libuv/src/queue.h:72-81 | all nodes go to the other list in the same order |
| Buffers.DataBuffer.AppendData | src/utils/data_buffer.hpp:66-106 | offsets, size and copies are those of the specification; unless ranges that overlap without being the same were copied, the visible bytes are the old ones and the input, in place, after compaction or in a larger buffer |
| Buffers.DataBuffer.ConsumeData | src/utils/data_buffer.hpp:108-126 | a consumed prefix leaves the visible bytes; a request beyond them or beyond the buffer's front changes nothing |
| Buffers.GetNewSize | src/utils/data_buffer.hpp:155-170 | the new size is enough, and for large requests is exactly ten kilobytes more |
| Buffers.NewSizeLeast | src/utils/data_buffer.hpp:155-170 | for others it is the least of four sizes that is enough |
| Buffers.RefinesQueue | src/utils/data_buffer.hpp:66-131 | a run of appends, consumes and resets copies overlapping ranges, or overlapping ranges that are not the same, exactly when one of its appends meets the condition, which its offsets decide; without the latter the buffer shows what a byte queue would hold |
| Buffers.AppendsOnly | src/utils/data_buffer.hpp:66-131 | a run of appends and resets copies no overlapping ranges but a range onto itself |
| Buffers.CompactionOverlap | src/utils/data_buffer.hpp:70-93 | an append copies overlapping ranges if and only if there is no room behind the data, there is room in front, and the data is shorter than its offset and starts within its own length of its new place; they are not the same if and only if moreover it is not at its new place |
| Buffers.OverlapReached | src/utils/data_buffer.hpp:70-93 | appending, consuming less than half and appending again reaches this state, for a family of sizes |
| HttpText.StringSplit | src/utils/stringex.hpp:15-34 | the loop computes the pieces, with an empty last piece dropped |
| HttpText.GetUriAndParams | src/net/http/http_common.hpp:13-36 | the loop fills in path and parameters, or fails exactly when an item is not a name and a value |
| HttpText.QueryRead | src/net/http/http_common.hpp:13-36 | a path and a printed query are read back: each name has the last value given for it, and there are no others |
| HttpText.ItemAccepted | src/net/http/http_common.hpp:27-31 | which texts of an item are a name and a value |
| HttpText.ItemRefused | src/net/http/http_common.hpp:27-31 | one item that is not refuses all parameters |
| HttpText.AtoiText | src/net/http/http_session.cpp:246 | white space, a sign and digits give the number, whatever follows |
| HttpText.VerdictStable | src/net/http/http_session.cpp:84-176 | more bytes never change the first action of a connection |
| HttpServer.HttpSession.AnalyzeHeader | src/net/http/http_session.cpp:195-252 | the header is taken apart as the specification says, with its refusals and its out-of-range cases |
| HttpServer.HttpSession.OnRead | src/net/http/http_session.cpp:84-104 | after each piece the outcome is the one for all bytes so far |
| HttpServer.Serve | src/net/http/http_session.cpp:178-193 | however the stream is cut, the first action (the handler's request and body included) is that for the whole stream |
| HttpServer.CutsAgree | src/net/http/http_session.cpp:84-193 | two ways of cutting one stream cannot be told apart |
| HttpRequests.AnyRequest | src/net/http/http_session.cpp:84-252 | the first action on a request with any verb, any headers and any part of its body: a preflight is answered, a `GET` calls the handler at once without a body, any other verb calls it once as many bytes are there as the last content length says, with exactly these; of a repeated header the first value is kept |
| HttpRequests.BodyAwaited | src/net/http/http_session.cpp:152-161 | with fewer bytes nothing is done, and then the handler gets exactly those the content length says |
| HttpRequests.BadFirstLine | src/net/http/http_session.cpp:207-235 | which first lines are refused, and which make taking the version throw |
| HttpRequests.BadHeaderLine | src/net/http/http_session.cpp:236-244 | which header lines are refused, and which make taking the value throw |
| HttpClient.OnConnect | src/net/http/http_client.cpp:73-96 | what is printed for a request |
| HttpClient.PrintedUnderstood | src/net/http/http_client.cpp:73-96 | the server understands the printed request: method, target with its parameters, every header and the whole body, unless the parameters are refused |
| HttpClient.UnderstoodHeaders | src/net/http/http_session.cpp:236-249 | each header has the value the client gave, `Accept` and `Host` are there, the length of the body is there for a post only, and there are no others |
| HttpClient.UnderstoodRest | src/net/http/http_session.cpp:221-247 | method, path, parameters, version and length are those printed |
| HttpClient.Deliver | src/net/http/http_session.cpp:84-252 | from client to server in whatever pieces the bytes arrive |
| Base64.Base64Encode | src/utils/base64.cpp:16-56 | the loops write the text of the byte string |
| Base64.Base64Decode | src/utils/base64.cpp:58-97 | the loops read the text, a partial last group included |
| Base64.EncodedLength | src/utils/base64.cpp:16-56 | four characters for every three bytes begun, all of the alphabet but for the padding of section 4 of RFC 4648: two signs for one byte left over, one for two, none for none |
| Base64.RoundTrip | src/utils/base64.cpp:58-97 | decoding an encoded byte string gives it back |
| Base64Letters.LetterIs | src/utils/base64.cpp:7-10 | the letters are those of the literal alphabet |
| Base64Letters.GroupBits | src/utils/base64.cpp:25-32 | the four letters of three bytes stand for their bits, six at a time |
| Crc.GetCrc32 | src/utils/crc.cpp:96-103 | the loop over the bytes with any table |
| Crc.LeRefines | src/utils/crc.cpp:50-103 | with the little-endian table the result is bit-at-a-time reflected division by 0xEDB88320, from any start value, as in section 8 of RFC 1952 |
| Crc.BeRefines | src/utils/crc.cpp:5-103 | with the other table it is bit-at-a-time division by 0x04C11DB7, highest bit first, of byte-swapped words |
| Crc.Chained | src/utils/crc.cpp:96-103 | splitting the input and going on from the first result gives the same |

## Left out

- Timers.Loop.RunTimers: works on the map that `TimerHeap` proves the heap to be; callbacks are finitely many scripts, and those beyond do nothing; the 64-bit start counter does not wrap around.
- Heaps.Heap.Insert: the member count is an unbounded number, so that its wrap-around at two to the 32nd is not modelled.
- RedBlack.RbTree.Insert: keys are integers in place of a comparison function; `RB_PREV` and `RB_NFIND`'s mirror are left out as mirror images.
- Splay.SplayTree.Splay: the amortised running time is not modelled.
- ThreadPool.NoLostWakeup: shutdown, the reset after a fork, and cancelling an item after its callback are not modelled; a signal wakes one sleeper, and any further one is a spurious wakeup.
- Async.Step: stopping the loop's descriptor and the reset after a fork are not modelled; a handle without callback counts as one whose callback does nothing.
- Barrier.Step: creation and destruction of the barrier are not modelled.
- PunycodeText.ReadDigits: the decoder works on unbounded numbers, so that the overflow checks of the decoder in RFC 3492 do not appear; the encoder's are modelled.
- Idna.EncodeLabel: the output buffer has room for everything, and a label has fewer than two to the 32nd less one bytes.
- Utf8.DecodeEncode: how text is read whose lead bytes have not their continuation bytes behind them is modelled, and stated only as far as `Utf8.LooseTest` goes.
- Inet.Pton6: the zone after a percent sign, which the wrapper cuts off, is not modelled.
- Watchers.Loop.IoStart: event masks are sets of four events; the pending queue, the removal of stale kernel events, and running out of memory are not modelled.
- Watchers.Loop.Drain: the batching of kernel calls and the special filter of file-system watchers are not modelled.
- Buffers.DataBuffer.AppendData: the copy constructor and assignment are not modelled, and sizes within twenty kilobytes of the largest `int` are excluded; a copy of ranges that overlap without being the same, undefined in the source, leaves unknown bytes in its target here and nothing else; a copy of a range onto itself, undefined by the letter of the C standard too, leaves the bytes.
- HttpServer.Serve: states the first action of a connection only; the null handler, the second and later handler calls, writing responses and the life of the connection are not modelled. Preflight requests are modelled up to the decision. The contents of the session's two buffers are strings; they are only appended to and reset, so that `Buffers.AppendsOnly` and `Buffers.RefinesQueue` justify this up to copies of a range onto itself.
- HttpClient.OnConnect: takes the headers in the order of the map as a sequence; the client's reading of responses is not modelled.
- HttpText.GetUriAndParams: starts from empty parameters, as the session does; a number beyond the range of `int` in a content length is read as itself.
- Base64.Base64Decode: the alphabet test is that of ASCII letters and digits.
- Queues.Move: `QUEUE_ADD` and `QUEUE_SPLIT` at an inner node are left out.
- Memory ordering weaker than sequential consistency, system calls, platform back ends, TLS, coroutines, logging and the other utilities are not part of this model.
