# RT-Thread kernel and shell: a verified model

The printer's firmware runs on RT-Thread. This project models the parts of it that carry the most state, and proves what
they keep over every run:

- the **finsh shell**: type check, compiler and stack machine, from the parsed tree to the value, down to the
  arithmetic of signed words (`finsh_words`, `finsh_machine`, `finsh_language`, `finsh_compiler`, `finsh_correct`,
  `finsh_shell`), and the heap it keeps its strings in (`finsh_heap_spec`, `finsh_heap`);
- **four allocators**: the boundary-tag heap (`small_heap_layout`, `small_heap_spec`, `small_heap_laws`, `small_heap`),
  memory pools (`memheap_spec`, `memheap_laws`, `memheap`), and pages and slab zones (`page_list`, `pages`, `slab_spec`,
  `slab_zones`, `slab_runs`, `slab_laws`, `slab`);
- **timers** compared modulo 2^32 (`timer_spec`, `timer_runs`, `timer_deadlines`, `timer_stops`, `timer`);
- **blocking communication**: mailboxes, message queues, mutexes with priority inheritance, events (`ipc_list`,
  `mailbox_spec`, `mailbox_laws`, `mailbox`, `message_queue_spec`, `message_queue_laws`, `message_queue`, `mutex_spec`,
  `mutex`, `event_spec`, `event_bits`, `event`);
- the **scheduler**, semaphores, sleeps and timeouts (`first_bit`, `ready_queue`, `ready_order`, `kernel_spec`, `kernel_laws`,
  `kernel`, `waits`), and what the timers make of the timeouts (`timed_waits`).

Every component has two layers. A specification on values says what one call, or one section that runs with interrupts
disabled, does to the abstract state; lemmas prove what every run of such steps keeps, and say, without its definition,
what a step comes to for its caller, for the threads on the lists and for the memory. Threads and interrupts may
interleave between the steps in any order. A class with the fields of the original updates them in place, and each of its
methods is proved to compute the specified step. The heaps, pools, page lists and message queues keep the links of the
original; the lists of timers, of ready threads and of waiting threads are sequences in the classes too. A pointer is an
index or an address, the null pointer is -1 or `None`; a 32-, 16- or 8-bit field that can wrap does so explicitly. `lists`,
`rings` and `linked_runs` hold what several components share.

Where code and comments disagree the model follows the code:

- a timer that an interrupt starts while a thread is in `rt_timer_start` for it is linked twice (`TimerRuns.DoubleLink`), and
  a timeout function must not restart its own timer after stopping it (`TimerSpec.RoundKeeps`, `TimerDeadlines.SelfRestart`);
- a timer linked when its deadline has passed may go behind all others (`TimerDeadlines.LateLink`);
- timers with equal deadlines are not first in, first out beyond the second (`TimerDeadlines.EqualDeadlineOrder`);
- the search of the small heap never takes an exact fit at its end, and shrinking leaves `lfree` too high
  (`SmallHeapSpec.MallocComplete`, `SmallHeapSpec.ShrinkLowest`);
- a memory pool is not 8-aligned after a request of 8 bytes or less that splits a block (`MemheapSpec.AllocAlignment`), and
  refuses a request for all it has (`MemheapSpec.WholePoolIsRefused`);
- the rounding of the largest sizes wraps to zero, and the block is then too small (`SmallHeapSpec.MallocKeeps`,
  `MemheapSpec.Request`, `FinshHeapSpec.AllocateComplete`); others break the heap of the shell
  (`FinshHeapSpec.AllocateKeeps`);
- slab chunks larger than a page are not all aligned to their power of two (`SlabRuns.ClassAligned`);
- a first-in-first-out mutex can hand over to a thread worse than one that waits (`MutexSpec.FifoInversion`), and the 256th
  nested take wraps its hold count (`MutexSpec.TakeKeeps`);
- eight increments overflow the text of the shell (`FinshCorrect.IncrementsOverflowText`, `FinshCorrect.TextFits`).

Check the whole project with `dafny verify dfyconfig.toml`.

## Model

| member | source | states |
|---|---|---|
| FinshCorrect.ProgramCorrect | RT-Thread/components/finsh/finsh_compiler.c:900-934 | Compiler correctness: for every well-typed statement list whose code fits the text and whose expressions fit the stack, running the emitted bytes faults exactly when the program has no meaning, and otherwise ends with the last value alone in stack slot 0 and the memory of the left-to-right source semantics |
| FinshCorrect.RunExpr | RT-Thread/components/finsh/finsh_ops.c:32-441 | The bytes of any expression push exactly its value and change memory as its meaning says, or both fail; `BinaryMeans`, `StepMeans` and `AssignedReads` say what that value is |
| FinshCorrect.RunPlace | RT-Thread/components/finsh/finsh_ops.c:317-435 | The bytes of a place push its address |
| FinshCorrect.CodeOfExpr | RT-Thread/components/finsh/finsh_compiler.c:43-898 | Type check puts the double-word type and the address flags so that the compiler emits exactly the bytes of the expression, then those of its siblings |
| FinshCorrect.CodeOfProgram | RT-Thread/components/finsh/finsh_compiler.c:900-934 | A statement list compiles to the bytes of its statements with POP in between |
| FinshCorrect.RunStatements | RT-Thread/components/finsh/finsh_compiler.c:900-934 | Statement after statement, values are popped and the last one stays |
| FinshCorrect.ExprBounds | RT-Thread/components/finsh/finsh_compiler.c:43-754 | An expression of n nodes needs at most n + 2 stack slots and 12n - 1 bytes, and n slots and 6n - 1 bytes without ++ and -- |
| FinshCorrect.TextFits | RT-Thread/components/finsh/finsh_compiler.c:900-934 | The code of a program fits the 128 bytes of text iff 5 bytes for each load, 1 for each operator, 2 for each assignment, 18 and 23 for each ++ or -- before and behind a variable, and a POP between two statements come to at most 128 |
| FinshCorrect.ExprSize | RT-Thread/components/finsh/finsh_compiler.c:43-754 | The bytes of every expression, counted from its operators alone |
| FinshCorrect.TableFits | RT-Thread/components/finsh/finsh.h:24-33 | A full node table of 16 nodes never needs more than 18 of 64 stack slots; the text holds every program of 10 nodes and every program of the table without ++ and -- |
| FinshCorrect.IncrementsOverflowText | RT-Thread/components/finsh/finsh_compiler.c:900-934 | Eight x++ fill the node table and need 191 of 128 text bytes: the table does not bound the text |
| FinshCorrect.LoadedIffFourBytes | RT-Thread/components/finsh/finsh_compiler.c:43-110 | A variable is typed as a double word and loaded iff its type is one of the eight four-byte types; void pointers are typed as double words, yet no byte is emitted for them |
| FinshMachine.OperandRoundTrip | RT-Thread/components/finsh/finsh_compiler.c:39-41 | FINSH_GET32 reads back at the program counter what FINSH_SET32 wrote |
| FinshWords.OperatorIs | RT-Thread/components/finsh/finsh_ops.c:32-294 | Every binary operator computes exactly what C says of the signed operands, and has a value iff it does not divide by zero or shift by 32 or more: sum, difference, product and left shift modulo 2^32; the quotient towards zero, with -2^31 / -1 as its one overflow, and the rest with the sign of the dividend; the floor of the right shift; and, or and exclusive or bit by bit |
| FinshWords.QuotientAndRest | RT-Thread/components/finsh/finsh_ops.c:99-140 | Quotient times divisor plus rest is the dividend, modulo 2^32, in every case |
| FinshWords.ComplementMeans | RT-Thread/components/finsh/finsh_ops.c:245-250 | The complement flips each of the 32 bits, so its signed value is one less than the negative |
| FinshMachine.StepOperates | RT-Thread/components/finsh/finsh_ops.c:42-45 | The instruction of an operator replaces the two top words by the word C computes from them, the lower one as the left operand, and faults iff there are no two words or no value |
| FinshLanguage.BinaryMeans | RT-Thread/components/finsh/finsh_ops.c:32-294 | The value of a binary expression is what C computes from the values of its operands, the left one evaluated first |
| FinshLanguage.StepMeans | RT-Thread/components/finsh/finsh_compiler.c:370-709 | ++ and -- change the signed value of their variable by one modulo 2^32 and no other variable; in front they give the new value, behind the old one |
| FinshLanguage.AssignedReads | RT-Thread/components/finsh/finsh_compiler.c:308-368 | An assignment gives the value of its right side; the variable then reads as that value and all others as before it |
| FinshLanguage.AddressIsPlace | RT-Thread/components/finsh/finsh_compiler.c:715-742 | Reading or assigning through the address of a place is reading or assigning the place |
| FinshLanguage.StatementsCompose | RT-Thread/components/finsh/finsh_compiler.c:900-934 | A program followed by another means the second in the memory the first one leaves |
| FinshLanguage.Difference | RT-Thread/components/finsh/finsh_ops.c:91-94 | 5-3 is 2 and 3-5 is -2 |
| FinshMachine.Step | RT-Thread/components/finsh/finsh_vm.c:63-71 | Every instruction that does not fault moves the program counter forward and not past the text, which is why the machine halts |
| FinshMachine.ZeroTail | RT-Thread/components/finsh/finsh_vm.c:63-71 | The cleared rest of the text runs through without effect |
| FinshCompiler.Compiler.TypeCheckNode | RT-Thread/components/finsh/finsh_compiler.c:756-898 | The recursive walk over the node table leaves exactly the type-checked tree and touches no other node |
| FinshCompiler.Compiler.CompileNode | RT-Thread/components/finsh/finsh_compiler.c:43-754 | The recursive walk appends exactly the bytes of the tree at the compile pointer and touches no byte behind them |
| FinshCompiler.Compiler.CompilerRun | RT-Thread/components/finsh/finsh_compiler.c:900-934 | The text afterwards is the code of the statement list, padded with zero bytes, although sibling links are cut on the way |
| FinshShell.Machine.Instruction | RT-Thread/components/finsh/finsh_vm.c:63-71 | Fetch and dispatch of one opcode on the real stack, text and memory is one step of the machine; `StepOperates` and `OperatorIs` say what an operator leaves |
| FinshShell.Machine.Operate | RT-Thread/components/finsh/finsh_ops.c:42-45 | The word left on the stack is the one C computes from the two top words, and the operation fails iff there are no two words or no value |
| FinshShell.Machine.VmRun | RT-Thread/components/finsh/finsh_vm.c:47-72 | The fetch loop computes the run of the machine from the start of the text |
| FinshShell.EvaluateLine | RT-Thread/components/finsh/finsh_compiler.c:900-934 | Compile and run of a parsed line: result, variables and faults are those of the meaning of the program |
| SmallHeapSpec.RunKeeps | RT-Thread/src/mem.c:246-558 | Over any run of malloc, free and realloc: blocks tile the heap, free ones are never adjacent, lfree is a free block or the sentinel, used_mem is the sum of the used blocks; without realloc lfree is the lowest free block |
| SmallHeapSpec.MallocKeeps | RT-Thread/src/mem.c:246-374 | malloc adds one live block, disjoint from all others, or changes nothing; the block (`MallocPlaces` says which and how long) holds the request iff the request is not one of the last seven sizes, whose rounding wraps to zero |
| SmallHeapSpec.WrappedRequest | RT-Thread/src/mem.c:258-266 | A request for 0xffffffff bytes succeeds on a heap with 160 bytes |
| SmallHeapLaws.MallocPlaces | RT-Thread/src/mem.c:280-366 | malloc takes the lowest free block with room at or above lfree; the live block is exactly the rounded request with its header, and the rest stays a free block, unless the rest could not hold a header and a smallest block: then it goes with the block; no other free block changes |
| SmallHeapLaws.ReallocPlaces | RT-Thread/src/mem.c:385-466 | The same rounded size changes nothing; a size smaller by more than a header and MIN_SIZE shortens the block in place to exactly that size and frees the rest; otherwise the answer is that of malloc |
| SmallHeapLaws.FreeIsRest | RT-Thread/src/mem.c:246-558 | Every byte of the heap is in a free block iff it is in no live one |
| SmallHeapLaws.Canonical | RT-Thread/src/mem.c:136-174 | The live blocks determine the whole list of blocks: each gap between them is one free block |
| SmallHeapLaws.RoundTrip | RT-Thread/src/mem.c:246-558 | Freeing what was just allocated restores the list of blocks and used_mem |
| SmallHeapSpec.MallocComplete | RT-Thread/src/mem.c:265-374 | With lfree lowest, malloc fails iff the size is zero or too large, or no free block that starts below mem_size_aligned - size has room |
| SmallHeapSpec.FreeKeeps | RT-Thread/src/mem.c:504-558 | free removes exactly the freed block from the live ones, joins neighbours, and keeps lfree lowest |
| SmallHeapSpec.ShrunkKeeps | RT-Thread/src/mem.c:430-454 | Shrinking in place moves only the end of the block |
| SmallHeapSpec.ReallocKeeps | RT-Thread/src/mem.c:385-466 | realloc replaces the block by one that overlaps no other live block, or leaves the heap as it was; the block holds the new size iff the rounding of the size does not wrap |
| SmallHeapSpec.AllFreed | RT-Thread/src/mem.c:136-231 | After any run in which everything was freed, in any order, the heap is one free block and used_mem is 0 |
| SmallHeapSpec.LivePointerInRange | RT-Thread/src/mem.c:504-525 | A pointer to a live block passes the range test of free |
| SmallHeapSpec.ShrinkLowest | RT-Thread/src/mem.c:430-454 | After shrinking in place lfree is still the lowest free block iff it was below the block or was the block behind it |
| SmallHeapSpec.ShrinkLeavesLfree | RT-Thread/src/mem.c:430-454 | A concrete run after which lfree is not the lowest free block |
| SmallHeapSpec.TinyHeapSearch | RT-Thread/src/mem.c:280-283 | In a heap of less than 16 bytes the bound of the search loop wraps and stays true at the sentinel while no block has room |
| SmallHeapLayout.LiveDisjoint | RT-Thread/src/mem.c:246-374 | Live blocks are 8-aligned, inside the heap and pairwise disjoint |
| SmallHeapLayout.PlugKeeps | RT-Thread/src/mem.c:136-174 | plug_holes joins a free block with both neighbours and leaves live blocks and used_mem as they are |
| SmallHeap.Heap.constructor | RT-Thread/src/mem.c:184-231 | The headers written at the start are those of one free block and the end sentinel |
| SmallHeap.Heap.PlugHoles | RT-Thread/src/mem.c:136-174 | In place on next, prev and used fields: prev links invert next, the sentinel excepted; no byte of a live block changes |
| SmallHeap.Heap.Malloc | RT-Thread/src/mem.c:246-374 | The search and split in place computes the result that `MallocKeeps`, `MallocPlaces` and `MallocComplete` speak of, and changes no byte of a live block |
| SmallHeap.Heap.Free | RT-Thread/src/mem.c:504-558 | In place, with null and out-of-range pointers ignored; the bytes of the other live blocks stay |
| SmallHeap.Heap.MemCopy | RT-Thread/src/kservice.c:217-279 | rt_memcpy by four words, words and bytes copies exactly count bytes |
| SmallHeap.Heap.Realloc | RT-Thread/src/mem.c:385-466 | On every path a result holds the first min(old, new) bytes, all other live bytes are unchanged, and no result leaves everything unchanged |
| MemheapSpec.PoolsTile | RT-Thread/src/memheap.c:58-494 | Over any run of alloc and free: headers and rooms tile the pool, available_size is the room of the free blocks, memory of different blocks is disjoint, no two neighbours are free; with nothing allocated one free block has all memory |
| MemheapSpec.RunKeeps | RT-Thread/src/memheap.c:144-494 | Every run keeps the block ring, the free list and available_size consistent, and max_used_size an upper bound of the use |
| MemheapSpec.AllocKeeps | RT-Thread/src/memheap.c:144-287 | Splitting or taking a block keeps the invariant |
| MemheapSpec.AllocComplete | RT-Thread/src/memheap.c:144-287 | alloc fails iff the rounded size is not below available_size or no free block has room; otherwise it returns a block that was free, is used and has room |
| MemheapSpec.FreeKeeps | RT-Thread/src/memheap.c:403-494 | free with left and right merge keeps the invariant; in particular no free neighbours remain |
| MemheapSpec.Request | RT-Thread/src/memheap.c:152-155 | The rounded size is at least the minimum and a multiple of 4, and covers the request unless the rounding wraps in 32 bits |
| MemheapSpec.AllocOthers | RT-Thread/src/memheap.c:144-287 | An allocation leaves every other allocated block where and as large as it is, and its own was not allocated |
| MemheapLaws.AllocPlaces | RT-Thread/src/memheap.c:175-287 | An allocation takes the first block of the free list with room; the block is exactly the rounded request, and the rest, up to the next block, is a free block, unless it could not hold a header and a smallest block; no other free block changes |
| MemheapSpec.FreeOthers | RT-Thread/src/memheap.c:403-494 | A release takes exactly its own block from the allocated ones, whatever it is merged with |
| MemheapSpec.BlockStays | RT-Thread/src/memheap.c:144-494 | Over any run, a block that is not freed stays where and as large as it is |
| MemheapSpec.AllocAlignment | RT-Thread/src/memheap.c:152-199 | Blocks stay 8-aligned iff the rounded request is above the 12-byte minimum, or nothing is allocated, or the first fitting block is too small to be split |
| MemheapSpec.WholePoolIsRefused | RT-Thread/src/memheap.c:160-160 | All memory of a new pool cannot be allocated at once although its block has room |
| Memheaps.Memheap.constructor | RT-Thread/src/memheap.c:58-130 | The item headers written at the start form the two rings of one free block and the used tailer |
| Memheaps.Memheap.Search | RT-Thread/src/memheap.c:175-188 | The walk along the free list finds the first block with room |
| Memheaps.Memheap.Alloc | RT-Thread/src/memheap.c:144-287 | On the four link fields and the used marks in place: both rings and the marks afterwards are those of the specified pool |
| Memheaps.Memheap.Split | RT-Thread/src/memheap.c:192-238 | Splitting relinks both doubly linked rings; the free list has exactly the blocks not marked as used |
| Memheaps.Memheap.MergeLeft | RT-Thread/src/memheap.c:439-456 | The left neighbour, found by its used mark, takes the block over; the first block never merges with the tailer |
| Memheaps.Memheap.MergeRight | RT-Thread/src/memheap.c:458-477 | The right neighbour leaves both rings |
| Memheaps.Memheap.Free | RT-Thread/src/memheap.c:403-494 | Links, marks and available_size updated in place are those of the specified release |
| Rings.RingInsert | RT-Thread/include/rtservice.h:62-69 | Inserting behind a node of a doubly linked ring gives the ring with the new node there |
| Rings.RingRemove | RT-Thread/include/rtservice.h:90-96 | Unlinking a node gives the ring without it |
| TimerRuns.RunKeepsIff | RT-Thread/src/timer.c:247-465 | Over a run of ticks, calls and the pieces of calls that interrupts come between, however often the tick wraps: the list stays without repetitions and sorted by deadline, all deadlines ahead and within half the tick range, and everything fires exactly at its deadline, iff each piece finds its timer as the thread left it: off the list and its deadline ahead before linking, off the list before clearing the flag |
| TimerRuns.StepKeeps | RT-Thread/src/timer.c:255-359 | The same for one step: exactly when the guard of the piece holds |
| TimerRuns.RunKeeps | RT-Thread/src/timer.c:247-465 | A run whose guards hold ends in such a state, with the log of firings only grown |
| TimerRuns.UndisturbedStart | RT-Thread/src/timer.c:255-309 | A thread that has found the flag clear may link iff the deadline is still ahead, if nobody else has started the timer or written its deadline meanwhile, whatever else came between |
| TimerRuns.UndisturbedStop | RT-Thread/src/timer.c:344-359 | A thread that has unlinked a timer may clear its flag if nobody has started the timer meanwhile |
| TimerRuns.StartedBetween | RT-Thread/src/timer.c:255-309 | An interrupt that starts the timer between the test of the flag and the linking makes the thread link a listed timer: it is on the list twice |
| TimerRuns.DoubleLink | RT-Thread/src/timer.c:255-309 | Such a run, from every sound state with an idle timer |
| TimerRuns.StartIsLost | RT-Thread/src/timer.c:356-359 | A start between the unlinking and the clearing of the flag is refused and changes nothing |
| TimerSpec.RoundKeeps | RT-Thread/src/timer.c:421-456 | Calling the timeout function of the head, whatever it starts and stops, and restarting periodic timers keeps the invariant iff the function does not start its own timer after its last stop of it |
| TimerSpec.FiredKeeps | RT-Thread/src/timer.c:421-456 | Such a round fires the head at its deadline, makes nothing else due, and lists every active timer |
| TimerSpec.CheckedKeeps | RT-Thread/src/timer.c:408-465 | A check terminates with every remaining deadline later than now |
| TimerDeadlines.ExactDeadline | RT-Thread/src/timer.c:408-465 | A timer on the list, due at d, that nothing stops before it fires: not fired before d, and fired once when the clock has reached d, at d |
| TimerDeadlines.StartIsPending | RT-Thread/src/timer.c:247-328 | Linking puts the timer on the list, due its delay after the tick that was read |
| TimerDeadlines.PeriodicDeadlines | RT-Thread/src/timer.c:443-456 | A periodic timer left alone has fired exactly at those of d, d + p, d + 2p and so on that the clock has reached |
| TimerStops.IdleIsSilent | RT-Thread/src/timer.c:338-465 | A timer off the list stays off it and does not fire, however threads, calls and ticks interleave, until it is started |
| TimerStops.StopIsIdle | RT-Thread/src/timer.c:338-362 | After a stop the timer is off the list, and an inactive timer always is |
| TimerDeadlines.EqualDeadlineOrder | RT-Thread/src/timer.c:287-305 | A newcomer goes behind all timers with its deadline iff there is at most one |
| TimerDeadlines.EqualDeadlinesNotInOrder | RT-Thread/src/timer.c:287-305 | A third timer with the same deadline goes between the first two |
| TimerDeadlines.LateLink | RT-Thread/src/timer.c:265-312 | A timer linked when its deadline has passed, by less than half the tick range: it goes to the head iff the list is empty or the first deadline is less than half the range after its own, and then the next tick fires it, late, unless it is late by half the range by then; otherwise it goes behind everybody and the next tick does not fire it |
| TimerDeadlines.LateLinkIsLost | RT-Thread/src/timer.c:290-301 | Such a timer: due at 99 and linked at tick 100 behind one with the largest delay |
| TimerDeadlines.RoundsSkip | RT-Thread/src/timer.c:421-432 | In any state of the list and with any timeout functions, a check fires no timer whose deadline does not seem to be reached in 32 bits |
| TimerDeadlines.ZeroDelayIsLate | RT-Thread/src/timer.c:247-328 | On every list a started timer is due ahead iff its delay is at least one tick; with a delay of zero it fires one tick after its deadline |
| TimerDeadlines.SelfRestart | RT-Thread/src/timer.c:436-456 | A timeout function that stops and restarts its own timer, in every state: a periodic timer is then listed twice, a one-shot one is listed with its flag clear |
| TimerSpec.ModularOrder | RT-Thread/src/timer.c:292-301 | Comparing 32-bit differences with half the range is comparing true deadlines, for deadlines less than half the range apart |
| TimerSpec.LinkedKeeps | RT-Thread/src/timer.c:285-309 | The place found by 32-bit differences keeps the list sorted by true deadlines iff the deadline is ahead and the timer was off the list |
| TimerSpec.RoundsChecked | RT-Thread/src/timer.c:421-432 | The loop with its 32-bit test is the check by true deadlines |
| TimerRuns.EveryState | RT-Thread/src/timer.c:247-465 | That invariant in every state reached, while the guards hold, from a state without active timers |
| TimerList.List.WriteTimeout | RT-Thread/src/timer.c:265-265 | The deadline in 32 bits, from the tick that was read |
| TimerList.List.LinkSection | RT-Thread/src/timer.c:268-312 | The search by 32-bit differences and the linking in place are the specified link, also when the deadline has passed |
| TimerList.List.Start | RT-Thread/src/timer.c:247-328 | Start in place, called with interrupts disabled, is the specified start |
| TimerList.List.UnlinkSection | RT-Thread/src/timer.c:350-356 | The timer leaves the list |
| TimerList.List.Stop | RT-Thread/src/timer.c:338-362 | Stop in place, called with interrupts disabled, is the specified stop |
| TimerList.List.Fire | RT-Thread/src/timer.c:421-456 | A round of the check in place is the specified round |
| TimerList.List.Check | RT-Thread/src/timer.c:408-465 | The check loop in place is the specified check |
| TimerList.List.TickIncrease | RT-Thread/src/clock.c:83-105 | The tick interrupt: the tick wraps modulo 2^32, then due timers fire |
| TimedWaits.TimedWait | RT-Thread/src/thread.c:422-660 | With the timers of the threads, however threads and interrupts interleave: a wait with a timeout goes on only before its deadline, or was ended by a resume without its timer firing, or has timed out, its timer having fired once, at the deadline |
| TimedWaits.SleepsExactly | RT-Thread/src/thread.c:422-450 | A thread that sleeps n ticks is not made ready before n ticks, and is made ready by the check of that tick |
| TimedWaits.StartCoupled | RT-Thread/src/thread.c:86-140 | While nobody waits and no timer runs, threads and timers are coupled: the state every run begins with |
| TimedWaits.WaitBegins | RT-Thread/src/ipc.c:366-391 | Taking a semaphore with a timeout, and sleeping, list the timer of the thread, due that many ticks from now |
| TimedWaits.ActKeeps | RT-Thread/src/thread.c:422-629 | Every step of a thread or an interrupt keeps the listed timers those of the threads that wait with a timeout, and the deadlines of waits that go on |
| TimedWaits.SweptWait | RT-Thread/src/timer.c:408-465 | The check ends exactly the waits due at its tick |
| IpcList.SuspendedIs | RT-Thread/src/ipc.c:91-134 | Suspending adds exactly the thread; with the priority flag the list stays ordered, the newcomer behind everybody of its priority |
| IpcList.QueuedIs | RT-Thread/src/ipc.c:91-134 | A thread is put at one place: the end for the first-in-first-out flag; for the priority flag, in an ordered list, behind all of its priority or a better one and before the others |
| IpcList.Insert | RT-Thread/src/ipc.c:99-131 | The search loop computes that place |
| IpcList.WithoutKeeps | RT-Thread/src/thread.c:638-659 | A timeout removes exactly its thread and keeps the order |
| MailboxSpec.NobodyWaitsInVain | RT-Thread/src/ipc.c:1415-1685 | Over every interleaving of sections: mails come out in the order they went in, and once all resumed threads have run no receiver waits while there is mail and no sender while there is room |
| MailboxSpec.RunKeeps | RT-Thread/src/ipc.c:1415-1726 | No wakeup is lost: while receivers wait, resumed receivers number at least the mails; while senders wait, resumed senders number at least the free slots |
| MailboxSpec.SendKeeps | RT-Thread/src/ipc.c:1415-1535 | A section of send, of a new call or of a resumed thread, loses no wakeup and no mail |
| MailboxSpec.RecvKeeps | RT-Thread/src/ipc.c:1562-1685 | A section of recv loses no wakeup and no mail |
| MailboxSpec.ExpiredKeeps | RT-Thread/src/thread.c:638-659 | A timeout of a waiting thread loses no wakeup |
| MailboxSpec.ClearedKeeps | RT-Thread/src/ipc.c:1697-1726 | A reset leaves an empty mailbox nobody waits for, with all waiting threads failed |
| MailboxSpec.RemainingIs | RT-Thread/src/ipc.c:1494-1505 | What is left of a timeout is the rest, not below zero, iff the delay is at most the timeout plus half the range of a word; for longer delays the 32-bit subtraction wraps to more than the timeout |
| MailboxSpec.TotalWait | RT-Thread/src/ipc.c:1437-1685 | However often a call is resumed and waits again, what is left is its timeout less all its delays, and more than zero; a call without a timeout keeps none |
| MailboxLaws.SendOutcome | RT-Thread/src/ipc.c:1437-1535 | With room the mail becomes the last one and the first receiver is resumed with its time, nobody else being touched; without room a call with no time left changes nothing, and any other waits on the list of senders |
| MailboxLaws.RecvOutcome | RT-Thread/src/ipc.c:1588-1685 | With mail the oldest is fetched and the first sender resumed with its mail and time; without mail a call with no time left changes nothing, and any other waits |
| MailboxLaws.ClearOutcome | RT-Thread/src/ipc.c:1697-1726 | A reset fails exactly the waiting threads |
| MailboxLaws.WaitersInOrder | RT-Thread/src/ipc.c:1415-1726 | In every step senders and receivers that wait on keep their order, and whoever is resumed was the first of its list |
| Mailboxes.RingPush | RT-Thread/src/ipc.c:1507-1514 | Storing at in_offset with wrap-around adds the newest mail of the ring |
| Mailboxes.RingPop | RT-Thread/src/ipc.c:1654-1662 | The mail at out_offset is the oldest; moving the offset with wrap-around removes it |
| Mailboxes.Mailbox.constructor | RT-Thread/src/ipc.c:1264-1293 | A new mailbox is empty |
| Mailboxes.Mailbox.SendSection | RT-Thread/src/ipc.c:1437-1535 | Store, give up or suspend, in place on the ring, the offsets and the lists |
| Mailboxes.Mailbox.RecvSection | RT-Thread/src/ipc.c:1588-1685 | Fetch, give up or suspend, in place |
| Mailboxes.Mailbox.ContinueSection | RT-Thread/src/ipc.c:1494-1505 | A resumed thread works out the rest of its timeout and looks again |
| Mailboxes.Mailbox.ResetSection | RT-Thread/src/ipc.c:1697-1726 | The two resume-all loops and the reset of the ring |
| MessageQueueSpec.NothingIsLost | RT-Thread/src/ipc.c:1935-2289 | Over every interleaving, also in the middle of send and recv: each node is free, queued or held by one thread; each message posted is delivered once or queued once; and when every resumed thread has run nobody waits while a message is queued |
| MessageQueueSpec.DeliveryOrder | RT-Thread/src/ipc.c:1974-2072 | In every such state the queue is the undelivered urgent messages, newest first, then the undelivered others in posting order; and the others ever posted are those delivered followed by those queued, whatever urgent sends came between |
| MessageQueueSpec.ReceivesFirst | RT-Thread/src/ipc.c:2203-2216 | A receive takes the newest undelivered urgent message, or else the oldest undelivered one |
| MessageQueueSpec.RunKeeps | RT-Thread/src/ipc.c:1935-2289 | Every interleaving keeps the invariant |
| MessageQueueSpec.PartitionKept | RT-Thread/src/ipc.c:1935-2289 | No step duplicates or loses a node |
| MessageQueueSpec.ContentsKept | RT-Thread/src/ipc.c:1935-2289 | Queued, filled and read nodes carry their messages, although copies run with interrupts enabled |
| MessageQueueSpec.WaitingKept | RT-Thread/src/ipc.c:1935-2289 | While receivers wait, resumed receivers number at least the queued messages |
| MessageQueueSpec.LogsKept | RT-Thread/src/ipc.c:1935-2233 | No step loses or repeats a message or leaves that order |
| MessageQueueSpec.ReceivedIsPosted | RT-Thread/src/ipc.c:2203-2219 | What a receiver gets agrees with the message whose node it unlinked, cut to the size it asked for |
| MessageQueueSpec.ClearedPartition | RT-Thread/src/ipc.c:2245-2284 | Reset returns all queued nodes to the free list |
| MessageQueueLaws.SendOutcome | RT-Thread/src/ipc.c:1950-1967 | A send fails, changing nothing, iff no node is free; otherwise it takes a free node and posts nothing yet |
| MessageQueueLaws.LinkOutcome | RT-Thread/src/ipc.c:1974-2009 | Linking puts an urgent message in front of all and any other behind all, and resumes the first receiver with what is left of its call; no other thread is touched |
| MessageQueueLaws.RecvOutcome | RT-Thread/src/ipc.c:2126-2216 | A receive takes the first message; with none it changes nothing when no time is left and waits on the list otherwise |
| MessageQueueLaws.ClearOutcome | RT-Thread/src/ipc.c:2245-2284 | A reset fails exactly the waiting threads; the queued nodes are free |
| MessageQueueLaws.NobodyWaitsWithoutTime | RT-Thread/src/ipc.c:2126-2201 | In no reachable state does a receiver wait that called with timeout 0 or has no time left |
| MessageQueueLaws.ReceiversInOrder | RT-Thread/src/ipc.c:91-134 | In every step receivers that wait on keep their order, and whoever is resumed was the first of the list |
| MessageQueues.MessageQueue.constructor | RT-Thread/src/ipc.c:1779-1793 | The initialisation loop links all nodes into the free list, the last one first |
| MessageQueues.MessageQueue.TakeFreeSection | RT-Thread/src/ipc.c:1950-1967 | The first free node is taken, or the queue is full |
| MessageQueues.MessageQueue.FillSection | RT-Thread/src/ipc.c:1969-1972 | The node taken is private: writing its link and its bytes changes no list |
| MessageQueues.MessageQueue.Append | RT-Thread/src/ipc.c:1976-1990 | Linking behind the tail through next pointers appends to the queue, whose tail is its last node or null |
| MessageQueues.MessageQueue.Push | RT-Thread/src/ipc.c:2063-2072 | Linking in front of the head, also into an empty queue |
| MessageQueues.MessageQueue.LinkSection | RT-Thread/src/ipc.c:1974-2009 | The last section of both send calls; entry is the length of the queue |
| MessageQueues.MessageQueue.RecvSection | RT-Thread/src/ipc.c:2126-2216 | Unlink the head, give up or suspend; the tail becomes null with the last node |
| MessageQueues.MessageQueue.CopySection | RT-Thread/src/ipc.c:2218-2219 | The copy reads the private node |
| MessageQueues.MessageQueue.PutBackSection | RT-Thread/src/ipc.c:2221-2227 | The node returns to the front of the free list |
| MessageQueues.MessageQueue.ResetSection | RT-Thread/src/ipc.c:2245-2284 | Resume-all and the loop that moves the queue to the free list |
| MutexSpec.MutualExclusion | RT-Thread/src/ipc.c:662-876 | In every reachable state, for both flags: at most one thread is inside and is the owner; owner, value 0 and hold >= 1 coincide; only the owner runs above its base priority, at the best of those that waited for it; the last release restores the base priority; exactly the waiting threads are on the list, none of which called with time 0 |
| MutexSpec.PriorityInheritance | RT-Thread/src/ipc.c:662-876 | With the priority flag the owner is never worse than a waiter, and the list is ordered |
| MutexSpec.TakeKeeps | RT-Thread/src/ipc.c:662-780 | A take keeps everything iff it does not overflow the 8-bit hold count |
| MutexSpec.TakeOutcome | RT-Thread/src/ipc.c:662-780 | A mutex nobody else owns is taken at once; one that another thread owns stays exactly as it is for a take with time 0, and any other take waits on the list at its place, the owner then running at no worse a priority |
| MutexSpec.ReleaseOutcome | RT-Thread/src/ipc.c:792-876 | A release by another thread changes nothing; the owner keeps the mutex until its last release, which makes the first waiter the owner or leaves the mutex free |
| MutexSpec.LastReleaseKeeps | RT-Thread/src/ipc.c:822-858 | The last release hands over to the first waiter and restores the priority |
| MutexSpec.FifoInversion | RT-Thread/src/ipc.c:829-850 | With the first-in-first-out flag a hand-over causes an inversion iff the first waiter is worse than one behind it |
| MutexSpec.FifoCounterexample | RT-Thread/src/ipc.c:829-850 | A run with such an inversion |
| MutexSpec.OtherStepsKeepOrder | RT-Thread/src/ipc.c:662-876 | No other step causes one, whatever the flag |
| Mutexes.MutexObject.TakeSection | RT-Thread/src/ipc.c:662-780 | Fields, priorities and waiters updated in place are those of the take proved to keep the invariant; taken means the thread owns the mutex and has taken it once more, timed out that nothing at all has changed, and only a blocked thread is put on the list, with a time other than 0 |
| Mutexes.MutexObject.ReleaseSection | RT-Thread/src/ipc.c:792-876 | The same for release; anybody but the owner gets an error |
| EventSpec.NobodyWaitsForNothing | RT-Thread/src/ipc.c:1015-1210 | In every reachable state no waiting thread could receive what it waits for, and none called with timeout 0 |
| EventBits.ReceiveBits | RT-Thread/src/ipc.c:1142-1162 | A receive gets something iff, with AND, every wanted flag is set or, with OR alone, some flag is both wanted and set; it gets exactly the flags that are wanted and set, and clears the wanted ones iff it was asked to |
| EventBits.RecvOutcome | RT-Thread/src/ipc.c:1109-1195 | A call takes its flags at once if its condition is fulfilled; if not, it changes nothing with timeout 0 and waits on the list otherwise |
| EventBits.SendBits | RT-Thread/src/ipc.c:1015-1094 | After a send a flag is set iff it was set or sent and no waiting thread that was resumed wanted it cleared; with nobody waiting, iff it was set or sent |
| EventBits.FirstServed | RT-Thread/src/ipc.c:1041-1094 | The first waiting thread is resumed iff the flags set before and sent fulfil its condition, and gets exactly those of them it wants; otherwise it waits on unchanged |
| EventBits.WaitersUnfulfilled | RT-Thread/src/ipc.c:1015-1210 | In every reachable state the condition of no waiting thread, flag by flag, is fulfilled |
| EventSpec.WalkReceives | RT-Thread/src/ipc.c:1041-1094 | One send gives its waiters, in list order, exactly what non-blocking receives at that point would get and clears what they would clear |
| EventSpec.WalkLeavesUnsatisfied | RT-Thread/src/ipc.c:1041-1094 | Whoever is left is not satisfied by the flags left, although the walk clears flags on the way |
| EventSpec.GrantIsReceive | RT-Thread/src/ipc.c:1050-1094 | What a waiter is given is what a non-blocking receive returns |
| EventSpec.WalkKeepsOrder | RT-Thread/src/ipc.c:1041-1094 | The threads left keep their order |
| EventSpec.SendKeeps | RT-Thread/src/ipc.c:1015-1094 | After a send again nobody waits for what is there |
| EventSpec.RecvKeeps | RT-Thread/src/ipc.c:1109-1210 | A receive that clears flags makes no waiter satisfied, and one that waits is not satisfied |
| EventSpec.RunKeeps | RT-Thread/src/ipc.c:1015-1250 | Over any run of sends, receives, timeouts and resets the list has exactly the waiting threads and none of them is satisfied |
| Events.EventObject.WalkWaiters | RT-Thread/src/ipc.c:1041-1094 | The list walk in place, with event_set and event_info of the threads, is the specified walk |
| Events.EventObject.Check | RT-Thread/src/ipc.c:1046-1067 | The test of a waiting thread in place: satisfied iff its condition holds flag by flag, and then its set is the flags that it wants and that are set |
| Events.EventObject.Send | RT-Thread/src/ipc.c:1015-1094 | The flags are added and the walk done in place; an empty set is an error and changes nothing |
| Events.EventObject.RecvSection | RT-Thread/src/ipc.c:1109-1195 | Received iff the set is not empty and the condition holds flag by flag; the flags returned and left are those wanted and set, and not cleared; nothing there and an empty set change nothing, and only a blocked thread, with a timeout other than 0, is put on the list |
| Events.EventObject.ResumedSection | RT-Thread/src/ipc.c:1190-1203 | A resumed receiver returns the flags the send stored for it |
| Events.EventObject.ResetSection | RT-Thread/src/ipc.c:1222-1250 | All waiting threads fail, and the flags are gone |
| FirstBit.FfsFinds | RT-Thread/src/kservice.c:1215-1259 | __rt_ffs finds the lowest set bit, counted from 1, and returns 0 only for 0 |
| FirstBit.LowestBitIs | RT-Thread/src/kservice.c:1217-1235 | Every table entry but the first is the index of the lowest set bit of its byte |
| ReadyQueue.ChosenIsBest | RT-Thread/src/scheduler.c:190-220 | While a thread is ready, the thread chosen is ready, first of its list, and of the best priority |
| ReadyQueue.OnOneList | RT-Thread/src/scheduler.c:264-347 | A ready thread is once on the list of its priority and on no other list |
| ReadyQueue.InsertKeeps | RT-Thread/src/scheduler.c:264-300 | Inserting a suspended thread keeps bit p set iff list p has a thread, and every ready thread on exactly its list; the order is in `ReadyOrder` |
| ReadyQueue.RemoveKeeps | RT-Thread/src/scheduler.c:309-347 | Removing a ready thread keeps bit map and lists exact |
| ReadyQueue.StartedKeeps | RT-Thread/src/thread.c:204-235 | Startup keeps bit map and lists exact |
| ReadyQueue.SuspendedKeeps | RT-Thread/src/thread.c:555-583 | Suspend keeps bit map and lists exact |
| ReadyQueue.ResumedKeeps | RT-Thread/src/thread.c:593-629 | Resume keeps bit map and lists exact |
| ReadyQueue.PriorityChangedKeeps | RT-Thread/src/thread.c:477-542 | Changing the priority of a ready, suspended or fresh thread keeps bit map and lists exact |
| ReadyQueue.YieldedKeeps | RT-Thread/src/thread.c:378-412 | Yield keeps bit map and lists exact |
| ReadyQueue.YieldIsFair | RT-Thread/src/thread.c:378-412 | After a yield the thread is last and the second one first |
| ReadyQueue.EndedKeeps | RT-Thread/src/thread.c:47-83 | Exit, delete and detach of a started thread keep bit map and lists exact |
| ReadyOrder.ResumedJoins | RT-Thread/src/scheduler.c:264-300 | A resumed thread goes behind everybody on the list of its priority; no other thread moves |
| ReadyOrder.StartedJoins | RT-Thread/src/thread.c:204-235 | So does a started one, with its base priority |
| ReadyOrder.SuspendedLeaves | RT-Thread/src/scheduler.c:309-347 | A thread that is suspended or ends leaves its list; no other thread moves |
| ReadyOrder.PriorityChangedMoves | RT-Thread/src/thread.c:477-542 | A ready thread whose priority changes leaves its list and goes behind everybody on the other; any other moves nobody |
| ReadyOrder.ChosenAfterJoin | RT-Thread/src/scheduler.c:190-220 | When a thread becomes ready, rt_schedule chooses it iff its priority is better than that of the choice before, which stays otherwise, also among equals |
| ReadyOrder.ChosenAfterLeave | RT-Thread/src/scheduler.c:190-220 | When another thread leaves the choice stays; when the choice leaves, the next on its list is chosen |
| ReadyOrder.ChosenAfterYield | RT-Thread/src/thread.c:378-412 | After a yield of the choice the next on its list is chosen, if there is one |
| KernelObjects.Scheduler.constructor | RT-Thread/src/scheduler.c:119-146 | All lists and the bit map start empty |
| KernelObjects.Scheduler.InsertThread | RT-Thread/src/scheduler.c:264-300 | The table, bit map and thread field updated in place are those of the insertion proved to keep the index exact; the thread is behind everybody of its priority and nobody else has moved |
| KernelObjects.Scheduler.RemoveThread | RT-Thread/src/scheduler.c:309-347 | The same for removal; the bit goes only with the last thread of the list |
| KernelObjects.Scheduler.Suspend | RT-Thread/src/thread.c:555-583 | The state and the ready list change in place and nothing else; an error, changing nothing, unless the thread is ready |
| KernelObjects.Scheduler.Resume | RT-Thread/src/thread.c:593-629 | The thread becomes ready in place; an error, changing nothing, unless it is suspended |
| KernelObjects.Scheduler.Startup | RT-Thread/src/thread.c:204-235 | A fresh thread gets its first priority and mask and becomes ready in place |
| KernelObjects.Scheduler.ChangePriority | RT-Thread/src/thread.c:477-542 | A ready thread moves to the list of the new priority in place, any other only gets new fields |
| KernelObjects.Scheduler.Yield | RT-Thread/src/thread.c:378-412 | The running thread goes to the end of its list in place; a thread alone on its list stays |
| KernelObjects.Scheduler.Schedule | RT-Thread/src/scheduler.c:190-255 | The current thread becomes the first of the best non-empty priority; while locked it stays |
| KernelObjects.Scheduler.ExitCritical | RT-Thread/src/scheduler.c:372-394 | The lock count goes down, not below zero; at zero the best thread runs |
| KernelSpec.OneWakeReason | RT-Thread/src/thread.c:555-660 | However threads and interrupts interleave until the thread runs again, a wait is going on, with its timer running iff it has one, or was ended once, by a resume without error or by a timeout with that error; then the thread is ready and its timer stopped |
| KernelSpec.EveryState | RT-Thread/src/ipc.c:327-470 | In every reachable state permits are conserved, nobody waits for a permit that is there, timers run only for suspended threads, and the unlocked scheduler picks a best thread |
| KernelSpec.WaitEnds | RT-Thread/src/thread.c:593-660 | Only the release that finds the thread first, or its timer, ends a wait |
| KernelSpec.OverOnce | RT-Thread/src/thread.c:593-660 | What ended a wait stays what it was until the thread has run |
| KernelSpec.TimersOfSuspended | RT-Thread/src/thread.c:638-646 | The assertion of the timeout function never fails |
| KernelSpec.TakeWaitKeeps | RT-Thread/src/ipc.c:366-403 | Suspending on a semaphore, with or without a timer, keeps permits conserved and lists, timers and wait reasons exact |
| KernelSpec.ReleaseKeeps | RT-Thread/src/ipc.c:434-466 | A release, to the first waiter or to the value, keeps permits conserved and lists, timers and wait reasons exact |
| KernelSpec.ExpireKeeps | RT-Thread/src/thread.c:638-659 | A timeout keeps them so, the thread being taken off the list of its semaphore |
| KernelSpec.SleepKeeps | RT-Thread/src/thread.c:422-450 | A sleep keeps them so |
| KernelSpec.RunKeeps | RT-Thread/src/thread.c:204-660 | Every run of scheduler, semaphore, sleep and timer steps keeps: suspended iff waiting, timer iff waiting with a timeout, lists exact, permits conserved |
| KernelSpec.BootedInv | RT-Thread/src/scheduler.c:119-146 | That holds once the idle thread has been started |
| KernelSpec.ValueLimit | RT-Thread/src/ipc.c:457-458 | A release nobody waits for keeps the permits iff the 16-bit value is not at its limit |
| KernelLaws.TakeOutcome | RT-Thread/src/ipc.c:327-403 | A take gets a permit that is there and nothing else changes; without one it changes nothing with time 0, and otherwise stops being ready and waits at its place on the list, with its timer running iff the time is positive |
| KernelLaws.ReleaseOutcome | RT-Thread/src/ipc.c:434-466 | A release resumes the first thread on the list, which goes behind the ready threads of its priority with its timer stopped, the value staying; with nobody on the list only the value grows |
| KernelLaws.ExpireOutcome | RT-Thread/src/thread.c:638-659 | A timeout takes the thread off its list, makes it ready behind the others of its priority and sets its error |
| KernelLaws.SleepOutcome | RT-Thread/src/thread.c:422-450 | A sleep stops the calling thread, with its timer running, and touches no semaphore |
| KernelLaws.ReturnOutcome | RT-Thread/src/thread.c:443-447 | When the thread runs again its error is the timeout iff it waited for a semaphore and its timer ended the wait; a sleep ends without an error |
| KernelLaws.OnlyUnlockedSwitches | RT-Thread/src/scheduler.c:190-255 | The running thread changes only in rt_schedule and at the end of a critical section, with the scheduler unlocked |
| KernelLaws.Preempts | RT-Thread/src/scheduler.c:190-220 | A thread made ready by a startup, a release or a timeout takes over iff its priority is better than that of the thread that would run |
| KernelLaws.NoOvertaking | RT-Thread/src/ipc.c:140-159 | While a thread waits for a semaphore, no thread behind it is resumed by a release, however threads and interrupts interleave: it waits on behind it, or its own timer ended the wait |
| Waits.Core.TakeSection | RT-Thread/src/ipc.c:327-403 | Take in place: value, waiters, timer, error and ready lists; timed out means that nothing has changed, taken that nobody was put on a list, and blocked, with a time other than 0, that the thread waits |
| Waits.Core.ReleaseSection | RT-Thread/src/ipc.c:434-466 | A waiting thread is resumed, its timer stopped, or the value grows, in place |
| Waits.Core.SleepSection | RT-Thread/src/thread.c:422-450 | The running thread leaves the ready lists and its timer starts, in place |
| Waits.Core.TimeoutSection | RT-Thread/src/thread.c:638-659 | The timeout in place, for a thread that is suspended |
| PageList.AllocKeeps | RT-Thread/src/slab.c:246-280 | A page allocation takes n pages that were free, exactly these, and keeps the list sorted and joined |
| PageList.AllocComplete | RT-Thread/src/slab.c:246-280 | It fails iff no run has n pages |
| PageList.AllocFirst | RT-Thread/src/slab.c:255-276 | The pages come from the front of the first run that has enough |
| PageList.ReleasedIs | RT-Thread/src/slab.c:282-332 | Freeing makes exactly those pages free in addition |
| PageList.ReleasedKeeps | RT-Thread/src/slab.c:282-332 | The list stays sorted, disjoint and joined; the page count grows by n |
| PageList.RoundTrip | RT-Thread/src/slab.c:246-332 | Freeing what was just allocated restores the list |
| PageList.Canonical | RT-Thread/src/slab.c:246-332 | The set of free pages determines the list |
| PageList.TakeKeeps | RT-Thread/src/slab.c:246-280 | Runs handed out are disjoint from each other and from the free pages, and every page is in one or the other |
| PageList.GiveKeeps | RT-Thread/src/slab.c:282-332 | Returning a run keeps pages handed out and free pages disjoint and complete |
| Pages.PageAllocator.Alloc | RT-Thread/src/slab.c:246-280 | The links and page counts updated in place through a pointer to the previous link are those of the specified list |
| Pages.PageAllocator.Free | RT-Thread/src/slab.c:282-332 | The same for freeing, in all merge cases |
| SlabSpec.ZoneIndexIs | RT-Thread/src/slab.c:411-469 | zoneindex finds the smallest of the 72 classes with room and its chunk size |
| SlabSpec.SizesGrow | RT-Thread/src/slab.c:411-469 | Larger classes have larger chunks |
| SlabSpec.CapacityIs | RT-Thread/src/slab.c:642-660 | A zone of any class has at least two chunks, all inside it |
| SlabZones.FindsZone | RT-Thread/src/slab.c:826-858 | memusage leads every live chunk back to its own zone |
| SlabZones.AllFree | RT-Thread/src/slab.c:861-891 | z_nfree never exceeds z_nmax, and a zone with z_nfree equal to z_nmax has no live chunk |
| SlabZones.MallocZoneKeeps | RT-Thread/src/slab.c:554-593 | A chunk from the first zone of a class, never used or from the free-chunk list, was not live and belongs to a zone of that class |
| SlabZones.NewZoneKeeps | RT-Thread/src/slab.c:602-671 | A new or reused zone keeps the invariant |
| SlabZones.FreeSmallKeeps | RT-Thread/src/slab.c:861-935 | Freeing a chunk, relinking its zone, parking it and releasing a third parked zone keep the invariant |
| SlabZones.MallocKeeps | RT-Thread/src/slab.c:488-684 | malloc on any path keeps zones, lists, memusage and pages consistent |
| SlabZones.FreeKeeps | RT-Thread/src/slab.c:793-935 | free of an allocated small or large block keeps them consistent |
| SlabRuns.RunKeeps | RT-Thread/src/slab.c:488-935 | Over any run: z_nfree is the never-used chunks plus the free-chunk list, live chunks are those issued and not on the list, zone_array[i] has exactly the unparked class-i zones with free chunks |
| SlabRuns.BlocksApart | RT-Thread/src/slab.c:488-684 | Allocated blocks, small and large, are pairwise disjoint, inside the heap and outside the free pages |
| SlabRuns.MallocGives | RT-Thread/src/slab.c:488-684 | For every 32-bit size: a result was not allocated, is allocated, and is as large as asked for; no result changes nothing |
| SlabRuns.MallocComplete | RT-Thread/src/slab.c:488-684 | malloc returns nothing exactly for size zero; for a large size when no free run has its pages or its rounding wraps; and for a small one when every chunk of every zone of its class is live, no zone is parked and no free run has room for a zone |
| SlabRuns.NoFreeChunk | RT-Thread/src/slab.c:554-593 | z_nfree is zero iff every chunk of the zone is live |
| SlabLaws.MallocTakes | RT-Thread/src/slab.c:488-684 | A large block has the fewest pages with room; a small one is a chunk of the smallest class with room, from a zone in use, or from a new zone only when no zone of the class has a free chunk, in a parked zone if there is one; nothing else changes |
| SlabLaws.MallocOthers | RT-Thread/src/slab.c:488-684 | malloc adds exactly the block it returns to the allocated ones; every other stays, with its size |
| SlabLaws.FreeSmallFrees | RT-Thread/src/slab.c:861-935 | A zone goes iff its last live chunk is freed while another zone of its class has a free chunk: to the parked zones, or with two of them parked back to the pages |
| SlabLaws.FreeOthers | RT-Thread/src/slab.c:793-935 | free takes exactly the block at the address from the allocated ones; every other stays, with its size |
| SlabLaws.NothingAllocated | RT-Thread/src/slab.c:793-935 | After any run, once nothing is allocated, at most one zone of each class and two parked zones are left, and every page outside them and the memusage table is free |
| SlabRuns.InitialInv | RT-Thread/src/slab.c:354-405 | The heap set up at the start satisfies the invariant |
| SlabRuns.ClassAligned | RT-Thread/src/slab.c:642-660 | On a heap that begins at a page, all chunks of a class whose size is a power of two are aligned to it iff the size is at most a page |
| SlabRuns.AlignedAsZone | RT-Thread/src/slab.c:642-660 | A single chunk is aligned iff the address of its zone is |
| SlabRuns.PowersAreAligned | RT-Thread/src/slab.c:642-660 | Up to the page size it always is, on a heap that begins at a page |
| SlabRuns.LargePowersAreNot | RT-Thread/src/slab.c:642-660 | The first request for 8191 bytes on a fresh heap of 64 pages gets a chunk of 8192 bytes that is aligned to its size iff the heap begins at an odd page |
| SlabRuns.ChunksAreAligned | RT-Thread/src/slab.c:642-660 | On a heap that begins at a page all chunks are 8-aligned |
| SlabAllocators.SlabAllocator.constructor | RT-Thread/src/slab.c:354-405 | Page list, memusage and zone lists at the start |
| SlabAllocators.SlabAllocator.ZonePagesFor | RT-Thread/src/slab.c:384-387 | The doubling loop gives the zone size of 32, 64 or 128 kilobytes that the heap size calls for |
| SlabAllocators.SlabAllocator.Malloc | RT-Thread/src/slab.c:488-684 | Zones, lists, memusage and page links updated in place are those of the specified allocation |
| SlabAllocators.SlabAllocator.ParkZone | RT-Thread/src/slab.c:885-932 | The unlinking loop takes exactly the zone off its list; of three parked zones the last goes back to the pages |
| SlabAllocators.SlabAllocator.Free | RT-Thread/src/slab.c:793-935 | The block is found through memusage alone, and the state afterwards is the specified one |
| FinshHeapSpec.HeapTiles | RT-Thread/components/finsh/finsh_heap.c:55-298 | Over any run of allocate, free and collect: both lists are sorted and together tile the arena, free blocks never touch, and behind every allocated block there is a free one |
| FinshHeapSpec.FreeBehind | RT-Thread/components/finsh/finsh_heap.c:166-200 | The highest block is always free |
| FinshHeapSpec.TakenTiles | RT-Thread/components/finsh/finsh_heap.c:232-246 | Splitting a free block keeps the tiling |
| FinshHeapSpec.FreedTiles | RT-Thread/components/finsh/finsh_heap.c:248-298 | Inserting and merging a freed block keeps the tiling |
| FinshHeapSpec.CollectionIsExact | RT-Thread/components/finsh/finsh_heap.c:133-161 | The collector frees exactly the blocks no variable points to |
| FinshHeapSpec.AllocateComplete | RT-Thread/components/finsh/finsh_heap.c:73-110 | allocate fails iff no free block has room to spare and, after collecting, none has room; its block is the only one added, and holds the size asked for iff that is at most 0xfffffffc |
| FinshHeapSpec.RoundedIs | RT-Thread/components/finsh/finsh_heap.c:75-75 | The rounded size covers the request iff the request is at most 0xfffffffc; above that it is zero |
| FinshHeapSpec.AllocateKeeps | RT-Thread/components/finsh/finsh_heap.c:73-110 | allocate, with or without a collection, keeps the tiling iff size plus header does not overflow 32 bits or nothing is allocated |
| FinshHeapSpec.WrappedToZero | RT-Thread/components/finsh/finsh_heap.c:77-97 | A request for 0xfffffff5 to 0xfffffff8 bytes always succeeds and breaks the tiling |
| FinshHeapSpec.WrappedAtStart | RT-Thread/components/finsh/finsh_heap.c:77-97 | So does the first request after the start when it asks for 0xfffffff8 bytes |
| FinshHeapSpec.FreeKeeps | RT-Thread/components/finsh/finsh_heap.c:115-128 | free keeps the tiling |
| FinshHeapSpec.FreeTakes | RT-Thread/components/finsh/finsh_heap.c:115-128 | free takes exactly the block at the address from the allocated ones |
| FinshHeapSpec.SearchIsSound | RT-Thread/components/finsh/finsh_heap.c:77-94 | The block found has room iff size plus header does not overflow 32 bits |
| FinshHeapSpec.WhenNoOverflow | RT-Thread/components/finsh/finsh_heap.c:77-94 | These are all sizes but 0xfffffff5 to 0xfffffffc |
| FinshHeapSpec.AllFreed | RT-Thread/components/finsh/finsh_heap.c:55-68 | With nothing allocated the arena is one free block |
| FinshHeaps.BlockInsert | RT-Thread/components/finsh/finsh_heap.c:166-200 | Insertion by address; at the end of a list the link of the header is kept, so it must be null there |
| FinshHeaps.BlockRemove | RT-Thread/components/finsh/finsh_heap.c:205-227 | Removal by address |
| FinshHeaps.FreedIs | RT-Thread/components/finsh/finsh_heap.c:248-298 | Insertion followed by merging is the specified release |
| FinshHeaps.FinshHeap.BlockSplit | RT-Thread/components/finsh/finsh_heap.c:232-246 | The two headers after a split |
| FinshHeaps.FinshHeap.BlockMerge | RT-Thread/components/finsh/finsh_heap.c:248-298 | With the previous block, the next one, both or none, headers and links are those of the merged list |
| FinshHeaps.FinshHeap.Free | RT-Thread/components/finsh/finsh_heap.c:115-128 | In place; the stale link of the block is overwritten because a free block lies behind it |
| FinshHeaps.FinshHeap.Collect | RT-Thread/components/finsh/finsh_heap.c:133-161 | The loop over the allocated list and the variables, freeing while it walks |
| FinshHeaps.FinshHeap.Allocate | RT-Thread/components/finsh/finsh_heap.c:73-110 | Both searches, the split and the two list updates in place give the specified heap and address |

## Left out

- FinshCorrect.ProgramCorrect: covers literals, int and long variables and their dereferences, all binary operators, `~`, assignment, and pre and post `++` and `--`; byte and word operands, strings, casts, system calls and `++` on system variables are outside the fragment, and so are the lexer and the parser.
- FinshShell.Machine.Instruction: an opcode of the byte and word families is a fault in the model; compiled code of the fragment has none.
- FinshShell.EvaluateLine: a division by zero, a stack overflow or an access to an address that is no variable is a fault here; on the machine it is undefined.
- SmallHeap.Heap.Malloc: asks for a heap of at least 16 bytes when the request passes the size test, since the search does not end otherwise (`SmallHeapSpec.TinyHeapSearch`).
- TimerRuns.RunKeepsIff: one check per tick, with interrupts disabled throughout, and delays from 1 to half the tick range, of idle timers too. The writes of one flag or of `timeout_tick` are single steps. What a list does after a guard has failed is modelled only as far as `LateLink`, `LateLinkIsLost`, `ZeroDelayIsLate` and `SelfRestart` say. Soft timers and their thread are not modelled.
- TimerDeadlines.LateLink: deadlines that have passed by half the tick range or more when the timer is linked are not covered.
- TimerList.List.LinkSection: asks that the timer is off the list; linking a listed timer, which spoils the ring of the original, is shown on sequences only (`TimerRuns.StartedBetween`).
- TimerList.List.Start: as called with interrupts disabled; a thread's call is `IsActivated`, `WriteTimeout` and `LinkSection`, with other steps between.
- TimerList.List.Stop: the same, with `IsActivated`, `UnlinkSection` and `ClearFlag`.
- TimedWaits.TimedWait: the timer of every thread begins with a delay in range; the original begins with zero and sets the delay before each start. The timer list holds the timers of the threads only: a timer of a user whose function releases a semaphore within the same check, before the timer of a waiting thread is reached, is not a step.
- TimerList.List.TickIncrease: the time slice of the current thread is not counted; a yield may come at any step of `KernelSpec` instead.
- MessageQueueSpec.RunKeeps: what is left of a timeout after a receiver has been resumed may be any number; `MailboxSpec` works it out in 32 bits.
- Waits.Core.TimeoutSection: finds the semaphore of the thread in `wait`, where the original unlinks the list node of the thread without knowing the list.
- KernelObjects.Scheduler.InsertThread: ready lists are sequences in the class; the doubly linked nodes of the original, whose link writes `Rings` proves, are not built there. The same holds for the waiting lists and the timer list.
- MutexSpec.MutualExclusion: threads hold no other mutex and nobody else changes their priorities.
- MutexSpec.PriorityInheritance: the same, and only for the priority flag; `FifoInversion` says when the other flag fails.
- MessageQueues.MessageQueue.FillSection: the copy is one step; the node belongs to one thread meanwhile, so nobody can see a part of it.
- KernelSpec.OneWakeReason: threads block only with the scheduler unlocked and the idle thread never does; resuming a waiting thread from outside its semaphore, and deleting a thread that waits, are not steps. The reset and resume-one commands of semaphores, which set the value, are not modelled.
- SlabZones.MallocKeeps: zone headers hold class, counters and the list of free chunks; chunk size, base pointer and capacity are functions of the class. `rt_realloc` and `rt_calloc` of the slab heap, and used_mem and max_mem, are not modelled.
- FinshHeapSpec.RunKeeps: requests whose size plus header overflows 32 bits are excluded, `AllocateKeeps` says why; after such a request the block has the length asked for, but where its overflowing split writes is not modelled. Clearing the memory returned is not modelled.
- rt_memheap_realloc splits without room for a header; rt_mempool does not recheck after waking: neither is part of this model.
- Semaphore locking inside the allocators: each call is one step. The failing path of the slab malloc that releases its lock twice is therefore not visible.
- Object names and registration, detach and delete of objects in use, hooks, debug output, context switching, stack checks, and priorities above 32.
- Drivers, file systems, network, pthread and C library wrappers, module loading, and the printer's motion planner.
