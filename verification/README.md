# A model of Echion's bookkeeping

Echion samples the stacks of a CPython process by reading its memory while it runs. This project models the
bookkeeping on top of those reads and proves what it is meant to guarantee. The target's memory is a partial
map from addresses to records: a read may fail, and what is read may be cyclic or dangle.

Classes and methods follow the original's objects and loops. Each method is proved equal to a specification
function on the old state, and the properties are lemmas about those functions, over every input or every run.

| file | what it models |
|---|---|
| `Frames.dfy` | frames, frame stacks, the walk over the previous frames |
| `TaskBuild.dfy` | coroutine and task descriptions built from memory |
| `TaskStitch.dfy`, `TaskChains.dfy`, `TaskSplice.dfy` | `unwind_tasks`: the algorithm; when its walks end and what they cover; what the stacks are made of |
| `TaskExamples.dfy` | snapshots on which the stacks are not what one might expect |
| `LinkRuns.dfy` | gather links over whole runs |
| `LruCache.dfy`, `FrameCache.dfy` | the LRU cache; any sequence of `Frame::get`, and how long references stay good |
| `SampleRefs.dfy` | the gets of a whole sample, and when all that they returned is still cached as it is rendered |
| `LineTable.dfy` | the three line-table decoders, against encoders for CPython's formats |
| `Mojo.dfy` | the output stream and a decoder for it |
| `FrameSource.dfy` | string table, frame cache and renderer together: define before use, and what a reader resolves |
| `MemoryAccounting.dfy` | bytes per stack, with allocations and frees of many threads interleaved |
| `Interleave.dfy` | interleaving of native and Python frames |
| `StackChunks.dfy` | copies of the data-stack chunks |
| `ThreadList.dfy` | enumeration of thread states |
| `SafeCopy.dfy` | the page-bounded copy |
| `Target.dfy`, `Bytes.dfy`, `Seqs.dfy`, `Wrappers.dfy` | addresses, fixed-width arithmetic, sequences, options |

## What turned out not to hold

For each, the exact condition under which it holds and, where that is not plain from the condition, an input on which
it fails.

- The on-CPU splice is meant to cut the Python stack open behind a running task's coroutine and to conserve it otherwise.
  Through the first running task of a leaf's chain it does iff some leaf runs and no task further up the chain does
  (`TaskSplice.ChainConservesIff`, where the tasks of a chain sit at different frames and names are no Python frames).
  So a running leaf's stack conserves the Python stack iff none of its ancestors runs
  (`TaskSplice.RunningLeafConservesIff`), and if one task runs, iff that is a leaf (`TaskSplice.OnlyLeavesConserve`).
  It fails for a running task that is only the parent of a gather link, since `on_cpu_task_seen` stays false and the part
  of the stack up to its coroutine is there twice (`TaskExamples.GatheringParent`), and for a running child of a running
  parent (`TaskExamples.EagerChild`). A child is linked only after its eager start, so the latter takes a link left over
  from an earlier task at the same address.
- All stacks of a sample end in the same part of the Python stack when one task runs and is a leaf
  (`TaskSplice.SpliceConservesStack`). Two run while a task is started eagerly. Then a suspended leaf's stack ends as that of
  the running leaf processed last, which is as the first one's iff both sit in the same place, and so depends on the order
  of the snapshot (`TaskSplice.SuffixIsSharedIff`, `TaskExamples.EagerStart`).
- Every task of an acyclic snapshot is on some sampled chain iff every task that is no leaf is some task's next
  (`TaskChains.AllCoveredIff`). Of two tasks that await the same one, the later is on none (`TaskChains.SecondAwaiterIsLost`).
- The chain walk has no visited set. From a task it ends iff it meets no task that the next tasks lead back to
  (`TaskChains.WalkEndsIff`). Waiters alone can never trap it, but two mutually linked parents above a leaf do
  (`TaskChains.MutualLinksTrap`), and so does a link to one of two deadlocked waiters (`TaskChains.DeadlockTraps`).
- A run of the allocation hooks conserves the bytes of every stack iff no step links an address that is tracked already or
  releases a block whose stack has no stats, empty blocks aside (`MemoryAccounting.RunConservesIff`). A block that passes
  through two of the hooked allocation domains is linked twice (`MemoryAccounting.NestedDomainsLeak`).
- The decoder of the 3.11 location table reads a line change into an int that also holds the sign bit. It finds the line
  iff the number of changes of 2^30 lines or more up to the offset is even (`LineTable.DecodersAgree`,
  `LineTable.BigChangeIsMisread`).
- The two older decoders read a byte past a table of odd length, unless they stop before its last byte: exactly when the
  code of the table does not go beyond the offset (`LineTable.LnotabInsideIff`), or, in 3.10, when that of the whole pairs
  does not and no end mark stands where a pair starts (`LineTable.LinetableInsideIff`). Encoded tables are even.
- Copying the data-stack chunks comes to an end iff no good chunk is met twice along the previous ones
  (`StackChunks.UpdateEndsIff`); two chunks that name each other are copied for ever (`StackChunks.LoopNeverEnds`).
- A printed event is read back as itself exactly when its strings have no NUL byte and its references are below 2^63
  (`Mojo.EventReadsIff`). Larger references, such as the key of a frame that has not started, come back negative.
- A reader finds a frame's own file and name under its key as long as the frame is cached
  (`FrameSource.RenderedFrameIsRead`); after that its key may be defined as another (`FrameSource.EvictedFrameIsMisread`).
- A cached frame is still held iff fewer distinct frames than the cache has room for were used since its last use
  (`FrameCache.HeldIff`); one too many costs it its place (`FrameCache.OneTooManyEvicts`). All that a sample refers to is
  cached when it is rendered iff the cache has room for the distinct frames it used (`SampleRefs.SampleIsHeldIff`).

## Model

| member | source | states |
|---|---|---|
| Frames.UnwindFrame | echion/stacks.h:115-149 | On every finite memory it ends, pushes the visible frames of the walk cut at the limit, and returns how many it pushed. |
| Frames.WalkPathIsLongest | echion/stacks.h:117-138 | The addresses visited are a chain of previous frames without repeats, and no such chain extends them. |
| Frames.LongestWalkIsLongest | echion/stacks.h:121-126 | Any other readable, repeat-free walk from the same address is a prefix of the longest one, so it is unique. |
| Frames.VisibleAreTheOthers | echion/stacks.h:115-149 | Of the frames along a path exactly the C frames are left out, and each of the others is shown behind those before it on the path. |
| Frames.WalkFromTheMiddle | echion/stacks.h:115-149 | On a chain that ends at NULL or an unreadable address, walking from any address on it sees exactly the rest. |
| Frames.VisibleFromTheMiddle | echion/tasks.h:392-404 | Unwinding from the address of the frame at position k of a stack yields the stack from position k on. |
| TaskBuild.Builder.CreateGen | echion/tasks.h:91-176 | On every memory it ends with its depth counter restored; it succeeds iff the awaiting path has a coroutine, and its links are exactly that path's coroutines. |
| TaskBuild.Builder.CreateTask | echion/tasks.h:212-260 | On every memory it ends with both depth counters restored; the chain of waiters is exactly the path of describable tasks, each with its coroutine's await chain. |
| TaskBuild.GoodPathIsAwaitingPath | echion/tasks.h:96-156 | The awaiting path starts at the given object, follows each object's awaited object, and stops only at the limit or at an unreadable, non-coroutine or self-awaiting object. |
| TaskBuild.AwaitingPathIsUnique | echion/tasks.h:96-156 | Only one path does that. |
| TaskBuild.ChainCases | echion/tasks.h:91-156 | For every object in memory: an async-send object stands for its generator, a coroutine with a readable frame is followed by what it awaits unless that is nothing or itself, anything else ends the chain. |
| TaskBuild.LinksAreDescribed | echion/tasks.h:158-176 | Every link of a description has the frame its coroutine has in memory, and the executing flag of the last link. |
| TaskBuild.DescriptionIsBounded | echion/tasks.h:45-45 | A description has between 1 and 250 links, all coroutines, and the running flag of the root is the executing flag of the last. |
| TaskBuild.RunningFlagIsTheLast | echion/tasks.h:158-172 | The running flag comes from the innermost link, whatever the links above it are. |
| TaskBuild.GoodTasksIsWaiterPath | echion/tasks.h:212-260 | The chain of waiters has at most 250 tasks and stops only at the limit or at a task that cannot be described. |
| TaskBuild.TaskCases | echion/tasks.h:212-260 | For every task in memory: without a known name or a chain of coroutines it ends the waiters, otherwise it is followed by its own waiter. |
| TaskBuild.WaitersAreDescribed | echion/tasks.h:238-260 | Every task of a description has the name and the loop it has in memory, and a description of its own coroutine. |
| TaskStitch.Unwind | echion/tasks.h:363-410 | Adds one frame for the innermost coroutine and all the frames of the others until one shows none; sets the upper stack size iff it shows anything. |
| TaskStitch.InnermostFirst | echion/tasks.h:363-378 | The frames of a chain of awaiting coroutines are unwound in the reverse of the order in which the coroutines await each other. |
| TaskStitch.AwaitedIsInside | echion/tasks.h:363-409 | With room, and when each coroutine shows itself alone, their frames are added from the one awaited last to the outermost, one each. |
| TaskStitch.NothingBeyondAGap | echion/tasks.h:380-386 | A coroutine that shows nothing ends it: none of those outside it is shown, counted or sets the upper size. |
| TaskStitch.GrowthIsCountMinusUpper | echion/tasks.h:375-409 | A non-zero count exceeds the upper size, the stack grows by their difference, and it stays within the limit. |
| TaskStitch.WaiteesAreFirst | echion/threads.h:287-292 | The waitee map holds, for exactly the awaited origins, the first task that awaits each. |
| TaskStitch.OriginsAreFirst | echion/threads.h:287-289 | The origin map holds, for exactly the origins of the snapshot, the first task that has each. |
| TaskStitch.OnCpuFirst | echion/threads.h:305-313 | The leaves are the same after the swap, and if one of them runs, the first one does. |
| TaskStitch.OnCpuFirstSwaps | echion/threads.h:305-313 | The first leaf that runs changes places with the first one, the others stay; if none runs, all stay. |
| TaskStitch.NextIs | echion/threads.h:351-371 | The walk goes on to the first task that awaits the origin and, only if there is none, to the first one at the origin that its link names. |
| TaskStitch.LeavesAre | echion/threads.h:287-303 | The tasks processed are exactly those that await nothing, are no link's parent and, in CPU mode, run. |
| TaskStitch.CpuLeavesAre | echion/threads.h:295-300 | CPU mode processes exactly the leaves of wall mode that run. |
| TaskStitch.StacksAreLabelled | echion/threads.h:321-325 | Every stack has the name and the running flag of its leaf, and in CPU mode all of them run. |
| TaskSplice.LeavesIncrease | echion/threads.h:287-303 | The leaves are found in the order of the snapshot. |
| TaskStitch.TaskUnwinder.RemoveStaleLinks | echion/threads.h:252-284 | The links that survive are those whose child is in the snapshot or was not in the one before; the snapshot is remembered. |
| TaskStitch.TaskUnwinder.FindLeaves | echion/threads.h:287-303 | One pass finds the two maps, and as leaves exactly the tasks that await nothing, are no link's parent and, in CPU mode, run. |
| TaskStitch.TaskUnwinder.PutOnCpuFirst | echion/threads.h:305-313 | Swaps the first running leaf to the front. |
| TaskStitch.TaskUnwinder.VisitTask | echion/threads.h:329-349 | A running task's part of the Python stack goes in front, every task's name behind. |
| TaskStitch.TaskUnwinder.WalkUp | echion/threads.h:326-372 | Unwinds the chain of tasks above a leaf and ends. |
| TaskStitch.TaskUnwinder.UnwindLeaf | echion/threads.h:321-390 | The chain of a leaf followed by the part of the Python stack that its upper size and the running leaves seen so far select. |
| TaskStitch.TaskUnwinder.UnwindTasks | echion/threads.h:236-394 | Failing to get the tasks changes nothing; otherwise the links, the remembered snapshot and one stack per leaf are as specified. |
| TaskChains.WalkEndsIff | echion/threads.h:327-372 | From every task, in every snapshot, stepping comes to an end iff it meets no task from which the next tasks lead back to it. |
| TaskChains.ChainEndsIff | echion/threads.h:327-372 | The chain unwound is the whole walk iff the walk comes to an end. |
| TaskChains.WaiterWalkEnds | echion/threads.h:287-303 | With distinct origins and no links, the walk from every leaf ends and meets no task twice, even among deadlocked waiters. |
| TaskChains.AcyclicWalkEnds | echion/threads.h:352-371 | With links, if no path of waits and links returns to its start, every walk ends and meets no task twice. |
| TaskChains.MutualLinksTrap | echion/threads.h:359-369 | A leaf below two parents linked to each other is walked for ever. |
| TaskChains.DeadlockTraps | echion/threads.h:352-369 | So is a leaf linked below one of two tasks that wait for each other. |
| TaskChains.EveryTaskIsCovered | echion/threads.h:275-303 | In wall mode every task is on the chain of some leaf, if origins are distinct, waits and links have no cycle, every waiter is in the snapshot and awaited by one task, and every linked child is in the snapshot and not awaited. |
| TaskChains.AllCoveredIff | echion/threads.h:275-303 | In either mode, if no path of waits and links returns to its start, every task is on the chain of some leaf iff every task that is no leaf is the next of some task. |
| TaskChains.SecondAwaiterIsLost | echion/threads.h:290-292 | The later of two tasks that await the same one is neither a leaf nor on the chain of any. |
| TaskChains.EveryTaskIsSampled | echion/threads.h:321-391 | Under the same conditions the name of every task is on some sampled stack. |
| TaskSplice.OnTheStackMeansSitsAt | echion/tasks.h:392-404 | A coroutine whose frame is an address of an untruncated acyclic walk shows the Python stack from its position on. |
| TaskSplice.StepRunning | echion/threads.h:332-349 | On any stack, full or not, the running task puts the frames before those it shows in front and keeps what is beyond its coroutine for the end. |
| TaskSplice.RunningLeafIsFirst | echion/threads.h:305-313 | For any number of running leaves, the leaf processed first runs iff some leaf does, and from there on one has been seen. |
| TaskSplice.RunningTop | echion/threads.h:320-372 | The chain of a leaf with any number of running tasks: the last running one's part of the Python stack, what is below it, its coroutine and name, and the ancestors; and the upper size it leaves. |
| TaskSplice.SpliceConservesIff | echion/threads.h:305-391 | Such a stack is the Python stack cut open behind the coroutine of the last running task iff some leaf runs; otherwise the whole Python stack follows, and what is up to the coroutine is there twice. |
| TaskSplice.RunningLeafConserves | echion/threads.h:305-391 | However many tasks run, a running leaf below ancestors that do not has the whole Python stack, with its name and its ancestors inserted after its coroutine. |
| TaskSplice.ChainConservesIff | echion/threads.h:320-391 | If what the first running task of a chain shows fits, the leaf's stack is the Python stack cut open behind its coroutine iff some leaf runs and no task further up the chain does, however many run. |
| TaskSplice.RunningLeafConservesIff | echion/threads.h:320-391 | A running leaf's stack is the Python stack with its name and its ancestors inserted after its coroutine iff none of its ancestors runs, whether or not there is room for them. |
| TaskSplice.NoRoomMisplaces | echion/tasks.h:375-409 | Without room for what the running task shows, the Python stack is cut beyond its coroutine's frame: that frame comes before what is below the task, and after it again if anything is shown. |
| TaskSplice.StackAt | echion/threads.h:374-389 | Every stack is its chain followed by as many of the outermost Python frames as the upper size says, if some leaf runs and there are as many, else by all of them. |
| TaskSplice.EndsAsTheLastRunner | echion/threads.h:374-389 | A suspended leaf's stack ends in what is beyond the task that ran last on an earlier chain, if some leaf runs, else in the whole Python stack. |
| TaskSplice.IdleEndsInAll | echion/threads.h:374-389 | When nothing ran so far, the whole Python stack follows. |
| TaskSplice.SuffixIsSharedIff | echion/threads.h:305-391 | With several running leaves, a suspended leaf's stack ends as the first one's does iff that sits where the last one sits. |
| TaskSplice.SpliceConservesStack | echion/threads.h:305-391 | If the only running task is a leaf, its stack is the Python stack with its name and its ancestors inserted after its coroutine, and every other leaf's stack ends in the same part of the Python stack. |
| TaskSplice.OnlyLeavesConserve | echion/threads.h:320-389 | If one task runs, every stack through it conserves the Python stack iff it is a leaf; if it is not, the stack up to its coroutine is followed by all of it again. |
| TaskExamples.EagerStart | echion/threads.h:305-391 | Two running leaves and a suspended one, in either order of the snapshot: the three stacks. |
| TaskExamples.GatheringParent | echion/threads.h:320-389 | A running parent of a gather link: the frame of its coroutine is on its child's stack twice. |
| TaskExamples.EagerChild | echion/threads.h:320-389 | A running child of a running parent: the child's frame is on the stack twice. |
| TaskSplice.SuspendedInFull | echion/tasks.h:363-410 | On a stack that stays below the limit, ancestors show all their frames and names. |
| LinkRuns.SampleDropsExactly | echion/threads.h:261-284 | At any point of any run a sample drops a link iff its child was in the snapshot before and is not in this one. |
| LinkRuns.LinkedExactlySince | echion/threads.h:242-285 | After any run a child is linked iff some event linked it and neither a later link nor a sample undid it, and then to that event's parent. |
| LinkRuns.LinkTouchesOnlyItsChild | echion/coremodule.cc:493-507 | Linking a child changes no other child's link, then or later in the run: without it, the run leaves all others linked as they are. |
| LinkRuns.Perform | echion/threads.h:242-285 | Linking and sampling with the object change its links and its remembered snapshot as the events of a run do. |
| LruCache.LRUCache.Lookup | echion/cache.h:49-60 | A hit moves the entry to the front and returns its own node; a miss changes nothing; list and index stay consistent. |
| LruCache.LRUCache.Store | echion/cache.h:32-47 | For an absent key a new node goes to the front, the last one goes if the list is full, and list and index stay consistent. |
| FrameCache.CacheIsRecent | echion/frame.cc:392-422 | After any sequence of gets, on a cache that held anything, the list is the first `capacity` entries of the recency list of its successful uses. |
| FrameCache.RecentHoldsTheUsed | echion/cache.h:32-60 | The recency list holds exactly the keys that were used successfully and those there were at the start. |
| FrameCache.RecentHasLastValues | echion/cache.h:32-60 | Each with the value of its last use or, if it was never used, the one it had. |
| FrameCache.RecentIsByLastUse | echion/cache.h:32-60 | In the order of the last use of the keys, the latest first. |
| FrameCache.HitReturnsLastStored | echion/frame.cc:396-400 | A hit returns the value last stored for its key. |
| FrameCache.HeldIff | echion/cache.h:32-60 | Whatever the cache held, what the last use of a key returned is still there iff fewer distinct keys than the capacity were used successfully since. |
| FrameCache.PlaceIsKeysUsedSince | echion/cache.h:32-60 | A key's place in the recency list is the number of distinct keys used since its last use. |
| FrameCache.ReferenceIsHeld | echion/frame.cc:392-422 | Whatever the cache held, what a get returned is held after up to `capacity - 1` more gets. |
| FrameCache.ReferenceIsNotRemade | echion/frame.cc:396-420 | Meanwhile a get of its key is a hit, so the node is the same one. |
| FrameCache.GetNode | echion/frame.cc:392-422 | One get on the cache itself has the outcome and leaves the entries specified, returns the first node, and moves no other there is room for back by more than one place. |
| FrameCache.GetAll | echion/frame.cc:392-422 | After as many gets as there is room for, each answered by a node or a failure as specified, every node returned is still in the list. |
| FrameCache.ReferencesOutliveUnwind | echion/stacks.h:115-149 | With max_frames at most the capacity, everything one walk over the Python frames got from the cache is still there when it returns. |
| FrameCache.FewKeysAreHeld | echion/cache.h:32-60 | In a run of any length, what a get returned is held as long as the gets from it on used no more distinct keys than there is room for. |
| FrameCache.AllHeldIff | echion/cache.h:32-60 | All that any stretch of gets returned is held at its end iff the cache has room for the distinct keys it used. |
| SampleRefs.StacksAreAskedFor | echion/threads.h:320-391 | Every frame on every stack of a sample, task names included, is one that the sample got from the cache. |
| SampleRefs.SampleIsHeldIff | echion/threads.h:320-391 | And all that a sample got is still held as it is rendered iff the cache has room for the distinct keys used. |
| FrameCache.OneTooManyEvicts | echion/cache.h:35-40 | One more distinct new key than the capacity evicts the first. |
| LineTable.ReadVarintAt | echion/frame.cc:8-22 | Reads a varint into an int without leaving the table, whatever the bytes. |
| LineTable.InferLnotab | echion/frame.cc:239-254 | Up to 3.9: the line the pairs give the offset, modulo 2^32 and stored into an int. |
| LineTable.InferLinetable | echion/frame.cc:212-230 | 3.10: likewise, with the line change first and the marks for no line and for the end. |
| LineTable.LnotabInsideIff | echion/frame.cc:239-249 | Up to 3.9 every index is inside the table iff its length is even or its code goes beyond the offset. |
| LineTable.LinetableInsideIff | echion/frame.cc:212-230 | In 3.10, iff its length is even, the code of its whole pairs goes beyond the offset, or an end mark stands where a pair starts. |
| LineTable.InferEntry | echion/frame.cc:143-199 | Each of the 16 codes consumes its bytes and changes the line as the format says, or is refused when cut short. |
| LineTable.InferLocation | echion/frame.cc:132-203 | 3.11 and later: every byte string is decoded or refused, with every index inside the table. |
| LineTable.LnotabReads | echion/frame.cc:239-249 | Decoding an encoded co_lnotab finds the running line at every instruction offset. |
| LineTable.LinetableReads | echion/frame.cc:212-230 | The same for the 3.10 line table, with line changes and lengths split and ranges without a line. |
| LineTable.EndMarkEnds | echion/frame.cc:215-217 | Nothing after an end mark counts. |
| LineTable.FormReads | echion/frame.cc:146-198 | Every form of a location entry is read back: where the next entry starts, and the line change as an int holds it. |
| LineTable.SeenIffNotBig | echion/frame.cc:24-28 | Between lines that are ints, a change is read back as it is if it is below 2^30 and off by 2^31 otherwise. |
| LineTable.FormsRead | echion/frame.cc:141-203 | A whole location table is read entry by entry up to the offset. |
| LineTable.VarintReads | echion/frame.cc:8-22 | A varint is read back as an int holds it, with what follows it. |
| LineTable.CutOffVarint | echion/frame.cc:8-22 | A varint that the end of the table cuts off is made of the digits there are. |
| LineTable.DecodersAgree | echion/frame.cc:127-259 | For every table of ranges in each of the formats, and every offset inside it, the two older decoders find the running line of the range; the third does iff the number of line changes of 2^30 or more up to there is even, and exactly if there is none. |
| LineTable.BigChangeIsMisread | echion/frame.cc:143-155 | A range 2^30 lines below the first line is put 2^31 lines too high. |
| LineTable.LineAtIsTheRangesLine | echion/frame.cc:253-254 | When every range has a line, that is the line of the range the offset is in. |
| Mojo.MojoRenderer.PutInteger | echion/render.h:180-203 | Writes sign and 6 bits, then groups of 7 bits. |
| Mojo.MojoRenderer.WriteFrame | echion/render.h:260-273 | Writes the event's code, three references and four integers, in order. |
| Mojo.MojoRenderer.WriteFrameRef | echion/render.h:276-289 | A reference to frame 0 is written as the invalid frame. |
| Mojo.MojoRenderer.WriteString | echion/render.h:319-326 | Writes the code, the key and the string with its NUL. |
| Mojo.MojoRenderer.RenderStackEnd | echion/render.h:350-360 | The metric is the memory size, the CPU time given last or the delta, an unsigned 64-bit value written as a signed one, so that negative sizes come out. |
| Mojo.MojoRenderer.RenderSample | echion/threads.h:482-595 | Writes nothing for an idle thread that is ignored; otherwise each stack with the thread's own time, 0 if it does not run, whatever time another thread left before. |
| Mojo.OutermostFirst | echion/stacks.h:48-59 | Every frame that is no shim is referred to once, behind exactly those outside it. |
| Mojo.EveryStackIsRendered | echion/threads.h:482-595 | Nothing for an ignored idle thread; otherwise every stack in order, between its thread and the time: the wall time or, in CPU mode, what the thread ran. |
| Mojo.IntegerReads | echion/render.h:180-203 | Every integer is read back, whatever follows it. |
| Mojo.IntegerIsShortest | echion/render.h:180-203 | No bytes that decode to the same integer are fewer. |
| Mojo.IntegerTakesTenBytes | echion/render.h:180-203 | A 64-bit integer takes at most 10 bytes. |
| Mojo.RefReadsIff | echion/render.h:176-179 | A reference is read back as itself iff it is below 2^63. |
| Mojo.StringReadsIff | echion/render.h:168-175 | A string is read back iff it has no NUL byte. |
| Mojo.EventReadsIff | echion/render.h:230-336 | An event is read back, with reference 0 as the invalid frame, iff its strings have no NUL and its references are below 2^63. |
| Mojo.StreamReads | echion/render.h:230-336 | Header and events are decoded to those events, references of 2^63 and more as the signed integers they are written as. |
| Mojo.StreamIsUnique | echion/render.h:158-336 | Streams of the same bytes are streams of the same events, but that reference 0 is the invalid frame. |
| FrameSource.FrameSource.InternString | echion/strings.h:88-129 | A string is entered and written when first met, and refused without effect when it cannot be read. |
| FrameSource.FrameSource.Get | echion/frame.cc:392-422 | A hit touches the cache; a miss interns the strings it can, and writes and caches the frame only if all of it could be read. |
| FrameSource.FrameSource.GetByName | echion/frame.cc:481-499 | The same for a task name, with no file. |
| FrameSource.MissWrites | echion/frame.cc:402-421 | On a miss the file's string is met first, then the name's; the frame is written with its key, file, name and location, and cached, iff both strings and the location are found, and otherwise the fallback is returned. |
| FrameSource.NameWrites | echion/frame.cc:481-499 | A name that is not cached is written as a frame without file or location, and cached. |
| FrameSource.FrameSource.Perform | echion/frame.cc:392-499 | Whatever is done with the objects is the step of a run that it stands for. |
| FrameSource.RunIsGets | echion/frame.cc:392-499 | What any run makes of the cache is what its gets, by the keys looked up and in their order, make of it. |
| FrameSource.CacheOfRunIsRecent | echion/frame.cc:392-422 | So after every run from a fresh start the cache holds the frames used last, in the order of their last use. |
| FrameSource.StepIsAccounted | echion/frame.cc:392-499 | Every operation keeps the string table equal to the strings defined, and cached or handed-out frames defined. |
| FrameSource.PreambleComesFirst | echion/coremodule.cc:143-163 | After every run the stream still starts with the three metadata, the main thread, the first three strings and a zero time. |
| FrameSource.RunIsFaithful | echion/frame.cc:392-499 | After every run each known string was written with its text, each frame handed out was written with its key, file and name, and a cached frame is what its key was last defined as. |
| FrameSource.RenderedFrameIsRead | echion/render.h:260-289 | In every run, a reader that meets a reference to a cached frame finds under its key that frame's file and name, and wherever these are defined, the texts read for them. |
| FrameSource.EvictedFrameIsMisread | echion/frame.cc:392-422 | With room for one frame: the key of a frame that is still held is defined again with another file. |
| FrameSource.RunDefinesBeforeUse | echion/coremodule.cc:143-163 | In every run from a fresh start, references follow their frames, frames follow their strings, and no string is defined twice. |
| FrameSource.DecodedStreamDefinesBeforeUse | echion/render.cc:41-44 | The same holds of what a reader decodes from the bytes of the run, whatever the 64-bit keys are, if no string has a NUL. |
| MemoryAccounting.Profiler.Unlink | echion/memory.h:102-116 | Returns and removes the entry of a tracked address, whose bytes are live no more. |
| MemoryAccounting.Profiler.Update | echion/memory.h:127-152 | Adds an allocation to the stats of its stack, and its bytes to what a flush will emit for that stack alone. |
| MemoryAccounting.Profiler.Flush | echion/memory.h:166-180 | Meets every stack once, emits those that are not zero, and resets all. |
| MemoryAccounting.Profiler.Reallocate | echion/memory.h:268-282 | A deallocation, then an allocation unless the reallocation failed. |
| MemoryAccounting.Profiler.Teardown | echion/memory.h:321-332 | A last flush, after which nothing is tracked. |
| MemoryAccounting.EmissionsTotal | echion/memory.h:170-179 | A flush emits for each stack exactly what was pending for it, in whatever order it meets them. |
| MemoryAccounting.BytesAreConserved | echion/memory.h:204-235 | Over every interleaving of orderly threads and flushes: emitted, pending and in-flight bytes of a stack add up to its live bytes. |
| MemoryAccounting.TotalsAfterTeardown | echion/memory.h:321-332 | After the last flush with nothing in flight, the total emitted for a stack is its live bytes, never negative. |
| MemoryAccounting.StepLeaks | echion/memory.h:94-99 | Every possible step moves the bytes accounted for and the live ones together, but that linking a tracked address and releasing without stats leak the bytes of the block. |
| MemoryAccounting.StepConservesIff | echion/memory.h:155-163 | A step keeps all stacks balanced iff it neither links a tracked address nor releases without stats, empty blocks aside. |
| MemoryAccounting.AccountedIsLiveAndLeaked | echion/memory.h:204-235 | Over every run, orderly or not: accounted bytes are live bytes and those leaked. |
| MemoryAccounting.CountsAreUpdates | echion/memory.h:139-179 | Over every run the count of a stack is the number of its allocations accounted for since the last flush. |
| MemoryAccounting.RunConservesIff | echion/memory.h:204-235 | A run conserves the bytes of every stack iff each of its steps does; nothing leaked is made up for later. |
| MemoryAccounting.TotalsAfterAnyRun | echion/memory.h:321-332 | Whatever leaked, the total emitted for a stack in the end is at least its live bytes, so never negative. |
| MemoryAccounting.NestedDomainsLeak | echion/memory.h:295-315 | A block allocated and freed through two hooked domains is accounted for when it is gone. |
| Interleave.InterleaveStacks | echion/stacks.h:260-320 | Succeeds iff all names are known, and then evaluators have given way to segments of the Python stack. |
| Interleave.InterleavingConserves | echion/stacks.h:260-320 | The Python frames of the result are the whole Python stack in order; the native frames are the native stack without its first two and without one evaluator per segment. |
| Interleave.EveryFrameInPlace | echion/stacks.h:260-320 | A native frame stays in place unless it is an evaluator with a segment left for it, and then that segment is in its place; outside it are exactly the segments of the evaluators outside it. |
| Interleave.WeaveSplits | echion/stacks.h:266-310 | The native frames outside it are those that do not give way. |
| Interleave.IsEvalIff | echion/stacks.h:278-278 | A native frame is an evaluator iff its name has `PyEval_EvalFrameDefault` anywhere in it. |
| Interleave.SegmentsHaveOneEntry | echion/stacks.h:291-302 | No segment is empty or has two entry frames; all but the last have exactly one, and the next starts with an entry frame; before 3.11 every segment is one frame. |
| StackChunks.StackChunk.Update | echion/stack_chunk.h:42-86 | Copies the readable chunks of an acyclic list, grows buffers, drops what could not be updated, and leaves older copies where the list ends. |
| StackChunks.UpdateEndsIff | echion/stack_chunk.h:73-85 | The list of chunks to copy is finite iff following the previous chunks meets no good chunk twice. |
| StackChunks.LoopNeverEnds | echion/stack_chunk.h:73-85 | Two good chunks that name each other make an endless list. |
| StackChunks.StackChunk.Resolve | echion/stack_chunk.h:89-108 | The first valid copy that contains the address gives its offset; otherwise the address stays. |
| StackChunks.ResolveFindsTheByte | echion/stack_chunk.h:42-108 | Whatever the copies held before, every address of the list resolves to an in-bounds position that holds the byte memory has. |
| StackChunks.OutsideStaysRemote | echion/stack_chunk.h:89-108 | In a structure that was fresh, other addresses resolve to themselves. |
| StackChunks.OutsideFallsThrough | echion/stack_chunk.h:73-108 | In general they resolve as the stale copies at the tail have it. |
| StackChunks.StaleAnswers | echion/stack_chunk.h:73-108 | An older copy answers for its addresses after a list that ended properly, and does not after the next chunk could not be copied. |
| ThreadList.ThreadTable.Track | echion/threads.h:640-676 | A missing thread becomes the main thread only if none is tracked by that name and it can be created. |
| ThreadList.ThreadTable.ForEachThread | echion/threads.h:603-682 | Ends on every graph, takes exactly the reachable addresses, each once, calls back for exactly the readable states of tracked threads, and names at most one main thread, never a second. |
| ThreadList.NamingIff | echion/threads.h:640-676 | A thread is named `MainThread` iff no tracked one has that name and one was met that is not tracked and can be created. |
| ThreadList.ClosingStep | echion/threads.h:615-635 | Taking any address from the worklist keeps it closed under what the states offer. |
| ThreadList.ClosedIsReachable | echion/threads.h:612-635 | When nothing waits, the addresses met are exactly the reachable ones. |
| SafeCopy.SafeMemcpy | echion/danger.cc:92-139 | Succeeds iff every source page can be read; the destination is the source up to the first fault and untouched beyond; no chunk crosses a page, and there are few of them. |
| SafeCopy.ChunkDoesNotFault | echion/danger.cc:119-123 | A page-bounded chunk whose first byte can be read can be read whole. |
| SafeCopy.ChunkLimitGrows | echion/danger.cc:112-128 | Every chunk but the last reaches a page end of source or destination, which bounds their number by the pages touched less one. |
| SafeCopy.PageAndOffset | echion/danger.cc:113-116 | Page and offset make up the address. |

## Left out

- Reading memory: system calls, signal handlers and alternate stacks are a partial map, and in `SafeCopy` a set of readable pages.
- CPython's structure layouts and opcodes: what a coroutine awaits, and the previous frame, are given by the memory map.
- TaskStitch.TaskUnwinder.UnwindTasks: requires that the walk from every leaf ends, since the original does not return otherwise; links added by another thread between the clean-up and the walk are not modelled.
- `get_all_tasks` and the mirrors of Python's sets: the snapshot is given, one sequence of tasks.
- Reads within one call see one memory; a target that changes in the middle of a walk is not modelled.
- LineTable.ReadVarintAt: digits beyond the sixth of a varint are shifted out of the int, which is undefined in the original; no encoder for int lines writes so many.
- LineTable.DecodersAgree: for lines that are not ints, which CPython does not have, it says of the location table only that changes below 2^30 are found.
- LineTable.InferLnotab: requires that every index is inside the table; `LineTable.LnotabInsideIff` says when.
- LineTable.InferLinetable: requires the same; `LineTable.LinetableInsideIff` says when.
- StackChunks.StackChunk.Update: takes the list of chunks as a ghost argument, so that there is one; `StackChunks.UpdateEndsIff` says when.
- TaskSplice.ChainConservesIff: takes running coroutines as `SpliceConservesIff` does, and that running tasks sit at different frames and task names are not names of Python frames.
- LruCache.LRUCache.Store: requires an absent key and a capacity of at least one, which its callers provide.
- SafeCopy.SafeMemcpy: takes the offset in a page by counting pages, which is the mask of the original when the page size is a power of two.
- MemoryAccounting.BytesAreConserved: requires that new blocks are not tracked and that a block is freed after its allocation is through, which the hooks see to by returning the address last; what happens otherwise is in `MemoryAccounting.RunConservesIff`. Sums of bytes are unbounded integers, and stacks with equal hash keys are the same stack.
- Interleave.InterleaveStacks: requires at least two native frames, without which the original's loop bound is out of range.
- The packing of a code address and an offset into a frame key, and stack hashing.
- Mojo.MojoRenderer.PutInteger: negates the smallest 64-bit integer as an unbounded number; the original's negation overflows there, also for a reference of exactly 2^63 (`Mojo.RefReadsIff`).
- TaskSplice.SpliceConservesIff: takes a running coroutine that awaits nothing, as CPython has it while it executes, and whose frame is on an untruncated Python stack.
- Stacks kept in the stack table in memory mode: their frames are references into the frame cache for longer than any one unwind; `FrameCache.HeldIff` says when such a frame is gone.
- An allocation without a thread state, which `PyThreadState_Get` does not let happen.
- The entry flag of a frame, which is set on the cached frame whenever it is read, is a given part of the frame.
- Native unwinding and symbol names, greenlets, where mode, CPU clocks, configuration, files and pipes.
