# LiteBSD, modelled and proved

LiteBSD is a small 32-bit kernel in C. This project models the parts of it whose correctness
rests on state that several functions share, and proves what they keep.

| area | modules |
|---|---|
| process life cycle: ring, vfork chain, image snapshots, scheduler | `ProcessSpec`, `ProcessLaws`, `ProcessRuns`, `ImageRuns`, `RoundRobin`, `Tasks`, `TaskRing`, `Kernel`, `Dispatch` |
| fork's private user stack | `StackRelocation` |
| descriptors, open files, pipes | `FileTable` |
| execve: vectors, `#!`, segments, stack, all-or-nothing | `ExecSpec`, `ExecStack`, `Script`, `Loader`, `ProgramFile`, `ExecCall`, `ExecProgram` |
| kernel heap | `HeapSpec`, `KernelHeap` |
| file store: shared blobs, names, rename, listing, paths | `StoreSpec`, `FileStore`, `Renaming`, `Listing`, `Paths` |
| terminal and framebuffer | `TerminalSpec`, `TerminalLaws`, `Console` |
| checksums, packets, TCP stream | `Checksum`, `Packets`, `TcpStream` |

`Basics` holds bytes, words and options. A module named `...Spec` describes states as values:
what each operation makes of a state, and the laws of those operations. Beside it stand classes
with the kernel's own fields (task objects linked by `next`, nodes with shared reference
counts, headers inside heap words, the shadow grid and the pixels), whose methods are proved
against the specification. What the specification makes of a state is in turn told apart from it:
task by task, block by block, name by name, cell by cell, and from the bytes a program writes or a
program file holds to what becomes of them. Every class keeps ghost views, for instance the list of blocks
behind the free list, or the names and bytes behind the node list.

Interrupt gates make each system call and each tick one atomic step, so the process part is a
transition system; `Dispatch.Step` takes the objects through exactly the steps of
`ProcessRuns.Next`. Running out of memory never returns, because the allocator halts
(src/heap.c:62-64), so no operation here has an out-of-memory result; the heap itself has the
outcome `Halted`.

## Where the code does not do what is promised

Each of these is a lemma or a contract here, with its exact condition where there is one.

- The alternate screen (README.md:99) cannot be reached: parameters are capped at 999 before
  1049 is looked for. `AltSequenceIgnored`, `AltLawFails`; the switch itself restores exactly
  (`AltRoundTrip`).
- Of the documented control sequences, ESC [ 1 K erases to the end of the line instead of its start
  (README.md:96, `EraseToStartFails`), the 256-colour and truecolour ones set no colour
  (README.md:97, `PaletteIgnored`), and ESC 7 and ESC 8 do nothing (README.md:99, `EscapeIgnored`).
- A fifth script in a chain of interpreters is loaded as if it were a program: `ChainTooLong`.
- A path component of more than 63 characters becomes two: `ComponentsExactly`. A path
  resolves to what it means exactly when it has no such component, unless a `..` pops the first
  one again (`ResolveExactly`); then the result can be right (`ClimbingHides`) or wrong
  (`ClimbingMisses`). A name of 65 characters that ends in two dots names the directory it is
  looked up in (`LongNameClimbs`).
- Bytes that arrive at a full receive ring are dropped and acknowledged all the same:
  `RunIntact` says when the stream stays whole, `Unread` and `RingOverrun` give runs where it
  does not.
- `kill` breaks the parent chain unless it is harmless, that is, unless the signal is 0, the
  target is gone or dead already, or a task that has a parent kills itself (`KillExactly`).
- `img_size` is used for two things, so once an image of the child or below it was larger than
  the child's last one, its exit leaves foreign bytes in its parent's image: `RestoreExactly`
  says for which sizes; `BootLosesByte`, three levels deep, and `ExecTwiceLosesByte`, two levels
  deep, are such runs from boot.
- `dup2` of a descriptor onto itself closes it, reports success and counts the reference in a
  word of page 0: the `stray` result of `Dup2`.
- A `pipe` call without two free slots loses what it could not place: `PipeCall`.
- The growth loop of a file does not end above 2^31 bytes: `GrowthEndsExactly`.
- Renaming a directory and renaming it back brings every name back exactly when all moved names
  fit in 255 bytes, nothing else lay below the new path, and no moved name landed on the old
  one: `RestoresExactly`, and `ShadowRefused` for the third condition.
- A rename of a directory leaves two names equal exactly when a moved one meets another, after
  the cut at 255 bytes: `UniqueExactly`. When everything fits that is a moved name landing on
  one that stays (`FittingMeets`); cut names also meet each other (`CutsMeet`).

## Model

| member | source | states |
|---|---|---|
| ProcessSpec.PicksFirst | src/sched.c:281-290 | exactly the first RUNNING task ahead is picked; when nobody runs, whoever is next |
| ProcessSpec.Distance | src/sched.c:281-286 | the search stops at the first RUNNING task after the current one, or has passed them all |
| ProcessSpec.ScheduleUnique | src/sched.c:264-293 | with one RUNNING task schedule resumes it, from wherever it is called |
| ProcessSpec.ScheduleStays | src/sched.c:277-290 | in a good state schedule never hands out the frame of a zombie or a blocked task |
| ProcessSpec.OnlyCurrentRuns | src/sched.c:521-525 | in a good state exactly the current task is RUNNING |
| ProcessSpec.ForkKeeps | src/sched.c:422-526 | fork extends the parent chain by the child, which is what runs next |
| ProcessSpec.TaskExitAt | src/sched.c:579-602 | what exit does to every task of the ring: one zombie, one parent awake, the children passed on |
| ProcessSpec.UnblockAt | src/sched.c:392-404 | exactly the blocked task with the parent's pid wakes |
| ProcessSpec.ExitKeeps | src/syscall.c:357-370 | after exit the chain ends in the parent, or in a fresh root task |
| ProcessSpec.WaitKeeps | src/sched.c:528-574 | wait4 keeps the chain and never has to retry in a good state |
| ProcessSpec.OnlyZombieChildren | src/sched.c:535-544 | all children of the running task are zombies |
| ProcessSpec.FirstZombie | src/sched.c:533-545 | the task wait4 finds is the first awaited zombie in ring order |
| ProcessLaws.WaitReaps | src/sched.c:546-567 | wait4 gives the pid of the first dead child awaited and takes exactly that task out of the ring |
| ProcessLaws.WaitFails | src/sched.c:543-573 | without one nothing changes: -1 without any such child, 0 for a caller that does not wait, else -2 |
| ProcessLaws.WaitOnce | src/sched.c:557 | a task is reaped once: nobody has its pid any more and waiting for it again gives -1 |
| ProcessLaws.ExitEffects | src/sched.c:579-598 | an exit, task by task: the status, the grandparent for the children, the parent awake, nothing else |
| ProcessLaws.RootIsReplaced | src/syscall.c:357-370 | an exiting root task is replaced by a fresh one with the next pid, any other is not |
| ProcessLaws.ExitIsReported | src/sched.c:546-598 | after an exit the parent runs, and its wait for the child gives the child's pid and status, once |
| ProcessLaws.ForkEffects | src/sched.c:422-526 | fork, task by task: one child at the end with the next pid and the caller as parent, the caller asleep |
| ProcessLaws.ExecEffects | src/syscall.c:685-756 | exec's program lies at the start of the window; nothing above it and no other task changes |
| ProcessLaws.KillEffects | src/syscall.c:960-977 | a killed task is dead with status 128 + sig, every other as before |
| ProcessLaws.SchedulePicks | src/sched.c:264-293 | the head of the ring at first, then the next RUNNING task going round |
| ProcessRuns.NextKeeps | src/syscall.c:1649-1673 | every step, faults, ticks and harmless kills included, keeps the parent chain |
| ProcessRuns.RunKeeps | src/syscall.c:1639-1687 | in every reachable state the live tasks form one chain of blocked parents ending in the one RUNNING task |
| ProcessRuns.BootGood | src/sched.c:269-273 | the state after boot and the first tick is good |
| ProcessRuns.KillIsExit | src/syscall.c:966-973 | a task with a parent that kills itself with a signal other than 0 exits with status 128 + sig |
| ProcessRuns.KillExactly | src/syscall.c:960-977 | a kill leaves a state the scheduler can go on from if and only if there is no target, the signal is 0, the target is dead, or it is the caller and has a parent |
| ProcessRuns.KilledParentStrands | src/syscall.c:966-976 | once its parent was killed an exiting task leaves nobody RUNNING |
| ImageRuns.LevelsKeep | src/syscall.c:671-684 | each level that has exec'd under a parent keeps a snapshot exactly as long as its parent's image, whatever the sizes |
| ImageRuns.WatchedStep | src/sched.c:583-589 | one step keeps account of a parent's bytes past the child's image: untouched as far as no image of the child or below it reached, elsewhere under one or overwritten by what was left behind |
| ImageRuns.NextGood | src/syscall.c:671-687 | every disciplined step keeps the chain and the snapshots |
| ImageRuns.RunWatched | src/sched.c:579-590 | over every run that account of the parent's bytes stays true, for as long as the child lives |
| ImageRuns.GoneForever | src/sched.c:445 | a pid that has left the chain never comes back |
| ImageRuns.RestoreLaw | src/sched.c:579-590 | whatever happens in between, at any depth and with any number of execs, a child's exit leaves its parent's image as it was when the child first exec'd, as long as no image of the child or below it was larger than the child's last one, or that one covers the parent's |
| ImageRuns.RestoreExactly | src/syscall.c:672-684 | a child's exit restores its parent's image if and only if those sizes fit, when the bytes left behind past an image's end are wrong ones |
| ImageRuns.ExecTwiceLosesByte | src/syscall.c:672-756 | from boot: a child that execs two bytes and then one damages its parent's image, whatever the heap holds |
| ImageRuns.BootLosesByte | src/sched.c:584-586 | from boot: images of three, one and two bytes on three levels, and the first one is damaged when the second task exits |
| RoundRobin.Reaches | src/sched.c:281-290 | a RUNNING task is picked after exactly as many calls as there are RUNNING tasks up to it |
| RoundRobin.Fair | src/sched.c:264-293 | every RUNNING task is picked within as many calls as there are RUNNING tasks |
| TaskRing.Ring.AddTask | src/sched.c:61-70 | the ring stays one cycle and grows by the task, at its end |
| TaskRing.Ring.RemoveTask | src/sched.c:72-90 | the ring stays one cycle without the task; a task not in it changes nothing |
| TaskRing.Ring.FindTask | src/sched.c:347-355 | the first task with the pid, or none |
| TaskRing.Ring.Wake | src/sched.c:392-404 | the walk round the ring wakes exactly what the specification wakes |
| TaskRing.Ring.PassChildren | src/sched.c:592-598 | every child changes parent, nothing else does |
| TaskRing.Ring.NextRunning | src/sched.c:281-289 | the do-while loop ends at the specified task |
| TaskRing.Ring.ScanChildren | src/sched.c:531-545 | whether there is an awaited child, and its first zombie |
| Kernel.Machine.Schedule | src/sched.c:264-293 | the objects take the step of the specification |
| Kernel.Machine.Fork | src/sched.c:422-526 | fork on the objects takes the step of the specification; the child joins the ring sharing every open file |
| Kernel.Machine.Exec | src/syscall.c:671-687 | exec's commit on the objects takes the step of the specification: the parent's image saved, the window overwritten |
| Kernel.Machine.Snapshot | src/syscall.c:671-684 | the snapshot and the size it is kept under, on the objects |
| Kernel.Machine.Kill | src/syscall.c:960-977 | kill on the objects takes the step of the specification, with -1 exactly when there is no target |
| Kernel.Machine.SaveParent | src/syscall.c:672-684 | the snapshot is the parent's image, taken once; the size becomes the snapshot's exactly when one was taken |
| Kernel.Machine.TaskExit | src/sched.c:579-602 | exit on the objects takes the step of the specification: image, parent, children and descriptors |
| Kernel.Machine.CopyBack | src/sched.c:584-586 | the copy loop restores what the specification restores |
| Kernel.Machine.Exit | src/syscall.c:357-370 | exit and faults on the objects take the step of the specification: a dead root task is replaced at once |
| Kernel.Machine.CreateUserTask | src/sched.c:176-261 | a root task with the next pid and three open descriptors joins the ring |
| Kernel.Machine.Wait4 | src/sched.c:528-574 | wait4 on the objects takes the step of the specification; the exit code goes to bits 15 to 8 |
| Dispatch.SysFork | src/syscall.c:1668-1672 | fork and the switch to the child are one step |
| Dispatch.SysExit | src/syscall.c:1655-1660 | exit and the switch away are one step |
| Dispatch.SysKill | src/syscall.c:960-977 | a harmless kill and the switch away from a dead caller are one step |
| Dispatch.SysWait | src/syscall.c:1661-1666 | wait4, with the retry that never comes |
| Dispatch.Tick | src/idt.c:290-294 | a tick is a call of schedule |
| Dispatch.Step | src/syscall.c:1639-1687 | the objects follow the transition system, so every step keeps the chain and the image law |
| StackRelocation.ForkStack | src/sched.c:466-502 | the child's stack is the parent's with exactly the saved frame pointers on the chain moved |
| StackRelocation.MovedExactly | src/sched.c:484-502 | a word of the child's stack is moved if and only if it lies on a chain of frames from the frame pointer and holds an address of the parent's stack |
| StackRelocation.ElsewhereIsCopy | src/sched.c:486-493 | a frame pointer into neither stack leaves a plain copy |
| StackRelocation.Relocate | src/sched.c:492-501 | the walk ends on every stack, cyclic chains included, having moved each chain word once |
| StackRelocation.ChainShifted | src/sched.c:490-502 | the child's frames are the parent's, each moved by the same distance |
| FileTable.FreeSlot | src/sched.c:357-365 | the lowest empty slot from 3 on, -1 exactly when there is none |
| FileTable.PlacedAt | src/sched.c:357-365 | a file goes to the lowest empty slot from 3 on, and no other slot changes |
| FileTable.TwoFreeIs | src/syscall.c:866-926 | a pipe has room if and only if two slots from 3 on are empty |
| FileTable.Descriptors.AllocFd | src/sched.c:357-365 | that slot takes the file |
| FileTable.HeldCounts | src/sched.c:505-508 | a multiplicity is a number of (task, slot) pairs |
| FileTable.Descriptors.RefIsSlots | src/sched.c:367-389 | a file's count is the number of slots over all tasks that point to it, plus what failed pipe calls lost |
| FileTable.Descriptors.AllHeld | src/sched.c:371-384 | a file is live exactly while something refers to it, and no pipe outlives its ends |
| FileTable.Descriptors.NothingLeaks | src/sched.c:599-601 | with all tables empty and no failed pipe call no file and no pipe is left |
| FileTable.Descriptors.Release | src/sched.c:367-389 | counts stay exact; file and pipe are freed exactly with their last reference |
| FileTable.Descriptors.UnrefPipe | src/sched.c:373-379 | the buffer is freed exactly when both ends have no file left |
| FileTable.Descriptors.ReleaseAll | src/sched.c:599-601 | an exiting task gives up every slot |
| FileTable.Descriptors.Share | src/sched.c:505-508 | fork copies the table and keeps the counts exact |
| FileTable.Descriptors.Close | src/syscall.c:1179-1188 | -1 exactly when the descriptor is not open |
| FileTable.Descriptors.Dup | src/syscall.c:928-940 | the lowest free slot holds the same file, the counts stay exact |
| FileTable.Descriptors.Dup2 | src/syscall.c:942-957 | newfd holds what oldfd held; exactly when the two are equal and open the slot ends up empty instead |
| FileTable.Descriptors.OpenFile | src/syscall.c:1155-1177 | a new file in the lowest free slot, or freed again when there is none |
| FileTable.Descriptors.PipeCall | src/syscall.c:866-926 | succeeds exactly with two free slots, and otherwise loses what it could not place |
| FileTable.Descriptors.OpenConsole | src/sched.c:230-246 | a new user task has its first three descriptors open |
| ExecSpec.ReadVecExactly | src/syscall.c:394-441 | exec accepts a vector if and only if it is there, NULL-terminated, and within the limits |
| ExecSpec.BudgetSuffices | src/syscall.c:736-744 | after the budget check sp is at least 64 bytes above the base: the overflow branch is unreachable |
| ExecSpec.NoOverlap | src/syscall.c:721-752 | pointers, environment strings and argument strings lie side by side, sp is 16-aligned |
| ExecSpec.StackPlaces | src/syscall.c:721-744 | where strings and stack pointer lie, in numbers |
| ExecSpec.BuiltReadsBack | src/syscall.c:745-752 | the stack decodes to exactly the vectors it was built from |
| ExecSpec.VectorsSurvive | src/syscall.c:407-441 | vectors accepted from the caller are read back, by the same rules, from the new stack |
| ExecStack.CopyVec | src/syscall.c:407-441 | one buffer per string, or nothing and every buffer given back |
| ExecStack.PushStrings | src/syscall.c:726-735 | strings go down last to first and their addresses are where they lie |
| ExecStack.BuildStack | src/syscall.c:721-752 | the block holds the specified layout exactly when sp is 64 bytes clear |
| Script.LineReads | src/syscall.c:501-525 | an interpreter line reads back as the word and the argument it was written with |
| ExecCall.ReadLine | src/syscall.c:503-519 | the loops over the first line compute that reading |
| ExecCall.ExpandArgs | src/syscall.c:535-587 | the vector becomes interpreter, argument, script, old arguments; the old first is freed |
| ExecCall.Follow | src/syscall.c:486-606 | the chain of interpreters ends in the specified file; all other files are closed again |
| Loader.ChaseKeeps | src/syscall.c:526-534 | whatever the chain, the arguments stay C strings and at most 64 |
| Loader.CheckedIsSafe | src/syscall.c:611-618 | vectors that pass the checks fit the stack and hold no NUL |
| Loader.ExtentReads | src/syscall.c:647-662 | once the first pass succeeded every header can be read again, and none reaches past the extent |
| Loader.SegmentSurvives | src/syscall.c:689-717 | bytes of a segment that no later one covers are the file's |
| Loader.BssIsZero | src/syscall.c:712-716 | the memory of a segment past its file bytes is zero where no later segment covers it |
| Loader.GapIsZero | src/syscall.c:685-687 | image bytes that no segment covers are zero |
| Loader.LiveIs | src/syscall.c:685-717 | wipe and segments on the live window give the image, and nothing above it changes |
| ProgramFile.ProgramRuns | src/syscall.c:642-717 | exec of a file written as a program starts it at the entry written, with every written segment in memory, zeros behind each and between them, and the vectors given |
| ProgramFile.ProgramRunsExactly | src/syscall.c:456-473 | such an exec succeeds if and only if the vectors are within their limits and fit the stack |
| ProgramFile.NothingRuns | src/syscall.c:456-670 | what makes exec fail: no file, bad or large vectors, neither program nor script, no whole header, nothing to load |
| ProgramFile.ScriptRuns | src/syscall.c:526-587 | exec of a script starts the program its first line names, on interpreter, argument, script and old arguments; too many arguments fail |
| ProgramFile.ChainRuns | src/syscall.c:487-590 | up to four scripts lead to the program behind them, which gets all their names, last first |
| ProgramFile.ChainTooLong | src/syscall.c:487-590 | with five scripts the fifth is taken for the program |
| ProgramFile.FileBytesAre | src/syscall.c:633-645 | every program has a file: header, table and data in a row |
| ExecCall.Measure | src/syscall.c:647-662 | the first pass computes the extent, or fails when a header is missing |
| ExecCall.LoadImage | src/syscall.c:685-717 | wipe and second pass, on the live window; fails exactly when a header cannot be read |
| ExecCall.SecondPass | src/syscall.c:689-697 | after the first pass the second one cannot fail and leaves the image |
| ExecCall.Commit | src/syscall.c:671-810 | snapshot, wipe, second pass, stack and frame in the kernel's order, with both late failures |
| ExecCall.Proceed | src/syscall.c:620-810 | the late failures cannot happen, so a failure has changed nothing |
| ExecCall.Prepare | src/syscall.c:456-618 | every failure before the headers gives back every buffer and every open file |
| ExecCall.SwitchStack | src/syscall.c:786-795 | the old stack is freed unless the parent still uses it |
| ExecCall.Execve | src/syscall.c:447-810 | fails if and only if a check fails, and then nothing has changed; otherwise the program starts on a stack that decodes to its vectors |
| ExecProgram.Start | src/syscall.c:447-810 | exec on the objects, of a file written as a program: its segments are in the window, the rest is as before, the frame enters it and its stack holds its vectors; its old stack is freed unless the parent has it too |
| HeapSpec.Conservation | src/heap.c:15-20 | bytes handed out plus free bytes, headers included, are the whole grown heap |
| HeapSpec.MallocKeeps | src/heap.c:26-73 | kmalloc leaves blocks that tile the heap, no two free ones adjacent |
| HeapSpec.TakeBytes | src/heap.c:40-55 | serving a block moves exactly its bytes from free to used |
| HeapSpec.ReleaseKeeps | src/heap.c:75-113 | kfree keeps the tiling and joins both free neighbours |
| HeapSpec.ReleaseBytes | src/heap.c:75-113 | freeing moves exactly the block's bytes back |
| HeapSpec.RunKeeps | src/heap.c:26-113 | after every sequence of calls the blocks tile the heap, no two free ones adjacent, and the byte counts add up |
| HeapSpec.RunOwed | src/heap.c:26-113 | after every sequence of calls the live blocks are exactly the pointers handed out and not freed since, none smaller than was asked for |
| HeapSpec.ReleaseKeepsLive | src/heap.c:75-113 | kfree takes exactly its block out of the live ones, no other moves or changes size |
| HeapSpec.MallocPromise | src/heap.c:26-73 | a returned pointer is 4-aligned and its live block holds at least the request |
| HeapSpec.MallocHaltsExactly | src/heap.c:30-64 | kmalloc halts if and only if the request is larger than the heap, or no free block holds it and there is no room behind the last |
| HeapSpec.MallocGrows | src/heap.c:61-72 | with room and no free block large enough, all blocks are kept and one of the rounded size is added behind them |
| HeapSpec.MallocReuses | src/heap.c:36-59 | otherwise the lowest free block that is large enough is taken; the rest of it stays free when it holds a header and 16 bytes |
| HeapSpec.FirstCall | src/heap.c:61-72 | the first call after boot gives 0x40000C |
| HeapSpec.FreeIgnores | src/heap.c:75-85 | freeing what is not a live payload changes nothing |
| HeapSpec.MallocKeepsLive | src/heap.c:39-72 | no live block moves or changes size, and exactly one is added |
| HeapSpec.MallocThenFree | src/heap.c:35-113 | a block served from the free list and freed at once leaves the heap as it was |
| KernelHeap.Heap.Kmalloc | src/heap.c:26-73 | headers, free list and counter follow the specification; other payloads keep their bytes |
| KernelHeap.PayloadKept | src/heap.c:26-113 | a block that is there before and after a call keeps every byte of its payload |
| KernelHeap.Heap.FindFit | src/heap.c:36-59 | the list walk stops at the first free block that is large enough |
| KernelHeap.Heap.Serve | src/heap.c:40-55 | split or whole, the block leaves the free list |
| KernelHeap.Heap.Extend | src/heap.c:61-72 | a new block at the end of the heap, or the machine halts |
| KernelHeap.Heap.Kfree | src/heap.c:75-113 | headers, free list and counter follow the specification; NULL and pointers to no block are ignored |
| KernelHeap.Heap.Insert | src/heap.c:88-95 | the block enters the free list at its place by address |
| KernelHeap.Heap.JoinNext | src/heap.c:97-101 | a freed block swallows an adjacent free successor |
| KernelHeap.Heap.JoinPrev | src/heap.c:103-112 | a freed block is swallowed by an adjacent free predecessor |
| StoreSpec.GrowthEndsExactly | src/vfs.c:778-780 | the doubling loop ends if and only if at most 2^31 bytes are asked for |
| StoreSpec.AloneWhen | src/vfs.c:588-590 | a name is alone with its blob when it is private or counted once |
| StoreSpec.Detaches | src/vfs.c:588-607 | copy on write gives the name a blob of its own and leaves all sharing else |
| StoreSpec.Joins | src/vfs.c:610-624 | a link shares consistently |
| StoreSpec.WrittenExactly | src/vfs.c:788-789 | a write at or before the end is the old bytes with the new ones put over them |
| StoreSpec.TruncatedAt | src/vfs.c:830-854 | a new length keeps the bytes as far as they go and puts zeros behind them |
| StoreSpec.Wraps | src/vfs.c:776-777 | the overflow check catches exactly the sums that wrap |
| StoreSpec.WriteLookup | src/vfs.c:784-792 | new bytes under one name leave what every other name shows alone |
| StoreSpec.AddLookup | src/vfs.c:918-959 | a new name changes no other |
| StoreSpec.RemoveLookup | src/vfs.c:856-884 | removing a name removes that name only |
| StoreSpec.NamesAdded | src/vfs.c:886-959 | a new name leaves unique names unique |
| StoreSpec.NamesRemoved | src/vfs.c:856-884 | removing a name leaves unique names unique |
| FileStore.FreedExactly | src/vfs.c:574-585 | a blob goes exactly with its last name |
| FileStore.Store.DataCow | src/vfs.c:588-607 | afterwards the name is alone with its blob, and users see nothing of it |
| FileStore.Store.RoundUp | src/vfs.c:779-780 | a capacity that is a power of two, at least what is required, without wrap |
| FileStore.Store.Read | src/vfs.c:748-753 | the visible bytes of the range, cut at the end of the file |
| FileStore.Store.Write | src/vfs.c:755-792 | the named file shows the write, no other name changes however many share its blob, and counts stay exact |
| FileStore.Store.Truncate | src/vfs.c:830-854 | cut, or extended with zeros; no other name changes |
| FileStore.Store.FindNode | src/vfs.c:168-177 | the node of the name, the root for "/" |
| FileStore.Store.Open | src/vfs.c:651-713 | an existing node, or a new empty file |
| FileStore.Store.Mkdir | src/vfs.c:886-916 | a new directory unless the name exists |
| FileStore.Store.Link | src/vfs.c:918-959 | to users the new name is a copy of the target |
| FileStore.Store.TakeShare | src/vfs.c:610-624 | the count covers the new holder |
| FileStore.Store.Unlink | src/vfs.c:856-884 | exactly that name goes |
| FileStore.Store.DataRelease | src/vfs.c:574-585 | the last holder frees blob and count, once each |
| FileStore.Store.SetPath | src/vfs.c:1225-1231 | the name changes, blobs and counts do not |
| Renaming.Rename | src/vfs.c:1206-1267 | result and names are those of the specified call, refusals included; blobs and counts are untouched |
| Renaming.RenameSucceedsExactly | src/vfs.c:1219-1223 | a rename succeeds if and only if neither path is the root and they are equal, or the old name exists and the new one does not; a failure changes nothing |
| Renaming.FileRenamed | src/vfs.c:1225-1231 | a renamed file is found under the new name, with all it holds, not under the old one, and no other name changes |
| Renaming.DirectoryRenamed | src/vfs.c:1235-1265 | a renamed directory takes along exactly the names below it, each with the new prefix, cut to 255 characters |
| Renaming.DirectoryFound | src/vfs.c:1225-1265 | a renamed directory is found under the new name, and the old one is free unless a moved name landed on it |
| Renaming.DirectoryLookup | src/vfs.c:1225-1265 | after the call a name below the new path shows what the same name showed below the old one; unrelated names are as before |
| Renaming.RenameAndBack | src/vfs.c:1206-1267 | two calls, and exactly when the second undoes the first |
| Renaming.Rebuild | src/vfs.c:1248-1260 | new path and rest, cut to the 256-byte buffer |
| Renaming.RenamedLookup | src/vfs.c:1225-1265 | the renamed store is the old map with the prefix replaced, nothing else changed |
| Renaming.UniqueExactly | src/vfs.c:1235-1265 | names stay unique if and only if no moved name, cut at 255 bytes, meets another |
| Renaming.FittingMeets | src/vfs.c:1248-1260 | when names fit, to meet is to land on a name that stays |
| Renaming.CutsMeet | src/vfs.c:1248-1260 | names that do not fit can meet though nothing that stays is hit |
| Renaming.RestoresExactly | src/vfs.c:1206-1267 | the second call succeeds and restores every name if and only if all fit, nothing else lay below the new path and no moved name landed on the old one |
| Renaming.ShadowRefused | src/vfs.c:1219-1223 | a directory, its child of the same name, and a way back that is refused |
| Listing.UnpackPack | src/vfs.c:1099-1112 | packed records read back, hopping by record length |
| Listing.ListingReadsBack | src/vfs.c:1046-1121 | any buffer reads back as rows of the listing within its size; a large enough one as the whole listing |
| Listing.IsDirectoryIs | src/vfs.c:1030-1031 | what can be listed is the root and what a name says is a directory |
| Listing.ChildrenExactly | src/vfs.c:1074-1113 | the rows after the dots are exactly the direct children |
| Listing.ChildrenOnce | src/vfs.c:1074-1113 | each child appears once |
| Listing.ParentOfChild | src/vfs.c:1059-1071 | ".." of a child is the directory it is in |
| Listing.DotRows | src/vfs.c:1038-1072 | "." carries the directory's own inode number, ".." that of the directory it is in, the root's for the root |
| Listing.Getdents | src/vfs.c:1014-1122 | the buffer holds exactly the rows that fit; -1 for anything but a directory |
| Paths.ResolvePath | src/vfs.c:87-166 | whatever directory and path, nothing is written outside the buffers and the result is terminated; it is the specified path when nothing is cut on the way |
| Paths.NextComponent | src/vfs.c:126-133 | one component, cut after 63 characters |
| Paths.Pop | src/vfs.c:137-143 | ".." drops the last component and stops at the root |
| Paths.Push | src/vfs.c:144-152 | a component is appended after a slash |
| Paths.ComponentsExactly | src/vfs.c:126-133 | the code sees the components of the path if and only if none is longer than 63 |
| Paths.ResolveIsReference | src/vfs.c:87-166 | a path without components longer than 63 resolves to its component-stack meaning |
| Paths.ResolveExactly | src/vfs.c:126-152 | unless a ".." pops its first component longer than 63, a path resolves to its component-stack meaning if and only if it has no such component |
| Paths.FlatStays | src/vfs.c:137-143 | without ".." nothing is popped, so the law above covers every such path |
| Paths.ClimbingHides | src/vfs.c:137-143 | a long name that ".." takes away again can leave the right result |
| Paths.ClimbingMisses | src/vfs.c:137-143 | a long name and one ".." leave the head of the name where nothing should be left |
| Paths.LongNameClimbs | src/vfs.c:128-143 | a 65-character name ending in two dots names the directory itself |
| Paths.LongNameIsCut | src/vfs.c:128-133 | a longer name comes out as two components |
| Paths.ResolveCanonical | src/vfs.c:87-166 | results have no empty, "." or ".." component |
| Paths.ResolveIdempotent | src/vfs.c:87-166 | resolving a result changes nothing, from any directory |
| Paths.ResolveSteps | src/vfs.c:135-152 | a name leads below the directory, a dot stays, two dots lead back up and stay at the root |
| Paths.ResolveAbsolute | src/vfs.c:107-122 | a leading slash makes the directory irrelevant |
| Paths.ResolveCompose | src/vfs.c:87-166 | resolving p and then a relative q is resolving p/q |
| Paths.ShortFits | src/vfs.c:87-166 | a bound under which nothing is cut at 256 bytes |
| TerminalSpec.RunOk | src/tty.c:308-409 | for every byte stream cursor and parameter index stay in bounds, and no stream switches the screen |
| TerminalSpec.SpacesOk | src/tty.c:348-356 | the tab recursion ends in the row without wrapping |
| TerminalSpec.AltRoundTrip | src/tty.c:138-172 | enter, any stream, exit restores cells, colours and cursor |
| TerminalSpec.AltSequenceIgnored | src/tty.c:327-334 | the documented sequence, in any colour, leaves the screen untouched, since its number is read as 999 |
| TerminalSpec.AltLawFails | src/tty.c:296-302 | a byte written between enter and exit stays: the cursor has moved, and the screen is as before only if the cell already held the byte |
| TerminalLaws.SentIs | src/tty.c:310-345 | the letter of a control sequence finds exactly the decimal parameters that were written |
| TerminalLaws.EraseLine | src/tty.c:246-249 | ESC [ K blanks the cursor's row from the cursor on, with 2 all of it, and no other cell |
| TerminalLaws.EraseScreen | src/tty.c:242-245 | ESC [ J blanks the rectangle from the cursor to the lower right corner, with 2 the grid |
| TerminalLaws.EraseToStartFails | src/tty.c:246-249 | ESC [ 1 K does what ESC [ K does |
| TerminalLaws.Moves | src/tty.c:218-241 | A, B, C and D move the cursor by their parameter, at least one, and not off the grid |
| TerminalLaws.Goes | src/tty.c:206-217 | H and f go to the row and column counted from one, the nearest on the grid |
| TerminalLaws.SaveRestore | src/tty.c:286-295 | u brings the cursor back to where s saved it |
| TerminalLaws.Unknown | src/tty.c:250-306 | every other letter leaves the screen alone, and so do m, s and u with a question mark |
| TerminalLaws.EscapeIgnored | src/tty.c:316-325 | ESC and a byte other than [ is swallowed |
| TerminalLaws.Colours | src/tty.c:250-285 | m applies its parameters from left to right, colours by their red, green and blue bits, and resets without any |
| TerminalLaws.PaletteIgnored | src/tty.c:250-285 | a 256-colour sequence changes nothing |
| TerminalLaws.Prints | src/tty.c:382-402 | a byte changes its cell, in the colours set, and no other, and moves the cursor by one or to the next row |
| TerminalLaws.PrintsLast | src/tty.c:398-408 | at the lower right corner it is printed and all rows move up |
| TerminalLaws.LineFeeds | src/tty.c:373-381 | line feed goes to the start of the next row, at the bottom all rows move up |
| TerminalLaws.Returns | src/tty.c:312-372 | carriage return, backspace and bell change the cursor at most |
| TerminalLaws.Tabs | src/tty.c:348-356 | tab blanks the cells up to the next multiple of eight or the last column |
| TerminalLaws.Clears | src/tty.c:463-486 | a cleared screen is blank, its cursor at the top left, its colours white on black |
| TerminalLaws.Switches | src/tty.c:138-172 | the switch of screens shows a cleared one, keeps the first and gives it back, and does nothing twice |
| Console.Screen.PrintChar | src/tty.c:308-409 | grid, cursor and parser follow the specification and every pixel agrees with the grid |
| Console.Screen.AnsiCsi | src/tty.c:203-306 | a control sequence on the objects follows the specification, pixels included |
| Console.Screen.AnsiParam | src/tty.c:197-201 | a parameter, or its default |
| Console.Screen.ScrollScreen | src/tty.c:92-125 | scrolling moves grid and pixels as specified |
| Console.Screen.VgaFill | src/tty.c:175-194 | a fill blanks the same rectangle in grid and pixels |
| Console.Screen.Clear | src/tty.c:463-486 | after a clear every pixel agrees with the grid |
| Console.Screen.AltEnter | src/tty.c:138-150 | the screen is saved and cleared |
| Console.Screen.AltExit | src/tty.c:152-172 | the saved screen is back, pixels included |
| Console.Screen.DrawChar | src/drivers/fb.c:324-347 | exactly the pixels of one cell become the glyph |
| Console.Screen.PixelIs | src/drivers/fb.c:324-347 | every pixel has the colour its cell's attribute and its glyph's bit say |
| Console.Screen.FbScrollUp | src/drivers/fb.c:291-322 | pixels move up by one row of cells, the last is blank |
| Console.Screen.FbClear | src/drivers/fb.c:277-289 | every pixel gets the colour |
| Checksum.FoldIsModulo | src/netstack.c:28-30 | folding is reduction modulo 2^16 - 1 |
| Checksum.InsertThenVerify | src/netstack.c:18-32 | a buffer with its checksum inserted at an even offset sums to zero |
| Checksum.Detects | src/netstack.c:18-32 | changing one aligned word goes unnoticed if and only if 0x0000 and 0xFFFF are exchanged |
| Checksum.ByteOrderIndependent | src/netstack.c:18-32 | the little-endian sum stores the bytes section 1 of RFC 1071 asks for |
| Checksum.NetChecksum | src/netstack.c:18-32 | up to 65535 bytes nothing wraps and the result is the specified sum |
| Checksum.FoldLoop | src/netstack.c:28-30 | the carry loop ends in the fold |
| Checksum.PseudoHeaderIs | src/socket.c:21-52 | the pseudo header has the bytes of section 3.1 of RFC 793 |
| Checksum.TcpChecksum | src/socket.c:21-52 | the checksum of pseudo header and segment, odd lengths included |
| Packets.ParseEncode | src/netstack.c:232-242 | what is sent is what is parsed |
| Packets.SegmentLayout | src/socket.c:61-69 | a segment on the wire has the header of section 3.1 of RFC 793 |
| Packets.EncodeVerifies | src/socket.c:54-80 | a peer that verifies the checksum accepts it |
| Packets.BuildSegment | src/socket.c:54-80 | the buffer holds the encoded segment |
| Packets.IpLayer.FillHeader | src/netstack.c:137-148 | a header that checks, and the identifier counter advanced modulo 2^16 |
| TcpStream.ChunksCarry | src/socket.c:237-247 | segments of 1 to 1460 bytes that carry exactly the data |
| TcpStream.ChunksContiguous | src/socket.c:240-245 | consecutive sequence numbers modulo 2^32 |
| TcpStream.ChunkAt | src/socket.c:237-247 | segment k carries the k-th 1460 bytes, or what is left, under the first header with its number moved on |
| TcpStream.Socket.SendTo | src/socket.c:227-249 | the sent segments are the specified chunks, up to the first that cannot be sent, from this port to the other, acknowledging all that was received |
| TcpStream.Socket.SendPacket | src/socket.c:54-80 | a packet carries the socket's ports and numbers, its flags and its payload |
| TcpStream.HeardMeans | src/socket.c:396-421 | ring, counters, state and acknowledgements of an open connection after a segment, in numbers |
| TcpStream.Socket.Input | src/socket.c:372-427 | the whole new state in each connection state: the ring takes what fits, counter and acknowledgements cover all of it |
| TcpStream.Socket.Receive | src/socket.c:297-307 | bytes leave the ring in order |
| TcpStream.NextIntact | src/socket.c:398-405 | one step keeps the stream intact if and only if the ring had room |
| TcpStream.NextInStep | src/socket.c:406 | the receiver's counter tracks the sender's, whatever is dropped |
| TcpStream.RunIntact | src/socket.c:398-413 | over any run, bytes read, in the ring and in flight are the bytes sent if and only if there always was room |
| TcpStream.Unread | src/socket.c:398-407 | sent and delivered without a read, data is lost if and only if it is longer than the ring, and acknowledged in full |
| TcpStream.RingOverrun | src/socket.c:400-407 | 46 full segments without a read lose bytes although every one is acknowledged |
| TcpStream.Connection.Deliver | src/socket.c:372-427 | two sockets and a lossless channel follow the flow of the laws above |

## Left out

- Blocking: waits inside the kernel are steps that may or may not happen; nothing waits.
- Hardware: ports, PCI, drivers, paging, boot code; the fault and tick handlers only as steps.
- Accounting and identity: ticks, `comm`, timestamps. `cmdline` is built from argument buffers that were freed before (src/syscall.c:736 and 776-785) and is not modelled.
- Numbering: pids and inode numbers grow without the 32-bit wrap.
- ProcessRuns.Enabled: a kill that is not harmless is not part of runs, because there is no good state after it; `KillExactly` says which those are. Statuses 128 + sig are not bounded.
- ImageRuns.Disciplined: the image law assumes what the shared image needs: fork only after exec, stores only inside what one owns. Sizes and the number of execs are free.
- ImageRuns.RestoreExactly: that the law fails needs bytes left behind (heap bytes past a snapshot, the rest of an image that is replaced by a smaller one) that differ from the parent's; equal ones would hide it (`Telling`).
- ProcessSpec.Write: programs' stores are single bytes into the window; stacks and user heaps are elsewhere and shared or copied as fork does.
- Kernel.Machine.TaskExit: the bytes past a snapshot's end are a parameter; in the kernel they are whatever the heap holds there.
- FileTable.Descriptors.Release: sockets and the node behind a file are not followed; `struct file.sock` is unset in several places of the kernel and taken as null.
- Pipe data: the byte ring inside a pipe is not modelled, its references are.
- StackRelocation.ForkStack: frame pointers on the chain are word aligned, since an unaligned chain would overlap words, and the saved ebp lies below 2^32 - 4, since above it the walk reads past the address space.
- StackRelocation.Relocate: frame pointers on the chain are word aligned, as above.
- ExecSpec.ReadVecExactly: user memory is the set of addresses the range check accepts, without the 32-bit wrap of addresses.
- ExecCall.Execve: segments lie in the load window (`Loads`); the kernel does not check this. The snapshot buffer is part of the task, not of the ledger. Interrupted reads of a file being changed do not exist, since the call is atomic.
- Script chains: a script met at the fifth level is handed to the loader, as in the kernel.
- FileStore.Store.Write: a gap past the end of the file holds unspecified bytes, as in the kernel (`Written`); sums between 2^31 and 2^32 are excluded, because the growth loop does not end (`GrowthEndsExactly`).
- FileStore.Store.Truncate: lengths above 2^31 are excluded for the same reason.
- FileStore.Store.Open: symbolic links, `/proc`, `/sys` and `/dev` names, and nodes unlinked while open are not modelled. Where a rename has left two equal names, each operation acts on the first in the list, as in the kernel.
- FileStore.Store.Link: a target that is a symbolic link is not modelled.
- Renaming.Rename: symbolic links and the modification times of parents are not modelled.
- Listing.Getdents: synthetic directories are not modelled; the caller's buffer is not itself a file blob.
- Paths.ResolvePath: for a current directory that is not canonical or longer than 254 bytes only safety is stated; chdir leaves it canonical, but it may be 255 bytes long and is then cut.
- Paths.LongNameIsCut: gives the result for names of up to 126 characters; `ResolveExactly` covers every length and directory.
- Paths.ResolveExactly: when a `..` pops the first long name, the results agree or not depending on every later name and on the directory; `ClimbingHides` and `ClimbingMisses` are both kinds.
- Console.Screen.PrintChar: the text-mode mirror and geometries other than 1024x768 at 32 bits are not modelled; the font is a parameter. Of the colour sequences in README.md:97 the code knows the 16 colours only: it reads each parameter on its own, and so does the model.
- User mappings of the framebuffer and `/dev/fb0`: they bypass the grid by design.
- Keyboard tables and line editing: table lookups.
- UDP, ICMP, ARP, listening, connection setup and retransmission: the TCP part is the established data path.
- TcpStream.Socket.Input: the choice of the socket by port and address is made by the caller.
- Packets.EncodeVerifies: the kernel's own receiver does not verify checksums; a verifying peer is modelled.
- KernelHeap.Heap.Kfree: a stray pointer into the grown heap whose header happens to read as allocated without being a live block is outside the model; every other stray pointer is ignored, as in the kernel.
