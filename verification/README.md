# Verified models of the course systems

This project models, in Dafny, the parts of the repository that do the hard work, and proves what they promise:

- **UserFS** (`3/userfs.c`). The in-memory file system with its heap: files as doubly linked lists of 512-byte blocks,
  the list of named files, the growing table of descriptors, reference counts, files that are deleted while open. The
  class `UserFs.FileSystem` refines a file system made of three maps (`UserFsSpec`): any sequence of calls gives the
  replies of that specification and keeps every list canonical. `UserFsCalls` says what each call promises, of the state
  before and the state after it, and that the steps of the specification are the one way to keep the promises.
- **Thread pool** (`4/thread_pool.c`). `ThreadPool.Pool` is the array with its back-pointers, one method per stay under
  the mutex. `ThreadPoolRuns` interleaves workers, pushers, joiners, detachers and spurious wake-ups in any order; the
  invariant is proved for every step, `ThreadPoolCode` shows that each step does what the method for its critical section
  does, `ThreadPoolSteps` says what each step does to the tasks, and `ThreadPoolLaws` what every run gives to the
  callers.
- **Cooperative sort** (`1/solution.c` on `1/libcoro.c`). The quicksort whose recursion keeps the pivot, the k-way
  merge, the coroutines that share out the files, and the scheduler with its list.
- **Shell** (`2/`). The line reader and the tokenizer, which agree about quotes; what a line is and how tokens are
  written, said of the texts alone; the parser and a printer it undoes; the flat loop that runs a line and the
  short-circuit meaning of that line.
- **Two small protocols** (`lecture_examples/`). The futex lock and the shared-memory handshake.

Every file of the source has its modules: `UserFsSpec`, `UserFsCalls`, `UserFsBlocks`, `UserFs` and `UserFsLaws`;
`ThreadPoolSpec`, `ThreadPool`, `ThreadPoolRuns`, `ThreadPoolCode`, `ThreadPoolLaws` and `ThreadPoolSteps`; `QuickSort`,
`Merge`, `SortPool` and `SortRuns`; `CoroSpec`, `CoroRuns` and `Libcoro`; `ShellText`, `ShellLines`, `ShellPieces`,
`ShellTokenizer`, `ShellParser` and `ShellRun`; `Futex`; `MemSort`. They share `Options` and `Schedules`.
`dafny verify dfyconfig.toml` checks all of them.

Concurrency is modelled by steps: what one thread does under a mutex, one atomic operation, one byte copied, one round of
a loop between two yields. A run is a function of a schedule, any sequence of such steps, so that a statement about `Run`
is a statement about every interleaving. Where the code changes an object or an array in place there is a class or an
array, and its methods are proved against the functions that the statements about runs use.

## What turned out to be false

- **Growing a file.** The header (`3/userfs.h:144-147`) promises new empty blocks and unchanged positions. The code only
  raises the counter of the last block. `UserFs.FileSystem.Resize` has the exact condition. As long as the new size fits
  into the blocks the file has, up to the last byte of the last one, the file has the new size, its old bytes in front
  and a chain that every later call serves; what the new bytes are is not determined. If and only if it does not fit
  (`UserFs.FileSystem.Overflows`), the chain claims more than it can hold. `UserFsLaws.GrowthIsLost` then shows, for
  every file, every size and every descriptor of the file, what becomes of it. The first read that goes behind the old
  blocks is served; after it the computed size is the position rounded down to a whole number of blocks, and the next
  read reports the end of the file or a negative number of bytes. The new size survives if and only if that first read
  took every byte of it and it is a whole number of blocks. `UserFsLaws.OneByteTooMany` is the smallest case: an empty
  file resized to 513 bytes yields 513 bytes and then -1.
- **"Not enough memory" only for growth** (`3/userfs.h:156-157`). A file of exactly the maximal size cannot be resized to
  its own size: `UserFsLaws.ResizeRefusesOnlyGrowthUnlessFull`; `UserFsLaws.FullFileCannotKeepItsSize` is a run that
  gets there with one write.
- **The exit code of a line whose last pipeline is skipped.** The second wait finds the last child already waited for and
  leaves 0. `ShellRun.FinalCodeIsRight`: that is wrong exactly when the last pipeline stands behind `&&` and a
  failure. `ShellRun.FailureIsLost` is a line for which it does.
- **Redirection behind a skipped pipeline.** The loop knows a redirection only by the command in front of it. When that
  command is skipped the loop goes on, takes `>` for an operator like `&&`, and starts the name of the file as a command
  if the last status was 0. `ShellRun.LoopRedirects`: this happens exactly when the last pipeline was skipped behind
  `||`. `ShellRun.FileIsStarted`: the line `true || a > f` runs `true` and then `f`.
- **A pool of no coroutines.** A count of zero divides by zero before the pool is made (`1/solution.c:332`). A negative
  count makes no coroutine; then nothing is sorted although nobody is left to wait for, and the merge finds empty slots:
  `SortRuns.NoCoroutineNoResult`. `SortRuns.SortedWithACoroutine` has the exact condition: all slots are sorted if and
  only if there was a coroutine or there is no file.

## What ends

Five times the source relies on every participant getting its turn again and again. A round is a piece of a schedule in
which each has a turn, in any order and mixed with anything else; the number of rounds that is enough is a measure of the
state, not of the schedule.

- `ThreadPoolLaws.FairRoundsFinishTheWork`: without new pushes the workers finish all the work; so a task that is pushed
  returns exactly once for that push (`ThreadPoolSteps.PushedTaskReturns`).
- `CoroRuns.FairRoundsReturnAll`: a program that keeps waiting gets every coroutine back, finished, and then NULL, if its
  coroutines yield only so often.
- `SortRuns.FairRoundsFinish`: the coroutines finish.
- `Futex.FairRoundsCountAll`: the threads finish, and the counter is complete, although the lock may pass a thread over.
- `MemSort.FairRoundsDeliver`: the writer and the reader finish, with both messages delivered.

## Model

| member | source | states |
|---|---|---|
| UserFs.FileSystem.ServeAll | 3/userfs.c:107-353 | any sequence of calls without a growing resize, with any number of descriptors per file, gives the replies and the state of the specification; every list is canonical after it, and every last block still has room if every one had |
| UserFs.FileSystem.Serve | 3/userfs.c:227-353 | one call of any kind refines one step of the specification |
| UserFs.FileSystem.Open | 3/userfs.c:227-246 | an existing file is opened whatever the flags, a missing one is created only with the create flag; the descriptor goes to the lowest free slot |
| UserFs.FileSystem.Write | 3/userfs.c:310-320 | wrong descriptor, missing permission, no room, or exactly the bytes of the buffer at the position of the descriptor |
| UserFs.FileSystem.Read | 3/userfs.c:322-330 | the bytes from the position on, as many as asked for or as there are, and the descriptor moves behind them |
| UserFs.FileSystem.Close | 3/userfs.c:332-339 | the slot becomes free; a deleted file goes with its last descriptor and no sooner |
| UserFs.FileSystem.Delete | 3/userfs.c:341-353 | the name is free at once; the file stays while descriptors stand on it |
| UserFs.FileSystem.Resize | 3/userfs.c:401-410 | a size up to the current one truncates; a larger one that fits into the blocks gives the size and keeps the old bytes; the chain is lost if and only if the size does not fit into them |
| UserFs.FileSystem.Destroy | 3/userfs.c:355-365 | no file, named or deleted, and no descriptor is left |
| UserFs.FileSystem.constructor | 3/userfs.c:72-105 | the file system starts empty and canonical |
| UserFs.FileSystem.TryGetFileByFilename | 3/userfs.c:87-95 | the walk along the file list finds the file of the name, or there is none |
| UserFs.FileSystem.TryGetFileDescriptor | 3/userfs.c:146-150 | the entry of the table, or nothing outside it |
| UserFs.FileSystem.TryGetEmptyFileDescriptorSlot | 3/userfs.c:107-113 | the lowest free slot, or none |
| UserFs.FileSystem.AddFileDescriptorAtTheEnd | 3/userfs.c:115-134 | the table grows by doubling and keeps its entries |
| UserFs.FileSystem.AddFileDescriptor | 3/userfs.c:136-144 | the descriptor is entered at the lowest free slot, or behind the last one |
| UserFs.FileSystem.CreateFile | 3/userfs.c:163-189 | a new empty file of one block is in front of the file list and has the name |
| UserFs.FileSystem.DisconnectFileFromFileList | 3/userfs.c:191-202 | exactly this file leaves the list, also when it is not in it, and the links of the others agree |
| UserFs.FileSystem.DeleteFile | 3/userfs.c:204-215 | the file leaves the list and every block of it is freed once |
| UserFs.FileSystem.CloseFileDescriptor | 3/userfs.c:154-161 | one reference less; the file is freed if it was the last one of a deleted file |
| UserFs.FileSystem.WriteViaDescriptor | 3/userfs.c:282-294 | a write that would pass the maximal size changes nothing but the error code, any other is carried out in full |
| UserFs.FileSystem.RepairDescriptors | 3/userfs.c:377-389 | exactly the descriptors of this file that stand behind the new end are moved to it |
| UserFs.FileSystem.ReduceFileSize | 3/userfs.c:367-399 | what fits into the blocks is cut or stretched to the size, with every descriptor repaired and all lists canonical; what does not leaves a counter larger than its block |
| UserFsBlocks.FileDesc.WriteSingleByte | 3/userfs.c:248-254 | one byte of the content is replaced or appended; the last block can be full only for a moment |
| UserFsBlocks.FileDesc.AdvanceDescriptor | 3/userfs.c:260-280 | the position grows by one and the file is canonical again, with a new block if the last one was full |
| UserFsBlocks.FileDesc.WriteBytes | 3/userfs.c:288-291 | the loop replaces the bytes at the position and extends the file if it has to |
| UserFsBlocks.FileDesc.ReadBytes | 3/userfs.c:302-305 | the loop reads and steps on, on any chain, and hangs an empty block behind the last one when it gets to its end |
| UserFsBlocks.FileDesc.ReadViaDescriptor | 3/userfs.c:296-308 | the bytes from the position on, as many as asked for or as the computed size leaves; that number is negative for a descriptor behind that size |
| UserFsBlocks.FileDesc.ReadBehind | 3/userfs.c:296-308 | after a read of any length that goes behind the last block, whose counter is too large, the computed size is the position rounded down to a whole number of blocks, and the next read answers by that size |
| UserFsBlocks.File.AppendBlock | 3/userfs.c:264-275 | a new empty block with the next index is linked behind the last one |
| UserFsBlocks.File.FindNewLastBlock | 3/userfs.c:367-371 | the walk backwards ends inside the list, at the block the new end falls into |
| UserFsBlocks.File.FreeTail | 3/userfs.c:391-397 | the blocks behind the new last one are freed, last to first, once each |
| UserFsBlocks.File.FreeBlocks | 3/userfs.c:207-213 | every block is freed, first to last, once each |
| UserFsBlocks.File.MarkEnd | 3/userfs.c:367-375 | the new last block is cut off and says how much of it is left |
| UserFsBlocks.File.DropTail | 3/userfs.c:391-398 | without its tail the file is canonical and holds exactly the prefix |
| UserFsSpec.StepKeepsWellFormed | 3/userfs.c:227-410 | names, descriptors, reference counts and files stay consistent under every call |
| UserFsSpec.RefsPositive | 3/userfs.c:157-157 | a file has references if and only if some descriptor stands on it |
| UserFsCalls.StepIsWhatIsPromised | 3/userfs.c:227-410 | a step of the specification is exactly an outcome that keeps the promise of its call, for all six calls |
| UserFsCalls.NoOtherOutcome | 3/userfs.c:227-410 | the promise of a call, which does not mention the specification, leaves one outcome |
| UserFsCalls.OpenKept | 3/userfs.c:227-246 | an open fails if and only if the name is unknown and the create bit is not set, then with the no-file error; otherwise the lowest free slot gets a descriptor at the start, and only a missing name makes a new, empty file |
| UserFsCalls.WriteKept | 3/userfs.c:282-320 | no descriptor, the read-only bit, no room, in this order and with their errors; otherwise every byte of the file is told, and the position, and nothing else changes |
| UserFsCalls.ReadKept | 3/userfs.c:296-330 | no descriptor or the write-only bit, with their errors; otherwise as many bytes as asked for or all up to the end, each one told, the descriptor moves by that many and nothing else changes |
| UserFsCalls.CloseKept | 3/userfs.c:332-339 | the slot is free and exactly the files are left that a name or a descriptor still reaches |
| UserFsCalls.DeleteKept | 3/userfs.c:341-353 | the name is gone and exactly the files are left that a name or a descriptor still reaches |
| UserFsCalls.ResizeKept | 3/userfs.c:367-410 | no descriptor, too large, or the file is cut to the size and the descriptors behind it stand at its end |
| UserFsCalls.FlagsAddUp | 3/userfs.c:30-32 | flags that are or-ed together are present exactly if one of them is, and no flag contains another |
| UserFsLaws.ReadsJoin | 3/userfs.c:296-330 | reads of any sizes through a descriptor join to the bytes from its position on, as far as they ask for them |
| UserFsLaws.ReadUntilNothingIsLeft | 3/userfs.c:296-330 | reading until a read returns 0 gives the file from the position to its end |
| UserFsLaws.FailedCallsChangeNothing | 3/userfs.c:222-225 | a call that fails changes the error code and nothing else |
| UserFsLaws.OverwriteBytes | 3/userfs.c:288-291 | a write of n bytes at p replaces exactly [p, p+n) and gives the size max(size, p+n) |
| UserFsLaws.WrittenBytesComeBack | 3/userfs.c:282-308 | what one descriptor writes another one at the same place reads |
| UserFsLaws.WritesJoin | 3/userfs.c:282-294 | two writes in a row are one write of both buffers |
| UserFsLaws.OtherFilesKeepTheirBytes | 3/userfs.c:227-410 | no call touches the bytes of another file, and a file goes only when nobody can reach it |
| UserFsLaws.OtherDescriptorsStay | 3/userfs.c:227-410 | no call moves another descriptor, also one on the same file, except that a resize moves it to the new end if it stands behind it |
| UserFsLaws.SparedDescriptorsStay | 3/userfs.c:227-410 | a call that neither goes through a descriptor nor changes its file leaves it and its bytes alone |
| UserFsLaws.DescriptorKeepsItsFile | 3/userfs.c:154-161 | through any run that spares it a descriptor sees its file unchanged, whatever happens to the name |
| UserFsLaws.DeletedFileCanStillBeRead | 3/userfs.h:126-132 | a deleted file is read as before through a descriptor that was open |
| UserFsLaws.RecreatedFileStartsEmpty | 3/userfs.h:129-132 | the name of a deleted file leads to a new empty file that no open descriptor stands on |
| UserFsLaws.NothingLeaks | 3/userfs.c:157-158 | when all names are deleted and all descriptors closed no file is left |
| UserFsLaws.OpenTakesTheLowestFreeSlot | 3/userfs.c:107-144 | open returns the lowest free slot and keeps all entries, also when the table grows |
| UserFsLaws.ResizeTruncates | 3/userfs.c:377-389 | after a shrink every descriptor of the file is at the minimum of its position and the new size, the others have not moved |
| UserFsLaws.ResizeRefusesOnlyGrowthUnlessFull | 3/userfs.c:406-407 | the one request refused against the header is to keep a file of the maximal size |
| UserFsLaws.FullFileCannotKeepItsSize | 3/userfs.c:406-407 | an open, a write of the maximal size and a resize to that size: the last reply is -1 |
| UserFsLaws.GrowthIsLost | 3/userfs.c:373-375 | after a resize past the blocks of a file, for every descriptor of the file and every read that goes behind those blocks: the size becomes the position rounded down to whole blocks, and is the one asked for if and only if the read took all of it and it is a whole number of blocks |
| UserFsLaws.OneByteTooMany | 3/userfs.c:373-375 | an empty file resized to 513 bytes: 513 bytes are read, the next read returns -1 |
| ThreadPool.Pool.Swap | 4/thread_pool.c:46-56 | the array and the two back-pointers change as in the specification, also for a task and itself |
| ThreadPool.Pool.LookForWork | 4/thread_pool.c:64-83 | a worker that was woken at the end leaves, one that finds a task takes the one in front, any other waits |
| ThreadPool.Pool.TakeTask | 4/thread_pool.c:76-83 | the task in front is taken and the last unassigned one fills its place |
| ThreadPool.Pool.FinishTask | 4/thread_pool.c:87-98 | the result is stored; a detached task leaves the array and is freed here |
| ThreadPool.Pool.Leave | 4/thread_pool.c:249-254 | the task leaves the array, the last one takes its place |
| ThreadPool.Pool.JoinTask | 4/thread_pool.c:229-255 | not pushed, not finished yet, or the result and the slot is free |
| ThreadPool.Pool.DetachTask | 4/thread_pool.c:341-357 | a finished task is removed and freed here, any other is left to its worker |
| ThreadPool.Pool.PushTask | 4/thread_pool.c:159-188 | refused when the pool is full; otherwise a thread is started or signalled under the stated conditions |
| ThreadPool.Pool.NewTask | 4/thread_pool.c:190-205 | a new task is in no pool and has no history |
| ThreadPool.Pool.DeleteTask | 4/thread_pool.c:330-337 | a task in a pool is refused, any other is freed |
| ThreadPool.Pool.DeletePool | 4/thread_pool.c:133-143 | refused while a task waits or runs |
| ThreadPool.NewPool | 4/thread_pool.c:102-124 | a pool with a valid number of threads, or an error |
| ThreadPoolSpec.TakeKeeps | 4/thread_pool.c:76-83 | taking a task keeps the array partitioned and the back-pointers right |
| ThreadPoolSpec.RemoveKeeps | 4/thread_pool.c:249-254 | removing a task keeps the array partitioned and the back-pointers right |
| ThreadPoolSpec.PushKeeps | 4/thread_pool.c:167-184 | pushing a task keeps the array partitioned and the back-pointers right |
| ThreadPoolRuns.NextKeepsInv | 4/thread_pool.c:60-357 | every step of a worker, pusher, joiner, detacher or deleter keeps the invariant of the pool |
| ThreadPoolRuns.Run | 4/thread_pool.c:60-357 | the invariant holds after every schedule |
| ThreadPoolRuns.PushWakes | 4/thread_pool.c:174-183 | after every push some worker is awake, although a signal is sent only for the first task |
| ThreadPoolLaws.ArrayIsPartitioned | 4/thread_pool.c:76-79 | in every run the slots hold distinct tasks, unassigned ones in front, running and finished ones behind |
| ThreadPoolLaws.Census | 4/thread_pool.c:32-44 | in every run pushed = unassigned + running + finished, within the bounds, and no more run than there are threads |
| ThreadPoolLaws.NoWorkIsStranded | 4/thread_pool.c:65-73 | in every run, while a task waits some worker is not blocked in the wait |
| ThreadPoolLaws.SleepingJoinersAreServed | 4/thread_pool.c:245-247 | in every run a joiner sleeps only for a task that waits or is executed |
| ThreadPoolLaws.WorkIsUsedUp | 4/thread_pool.c:78-89 | only a push makes work, and taking or finishing a task uses up one unit of 2 * unassigned + running |
| ThreadPoolLaws.SomeoneCanWork | 4/thread_pool.c:63-98 | while there is work some worker has a step that uses it up |
| ThreadPoolLaws.WorkingStepsAreCounted | 4/thread_pool.c:63-98 | without pushes the working steps of any schedule are exactly what the work there was went down by |
| ThreadPoolLaws.FairRoundWorks | 4/thread_pool.c:63-98 | while there is work, every round without pushes in which each worker gets its turn uses up some of it, whatever else happens in the round |
| ThreadPoolLaws.FairRoundsFinishTheWork | 4/thread_pool.c:63-98 | after as many such rounds as there is work no task waits or runs |
| ThreadPoolLaws.WorkersDrainThePool | 4/thread_pool.c:63-98 | from every reachable state the workers alone can finish all tasks, in exactly as many steps as there is work |
| ThreadPoolSteps.PushLaw | 4/thread_pool.c:159-188 | a push is accepted if and only if there is room; then the task is among the waiting ones, the work is up by two, and no other task changes |
| ThreadPoolSteps.PushedTaskGetsAWorker | 4/thread_pool.c:174-183 | a thread is started exactly when all threads execute tasks and the maximum is not reached; otherwise a sleeping worker is woken exactly when no other task waits |
| ThreadPoolSteps.LockLaw | 4/thread_pool.c:63-84 | a worker under the mutex leaves, sleeps when no task waits, or makes a waiting task a running one |
| ThreadPoolSteps.ReturnLaw | 4/thread_pool.c:87-98 | a running task is finished, with its result, or gone if it was detached; its joiner is woken |
| ThreadPoolSteps.JoinLaw | 4/thread_pool.c:229-255 | a joiner sleeps while its task is not finished, and otherwise takes the result and the task out of the pool |
| ThreadPoolSteps.DetachLaw | 4/thread_pool.c:341-357 | a finished task is freed at once, any other one in the pool is marked |
| ThreadPoolSteps.DeleteTaskLaw | 4/thread_pool.c:330-337 | a task is freed exactly when it is not in a pool |
| ThreadPoolSteps.DeletePoolLaw | 4/thread_pool.c:133-143 | a pool ends exactly when no task waits or is executed, and every sleeping worker is woken |
| ThreadPoolSteps.AllHaveReturned | 4/thread_pool.c:63-98 | when no task waits or is executed every task has returned once for each of its pushes, freed ones included |
| ThreadPoolSteps.PushedTaskReturns | 4/thread_pool.c:63-188 | after an accepted push and enough rounds without pushes, in which each worker gets its turn, the task has returned exactly once more |
| ThreadPoolCode.PushTask | 4/thread_pool.c:159-188 | the code of a push does to the pool what the step of a run does, and starts or signals where the run has a new or a woken worker |
| ThreadPoolCode.LookForWork | 4/thread_pool.c:63-84 | the code of a worker under the mutex does what the step does, and tells the worker what the step makes of it |
| ThreadPoolCode.FinishTask | 4/thread_pool.c:87-98 | the code behind a task function does what the step does |
| ThreadPoolCode.JoinTask | 4/thread_pool.c:229-255 | the code of one look of a joiner does what the step does, and hands back what the step hands back |
| ThreadPoolCode.DetachTask | 4/thread_pool.c:341-357 | the code of a detach does what the step does |
| ThreadPoolCode.NewTask | 4/thread_pool.c:190-205 | a new task of the code is the new task of the step |
| ThreadPoolCode.DeleteTask | 4/thread_pool.c:330-337 | the code of a task deletion does what the step does, and succeeds when the step frees the task |
| ThreadPoolCode.DeletePool | 4/thread_pool.c:133-143 | the first part of a pool deletion does what the step does, and succeeds when the step ends the pool |
| ThreadPoolLaws.OnceForEachPush | 4/thread_pool.c:85-85 | in every run a task is executed at most once for each push, joined at most once for each execution, freed at most once |
| ThreadPoolLaws.JoinHandsBackTheResult | 4/thread_pool.c:236-240 | a join ends only after the execution of the latest push, hands back its result and frees the slot for another push |
| ThreadPoolLaws.UsedTasksAreAlive | 4/thread_pool.c:87-96 | in every run a task that is executed or joined has not been freed |
| ThreadPoolLaws.NoDetachedTaskIsLeft | 4/thread_pool.c:93-96 | in every run, when no task waits or runs, every detached task has been freed |
| ThreadPoolLaws.DetachAndReturnCommute | 4/thread_pool.c:93-96 | whichever of detach and completion takes the mutex first, the outcome is the same: freed once |
| ThreadPoolLaws.DeleteNeedsFinishedTasks | 4/thread_pool.c:135-138 | a pool can be deleted if and only if every pushed task is finished |
| ThreadPoolLaws.DeletedPoolHasNoWork | 4/thread_pool.c:140-147 | in every run nothing executes in a deleted pool and its tasks are finished |
| QuickSort.Partition | 1/solution.c:147-161 | the loop computes the partition of the specification in place and returns where the pivot is |
| QuickSort.PartitionSplits | 1/solution.c:147-161 | the segment is permuted, nothing before the pivot is greater, everything behind it is; the rest of the array is untouched |
| QuickSort.RecursionDecreases | 1/solution.c:166-173 | both recursive calls have a smaller measure, also when the pivot lands in front and the whole segment is sorted again |
| QuickSort.Sort | 1/solution.c:166-173 | the recursion terminates and computes the sort of the specification in place |
| QuickSort.SortSorts | 1/solution.c:166-173 | the segment is sorted and permuted, nothing else moves |
| QuickSort.SortAll | 1/solution.c:166-183 | the numbers of a file are sorted in place |
| QuickSort.SortedIsUnique | 1/solution.c:311-311 | a sorted sequence is fixed by its numbers |
| Merge.FindLeast | 1/solution.c:294-306 | the first file whose next number is least, or none when all are used up |
| Merge.WriteMerged | 1/solution.c:285-311 | the output is sorted and holds every number of every file once; equal numbers come in the order of the files |
| Merge.OutputIsUnique | 1/solution.c:285-311 | no other output meets that |
| SortPool.CallRuns | 1/solution.c:166-173 | the sort that can be interrupted after every round of a loop computes what the recursive one computes, in a number of steps fixed by the numbers |
| SortPool.StepFits | 1/solution.c:150-158 | between two yields only one loop is under way and its split holds |
| SortRuns.NextKeepsInv | 1/solution.c:255-273 | every step of a coroutine keeps: claimed files are sorted or are being sorted by one coroutine, as far as its steps say |
| SortRuns.EachFileHasOneCoroutine | 1/solution.c:261-263 | under every schedule each file is claimed once and worked on by one coroutine |
| SortRuns.OnlyPermutedBetweenYields | 1/solution.c:151-157 | at every yield the numbers being sorted are those of the file |
| SortRuns.SlotsAreSorted | 1/solution.c:354-360 | when all coroutines have finished every slot holds the sorted numbers of its file |
| SortRuns.NoCoroutineNoResult | 1/solution.c:346-353 | without a coroutine, as with a negative count, nothing is sorted |
| SortRuns.SortedWithACoroutine | 1/solution.c:346-360 | a run that has ended has sorted every file if and only if there was a coroutine or there is no file |
| SortRuns.OutputIgnoresTheSchedule | 1/solution.c:285-311 | the merged output depends neither on the schedule nor on the number of coroutines |
| SortRuns.StepsUseUpWork | 1/solution.c:261-273 | every step of an unfinished coroutine uses up work |
| SortRuns.CoroutinesCanFinish | 1/solution.c:346-360 | from every reachable state the coroutines can run on until all have finished |
| SortRuns.FairRoundsFinish | 1/solution.c:346-360 | every schedule that gives each coroutine its turns ends with all of them finished |
| Libcoro.Scheduler.ListAdd | 1/libcoro.c:52-61 | the coroutine is in front of the list and all links agree |
| Libcoro.Scheduler.ListDelete | 1/libcoro.c:63-74 | exactly this coroutine leaves the list and all links agree |
| Libcoro.Scheduler.FindFinished | 1/libcoro.c:134-135 | the walk finds the first finished coroutine |
| Libcoro.Scheduler.Look | 1/libcoro.c:130-145 | one turn of the wait: a finished coroutine is returned, NULL for the empty list, or the head of the list gets control |
| Libcoro.Scheduler.YieldTo | 1/libcoro.c:101-110 | a switch counts for the coroutine that gives up control |
| Libcoro.Scheduler.Yield | 1/libcoro.c:112-121 | control goes to the next coroutine of the list, or to the scheduler behind the last one |
| Libcoro.Scheduler.Finish | 1/libcoro.c:175-183 | the result is kept, the coroutine is finished and the scheduler was waiting |
| Libcoro.Scheduler.Create | 1/libcoro.c:186-258 | the new coroutine is in front of the list |
| CoroSpec.NextKeepsInv | 1/libcoro.c:54-183 | every switch, creation and end of a coroutine keeps the invariant of the scheduler |
| CoroSpec.FinishedIsNeverResumed | 1/libcoro.c:179-182 | in every run the coroutine that runs is unfinished and the scheduler waits, so there is always a place to return to |
| CoroSpec.AtMostOneFinishedInTheList | 1/libcoro.c:133-139 | in every run at most one coroutine of the list is finished, and only while the scheduler has control |
| CoroSpec.ReturnedOnce | 1/libcoro.c:135-138 | in every run each coroutine that was made is in the list until it is returned, once, after it finished |
| CoroSpec.NullOnlyForTheEmptyList | 1/libcoro.c:133-144 | NULL is returned if and only if the list is empty, and a finished coroutine if and only if there is one |
| CoroSpec.NullMeansAllReturned | 1/libcoro.c:133-144 | in every run, when NULL is returned every coroutine that was ever made has been returned, exactly once |
| CoroSpec.RoundsFollowTheList | 1/libcoro.c:112-121 | a round resumes a prefix of the list in order, once each, and all of it unless a coroutine finishes |
| CoroRuns.FairRoundCounts | 1/libcoro.c:127-183 | while there are coroutines, every round in which the program waits, the scheduler looks and the running coroutine yields or finishes brings the program forward, but for the yields |
| CoroRuns.FairRoundsReturnAll | 1/libcoro.c:127-183 | after enough such rounds, if the coroutines yield only so often, all of them are returned, once each and finished, and the next answer is NULL |
| CoroSpec.WaitIsBounded | 1/libcoro.c:112-145 | without new coroutines the one at position k waits through at most k rounds that are cut short, and no other round passes it over |
| ShellTokenizer.ReadStdinLine | 2/utils.c:14-76 | flags and the growing buffer compute the line of the specification, as C reads it: up to its first zero, if it has one |
| ShellTokenizer.Enlarge | 2/utils.c:31-36 | the larger buffer holds what stands up to the first zero |
| ShellTokenizer.CopyString | 2/utils.c:31-36 | the text moves to the larger buffer |
| ShellTokenizer.Substring | 2/utils.c:78-88 | the characters asked for, up to the first zero |
| ShellTokenizer.GetClosingQuoteIndex | 2/tokenizer.c:20-37 | the first unescaped quote of the kind that opened, or the end |
| ShellTokenizer.ExtractQuotedToken | 2/tokenizer.c:39-80 | the inside of the quotation with its escapes resolved |
| ShellTokenizer.EmitChar | 2/tokenizer.c:48-75 | what one character of a quotation adds to the buffer |
| ShellTokenizer.QuotedLiteral | 2/tokenizer.c:87-112 | the token of the quotation and where the text goes on |
| ShellTokenizer.PrependWord | 2/tokenizer.c:115-131 | the unquoted word in front of what ended it, if there is one |
| ShellTokenizer.CollectWord | 2/tokenizer.c:134-207 | the loop stops at the end or at the first unescaped blank, quote or operator that ends the token |
| ShellTokenizer.GetOneToken | 2/tokenizer.c:133-212 | one unquoted word with the quotation or operator behind it, and strictly later where to go on |
| ShellTokenizer.GetTokens | 2/tokenizer.c:214-236 | the tokens of the line, one after the other |
| ShellLines.ReadLineReadsTheLine | 2/utils.c:14-76 | what the reader returns is the line at that place and nothing else: the input up to the first newline outside quotes and pairs, or up to the end of the input, without its spliced pairs of backslash and newline, and the place exactly behind it |
| ShellLines.LinesAreTheInput | 2/main.c:93-97 | the lines read one after another, written down again with newlines between them, are the input up to its end |
| ShellPieces.PiecesAreRead | 2/tokenizer.c:133-236 | any text made of blanks, words with escaped characters, quotations and operators that fit together is read as their tokens, and cleanly exactly when nothing is left open |
| ShellPieces.TokensAreWhatIsWritten | 2/tokenizer.c:133-236 | the tokens of a text are exactly those that the text is a way to write |
| ShellText.ReaderFollowsAutomaton | 2/utils.c:26-73 | the reader leaves a line at a newline only outside quotes and escapes, over spliced lines and quoted newlines |
| ShellText.ClosingAgrees | 2/tokenizer.c:20-37 | a closing quote is found exactly where the reader sees the quotation end |
| ShellText.ScanAgrees | 2/tokenizer.c:142-207 | a token ends exactly where the reader is outside quotes and escapes |
| ShellText.CleanMeansPlain | 2/tokenizer.c:133-236 | the tokenizer runs over a text without an open quotation or a dangling backslash if and only if the automaton ends it plain |
| ShellText.LinesAreClean | 2/utils.c:26-26 | a line that ended at a newline never shows the tokenizer an unclosed quote or a lone backslash |
| ShellParser.CountTokensUntilOperatorOrEnd | 2/parser.c:39-44 | the tail recursion counts the tokens before the next operator |
| ShellParser.CountUntilOperator | 2/parser.c:39-44 | the tokens counted are words, the next one is an operator or there is none |
| ShellParser.ConvertTokens | 2/parser.c:46-87 | the loops make the commands of the specification |
| ShellParser.ParseLine | 2/parser.c:107-119 | a line becomes the array of its commands |
| ShellParser.PrintedTokens | 2/tokenizer.c:133-236 | the tokens of a printed line are those that were printed |
| ShellParser.EscapeComesBack | 2/tokenizer.c:46-79 | escaping a word for double quotes is undone by the tokenizer |
| ShellParser.CommandsAreNormal | 2/parser.c:54-84 | operators stand alone, no argument is an operator, no two word commands are neighbours, and no token is lost |
| ShellParser.OnlyNormalForm | 2/parser.c:107-119 | the commands of a line are the one normal form that holds its tokens |
| ShellParser.ParseUndoesPrint | 2/parser.c:107-119 | parse returns the commands that were printed if and only if they are in normal form |
| ShellParser.ParsePrinted | 2/parser.c:107-119 | a buffer that holds printed commands is parsed back to them |
| ShellParser.EveryParseIsNormal | 2/parser.c:107-119 | every line parses to a normal form that could have been printed |
| ShellRun.GetCommandCountBeforeRedirection | 2/main.c:65-78 | all commands, or all but two when the last but one is a redirection |
| ShellRun.RunCommands | 2/main.c:130-266 | the loop with its flags, and the wait behind it, compute the loop of the specification |
| ShellRun.RunsPipe | 2/main.c:186-243 | a pipeline whose first command is started is started as a whole |
| ShellRun.SkipsPipe | 2/main.c:179-184 | a pipeline whose first command is skipped is skipped as a whole |
| ShellRun.LoopDeals | 2/main.c:136-244 | behind every AND and OR operator the flags are what short-circuit evaluation of the left side says |
| ShellRun.LoopShortCircuits | 2/main.c:136-244 | the flat loop starts exactly the commands that recursive short-circuit evaluation starts, for every assignment of exit statuses |
| ShellRun.FinalCodeIsRight | 2/main.c:250-266 | the code left is that of the line if and only if its last pipeline does not stand behind an AND whose left side fails |
| ShellRun.FailureIsLost | 2/main.c:250-266 | a line for which it is not |
| ShellRun.LoopRedirects | 2/main.c:136-266 | in front of a redirection the loop starts what short-circuit evaluation starts, and in addition the name of the file exactly when the last pipeline was skipped behind an OR operator; and the code that is left in each case |
| ShellRun.FileIsStarted | 2/main.c:164-215 | a line for which the name of the file is started |
| ShellRun.PrintedRedirectsRun | 2/main.c:94-244 | a line with a redirection that is printed, parsed and run starts the same |
| ShellRun.PrintedLinesRun | 2/main.c:94-244 | a line that is printed, parsed and run starts what it means; a single exit or cd starts nothing |
| Futex.NextKeepsInv | lecture_examples/6_threads/8_futex.c:24-51 | every atomic operation of every thread keeps the invariant |
| Futex.MutualExclusion | lecture_examples/6_threads/8_futex.c:24-36 | in every run one thread at most is between lock and unlock |
| Futex.NoIncrementIsLost | lecture_examples/6_threads/8_futex.c:47-51 | when all threads are done the counter is threads * iterations |
| Futex.CounterNeverExceeds | lecture_examples/6_threads/8_futex.c:47-51 | in every run the counter is the number of increments made so far |
| Futex.NoSleeperIsStranded | lecture_examples/6_threads/8_futex.c:24-36 | in every run, while a thread sleeps the lock is held, a wake is due or a thread contends |
| Futex.WhoSleeps | lecture_examples/6_threads/8_futex.c:10-36 | a thread falls asleep exactly when it waits while the word is 1, and a wake takes exactly one sleeper back, if there is one |
| Futex.SomeoneCanStep | lecture_examples/6_threads/8_futex.c:24-51 | unless all are done some thread has a step that brings it forward |
| Futex.ThreadsCanFinish | lecture_examples/6_threads/8_futex.c:42-53 | from every reachable state the threads can run on until the full count is reached |
| Futex.TwoRoundsMakeHeadway | lecture_examples/6_threads/8_futex.c:24-51 | whenever each thread gets two turns, in any order and with any wake-ups, some thread makes headway that no later step undoes |
| Futex.FairRoundsCountAll | lecture_examples/6_threads/8_futex.c:42-53 | every schedule that gives each thread its turns ends with all of them done and the full count |
| MemSort.SizeComesBack | lecture_examples/7_ipc/3_mem_sort.c:104-104 | the int that is sent as bytes comes back |
| MemSort.WriterKeepsInv | lecture_examples/7_ipc/3_mem_sort.c:31-57 | every step of the writer keeps the invariant of the handshake |
| MemSort.ReaderKeepsInv | lecture_examples/7_ipc/3_mem_sort.c:59-85 | every step of the reader keeps the invariant of the handshake |
| MemSort.CopiesNeverOverlap | lecture_examples/7_ipc/3_mem_sort.c:41-51 | in every run the flags are never both set and the sides never copy at the same time |
| MemSort.MessagesArrive | lecture_examples/7_ipc/3_mem_sort.c:104-105 | in every run the reader has a prefix of what was sent, and all of it when it is done |
| MemSort.SameNumberOfExchanges | lecture_examples/7_ipc/3_mem_sort.c:40-56 | in every run both sides take part in the same exchanges, one for an empty payload too |
| MemSort.ExchangesRoundUp | lecture_examples/7_ipc/3_mem_sort.c:31-57 | a message takes one exchange for each 65534 bytes, rounded up, and one if it is empty |
| MemSort.StepsUseUp | lecture_examples/7_ipc/3_mem_sort.c:68-84 | every step that is not a vain test of a flag brings the pair closer to its end |
| MemSort.SomeSideProgresses | lecture_examples/7_ipc/3_mem_sort.c:41-42 | until both are done one side does not spin |
| MemSort.PairCanFinish | lecture_examples/7_ipc/3_mem_sort.c:122-137 | from every reachable state the pair can run to its end with both messages delivered |
| MemSort.FairRoundProgresses | lecture_examples/7_ipc/3_mem_sort.c:40-84 | until both are done, every round in which both sides get a turn brings the pair closer to its end |
| MemSort.FairRoundsDeliver | lecture_examples/7_ipc/3_mem_sort.c:122-137 | every schedule of that many such rounds ends with both sides done and both messages delivered |

## Left out

- UserFs.FileSystem.Resize: the new bytes of a growth that fits are not stated, because the source leaves whatever the block held before; after one that does not fit only reads are followed, by UserFsLaws.GrowthIsLost.
- UserFs.FileSystem.ServeAll: runs without a resize that grows a file, for the reason given above.
- UserFs.FileSystem.Read: the caller's buffer is the returned sequence; a buffer that overlaps the blocks is not modelled.
- UserFs.FileSystem.Destroy: freeing the descriptor table is not modelled, and nothing is said about calls after it.
- ThreadPool.Pool.DeletePool: waiting for the threads and freeing the pool are not modelled; a worker that reaches its wait after the broadcast is not woken by it, so that the call need not return.
- ThreadPool.Pool.JoinTask: one look at the task under the mutex; the waiting between two looks is in the runs. The join with a timeout is not modelled.
- ThreadPoolRuns.Run: clients join a task once per push, do not use it after detaching or deleting it, and do not push it to two pools.
- Merge.WriteMerged: the output is a sequence of numbers; the file it is printed to is not modelled.
- SortRuns.Run: control may change hands after every step, whichever coroutine the clock and the scheduler would have chosen; reading the files is replaced by their numbers.
- CoroSpec.Run: signal stacks and jump buffers are not modelled, a switch of context is one step; what coroutines compute is left to the sort.
- ShellText.LinesAreClean: a line with a zero in it reaches the tokenizer cut at the zero, which may be inside a quotation; the statement is about the whole line. The byte 0xFF ends the input as in the source.
- ShellRun.RunCommands: fork, exec, pipes and output are replaced by an oracle that gives the exit status of a started command by its place; closing descriptors is not modelled.
- ShellRun.LoopShortCircuits: lines without `&`; a redirection at the end is in ShellRun.LoopRedirects, one elsewhere is not a redirection to the source and has no meaning here. A single `exit` or `cd` does not get to it, see ShellRun.PrintedLinesRun.
- Futex.Run: atomic operations are sequentially consistent and the counter is unbounded, so threads * iterations has to fit an int.
- MemSort.Run: loads, stores and byte copies are sequentially consistent steps, an int has four bytes with the least significant first, and 4 * size fits an int.
- CoroRuns.FairRoundsReturnAll: no coroutine is created on the way; the ones there are may have been created in any order.
- Memory that runs out, and sizes that do not fit an int, in all of the C code.
- The time arithmetic of `1/solution.c` and `4/thread_pool.c`: it would only add easy members.
- What `exit` and `cd` do, background lines, and the calls of the operating system in the shell.
- The reading of files, qsort and the collection of several workers in `lecture_examples/7_ipc/3_mem_sort.c`.
- `5/`, `utils/` and the other lecture examples.
