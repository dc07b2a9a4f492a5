# os_hw in Dafny: RAID-5 simulator, Game of Life, mini shell, copy tool, write benchmark

This project models the computational core of a set of operating-systems
exercises written in C and proves properties of the model.

- **RAID-5 simulator** (`ex2.c`), the main part:
  - `RaidLayout` translates a logical sector into a (device, stripe, place)
    location, finds the parity location of a stripe and the backup set of a
    location, and computes on-device sector numbers and byte offsets.
  - `RaidEngine` models the device table (`g_dev_status`), the last bad
    device, single-sector I/O that closes a device on its first failure, and
    the READ, WRITE, KILL and REPAIR commands.
  - The engine state is a record threaded through pure functions. It holds a
    trace of every `io_operation` call and every `close()` argument. A `Disk`
    oracle answers each seek-and-transfer with complete, seek mismatch or
    short transfer.
- **Game of Life** (`gol.c`, `gol2.c`):
  - `Life` models the cell rule with clipped edges and the `unsigned char`
    neighbour count, the synchronous generation with its buffer swap, and
    `get_row_size`.
  - `LifeTasks` models the quadrant split of `process_task`. One sequential
    worker loop drives a FIFO of tasks, and the cells it updates are exactly
    the board's cells.
  - `TaskQueue` models the doubly linked queue of `gol2.c` as a heap of nodes:
    `chain_tasks`, `enque_task`, `deque_task`, `create_task` and the
    four-task batch.
- **Mini shell** (`myshell.c`), module `Shell`: finding the pipe token,
  detecting a trailing `&`, the NULL-terminated argv arrays handed to
  `execvp`, and the flags that decide when the SIGCHLD handler is saved,
  replaced and restored.
- **Copy tool** (`copy_tool.c`), module `CopyTool`: `min`, `copy_block`, the
  chunk schedule of `copy_file`, its stop-at-first-failure loop and the
  first-error-wins `g_error_string`. `copy_part`'s mmap work is an oracle.
- **Write benchmark setup** (`ex1.c`), module `FileResize`: the aligned random
  offset, the size decision of `makeFileSize`, and the 1 MiB write loop of
  `appendRandomDataToFile`. The file is modelled by its length, and each
  system call's outcome is a parameter.
- `Arith` holds `min` and shared facts about multiplication and Euclidean division, and
  `Wrappers` holds `Option`.

All system calls, `random()` and the payload bytes are inputs to the model,
never computed by it.

## Model

| member | source | states |
|---|---|---|
| RaidLayout.ParityDevice | ex2.c:43-45 | The parity device of a stripe is a valid device index. ParityPeriodic and ParityRotation state how it rotates. |
| RaidLayout.Locate | ex2.c:57-67 | A logical sector lands on a device below N, at a place below SECTORS_PER_BLOCK, as a data location, and never on the parity device of its stripe. |
| RaidLayout.ParityLocation | ex2.c:69-77 | The parity location keeps the stripe and place, is flagged as parity, sits on the stripe's parity device, and never shares a device with any data location. |
| RaidLayout.LocateRoundTrip | ex2.c:39-67 | Translation is invertible: every logical sector maps to a data location, and LogicalOf recovers the sector from it. |
| RaidLayout.LogicalOfRoundTrip | ex2.c:39-67 | Every data location is the translation of exactly the sector LogicalOf assigns to it, so translation is onto the data locations. |
| RaidLayout.LocateInjective | ex2.c:57-67 | Distinct logical sectors never share a (device, stripe, place) location. |
| RaidLayout.DeviceSectorsDistinct | ex2.c:93-95 | Two distinct logical sectors on the same device have distinct on-device sector numbers. |
| RaidLayout.DataNeverOnParity | ex2.c:47-55 | A data sector and a parity sector on the same device never have the same on-device sector number. |
| RaidLayout.DeviceSectorAtMost | ex2.c:93-95 | The on-device sector of logical sector ls is at most ls. |
| RaidLayout.ByteRangesDisjoint | ex2.c:97-99 | Sectors with increasing on-device numbers occupy disjoint, increasing 4096-byte ranges. |
| RaidLayout.ByteOffsetFitsOffT | ex2.c:97-99 | Computed without overflow, the byte offset of any sector an int can name fits a signed 64-bit off_t. |
| RaidLayout.WrapInt32 | ex2.c:97-99 | The value a C int keeps of a product lies in the int range and is the product itself when that fits. |
| RaidLayout.ByteOffsetAsWrittenCorrectBelow2GiB | ex2.c:97-99 | The offset as computed in int arithmetic is right exactly when the on-device sector is below 2^19, that is below 2 GiB. |
| RaidLayout.ByteOffsetAsWrittenOverflows | ex2.c:97-99 | On-device sector 2^19 (stripe 131072) has true offset 2^31, but the int arithmetic produces -2^31. |
| RaidLayout.ByteOffsetAsWrittenWraps | ex2.c:97-99 | As written, device sectors 2^19 to 2^20 - 1 get a negative offset, and device sector 2^20 wraps round to offset 0. |
| RaidLayout.LocateAsWrittenAgrees | ex2.c:39-67 | get_physical_sector in C's truncating `/` and `%` computes exactly Locate on every non-negative sector. |
| RaidLayout.NegativeSectorsEscape | ex2.c:39-67 | With four devices, sector -1 maps to place -1 of device 0 (device sector -1), and sector -5 maps to device index -1. |
| RaidLayout.ParityPeriodic | ex2.c:43-45 | The parity device repeats with period N over stripes. |
| RaidLayout.ParityRotation | ex2.c:43-45 | Over any N consecutive stripes, every device is the parity device exactly once. |
| RaidLayout.BackupSet | ex2.c:79-91 | The backup set has N-1 locations in ascending device order. They skip the bad device, keep its stripe and place, cover every other device, and are flagged parity exactly on the stripe's parity device. |
| RaidLayout.BackupSetHasOneParity | ex2.c:79-91 | The backup set of a data location contains exactly one parity location. |
| RaidLayout.GetBackupSectors | ex2.c:79-91 | The loop with its skip-the-bad-device counter produces exactly the backup set. |
| RaidEngine.CloseDevice | ex2.c:101-108 | KILL marks the slot invalid and calls close() only when the slot was open. Nothing else in the state changes. |
| RaidEngine.CloseIdempotent | ex2.c:101-108 | Closing a device twice is the same as closing it once, and it issues at most one close(). |
| RaidEngine.Io | ex2.c:119-146 | One I/O adds one trace step and succeeds iff the device is open and the disk completes the transfer at the location's byte offset. An invalid device fails with lastBad set and nothing closed. A seek or transfer failure sets lastBad and closes and invalidates the device. Success changes no handle. |
| RaidEngine.RunPlan | ex2.c:160-166 | A sequence of transfers runs in order and stops at the first failure. It succeeds iff every transfer completed. A failure leaves exactly the failing device closed and recorded as lastBad. |
| RaidEngine.ReadBackup | ex2.c:156-168 | read_backup reads the backup set in ascending device order, stops at the first failure, never reopens a device and records the failing device. |
| RaidEngine.ReadOperation | ex2.c:170-181 | READ first reads the mapped location. Only if that fails does it read the backup set, and it succeeds iff the direct read or every backup read completed. |
| RaidEngine.StandardPlan | ex2.c:187-198 | The standard write reads then writes the lower-indexed of target and parity, then reads then writes the higher one. |
| RaidEngine.StandardWrite | ex2.c:183-203 | With the parity device open, the four transfers of StandardPlan run with abort on first failure. With it invalid, the write is a single write of the target. |
| RaidEngine.ErrorStateWrite | ex2.c:228-250 | The degraded write walks the backup set in ascending order, writing the parity member and reading each data member, and stops at the first failure. |
| RaidEngine.WriteOperation | ex2.c:252-267 | With the target invalid, WRITE is the degraded write. Otherwise it is the standard write, followed by the degraded write only if the standard write failed. No device is ever reopened. |
| RaidEngine.RepairDevice | ex2.c:279-292 | Corrected REPAIR: a successful reopen installs the new handle and closes the old one. A failed reopen leaves the state unchanged, and other slots are never touched. |
| RaidEngine.RepairKeepsWorkingHandles | ex2.c:279-292 | Under the corrected REPAIR no open device becomes invalid, and a successful reopen leaves the slot open. |
| RaidEngine.RepairAsWritten | ex2.c:283-290 | As written, REPAIR stores the reopen result in the slot whether or not it failed. |
| RaidEngine.RepairAsWrittenLosesHandle | ex2.c:283-290 | A failed reopen of an open device loses its handle as written but keeps it under the corrected REPAIR. |
| RaidEngine.DeviceGuardOffByOne | ex2.c:281 | The asserted guard 0 <= i <= N admits exactly the valid indices plus the out-of-range index N. |
| RaidEngine.KillThenReadReconstructs | ex2.c:170-181 | With four devices and device 0 killed, READ 0 fails on device 0 and then reads devices 1, 2 and 3 (parity), and succeeds. |
| RaidEngine.KillThenWriteDegrades | ex2.c:252-267 | With four devices and device 0 killed, WRITE 0 reads devices 1 and 2 and writes parity on device 3, and succeeds. |
| Life.NextCell | gol.c:76-104 | update_cell yields DEAD or ALIVE. It yields ALIVE iff a live cell has 2 or 3 living neighbours, or a dead cell has exactly 3. The threaded program (gol2.c:141-169) applies the same rule. |
| Life.SumAtCounts | gol.c:78-87 | On a 0/1 board, summing the clipped cells at distinct offsets counts the live in-board positions among them. |
| Life.LivingNeighboursCounts | gol.c:77-87 | On a 0/1 board the unsigned char count never wraps. It is the number of live in-board neighbours, at most 8, and excludes the cell itself. |
| Life.Generation | gol.c:106-123 | A generation is again an n x n board of DEAD/ALIVE cells. |
| Life.UpdateMatrix | gol.c:106-123 | Filling the workspace row by row and swapping gives the synchronous next generation, and the old board becomes the workspace. |
| Life.ApplyUpdatesCells | gol.c:115-119 | For updates applied in any order, with repetitions, a visited cell holds its next value and an unvisited one keeps its workspace value. |
| Life.ApplyUpdatesGeneration | gol.c:106-123 | Visiting every cell in any order yields the synchronous next generation. |
| Life.GetRowSize | gol.c:206-216 | get_row_size succeeds iff the size is 4^k with 1 <= k <= 15. It then returns 2^k, whose square is the size. Every other size, 1 included, reaches assert(0). The threaded program's copy (gol2.c:303-313) is identical. |
| LifeTasks.ProcessTask | gol2.c:404-431 | A 1 x 1 task updates exactly its cell (x, y). Any other task is replaced by its four quadrants, in the order the batch is chained. |
| LifeTasks.QuadrantsPartition | gol2.c:418-423 | The quadrants of an even square are squares of half the side, and every cell of the parent lies in exactly one of them. |
| LifeTasks.CellInOneQuadrant | gol2.c:418-423 | A cell lies in quadrant m iff it lies in the parent and QuadrantOf assigns it to m. |
| LifeTasks.LeafCount | gol2.c:404-431 | Splitting a 2^k square down to 1 x 1 tasks updates every covered cell exactly once and nothing else. |
| LifeTasks.LeafTotal | gol2.c:409-410 | A 2^k square splits into side * side leaf tasks, the count the completion test waits for. |
| LifeTasks.LeavesCoverOnce | gol2.c:404-431 | The leaves of a 2^k square are a permutation of its cells, and there are side * side of them. |
| LifeTasks.QuadrantsLeaves | gol2.c:416-431 | Enqueueing the four quadrants leaves the same cells pending as the task they replace. |
| LifeTasks.PopLeaf | gol2.c:405-415 | Popping a 1 x 1 task updates an in-board cell, keeps the rest of the queue well formed and reduces the pending work. |
| LifeTasks.PopSplit | gol2.c:416-431 | Replacing the head by its quadrants at the tail keeps the pending cells as a multiset, keeps the queue well formed and reduces the pending work. |
| LifeTasks.InitialQueue | gol2.c:180-187 | The queue holding only the whole-board task is well formed, its pending cells are that task's leaves, and there are n * n > 0 of them. |
| LifeTasks.BoardCovered | gol2.c:409-410 | Updates that are a permutation of the board's leaves visit every cell exactly once, n * n in all. |
| LifeTasks.WorkerPass | gol2.c:404-431 | One worker pass either updates and counts the front leaf's cell, signalling exactly when the count reaches n * n, or moves the front task's quadrants to the tail. Either way pending work shrinks and progress is kept. |
| LifeTasks.RunGeneration | gol2.c:171-208 | Driving the queue from the whole-board task until it is empty updates every cell exactly once. It signals completion exactly once and leaves the synchronous next generation in the workspace. |
| TaskQueue.ChainTasks | gol2.c:453-458 | chain_tasks aborts when first->next or second->prev is already set. Otherwise it links the two and changes nothing else. |
| TaskQueue.ChainJoins | gol2.c:453-458 | Chaining the last task of one linked list to the first of a disjoint one gives the linked concatenation. |
| TaskQueue.CreateTask | gol2.c:439-451 | create_task adds one fresh, unlinked node holding the task and leaves the other nodes alone. |
| TaskQueue.QuadrantBatchLinked | gol2.c:420-427 | The four quadrant tasks are created and chained into a linked list holding the quadrants in order, and existing nodes are untouched. |
| TaskQueue.Enque | gol2.c:370-402 | enque_task finds the batch's last task and appends the batch at the tail, or makes it the whole queue, and raises the has-tasks flag. On a well-formed queue and a batch disjoint from it, it never aborts and the queue's tasks become the old ones followed by the batch's. |
| TaskQueue.Deque | gol2.c:315-368 | deque_task blocks iff the flag is down and aborts iff the head is missing or has a predecessor. Otherwise it returns the head unlinked, and has-tasks becomes false exactly when the queue empties. On a well-formed queue the rest stays a queue of the remaining tasks. |
| TaskQueue.TakenFront | gol2.c:337-355 | On a well-formed non-empty queue, deque_task takes the first task and leaves exactly the others, in order. |
| TaskQueue.FreeOutside | gol2.c:433-436 | Freeing a finished task that is not in the queue leaves the queue and its tasks intact. |
| TaskQueue.EnqueQuadrants | gol2.c:416-431 | Splitting a task enqueues its four quadrants behind the pending tasks without disturbing them. |
| TaskQueue.WorkerStep | gol2.c:460-465 | One worker iteration takes the head task. It leaves the other tasks, followed by the head's quadrants when it is not a single cell, and frees the head. |
| Shell.PipeIndex | myshell.c:69-78 | The pipe index is the first position holding "\|", and it is absent iff no word is "\|". |
| Shell.FindPipeChar | myshell.c:69-78 | The loop returns the first "\|" index, or -1 when there is none. |
| Shell.PipeIndexFirst | myshell.c:71-75 | Any index that holds "\|" with no earlier "\|", or -1 when no word is "\|", is the pipe index. |
| Shell.RunInBackground | myshell.c:80-86 | Background mode is chosen iff the last word is exactly "&". |
| Shell.ArgvOf | myshell.c:49-51 | The argument list holds the words followed by one NULL. |
| Shell.ExecWords | myshell.c:147-152 | execvp sees the entries before the first NULL. |
| Shell.ExecWordsUpTo | myshell.c:147-152 | An argv whose first NULL sits at index k hands execvp exactly the k words before it. |
| Shell.SetRunMode | myshell.c:101-127 | Background mode saves the old action only the first time and installs the no-wait action when handling was on. Foreground restores the old action when handling was off. The handling flag ends as foreground, and a mode that is already set changes nothing. |
| Shell.SetRunModeIdempotent | myshell.c:101-127 | Repeating a mode issues no sigaction calls. |
| Shell.ModesKeepConsistent | myshell.c:101-127 | After any sequence of modes, handling is off only once the old action was saved, and the saved flag records whether a save happened. |
| Shell.SavedAtMostOnce | myshell.c:106-112 | Over any sequence of commands the old action is saved at most once, and never when it was already saved. |
| Shell.RestoreAfterSave | myshell.c:118-126 | Every restore of the old action comes after a save of it. |
| Shell.ProcessArglist | myshell.c:88-199 | process_arglist always returns 1 and takes the pipe path iff "\|" appears. A background command runs without its trailing "&", and a foreground one with all its words. A piped command runs the words before the first "\|" and the words after it, with the separator replaced by NULL. The pipe path sets foreground mode. |
| Arith.Min | copy_tool.c:26-29 | min returns one of its arguments, and it is no greater than either. The chunk size of ex1.c:125 is the same choice. |
| CopyTool.CopyBlock | copy_tool.c:37-41 | After copy_block the first size bytes of dst equal those of src, and the rest of dst is unchanged. |
| CopyTool.ScheduleSizes | copy_tool.c:95-99 | Every chunk is positive and at most 4 * page_size, all chunks but the last are full, they add up to the file size, and there are none iff the file is empty. |
| CopyTool.ScheduleContiguous | copy_tool.c:93-100 | Chunks start at 0, each starts where the previous ended, and the last ends at the file size. |
| CopyTool.ScheduleCoversOnce | copy_tool.c:93-100 | Every byte of the file lies in a chunk, and chunks do not overlap. |
| CopyTool.Record | copy_tool.c:18-24 | Recording an error keeps an earlier one and otherwise stores the new one. |
| CopyTool.RecordKeepsFirst | copy_tool.c:18-24 | After any number of recordings, the stored error is the first one. |
| CopyTool.CopyPart | copy_tool.c:43-67 | copy_part succeeds iff both mappings succeed, and a failure records an error unless one is already stored. |
| CopyTool.CopyChunks | copy_tool.c:95-100 | The loop succeeds iff every chunk copies. On failure it has attempted a prefix of the schedule, whose last chunk failed and all others copied, and it recorded that chunk's error unless one was stored. |
| CopyTool.CopyFile | copy_tool.c:82-106 | copy_file fails with a recorded error when fstat or ftruncate fails. Otherwise it succeeds iff every chunk copies, and an empty source succeeds without copying. |
| FileResize.RandomOffset | ex1.c:99-104 | The random offset is a multiple of the write size, and the write ends inside the 256 MiB file, for every random value. |
| FileResize.RandomOffsetReachesEverySlot | ex1.c:101-103 | Every aligned slot of the file is the offset for some random value. |
| FileResize.RandomOffsetPeriodic | ex1.c:101-103 | Random values that differ by the number of slots give the same offset. |
| FileResize.ChunksTile | ex1.c:124-130 | The append loop writes chunks of 1 to 1 MiB bytes, all full but the last, and they sum to the requested size. |
| FileResize.ChunkCount | ex1.c:124-130 | The loop makes ceil(dataSize / 1 MiB) writes. |
| FileResize.WriteChunks | ex1.c:124-130 | The write loop stops with a failure iff some write fails. The file grows by at most the requested size, and by exactly that size when every write is full. |
| FileResize.AppendRandomData | ex1.c:120-132 | A failed open exits with code -11 and leaves the length unchanged. A failed write exits with code -4, and full writes append exactly dataSize bytes. |
| FileResize.ExitCodeValue | ex1.c:28-42 | Each setup failure passes exit() a negative code above -256. |
| FileResize.ExitStatus | ex1.c:28-42 | The status the parent observes is the code's low 8 bits, that is 256 + code: 254, 253, 252, 245 or 244. It is never 0, so every setup failure reads as a failure. |
| FileResize.ExitStatusInjective | ex1.c:28-42 | Distinct setup failures remain distinct after exit() truncates their codes to 8 bits. |
| FileResize.PlanResize | ex1.c:145-158 | A file longer than the target is truncated to nothing. The length after truncation plus the amount appended is always the target. |
| FileResize.PlanResizeKeepsRightSize | ex1.c:156-158 | A file already of the target size gets nothing appended and is not truncated. |
| FileResize.PlanResizeZeroTarget | ex1.c:160-162 | With a target of zero nothing is ever appended, so the guard before appending only saves the open call. |
| FileResize.MakeFileSize | ex1.c:134-163 | Each failing call exits with its own code: create -12, stat -2, truncate -3. When every call succeeds the file ends at exactly the target size. Whenever the program exits normally the file is no longer than the target. After a failed truncate-open (-3) it keeps its old, longer length. |

## Left out

- The ex2.c command loop: `sscanf` parsing, the command table, printing (`print_operated_on_device`, `print_bad_operation_on_device`), `device_string`, `open_devices`/`close_devices` and `main`. Commands are modelled as direct calls.
- `open_device` is modelled only through its result, the `reopened` handle that `RepairDevice` receives. Its error message is output only.
- RaidEngine.Io: the engine asks the disk at the corrected byte offset `ByteOffset`, whose product is taken in `off_t`. It does not use the wrapped `int` offset that ex2.c:98 hands to `lseek` at ex2.c:127-129. With the code as written, device sectors 2^19 to 2^20 - 1 seek to a negative offset, so `lseek` fails and the device is closed. Device sector 2^20 seeks to offset 0 and silently transfers the device's first sector (`ByteOffsetAsWrittenWraps`). The engine follows the corrected offset of the third finding below.
- RaidLayout.Locate, RaidEngine.ReadOperation, RaidEngine.WriteOperation: take a non-negative sector (`nat`). The command loop reads the sector with `%d` and never checks its sign (ex2.c:335). In C's truncating arithmetic a negative sector gets a negative place or device index (`LocateAsWritten`, `NegativeSectorsEscape`). With four devices, READ -1 seeks to offset -4096: the seek fails and device 0 is closed, then `read_backup` fails on device 1 and closes it too. READ -5 reads `g_dev_status[-1]`. The engine does not follow these paths.
- `lseek`, `read` and `write` are replaced by the `Disk` oracle, and the sector payload and `g_io_buffer` are not modelled. The simulator never computes parity data, so no data-correctness claim exists to state.
- `main` asserts at least three devices, but the model requires only N >= 2, the least the translation needs.
- `pthread` threads, mutexes, condition variables, the atomic cell counter, worker start and stop, and the `g_shouldExit` shutdown path of `deque_task` are left out (gol2.c:171-208, 279-301, 326-334, 460-490). The generation is modelled as one worker looping sequentially, and the counter is the length of the updated-cell sequence.
- `load_matrix`, `print_matrix`, the matrix allocation and freeing, `cleanup`, the timing and `main` of gol.c and gol2.c are I/O, memory management and floating point.
- The `ASSERT` exits of gol2.c become abort results (`DequeAborted`, `EnqueAborted`, `None`).
- RaidEngine.CloseDevice, RaidEngine.RepairDevice: the device-index asserts of close_device and repair_device (ex2.c:102, ex2.c:281) are modelled as the precondition `i < |handles|` on the command argument. KILL and REPAIR pass the parsed argument straight in (ex2.c:312-313, ex2.c:341), so `KILL 7` with four devices aborts the program, and the model does not include that abort.
- `fork`, `execvp`, `pipe`, `dup2`, `close` and `sigaction` in myshell.c are left out. Their failures end the shell through `ERRNO_ASSERT`. `wait_for_child` and `wait_for_children` wait on real processes. The model records the argv arrays and the sigaction calls that would be made.
- `mmap`, `munmap`, `fstat`, `ftruncate` and `sysconf` in copy_tool.c are oracles or parameters: `part`, `stat`, `truncated`, and `pageSize` (assumed positive). The text of `strerror(errno)` is abstracted to the site of the error. `does_file_exist` and `main` are left out.
- `rewriteFile`, `printWriteStatistics`, `makeGlobalBufferRandom`, `getFileType`, `printFileType`, `doesFileExist`-driven `main` and the timing in ex1.c are left out as I/O and floating point. `random()` is the parameter `rv`, and the buffer contents are not modelled.
- FileResize.WriteChunks: after a short write the final length is only bounded, not given exactly. The loop subtracts the requested size whether or not the write was short, so the file can end short without an error.
- writer_pipe.c and reader_pipe.c are not part of this model: FIFO creation, blocking reads and writes, and signal handlers are I/O and signal plumbing.

## Findings

| source | as written | input that shows it | evidently intended | confidence | as-written member | corrected member |
|---|---|---|---|---|---|---|
| ex2.c:286 | `g_dev_status[device_index] == old_device;` compares instead of assigning, so a failed reopen leaves the slot invalid. | REPAIR 0 on three open devices when the reopen fails | A failed reopen restores the old handle | high, not executed | RaidEngine.RepairAsWrittenLosesHandle | RaidEngine.RepairDevice |
| ex2.c:281 | `assert(device_index <= g_num_dev && device_index >= 0)` (also ex2.c:270) admits index N, one past the table. | REPAIR N | 0 <= device_index < g_num_dev | high, not executed | RaidEngine.DeviceGuardOffByOne | RaidEngine.RepairDevice |
| ex2.c:98 | `physical_location_to_sector(location) * SECTOR_SIZE` is an `int` product, widened to `off_t` only after it overflows. | on-device sector 2^19 (stripe 131072, place 0) gives -2^31 instead of 2^31, and sector 2^20 wraps to 0 | The product is computed in `off_t` | medium, not executed | RaidLayout.ByteOffsetAsWrittenCorrectBelow2GiB | RaidLayout.ByteOffsetFitsOffT |
