# DrQueue: verified models

DrQueue distributes rendering jobs: a master hands out tasks, a slave on every
computer runs them in a fixed number of task slots, and generated scripts turn a task
into the command line of a renderer. This project models the parts whose correctness
is hardest to see from one body and proves what they keep.

- **The slave's task slots** (`TaskSlots`, `SlaveComputer`, `SlaveProtocol`,
  `SlaveAccounting`, `SlaveProgress`, `SlavePasses`, `SlaveReports`, `SlaveMisreport`,
  `SlaveOwnership`, `SlaveRecovery`). The main loop, one waiter per task and the consistency process
  share 32 slots and two cached counters. `SlaveComputer.Computer` changes the slots
  in place, one method per locked section, each proved equal to a value function of
  `TaskSlots`. `SlaveProtocol` interleaves those functions: a locked section is one event,
  and every unlocked read, `fork`, `kill(pid,0)` and `waitpid` is an event of its own. The
  theorems hold for every run, that is for every interleaving. Fields such as `owner`,
  `mark` and `reports` of the state are histories nobody reads.
- **From the renderer's exit to the master** (`ExitStatus`, `GeneratedScript`): the wait
  status, the `exitstatus` field, the two shells and the script between them, signal
  dispositions, and the fate of the frame.
- **The master's processes** (`MasterPool`, `MasterReaper`): the bounded pool of
  connection handlers, and the sweep that removes silent computers.
- **Splitting work** (`WorkSplit`, `JobTasks`, `ImageBands`): blocks of frames, the tasks the
  master makes of a job in 32-bit arithmetic, and bands of one image.
- **Printers and buffers** (`Numerals`, `CStrings`, `Durations`, `ByteOrder`, `Tokens`,
  `ScriptPath`).

What the operating system and the network are taken to do: the semaphore is a mutex;
`kill(pid,0)` fails exactly for a positive pid that has ended and been reaped (pids 0 and
-1 name groups the slave belongs to, so they always answer); pids are not reused;
`waitpid` on a living child does not fail unless SIGCHLD is ignored; the clock does not go backwards, although
`time()` may fail where the source tests for it; the task the master sends has `used` 1
and `pid` and `exitstatus` 0, as `computer_update_assigned` leaves it.

Results that differ from what comments or names in the source suggest:

- `computer_nrunning` counts used slots that are not finished, so loading tasks too
  (libdrqueue/computer.c:276-293).
- `slave_consistency_process` protects tasks that are *not* loading for the first 60
  seconds; a loading task whose pid is dead is freed at once (slave.c:474-479). Taking a
  slot between the reap and the mark of its task can make the master believe that a failed
  task succeeded: `SlaveMisreport.FailureReportedAsSuccess` is such a run, and
  `SlaveReports.ReportsFaithfulIff` says exactly when a report is true.
- `task_available` leaves the pid of the previous task in the slot (libdrqueue/task.c:57-76).
  The consistency process can condemn that stale pid and free the slot after the next task
  was stored in it, before its waiter is forked. A report can then be false although no
  unfinished waiter ever lost its slot (`SlaveMisreport.SparedWaitersMisreport`), so
  `SlaveReports.SparedHoldersReportFaithfully` asks that filled slots are spared as well.
- A pass can free the slot of a living task with nobody killed, because the slot may change
  hands after its pid was read (`SlaveMisreport.LivingTaskFreed`);
  `SlaveRecovery.FreesAnsweringIff` says exactly when.
- A slot whose waiter is killed before it has registered a pid is never freed again
  (`SlaveRecovery.LostForever`).
- `check_tasks` does not grant the 60 seconds: a slot a pass has marked as running is freed
  as soon as its pid is dead (libdrqueue/computer_status.c:78-86, `SlaveRecovery.SweepRecovers`).
- Scripts of scenes with the same file name in different directories share a path if they are
  made in the same second (`ScriptPath.ScriptsShareIff`).
- A failing script is meant to requeue its frame (etc/blender_sg.py:70-74). It does so only
  if its shell waits for it and dies of the signal (`GeneratedScript.FailureRequeuedIff`).
- A computer leaves the master's list not only when it is silent: `handle_r_r_slavexit`
  frees it however fresh it is (libdrqueue/request.c:3427-3457), so contact during a sweep
  does not by itself keep it (`MasterReaper.FreshComputerLeaves`, `MasterReaper.SweepDecides`).
- The master's tasks are `block_size * frame_step` frames apart (libdrqueue/job.c:831-834),
  while the scripts clamp a block after `block_size` frames. With steps and blocks both
  above 1, frames are left out (`JobTasks.RegisteredSteppedIff`,
  `JobTasks.RegisteredContiguousIff`), and a single-image job loses whole parts of its
  picture, for blender ignores the block (`ImageBands.EverySecondPart`,
  `ImageBands.RegisteredPictureIff`). The theorems of `WorkSplit` take the distance between
  tasks as a parameter.
- An overflow in `job_nframes` always ends in no tasks at all
  (`JobTasks.OverflowMeansNoTasks`, `JobTasks.HugeBlocksRenderNothing`).
- With `block_size * frame_step` equal to 0 modulo 2^32, `job_frame_number_to_index`
  divides by zero: `JobTasks.DivisionByZero` gives such a job and shows that it has one task
  only. A single-image job that ends at frame 0 makes the region script divide by zero
  (`ImageBands.Region`).

Check the project with `dafny verify dfyconfig.toml`.

## Model

| member | source | states |
|---|---|---|
| ExitStatus.FaithfulStatus | slave.c:684-707 | for every wait status, the `exitstatus` the waiter computes decodes, by the `DR_` macros, to exactly how the process ended |
| ExitStatus.StatusInjective | libdrqueue/task.h:31-37 | two processes are reported alike if and only if they ended alike |
| ExitStatus.WordsRead | libdrqueue/task.h:31-37 | the words of exited, killed and stopped processes, with or without a core dump, are told apart and give back code and signal |
| TaskSlots.CountUpdate | libdrqueue/computer.c:260-293 | changing one slot changes a count by the difference of that slot's contributions |
| TaskSlots.CountsAreSizes | libdrqueue/computer.c:260-293 | the two counts are the numbers of used slots and of used slots that are loading or running |
| TaskSlots.SweptCount | libdrqueue/computer_status.c:68-94 | `check_tasks` lowers the number of used slots by exactly the running slots whose pid does not answer |
| TaskSlots.YoungMeansRecent | slave.c:473-479 | the unsigned age test protects exactly the starts within the last 60 seconds: a start in the future wraps to a huge age |
| SlaveComputer.Computer.NTasks | libdrqueue/computer.c:260-274 | the loop returns the number of used slots |
| SlaveComputer.Computer.NRunning | libdrqueue/computer.c:276-293 | the loop returns the number of used slots whose task is loading or running |
| SlaveComputer.Computer.TaskAvailable | libdrqueue/task.c:57-76 | takes the first unused slot and only that, keeping its old pid; returns (uint16_t)-1 and changes nothing if all are used |
| SlaveComputer.Computer.FillTask | libdrqueue/request.c:971-978 | the slot holds the master's task, used and loading without a pid, and both cached counters are exact |
| SlaveComputer.Computer.CheckTasks | libdrqueue/computer_status.c:68-94 | in place, exactly the used slots registered as running whose positive pid is dead become unused, nothing else of any slot changes, and `ntasks` is exact |
| SlaveComputer.Computer.RegisterTask | slave.c:657-665 | the slot says loading, with the task's pid and time, and both cached counters are exact |
| SlaveComputer.Computer.MarkTask | slave.c:684-707 | the slot says finished, its exit status decodes to how the task ended, and the counters, although computed before that, are exact |
| SlaveComputer.Computer.SetExitStatus | slave.c:689-706 | the `\|=` assignments of either branch build the reported status |
| SlaveComputer.Computer.WithdrawTask | slave.c:667-676 | after a failed `waitpid` the slot is free and the counters are exact |
| SlaveComputer.Computer.ConsistencyPass | slave.c:463-497 | one undisturbed pass over the array in place makes of it what `Passed` says, for any clock readings |
| TaskSlots.PassIsPrecise | slave.c:469-493 | over all slots and all clock readings, failed ones included: a pass frees exactly the slots whose pid does not answer and that are not a running or finished task of the last 60 seconds by a clock that works, leaves no used slot loading and changes nothing else; a second pass changes nothing if and only if its readings still protect what the first one spared |
| SlaveProtocol.StepTouchesOne | slave.c:463-727 | apart from `check_tasks`, no event of any process changes more than its own slot |
| SlaveProtocol.SweepTakes | libdrqueue/computer_status.c:68-94 | `check_tasks` turns a slot unused if and only if it was used, registered as running and its positive pid is dead; it changes nothing else but `ntasks`, which becomes exact |
| SlaveAccounting.SlotsConserved | slave.c:157-166 | over every run, used slots before plus slots taken equals used slots after plus slots freed |
| SlaveAccounting.LedgerIsExact | slave.c:463-727 | what the ledger counts for an event is the number of slots that become used, and of those that become unused |
| SlaveAccounting.CounterDrift | slave.c:657-713 | over every run, `ntasks` minus the used slots is releases minus reservations since the last recount |
| SlaveAccounting.CounterDriftFromBoot | slave.c:657-713 | the drift law from the start of the slave, and exact `ntasks` and `nrunning` at the start and at the end of each section that recomputes them |
| SlaveAccounting.LaunchBound | slave.c:157-166 | the inner loop launches at most as many tasks as there were free slots plus releases meanwhile |
| SlaveAccounting.RunAccounted | slave.c:571-727 | in every run, waiters killed or not, a used slot is held by the main loop or its latest launch has a waiter that has not ended normally |
| SlaveAccounting.NoSlotLeak | slave.c:571-727 | while no waiter is killed, a used slot is pending in the main loop or belongs to the unfinished waiter of its latest launch |
| SlaveAccounting.AllEndedAllFree | slave.c:571-727 | once all waiters have ended and the main loop holds nothing, every slot is free |
| SlaveProgress.MainChoices | slave.c:157-166 | the main loop can always go on; it can take a slot if and only if one is free, and then only the first; once it has given up, no waiter is added |
| SlaveProgress.WindDown | slave.c:571-727 | every run without killed waiters can be continued, without killing any, until all waiters have ended and all slots are free |
| SlavePasses.PassEnds | slave.c:467-495 | whatever interleaves, every run with 7 * MAXTASKS statements of the consistency process contains the end of a pass |
| SlavePasses.ComesToRest | slave.c:467-495 | from wherever it is, the process ends its pass within the statements that were left of it |
| SlavePasses.UndisturbedPass | slave.c:463-497 | statement by statement and left alone, the process makes of the slots exactly what one pass over the array makes of them with the same clock readings, and changes nothing else |
| SlavePasses.PassExists | slave.c:463-497 | there is such a pass from every state and for all clock readings |
| SlaveReports.ReportsFaithfulIff | slave.c:684-709 | in every interleaving a report is true if and only if the last waiter to mark the slot had a task that ended the same way; in particular if it was the reporting waiter |
| SlaveReports.StatusStays | slave.c:684-709 | without a fill, reset or mark of the slot its `exitstatus` does not change |
| SlaveReports.UndisturbedReport | slave.c:684-709 | a waiter whose slot is not written by others between mark and report reports its own task's ending |
| SlaveReports.SparedHoldersReportFaithfully | slave.c:463-727 | in every interleaving in which the consistency process and `check_tasks` take no slot from an unfinished waiter and no filled slot from the main loop, unfinished waiters never share a slot and every report is true |
| SlaveMisreport.FailureReportedAsSuccess | slave.c:463-727 | a run in which a task that exited with code 1 is reported as exited with code 0 |
| SlaveMisreport.SparedWaitersMisreport | slave.c:157-166 | the same although no slot is ever taken from an unfinished waiter: the slot is freed between its filling and the fork of its waiter |
| SlaveMisreport.LivingTaskFreed | slave.c:467-495 | a run, nobody killed, after which the next statement of a pass frees the slot of a registered task that is still running |
| SlaveOwnership.AtomicIsRun | slave.c:467-497 | an atomic consistency iteration, and an atomic reap with mark, are runs of the fine system with the stated result |
| SlaveOwnership.TimelyRunIsRun | slave.c:463-727 | so is every timely run |
| SlaveOwnership.ExclusiveOwnership | slave.c:463-727 | if finished tasks are reported within 60 seconds of registration, then whether waiters are killed or not, the slot of an unfinished waiter is used, its own, shared with no other unfinished waiter, and freed by that waiter's release only |
| SlaveOwnership.CheckerTakesOnlyLateSlots | slave.c:469-484 | the consistency process takes the slot of an unfinished waiter if and only if its task is finished and `time()` fails or 60 seconds have passed |
| SlaveOwnership.TimelyReportsFaithful | slave.c:684-709 | in a timely run every report is true, whether waiters are killed or not |
| SlaveRecovery.FreesAnsweringIff | slave.c:467-484 | in every interleaving the pid a pass has read before it frees a slot does not answer, and is the slot's pid still unless the slot was filled, dropped or registered meanwhile; the slot freed names a process that answers if and only if one of these came in between and the last of them wrote such a pid |
| SlaveRecovery.OrphanRecovered | slave.c:467-495 | in every interleaving and wherever the process is, 60 seconds or more after registration the statements of two passes are enough: the orphan of a dead pid is then freed, or was handed out again |
| SlaveRecovery.SweepRecovers | libdrqueue/computer_status.c:68-94 | an orphan seen running is freed, or was handed out again, once any `check_tasks` has run after its pid died, however young it is |
| SlaveRecovery.OrphanHappens | slave.c:584-665 | a run that ends with an orphan whose registered pid is dead |
| SlaveRecovery.OrphanCanRecover | slave.c:467-495 | from every run that ends with such an orphan there is a continuation that recovers it |
| SlaveRecovery.LostForever | slave.c:467-495 | an orphan without a pid of its own stays used in every continuation |
| SlaveRecovery.KilledEarlyIsLost | slave.c:584-590 | killing a waiter before it forks its task leaves such an orphan |
| SlaveRecovery.RecoveryNeedsPid | slave.c:467-495 | with all tasks dead and the process not judging the slot by a pid read earlier, the statements of two passes recover an old orphan if and only if its pid is positive |
| GeneratedScript.FailureVisible | etc/blender_sg.py:67-83 | whichever way both shells behave, the waiter survives and reports "exited, code 0" if and only if the renderer did |
| GeneratedScript.WaiterNeedsToIgnore | slave.c:416-442 | with another disposition of SIGINT the waiter is lost exactly when a failing script has replaced its shell; with SIGCHLD ignored it gets no word |
| GeneratedScript.ShellKeepsSuccess | slave.c:601-644 | a shell passes on success and nothing else as success |
| GeneratedScript.ShellTells | slave.c:601-644 | a replaced shell ends as its command did; a waiting one exits with the command's code, or with 128 plus its signal |
| GeneratedScript.FateOfFrame | libdrqueue/request.c:1114-1174 | the frame by the ending of its task: exit code c finishes it with c (or requeues it where wanted); SIGTERM, SIGINT and SIGKILL make an assigned frame wait or fail by the job's wish and the tries left; any other signal is an error |
| GeneratedScript.FinishedIffSuccess | libdrqueue/request.c:1114-1174 | an assigned frame not to be requeued is finished with exit code 0 if and only if its task exited with code 0 |
| GeneratedScript.FrameTellsRenderer | etc/blender_sg.py:67-83 | the same from end to end, for all shells: if and only if the renderer exited with code 0 |
| GeneratedScript.StoppedTask | slave.c:416-460 | of slave, waiter and task only the task dies of the signals that stop tasks, and its frame is tried again exactly if wanted and allowed |
| GeneratedScript.FailureRequeuedIff | libdrqueue/request.c:1114-1174 | a failing script's frame goes back to the queue exactly when its shell waits, dies of the SIGINT and another try is allowed; otherwise it is finished with code 1 or in error |
| GeneratedScript.RequeuesBounded | libdrqueue/request.c:1114-1147 | no series of reports requeues a frame more than MAX_REQUEUES times |
| MasterPool.PoolAccounting | master.c:119-166 | in every run unreaped children are `n_children + 1` and exactly those forked and not reaped, `n_children` is forks minus successful waits and between 0 and 10, handlers are at most 10 until the checks process is reaped and 11 afterwards, and `wait` never fails |
| MasterPool.ChildrenConserved | master.c:127-166 | counting events: `n_children` plus successful waits equals its start plus handlers forked; the children, and those of them that have exited, are what forks, exits and waits left, in the order of the run |
| MasterPool.PoolGoesOn | master.c:127-166 | with room the loop can fork; with a full pool every child can exit and be reaped, which leaves 9 and concerns no other child |
| MasterPool.PoolAccountingWithoutChecks | master.c:119-166 | without a checks process the counter is exact |
| MasterPool.OneMoreHandler | master.c:127-166 | a run that reaches 11 unreaped handlers |
| MasterPool.Master.AcceptLoop | master.c:127-166 | the loop over any script of system call results ends in the state of the corresponding run, with `n_children` and the children counted by the script's forks and waits |
| MasterReaper.SweepSlotIsPrecise | master.c:497-507 | the locked step frees a slot exactly if it is its own, used and silent for more than 240 seconds; that slot gets the data of a fresh computer and keeps its `lastconn`, and nothing else changes |
| MasterReaper.ContactRecorded | libdrqueue/request.c:64-69 | over every run `lastconn` is the time of the last contact or registration |
| MasterReaper.DataRecorded | libdrqueue/request.c:286-363 | between sweeps the data of a computer are what its handlers last wrote, reset by a registration and by its departure |
| MasterReaper.SweepDecides | master.c:491-509 | through a whole sweep, interleaved with every handler, a computer is registered at the end if and only if the handlers' last word is a registration, or they have none and it was used and in contact within 240 seconds of the sampled time or before the sweep locked it |
| MasterReaper.HandlersDecide | libdrqueue/request.c:64-69 | once a computer is fresh in a sweep, the sweep has no say in it: at every later point it is used exactly if the handlers' last word is a registration or they have none |
| MasterReaper.FreshComputerLeaves | libdrqueue/request.c:3427-3457 | for every used computer there is a whole sweep in which it makes contact and is gone at the end, because its slave exits |
| MasterReaper.ContactSaves | master.c:491-509 | a computer that registers, or makes contact while used, during the sweep is used at every later point of it unless its slave exits or a registration of it breaks off |
| MasterReaper.CheckLastconnTimes | master.c:491-509 | the loop in place frees exactly the used computers silent for more than 240 seconds, resets their data and keeps their `lastconn` |
| WorkSplit.BlockEnd | etc/shake_sg.py:53-56 | the reassigned BLOCK is the last frame of the block, clamped to the end |
| WorkSplit.ContiguousTilesIff | etc/3delight_sg.py:51-58 | contiguous blocks partition the job if and only if they are as long as the distance of the tasks, or the only block reaches the end |
| WorkSplit.ShortBlocksGap | etc/maya_sg.py:55-58 | shorter blocks leave a frame to nobody |
| WorkSplit.LongBlocksOverlap | etc/maya_sg.py:55-58 | longer blocks give a frame to two tasks |
| WorkSplit.SteppedRendersProgression | etc/shake_sg.py:53-61 | with one task per frame of the progression, stepped blocks render exactly the progression, for every block size |
| WorkSplit.SteppedRendersOnceIff | etc/lightwave_sg.py:53-61 | each frame once if and only if blocks do not reach the next task or there is none |
| JobTasks.NFramesCounts | libdrqueue/job.c:284-296 | if nothing overflows, the indices below `job_nframes` are exactly those of the tasks of the job |
| JobTasks.OverflowMeansNoTasks | libdrqueue/job.c:284-296 | `job_nframes` is 0 if and only if the block size is 0 or its 32-bit computation overflows |
| JobTasks.IndexRoundTrip | libdrqueue/job.c:831-839 | index to frame number and back, in 32-bit arithmetic, whenever the divisor is not 0 |
| JobTasks.DivisionByZero | libdrqueue/job.c:836-839 | a divisor of 0 occurs in jobs of one task only, and does occur |
| JobTasks.RegisteredSteppedOnce | etc/nuke_sg.py:53-61 | with the tasks of job.c no frame is rendered twice by stepped scripts |
| JobTasks.RegisteredSteppedIff | etc/nuke_sg.py:53-61 | for every job, in 32-bit arithmetic, the whole progression is rendered and nothing else if and only if the count of tasks does not overflow, and block or step is 1 or the job ends before the first frame left out |
| JobTasks.RegisteredContiguousIff | etc/maya_sg.py:111 | for every job the contiguous blocks of its tasks tile it if and only if the count of tasks does not overflow, and the step is 1 or the first block reaches the end |
| JobTasks.HugeBlocksRenderNothing | libdrqueue/job.c:284-296 | with blocks of 2^32 - 1 frames nothing of a job of ten frames is rendered |
| ImageBands.Region | etc/blender_region_rendering.py:61-76 | for any part number the values updated in place are the band of the part; the script fails exactly when there are no parts or no rows |
| ImageBands.BandsCover | etc/blender_region_rendering.py:61-70 | every row lies in the band of some part |
| ImageBands.NeighboursOverlap | etc/blender_region_rendering.py:67-70 | neighbouring bands share exactly 10 pixels |
| ImageBands.InsideIff | etc/blender_region_rendering.py:67-70 | all bands stay inside the image if and only if parts are at least 5 pixels high or there is one |
| ImageBands.AtMostTwoIff | etc/blender_region_rendering.py:61-70 | no row is interior to three bands if and only if parts are at least 10 pixels high or there are at most two |
| ImageBands.WholePictureIff | etc/blender_sg.py:60-61 | the tasks of a single-image job render the whole picture if and only if the parts above the first task and those below the last are no higher than one margin, and those between two tasks no higher than two |
| ImageBands.RegisteredPictureIff | libdrqueue/job.c:831-834 | with the tasks of job.c, in 32-bit arithmetic: if and only if the end frame is not 0, the count of tasks does not overflow and the gaps of `block_size * frame_step` - 1 parts are that low |
| ImageBands.EverySecondPart | etc/blender_sg.py:60-61 | ten parts of 100 pixels registered two at a time: row 850 is rendered by no task |
| Numerals.PrintRoundTrip | libdrqueue/common.c:213-224 | a printed number is a numeral and reads back, in every base from 2 to 16 |
| CStrings.Snprintf | libdrqueue/blendersg.c:48 | the buffer holds the text, cut to the size, and nothing beyond the size changes |
| CStrings.SpaceCodes | slave.c:730-737 | white space is the blank and the characters from tab to carriage return |
| CStrings.WordsKeepOthers | slave.c:730-737 | words are non-empty, free of separators, and together are all other characters in order |
| Durations.DurationRoundTrip | libdrqueue/common.c:209-227 | reading numbers and unit words gives back every 32-bit duration |
| Durations.DurationInjective | libdrqueue/common.c:209-227 | different durations print differently |
| Durations.FieldsCanonical | libdrqueue/common.c:213-224 | lower fields are below 60 and the leading field is zero only for 0 |
| Durations.TimeStr | libdrqueue/common.c:209-227 | the buffer holds the whole text in each of the three branches |
| ByteOrder.Swap64 | libdrqueue/common.c:370-385 | on either kind of host the pointer loop reverses the eight base-256 digits |
| ByteOrder.SwappedTwice | libdrqueue/common.c:370-385 | swapping twice is the identity |
| ByteOrder.NetworkRoundTrip | libdrqueue/common.c:387-403 | the two conversions undo each other on either branch |
| ByteOrder.NetworkOrderIff | libdrqueue/common.c:387-394 | memory is in network order if and only if the branch suits the host or the digits read the same both ways |
| ByteOrder.BetweenHosts | libdrqueue/common.c:387-403 | hosts of different kinds exchange values unchanged |
| Tokens.ZeroCmd | slave.c:730-737 | terminates; keeps every character that is not white space and everything behind the terminator; the pieces are the words of the command in order |
| Tokens.ZeroedWords | slave.c:730-737 | overwriting white space by terminators keeps the words |
| ScriptPath.PathDecodes | libdrqueue/blendersg.c:46-48 | splitting at the last `/` and the last `.` recovers directory, scene and time |
| ScriptPath.PathsDiffer | libdrqueue/blendersg.c:46-48 | different triples never share a path |
| ScriptPath.BaseName | libdrqueue/blendersg.c:46-47 | the scene is a front part, empty or ending in `/`, followed by the base name, which contains no `/` |
| ScriptPath.ScriptsShareIff | libdrqueue/blendersg.c:46-48 | two scripts share a path if and only if directory, file name of the scene and time agree; for scenes of one directory only if they are the same scene |
| ScriptPath.ScriptName | libdrqueue/blendersg.c:38-48 | fails for an empty scene only; otherwise the buffer holds the path, cut to its room, and decodes if and only if it fits or the time is 0 and only its digit is cut off |
| ScriptPath.CutDecodesIff | libdrqueue/blendersg.c:48 | a path cut anywhere, in the directory, the scene name or the time, decodes to its own triple if and only if the time is 0 and only its digit is missing |

## Left out

- A locked section is one event: a process killed inside its section (SEM_UNDO would release the semaphore half-way) is not modelled.
- `request_task_finished` reads the slot in one event; the bytes of `send_task` could in reality be interleaved with another process's section.
- Reuse of pids by the operating system, and tasks that leave their process group.
- The struct fields that only describe the job (names, commands, frames), and the load test of `computer_available`.
- `clean_out`, `slave_exit` and every other shutdown by signal.
- How the master chooses a frame for a task, `job_update_info`, pools and environment variables.
- Sockets, shared memory, log files and the environment; the requests of handlers are events with arbitrary timing.
- MasterReaper.CheckLastconnTimes: `lastconn` has 32 bits, so clock values are taken below 2^32 (before the year 2106).
- MasterPool.Master.AcceptLoop: the loop of the source is endless; the method runs any finite script of system call results.
- JobTasks.RegisteredSteppedIff: jobs that end before they start, whose frame numbers wrap around, and a `frame_step` of 0, for which `job_nframes` is 0.
- MasterReaper.SweepDecides: the master's own shutdown, which frees every computer.
- ImageBands.Region: real numbers instead of floating point, so rounding of the borders is not modelled.
- ScriptPath.ScriptName: scenes of MAXCMDLEN - 1 characters or more, whose copy is not terminated in the source; writing the script file itself.
- Durations.TimeStr: the buffer is a parameter; that all callers share one static buffer is not modelled.
- Tokens.ZeroCmd: characters outside the C locale's white space are never space.
- The conversion of scene paths on Windows, the optional arguments of the maya script, and the generators that repeat the same patterns.
