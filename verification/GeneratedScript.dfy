/**
  From the renderer's exit to the report the master gets.  A generated script (the
  templates in etc/) runs the renderer through a shell; the slave runs the script
  through another shell, below a waiter.  A failing script sends SIGINT to its parent
  and exits with code 1.
  */
module GeneratedScript {
  import opened ExitStatus

  /* Signal dispositions */

  datatype Action = Default | Ignored | Handled

  datatype Dispositions = Dispositions(interrupt: Action, term: Action, segv: Action, hup: Action, child: Action)

  /** set_signal_handlers(): the slave itself. */
  function SlaveDispositions(): Dispositions {
    Dispositions(interrupt := Handled, term := Handled, segv := Handled, hup := Ignored, child := Ignored)
  }

  /** set_signal_handlers_child_launcher(): the waiter, after the fork. */
  function ChildLauncher(d: Dispositions): Dispositions {
    d.(interrupt := Ignored, term := Ignored, child := Default)
  }

  /** set_signal_handlers_task_exec(): the task process, before execve(). */
  function TaskExec(d: Dispositions): Dispositions {
    d.(interrupt := Default, term := Default, child := Default)
  }

  /** execve() forgets handlers and keeps what is ignored. */
  function Exec(d: Dispositions): Dispositions {
    Dispositions(AfterExec(d.interrupt), AfterExec(d.term), AfterExec(d.segv), AfterExec(d.hup), AfterExec(d.child))
  }

  function AfterExec(a: Action): Action {
    if a == Handled then Default else a
  }

  function WaiterDispositions(): Dispositions {
    ChildLauncher(SlaveDispositions())
  }

  function TaskDispositions(): Dispositions {
    Exec(TaskExec(WaiterDispositions()))
  }

  /* Shells */

  /** sh -c may replace itself by the only command it has, or fork it and wait. */
  datatype Shell = Replaced | Waits

  /** The words the system stores for a process that exited or was killed by a signal. */
  predicate Terminated(rc: bv16) {
    rc == ExitWord(ExitCode(rc)) || IfSignaled(rc)
  }

  /** The word of a shell whose command ended with rc and which was not signalled itself. */
  function ShellWord(shell: Shell, rc: bv16): bv16 {
    match shell
    case Replaced => rc
    case Waits => if IfSignaled(rc) then ExitWord(128 + TermSignal(rc)) else ExitWord(ExitCode(rc))
  }

  /** A shell passes on success and nothing but success. */
  lemma ShellKeepsSuccess(shell: Shell, rc: bv16)
    requires Terminated(rc)
    ensures Terminated(ShellWord(shell, rc))
    ensures ShellWord(shell, rc) == 0 <==> rc == 0
  {
    if shell == Waits && IfSignaled(rc) {
      assert 128 + (rc & 0x7f) != 0 && (128 + (rc & 0x7f)) & 0xff == 128 + (rc & 0x7f);
    }
  }

  /** What a shell tells its parent: a replaced shell how its command ended, a waiting one always that
      it exited, with the command's exit code or with 128 plus the signal. */
  lemma ShellTells(shell: Shell, rc: bv16)
    requires Terminated(rc)
    ensures WaitOutcome(ShellWord(shell, rc)) ==
              match (shell, WaitOutcome(rc))
              case (Waits, Signaled(signal)) => Exited(128 + signal)
              case (_, outcome) => outcome
  {
    if shell == Waits && IfSignaled(rc) {
      assert (128 + (rc & 0x7f)) & 0xff == 128 + (rc & 0x7f);
      WordsRead(128 + (rc & 0x7f), 0, false);
    } else if shell == Waits {
      assert (rc & 0xff00) >> 8 < 256;
      WordsRead(ExitCode(rc), 0, false);
    }
  }

  lemma ZeroMeansSuccess(rc: bv16)
    requires Terminated(rc)
    ensures rc == 0 <==> WaitOutcome(rc) == Exited(0)
  {
  }

  /* The script */

  /** How the script ends: its exit code, and whether it has sent SIGINT to its parent. */
  datatype ScriptEnd = ScriptEnd(code: bv16, interrupts: bool)

  /** The template's test of sts[1]. */
  function RunScript(status: bv16): ScriptEnd {
    if status != 0 then ScriptEnd(1, true) else ScriptEnd(0, false)
  }

  /** What the waiter's waitpid() returns, if the waiter lives to see it; it fails where SIGCHLD is
      ignored, because ended children then vanish. */
  datatype TaskEnd = WaiterGone | NoWord | Word(rc: bv16)

  function Waited(waiter: Dispositions, rc: bv16): TaskEnd {
    if waiter.child == Ignored then NoWord else Word(rc)
  }

  /** diesOfInterrupt: whether a waiting shell that does not ignore SIGINT is killed by it at once,
      or outlives it and passes on the exit code of the script. */
  function RunTask(script: ScriptEnd, shell: Shell, diesOfInterrupt: bool, waiter: Dispositions, task: Dispositions): TaskEnd {
    match shell
    case Replaced => // the script's parent is the waiter
      if script.interrupts && waiter.interrupt != Ignored then WaiterGone else Waited(waiter, ExitWord(script.code))
    case Waits => // the script's parent is the shell
      if script.interrupts && task.interrupt != Ignored && diesOfInterrupt then Waited(waiter, SIGINT)
      else Waited(waiter, ExitWord(script.code))
  }

  /** The whole chain for a renderer that ended with the word rc. */
  function RunGenerated(rc: bv16, inner: Shell, outer: Shell, diesOfInterrupt: bool): TaskEnd {
    RunTask(RunScript(ShellWord(inner, rc)), outer, diesOfInterrupt, WaiterDispositions(), TaskDispositions())
  }

  /** End-to-end visibility of failure: whichever way the two shells work, the waiter survives to
      report, and it reports "exited with code 0" if and only if the renderer did. */
  lemma FailureVisible(rc: bv16, inner: Shell, outer: Shell, diesOfInterrupt: bool)
    requires Terminated(rc)
    ensures var end := RunGenerated(rc, inner, outer, diesOfInterrupt);
            && end.Word?
            && (Decode(ReportedStatus(end.rc)) == Exited(0) <==> WaitOutcome(rc) == Exited(0))
  {
    ShellKeepsSuccess(inner, rc);
    ZeroMeansSuccess(rc);
    FaithfulStatus(RunGenerated(rc, inner, outer, diesOfInterrupt).rc);
    assert WaitOutcome(ExitWord(1)) == Exited(1);
    assert WaitOutcome(SIGINT) == Signaled(SIGINT);
  }

  /** The waiter owes its survival and its word to set_signal_handlers_child_launcher() alone: with any
      other disposition of SIGINT it is lost exactly when a failing script has replaced its shell,
      and with the slave's own disposition of SIGCHLD waitpid() fails. */
  lemma WaiterNeedsToIgnore(rc: bv16, inner: Shell, outer: Shell, diesOfInterrupt: bool, waiter: Dispositions)
    requires Terminated(rc)
    ensures RunTask(RunScript(ShellWord(inner, rc)), outer, diesOfInterrupt, waiter, TaskDispositions()).WaiterGone? <==>
              waiter.interrupt != Ignored && outer == Replaced && WaitOutcome(rc) != Exited(0)
    ensures waiter.interrupt == Ignored ==>
              (RunTask(RunScript(ShellWord(inner, rc)), outer, diesOfInterrupt, waiter, TaskDispositions()).NoWord? <==>
                 waiter.child == Ignored)
  {
    ShellKeepsSuccess(inner, rc);
    ZeroMeansSuccess(rc);
  }

  /* What the master makes of the report */

  const MAX_REQUEUES: nat := 3

  datatype FrameStatus = FsWaiting | FsAssigned | FsError | FsFinished

  datatype Frame = Frame(status: FrameStatus, requeueWhenDone: bool, requeued: nat, exitcode: bv16)

  /** handle_r_r_taskfini(): the frame of a finished task, for a job with the given autoRequeue. */
  function FrameAfter(frame: Frame, autoRequeue: bool, status: bv16): Frame {
    if status & EXITED_FLAG != 0 then
      if frame.requeueWhenDone && frame.requeued < MAX_REQUEUES then
        frame.(status := FsWaiting, requeued := frame.requeued + 1)
      else frame.(status := FsFinished, exitcode := status & 0xff)
    else if status & SIGNALED_FLAG != 0 then
      var signal := status & 0xff;
      if signal == SIGTERM || signal == SIGINT || signal == SIGKILL then
        if frame.status != FsAssigned then frame
        else if autoRequeue && frame.requeued < MAX_REQUEUES then
          frame.(status := FsWaiting, requeued := frame.requeued + 1)
        else frame.(status := FsError)
      else frame.(status := FsError)
    else if frame.status == FsAssigned then frame.(status := FsError)
    else frame
  }

  /** The signals after which the master tries again: somebody killed the task. */
  predicate Retried(signal: bv16) {
    signal == 15 || signal == 2 || signal == 9
  }

  const SIGHUP: bv16 := 1
  const SIGSEGV: bv16 := 11

  /** A process that has not caught the signal itself is killed by it. */
  predicate DiesOf(d: Dispositions, signal: bv16) {
    (signal == SIGINT ==> d.interrupt == Default) &&
    (signal == SIGTERM ==> d.term == Default) &&
    (signal == SIGSEGV ==> d.segv == Default) &&
    (signal == SIGHUP ==> d.hup == Default)
  }

  /** A frame whose next report may send it back to the queue. */
  predicate MayRetry(frame: Frame) {
    frame.requeued < 3
  }

  /** The fate of a frame, told by how its task ended: finished with the exit code, waiting for
      another try, in error, or untouched. */
  lemma FateOfFrame(rc: bv16, frame: Frame, autoRequeue: bool)
    ensures var after, again := FrameAfter(frame, autoRequeue, ReportedStatus(rc)),
                                frame.(status := FsWaiting, requeued := frame.requeued + 1);
            match WaitOutcome(rc)
            case Exited(code) =>
              after == if frame.requeueWhenDone && MayRetry(frame) then again
                       else frame.(status := FsFinished, exitcode := code)
            case Signaled(signal) =>
              if !Retried(signal) then after == frame.(status := FsError)
              else if frame.status != FsAssigned then after == frame
              else after == if autoRequeue && MayRetry(frame) then again else frame.(status := FsError)
            case Neither =>
              after == if frame.status == FsAssigned then frame.(status := FsError) else frame
  {
    FaithfulStatus(rc);
  }

  /** Of the slave, the waiter and the task, only the task dies of the signals that stop tasks; nobody
      dies of a hangup; and what a task stopped so reports lets its frame be tried again exactly
      if the job wants it and tries are left. */
  lemma StoppedTask(signal: bv16, frame: Frame, autoRequeue: bool)
    requires Retried(signal) && frame.status == FsAssigned
    ensures DiesOf(TaskDispositions(), signal) && DiesOf(TaskDispositions(), 11) && !DiesOf(TaskDispositions(), 1)
    ensures signal != 9 ==> !DiesOf(WaiterDispositions(), signal) && !DiesOf(SlaveDispositions(), signal)
    ensures !DiesOf(WaiterDispositions(), 1) && !DiesOf(SlaveDispositions(), 1)
    ensures FrameAfter(frame, autoRequeue, ReportedStatus(signal)).status ==
              if autoRequeue && MayRetry(frame) then FsWaiting else FsError
  {
    FateOfFrame(signal, frame, autoRequeue);
    WordsRead(0, signal, false);
  }

  /** An assigned frame that is not to be requeued is finished with exit code 0 if and only if its task
      exited with code 0. */
  lemma FinishedIffSuccess(rc: bv16, frame: Frame, autoRequeue: bool)
    requires frame.status == FsAssigned && !frame.requeueWhenDone
    ensures var after := FrameAfter(frame, autoRequeue, ReportedStatus(rc));
            after.status == FsFinished && after.exitcode == 0 <==> WaitOutcome(rc) == Exited(0)
  {
    FateOfFrame(rc, frame, autoRequeue);
  }

  /** From end to end: whichever way the two shells work, the frame is finished with exit code 0 if and
      only if the renderer exited with code 0. */
  lemma FrameTellsRenderer(rc: bv16, inner: Shell, outer: Shell, diesOfInterrupt: bool, frame: Frame, autoRequeue: bool)
    requires Terminated(rc)
    requires frame.status == FsAssigned && !frame.requeueWhenDone
    ensures var end := RunGenerated(rc, inner, outer, diesOfInterrupt);
            && end.Word?
            && var after := FrameAfter(frame, autoRequeue, ReportedStatus(end.rc));
               after.status == FsFinished && after.exitcode == 0 <==> WaitOutcome(rc) == Exited(0)
  {
    FailureVisible(rc, inner, outer, diesOfInterrupt);
    var end := RunGenerated(rc, inner, outer, diesOfInterrupt);
    FaithfulStatus(end.rc);
    FinishedIffSuccess(end.rc, frame, autoRequeue);
  }

  /** The templates say that a failing script requeues its frame.  For an assigned frame that is not
      to be requeued anyway, it does so exactly when the slave's shell waits and is killed by the
      SIGINT (and the job allows another try); when the shell is replaced or outlives the signal
      the frame counts as finished, with exit code 1. */
  lemma FailureRequeuedIff(rc: bv16, inner: Shell, outer: Shell, diesOfInterrupt: bool, frame: Frame, autoRequeue: bool)
    requires Terminated(rc) && WaitOutcome(rc) != Exited(0)
    requires frame.status == FsAssigned && !frame.requeueWhenDone
    ensures var end := RunGenerated(rc, inner, outer, diesOfInterrupt);
            && end.Word?
            && var after := FrameAfter(frame, autoRequeue, ReportedStatus(end.rc));
               && (after.status == FsWaiting <==>
                     outer == Waits && diesOfInterrupt && autoRequeue && frame.requeued < MAX_REQUEUES)
               && (after.status == FsFinished <==> outer == Replaced || !diesOfInterrupt)
               && (after.status == FsFinished ==> after.exitcode == 1)
  {
    ShellKeepsSuccess(inner, rc);
    ZeroMeansSuccess(rc);
    assert ReportedStatus(SIGINT) == 0x0202;
    assert ReportedStatus(ExitWord(1)) == 0x0101;
  }

  /** Every one of a series of reports sends the frame back to the queue, to be assigned again. */
  predicate AlwaysRequeued(frame: Frame, autoRequeue: bool, statuses: seq<bv16>)
    decreases |statuses|
  {
    statuses == [] ||
    var next := FrameAfter(frame.(status := FsAssigned), autoRequeue, statuses[0]);
    next.status == FsWaiting && AlwaysRequeued(next, autoRequeue, statuses[1..])
  }

  /** Whatever its tasks report, a frame is tried again at most MAX_REQUEUES times. */
  lemma {:induction false} RequeuesBounded(frame: Frame, autoRequeue: bool, statuses: seq<bv16>)
    requires frame.requeued <= MAX_REQUEUES && AlwaysRequeued(frame, autoRequeue, statuses)
    ensures frame.requeued + |statuses| <= MAX_REQUEUES
    decreases |statuses|
  {
    if statuses != [] {
      var next := FrameAfter(frame.(status := FsAssigned), autoRequeue, statuses[0]);
      RequeuesBounded(next, autoRequeue, statuses[1..]);
    }
  }
}
