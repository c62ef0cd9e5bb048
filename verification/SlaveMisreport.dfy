/**
  Why a report needs the condition of SlaveReports: a run in which the reap of one
  task and its mark are separated by a whole consistency iteration, so that the slot
  changes hands and a failed task is reported as a success.
  */
module SlaveMisreport {
  import opened ExitStatus
  import opened TaskSlots
  import opened SlaveProtocol
  import opened SlaveReports
  import opened SlaveOwnership

  /** Neither the consistency process nor check_tasks() moves. */
  predicate Quiet(es: seq<Event>) {
    forall k | 0 <= k < |es| :: !es[k].Check? && !es[k].SweepTasks?
  }

  /** Reserve slot 0 and fork a waiter for it. */
  lemma LaunchInSlot0(s: State) returns (es: seq<Event>)
    requires s.main.Idle? && !s.shared.slots[0].used
    ensures Run(s, es) && Quiet(es)
    ensures var t := End(s, es);
            && t == s.(shared := t.shared, waiters := s.waiters + [Waiter(0, 0, 0, Started)], owner := t.owner, mark := t.mark)
            && t.shared.slots[0].used
  {
    es := [];
    RunOne(s, es, TakeSlot(0)); es := es + [TakeSlot(0)];
    RunOne(s, es, FillSlot(0)); es := es + [FillSlot(0)];
    RunOne(s, es, ForkWaiter); es := es + [ForkWaiter];
  }

  /** A waiter of slot 0 from its first statement to waitpid(). */
  lemma RunAndReap(s: State, w: nat, pid: int, rc: bv16) returns (es: seq<Event>)
    requires WaiterAt(s, w, Started) && s.waiters[w].slot == 0
    requires pid > 0 && pid !in s.pids && pid !in s.ended
    ensures Run(s, es) && Quiet(es)
    ensures var t := End(s, es);
            && t == s.(shared := t.shared, waiters := s.waiters[w := Waiter(0, pid, s.now, Reaped)],
                       pids := s.pids + {pid}, ended := s.ended[pid := rc], dead := s.dead + {pid})
            && t.shared.slots[0] == s.shared.slots[0].(status := Loading, pid := pid, start := s.now)
  {
    es := [];
    RunOne(s, es, ForkTask(w, pid)); es := es + [ForkTask(w, pid)];
    RunOne(s, es, RegisterTask(w)); es := es + [RegisterTask(w)];
    assert End(s, es) == s.(shared := Register(s.shared, 0, pid, s.now),
                            waiters := s.waiters[w := Waiter(0, pid, s.now, Waiting)], pids := s.pids + {pid});
    RunOne(s, es, TaskEnds(pid, rc)); es := es + [TaskEnds(pid, rc)];
    RunOne(s, es, Reap(w)); es := es + [Reap(w)];
    assert s.waiters[w := Waiter(0, pid, s.now, Waiting)][w := Waiter(0, pid, s.now, Reaped)]
        == s.waiters[w := Waiter(0, pid, s.now, Reaped)];
  }

  /** A task in slot 0 from its reservation to waitpid(). */
  lemma LaunchAndReap(s: State, pid: int, rc: bv16) returns (es: seq<Event>)
    requires s.main.Idle? && !s.shared.slots[0].used
    requires pid > 0 && pid !in s.pids && pid !in s.ended
    ensures Run(s, es) && Quiet(es)
    ensures var t := End(s, es);
            && t.main.Idle? && t.now == s.now && t.checker == s.checker && t.reports == s.reports
            && t.waiters == s.waiters + [Waiter(0, pid, s.now, Reaped)]
            && t.pids == s.pids + {pid} && t.ended == s.ended[pid := rc] && t.dead == s.dead + {pid}
            && t.shared.slots[0].used && t.shared.slots[0].status == Loading && t.shared.slots[0].pid == pid
  {
    var es1 := LaunchInSlot0(s);
    var t := End(s, es1);
    var es2 := RunAndReap(t, |s.waiters|, pid, rc);
    RunSplit(s, es1, es2);
    es := es1 + es2;
    assert (s.waiters + [Waiter(0, 0, 0, Started)])[|s.waiters| := Waiter(0, pid, s.now, Reaped)]
        == s.waiters + [Waiter(0, pid, s.now, Reaped)];
  }

  /** Two waiters of slot 0: v marks first, u overwrites, v reports. */
  lemma MarkMarkReport(s: State, u: nat, v: nat) returns (es: seq<Event>)
    requires u != v && WaiterAt(s, u, Reaped) && WaiterAt(s, v, Reaped)
    requires s.waiters[u].slot == 0 && s.waiters[v].slot == 0
    requires HasWord(s, u) && HasWord(s, v)
    ensures Run(s, es) && RunSparesWaiters(s, es)
    ensures var t := End(s, es);
            && t.reports == s.reports + [Report(v, ReportedStatus(WordOf(s, u)), By(u))]
            && HasWord(t, v) && WordOf(t, v) == WordOf(s, v)
  {
    es := [];
    RunOne(s, es, MarkTask(v)); es := es + [MarkTask(v)];
    RunOne(s, es, MarkTask(u)); es := es + [MarkTask(u)];
    RunOne(s, es, ReportTask(v, true)); es := es + [ReportTask(v, true)];
    QuietSpares(s, es);
  }

  /** The master is told "exited with code 0" about a task that exited with code 1. */
  predicate Misreports(s: State) {
    && |s.reports| == 1 && HasWord(s, s.reports[0].waiter)
    && Decode(s.reports[0].exitstatus) == Exited(0)
    && WaitOutcome(WordOf(s, s.reports[0].waiter)) == Exited(1)
    && !Faithful(s, s.reports[0])
  }

  lemma ZeroForOne(s: State, u: nat, v: nat)
    requires HasWord(s, v) && WordOf(s, v) == 0x0100
    requires s.reports == [Report(v, ReportedStatus(0), By(u))]
    ensures Misreports(s)
  {
    FaithfulStatus(0);
    assert ReportedStatus(0) == 0x0100;
    assert WaitOutcome(0x0100) == Exited(1);
  }

  /** A whole consistency iteration between the reap of a task and its mark. */
  lemma FailureReportedAsSuccess(now: Time) returns (es: seq<Event>)
    ensures Run(Boot(now), es) && Misreports(End(Boot(now), es))
  {
    var s0 := Boot(now);
    var es1 := LaunchAndReap(s0, 10, 0);
    var s1 := End(s0, es1);
    var es2 := AtomicIsRun(s1, CheckSlot(true));
    var s2 := End(s1, es2);
    var es3 := LaunchAndReap(s2, 11, 0x0100);
    var s3 := End(s2, es3);
    var es4 := MarkMarkReport(s3, 0, 1);
    RunSplit(s0, es1, es2);
    RunSplit(s0, es1 + es2, es3);
    RunSplit(s0, es1 + es2 + es3, es4);
    es := es1 + es2 + es3 + es4;
    ZeroForOne(End(s0, es), 0, 1);
  }

  /* Nobody killed, and no slot taken from an unfinished waiter */

  lemma {:induction false} QuietSpares(s: State, es: seq<Event>)
    requires Run(s, es) && Quiet(es)
    ensures RunSparesWaiters(s, es)
    decreases |es|
  {
    if es != [] {
      assert !es[0].Check? && !es[0].SweepTasks?;
      forall k | 0 <= k < |es[1..]| ensures !es[1..][k].Check? && !es[1..][k].SweepTasks? {
        assert es[1..][k] == es[k + 1];
      }
      QuietSpares(Step(s, es[0]), es[1..]);
    }
  }

  lemma {:induction false} SparesGlued(s: State, es: seq<Event>, fs: seq<Event>)
    requires Run(s, es) && RunSparesWaiters(s, es)
    requires Run(End(s, es), fs) && RunSparesWaiters(End(s, es), fs)
    ensures Run(s, es + fs) && End(s, es + fs) == End(End(s, es), fs) && RunSparesWaiters(s, es + fs)
    decreases |es|
  {
    RunSplit(s, es, fs);
    if es == [] {
      assert es + fs == fs;
    } else {
      assert (es + fs)[1..] == es[1..] + fs;
      SparesGlued(Step(s, es[0]), es[1..], fs);
    }
  }

  lemma CheckerMovesNobody(s: State, clockWorks: bool)
    ensures CheckerStep(s, clockWorks).waiters == s.waiters
  {
  }

  /** Where there is no unfinished waiter, the consistency process takes no slot from one. */
  lemma {:induction false} NobodySpared(s: State, es: seq<Event>)
    requires Run(s, es) && forall k | 0 <= k < |es| :: es[k] == Check(true)
    requires forall w | 0 <= w < |s.waiters| :: !s.waiters[w].Unfinished()
    ensures RunSparesWaiters(s, es)
    decreases |es|
  {
    if es != [] {
      assert es[0] == Check(true);
      CheckerMovesNobody(s, true);
      NobodySpared(Step(s, es[0]), es[1..]);
    }
  }

  /** A dead pid in a loading slot is condemned in five statements. */
  lemma CheckerCondemns(s: State) returns (es: seq<Event>)
    requires s.checker == AskUsed(0)
    requires var slot := s.shared.slots[0]; slot.used && slot.status == Loading && Gone(s.dead, slot.pid)
    ensures Run(s, es) && forall k | 0 <= k < |es| :: es[k] == Check(true)
    ensures End(s, es) == s.(checker := Freeing(0, s.shared.slots[0].pid))
  {
    var pid := s.shared.slots[0].pid;
    var e := Check(true);
    es := [];
    RunOne(s, es, e); es := es + [e];
    assert End(s, es) == s.(checker := AskPid(0));
    RunOne(s, es, e); es := es + [e];
    assert End(s, es) == s.(checker := AskAlive(0, pid));
    RunOne(s, es, e); es := es + [e];
    assert End(s, es) == s.(checker := AskNow(0, pid));
    RunOne(s, es, e); es := es + [e];
    assert End(s, es) == s.(checker := AskStatus(0, pid, s.now));
    RunOne(s, es, e); es := es + [e];
  }

  /** The end of a waiter of slot 0; its report is lost on the way. */
  lemma MarkAndRelease(s: State, w: nat) returns (es: seq<Event>)
    requires WaiterAt(s, w, Reaped) && s.waiters[w].slot == 0 && HasWord(s, w)
    ensures Run(s, es) && Quiet(es)
    ensures var t := End(s, es);
            && t == s.(shared := t.shared, waiters := s.waiters[w := s.waiters[w].(pc := Ended)], mark := t.mark)
            && !t.shared.slots[0].used && t.shared.slots[0].pid == s.shared.slots[0].pid
  {
    es := [];
    RunOne(s, es, MarkTask(w)); es := es + [MarkTask(w)];
    RunOne(s, es, ReportTask(w, false)); es := es + [ReportTask(w, false)];
    RunOne(s, es, ReleaseSlot(w)); es := es + [ReleaseSlot(w)];
    assert End(s, es).waiters == s.waiters[w := s.waiters[w].(pc := Ended)];
  }

  /** Slot 0 passes from waiter w to a new waiter, which registers its task. */
  lemma HandOver(s: State, w: nat, pid: int) returns (es: seq<Event>)
    requires s.main.Idle? && WaiterAt(s, w, Reaped) && s.waiters[w].slot == 0 && HasWord(s, w)
    requires pid > 0 && pid !in s.pids
    ensures Run(s, es)
    ensures var t := End(s, es);
            && t.waiters == s.waiters[w := s.waiters[w].(pc := Ended)] + [Waiter(0, pid, s.now, Waiting)]
            && t.checker == s.checker && t.pids == s.pids + {pid} && t.ended == s.ended
            && t.shared.slots[0].used && t.shared.slots[0].pid == pid
  {
    es := MarkAndRelease(s, w);
    var free := End(s, es);
    var es1 := LaunchInSlot0(free);
    RunSplit(s, es, es1);
    es := es + es1;
    var v := |s.waiters|;
    RunOne(s, es, ForkTask(v, pid)); es := es + [ForkTask(v, pid)];
    RunOne(s, es, RegisterTask(v)); es := es + [RegisterTask(v)];
    assert End(s, es).waiters == s.waiters[w := s.waiters[w].(pc := Ended)] + [Waiter(0, pid, s.now, Waiting)];
  }

  /** A pass frees the slot of a living, registered task although nobody was killed: the slot
      changes hands between the reading of its pid and the release. */
  lemma LivingTaskFreed(now: Time) returns (es: seq<Event>)
    ensures Run(Boot(now), es)
    ensures var s := End(Boot(now), es);
            && s.waiters == [Waiter(0, 10, now, Ended), Waiter(0, 11, now, Waiting)]
            && s.shared.slots[0].used && s.shared.slots[0].pid == 11 && 11 in s.pids && 11 !in s.ended
            && !Step(s, Check(true)).shared.slots[0].used
  {
    var s0 := Boot(now);
    es := LaunchAndReap(s0, 10, 0);
    var s1 := End(s0, es);
    var es1 := CheckerCondemns(s1);
    RunSplit(s0, es, es1);
    es := es + es1;
    var s2 := End(s0, es);
    var es2 := HandOver(s2, 0, 11);
    RunSplit(s0, es, es2);
    es := es + es2;
  }

  /** The main loop takes slot 0, and its stale pid is condemned. */
  lemma TakenSlotIsCondemned(s: State) returns (es: seq<Event>)
    requires s.main.Idle? && s.checker == AskUsed(0) && FirstFree(s.shared.slots, 0)
    requires Gone(s.dead, s.shared.slots[0].pid)
    requires forall w | 0 <= w < |s.waiters| :: !s.waiters[w].Unfinished()
    ensures Run(s, es) && RunSparesWaiters(s, es)
    ensures var t := End(s, es);
            && t == s.(shared := t.shared, main := Reserved(0), checker := t.checker, owner := t.owner)
            && t.checker.Freeing? && t.checker.i == 0
  {
    es := [TakeSlot(0)];
    RunOne(s, [], TakeSlot(0));
    QuietSpares(s, es);
    var taken := End(s, es);
    var es1 := CheckerCondemns(taken);
    NobodySpared(taken, es1);
    SparesGlued(s, es, es1);
    es := es + es1;
  }

  /** The slot is filled, freed by the consistency process, and handed to a waiter. */
  lemma FilledSlotIsFreed(s: State) returns (es: seq<Event>)
    requires s.main == Reserved(0) && s.checker.Freeing? && s.checker.i == 0
    requires forall w | 0 <= w < |s.waiters| :: !s.waiters[w].Unfinished()
    ensures Run(s, es) && RunSparesWaiters(s, es)
    ensures var t := End(s, es);
            && t == s.(shared := t.shared, main := Idle, waiters := s.waiters + [Waiter(0, 0, 0, Started)],
                       checker := AskUsed(1), owner := t.owner, mark := t.mark)
            && !t.shared.slots[0].used
  {
    RunOne(s, [], FillSlot(0));
    QuietSpares(s, [FillSlot(0)]);
    var filled := Step(s, FillSlot(0));
    RunOne(filled, [], Check(true));
    NobodySpared(filled, [Check(true)]);
    SparesGlued(s, [FillSlot(0)], [Check(true)]);
    es := [FillSlot(0)] + [Check(true)];
    var freed := Step(filled, Check(true));
    RunOne(freed, [], ForkWaiter);
    QuietSpares(freed, [ForkWaiter]);
    SparesGlued(s, es, [ForkWaiter]);
    es := es + [ForkWaiter];
  }

  /** Waiter 1 and the waiter after it share slot 0; both reap before either marks. */
  lemma SharedSlotMisreports(s: State) returns (es: seq<Event>)
    requires s.main.Idle? && !s.shared.slots[0].used && s.reports == []
    requires |s.waiters| == 2 && s.waiters[0].pc == Ended && s.waiters[1] == Waiter(0, 0, 0, Started)
    requires 11 !in s.pids && 12 !in s.pids && 11 !in s.ended && 12 !in s.ended
    ensures Run(s, es) && RunSparesWaiters(s, es)
    ensures Misreports(End(s, es))
  {
    es := RunAndReap(s, 1, 11, 0);
    QuietSpares(s, es);
    var s1 := End(s, es);
    var es1 := LaunchAndReap(s1, 12, 0x0100);
    QuietSpares(s1, es1);
    SparesGlued(s, es, es1);
    es := es + es1;
    var s2 := End(s1, es1);
    var es2 := MarkMarkReport(s2, 1, 2);
    SparesGlued(s, es, es2);
    es := es + es2;
    ZeroForOne(End(s2, es2), 1, 2);
  }

  /** So sparing the unfinished waiters is not enough for faithful reports: no slot is taken from an
      unfinished waiter, and a failure is reported as a success. */
  lemma SparedWaitersMisreport(now: Time) returns (es: seq<Event>)
    ensures Run(Boot(now), es) && RunSparesWaiters(Boot(now), es)
    ensures Misreports(End(Boot(now), es))
  {
    var s0 := Boot(now);
    es := LaunchAndReap(s0, 10, 0);
    QuietSpares(s0, es);
    var s1 := End(s0, es);
    var es1 := MarkAndRelease(s1, 0);
    QuietSpares(s1, es1);
    SparesGlued(s0, es, es1);
    es := es + es1;
    var s2 := End(s1, es1);
    var es2 := TakenSlotIsCondemned(s2);
    SparesGlued(s0, es, es2);
    es := es + es2;
    var s3 := End(s2, es2);
    var es3 := FilledSlotIsFreed(s3);
    SparesGlued(s0, es, es3);
    es := es + es3;
    var s4 := End(s3, es3);
    var es4 := SharedSlotMisreports(s4);
    SparesGlued(s0, es, es4);
    es := es + es4;
  }
}
