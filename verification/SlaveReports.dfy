/**
  What the reports to the master are worth: request_task_finished() sends the
  exitstatus that is in the shared slot at that moment.
  */
module SlaveReports {
  import opened ExitStatus
  import opened TaskSlots
  import opened SlaveProtocol

  predicate Past(pc: WaiterPc) {
    pc == Reporting || pc == Reported || pc == Ended || pc == Killed
  }

  /** The waiter has an ended task of its own. */
  predicate HasWord(s: State, w: nat) {
    w < |s.waiters| && s.waiters[w].pid in s.ended
  }

  function WordOf(s: State, w: nat): bv16
    requires HasWord(s, w)
  {
    s.ended[s.waiters[w].pid]
  }

  /** The exitstatus that goes with a mark. */
  predicate Explains(s: State, mark: Mark, exitstatus: bv16) {
    match mark
    case Unmarked => exitstatus == 0
    case By(w) => HasWord(s, w) && Past(s.waiters[w].pc) && exitstatus == ReportedStatus(WordOf(s, w))
  }

  /** waitpid() has delivered the words the waiters are about to use. */
  predicate WordsKnown(s: State) {
    forall w | 0 <= w < |s.waiters| ::
      s.waiters[w].pc == Reaped || s.waiters[w].pc == Reporting || s.waiters[w].pc == Reported ==> HasWord(s, w)
  }

  predicate SlotsExplained(s: State) {
    forall i: SlotIndex :: Explains(s, s.mark[i], s.shared.slots[i].exitstatus)
  }

  predicate Sent(s: State, r: Report) {
    Explains(s, r.mark, r.exitstatus) && HasWord(s, r.waiter) && Past(s.waiters[r.waiter].pc)
  }

  predicate ReportsExplained(s: State) {
    forall k | 0 <= k < |s.reports| :: Sent(s, s.reports[k])
  }

  predicate Traceable(s: State) {
    WordsKnown(s) && SlotsExplained(s) && ReportsExplained(s)
  }

  /** A waiter past its mark keeps its pid, and its task's word is final. */
  lemma WordStays(s: State, e: Event, w: nat)
    requires Possible(s, e) && HasWord(s, w) && Past(s.waiters[w].pc)
    ensures HasWord(Step(s, e), w) && WordOf(Step(s, e), w) == WordOf(s, w) && Past(Step(s, e).waiters[w].pc)
  {
    assert Step(s, e).waiters[w].pid == s.waiters[w].pid;
  }

  lemma SentStays(s: State, e: Event, r: Report)
    requires Possible(s, e) && Sent(s, r)
    ensures Sent(Step(s, e), r)
  {
    WordStays(s, e, r.waiter);
    ExplainsStays(s, e, r.mark, r.exitstatus);
  }

  lemma ExplainsStays(s: State, e: Event, mark: Mark, exitstatus: bv16)
    requires Possible(s, e) && Explains(s, mark, exitstatus)
    ensures Explains(Step(s, e), mark, exitstatus)
  {
    if mark.By? {
      WordStays(s, e, mark.waiter);
    }
  }

  /** Fill, drop and mark are the only events that write an exitstatus. */
  predicate Writes(s: State, e: Event, i: SlotIndex)
    requires Possible(s, e)
  {
    (e.FillSlot? || e.DropSlot? || e.MarkTask?) && SlotOf(s, e) == i
  }

  lemma OthersDoNotWrite(s: State, e: Event, i: SlotIndex)
    requires Possible(s, e) && !Writes(s, e, i)
    ensures Step(s, e).shared.slots[i].exitstatus == s.shared.slots[i].exitstatus
    ensures Step(s, e).mark[i] == s.mark[i]
  {
  }

  lemma SlotStep(s: State, e: Event, i: SlotIndex)
    requires Possible(s, e) && SlotsExplained(s)
    ensures Explains(Step(s, e), Step(s, e).mark[i], Step(s, e).shared.slots[i].exitstatus)
  {
    if !Writes(s, e, i) {
      OthersDoNotWrite(s, e, i);
      ExplainsStays(s, e, s.mark[i], s.shared.slots[i].exitstatus);
    } else if e.MarkTask? {
      assert HasWord(s, e.w);
    }
  }

  lemma ReportStep(s: State, e: Event, k: nat)
    requires Possible(s, e) && Traceable(s) && k < |Step(s, e).reports|
    ensures Sent(Step(s, e), Step(s, e).reports[k])
  {
    if k < |s.reports| {
      assert Step(s, e).reports[k] == s.reports[k];
      SentStays(s, e, s.reports[k]);
    } else {
      var i := s.waiters[e.w].slot;
      assert Explains(s, s.mark[i], s.shared.slots[i].exitstatus);
    }
  }

  lemma WordsStep(s: State, e: Event)
    requires Possible(s, e) && WordsKnown(s)
    ensures WordsKnown(Step(s, e))
  {
    forall w | 0 <= w < |Step(s, e).waiters| && Step(s, e).waiters[w].pc in {Reaped, Reporting, Reported}
      ensures HasWord(Step(s, e), w)
    {
    }
  }

  lemma StepTraceable(s: State, e: Event)
    requires Possible(s, e) && Traceable(s)
    ensures Traceable(Step(s, e))
  {
    WordsStep(s, e);
    forall i: SlotIndex ensures Explains(Step(s, e), Step(s, e).mark[i], Step(s, e).shared.slots[i].exitstatus) {
      SlotStep(s, e, i);
    }
    forall k | 0 <= k < |Step(s, e).reports| ensures Sent(Step(s, e), Step(s, e).reports[k]) {
      ReportStep(s, e, k);
    }
  }

  lemma {:induction false} RunTraceable(s: State, es: seq<Event>)
    requires Run(s, es) && Traceable(s)
    ensures Traceable(End(s, es))
    decreases |es|
  {
    if es != [] {
      StepTraceable(s, es[0]);
      RunTraceable(Step(s, es[0]), es[1..]);
    }
  }

  /** The report tells the truth about the waiter's own task. */
  predicate Faithful(s: State, r: Report)
    requires HasWord(s, r.waiter)
  {
    Decode(r.exitstatus) == WaitOutcome(WordOf(s, r.waiter))
  }

  /** The slot was last marked by a waiter whose task ended the same way, or never marked since it
      was filled and the task neither exited nor was killed by a signal. */
  predicate MarkFits(s: State, r: Report)
    requires HasWord(s, r.waiter)
  {
    match r.mark
    case By(w) => HasWord(s, w) && WaitOutcome(WordOf(s, w)) == WaitOutcome(WordOf(s, r.waiter))
    case Unmarked => WaitOutcome(WordOf(s, r.waiter)) == Neither
  }

  /** In every interleaving, a report is faithful exactly when the last mark of its slot fits;
      in particular when the reporting waiter was the last to mark it. */
  lemma ReportsFaithfulIff(now: Time, es: seq<Event>, k: nat)
    requires Run(Boot(now), es) && k < |End(Boot(now), es).reports|
    ensures var s := End(Boot(now), es);
            var r := s.reports[k];
            && HasWord(s, r.waiter)
            && (Faithful(s, r) <==> MarkFits(s, r))
            && (r.mark == By(r.waiter) ==> Faithful(s, r))
  {
    RunTraceable(Boot(now), es);
    var s := End(Boot(now), es);
    var r := s.reports[k];
    FaithfulStatus(WordOf(s, r.waiter));
    assert Explains(s, r.mark, r.exitstatus);
    if r.mark.By? {
      FaithfulStatus(WordOf(s, r.mark.waiter));
    } else {
      assert Decode(0) == Neither;
    }
  }

  /* When nobody else writes the field */

  predicate Undisturbed(s: State, es: seq<Event>, i: SlotIndex)
    requires Run(s, es)
    decreases |es|
  {
    es == [] || (!Writes(s, es[0], i) && Undisturbed(Step(s, es[0]), es[1..], i))
  }

  lemma {:induction false} StatusStays(s: State, es: seq<Event>, i: SlotIndex)
    requires Run(s, es) && Undisturbed(s, es, i)
    ensures End(s, es).shared.slots[i].exitstatus == s.shared.slots[i].exitstatus
    ensures End(s, es).mark[i] == s.mark[i]
    decreases |es|
  {
    if es != [] {
      OthersDoNotWrite(s, es[0], i);
      StatusStays(Step(s, es[0]), es[1..], i);
    }
  }

  lemma {:induction false} WaiterKeepsSlot(s: State, w: nat, es: seq<Event>)
    requires Run(s, es) && w < |s.waiters|
    ensures w < |End(s, es).waiters| && End(s, es).waiters[w].slot == s.waiters[w].slot
    decreases |es|
  {
    if es != [] {
      WaiterKeepsSlot(Step(s, es[0]), w, es[1..]);
    }
  }

  /** A waiter whose slot is neither reassigned nor marked by another waiter between its own
      mark and its report carries the ending of its own task to the master. */
  lemma UndisturbedReport(s: State, w: nat, es: seq<Event>)
    requires Possible(s, MarkTask(w))
    requires Run(Step(s, MarkTask(w)), es) && Undisturbed(Step(s, MarkTask(w)), es, s.waiters[w].slot)
    requires Possible(End(Step(s, MarkTask(w)), es), ReportTask(w, true))
    ensures var reports := Step(End(Step(s, MarkTask(w)), es), ReportTask(w, true)).reports;
            && reports != []
            && reports[|reports| - 1].waiter == w
            && Decode(reports[|reports| - 1].exitstatus) == WaitOutcome(WordOf(s, w))
  {
    StatusStays(Step(s, MarkTask(w)), es, s.waiters[w].slot);
    WaiterKeepsSlot(Step(s, MarkTask(w)), w, es);
    FaithfulStatus(WordOf(s, w));
  }

  /* When no slot is taken from under its holder */

  predicate Finishing(waiter: Waiter) {
    waiter.pc == Reporting || waiter.pc == Reported
  }

  predicate ReportsOwn(s: State) {
    forall k | 0 <= k < |s.reports| :: s.reports[k].mark == By(s.reports[k].waiter)
  }

  /** The consistency process or check_tasks() frees slot i. */
  predicate Takes(s: State, e: Event, i: SlotIndex)
    requires Possible(s, e)
  {
    (e.SweepTasks? || (e.Check? && s.checker.Freeing?)) && s.shared.slots[i].used && !Step(s, e).shared.slots[i].used
  }

  /** Neither of them takes the slot of an unfinished waiter. */
  predicate SparesWaiters(s: State, e: Event)
    requires Possible(s, e)
  {
    forall w | 0 <= w < |s.waiters| && s.waiters[w].Unfinished() :: !Takes(s, e, s.waiters[w].slot)
  }

  /** ... nor the filled slot for which a waiter is about to be forked. */
  predicate SparesHolders(s: State, e: Event)
    requires Possible(s, e)
  {
    SparesWaiters(s, e) && (s.main.Ready? ==> !Takes(s, e, s.main.slot))
  }

  predicate RunSparesWaiters(s: State, es: seq<Event>)
    requires Run(s, es)
    decreases |es|
  {
    es == [] || (SparesWaiters(s, es[0]) && RunSparesWaiters(Step(s, es[0]), es[1..]))
  }

  predicate RunSparesHolders(s: State, es: seq<Event>)
    requires Run(s, es)
    decreases |es|
  {
    es == [] || (SparesHolders(s, es[0]) && RunSparesHolders(Step(s, es[0]), es[1..]))
  }

  /** The slot is the waiter's, and once the waiter has marked it, the mark is its own. */
  predicate Holds(s: State, w: nat)
    requires w < |s.waiters|
  {
    var i := s.waiters[w].slot;
    && s.owner[i] == Launch(w) && s.shared.slots[i].used && !MainHolds(s, i)
    && (Finishing(s.waiters[w]) ==> s.mark[i] == By(w))
  }

  predicate HoldersHold(s: State) {
    forall w | 0 <= w < |s.waiters| && s.waiters[w].Unfinished() :: Holds(s, w)
  }

  predicate Undivided(s: State) {
    HoldersHold(s) && ReportsOwn(s) && (s.main.Ready? ==> s.shared.slots[s.main.slot].used)
  }

  lemma HoldersDiffer(s: State, v: nat, w: nat)
    requires HoldersHold(s) && v < |s.waiters| && w < |s.waiters| && v != w
    requires s.waiters[v].Unfinished() && s.waiters[w].Unfinished()
    ensures s.waiters[v].slot != s.waiters[w].slot
  {
    assert Holds(s, v) && Holds(s, w);
  }

  /** The waiter whose step it is. */
  function Mover(e: Event): int {
    match e
    case ForkTask(w, _) => w
    case ForkTaskFails(w) => w
    case RegisterTask(w) => w
    case Reap(w) => w
    case WaitFails(w) => w
    case MarkTask(w) => w
    case WithdrawTask(w) => w
    case ReportTask(w, _) => w
    case ReleaseSlot(w) => w
    case KillWaiter(w) => w
    case _ => -1
  }

  lemma BystandersHold(s: State, e: Event, w: nat)
    requires Possible(s, e) && Undivided(s) && SparesHolders(s, e) && w != Mover(e)
    requires w < |s.waiters| && s.waiters[w].Unfinished()
    ensures Step(s, e).waiters[w] == s.waiters[w] && Holds(Step(s, e), w)
  {
    assert Holds(s, w);
    assert !Takes(s, e, s.waiters[w].slot);
    if Mover(e) >= 0 {
      HoldersDiffer(s, Mover(e), w);
    }
  }

  lemma MoverHolds(s: State, e: Event, w: nat)
    requires Possible(s, e) && Undivided(s) && w == Mover(e)
    requires Step(s, e).waiters[w].Unfinished()
    ensures Holds(Step(s, e), w)
  {
    assert Holds(s, w);
  }

  lemma ReadyStaysUsed(s: State, e: Event)
    requires Possible(s, e) && Undivided(s) && SparesHolders(s, e)
    ensures Step(s, e).main.Ready? ==> Step(s, e).shared.slots[Step(s, e).main.slot].used
  {
    if s.main.Ready? && Mover(e) >= 0 {
      assert Holds(s, Mover(e));
    }
  }

  lemma StepUndivided(s: State, e: Event)
    requires Possible(s, e) && Undivided(s) && SparesHolders(s, e)
    ensures Undivided(Step(s, e))
  {
    var s' := Step(s, e);
    ReadyStaysUsed(s, e);
    forall w | 0 <= w < |s'.waiters| && s'.waiters[w].Unfinished() ensures Holds(s', w) {
      if w == Mover(e) {
        MoverHolds(s, e, w);
      } else if w < |s.waiters| && s.waiters[w].Unfinished() {
        BystandersHold(s, e, w);
      }
    }
    if e.ReportTask? {
      assert Holds(s, e.w);
    }
  }

  lemma {:induction false} RunUndivided(s: State, es: seq<Event>)
    requires Run(s, es) && Undivided(s) && RunSparesHolders(s, es)
    ensures Undivided(End(s, es))
    decreases |es|
  {
    if es != [] {
      StepUndivided(s, es[0]);
      RunUndivided(Step(s, es[0]), es[1..]);
    }
  }

  /** The cause: in every interleaving of the fine system in which the consistency process and
      check_tasks() take no slot from its holder, unfinished waiters never share a slot and every
      report tells how the reporting waiter's own task ended. */
  lemma SparedHoldersReportFaithfully(now: Time, es: seq<Event>)
    requires Run(Boot(now), es) && RunSparesHolders(Boot(now), es)
    ensures var s := End(Boot(now), es);
            && (forall k | 0 <= k < |s.reports| :: HasWord(s, s.reports[k].waiter) && Faithful(s, s.reports[k]))
            && (forall v, w | 0 <= v < w < |s.waiters| && s.waiters[v].Unfinished() && s.waiters[w].Unfinished() ::
                  s.waiters[v].slot != s.waiters[w].slot)
  {
    var s := End(Boot(now), es);
    RunUndivided(Boot(now), es);
    forall k | 0 <= k < |s.reports| ensures HasWord(s, s.reports[k].waiter) && Faithful(s, s.reports[k]) {
      ReportsFaithfulIff(now, es, k);
    }
    forall v, w | 0 <= v < w < |s.waiters| && s.waiters[v].Unfinished() && s.waiters[w].Unfinished()
      ensures s.waiters[v].slot != s.waiters[w].slot
    {
      HoldersDiffer(s, v, w);
    }
  }
}
