/**
  Slots whose waiter was killed.  The consistency process recovers such a slot when the
  registered pid is dead, and never when the waiter was killed before it registered one.
  */
module SlaveRecovery {
  import opened TaskSlots
  import opened SlavePasses
  import opened SlaveProtocol

  /* No decision to free a slot is taken against a pid that answers */

  /** The consistency process has decided, or is about to decide, that a process is gone. */
  predicate Condemning(pc: CheckerPc) {
    pc.AskNow? || pc.AskStatus? || pc.AskStart? || pc.Freeing?
  }

  predicate OnlyDeadCondemned(s: State) {
    Condemning(s.checker) ==> Gone(s.dead, s.checker.pid)
  }

  /** The pid that was read did not answer and never will again. */
  lemma {:induction false} RunCondemnsOnlyDead(s: State, es: seq<Event>)
    requires Run(s, es) && OnlyDeadCondemned(s)
    ensures OnlyDeadCondemned(End(s, es))
    decreases |es|
  {
    if es != [] {
      RunCondemnsOnlyDead(Step(s, es[0]), es[1..]);
    }
  }

  /** The events that write the pid of slot i. */
  predicate WritesPid(s: State, e: Event, i: SlotIndex)
    requires Possible(s, e)
  {
    (e.FillSlot? || e.DropSlot? || e.RegisterTask?) && SlotOf(s, e) == i
  }

  predicate Rewritten(s: State, es: seq<Event>, i: SlotIndex)
    requires Run(s, es)
    decreases |es|
  {
    es != [] && (WritesPid(s, es[0], i) || Rewritten(Step(s, es[0]), es[1..], i))
  }

  /** The pid the last of these events wrote: a registered one, or 0; pid if there was none. */
  function LastPid(s: State, es: seq<Event>, i: SlotIndex, pid: int): int
    requires Run(s, es)
    decreases |es|
  {
    if es == [] then pid
    else
      LastPid(Step(s, es[0]), es[1..], i,
              if !WritesPid(s, es[0], i) then pid
              else if es[0].RegisterTask? then s.waiters[es[0].w].pid
              else 0)
  }

  lemma {:induction false} NotRewritten(s: State, es: seq<Event>, i: SlotIndex, pid: int)
    requires Run(s, es) && !Rewritten(s, es, i)
    ensures LastPid(s, es, i, pid) == pid
    decreases |es|
  {
    if es != [] {
      NotRewritten(Step(s, es[0]), es[1..], i, pid);
    }
  }

  lemma PidStep(s: State, e: Event, i: SlotIndex)
    requires Possible(s, e) && !WritesPid(s, e, i)
    ensures Step(s, e).shared.slots[i].pid == s.shared.slots[i].pid
  {
  }

  lemma {:induction false} PidIsLastPid(s: State, es: seq<Event>, i: SlotIndex)
    requires Run(s, es)
    ensures End(s, es).shared.slots[i].pid == LastPid(s, es, i, s.shared.slots[i].pid)
    decreases |es|
  {
    if es != [] {
      if !WritesPid(s, es[0], i) {
        PidStep(s, es[0], i);
      }
      PidIsLastPid(Step(s, es[0]), es[1..], i);
    }
  }

  /** The consistency process has read the pid of slot i and has not left the iteration. */
  predicate Deciding(s: State, es: seq<Event>, i: SlotIndex)
    requires Run(s, es)
    decreases |es|
  {
    (s.checker.AskAlive? || Condemning(s.checker)) && s.checker.i == i &&
    (es == [] || Deciding(Step(s, es[0]), es[1..], i))
  }

  lemma {:induction false} DecidesOnPidRead(s: State, es: seq<Event>, i: SlotIndex)
    requires Run(s, es) && Deciding(s, es, i)
    ensures Deciding(End(s, es), [], i) && End(s, es).checker.pid == s.checker.pid
    decreases |es|
  {
    if es != [] {
      assert es[0].Check? || Step(s, es[0]).checker == s.checker;
      DecidesOnPidRead(Step(s, es[0]), es[1..], i);
    }
  }

  /** What an iteration frees, in every interleaving.  From the moment the pid of slot i is read
      until the slot is about to be freed, the pid that was read has been seen not to answer, and
      it is still the slot's pid unless the slot was filled, dropped or registered meanwhile.  So
      the slot freed names a process that answers exactly when one of these three events came in
      between and the last of them wrote a pid that answers: 0, -1 or that of a living task. */
  lemma FreesAnsweringIff(s: State, es: seq<Event>, i: SlotIndex)
    requires s.checker == AskPid(i)
    requires var read := CheckerStep(s, true);
             Run(read, es) && Deciding(read, es, i) && End(read, es).checker.Freeing?
    ensures var read := CheckerStep(s, true);
            var t, pid := End(read, es), s.shared.slots[i].pid;
            && t.checker == Freeing(i, pid) && Gone(t.dead, pid)
            && !CheckerStep(t, true).shared.slots[i].used
            && (!Rewritten(read, es, i) ==> t.shared.slots[i].pid == pid)
            && (!Gone(t.dead, t.shared.slots[i].pid) <==>
                  Rewritten(read, es, i) && !Gone(t.dead, LastPid(read, es, i, pid)))
  {
    var read := CheckerStep(s, true);
    var pid := s.shared.slots[i].pid;
    RunCondemnsOnlyDead(read, es);
    DecidesOnPidRead(read, es, i);
    PidIsLastPid(read, es, i);
    if !Rewritten(read, es, i) {
      NotRewritten(read, es, i, pid);
    }
  }

  /* Orphans */

  /** Slot i is used and no living process is answerable for it. */
  predicate Orphan(s: State, i: SlotIndex, w: nat) {
    && s.shared.slots[i].used
    && w < |s.waiters|
    && s.owner[i] == Launch(w)
    && !MainHolds(s, i)
    && NoWaiterOn(s, i)
  }

  predicate NoWaiterOn(s: State, i: SlotIndex) {
    forall v | 0 <= v < |s.waiters| && s.waiters[v].Unfinished() :: s.waiters[v].slot != i
  }

  /** A main loop that holds a slot has reserved it. */
  predicate HeldIsReserved(s: State) {
    forall i: SlotIndex :: MainHolds(s, i) ==> s.owner[i] == Reservation
  }

  lemma {:induction false} RunHeldIsReserved(s: State, es: seq<Event>)
    requires Run(s, es) && HeldIsReserved(s)
    ensures HeldIsReserved(End(s, es))
    decreases |es|
  {
    if es != [] {
      RunHeldIsReserved(Step(s, es[0]), es[1..]);
    }
  }

  /** While slot i is still owned by launch w and nobody works for it, it can only be freed. */
  predicate Abandoned(s: State, i: SlotIndex, w: nat) {
    w < |s.waiters| && s.owner[i] == Launch(w) && NoWaiterOn(s, i)
  }

  /** A slot that was handed out anew is never owned by launch w again. */
  lemma OwnerNeverReturns(s: State, e: Event, i: SlotIndex, w: nat)
    requires Possible(s, e) && w < |s.waiters|
    requires Step(s, e).owner[i] == Launch(w)
    ensures s.owner[i] == Launch(w)
  {
  }

  lemma StaysAbandoned(s: State, e: Event, i: SlotIndex, w: nat)
    requires Possible(s, e) && Abandoned(s, i, w) && HeldIsReserved(s)
    requires Step(s, e).owner[i] == Launch(w)
    ensures Abandoned(Step(s, e), i, w)
  {
    var s' := Step(s, e);
    forall v | 0 <= v < |s'.waiters| && s'.waiters[v].Unfinished() ensures s'.waiters[v].slot != i {
      if v < |s.waiters| {
        assert s.waiters[v].Unfinished() && s'.waiters[v].slot == s.waiters[v].slot;
      }
    }
  }

  lemma AbandonedSlotStays(s: State, e: Event, i: SlotIndex, w: nat)
    requires Possible(s, e) && Abandoned(s, i, w) && HeldIsReserved(s)
    requires Step(s, e).owner[i] == Launch(w)
    ensures var before, after := s.shared.slots[i], Step(s, e).shared.slots[i];
            after == before || after == before.(used := false) || (e.Check? && after == before.(status := Running))
  {
    assert !MainHolds(s, i);
    if !e.SweepTasks? && SlotOf(s, e) != i {
      StepTouchesOne(s, e);
    }
  }

  /** The pass has not reached slot i, or is on its way to free it. */
  predicate Upcoming(pc: CheckerPc, i: SlotIndex, pid: int, since: Time) {
    match pc
    case Resting => false
    case AskAlive(j, p) => j < i || (j == i && p == pid)
    case AskStatus(j, _, now) => j < i || (j == i && (now == -1 || now >= since))
    case AskStart(j, _, stamp) => j < i || (j == i && stamp >= since)
    case AskUsedAgain(j) => j < i
    case AskLoading(j) => j < i
    case Promoting(j) => j < i
    case _ => pc.i <= i
  }

  /** Slot i is free, or it is the orphan it was and the pass is still before it. */
  predicate FreeOrUpcoming(s: State, i: SlotIndex, pid: int, start: Time, since: Time) {
    var slot := s.shared.slots[i];
    slot.used ==> slot.pid == pid && slot.start == start && Upcoming(s.checker, i, pid, since)
  }

  lemma CheckerApproaches(s: State, clockWorks: bool, i: SlotIndex, pid: int, start: Time, since: Time)
    requires FreeOrUpcoming(s, i, pid, start, since) && s.shared.slots[i].used
    requires Gone(s.dead, pid) && s.now >= since >= start + MAXTASKLOADINGTIME
    ensures FreeOrUpcoming(CheckerStep(s, clockWorks), i, pid, start, since)
  {
    if s.checker.AskStart? {
      YoungMeansRecent(s.checker.stamp, s.shared.slots[s.checker.i].start);
    }
  }

  /** Slot i was handed out again, or is abandoned and free or about to be freed by this pass. */
  predicate Recovering(s: State, i: SlotIndex, w: nat, pid: int, start: Time, since: Time) {
    && w < |s.waiters|
    && Gone(s.dead, pid)
    && s.now >= since
    && HeldIsReserved(s)
    && (s.owner[i] == Launch(w) ==> NoWaiterOn(s, i) && FreeOrUpcoming(s, i, pid, start, since))
  }

  lemma HeldStaysReserved(s: State, e: Event)
    requires Possible(s, e) && HeldIsReserved(s)
    ensures HeldIsReserved(Step(s, e))
  {
  }

  lemma StepRecovering(s: State, e: Event, i: SlotIndex, w: nat, pid: int, start: Time, since: Time)
    requires Possible(s, e) && Recovering(s, i, w, pid, start, since)
    requires since >= start + MAXTASKLOADINGTIME
    ensures Recovering(Step(s, e), i, w, pid, start, since)
  {
    HeldStaysReserved(s, e);
    var s' := Step(s, e);
    assert s.dead <= s'.dead && s.now <= s'.now && |s.waiters| <= |s'.waiters|;
    if s'.owner[i] == Launch(w) {
      OwnerNeverReturns(s, e, i, w);
      StaysAbandoned(s, e, i, w);
      AbandonedSlotStays(s, e, i, w);
      if e.Check? && s.shared.slots[i].used {
        CheckerApproaches(s, e.clockWorks, i, pid, start, since);
      } else {
        assert e.Check? || s'.checker == s.checker;
      }
    }
  }

  lemma {:induction false} RunRecovering(s: State, es: seq<Event>, i: SlotIndex, w: nat, pid: int, start: Time, since: Time)
    requires Run(s, es) && Recovering(s, i, w, pid, start, since)
    requires since >= start + MAXTASKLOADINGTIME
    ensures Recovering(End(s, es), i, w, pid, start, since)
    decreases |es|
  {
    if es != [] {
      StepRecovering(s, es[0], i, w, pid, start, since);
      RunRecovering(Step(s, es[0]), es[1..], i, w, pid, start, since);
    }
  }

  /** What is left of an orphan: slot i was handed out again, or nobody works for it and it holds at
      most what slot says; used: whether it may be used at all. */
  predicate Residue(s: State, i: SlotIndex, w: nat, slot: Slot, used: bool) {
    && w < |s.waiters|
    && HeldIsReserved(s)
    && (s.owner[i] == Launch(w) ==>
          NoWaiterOn(s, i) &&
          var now := s.shared.slots[i];
          now.used ==>
            used && now.pid == slot.pid && now.start == slot.start && (slot.status == Running ==> now.status == Running))
  }

  lemma StepResidue(s: State, e: Event, i: SlotIndex, w: nat, slot: Slot, used: bool)
    requires Possible(s, e) && Residue(s, i, w, slot, used)
    ensures Residue(Step(s, e), i, w, slot, used)
  {
    HeldStaysReserved(s, e);
    WaitersStay(s, e);
    if Step(s, e).owner[i] == Launch(w) {
      OwnerNeverReturns(s, e, i, w);
      StaysAbandoned(s, e, i, w);
      AbandonedSlotStays(s, e, i, w);
    }
  }

  lemma WaitersStay(s: State, e: Event)
    requires Possible(s, e)
    ensures |s.waiters| <= |Step(s, e).waiters| && s.dead <= Step(s, e).dead && s.now <= Step(s, e).now
  {
  }

  lemma {:induction false} RunResidue(s: State, es: seq<Event>, i: SlotIndex, w: nat, slot: Slot, used: bool)
    requires Run(s, es) && Residue(s, i, w, slot, used)
    ensures Residue(End(s, es), i, w, slot, used)
    ensures s.dead <= End(s, es).dead && s.now <= End(s, es).now
    decreases |es|
  {
    if es != [] {
      StepResidue(s, es[0], i, w, slot, used);
      WaitersStay(s, es[0]);
      RunResidue(Step(s, es[0]), es[1..], i, w, slot, used);
    }
  }

  /** The slot of the orphan is free, or was handed out again. */
  predicate Recovered(s: State, i: SlotIndex, w: nat) {
    s.shared.slots[i].used ==> s.owner[i] != Launch(w)
  }

  /** From the first slot to its rest, a pass recovers an orphan that is old enough. */
  lemma PassRecovers(s: State, es: seq<Event>, i: SlotIndex, w: nat, slot: Slot)
    requires Run(s, es) && Residue(s, i, w, slot, true)
    requires Gone(s.dead, slot.pid) && s.now >= slot.start + MAXTASKLOADINGTIME
    requires s.checker == AskUsed(0) && End(s, es).checker == Resting
    ensures Residue(End(s, es), i, w, slot, false)
  {
    RunRecovering(s, es, i, w, slot.pid, slot.start, s.now);
  }

  /** Orphan recovery, for every interleaving with the other processes and wherever the consistency
      process is: MAXTASKLOADINGTIME or more after the orphan's task was registered, with the
      registered pid dead, the statements of two passes are enough to free its slot, unless it
      was freed and handed out again meanwhile. */
  lemma OrphanRecovered(now: Time, es: seq<Event>, more: seq<Event>, i: SlotIndex, w: nat)
    requires Run(Boot(now), es) && Run(End(Boot(now), es), more)
    requires Orphan(End(Boot(now), es), i, w)
    requires var s := End(Boot(now), es);
             Gone(s.dead, s.shared.slots[i].pid) && s.now >= s.shared.slots[i].start + MAXTASKLOADINGTIME
    requires Checks(more) > 2 * PASS
    ensures Recovered(End(End(Boot(now), es), more), i, w)
  {
    var s := End(Boot(now), es);
    var slot := s.shared.slots[i];
    RunHeldIsReserved(Boot(now), es);
    var n := RestsAfter(s, more, i, w, slot, true);
    var t, rest := End(s, more[..n]), more[n..];
    WholePassRecovers(t, rest, i, w, slot);
  }

  lemma RestsAfter(s: State, es: seq<Event>, i: SlotIndex, w: nat, slot: Slot, used: bool) returns (n: nat)
    requires Run(s, es) && Residue(s, i, w, slot, used) && Checks(es) >= PASS
    ensures n <= |es| && Run(s, es[..n]) && Run(End(s, es[..n]), es[n..])
    ensures var t := End(s, es[..n]);
            && End(t, es[n..]) == End(s, es) && t.checker == Resting && Residue(t, i, w, slot, used)
            && s.dead <= t.dead && s.now <= t.now
    ensures Checks(es[n..]) >= Checks(es) - PASS
  {
    assert Remaining(s.checker) <= PASS;
    n := ComesToRest(s, es);
    RunResidue(s, es[..n], i, w, slot, used);
    assert es == es[..n] + es[n..];
    ChecksGlued(es[..n], es[n..]);
  }

  /** From a rest of the consistency process through the whole next pass and on. */
  lemma {:induction false} WholePassRecovers(s: State, es: seq<Event>, i: SlotIndex, w: nat, slot: Slot)
    requires Run(s, es) && Residue(s, i, w, slot, true) && s.checker == Resting && Checks(es) > PASS
    requires Gone(s.dead, slot.pid) && s.now >= slot.start + MAXTASKLOADINGTIME
    ensures Recovered(End(s, es), i, w)
    decreases |es|
  {
    var t, rest := Step(s, es[0]), es[1..];
    StepResidue(s, es[0], i, w, slot, true);
    WaitersStay(s, es[0]);
    if !es[0].Check? {
      OthersWait(s, es[0]);
      WholePassRecovers(t, rest, i, w, slot);
    } else {
      assert t.checker == AskUsed(0);
      var n := ComesToRest(t, rest);
      PassRecovers(t, rest[..n], i, w, slot);
      RunResidue(End(t, rest[..n]), rest[n..], i, w, slot, false);
    }
  }

  /** The first task of a slave is launched in slot 0. */
  lemma FirstLaunch(now: Time) returns (es: seq<Event>)
    ensures Run(Boot(now), es)
    ensures var s := End(Boot(now), es);
            && s == Boot(now).(shared := s.shared, waiters := [Waiter(0, 0, 0, Started)], owner := s.owner, mark := s.mark)
            && s.shared.slots[0] == Slot(true, Loading, 0, 0, 0) && s.owner[0] == Launch(0)
  {
    es := [];
    RunOne(Boot(now), es, TakeSlot(0)); es := es + [TakeSlot(0)];
    RunOne(Boot(now), es, FillSlot(0)); es := es + [FillSlot(0)];
    RunOne(Boot(now), es, ForkWaiter); es := es + [ForkWaiter];
  }

  /** Orphans happen: the waiter is killed after it has registered its task, which then ends. */
  lemma OrphanHappens(now: Time, rc: bv16) returns (es: seq<Event>)
    ensures Run(Boot(now), es)
    ensures var s := End(Boot(now), es);
            Orphan(s, 0, 0) && Gone(s.dead, s.shared.slots[0].pid) && s.shared.slots[0].start == now
  {
    es := FirstLaunch(now);
    var s := End(Boot(now), es);
    var rest := RegistersFirst(s);
    RunSplit(Boot(now), es, rest);
    es := es + rest;
    var t := End(s, rest);
    rest := OrphanedByKill(t, rc);
    RunSplit(Boot(now), es, rest);
    es := es + rest;
  }

  lemma RegistersFirst(s: State) returns (es: seq<Event>)
    requires s.waiters == [Waiter(0, 0, 0, Started)] && s.pids == {} && s.shared.slots[0].used
    ensures Run(s, es)
    ensures var t := End(s, es);
            && t == s.(shared := t.shared, waiters := [Waiter(0, 10, s.now, Waiting)], pids := {10})
            && t.shared.slots[0].used && t.shared.slots[0].pid == 10 && t.shared.slots[0].start == s.now
  {
    es := [];
    RunOne(s, es, ForkTask(0, 10)); es := es + [ForkTask(0, 10)];
    RunOne(s, es, RegisterTask(0)); es := es + [RegisterTask(0)];
    assert End(s, es).waiters == [Waiter(0, 10, s.now, Waiting)];
  }

  lemma OrphanedByKill(s: State, rc: bv16) returns (es: seq<Event>)
    requires s.main.Idle? && s.waiters == [Waiter(0, 10, s.now, Waiting)] && s.owner[0] == Launch(0)
    requires s.pids == {10} && s.ended == map[]
    ensures Run(s, es)
    ensures var t := End(s, es);
            && t == s.(waiters := [Waiter(0, 10, s.now, Killed)], ended := map[10 := rc], dead := s.dead + {10})
            && NoWaiterOn(t, 0)
  {
    es := [];
    RunOne(s, es, KillWaiter(0)); es := es + [KillWaiter(0)];
    assert End(s, es).waiters == [Waiter(0, 10, s.now, Killed)];
    RunOne(s, es, TaskEnds(10, rc)); es := es + [TaskEnds(10, rc)];
    RunOne(s, es, InitReaps(0)); es := es + [InitReaps(0)];
  }

  /** And orphans can be recovered: whatever has happened so far, time passes and the consistency process gets
      through its passes. */
  lemma OrphanCanRecover(now: Time, es: seq<Event>, i: SlotIndex, w: nat) returns (more: seq<Event>)
    requires Run(Boot(now), es) && Orphan(End(Boot(now), es), i, w)
    requires var s := End(Boot(now), es);
             && Gone(s.dead, s.shared.slots[i].pid)
             && s.shared.slots[i].start + MAXTASKLOADINGTIME < 0x8000_0000_0000_0000
    ensures Run(Boot(now), es + more) && Recovered(End(Boot(now), es + more), i, w)
  {
    var s := End(Boot(now), es);
    var slot := s.shared.slots[i];
    RunHeldIsReserved(Boot(now), es);
    var late := if s.now < slot.start + MAXTASKLOADINGTIME then slot.start + MAXTASKLOADINGTIME else s.now;
    var works := seq(MAXTASKS, _ => true);
    more := [Tick(late)];
    RunOne(s, [], Tick(late));
    var pass := PassExists(End(s, more), works);
    PassRests(End(s, more), pass, works);
    RunSplit(s, more, pass);
    more := more + pass;
    RunOne(s, more, Check(true));
    more := more + [Check(true)];
    var t := End(s, more);
    RunResidue(s, more, i, w, slot, true);
    assert t.checker == AskUsed(0);
    pass := PassExists(t, works);
    PassRests(t, pass, works);
    PassRecovers(t, pass, i, w, slot);
    RunSplit(s, more, pass);
    more := more + pass;
    RunSplit(Boot(now), es, more);
  }

  lemma {:induction false} PassRests(s: State, es: seq<Event>, works: seq<bool>)
    requires Run(s, es) && |works| == MAXTASKS && Undisturbed(s, es, works)
    ensures End(s, es).checker == Resting && End(s, es).now == s.now
    decreases |es|
  {
    if es != [] {
      PassRests(Step(s, es[0]), es[1..], works);
    }
  }

  /** check_tasks() is quicker with an orphan that a pass has seen running: once its pid is dead, the
      next check_tasks() frees it, however young it is. */
  lemma SweepRecovers(now: Time, es: seq<Event>, more: seq<Event>, i: SlotIndex, w: nat)
    requires Run(Boot(now), es) && Run(End(Boot(now), es), more)
    requires Orphan(End(Boot(now), es), i, w)
    requires var s := End(Boot(now), es);
             s.shared.slots[i].status == Running && s.shared.slots[i].pid > 0 && s.shared.slots[i].pid in s.dead
    requires SweepTasks in more
    ensures Recovered(End(End(Boot(now), es), more), i, w)
  {
    RunHeldIsReserved(Boot(now), es);
    var s := End(Boot(now), es);
    RunSweeps(s, more, i, w, s.shared.slots[i]);
  }

  lemma {:induction false} RunSweeps(s: State, es: seq<Event>, i: SlotIndex, w: nat, slot: Slot)
    requires Run(s, es) && Residue(s, i, w, slot, true) && SweepTasks in es
    requires slot.status == Running && slot.pid > 0 && slot.pid in s.dead
    ensures Recovered(End(s, es), i, w)
    decreases |es|
  {
    var t := Step(s, es[0]);
    StepResidue(s, es[0], i, w, slot, true);
    WaitersStay(s, es[0]);
    if es[0] == SweepTasks {
      SweepTakes(s, i);
      assert Residue(t, i, w, slot, false);
      RunResidue(t, es[1..], i, w, slot, false);
    } else {
      RunSweeps(t, es[1..], i, w, slot);
    }
  }

  /* Orphans nobody recovers */

  /** The orphan's slot names no process of its own: kill(0,0) and kill(-1,0) always succeed. */
  predicate Lost(s: State, i: SlotIndex, w: nat) {
    && Abandoned(s, i, w) && HeldIsReserved(s)
    && s.shared.slots[i].used && s.shared.slots[i].pid <= 0
    && (s.checker.AskAlive? && s.checker.i == i ==> s.checker.pid <= 0)
    && (Condemning(s.checker) ==> s.checker.i != i)
  }

  lemma StepStaysLost(s: State, e: Event, i: SlotIndex, w: nat)
    requires Possible(s, e) && Lost(s, i, w)
    ensures Lost(Step(s, e), i, w)
  {
    HeldStaysReserved(s, e);
    assert !MainHolds(s, i);
    StaysAbandoned(s, e, i, w);
    AbandonedSlotStays(s, e, i, w);
    if e.SweepTasks? {
      assert !Vanished(s.dead)(s.shared.slots[i]);
    }
  }

  /** A slot whose waiter was killed before it registered a pid stays used in every continuation,
      whatever the main loop, the other waiters and the consistency process do. */
  lemma {:induction false} LostForever(s: State, es: seq<Event>, i: SlotIndex, w: nat)
    requires Run(s, es) && Lost(s, i, w)
    ensures Lost(End(s, es), i, w)
    decreases |es|
  {
    if es != [] {
      StepStaysLost(s, es[0], i, w);
      LostForever(Step(s, es[0]), es[1..], i, w);
    }
  }

  /** Such a slot exists: kill the first waiter before it has forked its task. */
  lemma KilledEarlyIsLost(now: Time) returns (es: seq<Event>)
    ensures Run(Boot(now), es) && Lost(End(Boot(now), es), 0, 0)
  {
    es := FirstLaunch(now);
    RunOne(Boot(now), es, KillWaiter(0));
    es := es + [KillWaiter(0)];
    RunHeldIsReserved(Boot(now), es);
    assert End(Boot(now), es).waiters == [Waiter(0, 0, 0, Killed)];
  }

  /** An orphan is lost for good exactly when it has no pid that can die: with every started task
      ended and reaped, the orphan old enough and the consistency process not about to judge its
      slot by a pid read earlier, the statements of two passes recover it if and only if its pid
      is positive. */
  lemma RecoveryNeedsPid(now: Time, es: seq<Event>, more: seq<Event>, i: SlotIndex, w: nat)
    requires Run(Boot(now), es) && Run(End(Boot(now), es), more)
    requires Orphan(End(Boot(now), es), i, w)
    requires var s := End(Boot(now), es);
             && (s.shared.slots[i].pid > 0 ==> s.shared.slots[i].pid in s.dead)
             && s.now >= s.shared.slots[i].start + MAXTASKLOADINGTIME
             && (s.checker.AskAlive? || Condemning(s.checker) ==> s.checker.i != i)
    requires Checks(more) > 2 * PASS
    ensures Recovered(End(End(Boot(now), es), more), i, w) <==> End(Boot(now), es).shared.slots[i].pid > 0
  {
    var s := End(Boot(now), es);
    if s.shared.slots[i].pid > 0 {
      OrphanRecovered(now, es, more, i, w);
    } else {
      RunHeldIsReserved(Boot(now), es);
      LostForever(s, more, i, w);
    }
  }
}
