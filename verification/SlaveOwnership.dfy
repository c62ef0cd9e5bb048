/**
  Exclusive ownership of a slot.  Here a consistency iteration is one step, and so is
  the reap of a task together with its mark; everything else, the death of waiters
  included, interleaves as before.  Every such run is a run of the fine system
  (AtomicIsRun), and as long as finished tasks are reported in time, the slot of an
  unfinished waiter is freed by that waiter only.
  */
module SlaveOwnership {
  import opened ExitStatus
  import opened TaskSlots
  import opened SlaveProtocol
  import opened SlaveReports

  datatype Atomic =
    | Plain(e: Event)
    | CheckSlot(clockWorks: bool)
    | ReapAndMark(w: nat)

  predicate BetweenIterations(s: State) {
    s.checker.AskUsed? || s.checker.Resting?
  }

  predicate AtomicPossible(s: State, a: Atomic) {
    match a
    case Plain(e) => Possible(s, e) && !e.Check? && !e.Reap? && !e.MarkTask?
    case CheckSlot(_) => BetweenIterations(s)
    case ReapAndMark(w) => Possible(s, Reap(w))
  }

  /** One iteration of slave_consistency_process(): its slot is checked and the next is up. */
  function Iteration(s: State, clockWorks: bool): State
    requires BetweenIterations(s)
  {
    if s.checker.Resting? then s.(checker := AskUsed(0))
    else
      var i := s.checker.i;
      var slot := Checked(s.shared.slots[i], s.dead, if clockWorks then s.now else -1);
      s.(checker := Next(i), shared := s.shared.(slots := s.shared.slots[i := slot]))
  }

  function AtomicStep(s: State, a: Atomic): State
    requires AtomicPossible(s, a)
  {
    match a
    case Plain(e) => Step(s, e)
    case CheckSlot(clockWorks) => Iteration(s, clockWorks)
    case ReapAndMark(w) =>
      var me := s.waiters[w];
      s.(shared := MarkFinished(s.shared, me.slot, s.ended[me.pid]),
         waiters := s.waiters[w := me.(pc := Reporting)],
         dead := s.dead + {me.pid},
         mark := s.mark[me.slot := By(w)])
  }

  /* Refinement: an atomic step is a run of fine steps */

  /** The else branch: promote a loading task. */
  lemma RunElseBranch(s: State, clockWorks: bool) returns (es: seq<Event>)
    requires s.checker.AskUsedAgain?
    ensures Run(s, es)
    ensures var i, slot := s.checker.i, s.shared.slots[s.checker.i];
            End(s, es) == s.(checker := Next(i), shared :=
              s.shared.(slots := s.shared.slots[i := if slot.used && slot.status == Loading then slot.(status := Running) else slot]))
  {
    var slot := s.shared.slots[s.checker.i];
    es := [];
    RunOne(s, es, Check(clockWorks)); es := es + [Check(clockWorks)];
    if slot.used {
      RunOne(s, es, Check(clockWorks)); es := es + [Check(clockWorks)];
      if slot.status == Loading {
        RunOne(s, es, Check(clockWorks)); es := es + [Check(clockWorks)];
      }
    }
  }

  /** The branch for a pid that does not answer: wait for a young task, free the slot otherwise. */
  lemma RunGoneBranch(s: State, clockWorks: bool) returns (es: seq<Event>)
    requires s.checker.AskNow?
    ensures Run(s, es)
    ensures var i, slot := s.checker.i, s.shared.slots[s.checker.i];
            End(s, es) == s.(checker := Next(i), shared :=
              s.shared.(slots := s.shared.slots[i :=
                if slot.status != Loading && clockWorks && StillYoung(s.now, slot.start) then slot else slot.(used := false)]))
  {
    var i, slot := s.checker.i, s.shared.slots[s.checker.i];
    es := [];
    RunOne(s, es, Check(clockWorks)); es := es + [Check(clockWorks)];
    RunOne(s, es, Check(clockWorks)); es := es + [Check(clockWorks)];
    if slot.status != Loading && clockWorks {
      assert End(s, es) == s.(checker := AskStart(i, s.checker.pid, s.now));
      RunOne(s, es, Check(clockWorks)); es := es + [Check(clockWorks)];
    }
    if End(s, es).checker.Freeing? {
      RunOne(s, es, Check(clockWorks)); es := es + [Check(clockWorks)];
    }
  }

  lemma RunIteration(s: State, clockWorks: bool) returns (es: seq<Event>)
    requires BetweenIterations(s)
    ensures Run(s, es) && End(s, es) == Iteration(s, clockWorks)
  {
    es := [];
    RunOne(s, es, Check(clockWorks)); es := es + [Check(clockWorks)];
    if s.checker.AskUsed? {
      var i, slot := s.checker.i, s.shared.slots[s.checker.i];
      if slot.used {
        RunOne(s, es, Check(clockWorks)); es := es + [Check(clockWorks)];
        RunOne(s, es, Check(clockWorks)); es := es + [Check(clockWorks)];
      }
      var middle := End(s, es);
      var rest: seq<Event>;
      if slot.used && Gone(s.dead, slot.pid) {
        assert middle == s.(checker := AskNow(i, slot.pid));
        rest := RunGoneBranch(middle, clockWorks);
      } else {
        assert middle == s.(checker := AskUsedAgain(i));
        rest := RunElseBranch(middle, clockWorks);
      }
      RunSplit(s, es, rest);
      es := es + rest;
    }
  }

  lemma AtomicIsRun(s: State, a: Atomic) returns (es: seq<Event>)
    requires AtomicPossible(s, a)
    ensures Run(s, es) && End(s, es) == AtomicStep(s, a)
  {
    match a
    case Plain(e) =>
      es := [];
      RunOne(s, es, e);
      es := es + [e];
    case CheckSlot(clockWorks) =>
      es := RunIteration(s, clockWorks);
    case ReapAndMark(w) =>
      es := [];
      RunOne(s, es, Reap(w));
      es := es + [Reap(w)];
      assert End(s, es).waiters[w] == s.waiters[w].(pc := Reaped);
      RunOne(s, es, MarkTask(w));
      es := es + [MarkTask(w)];
      assert s.waiters[w := s.waiters[w].(pc := Reaped)][w := s.waiters[w].(pc := Reporting)]
          == s.waiters[w := s.waiters[w].(pc := Reporting)];
  }

  /* Runs of atomic steps in which finished tasks are reported in time */

  /** time() works and every finished task is still within its loading time when the
      consistency process looks. */
  predicate Timely(s: State, a: Atomic) {
    a.CheckSlot? ==>
      a.clockWorks &&
      forall w | 0 <= w < |s.waiters| && Finishing(s.waiters[w]) :: s.now < s.waiters[w].start + MAXTASKLOADINGTIME
  }

  predicate TimelyRun(s: State, steps: seq<Atomic>)
    decreases |steps|
  {
    steps == [] ||
    (AtomicPossible(s, steps[0]) && Timely(s, steps[0]) && TimelyRun(AtomicStep(s, steps[0]), steps[1..]))
  }

  function AtomicEnd(s: State, steps: seq<Atomic>): State
    requires TimelyRun(s, steps)
    decreases |steps|
  {
    if steps == [] then s else AtomicEnd(AtomicStep(s, steps[0]), steps[1..])
  }

  lemma {:induction false} TimelyRunIsRun(s: State, steps: seq<Atomic>) returns (es: seq<Event>)
    requires TimelyRun(s, steps)
    ensures Run(s, es) && End(s, es) == AtomicEnd(s, steps)
    decreases |steps|
  {
    es := [];
    if steps != [] {
      var first := AtomicIsRun(s, steps[0]);
      var rest := TimelyRunIsRun(AtomicStep(s, steps[0]), steps[1..]);
      RunSplit(s, first, rest);
      es := first + rest;
    }
  }

  /* The invariant */

  predicate PidsKnown(s: State) {
    && (forall pid <- s.pids :: pid > 0)
    && (forall pid <- s.ended :: pid in s.pids)
    && s.dead <= s.pids
  }

  /** A child is not dead before its waiter has reaped it. */
  predicate PidSane(s: State, me: Waiter) {
    && me.start <= s.now
    && me.pc != Reaped
    && (me.pc == Started ==> me.pid == 0)
    && (me.pid > 0 ==> me.pid in s.pids)
    && (me.pc == Forked || me.pc == Waiting ==> me.pid == -1 || (me.pid > 0 && me.pid !in s.dead))
    && (me.pc == NoChild ==> me.pid == -1)
    && (Finishing(me) ==> me.pid > 0 && me.pid in s.dead)
  }

  /** Pids are handed out once. */
  predicate PidsDistinct(waiters: seq<Waiter>) {
    forall v, w | 0 <= v < |waiters| && 0 <= w < |waiters| && v != w && waiters[v].pid > 0 ::
      waiters[v].pid != waiters[w].pid
  }

  predicate PidsSane(s: State) {
    PidsKnown(s) && PidsDistinct(s.waiters) && forall w | 0 <= w < |s.waiters| :: PidSane(s, s.waiters[w])
  }

  /** The slot is the waiter's own, and says what the waiter last wrote there. */
  predicate Owns(s: State, w: nat)
    requires w < |s.waiters|
  {
    var me := s.waiters[w];
    var slot := s.shared.slots[me.slot];
    && s.owner[me.slot] == Launch(w) && slot.used && !MainHolds(s, me.slot)
    && (me.pc == Started || me.pc == Forked ==> slot.pid == 0 && slot.status != Finished)
    && (me.pc == Waiting || me.pc == NoChild ==> slot.pid == me.pid && slot.status != Finished)
    && (me.pc == Waiting ==> slot.start == me.start)
    && (Finishing(me) ==> slot.pid == me.pid && slot.status == Finished && slot.start == me.start && s.mark[me.slot] == By(w))
  }

  predicate OwnersOwn(s: State) {
    forall w | 0 <= w < |s.waiters| && s.waiters[w].Unfinished() :: Owns(s, w)
  }

  /** A filled slot is on its way from the main loop to a waiter. */
  predicate ReadyFilled(s: State) {
    s.main.Ready? ==>
      var slot := s.shared.slots[s.main.slot];
      slot.used && slot.pid == 0 && slot.status != Finished
  }

  predicate Orderly(s: State) {
    BetweenIterations(s) && PidsSane(s) && ReadyFilled(s) && OwnersOwn(s) && ReportsOwn(s)
  }

  /** The waiter that takes the step, if it is a waiter's step. */
  function Actor(a: Atomic): int {
    match a
    case ReapAndMark(w) => w
    case CheckSlot(_) => -1
    case Plain(e) => Mover(e)
  }

  lemma OthersKeep(s: State, a: Atomic, w: nat)
    requires AtomicPossible(s, a) && w < |s.waiters| && w != Actor(a)
    ensures w < |AtomicStep(s, a).waiters| && AtomicStep(s, a).waiters[w] == s.waiters[w]
  {
  }

  lemma PidsKnownStep(s: State, a: Atomic)
    requires AtomicPossible(s, a) && PidsSane(s)
    ensures PidsKnown(AtomicStep(s, a))
    ensures s.pids <= AtomicStep(s, a).pids && s.now <= AtomicStep(s, a).now
    ensures AtomicStep(s, a).dead ==
              if a.ReapAndMark? then s.dead + {s.waiters[a.w].pid}
              else if a.Plain? && a.e.InitReaps? then s.dead + {s.waiters[a.e.w].pid}
              else s.dead
  {
  }

  /** A waiter that does not move stays sane: dead pids are never its own. */
  lemma OthersStaySane(s: State, a: Atomic, w: nat)
    requires AtomicPossible(s, a) && PidsSane(s) && w < |s.waiters| && w != Actor(a)
    ensures PidSane(AtomicStep(s, a), s.waiters[w])
  {
    PidsKnownStep(s, a);
    assert PidSane(s, s.waiters[w]);
    if a.ReapAndMark? {
      assert PidSane(s, s.waiters[a.w]);
    } else if a.Plain? && a.e.InitReaps? {
      assert s.waiters[a.e.w].pc == Killed;
      assert PidSane(s, s.waiters[a.e.w]);
    }
  }

  lemma ActorStaysSane(s: State, a: Atomic, w: nat)
    requires AtomicPossible(s, a) && PidsSane(s) && w < |s.waiters| && w == Actor(a)
    ensures PidSane(AtomicStep(s, a), AtomicStep(s, a).waiters[w])
  {
    assert PidSane(s, s.waiters[w]);
  }

  lemma PidSaneStep(s: State, a: Atomic, w: nat)
    requires AtomicPossible(s, a) && PidsSane(s)
    requires w < |AtomicStep(s, a).waiters|
    ensures PidSane(AtomicStep(s, a), AtomicStep(s, a).waiters[w])
  {
    if w >= |s.waiters| {
      assert AtomicStep(s, a).waiters[w] == Waiter(s.main.slot, 0, 0, Started);
    } else if w == Actor(a) {
      ActorStaysSane(s, a, w);
    } else {
      OthersKeep(s, a, w);
      OthersStaySane(s, a, w);
    }
  }

  /** Only a fork writes a pid. */
  lemma PidsWritten(s: State, a: Atomic, w: nat)
    requires AtomicPossible(s, a) && w < |AtomicStep(s, a).waiters|
    ensures var pid := AtomicStep(s, a).waiters[w].pid;
            if w < |s.waiters| then
              pid == s.waiters[w].pid || pid == -1 || (pid !in s.pids && a == Plain(ForkTask(w, pid)))
            else pid == 0
  {
  }

  lemma PidsDistinctStep(s: State, a: Atomic)
    requires AtomicPossible(s, a) && PidsSane(s)
    ensures PidsDistinct(AtomicStep(s, a).waiters)
  {
    var s' := AtomicStep(s, a);
    forall v, w | 0 <= v < |s'.waiters| && 0 <= w < |s'.waiters| && v != w && s'.waiters[v].pid > 0
      ensures s'.waiters[v].pid != s'.waiters[w].pid
    {
      PidsWritten(s, a, v);
      PidsWritten(s, a, w);
      assert v < |s.waiters| ==> PidSane(s, s.waiters[v]);
      assert w < |s.waiters| ==> PidSane(s, s.waiters[w]);
    }
  }

  lemma PidsStep(s: State, a: Atomic)
    requires AtomicPossible(s, a) && PidsSane(s)
    ensures PidsSane(AtomicStep(s, a))
  {
    PidsKnownStep(s, a);
    PidsDistinctStep(s, a);
    forall w | 0 <= w < |AtomicStep(s, a).waiters|
      ensures PidSane(AtomicStep(s, a), AtomicStep(s, a).waiters[w])
    {
      PidSaneStep(s, a, w);
    }
  }

  /** Two unfinished waiters never share a slot. */
  lemma OwnersDiffer(s: State, v: nat, w: nat)
    requires OwnersOwn(s) && v < |s.waiters| && w < |s.waiters| && v != w
    requires s.waiters[v].Unfinished() && s.waiters[w].Unfinished()
    ensures s.waiters[v].slot != s.waiters[w].slot
  {
    assert Owns(s, v) && Owns(s, w);
  }

  lemma CheckKeepsOwner(s: State, a: Atomic, w: nat)
    requires AtomicPossible(s, a) && a.CheckSlot? && Timely(s, a) && Orderly(s)
    requires w < |s.waiters| && s.waiters[w].Unfinished()
    ensures Owns(AtomicStep(s, a), w)
  {
    var me := s.waiters[w];
    assert Owns(s, w) && PidSane(s, me);
    YoungMeansRecent(s.now, s.shared.slots[me.slot].start);
  }

  lemma ReapKeepsOwner(s: State, v: nat, w: nat)
    requires AtomicPossible(s, ReapAndMark(v)) && Orderly(s)
    requires w < |s.waiters| && s.waiters[w].Unfinished()
    ensures Owns(AtomicStep(s, ReapAndMark(v)), w)
  {
    assert Owns(s, w) && PidSane(s, s.waiters[w]);
    if v != w {
      OwnersDiffer(s, v, w);
    }
  }

  lemma SweepKeepsOwner(s: State, w: nat)
    requires AtomicPossible(s, Plain(SweepTasks)) && Orderly(s)
    requires w < |s.waiters| && s.waiters[w].Unfinished()
    ensures Owns(AtomicStep(s, Plain(SweepTasks)), w)
  {
    var i := s.waiters[w].slot;
    assert Owns(s, w) && PidSane(s, s.waiters[w]);
    assert !Vanished(s.dead)(s.shared.slots[i]);
    assert Swept(s.shared.slots, s.dead)[i] == s.shared.slots[i];
  }

  /** Steps of the main loop and of the environment. */
  lemma MainKeepsOwner(s: State, a: Atomic, w: nat)
    requires AtomicPossible(s, a) && a.Plain? && !a.e.SweepTasks? && Actor(a) == -1 && Orderly(s)
    requires w < |AtomicStep(s, a).waiters| && AtomicStep(s, a).waiters[w].Unfinished()
    ensures Owns(AtomicStep(s, a), w)
  {
    if w < |s.waiters| {
      OthersKeep(s, a, w);
      assert Owns(s, w) && PidSane(s, s.waiters[w]);
    }
  }

  lemma ActorKeepsOwn(s: State, a: Atomic, w: nat)
    requires AtomicPossible(s, a) && a.Plain? && Actor(a) == w && Orderly(s)
    requires w < |s.waiters| && AtomicStep(s, a).waiters[w].Unfinished()
    ensures Owns(AtomicStep(s, a), w)
  {
    assert Owns(s, w) && PidSane(s, s.waiters[w]);
  }

  lemma OtherActorKeepsOwner(s: State, a: Atomic, w: nat)
    requires AtomicPossible(s, a) && a.Plain? && Actor(a) >= 0 && Actor(a) != w && Orderly(s)
    requires w < |s.waiters| && s.waiters[w].Unfinished()
    ensures Owns(AtomicStep(s, a), w)
  {
    assert Owns(s, w);
    OthersKeep(s, a, w);
    OwnersDiffer(s, Actor(a), w);
  }

  lemma OwnsStep(s: State, a: Atomic, w: nat)
    requires AtomicPossible(s, a) && Timely(s, a) && Orderly(s)
    requires w < |AtomicStep(s, a).waiters| && AtomicStep(s, a).waiters[w].Unfinished()
    ensures Owns(AtomicStep(s, a), w)
  {
    match a
    case CheckSlot(_) => CheckKeepsOwner(s, a, w);
    case ReapAndMark(v) => ReapKeepsOwner(s, v, w);
    case Plain(e) =>
      if e.SweepTasks? {
        SweepKeepsOwner(s, w);
      } else if Actor(a) == -1 {
        MainKeepsOwner(s, a, w);
      } else if Actor(a) == w {
        ActorKeepsOwn(s, a, w);
      } else {
        OthersKeep(s, a, w);
        OtherActorKeepsOwner(s, a, w);
      }
  }

  lemma StaysBetweenIterations(s: State, a: Atomic)
    requires AtomicPossible(s, a) && BetweenIterations(s)
    ensures BetweenIterations(AtomicStep(s, a))
  {
  }

  /** No waiter touches the slot the main loop has filled. */
  lemma WaitersLeaveReady(s: State, a: Atomic)
    requires AtomicPossible(s, a) && Orderly(s) && s.main.Ready? && Actor(a) >= 0
    ensures AtomicStep(s, a).main == s.main
    ensures AtomicStep(s, a).shared.slots[s.main.slot] == s.shared.slots[s.main.slot]
  {
    assert Owns(s, Actor(a));
    assert s.waiters[Actor(a)].slot != s.main.slot;
  }

  lemma ReadyStep(s: State, a: Atomic)
    requires AtomicPossible(s, a) && Orderly(s)
    ensures ReadyFilled(AtomicStep(s, a))
  {
    if s.main.Ready? && Actor(a) >= 0 {
      WaitersLeaveReady(s, a);
    }
  }

  lemma ReportsStep(s: State, a: Atomic)
    requires AtomicPossible(s, a) && Orderly(s)
    ensures ReportsOwn(AtomicStep(s, a))
  {
    if a.Plain? && a.e.ReportTask? {
      assert Owns(s, a.e.w);
    }
  }

  lemma OrderlyStep(s: State, a: Atomic)
    requires AtomicPossible(s, a) && Timely(s, a) && Orderly(s)
    ensures Orderly(AtomicStep(s, a))
  {
    PidsStep(s, a);
    StaysBetweenIterations(s, a);
    ReadyStep(s, a);
    ReportsStep(s, a);
    forall w | 0 <= w < |AtomicStep(s, a).waiters| && AtomicStep(s, a).waiters[w].Unfinished()
      ensures Owns(AtomicStep(s, a), w)
    {
      OwnsStep(s, a, w);
    }
  }

  lemma {:induction false} TimelyRunOrderly(s: State, steps: seq<Atomic>)
    requires TimelyRun(s, steps) && Orderly(s)
    ensures Orderly(AtomicEnd(s, steps))
    decreases |steps|
  {
    if steps != [] {
      OrderlyStep(s, steps[0]);
      TimelyRunOrderly(AtomicStep(s, steps[0]), steps[1..]);
    }
  }

  /* The results */

  /** The waiter's own two ways to give up its slot. */
  predicate ReleasedBy(a: Atomic, w: nat) {
    a == Plain(ReleaseSlot(w)) || a == Plain(WithdrawTask(w))
  }

  lemma FreedByOwnerOnly(s: State, a: Atomic, w: nat)
    requires AtomicPossible(s, a) && Timely(s, a) && Orderly(s)
    requires w < |s.waiters| && s.waiters[w].Unfinished()
    ensures ReleasedBy(a, w) <==> !AtomicStep(s, a).shared.slots[s.waiters[w].slot].used
  {
    if a == Plain(KillWaiter(w)) {
      assert Owns(s, w);
    } else if !ReleasedBy(a, w) {
      EndsByReleasing(s, a, w);
      OrderlyStep(s, a);
      assert Owns(AtomicStep(s, a), w);
    }
  }

  lemma EndsByReleasing(s: State, a: Atomic, w: nat)
    requires AtomicPossible(s, a) && w < |s.waiters| && s.waiters[w].Unfinished()
    requires !ReleasedBy(a, w) && a != Plain(KillWaiter(w))
    ensures w < |AtomicStep(s, a).waiters| && AtomicStep(s, a).waiters[w].Unfinished()
    ensures AtomicStep(s, a).waiters[w].slot == s.waiters[w].slot
  {
    if w != Actor(a) {
      OthersKeep(s, a, w);
    }
  }

  /** Exclusive ownership: after any timely run, waiters killed or not, whatever happens next, the
      slot of an unfinished waiter is used, was last handed to that waiter, is shared with no other
      unfinished waiter, and is freed by nobody but that waiter. */
  lemma ExclusiveOwnership(now: Time, steps: seq<Atomic>, a: Atomic, w: nat)
    requires TimelyRun(Boot(now), steps)
    requires AtomicPossible(AtomicEnd(Boot(now), steps), a) && Timely(AtomicEnd(Boot(now), steps), a)
    requires w < |AtomicEnd(Boot(now), steps).waiters| && AtomicEnd(Boot(now), steps).waiters[w].Unfinished()
    ensures var s := AtomicEnd(Boot(now), steps);
            var i := s.waiters[w].slot;
            && s.shared.slots[i].used && s.owner[i] == Launch(w)
            && (forall v | 0 <= v < |s.waiters| && v != w && s.waiters[v].Unfinished() :: s.waiters[v].slot != i)
            && (ReleasedBy(a, w) <==> !AtomicStep(s, a).shared.slots[i].used)
  {
    TimelyRunOrderly(Boot(now), steps);
    var s := AtomicEnd(Boot(now), steps);
    assert Owns(s, w);
    forall v | 0 <= v < |s.waiters| && v != w && s.waiters[v].Unfinished()
      ensures s.waiters[v].slot != s.waiters[w].slot
    {
      OwnersDiffer(s, v, w);
    }
    FreedByOwnerOnly(s, a, w);
  }

  /** Timeliness is exactly what is needed: in an orderly state the consistency process takes the
      slot of an unfinished waiter if and only if its task is finished and either time() fails or
      MAXTASKLOADINGTIME has passed since the task was registered. */
  lemma CheckerTakesOnlyLateSlots(s: State, clockWorks: bool, w: nat)
    requires Orderly(s) && w < |s.waiters| && s.waiters[w].Unfinished()
    requires s.checker == AskUsed(s.waiters[w].slot)
    ensures !Iteration(s, clockWorks).shared.slots[s.waiters[w].slot].used <==>
              Finishing(s.waiters[w]) && (!clockWorks || s.now >= s.waiters[w].start + MAXTASKLOADINGTIME)
  {
    var me := s.waiters[w];
    assert Owns(s, w) && PidSane(s, me);
    YoungMeansRecent(s.now, s.shared.slots[me.slot].start);
  }

  /** In a timely run every report tells the master how the reporting waiter's own task ended. */
  lemma TimelyReportsFaithful(now: Time, steps: seq<Atomic>, k: nat)
    requires TimelyRun(Boot(now), steps) && k < |AtomicEnd(Boot(now), steps).reports|
    ensures var s := AtomicEnd(Boot(now), steps);
            HasWord(s, s.reports[k].waiter) && Faithful(s, s.reports[k])
  {
    var es := TimelyRunIsRun(Boot(now), steps);
    ReportsFaithfulIff(now, es, k);
    TimelyRunOrderly(Boot(now), steps);
  }
}
