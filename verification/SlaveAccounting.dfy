/**
  Bookkeeping over every run: where used slots come from and go to, what the cached
  counters are worth, and who is answerable for a used slot.
  */
module SlaveAccounting {
  import opened TaskSlots
  import opened SlaveProtocol

  function NUsed(s: State): nat {
    Count(s.shared.slots, IsUsed)
  }

  function NRunning(s: State): nat {
    Count(s.shared.slots, IsRunning)
  }

  /* The ledger of one event */

  /** Slots the event turns from unused to used. */
  function Taken(s: State, e: Event): nat
    requires Possible(s, e)
  {
    match e
    case TakeSlot(_) => 1
    case FillSlot(_) => 1 - Weight(s.shared.slots[s.main.slot].used)
    case _ => 0
  }

  /** Slots the event turns from used to unused. */
  function Freed(s: State, e: Event): nat
    requires Possible(s, e)
  {
    match e
    case SweepTasks => Count(s.shared.slots, Vanished(s.dead))
    case DropSlot => Weight(s.shared.slots[s.main.slot].used)
    case GiveUp => Weight(s.shared.slots[s.main.slot].used)
    case WithdrawTask(w) => Weight(s.shared.slots[s.waiters[w].slot].used)
    case ReleaseSlot(w) => Weight(s.shared.slots[s.waiters[w].slot].used)
    case Check(_) => if s.checker.Freeing? then Weight(s.shared.slots[s.checker.i].used) else 0
    case _ => 0
  }

  /** The slots that are used in t and not in s. */
  function NewlyUsed(s: State, t: State): set<int> {
    UsedSlots(t.shared.slots) - UsedSlots(s.shared.slots)
  }

  /** What the ledger counts. */
  lemma LedgerIsExact(s: State, e: Event)
    requires Possible(s, e)
    ensures Taken(s, e) == |NewlyUsed(s, Step(s, e))|
    ensures Freed(s, e) == |NewlyUsed(Step(s, e), s)|
  {
    var t := Step(s, e);
    if e.SweepTasks? {
      CountIsSize(s.shared.slots, Vanished(s.dead));
      assert NewlyUsed(t, s) == Where(s.shared.slots, Vanished(s.dead));
      assert NewlyUsed(s, t) == {};
    } else {
      var i := SlotOf(s, e);
      StepTouchesOne(s, e);
      SlotLedger(s, e);
      assert NewlyUsed(s, t) == if t.shared.slots[i].used && !s.shared.slots[i].used then {i} else {};
      assert NewlyUsed(t, s) == if s.shared.slots[i].used && !t.shared.slots[i].used then {i} else {};
    }
  }

  lemma SlotLedger(s: State, e: Event)
    requires Possible(s, e) && !e.SweepTasks?
    ensures var before, after := s.shared.slots[SlotOf(s, e)].used, Step(s, e).shared.slots[SlotOf(s, e)].used;
            Taken(s, e) == Weight(after && !before) && Freed(s, e) == Weight(before && !after)
  {
  }

  /** The locked sections that recompute ntasks. */
  predicate Recounts(e: Event) {
    e.SweepTasks? || e.FillSlot? || e.RegisterTask? || e.MarkTask? || e.WithdrawTask?
  }

  /** The locked sections that recompute nrunning as well: check_tasks() does not. */
  predicate RecountsRunning(e: Event) {
    Recounts(e) && !e.SweepTasks?
  }

  /** Seen from the one slot an event touches. */
  lemma SlotBalance(s: State, e: Event)
    requires Possible(s, e) && !e.SweepTasks?
    ensures var i := SlotOf(s, e);
            Weight(Step(s, e).shared.slots[i].used) + Freed(s, e) == Weight(s.shared.slots[i].used) + Taken(s, e)
  {
  }

  /** Every event changes the number of used slots by what it takes and frees. */
  lemma StepBalance(s: State, e: Event)
    requires Possible(s, e)
    ensures NUsed(Step(s, e)) + Freed(s, e) == NUsed(s) + Taken(s, e)
  {
    if e.SweepTasks? {
      SweptCount(s.shared.slots, s.dead);
    } else {
      var i := SlotOf(s, e);
      StepTouchesOne(s, e);
      CountUpdate(s.shared.slots, i, Step(s, e).shared.slots[i], IsUsed);
      SlotBalance(s, e);
    }
  }

  lemma StepRecounts(s: State, e: Event)
    requires Possible(s, e)
    ensures Recounts(e) ==> Step(s, e).shared.ntasks == NUsed(Step(s, e))
    ensures RecountsRunning(e) ==> Step(s, e).shared.nrunning == NRunning(Step(s, e))
    ensures !Recounts(e) ==> Step(s, e).shared.ntasks == s.shared.ntasks
  {
  }

  /* The ledger of a run */

  function TakenIn(s: State, es: seq<Event>): nat
    requires Run(s, es)
    decreases |es|
  {
    if es == [] then 0 else Taken(s, es[0]) + TakenIn(Step(s, es[0]), es[1..])
  }

  function FreedIn(s: State, es: seq<Event>): nat
    requires Run(s, es)
    decreases |es|
  {
    if es == [] then 0 else Freed(s, es[0]) + FreedIn(Step(s, es[0]), es[1..])
  }

  /** Slot conservation: what was taken was freed or is still used. */
  lemma {:induction false} SlotsConserved(s: State, es: seq<Event>)
    requires Run(s, es)
    ensures NUsed(s) + TakenIn(s, es) == NUsed(End(s, es)) + FreedIn(s, es)
    decreases |es|
  {
    if es != [] {
      StepBalance(s, es[0]);
      SlotsConserved(Step(s, es[0]), es[1..]);
    }
  }

  /** Releases minus reservations since ntasks was last recomputed; drift is the balance before. */
  function Drift(s: State, es: seq<Event>, drift: int): int
    requires Run(s, es)
    decreases |es|
  {
    if es == [] then drift
    else
      var balance := if Recounts(es[0]) then 0 else drift + Freed(s, es[0]) - Taken(s, es[0]);
      Drift(Step(s, es[0]), es[1..], balance)
  }

  /** The cached ntasks is off by exactly what happened since its last recount. */
  lemma {:induction false} CounterDrift(s: State, es: seq<Event>, drift: int)
    requires Run(s, es)
    requires s.shared.ntasks - NUsed(s) == drift
    ensures End(s, es).shared.ntasks - NUsed(End(s, es)) == Drift(s, es, drift)
    decreases |es|
  {
    if es != [] {
      StepBalance(s, es[0]);
      StepRecounts(s, es[0]);
      var balance := if Recounts(es[0]) then 0 else drift + Freed(s, es[0]) - Taken(s, es[0]);
      CounterDrift(Step(s, es[0]), es[1..], balance);
    }
  }

  /** A freshly started slave counts correctly, so the law holds at every moment of its life. */
  lemma CounterDriftFromBoot(now: Time, es: seq<Event>)
    requires Run(Boot(now), es)
    ensures End(Boot(now), es).shared.ntasks == NUsed(End(Boot(now), es)) + Drift(Boot(now), es, 0)
    ensures es != [] && Recounts(es[|es| - 1]) ==> End(Boot(now), es).shared.ntasks == NUsed(End(Boot(now), es))
    ensures es == [] || RecountsRunning(es[|es| - 1]) ==>
              End(Boot(now), es).shared.nrunning == NRunning(End(Boot(now), es))
  {
    var s := Boot(now);
    CountZero(s.shared.slots, IsUsed);
    CountZero(s.shared.slots, IsRunning);
    CounterDrift(s, es, 0);
    if es != [] {
      RunLast(s, es);
      StepRecounts(End(s, es[..|es| - 1]), es[|es| - 1]);
    }
  }

  /** What the main loop has taken but not yet launched or given back. */
  function Held(s: State): nat {
    Weight(s.main.Reserved? || s.main.Ready? || s.main.ForkFailed?)
  }

  lemma {:induction false} LaunchesNeedSlots(s: State, es: seq<Event>)
    requires Run(s, es)
    ensures |End(s, es).waiters| + Held(End(s, es)) <= |s.waiters| + Held(s) + TakenIn(s, es)
    decreases |es|
  {
    if es != [] {
      LaunchesNeedSlots(Step(s, es[0]), es[1..]);
    }
  }

  /** The inner loop of main() cannot launch forever: from a state in which the main loop
      holds nothing, it launches no more tasks than there were free slots and releases. */
  lemma LaunchBound(s: State, es: seq<Event>)
    requires Run(s, es) && s.main.Idle?
    ensures |End(s, es).waiters| - |s.waiters| <= MAXTASKS - NUsed(s) + FreedIn(s, es)
  {
    LaunchesNeedSlots(s, es);
    SlotsConserved(s, es);
  }

  /* No slot leak */

  /** Somebody who is still going to free slot i, unless he is killed. */
  predicate Answerable(s: State, i: SlotIndex) {
    MainHolds(s, i) ||
    (s.owner[i].Launch? && s.owner[i].waiter < |s.waiters| &&
     s.waiters[s.owner[i].waiter].slot == i && s.waiters[s.owner[i].waiter].pc != Ended)
  }

  predicate Accounted(s: State) {
    forall i: SlotIndex :: s.shared.slots[i].used ==> Answerable(s, i)
  }

  predicate MainEvent(e: Event) {
    e.TakeSlot? || e.FillSlot? || e.DropSlot? || e.ForkWaiter? || e.ForkWaiterFails? || e.GiveUp?
  }

  lemma MainKeepsAccount(s: State, e: Event, i: SlotIndex)
    requires Possible(s, e) && MainEvent(e) && (s.shared.slots[i].used ==> Answerable(s, i))
    requires Step(s, e).shared.slots[i].used
    ensures Answerable(Step(s, e), i)
  {
  }

  /** Apart from the main loop, nobody takes a slot, and a waiter that ends has freed its own. */
  lemma OthersKeepAccount(s: State, e: Event, i: SlotIndex)
    requires Possible(s, e) && !MainEvent(e) && (s.shared.slots[i].used ==> Answerable(s, i))
    requires Step(s, e).shared.slots[i].used
    ensures Answerable(Step(s, e), i)
  {
    assert s.shared.slots[i].used;
  }

  lemma StepAccounted(s: State, e: Event)
    requires Possible(s, e) && Accounted(s)
    ensures Accounted(Step(s, e))
  {
    forall i: SlotIndex | Step(s, e).shared.slots[i].used ensures Answerable(Step(s, e), i) {
      if MainEvent(e) {
        MainKeepsAccount(s, e, i);
      } else {
        OthersKeepAccount(s, e, i);
      }
    }
  }

  lemma {:induction false} RunAccounted(s: State, es: seq<Event>)
    requires Run(s, es) && Accounted(s)
    ensures Accounted(End(s, es))
    decreases |es|
  {
    if es != [] {
      StepAccounted(s, es[0]);
      RunAccounted(Step(s, es[0]), es[1..]);
    }
  }

  predicate NobodyKilled(s: State) {
    forall w | 0 <= w < |s.waiters| :: s.waiters[w].pc != Killed
  }

  lemma {:induction false} RunKillsNobody(s: State, es: seq<Event>)
    requires Run(s, es) && NoKill(es) && NobodyKilled(s)
    ensures NobodyKilled(End(s, es))
    decreases |es|
  {
    if es != [] {
      assert !es[0].KillWaiter?;
      assert NobodyKilled(Step(s, es[0]));
      assert NoKill(es[1..]) by {
        forall k | 0 <= k < |es[1..]| ensures !es[1..][k].KillWaiter? {
          assert es[1..][k] == es[k + 1];
        }
      }
      RunKillsNobody(Step(s, es[0]), es[1..]);
    }
  }

  /** No slot leak, for every interleaving: while no waiter is killed, a used slot is pending in
      the main loop or belongs to the unfinished waiter of its latest launch. */
  lemma NoSlotLeak(now: Time, es: seq<Event>, i: SlotIndex)
    requires Run(Boot(now), es) && NoKill(es)
    requires End(Boot(now), es).shared.slots[i].used
    ensures var s := End(Boot(now), es);
            MainHolds(s, i) ||
            exists w: nat :: w < |s.waiters| && s.owner[i] == Launch(w) && s.waiters[w].slot == i && s.waiters[w].Unfinished()
  {
    RunAccounted(Boot(now), es);
    RunKillsNobody(Boot(now), es);
    var s := End(Boot(now), es);
    if !MainHolds(s, i) {
      var w := s.owner[i].waiter;
      assert s.waiters[w].Unfinished();
    }
  }

  /** Once every waiter has ended and the main loop holds nothing, all slots are free again. */
  lemma AllEndedAllFree(now: Time, es: seq<Event>)
    requires Run(Boot(now), es)
    requires AllEnded(End(Boot(now), es)) && Held(End(Boot(now), es)) == 0
    ensures forall i: SlotIndex :: !End(Boot(now), es).shared.slots[i].used
    ensures NUsed(End(Boot(now), es)) == 0
  {
    RunAccounted(Boot(now), es);
    CountZero(End(Boot(now), es).shared.slots, IsUsed);
  }
}
