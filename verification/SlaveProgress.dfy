/**
  Nobody is stuck: what the main loop and the waiters can do next, and how any run without
  killed waiters can be continued until every slot is free again.
  */
module SlaveProgress {
  import opened SlaveAccounting
  import opened SlaveProtocol
  import opened TaskSlots

  /** What the main loop may do next: it always can go on, takes a slot exactly if one is free, and
      then only the first; once it has given up, it launches nothing more. */
  lemma MainChoices(s: State, start: Time)
    ensures s.main.Idle? ==> Possible(s, SweepTasks)
    ensures s.main.Idle? ==> (Full(s.shared.slots) <==> forall i: SlotIndex :: !Possible(s, TakeSlot(i)))
    ensures forall i: SlotIndex, j: SlotIndex :: Possible(s, TakeSlot(i)) && Possible(s, TakeSlot(j)) ==> i == j
    ensures s.main.Reserved? ==> Possible(s, FillSlot(start)) && Possible(s, DropSlot)
    ensures s.main.Ready? ==> Possible(s, ForkWaiter) && Possible(s, ForkWaiterFails)
    ensures s.main.ForkFailed? ==> Possible(s, GiveUp)
    ensures s.main.MainExited? ==>
              forall e :: Possible(s, e) ==> Step(s, e).main == MainExited && |Step(s, e).waiters| == |s.waiters|
  {
    var slots := s.shared.slots;
    if s.main.Idle? && !Full(slots) {
      var i := FindFree(slots, 0);
      assert Possible(s, TakeSlot(i));
    }
  }

  lemma {:induction false} FindFree(slots: seq<Slot>, from: nat) returns (i: nat)
    requires from <= |slots| && (forall j | 0 <= j < from :: slots[j].used) && !Full(slots)
    ensures FirstFree(slots, i)
    decreases |slots| - from
  {
    assert from < |slots|;
    if slots[from].used {
      i := FindFree(slots, from + 1);
    } else {
      i := from;
    }
  }

  /** A waiter waits for a task that is there, or for none; what it has reaped has ended. */
  predicate Usable(s: State) {
    && (forall w | 0 <= w < |s.waiters| ::
          && (s.waiters[w].pc == Forked || s.waiters[w].pc == Waiting ==>
                s.waiters[w].pid == -1 || s.waiters[w].pid in s.pids)
          && (s.waiters[w].pc == Reaped ==> s.waiters[w].pid in s.ended))
    && -1 !in s.pids
  }

  lemma {:induction false} RunUsable(s: State, es: seq<Event>)
    requires Run(s, es) && Usable(s)
    ensures Usable(End(s, es))
    decreases |es|
  {
    if es != [] {
      StepUsable(s, es[0]);
      RunUsable(Step(s, es[0]), es[1..]);
    }
  }

  lemma StepUsable(s: State, e: Event)
    requires Possible(s, e) && Usable(s)
    ensures Usable(Step(s, e))
  {
    var t := Step(s, e);
    assert s.pids <= t.pids && s.ended.Keys <= t.ended.Keys;
    forall w | 0 <= w < |t.waiters|
      ensures t.waiters[w].pc == Forked || t.waiters[w].pc == Waiting ==>
                t.waiters[w].pid == -1 || t.waiters[w].pid in t.pids
      ensures t.waiters[w].pc == Reaped ==> t.waiters[w].pid in t.ended
    {
    }
  }

  /* Winding down */

  function Distance(pc: WaiterPc): nat {
    match pc
    case Started => 7
    case Forked => 6
    case Waiting => 5
    case Reaped => 3
    case Reporting => 2
    case Reported => 1
    case NoChild => 1
    case _ => 0
  }

  /** Statements left before waiter w has ended, its task's end included. */
  function Left(s: State, w: nat): nat
    requires w < |s.waiters|
  {
    2 * Distance(s.waiters[w].pc) + Weight(s.waiters[w].pc == Waiting && s.waiters[w].pid !in s.ended)
  }

  /** Nothing but waiter w changes among the waiters. */
  predicate Aside(s: State, t: State, w: nat) {
    && w < |s.waiters| == |t.waiters|
    && t.main == s.main
    && forall v | 0 <= v < |s.waiters| && v != w :: t.waiters[v] == s.waiters[v]
  }

  /** An unfinished waiter can always go on, or its task can end. */
  lemma WaiterAdvances(s: State, w: nat) returns (e: Event)
    requires Usable(s) && w < |s.waiters| && s.waiters[w].Unfinished()
    ensures Possible(s, e) && !e.KillWaiter? && Aside(s, Step(s, e), w)
    ensures Left(Step(s, e), w) < Left(s, w) && Step(s, e).waiters[w].pc != Killed
  {
    var me := s.waiters[w];
    match me.pc
    case Started => e := ForkTaskFails(w);
    case Forked => e := RegisterTask(w);
    case Waiting =>
      if me.pid == -1 {
        e := WaitFails(w);
      } else if me.pid in s.ended {
        e := Reap(w);
      } else {
        e := TaskEnds(me.pid, 0);
      }
    case Reaped => e := MarkTask(w);
    case Reporting => e := ReportTask(w, true);
    case Reported => e := ReleaseSlot(w);
    case NoChild => e := WithdrawTask(w);
  }

  lemma NoKillGlued(es: seq<Event>, fs: seq<Event>)
    requires NoKill(es) && NoKill(fs)
    ensures NoKill(es + fs)
  {
  }

  lemma {:induction false} WaiterEnds(s: State, w: nat) returns (es: seq<Event>)
    requires Usable(s) && w < |s.waiters| && s.waiters[w].pc != Killed
    ensures Run(s, es) && NoKill(es) && Usable(End(s, es))
    ensures Aside(s, End(s, es), w) && End(s, es).waiters[w].pc == Ended
    decreases Left(s, w)
  {
    es := [];
    if s.waiters[w].pc != Ended {
      var e := WaiterAdvances(s, w);
      StepUsable(s, e);
      var rest := WaiterEnds(Step(s, e), w);
      assert ([e] + rest)[1..] == rest;
      NoKillGlued([e], rest);
      es := [e] + rest;
    }
  }

  lemma {:induction false} WaitersEnd(s: State, from: nat) returns (es: seq<Event>)
    requires Usable(s) && from <= |s.waiters| && NobodyKilled(s)
    requires forall w | 0 <= w < from :: s.waiters[w].pc == Ended
    ensures Run(s, es) && NoKill(es) && AllEnded(End(s, es)) && End(s, es).main == s.main
    decreases |s.waiters| - from
  {
    es := [];
    if from < |s.waiters| {
      es := WaiterEnds(s, from);
      var t := End(s, es);
      assert forall w | 0 <= w < |t.waiters| :: w != from ==> t.waiters[w] == s.waiters[w];
      var rest := WaitersEnd(t, from + 1);
      RunSplit(s, es, rest);
      NoKillGlued(es, rest);
      es := es + rest;
    }
  }

  /** The main loop lets go of the slot it holds. */
  lemma MainLetsGo(s: State) returns (es: seq<Event>)
    ensures Run(s, es) && NoKill(es) && Held(End(s, es)) == 0
  {
    MainChoices(s, 0);
    es := [];
    if s.main.Reserved? {
      RunOne(s, es, DropSlot); es := es + [DropSlot];
    } else if s.main.Ready? {
      RunOne(s, es, ForkWaiter); es := es + [ForkWaiter];
    } else if s.main.ForkFailed? {
      RunOne(s, es, GiveUp); es := es + [GiveUp];
    }
  }

  /** However a run without killed waiters got where it is, it can be continued, without killing
      anybody, until all waiters have ended and all slots are free. */
  lemma WindDown(now: Time, es: seq<Event>) returns (more: seq<Event>)
    requires Run(Boot(now), es) && NoKill(es)
    ensures Run(Boot(now), es + more) && NoKill(es + more)
    ensures var t := End(Boot(now), es + more);
            AllEnded(t) && UsedSlots(t.shared.slots) == {}
  {
    var s := End(Boot(now), es);
    RunUsable(Boot(now), es);
    more := MainLetsGo(s);
    var t := End(s, more);
    RunUsable(s, more);
    RunSplit(Boot(now), es, more);
    NoKillGlued(es, more);
    RunKillsNobody(Boot(now), es + more);
    var rest := WaitersEnd(t, 0);
    RunSplit(Boot(now), es + more, rest);
    NoKillGlued(es + more, rest);
    assert es + more + rest == es + (more + rest);
    more := more + rest;
    AllEndedAllFree(now, es + more);
  }
}
