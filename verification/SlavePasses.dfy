/**
  The passes of the consistency process: every pass visits all slots and comes to rest
  after a bounded number of its own statements, whatever the other processes do, and a
  pass nobody disturbs does to every slot what one iteration should do to it.
  */
module SlavePasses {
  import opened TaskSlots
  import opened SlaveProtocol

  /* Progress */

  /** No iteration has more statements than this, and no pass more than MAXTASKS times as many. */
  const ITERATION: nat := 7
  const PASS: nat := ITERATION * MAXTASKS

  /** An upper bound for the statements left before the process rests. */
  function Remaining(pc: CheckerPc): nat {
    match pc
    case Resting => 0
    case AskUsed(i) => (MAXTASKS - i) * ITERATION
    case AskPid(i) => (MAXTASKS - i) * ITERATION - 1
    case AskAlive(i, _) => (MAXTASKS - i) * ITERATION - 2
    case AskNow(i, _) => (MAXTASKS - i) * ITERATION - 3
    case AskStatus(i, _, _) => (MAXTASKS - i) * ITERATION - 4
    case AskStart(i, _, _) => (MAXTASKS - i) * ITERATION - 5
    case Freeing(i, _) => (MAXTASKS - i) * ITERATION - 6
    case AskUsedAgain(i) => (MAXTASKS - i) * ITERATION - 3
    case AskLoading(i) => (MAXTASKS - i) * ITERATION - 4
    case Promoting(i) => (MAXTASKS - i) * ITERATION - 5
  }

  lemma CheckerAdvances(s: State, clockWorks: bool)
    requires s.checker != Resting
    ensures Remaining(CheckerStep(s, clockWorks).checker) < Remaining(s.checker)
  {
  }

  lemma OthersWait(s: State, e: Event)
    requires Possible(s, e) && !e.Check?
    ensures Step(s, e).checker == s.checker
  {
  }

  /** The statements of the consistency process in a run. */
  function Checks(es: seq<Event>): nat {
    if es == [] then 0 else Weight(es[0].Check?) + Checks(es[1..])
  }

  lemma {:induction false} ChecksGlued(es: seq<Event>, fs: seq<Event>)
    ensures Checks(es + fs) == Checks(es) + Checks(fs)
  {
    if es == [] {
      assert es + fs == fs;
    } else {
      assert (es + fs)[1..] == es[1..] + fs;
      ChecksGlued(es[1..], fs);
    }
  }

  /** In every interleaving, enough statements of the consistency process bring it to rest: the run
      up to that moment holds no more of them than were left. */
  lemma {:induction false} ComesToRest(s: State, es: seq<Event>) returns (n: nat)
    requires Run(s, es) && Checks(es) >= Remaining(s.checker)
    ensures n <= |es| && Run(s, es[..n]) && Run(End(s, es[..n]), es[n..])
    ensures End(End(s, es[..n]), es[n..]) == End(s, es)
    ensures End(s, es[..n]).checker == Resting && Checks(es[..n]) <= Remaining(s.checker)
    decreases |es|
  {
    if s.checker == Resting {
      n := 0;
      assert es[..0] == [] && es[0..] == es;
    } else {
      var e := es[0];
      if e.Check? {
        CheckerAdvances(s, e.clockWorks);
      } else {
        OthersWait(s, e);
      }
      var m := ComesToRest(Step(s, e), es[1..]);
      n := m + 1;
      assert es[..n] == [e] + es[1..][..m] && es[n..] == es[1..][m..];
      assert es[..n][1..] == es[1..][..m];
    }
  }

  /** Every run with PASS statements of the consistency process passes through its rest. */
  lemma PassEnds(s: State, es: seq<Event>) returns (n: nat)
    requires Run(s, es) && Checks(es) >= PASS
    ensures n <= |es| && Run(s, es[..n]) && End(s, es[..n]).checker == Resting
  {
    assert Remaining(s.checker) <= PASS;
    n := ComesToRest(s, es);
  }

  /* A pass nobody disturbs */

  /** Nothing but statements of the consistency process, up to its first rest; the clock reading
      for slot i fails unless works[i]. */
  predicate Undisturbed(s: State, es: seq<Event>, works: seq<bool>)
    requires Run(s, es) && |works| == MAXTASKS
    decreases |es|
  {
    if es == [] then s.checker == Resting
    else
      && s.checker != Resting
      && es[0].Check?
      && (s.checker.AskNow? ==> es[0].clockWorks == works[s.checker.i])
      && Undisturbed(Step(s, es[0]), es[1..], works)
  }

  function Readings(now: Time, works: seq<bool>): (times: seq<Clock>)
    ensures |times| == |works|
    ensures forall i | 0 <= i < |works| :: times[i] == if works[i] then now else -1
  {
    seq(|works|, i requires 0 <= i < |works| => if works[i] then now else -1)
  }

  /** What the process has found out about the slot of this iteration. */
  predicate Knows(pc: CheckerPc, slot: Slot, dead: set<int>, now: Clock) {
    match pc
    case Resting => true
    case AskUsed(_) => true
    case AskPid(_) => slot.used
    case AskAlive(_, pid) => slot.used && pid == slot.pid
    case AskNow(_, _) => slot.used && Gone(dead, slot.pid)
    case AskStatus(_, _, reading) => slot.used && Gone(dead, slot.pid) && reading == now
    case AskStart(_, _, stamp) => slot.used && Gone(dead, slot.pid) && slot.status != Loading && stamp == now
    case Freeing(_, _) => slot.used && Gone(dead, slot.pid) && !Protected(slot, now)
    case AskUsedAgain(_) => !slot.used || !Gone(dead, slot.pid)
    case AskLoading(_) => slot.used && !Gone(dead, slot.pid)
    case Promoting(_) => slot.used && !Gone(dead, slot.pid) && slot.status == Loading
  }

  /** The slots the pass has visited; MAXTASKS at rest. */
  function Visited(pc: CheckerPc): nat {
    if pc == Resting then MAXTASKS else pc.i
  }

  /** In the middle of a pass over the slots of before. */
  predicate Passing(before: State, s: State, times: seq<Clock>)
    requires |times| == MAXTASKS
  {
    && s == before.(shared := before.shared.(slots := s.shared.slots), checker := s.checker)
    && (forall j | 0 <= j < Visited(s.checker) :: s.shared.slots[j] == Checked(before.shared.slots[j], before.dead, times[j]))
    && (forall j | Visited(s.checker) <= j < MAXTASKS :: s.shared.slots[j] == before.shared.slots[j])
    && (s.checker != Resting ==>
          Knows(s.checker, before.shared.slots[s.checker.i], before.dead, times[s.checker.i]))
  }

  predicate Writes(pc: CheckerPc) {
    pc.Freeing? || pc.Promoting?
  }

  predicate Judges(pc: CheckerPc) {
    pc.AskNow? || pc.AskStatus? || pc.AskStart?
  }

  lemma LookPassing(before: State, s: State, works: seq<bool>, e: Event)
    requires |works| == MAXTASKS && Passing(before, s, Readings(before.now, works))
    requires s.checker != Resting && e.Check? && !Judges(s.checker) && !Writes(s.checker)
    ensures Passing(before, Step(s, e), Readings(before.now, works))
  {
    var i := s.checker.i;
    CheckedSlot(before.shared.slots[i], before.dead, Readings(before.now, works)[i]);
  }

  lemma JudgePassing(before: State, s: State, works: seq<bool>, e: Event)
    requires |works| == MAXTASKS && Passing(before, s, Readings(before.now, works))
    requires Judges(s.checker) && e.Check? && (s.checker.AskNow? ==> e.clockWorks == works[s.checker.i])
    ensures Passing(before, Step(s, e), Readings(before.now, works))
  {
    var i := s.checker.i;
    CheckedSlot(before.shared.slots[i], before.dead, Readings(before.now, works)[i]);
    if s.checker.AskStart? {
      YoungMeansRecent(s.checker.stamp, before.shared.slots[i].start);
    }
  }

  lemma WritePassing(before: State, s: State, works: seq<bool>, e: Event)
    requires |works| == MAXTASKS && Passing(before, s, Readings(before.now, works))
    requires Writes(s.checker) && e.Check?
    ensures Passing(before, Step(s, e), Readings(before.now, works))
  {
    var i := s.checker.i;
    CheckedSlot(before.shared.slots[i], before.dead, Readings(before.now, works)[i]);
  }

  lemma {:induction false} RunPassing(before: State, s: State, es: seq<Event>, works: seq<bool>)
    requires Run(s, es) && |works| == MAXTASKS && Undisturbed(s, es, works)
    requires Passing(before, s, Readings(before.now, works))
    ensures Passing(before, End(s, es), Readings(before.now, works)) && End(s, es).checker == Resting
    decreases |es|
  {
    if es != [] {
      if Writes(s.checker) {
        WritePassing(before, s, works, es[0]);
      } else if Judges(s.checker) {
        JudgePassing(before, s, works, es[0]);
      } else {
        LookPassing(before, s, works, es[0]);
      }
      RunPassing(before, Step(s, es[0]), es[1..], works);
    }
  }

  /** Left alone from its first slot to its rest, the consistency process makes of the slots what
      one pass over the array makes of them, and changes nothing else. */
  lemma UndisturbedPass(s: State, es: seq<Event>, works: seq<bool>)
    requires Run(s, es) && |works| == MAXTASKS
    requires s.checker == AskUsed(0) && Undisturbed(s, es, works)
    ensures var times := Readings(s.now, works);
            End(s, es) == s.(shared := s.shared.(slots := Passed(s.shared.slots, s.dead, times)), checker := Resting)
  {
    var times := Readings(s.now, works);
    RunPassing(s, s, es, works);
    assert End(s, es).shared.slots == Passed(s.shared.slots, s.dead, times);
  }

  /** There is such a pass from every state, for all clock readings, and it is short. */
  lemma {:induction false} PassExists(s: State, works: seq<bool>) returns (es: seq<Event>)
    requires |works| == MAXTASKS
    ensures Run(s, es) && Undisturbed(s, es, works) && |es| <= Remaining(s.checker)
    decreases Remaining(s.checker)
  {
    es := [];
    if s.checker != Resting {
      var works0 := if s.checker.AskNow? then works[s.checker.i] else true;
      CheckerAdvances(s, works0);
      es := PassExists(Step(s, Check(works0)), works);
      assert ([Check(works0)] + es)[1..] == es;
      es := [Check(works0)] + es;
    }
  }
}
