/**
  The sweep of check_lastconn_times() over the master's computers, slot by slot under
  the semaphore, while connection handlers refresh, register and remove computers in
  between.
  */
module MasterReaper {

  const MAXCOMPUTERS: nat := 100
  const MAXTIMENOCONN: int := 240

  /** time() as it fits the uint32_t lastconn. */
  type Time = t: int | 0 <= t < 0x1_0000_0000

  /** data stands for the limits and the status of a computer. */
  datatype Computer = Computer(used: bool, lastconn: Time, data: int)

  const INITIAL_DATA: int := 0

  type Computers = s: seq<Computer> | |s| == MAXCOMPUTERS witness seq(MAXCOMPUTERS, _ => Computer(false, 0, 0))

  type Index = i: int | 0 <= i < MAXCOMPUTERS

  /** computer_free(): everything is initialised except lastconn. */
  function Freed(c: Computer): Computer {
    c.(used := false, data := INITIAL_DATA)
  }

  /** now - lastconn is signed: a computer refreshed after now was sampled is not stale. */
  predicate Stale(c: Computer, now: Time) {
    now - c.lastconn > MAXTIMENOCONN
  }

  /** What the sweep makes of the computer it has locked. */
  function Reaped(c: Computer, now: Time): Computer {
    if c.used && Stale(c, now) then Freed(c) else c
  }

  /* The step system */

  datatype Sweep = Resting | At(i: Index, now: Time)

  datatype State = State(computers: Computers, clock: Time, sweep: Sweep)

  datatype Event =
    | Tick(clock: Time)
    | Refresh(i: Index)           // handle_request_master(), whether or not the slot is still used
    | Register(i: Index)          // handle_r_r_register()
    | RegisterFails(i: Index)     // handle_r_r_register() when the connection breaks: all under one lock
    | SlaveExits(i: Index)        // handle_r_r_slavexit() for a used computer that names itself
    | Update(i: Index, data: int) // a request that writes anything else of a computer
    | StartSweep
    | SweepSlot

  predicate Possible(s: State, e: Event) {
    match e
    case Tick(clock) => s.clock <= clock
    case StartSweep => s.sweep.Resting?
    case SweepSlot => s.sweep.At?
    case SlaveExits(i) => s.computers[i].used
    case _ => true
  }

  function Put(s: State, i: Index, c: Computer): State {
    s.(computers := s.computers[i := c])
  }

  function Step(s: State, e: Event): State
    requires Possible(s, e)
  {
    match e
    case Tick(clock) => s.(clock := clock)
    case Refresh(i) => Put(s, i, s.computers[i].(lastconn := s.clock))
    case Register(i) => Put(s, i, Computer(true, s.clock, INITIAL_DATA))
    case RegisterFails(i) => Put(s, i, Freed(Computer(true, s.clock, INITIAL_DATA)))
    case SlaveExits(i) => Put(s, i, Freed(s.computers[i]))
    case Update(i, data) => Put(s, i, s.computers[i].(data := data))
    case StartSweep => s.(sweep := At(0, s.clock))
    case SweepSlot =>
      var i, now := s.sweep.i, s.sweep.now;
      Put(s, i, Reaped(s.computers[i], now)).(sweep := if i + 1 < MAXCOMPUTERS then At(i + 1, now) else Resting)
  }

  predicate Run(s: State, es: seq<Event>)
    decreases |es|
  {
    es == [] || (Possible(s, es[0]) && Run(Step(s, es[0]), es[1..]))
  }

  function End(s: State, es: seq<Event>): State
    requires Run(s, es)
    decreases |es|
  {
    if es == [] then s else End(Step(s, es[0]), es[1..])
  }

  /** The rest of one sweep: no new sweep begins. */
  predicate OneSweep(es: seq<Event>) {
    forall k | 0 <= k < |es| :: !es[k].StartSweep?
  }

  /** The last word of the handlers on whether computer i is registered; was if they say nothing. */
  function Registered(es: seq<Event>, i: Index, was: bool): bool {
    if es == [] then was
    else
      Registered(es[1..], i,
                 if es[0] == Register(i) then true
                 else if es[0] == RegisterFails(i) || es[0] == SlaveExits(i) then false
                 else was)
  }

  /** Computer i registers or makes contact before the sweep has locked n more computers and then i. */
  predicate Heard(es: seq<Event>, i: Index, n: nat)
    decreases |es|
  {
    if es == [] then false
    else if es[0] == Refresh(i) || es[0] == Register(i) then true
    else if es[0].SweepSlot? then n > 0 && Heard(es[1..], i, n - 1)
    else Heard(es[1..], i, n)
  }

  /** The time of the last contact with computer i: was if there is none, told by the events alone. */
  function LastContact(es: seq<Event>, i: Index, clock: Time, was: Time): Time {
    if es == [] then was
    else if es[0].Tick? then LastContact(es[1..], i, es[0].clock, was)
    else if es[0] == Refresh(i) || es[0] == Register(i) || es[0] == RegisterFails(i) then
      LastContact(es[1..], i, clock, clock)
    else LastContact(es[1..], i, clock, was)
  }

  /** What the handlers last wrote of computer i; removing or registering it resets its data. */
  function LastData(es: seq<Event>, i: Index, was: int): int {
    if es == [] then was
    else if es[0].Update? && es[0].i == i then LastData(es[1..], i, es[0].data)
    else if es[0] == Register(i) || es[0] == RegisterFails(i) || es[0] == SlaveExits(i) then
      LastData(es[1..], i, INITIAL_DATA)
    else LastData(es[1..], i, was)
  }

  /** Over every run, sweeps or not, lastconn is the time of the last contact, for used and unused
      computers alike. */
  lemma {:induction false} ContactRecorded(s: State, es: seq<Event>, i: Index)
    requires Run(s, es)
    ensures End(s, es).computers[i].lastconn == LastContact(es, i, s.clock, s.computers[i].lastconn)
    decreases |es|
  {
    if es != [] {
      ContactRecorded(Step(s, es[0]), es[1..], i);
    }
  }

  /** No sweep in sight: the data of a computer are what the handlers last wrote. */
  lemma {:induction false} DataRecorded(s: State, es: seq<Event>, i: Index)
    requires Run(s, es) && forall k | 0 <= k < |es| :: !es[k].SweepSlot?
    ensures End(s, es).computers[i].data == LastData(es, i, s.computers[i].data)
    decreases |es|
  {
    if es != [] {
      assert !es[0].SweepSlot?;
      forall k | 0 <= k < |es[1..]| ensures !es[1..][k].SweepSlot? {
        assert es[1..][k] == es[k + 1];
      }
      DataRecorded(Step(s, es[0]), es[1..], i);
    }
  }

  /** The locked step changes nothing but a computer that is used and stale then and there: that one
      becomes unused, with the data of a fresh computer and its last contact kept. */
  lemma SweepSlotIsPrecise(s: State, j: Index)
    requires s.sweep.At?
    ensures var before, after := s.computers[j], Step(s, SweepSlot).computers[j];
            && (before.used && !after.used <==> before.used && j == s.sweep.i && before.lastconn < s.sweep.now - 240)
            && (before.used && !after.used ==> after == Computer(false, before.lastconn, INITIAL_DATA))
            && (!(before.used && !after.used) ==> after == before)
  {
  }

  /** Sweeping with the sampled time now: not in the future, and unchanged until the sweep ends. */
  predicate Sweeping(s: State, now: Time) {
    now <= s.clock && (s.sweep.At? ==> s.sweep.now == now)
  }

  /** Used only if it is fresh: the sweep has nothing to object to computer i. */
  predicate Safe(s: State, i: Index, now: Time) {
    s.computers[i].used ==> !Stale(s.computers[i], now)
  }

  lemma OneSweepRest(es: seq<Event>)
    requires OneSweep(es) && es != []
    ensures !es[0].StartSweep? && OneSweep(es[1..])
  {
    forall k | 0 <= k < |es[1..]| ensures !es[1..][k].StartSweep? {
      assert es[1..][k] == es[k + 1];
    }
  }

  /** What is fresh at any point of a sweep is decided by the handlers alone: at every later
      point it is used exactly if their last word was a registration, or they said nothing. */
  lemma {:induction false} HandlersDecide(s: State, es: seq<Event>, i: Index, now: Time)
    requires Run(s, es) && OneSweep(es)
    requires Sweeping(s, now) && Safe(s, i, now)
    ensures Sweeping(End(s, es), now) && Safe(End(s, es), i, now)
    ensures End(s, es).computers[i].used <==> Registered(es, i, s.computers[i].used)
    decreases |es|
  {
    if es != [] {
      OneSweepRest(es);
      HandlersDecide(Step(s, es[0]), es[1..], i, now);
    }
  }

  /** A stale computer the sweep has yet to reach. */
  lemma {:induction false} StaleIsFreed(s: State, es: seq<Event>, i: Index, now: Time)
    requires Run(s, es) && OneSweep(es) && End(s, es).sweep.Resting?
    requires Sweeping(s, now) && s.sweep.At? && s.sweep.i <= i
    requires s.computers[i].used && Stale(s.computers[i], now)
    ensures End(s, es).computers[i].used <==> Registered(es, i, Heard(es, i, i - s.sweep.i))
    decreases |es|
  {
    OneSweepRest(es);
    var e := es[0];
    var t := Step(s, e);
    if t.computers[i] == s.computers[i] || (t.computers[i].used && Stale(t.computers[i], now)) {
      StaleIsFreed(t, es[1..], i, now);
    } else {
      HandlersDecide(t, es[1..], i, now);
    }
  }

  /** One complete sweep, in every interleaving with every handler.  At its end computer i is
      registered exactly if the last word of the handlers says so; where they have none, if it was used
      at the start and either had been in contact within 240 seconds of the sampled time or made
      contact before the sweep locked it. */
  lemma SweepDecides(s: State, es: seq<Event>, i: Index)
    requires s.sweep.Resting?
    requires Run(Step(s, StartSweep), es) && OneSweep(es) && End(Step(s, StartSweep), es).sweep.Resting?
    ensures var before := s.computers[i];
            var spared := before.used && (before.lastconn >= s.clock - 240 || Heard(es, i, i));
            End(Step(s, StartSweep), es).computers[i].used <==> Registered(es, i, spared)
  {
    var t := Step(s, StartSweep);
    if s.computers[i].used && Stale(s.computers[i], s.clock) {
      StaleIsFreed(t, es, i, s.clock);
    } else {
      HandlersDecide(t, es, i, s.clock);
    }
  }

  /** No registration of computer i breaks off and its slave does not exit. */
  predicate NoDeparture(es: seq<Event>, i: Index) {
    forall k | 0 <= k < |es| :: es[k] != RegisterFails(i) && es[k] != SlaveExits(i)
  }

  lemma {:induction false} NoDepartureStays(es: seq<Event>, i: Index)
    requires NoDeparture(es, i)
    ensures Registered(es, i, true)
  {
    if es != [] {
      assert es[0] != RegisterFails(i) && es[0] != SlaveExits(i);
      forall k | 0 <= k < |es[1..]| ensures es[1..][k] != RegisterFails(i) && es[1..][k] != SlaveExits(i) {
        assert es[1..][k] == es[k + 1];
      }
      NoDepartureStays(es[1..], i);
    }
  }

  /** A computer that makes contact while it is used, or registers, at any point of the sweep is
      used at every later point of it, unless it leaves of itself. */
  lemma ContactSaves(s: State, before: seq<Event>, after: seq<Event>, i: Index, now: Time, contact: Event)
    requires Run(s, before) && Sweeping(s, now) && OneSweep(before)
    requires contact == Register(i) || (contact == Refresh(i) && End(s, before).computers[i].used)
    requires Run(Step(End(s, before), contact), after) && OneSweep(after) && NoDeparture(after, i)
    ensures End(Step(End(s, before), contact), after).computers[i].used
  {
    SweepingLasts(s, before, now);
    HandlersDecide(Step(End(s, before), contact), after, i, now);
    NoDepartureStays(after, i);
  }

  lemma {:induction false} SweepingLasts(s: State, es: seq<Event>, now: Time)
    requires Run(s, es) && Sweeping(s, now) && OneSweep(es)
    ensures Sweeping(End(s, es), now)
    decreases |es|
  {
    if es != [] {
      OneSweepRest(es);
      SweepingLasts(Step(s, es[0]), es[1..], now);
    }
  }

  /** The rest of a sweep with no handler at work. */
  lemma {:induction false} SweepToEnd(s: State) returns (es: seq<Event>)
    requires s.sweep.At?
    ensures Run(s, es) && End(s, es).sweep.Resting? && forall k | 0 <= k < |es| :: es[k] == SweepSlot
    decreases MAXCOMPUTERS - s.sweep.i
  {
    es := [];
    var t := Step(s, SweepSlot);
    if t.sweep.At? {
      es := SweepToEnd(t);
    }
    assert ([SweepSlot] + es)[1..] == es;
    es := [SweepSlot] + es;
  }

  lemma {:induction false} SweepSaysNothing(es: seq<Event>, i: Index, was: bool)
    requires forall k | 0 <= k < |es| :: es[k] == SweepSlot
    ensures Registered(es, i, was) == was
  {
    if es != [] {
      assert es[0] == SweepSlot;
      SweepSaysNothing(es[1..], i, was);
    }
  }

  /** Freshness alone saves nobody: whatever the master knows of a used computer, there is a sweep in
      which it makes contact, asks to leave, and is gone at the end. */
  lemma FreshComputerLeaves(s: State, i: Index) returns (es: seq<Event>)
    requires s.sweep.Resting? && s.computers[i].used
    ensures Run(Step(s, StartSweep), es) && OneSweep(es) && End(Step(s, StartSweep), es).sweep.Resting?
    ensures Heard(es, i, i) && !End(Step(s, StartSweep), es).computers[i].used
  {
    var t := Step(s, StartSweep);
    var left := Step(Step(t, Refresh(i)), SlaveExits(i));
    var rest := SweepToEnd(left);
    es := [Refresh(i), SlaveExits(i)] + rest;
    assert es[1..] == [SlaveExits(i)] + rest && es[1..][1..] == rest;
    HandlersDecide(left, rest, i, s.clock);
    SweepSaysNothing(rest, i, false);
  }

  /** The loop in place, with no handler at work. */
  method CheckLastconnTimes(computers: array<Computer>, now: Time)
    requires computers.Length == MAXCOMPUTERS
    modifies computers
    ensures forall i | 0 <= i < MAXCOMPUTERS :: computers[i] == Reaped(old(computers[i]), now)
    ensures forall i | 0 <= i < MAXCOMPUTERS ::
              var before := old(computers[i]);
              computers[i] == if before.used && before.lastconn < now - 240
                              then Computer(false, before.lastconn, INITIAL_DATA) else before
  {
    for i := 0 to MAXCOMPUTERS
      invariant forall j | 0 <= j < i :: computers[j] == Reaped(old(computers[j]), now)
      invariant forall j | i <= j < MAXCOMPUTERS :: computers[j] == old(computers[j])
    {
      if computers[i].used {
        if now - computers[i].lastconn > MAXTIMENOCONN {
          computers[i] := Freed(computers[i]);
        }
      }
    }
  }
}
