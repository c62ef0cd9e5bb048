/**
  The task slots a slave keeps in shared memory, and what every locked section
  does to them, as functions on values.  The class in SlaveComputer.dfy performs these
  sections in place; the processes of SlaveProtocol.dfy interleave them.
  */
module TaskSlots {
  import opened ExitStatus

  const MAXTASKS: nat := 32
  const MAXTASKLOADINGTIME: int := 60
  const TWO_64: int := 0x1_0000_0000_0000_0000

  /** A clock reading that did not fail (a non-negative time_t). */
  type Time = t: int | 0 <= t < 0x8000_0000_0000_0000

  /** What time() returned: -1 on failure. */
  type Clock = t: int | -1 <= t < 0x8000_0000_0000_0000

  datatype Status = Loading | Running | Finished

  datatype Slot = Slot(used: bool, status: Status, pid: int, start: Time, exitstatus: bv16)

  const EMPTY_SLOT := Slot(false, Loading, 0, 0, 0)

  type Slots = s: seq<Slot> | |s| == MAXTASKS witness seq(MAXTASKS, _ => EMPTY_SLOT)

  /** The part of the shared structure the slave's processes compete for. */
  datatype Shared = Shared(slots: Slots, ntasks: nat, nrunning: nat)

  predicate IsUsed(slot: Slot) {
    slot.used
  }

  predicate IsRunning(slot: Slot) {
    slot.used && slot.status != Finished
  }

  function Weight(b: bool): nat {
    if b then 1 else 0
  }

  /* Counting slots */

  function Count(slots: seq<Slot>, p: Slot -> bool): (n: nat)
    ensures n <= |slots|
  {
    if slots == [] then 0
    else Count(slots[..|slots| - 1], p) + Weight(p(slots[|slots| - 1]))
  }

  lemma CountPrefix(slots: seq<Slot>, n: nat, p: Slot -> bool)
    requires n < |slots|
    ensures Count(slots[..n + 1], p) == Count(slots[..n], p) + Weight(p(slots[n]))
  {
    assert slots[..n + 1][..n] == slots[..n];
  }

  lemma {:induction false} CountUpdate(slots: seq<Slot>, i: nat, slot: Slot, p: Slot -> bool)
    requires i < |slots|
    ensures Count(slots[i := slot], p) == Count(slots, p) - Weight(p(slots[i])) + Weight(p(slot))
  {
    var n := |slots| - 1;
    if i == n {
      assert slots[i := slot][..n] == slots[..n];
    } else {
      CountUpdate(slots[..n], i, slot, p);
      assert slots[i := slot][..n] == slots[..n][i := slot];
    }
  }

  /** The counters do not depend on the exitstatus of a slot. */
  lemma CountsIgnoreExitStatus(slots: seq<Slot>, i: nat, exitstatus: bv16)
    requires i < |slots|
    ensures var slots' := slots[i := slots[i].(exitstatus := exitstatus)];
            Count(slots', IsUsed) == Count(slots, IsUsed) && Count(slots', IsRunning) == Count(slots, IsRunning)
  {
    CountUpdate(slots, i, slots[i].(exitstatus := exitstatus), IsUsed);
    CountUpdate(slots, i, slots[i].(exitstatus := exitstatus), IsRunning);
  }

  lemma {:induction false} CountZero(slots: seq<Slot>, p: Slot -> bool)
    ensures Count(slots, p) == 0 <==> forall i | 0 <= i < |slots| :: !p(slots[i])
  {
    if slots != [] {
      var n := |slots| - 1;
      CountZero(slots[..n], p);
      if forall i | 0 <= i < n :: !p(slots[..n][i]) {
        assert forall i | 0 <= i < n :: slots[i] == slots[..n][i];
      } else {
        var i :| 0 <= i < n && p(slots[..n][i]);
        assert p(slots[i]);
      }
    }
  }

  /** The indices of the used slots, and of those whose task is not finished. */
  function UsedSlots(slots: seq<Slot>): set<int> {
    set i | 0 <= i < |slots| && slots[i].used
  }

  function UnfinishedSlots(slots: seq<Slot>): set<int> {
    set i | 0 <= i < |slots| && slots[i].used && (slots[i].status == Loading || slots[i].status == Running)
  }

  function Where(slots: seq<Slot>, p: Slot -> bool): set<int> {
    set i | 0 <= i < |slots| && p(slots[i])
  }

  lemma {:induction false} CountIsSize(slots: seq<Slot>, p: Slot -> bool)
    ensures Count(slots, p) == |Where(slots, p)|
  {
    if slots != [] {
      var n := |slots| - 1;
      CountIsSize(slots[..n], p);
      assert Where(slots, p) == Where(slots[..n], p) + if p(slots[n]) then {n} else {};
    }
  }

  /** What the counters count. */
  lemma CountsAreSizes(slots: seq<Slot>)
    ensures Count(slots, IsUsed) == |UsedSlots(slots)|
    ensures Count(slots, IsRunning) == |UnfinishedSlots(slots)|
  {
    CountIsSize(slots, IsUsed);
    CountIsSize(slots, IsRunning);
    assert UsedSlots(slots) == Where(slots, IsUsed);
    assert UnfinishedSlots(slots) == Where(slots, IsRunning);
  }

  /* Does kill(pid,0) fail? Process groups (0 and -1) contain the slave itself. */

  predicate Gone(dead: set<int>, pid: int) {
    pid > 0 && pid in dead
  }

  /** A slot check_tasks takes away: registered as running, but nobody answers. */
  function Vanished(dead: set<int>): Slot -> bool {
    (slot: Slot) => slot.used && slot.status == Running && Gone(dead, slot.pid)
  }

  /* The locked sections */

  function Recount(sh: Shared): Shared {
    sh.(ntasks := Count(sh.slots, IsUsed), nrunning := Count(sh.slots, IsRunning))
  }

  predicate Full(slots: seq<Slot>) {
    forall i | 0 <= i < |slots| :: slots[i].used
  }

  /** i is the slot task_available() picks. */
  predicate FirstFree(slots: seq<Slot>, i: nat) {
    i < |slots| && !slots[i].used && forall j | 0 <= j < i :: slots[j].used
  }

  /** task_available(): the first unused slot becomes used, keeping its old pid. */
  function Take(sh: Shared, i: nat, now: Time): Shared
    requires FirstFree(sh.slots, i)
  {
    sh.(slots := sh.slots[i := sh.slots[i].(used := true, status := Loading, start := now)])
  }

  /** request_job_available(): the master's task overwrites the whole slot. */
  function Fill(sh: Shared, i: nat, start: Time): Shared
    requires i < MAXTASKS
  {
    Recount(sh.(slots := sh.slots[i := Slot(true, Loading, 0, start, 0)]))
  }

  /** request_job_available() after a broken connection: task_init(). */
  function Reset(sh: Shared, i: nat): Shared
    requires i < MAXTASKS
  {
    sh.(slots := sh.slots[i := EMPTY_SLOT])
  }

  /** used = 0 and nothing else: waiter, main loop and consistency process all do this. */
  function Free(sh: Shared, i: nat): Shared
    requires i < MAXTASKS
  {
    sh.(slots := sh.slots[i := sh.slots[i].(used := false)])
  }

  /** launch_task(): the task's pid is known. */
  function Register(sh: Shared, i: nat, pid: int, now: Time): Shared
    requires i < MAXTASKS
  {
    Recount(sh.(slots := sh.slots[i := sh.slots[i].(status := Loading, start := now, pid := pid)]))
  }

  /** launch_task(): waitpid() failed. */
  function Withdraw(sh: Shared, i: nat): Shared
    requires i < MAXTASKS
  {
    Recount(Free(sh, i))
  }

  /** launch_task(): waitpid() delivered the word rc. */
  function MarkFinished(sh: Shared, i: nat, rc: bv16): Shared
    requires i < MAXTASKS
  {
    Recount(sh.(slots := sh.slots[i := sh.slots[i].(status := Finished, exitstatus := ReportedStatus(rc))]))
  }

  /** slave_consistency_process(): a loading task whose pid answers is running. */
  function Promote(sh: Shared, i: nat): Shared
    requires i < MAXTASKS
  {
    sh.(slots := sh.slots[i := sh.slots[i].(status := Running)])
  }

  function SweptSlot(slot: Slot, dead: set<int>): Slot {
    if Vanished(dead)(slot) then slot.(used := false) else slot
  }

  function Swept(slots: seq<Slot>, dead: set<int>): (r: seq<Slot>)
    ensures |r| == |slots|
    ensures forall i | 0 <= i < |slots| :: r[i] == SweptSlot(slots[i], dead)
  {
    seq(|slots|, i requires 0 <= i < |slots| => SweptSlot(slots[i], dead))
  }

  /** check_tasks(): frees every vanished slot and counts the rest. */
  function CheckTasks(sh: Shared, dead: set<int>): Shared {
    var swept := Swept(sh.slots, dead);
    sh.(slots := swept, ntasks := Count(swept, IsUsed))
  }

  /** The sweep frees exactly the vanished slots. */
  lemma {:induction false} SweptCount(slots: seq<Slot>, dead: set<int>)
    ensures Count(Swept(slots, dead), IsUsed) == Count(slots, IsUsed) - Count(slots, Vanished(dead))
  {
    if slots != [] {
      var n := |slots| - 1;
      SweptCount(slots[..n], dead);
      assert Swept(slots, dead)[..n] == Swept(slots[..n], dead);
    }
  }

  /** The unsigned test now - start < MAXTASKLOADINGTIME: start is a uint64_t, so a start
      later than now wraps to a huge age. */
  predicate StillYoung(now: Time, start: Time) {
    (now - start) % TWO_64 < MAXTASKLOADINGTIME
  }

  lemma YoungMeansRecent(now: Time, start: Time)
    ensures StillYoung(now, start) <==> start <= now < start + 60
  {
    if start <= now {
      assert (now - start) % TWO_64 == now - start;
    } else {
      assert (now - start) % TWO_64 == now - start + TWO_64;
    }
  }

  /** What one undisturbed iteration of slave_consistency_process() makes of a slot. */
  function Checked(slot: Slot, dead: set<int>, now: Clock): Slot {
    if slot.used && Gone(dead, slot.pid) then
      if slot.status != Loading && now != -1 && StillYoung(now, slot.start) then slot
      else slot.(used := false)
    else if slot.used && slot.status == Loading then slot.(status := Running)
    else slot
  }

  /** One undisturbed pass; times[i] is what time() returns when slot i is looked at. */
  function Passed(slots: seq<Slot>, dead: set<int>, times: seq<Clock>): (r: seq<Slot>)
    requires |times| == |slots|
    ensures |r| == |slots| && forall i | 0 <= i < |slots| :: r[i] == Checked(slots[i], dead, times[i])
  {
    seq(|slots|, i requires 0 <= i < |slots| => Checked(slots[i], dead, times[i]))
  }

  /** Registered as running or finished within MAXTASKLOADINGTIME, by a clock that works. */
  predicate Protected(slot: Slot, now: Clock) {
    slot.status != Loading && now != -1 && slot.start <= now < slot.start + MAXTASKLOADINGTIME
  }

  /** What a pass does to one slot, without the wrap-around of its age. */
  lemma CheckedSlot(slot: Slot, dead: set<int>, now: Clock)
    ensures var after := Checked(slot, dead, now);
            && (after.used <==> slot.used && (Gone(dead, slot.pid) ==> Protected(slot, now)))
            && (after.used ==> after.status != Loading)
            && after == slot.(used := after.used, status := after.status)
            && (after.status != slot.status ==> slot.status == Loading && after.status == Running && after.used)
  {
    if now != -1 {
      YoungMeansRecent(now, slot.start);
    }
  }

  /** What a pass achieves, whatever the clock readings: it frees exactly the slots whose pid does not
      answer and that are not protected, leaves no used slot loading, and touches nothing else.
      Another pass finds nothing to do if and only if its own readings still protect every slot
      the first one spared; in particular with the same readings. */
  lemma PassIsPrecise(slots: seq<Slot>, dead: set<int>, times: seq<Clock>, later: seq<Clock>)
    requires |slots| == |times| == |later|
    ensures var after := Passed(slots, dead, times);
            && (forall i | 0 <= i < |slots| ::
                  after[i].used <==> slots[i].used && (Gone(dead, slots[i].pid) ==> Protected(slots[i], times[i])))
            && (forall i | 0 <= i < |slots| :: after[i].used ==> after[i].status != Loading)
            && (forall i | 0 <= i < |slots| :: after[i] == slots[i].(used := after[i].used, status := after[i].status))
            && (Passed(after, dead, later) == after <==>
                  forall i | 0 <= i < |slots| ::
                    after[i].used && Gone(dead, after[i].pid) ==> Protected(after[i], later[i]))
            && Passed(after, dead, times) == after
  {
    var after := Passed(slots, dead, times);
    forall i | 0 <= i < |slots|
      ensures after[i].used <==> slots[i].used && (Gone(dead, slots[i].pid) ==> Protected(slots[i], times[i]))
      ensures after[i].used ==> after[i].status != Loading
      ensures after[i] == slots[i].(used := after[i].used, status := after[i].status)
      ensures Checked(after[i], dead, times[i]) == after[i]
      ensures Checked(after[i], dead, later[i]) == after[i] <==>
                (after[i].used && Gone(dead, after[i].pid) ==> Protected(after[i], later[i]))
    {
      CheckedSlot(slots[i], dead, times[i]);
      CheckedSlot(after[i], dead, times[i]);
      CheckedSlot(after[i], dead, later[i]);
    }
    if Passed(after, dead, later) == after {
      forall i | 0 <= i < |slots| ensures Checked(after[i], dead, later[i]) == after[i] {
        assert Passed(after, dead, later)[i] == after[i];
      }
    }
  }
}
