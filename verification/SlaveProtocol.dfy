/**
  The three kinds of process that share the task slots of a slave, as one step
  system: the main loop, one waiter per launched task and the consistency process.
  A run is any sequence of possible events, so every interleaving is a run.
  A locked section is one event (the semaphore is a mutex); an unlocked read of
  shared memory, a fork, a kill(pid,0) or a waitpid is an event of its own.
  */
module SlaveProtocol {
  import opened ExitStatus
  import opened TaskSlots

  type SlotIndex = i: int | 0 <= i < MAXTASKS

  datatype MainPc =
    | Idle
    | Reserved(slot: SlotIndex)    // task_available() done, the master's task not yet stored
    | Ready(slot: SlotIndex)       // request_job_available() returned 1
    | ForkFailed(slot: SlotIndex)  // no waiter could be forked
    | MainExited

  datatype WaiterPc =
    | Started    // forked, has not yet forked the task process
    | Forked     // knows the task's pid, has not yet registered it
    | Waiting    // in waitpid()
    | NoChild    // waitpid() failed
    | Reaped     // waitpid() returned the task's word
    | Reporting  // slot marked as finished, talking to the master
    | Reported   // about to free the slot
    | Ended
    | Killed

  /** pid and start are the waiter's own task_pid and the time it registered. */
  datatype Waiter = Waiter(slot: SlotIndex, pid: int, start: Time, pc: WaiterPc) {
    predicate Unfinished() {
      pc != Ended && pc != Killed
    }
  }

  /** One value per statement of the loop body of slave_consistency_process(). */
  datatype CheckerPc =
    | AskUsed(i: SlotIndex)
    | AskPid(i: SlotIndex)
    | AskAlive(i: SlotIndex, pid: int)
    | AskNow(i: SlotIndex, pid: int)
    | AskStatus(i: SlotIndex, pid: int, now: Clock)
    | AskStart(i: SlotIndex, pid: int, stamp: Time)
    | Freeing(i: SlotIndex, pid: int)
    | AskUsedAgain(i: SlotIndex)
    | AskLoading(i: SlotIndex)
    | Promoting(i: SlotIndex)
    | Resting

  /** History: to whom a slot was last handed. */
  datatype Owner = Nobody | Reservation | Launch(waiter: nat)

  /** History: which waiter last wrote the exitstatus of a slot. */
  datatype Mark = Unmarked | By(waiter: nat)

  /** What request_task_finished() sent to the master, and the mark of the slot then. */
  datatype Report = Report(waiter: nat, exitstatus: bv16, mark: Mark)

  type Owners = s: seq<Owner> | |s| == MAXTASKS witness seq(MAXTASKS, _ => Nobody)
  type Marks = s: seq<Mark> | |s| == MAXTASKS witness seq(MAXTASKS, _ => Unmarked)

  datatype State = State(
    shared: Shared,
    now: Time,
    main: MainPc,
    waiters: seq<Waiter>,
    checker: CheckerPc,
    pids: set<int>,         // every task pid ever handed out
    ended: map<int, bv16>,  // the word of every task process that has ended
    dead: set<int>,         // ended and reaped: kill(pid,0) fails from now on
    owner: Owners,
    mark: Marks,
    reports: seq<Report>)

  datatype Event =
    | Tick(now: Time)
    | SweepTasks
    | TakeSlot(i: SlotIndex)
    | FillSlot(start: Time)
    | DropSlot
    | ForkWaiter
    | ForkWaiterFails
    | GiveUp
    | ForkTask(w: nat, pid: int)
    | ForkTaskFails(w: nat)
    | RegisterTask(w: nat)
    | Reap(w: nat)
    | WaitFails(w: nat)
    | MarkTask(w: nat)
    | WithdrawTask(w: nat)
    | ReportTask(w: nat, sent: bool)
    | ReleaseSlot(w: nat)
    | KillWaiter(w: nat)
    | TaskEnds(pid: int, rc: bv16)
    | InitReaps(w: nat)
    | Check(clockWorks: bool)

  function Boot(now: Time): State {
    State(Shared(seq(MAXTASKS, _ => EMPTY_SLOT), 0, 0), now, Idle, [], AskUsed(0), {}, map[], {},
          seq(MAXTASKS, _ => Nobody), seq(MAXTASKS, _ => Unmarked), [])
  }

  predicate WaiterAt(s: State, w: nat, pc: WaiterPc) {
    w < |s.waiters| && s.waiters[w].pc == pc
  }

  predicate Possible(s: State, e: Event) {
    match e
    case Tick(now) => s.now <= now
    case SweepTasks => s.main.Idle?
    case TakeSlot(i) => s.main.Idle? && FirstFree(s.shared.slots, i)
    case FillSlot(_) => s.main.Reserved?
    case DropSlot => s.main.Reserved?
    case ForkWaiter => s.main.Ready?
    case ForkWaiterFails => s.main.Ready?
    case GiveUp => s.main.ForkFailed?
    case ForkTask(w, pid) => WaiterAt(s, w, Started) && pid > 0 && pid !in s.pids
    case ForkTaskFails(w) => WaiterAt(s, w, Started)
    case RegisterTask(w) => WaiterAt(s, w, Forked)
    case Reap(w) => WaiterAt(s, w, Waiting) && s.waiters[w].pid in s.ended
    case WaitFails(w) => WaiterAt(s, w, Waiting) && s.waiters[w].pid == -1
    case MarkTask(w) => WaiterAt(s, w, Reaped) && s.waiters[w].pid in s.ended
    case WithdrawTask(w) => WaiterAt(s, w, NoChild)
    case ReportTask(w, _) => WaiterAt(s, w, Reporting)
    case ReleaseSlot(w) => WaiterAt(s, w, Reported)
    case KillWaiter(w) => w < |s.waiters| && s.waiters[w].Unfinished()
    case TaskEnds(pid, _) => pid in s.pids && pid !in s.ended
    case InitReaps(w) => WaiterAt(s, w, Killed) && s.waiters[w].pid in s.ended
    case Check(_) => true
  }

  function Move(s: State, w: nat, pc: WaiterPc): State
    requires w < |s.waiters|
  {
    s.(waiters := s.waiters[w := s.waiters[w].(pc := pc)])
  }

  function Step(s: State, e: Event): State
    requires Possible(s, e)
  {
    match e
    case Tick(now) => s.(now := now)
    case SweepTasks => s.(shared := CheckTasks(s.shared, s.dead))
    case TakeSlot(i) =>
      s.(shared := Take(s.shared, i, s.now), main := Reserved(i), owner := s.owner[i := Reservation])
    case FillSlot(start) =>
      var i := s.main.slot;
      s.(shared := Fill(s.shared, i, start), main := Ready(i), mark := s.mark[i := Unmarked])
    case DropSlot =>
      var i := s.main.slot;
      s.(shared := Reset(s.shared, i), main := Idle, owner := s.owner[i := Nobody], mark := s.mark[i := Unmarked])
    case ForkWaiter =>
      var i := s.main.slot;
      s.(main := Idle, waiters := s.waiters + [Waiter(i, 0, 0, Started)], owner := s.owner[i := Launch(|s.waiters|)])
    case ForkWaiterFails => s.(main := ForkFailed(s.main.slot))
    case GiveUp => s.(shared := Free(s.shared, s.main.slot), main := MainExited)
    case ForkTask(w, pid) =>
      s.(waiters := s.waiters[w := s.waiters[w].(pid := pid, pc := Forked)], pids := s.pids + {pid})
    case ForkTaskFails(w) => s.(waiters := s.waiters[w := s.waiters[w].(pid := -1, pc := Forked)])
    case RegisterTask(w) =>
      var me := s.waiters[w];
      s.(shared := Register(s.shared, me.slot, me.pid, s.now),
         waiters := s.waiters[w := me.(start := s.now, pc := Waiting)])
    case Reap(w) => Move(s, w, Reaped).(dead := s.dead + {s.waiters[w].pid})
    case WaitFails(w) => Move(s, w, NoChild)
    case MarkTask(w) =>
      var me := s.waiters[w];
      Move(s, w, Reporting).(shared := MarkFinished(s.shared, me.slot, s.ended[me.pid]),
                             mark := s.mark[me.slot := By(w)])
    case WithdrawTask(w) => Move(s, w, Ended).(shared := Withdraw(s.shared, s.waiters[w].slot))
    case ReportTask(w, sent) =>
      var i := s.waiters[w].slot;
      Move(s, w, Reported).(reports :=
        if sent then s.reports + [Report(w, s.shared.slots[i].exitstatus, s.mark[i])] else s.reports)
    case ReleaseSlot(w) => Move(s, w, Ended).(shared := Free(s.shared, s.waiters[w].slot))
    case KillWaiter(w) => Move(s, w, Killed)
    case TaskEnds(pid, rc) => s.(ended := s.ended[pid := rc])
    case InitReaps(w) => s.(dead := s.dead + {s.waiters[w].pid})
    case Check(clockWorks) => CheckerStep(s, clockWorks)
  }

  function Next(i: SlotIndex): CheckerPc {
    if i + 1 < MAXTASKS then AskUsed(i + 1) else Resting
  }

  /** The next statement of the consistency process. */
  function CheckerStep(s: State, clockWorks: bool): State {
    var slots := s.shared.slots;
    match s.checker
    case AskUsed(i) => s.(checker := if slots[i].used then AskPid(i) else AskUsedAgain(i))
    case AskPid(i) => s.(checker := AskAlive(i, slots[i].pid))
    case AskAlive(i, pid) => s.(checker := if Gone(s.dead, pid) then AskNow(i, pid) else AskUsedAgain(i))
    case AskNow(i, pid) => s.(checker := AskStatus(i, pid, if clockWorks then s.now else -1))
    case AskStatus(i, pid, now) =>
      s.(checker := if slots[i].status != Loading && now != -1 then AskStart(i, pid, now) else Freeing(i, pid))
    case AskStart(i, pid, now) =>
      s.(checker := if StillYoung(now, slots[i].start) then Next(i) else Freeing(i, pid))
    case Freeing(i, pid) => s.(shared := Free(s.shared, i), checker := Next(i))
    case AskUsedAgain(i) => s.(checker := if slots[i].used then AskLoading(i) else Next(i))
    case AskLoading(i) => s.(checker := if slots[i].status == Loading then Promoting(i) else Next(i))
    case Promoting(i) => s.(shared := Promote(s.shared, i), checker := Next(i))
    case Resting => s.(checker := AskUsed(0))
  }

  /* Runs */

  predicate Run(s: State, es: seq<Event>)
    decreases |es|
  {
    es == [] || (Possible(s, es[0]) && Run(Step(s, es[0]), es[1..]))
  }

  function End(s: State, es: seq<Event>): State
    requires Run(s, es)
    decreases |es|
  {
    if es == [] then s else End(Step(s, es[0]), es[1..])
  }

  /** Runs can be cut and glued. */
  lemma {:induction false} RunSplit(s: State, es: seq<Event>, fs: seq<Event>)
    ensures Run(s, es + fs) <==> Run(s, es) && Run(End(s, es), fs)
    ensures Run(s, es + fs) ==> End(s, es + fs) == End(End(s, es), fs)
    decreases |es|
  {
    if es == [] {
      assert es + fs == fs;
    } else {
      assert (es + fs)[1..] == es[1..] + fs;
      if Possible(s, es[0]) {
        RunSplit(Step(s, es[0]), es[1..], fs);
      }
    }
  }

  /** The last event of a run. */
  lemma RunLast(s: State, es: seq<Event>)
    requires Run(s, es) && es != []
    ensures var n := |es| - 1;
            Run(s, es[..n]) && Possible(End(s, es[..n]), es[n]) && End(s, es) == Step(End(s, es[..n]), es[n])
  {
    var n := |es| - 1;
    var last := [es[n]];
    assert es == es[..n] + last;
    RunSplit(s, es[..n], last);
    assert last[1..] == [];
  }

  lemma RunOne(s: State, es: seq<Event>, e: Event)
    requires Run(s, es) && Possible(End(s, es), e)
    ensures Run(s, es + [e]) && End(s, es + [e]) == Step(End(s, es), e)
  {
    RunSplit(s, es, [e]);
    assert [e][1..] == [];
  }

  /** The slot an event is about, if any. */
  function SlotOf(s: State, e: Event): SlotIndex
    requires Possible(s, e)
  {
    match e
    case TakeSlot(i) => i
    case FillSlot(_) => s.main.slot
    case DropSlot => s.main.slot
    case GiveUp => s.main.slot
    case RegisterTask(w) => s.waiters[w].slot
    case MarkTask(w) => s.waiters[w].slot
    case WithdrawTask(w) => s.waiters[w].slot
    case ReleaseSlot(w) => s.waiters[w].slot
    case Check(_) => if s.checker.Freeing? || s.checker.Promoting? then s.checker.i else 0
    case _ => 0
  }

  /** check_tasks() aside, no event touches more than its own slot. */
  lemma StepTouchesOne(s: State, e: Event)
    requires Possible(s, e) && !e.SweepTasks?
    ensures var i := SlotOf(s, e);
            Step(s, e).shared.slots == s.shared.slots[i := Step(s, e).shared.slots[i]]
  {
  }

  /** check_tasks() frees exactly the used slots that are registered as running and whose positive
      pid is dead, and leaves everything else of every slot, and of the state but ntasks, alone. */
  lemma SweepTakes(s: State, i: SlotIndex)
    requires s.main.Idle?
    ensures Possible(s, SweepTasks)
    ensures var t, slot := Step(s, SweepTasks), s.shared.slots[i];
            && (t.shared.slots[i].used <==>
                  slot.used && !(slot.status == Running && slot.pid > 0 && slot.pid in s.dead))
            && t.shared.slots[i] == slot.(used := t.shared.slots[i].used)
            && t.shared.ntasks == Count(t.shared.slots, IsUsed)
            && t == s.(shared := s.shared.(slots := t.shared.slots, ntasks := t.shared.ntasks))
  {
  }

  predicate NoKill(es: seq<Event>) {
    forall k | 0 <= k < |es| :: !es[k].KillWaiter?
  }

  predicate AllEnded(s: State) {
    forall w | 0 <= w < |s.waiters| :: s.waiters[w].pc == Ended
  }

  /** The main loop holds slot i: reserved or filled, and not yet handed to a waiter. */
  predicate MainHolds(s: State, i: SlotIndex) {
    (s.main.Reserved? || s.main.Ready? || s.main.ForkFailed?) && s.main.slot == i
  }
}
