/**
  The shared structure of a slave, changed in place.  Each method is one locked
  section (or one loop inside one) and is proved to do what the value functions of
  TaskSlots say, so the theorems about runs are theorems about these methods.
  */
module SlaveComputer {
  import opened ExitStatus
  import opened TaskSlots

  /** (uint16_t)-1 */
  const NO_SLOT: nat := 65535

  class Computer {
    const task: array<Slot>
    var ntasks: nat
    var nrunning: nat

    ghost predicate Valid()
      reads this
    {
      task.Length == MAXTASKS
    }

    ghost function Contents(): Shared
      reads this, task
      requires Valid()
    {
      Shared(task[..], ntasks, nrunning)
    }

    /** The cached counters are what they should be. */
    ghost predicate Exact()
      reads this, task
    {
      ntasks == |UsedSlots(task[..])| && nrunning == |UnfinishedSlots(task[..])|
    }

    /** computer_status_init() */
    constructor ()
      ensures Valid() && fresh(task)
      ensures Contents() == Shared(seq(MAXTASKS, _ => EMPTY_SLOT), 0, 0)
      ensures forall i | 0 <= i < 32 :: task[i] == Slot(false, Loading, 0, 0, 0)
    {
      task := new Slot[MAXTASKS](_ => EMPTY_SLOT);
      ntasks, nrunning := 0, 0;
      new;
      assert task[..] == seq(MAXTASKS, _ => EMPTY_SLOT);
    }

    /** computer_ntasks() */
    method NTasks() returns (n: nat)
      requires Valid()
      ensures n == Count(task[..], IsUsed) == |UsedSlots(task[..])|
    {
      n := 0;
      for i := 0 to MAXTASKS
        invariant n == Count(task[..][..i], IsUsed)
      {
        CountPrefix(task[..], i, IsUsed);
        if task[i].used {
          n := n + 1;
        }
      }
      assert task[..] == task[..][..MAXTASKS];
      CountsAreSizes(task[..]);
    }

    /** computer_nrunning() with task_is_running() */
    method NRunning() returns (n: nat)
      requires Valid()
      ensures n == Count(task[..], IsRunning) == |UnfinishedSlots(task[..])|
    {
      n := 0;
      for i := 0 to MAXTASKS
        invariant n == Count(task[..][..i], IsRunning)
      {
        CountPrefix(task[..], i, IsRunning);
        if !task[i].used {
        } else if task[i].status == Finished {
        } else {
          n := n + 1;
        }
      }
      assert task[..] == task[..][..MAXTASKS];
      CountsAreSizes(task[..]);
    }

    /** The two assignments most sections end with. */
    method Recount()
      requires Valid()
      modifies this`ntasks, this`nrunning
      ensures Contents() == TaskSlots.Recount(old(Contents())) && Exact()
    {
      ntasks := NTasks();
      nrunning := NRunning();
    }

    /** task_available() */
    method TaskAvailable(now: Time) returns (r: nat)
      requires Valid()
      modifies task
      ensures r == NO_SLOT <==> forall j | 0 <= j < MAXTASKS :: old(task[j]).used
      ensures r != NO_SLOT ==>
                && r < MAXTASKS && !old(task[..])[r].used && (forall j | 0 <= j < r :: old(task[j]).used)
                && task[..] == old(task[..])[r := old(task[..])[r].(used := true, status := Loading, start := now)]
      ensures Full(old(task[..])) ==> r == NO_SLOT && Contents() == old(Contents())
      ensures !Full(old(task[..])) ==> FirstFree(old(task[..]), r) && Contents() == Take(old(Contents()), r, now)
    {
      r := NO_SLOT;
      var i := 0;
      while i < MAXTASKS
        invariant 0 <= i <= MAXTASKS && r == NO_SLOT
        invariant task[..] == old(task[..])
        invariant forall j | 0 <= j < i :: task[j].used
      {
        if !task[i].used {
          r := i;
          task[i] := task[i].(used := true);
          task[i] := task[i].(status := Loading);
          task[i] := task[i].(start := now);
          break;
        }
        i := i + 1;
      }
    }

    /** request_job_available(): the answer of the master has arrived. */
    method FillTask(i: nat, start: Time)
      requires Valid() && i < MAXTASKS
      modifies this, task
      ensures Contents() == Fill(old(Contents()), i, start) && Exact()
      ensures task[..] == old(task[..])[i := Slot(true, Loading, 0, start, 0)]
    {
      task[i] := Slot(true, Loading, 0, start, 0);
      Recount();
      assert task[..] == old(task[..])[i := task[i]];
    }

    /** task_init() */
    method InitTask(i: nat)
      requires Valid() && i < MAXTASKS
      modifies task
      ensures Contents() == Reset(old(Contents()), i)
      ensures task[..] == old(task[..])[i := Slot(false, Loading, 0, 0, 0)]
      ensures Count(task[..], IsUsed) == Count(old(task[..]), IsUsed) - Weight(old(task[i].used))
    {
      CountUpdate(task[..], i, EMPTY_SLOT, IsUsed);
      task[i] := EMPTY_SLOT;
      assert task[..] == old(task[..])[i := EMPTY_SLOT];
    }

    /** check_tasks() */
    method CheckTasks(dead: set<int>)
      requires Valid()
      modifies this`ntasks, task
      ensures Contents() == TaskSlots.CheckTasks(old(Contents()), dead)
      ensures ntasks == Count(task[..], IsUsed) && nrunning == old(nrunning)
      ensures forall i | 0 <= i < MAXTASKS ::
                var slot := old(task[i]);
                task[i] == slot.(used := slot.used && !(slot.status == Running && slot.pid > 0 && slot.pid in dead))
    {
      ntasks := 0;
      ghost var swept := Swept(task[..], dead);
      for i := 0 to MAXTASKS
        invariant forall j | 0 <= j < i :: task[j] == swept[j]
        invariant forall j | i <= j < MAXTASKS :: task[j] == old(task[j])
        invariant ntasks == Count(swept[..i], IsUsed)
        invariant nrunning == old(nrunning)
      {
        CountPrefix(swept, i, IsUsed);
        if task[i].used {
          if task[i].status == Running {
            if !Gone(dead, task[i].pid) {
              ntasks := ntasks + 1;
            } else {
              task[i] := task[i].(used := false);
            }
          } else {
            ntasks := ntasks + 1;
          }
        }
      }
      assert swept[..MAXTASKS] == swept;
      assert task[..] == swept;
    }

    /** launch_task(): the section after the fork of the task. */
    method RegisterTask(i: nat, pid: int, now: Time)
      requires Valid() && i < MAXTASKS
      modifies this, task
      ensures Contents() == Register(old(Contents()), i, pid, now) && Exact()
      ensures task[..] == old(task[..])[i := old(task[i]).(status := Loading, start := now, pid := pid)]
    {
      task[i] := task[i].(status := Loading);
      task[i] := task[i].(start := now);
      task[i] := task[i].(pid := pid);
      Recount();
      assert task[..] == old(task[..])[i := task[i]];
    }

    /** launch_task(): the section after a failed waitpid(). */
    method WithdrawTask(i: nat)
      requires Valid() && i < MAXTASKS
      modifies this, task
      ensures Contents() == Withdraw(old(Contents()), i) && Exact()
      ensures task[..] == old(task[..])[i := old(task[i]).(used := false)]
    {
      task[i] := task[i].(used := false);
      Recount();
      assert task[..] == old(task[..])[i := task[i]];
    }

    /** The flag and the number, one after the other. */
    method SetExitStatus(i: nat, rc: bv16)
      requires Valid() && i < MAXTASKS && task[i].exitstatus == 0
      modifies task
      ensures task[..] == old(task[..])[i := old(task[i]).(exitstatus := ReportedStatus(rc))]
    {
      if IfSignaled(rc) {
        task[i] := task[i].(exitstatus := task[i].exitstatus | SIGNALED_FLAG);
        task[i] := task[i].(exitstatus := task[i].exitstatus | TermSignal(rc));
      } else {
        if IfExited(rc) {
          task[i] := task[i].(exitstatus := task[i].exitstatus | EXITED_FLAG);
          task[i] := task[i].(exitstatus := task[i].exitstatus | ExitCode(rc));
        }
      }
    }

    /** launch_task(): the section after a successful waitpid(); the counters are computed
        before the exit status is known, which makes no difference to them. */
    method MarkTask(i: nat, rc: bv16)
      requires Valid() && i < MAXTASKS
      modifies this, task
      ensures Contents() == MarkFinished(old(Contents()), i, rc) && Exact()
      ensures task[..] == old(task[..])[i := old(task[i]).(status := Finished, exitstatus := task[i].exitstatus)]
      ensures Decode(task[i].exitstatus) == WaitOutcome(rc)
    {
      task[i] := task[i].(exitstatus := 0);
      task[i] := task[i].(status := Finished);
      Recount();
      ghost var counted := task[..];
      assert counted == old(task[..])[i := old(task[i]).(status := Finished, exitstatus := 0)];
      SetExitStatus(i, rc);
      assert task[..] == old(task[..])[i := task[i]];
      CountsIgnoreExitStatus(counted, i, ReportedStatus(rc));
      CountsAreSizes(task[..]);
      FaithfulStatus(rc);
    }

    /** The sections that consist of used = 0: the counters keep counting the slot. */
    method FreeTask(i: nat)
      requires Valid() && i < MAXTASKS
      modifies task
      ensures Contents() == Free(old(Contents()), i)
      ensures task[..] == old(task[..])[i := old(task[i]).(used := false)]
      ensures Count(task[..], IsUsed) == Count(old(task[..]), IsUsed) - Weight(old(task[i].used))
    {
      CountUpdate(task[..], i, task[i].(used := false), IsUsed);
      task[i] := task[i].(used := false);
      assert task[..] == old(task[..])[i := task[i]];
    }

    /** slave_consistency_process(): one pass with nobody else at work; times[i] is what time()
        returns when slot i is looked at.  The continue of the source is the empty branch. */
    method ConsistencyPass(dead: set<int>, times: seq<Clock>)
      requires Valid() && |times| == MAXTASKS
      modifies task
      ensures task[..] == Passed(old(task[..]), dead, times)
    {
      for i := 0 to MAXTASKS
        invariant forall j | 0 <= j < i :: task[j] == Checked(old(task[j]), dead, times[j])
        invariant forall j | i <= j < MAXTASKS :: task[j] == old(task[j])
      {
        if task[i].used && Gone(dead, task[i].pid) {
          var now := times[i];
          if task[i].status != Loading && now != -1 && StillYoung(now, task[i].start) {
          } else {
            task[i] := task[i].(used := false);
          }
        } else if task[i].used && task[i].status == Loading {
          task[i] := task[i].(status := Running);
        }
      }
      assert task[..] == Passed(old(task[..]), dead, times);
    }
  }
}
