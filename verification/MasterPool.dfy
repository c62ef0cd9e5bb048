/**
  The accept loop of the master: a pool of forked connection handlers, bounded by a
  counter, in a process that is also the parent of the consistency-checks process.
  wait() reaps whichever child has exited, and the counter cannot tell them apart.
  */
module MasterPool {

  const MASTERNCHILDREN: nat := 10

  /** handlers and checks: the children not yet reaped; exited: those of them that are zombies. */
  datatype Pool = Pool(n: int, handlers: set<int>, checks: set<int>, exited: set<int>)

  datatype Event =
    | ForkHandler(pid: int)
    | ForkFails
    | ChildExits(pid: int)
    | WaitReaps(pid: int)
    | WaitFails  // there is no child to wait for

  function Children(p: Pool): set<int> {
    p.handlers + p.checks
  }

  /** Entering the loop, with or without a consistency-checks process. */
  function Start(checks: set<int>): Pool {
    Pool(0, {}, checks, {})
  }

  predicate Possible(p: Pool, e: Event) {
    match e
    case ForkHandler(pid) => p.n < MASTERNCHILDREN && pid !in Children(p)
    case ForkFails => p.n < MASTERNCHILDREN
    case ChildExits(pid) => pid in Children(p) && pid !in p.exited
    case WaitReaps(pid) => p.n >= MASTERNCHILDREN && pid in p.exited
    case WaitFails => p.n >= MASTERNCHILDREN && Children(p) == {}
  }

  function Step(p: Pool, e: Event): Pool
    requires Possible(p, e)
  {
    match e
    case ForkHandler(pid) => p.(n := p.n + 1, handlers := p.handlers + {pid})
    case ForkFails => p
    case ChildExits(pid) => p.(exited := p.exited + {pid})
    case WaitReaps(pid) =>
      p.(n := p.n - 1, handlers := p.handlers - {pid}, checks := p.checks - {pid}, exited := p.exited - {pid})
    case WaitFails => p
  }

  predicate Run(p: Pool, es: seq<Event>)
    decreases |es|
  {
    es == [] || (Possible(p, es[0]) && Run(Step(p, es[0]), es[1..]))
  }

  function End(p: Pool, es: seq<Event>): Pool
    requires Run(p, es)
    decreases |es|
  {
    if es == [] then p else End(Step(p, es[0]), es[1..])
  }

  lemma {:induction false} RunOne(p: Pool, es: seq<Event>, e: Event)
    requires Run(p, es) && Possible(End(p, es), e)
    ensures Run(p, es + [e]) && End(p, es + [e]) == Step(End(p, es), e)
    decreases |es|
  {
    if es != [] {
      RunOne(Step(p, es[0]), es[1..], e);
      assert (es + [e])[1..] == es[1..] + [e];
    } else {
      assert ([] + [e])[1..] == [];
    }
  }

  /* What a run does, told by its events */

  function Forks(es: seq<Event>): nat {
    if es == [] then 0 else (if es[0].ForkHandler? then 1 else 0) + Forks(es[1..])
  }

  function Reaps(es: seq<Event>): nat {
    if es == [] then 0 else (if es[0].WaitReaps? then 1 else 0) + Reaps(es[1..])
  }

  /** The children of before and those forked since, less those reaped since; a pid may come back. */
  function Unreaped(es: seq<Event>, before: set<int>): set<int> {
    if es == [] then before
    else
      Unreaped(es[1..],
               match es[0]
               case ForkHandler(pid) => before + {pid}
               case WaitReaps(pid) => before - {pid}
               case _ => before)
  }

  /** The children that have exited and not been reaped. */
  function Zombies(es: seq<Event>, before: set<int>): set<int> {
    if es == [] then before
    else
      Zombies(es[1..],
              match es[0]
              case ChildExits(pid) => before + {pid}
              case WaitReaps(pid) => before - {pid}
              case _ => before)
  }

  /** Conservation: over every run the counter rises by one for each handler forked and falls by one
      for each successful wait(), and the children are those forked and not reaped. */
  lemma {:induction false} ChildrenConserved(p: Pool, es: seq<Event>)
    requires Run(p, es)
    ensures End(p, es).n + Reaps(es) == p.n + Forks(es)
    ensures Children(End(p, es)) == Unreaped(es, Children(p))
    ensures End(p, es).exited == Zombies(es, p.exited)
    decreases |es|
  {
    if es != [] {
      var q := Step(p, es[0]);
      ChildrenConserved(q, es[1..]);
      match es[0]
      case ForkHandler(pid) => assert Children(q) == Children(p) + {pid};
      case WaitReaps(pid) => assert Children(q) == Children(p) - {pid};
      case _ =>
    }
  }

  /** extra: the children the counter does not count. */
  predicate Accounted(p: Pool, extra: int) {
    && |p.handlers| + |p.checks| == p.n + extra
    && 0 <= p.n <= MASTERNCHILDREN
    && p.handlers !! p.checks
    && p.exited <= Children(p)
  }

  lemma Without(s: set<int>, pid: int)
    ensures |s - {pid}| == if pid in s then |s| - 1 else |s|
  {
    if pid in s {
      assert s == (s - {pid}) + {pid};
    } else {
      assert s - {pid} == s;
    }
  }

  lemma StepAccounted(p: Pool, e: Event, extra: int)
    requires Possible(p, e) && Accounted(p, extra)
    ensures Accounted(Step(p, e), extra)
    ensures Step(p, e).checks <= p.checks
  {
    if e.WaitReaps? {
      assert e.pid in Children(p);
      Without(p.handlers, e.pid);
      Without(p.checks, e.pid);
    }
  }

  lemma {:induction false} RunAccounted(p: Pool, es: seq<Event>, extra: int)
    requires Run(p, es) && Accounted(p, extra)
    ensures Accounted(End(p, es), extra)
    ensures End(p, es).checks <= p.checks
    decreases |es|
  {
    if es != [] {
      StepAccounted(p, es[0], extra);
      RunAccounted(Step(p, es[0]), es[1..], extra);
    }
  }

  /** Pool accounting: with the consistency-checks process checks, in every run the unreaped children
      are one more than the counter says, and the counter stays between 0 and MASTERNCHILDREN.
      So at most MASTERNCHILDREN handlers are unreaped until the checks process has been reaped,
      and at most one more afterwards; wait() never finds itself without a child. */
  lemma PoolAccounting(checks: int, es: seq<Event>)
    requires Run(Start({checks}), es)
    ensures var p := End(Start({checks}), es);
            && |p.handlers| + |p.checks| == p.n + 1
            && 0 <= p.n <= 10
            && p.n == Forks(es) - Reaps(es)
            && p.handlers + p.checks == Unreaped(es, {checks})
            && (checks in p.checks ==> |p.handlers| == p.n)
            && (checks !in p.checks ==> |p.handlers| == p.n + 1)
            && !Possible(p, WaitFails)
  {
    RunAccounted(Start({checks}), es, 1);
    ChildrenConserved(Start({checks}), es);
    assert {} + {checks} == {checks};
    var p := End(Start({checks}), es);
    if checks in p.checks {
      assert p.checks == {checks};
    } else {
      assert p.checks == {};
    }
  }

  /** If the fork of the checks process fails, the counter is exact. */
  lemma PoolAccountingWithoutChecks(es: seq<Event>)
    requires Run(Start({}), es)
    ensures var p := End(Start({}), es);
            && |p.handlers| == p.n && 0 <= p.n <= 10 && !Possible(p, WaitFails)
            && p.handlers == Unreaped(es, {})
  {
    RunAccounted(Start({}), es, 0);
    ChildrenConserved(Start({}), es);
    var p := End(Start({}), es);
    assert p.checks == {} && p.handlers == Children(p);
  }

  /** The loop is never stuck.  With room in the pool it can fork a handler with any pid that is not in
      use, or fail to; with a full pool every child can exit and be reaped, which makes room for
      one more and concerns no other child. */
  lemma PoolGoesOn(checks: int, es: seq<Event>, pid: int)
    requires Run(Start({checks}), es)
    ensures var p := End(Start({checks}), es);
            && (p.n < 10 ==> Possible(p, ForkFails) && (pid !in Children(p) ==> Possible(p, ForkHandler(pid))))
            && (p.n == 10 ==> Children(p) != {} && !Possible(p, ForkFails))
            && (p.n == 10 && pid in Children(p) ==>
                  var exits := if pid in p.exited then [] else [ChildExits(pid)];
                  && Run(p, exits + [WaitReaps(pid)])
                  && End(p, exits + [WaitReaps(pid)]).n == 9
                  && Children(End(p, exits + [WaitReaps(pid)])) == Children(p) - {pid})
  {
    RunAccounted(Start({checks}), es, 1);
    var p := End(Start({checks}), es);
    if p.n == 10 && pid in Children(p) {
      var exits := if pid in p.exited then [] else [ChildExits(pid)];
      if pid !in p.exited {
        RunOne(p, [], ChildExits(pid));
      }
      RunOne(p, exits, WaitReaps(pid));
      ChildrenConserved(p, exits + [WaitReaps(pid)]);
    }
  }

  /** n handlers are forked one after the other, with the pids that follow that of the checks process. */
  lemma {:induction false} ForkMany(checks: int, n: nat) returns (es: seq<Event>)
    requires n <= MASTERNCHILDREN
    ensures Run(Start({checks}), es)
    ensures var p := End(Start({checks}), es);
            p.n == n && p.checks == {checks} && p.exited == {} && forall h <- p.handlers :: checks < h <= checks + n
  {
    es := [];
    if n > 0 {
      es := ForkMany(checks, n - 1);
      RunOne(Start({checks}), es, ForkHandler(checks + n));
      es := es + [ForkHandler(checks + n)];
    }
  }

  /** The extra handler is real: once the checks process has exited, a run ends with
      MASTERNCHILDREN + 1 unreaped handlers. */
  lemma OneMoreHandler(checks: int) returns (es: seq<Event>)
    ensures Run(Start({checks}), es)
    ensures |End(Start({checks}), es).handlers| == MASTERNCHILDREN + 1
  {
    es := ForkMany(checks, MASTERNCHILDREN);
    var more := [ChildExits(checks), WaitReaps(checks), ForkHandler(checks + MASTERNCHILDREN + 1)];
    for k := 0 to 3
      invariant Run(Start({checks}), es)
      invariant var p := End(Start({checks}), es);
                && p.n == (if k < 2 then MASTERNCHILDREN else MASTERNCHILDREN - 1 + (k - 2))
                && p.checks == (if k < 2 then {checks} else {})
                && p.exited == (if k == 1 then {checks} else {})
                && (k < 3 ==> forall h <- p.handlers :: checks < h <= checks + MASTERNCHILDREN)
    {
      RunOne(Start({checks}), es, more[k]);
      es := es + [more[k]];
    }
    PoolAccounting(checks, es);
  }

  /** The loop itself.  The script says what fork() and wait() return and when children exit. */
  class Master {
    var nChildren: int
    var handlers: set<int>
    var checks: set<int>
    var exited: set<int>

    ghost function Contents(): Pool
      reads this
    {
      Pool(nChildren, handlers, checks, exited)
    }

    constructor (checks: set<int>)
      ensures Contents() == Start(checks)
    {
      nChildren, handlers, exited := 0, {}, {};
      this.checks := checks;
    }

    method AcceptLoop(script: seq<Event>)
      requires Run(Contents(), script)
      modifies this
      ensures Contents() == End(old(Contents()), script)
      ensures nChildren == old(nChildren) + Forks(script) - Reaps(script)
      ensures handlers + checks == Unreaped(script, old(handlers + checks))
    {
      ChildrenConserved(Contents(), script);
      var k := 0;
      while k < |script|
        invariant 0 <= k <= |script|
        invariant Run(Contents(), script[k..])
        invariant End(Contents(), script[k..]) == End(old(Contents()), script)
      {
        assert script[k..][1..] == script[k + 1..];
        var e := script[k];
        if e.ChildExits? {
          exited := exited + {e.pid};
        } else if nChildren < MASTERNCHILDREN {
          if e.ForkHandler? {
            handlers := handlers + {e.pid};
            nChildren := nChildren + 1;
          }
        } else {
          if e.WaitReaps? {
            handlers, checks, exited := handlers - {e.pid}, checks - {e.pid}, exited - {e.pid};
            nChildren := nChildren - 1;
          }
        }
        k := k + 1;
      }
    }
  }
}
