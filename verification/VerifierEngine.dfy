/** The module loop of the verification engine: a module runs only when everything below it ran and passed. */
module VerifierEngine {
  import opened Records
  import opened ModuleGraph
  import opened ModuleOrder

  datatype Verdict = Passed | Failed | Aborted

  /** Everything the module depends on, directly or not, passes. */
  ghost predicate BelowPasses(reg: seq<Name>, dag: Dag, verdict: Name -> Verdict, n: Name) {
    forall p :: Path(reg, dag, p) && |p| >= 2 && p[0] == n ==> verdict(p[|p| - 1]).Passed?
  }

  ghost predicate Healthy(reg: seq<Name>, dag: Dag, verdict: Name -> Verdict, n: Name) {
    verdict(n).Passed? && BelowPasses(reg, dag, verdict, n)
  }

  /** It is enough to look at the direct dependencies. */
  lemma BelowPassesDirectly(reg: seq<Name>, dag: Dag, verdict: Name -> Verdict, n: Name)
    ensures BelowPasses(reg, dag, verdict, n) <==> forall d :: d in Deps(reg, dag, n) ==> Healthy(reg, dag, verdict, d)
  {
    hide Deps;
    if BelowPasses(reg, dag, verdict, n) {
      forall d | d in Deps(reg, dag, n) ensures Healthy(reg, dag, verdict, d) {
        BelowInherited(reg, dag, verdict, [n, d]);
        assert Path(reg, dag, [n, d]);
      }
    }
    if forall d :: d in Deps(reg, dag, n) ==> Healthy(reg, dag, verdict, d) {
      forall p | Path(reg, dag, p) && |p| >= 2 && p[0] == n ensures verdict(p[|p| - 1]).Passed? {
        assert p[1] in Deps(reg, dag, p[0]);
        assert Healthy(reg, dag, verdict, p[1]);
        var q := p[1..];
        assert Path(reg, dag, q) && q[|q| - 1] == p[|p| - 1];
      }
    }
  }

  /** What holds below a module holds below everything it leads to. */
  lemma BelowInherited(reg: seq<Name>, dag: Dag, verdict: Name -> Verdict, p: seq<Name>)
    requires Path(reg, dag, p) && BelowPasses(reg, dag, verdict, p[0])
    ensures BelowPasses(reg, dag, verdict, p[|p| - 1])
  {
    hide Deps;
    forall q | Path(reg, dag, q) && |q| >= 2 && q[0] == p[|p| - 1] ensures verdict(q[|q| - 1]).Passed? {
      var joined := p + q[1..];
      PathsJoin(reg, dag, p, q);
      assert joined[|joined| - 1] == q[|q| - 1] && joined[0] == p[0];
    }
  }

  lemma PathsJoin(reg: seq<Name>, dag: Dag, p: seq<Name>, q: seq<Name>)
    requires Path(reg, dag, p) && Path(reg, dag, q) && q[0] == p[|p| - 1]
    ensures Path(reg, dag, p + q[1..])
  {
    hide Deps;
    var joined := p + q[1..];
    forall i | 0 <= i < |joined| - 1 ensures joined[i + 1] in Deps(reg, dag, joined[i]) {
      if i < |p| - 1 {
        assert joined[i] == p[i] && joined[i + 1] == p[i + 1];
      } else {
        var k := i - (|p| - 1);
        assert joined[i] == q[k] && joined[i + 1] == q[k + 1];
      }
    }
  }

  /** `firstUnhealthyDep`; the empty string stands for none, which no registered module is called. */
  method FirstUnhealthyDep(deps: seq<Name>, unhealthy: set<Name>) returns (d: Name)
    requires "" !in deps
    ensures d == "" <==> forall n :: n in deps ==> n !in unhealthy
    ensures d != "" ==> exists i :: 0 <= i < |deps| && deps[i] == d && d in unhealthy && forall j :: 0 <= j < i ==>
      deps[j] !in unhealthy
  {
    for i := 0 to |deps|
      invariant forall j :: 0 <= j < i ==> deps[j] !in unhealthy
    {
      if deps[i] in unhealthy { return deps[i]; }
    }
    return "";
  }

  /** Every module that ran came after all it depends on, directly or not, and all of that passed. */
  ghost predicate RanInOrder(reg: seq<Name>, dag: Dag, verdict: Name -> Verdict, ran: seq<Name>) {
    forall i, p :: 0 <= i < |ran| && Path(reg, dag, p) && |p| >= 2 && p[0] == ran[i] ==>
      p[|p| - 1] in ran[..i] && verdict(p[|p| - 1]).Passed?
  }

  /** The state after the first i modules of the order. */
  ghost predicate Tracked(reg: seq<Name>, dag: Dag, verdict: Name -> Verdict, seen: seq<Name>, ran: seq<Name>,
                          unhealthy: set<Name>) {
    && (forall n :: n in ran ==> n in seen)
    && (forall n :: n in seen ==> (n in ran <==> BelowPasses(reg, dag, verdict, n)))
    && (forall n :: n in seen ==> (n in unhealthy <==> !Healthy(reg, dag, verdict, n)))
    && RanInOrder(reg, dag, verdict, ran)
  }

  lemma RunNext(reg: seq<Name>, dag: Dag, verdict: Name -> Verdict, order: seq<Name>, i: nat, ran: seq<Name>,
                unhealthy: set<Name>)
    requires DepsFirst(reg, dag, order) && i < |order| && Tracked(reg, dag, verdict, order[..i], ran, unhealthy)
    requires BelowPasses(reg, dag, verdict, order[i])
    ensures RanInOrder(reg, dag, verdict, ran + [order[i]])
  {
    hide Deps, BelowPasses, Healthy;
    var n, more := order[i], ran + [order[i]];
    forall k, p | 0 <= k < |more| && Path(reg, dag, p) && |p| >= 2 && p[0] == more[k]
      ensures p[|p| - 1] in more[..k] && verdict(p[|p| - 1]).Passed? {
      if k < |ran| {
        assert more[..k] == ran[..k] && p[0] == ran[k];
      } else {
        assert more[..k] == ran;
        BelowRan(reg, dag, verdict, order, i, ran, unhealthy, p);
      }
    }
  }

  lemma BelowRan(reg: seq<Name>, dag: Dag, verdict: Name -> Verdict, order: seq<Name>, i: nat, ran: seq<Name>,
                 unhealthy: set<Name>, p: seq<Name>)
    requires DepsFirst(reg, dag, order) && i < |order| && Tracked(reg, dag, verdict, order[..i], ran, unhealthy)
    requires BelowPasses(reg, dag, verdict, order[i]) && Path(reg, dag, p) && |p| >= 2 && p[0] == order[i]
    ensures p[|p| - 1] in ran && verdict(p[|p| - 1]).Passed?
  {
    hide Deps, Healthy, DepsFirst, RanInOrder;
    var j := PathsLeadBack(reg, dag, order, p, i);
    assert order[..i][j] == p[|p| - 1];
    BelowInherited(reg, dag, verdict, p);
  }

  /** A module is free to run exactly when no direct dependency is marked unhealthy. */
  lemma FreeToRun(reg: seq<Name>, dag: Dag, verdict: Name -> Verdict, order: seq<Name>, i: nat, ran: seq<Name>,
                  unhealthy: set<Name>)
    requires DepsFirst(reg, dag, order) && i < |order| && Tracked(reg, dag, verdict, order[..i], ran, unhealthy)
    ensures BelowPasses(reg, dag, verdict, order[i]) <==> forall d :: d in Deps(reg, dag, order[i]) ==> d !in unhealthy
  {
    hide Deps, BelowPasses, Healthy, RanInOrder;
    BelowPassesDirectly(reg, dag, verdict, order[i]);
    forall d | d in Deps(reg, dag, order[i]) ensures d in unhealthy <==> !Healthy(reg, dag, verdict, d) {
      assert d in order[..i];
    }
  }

  lemma TrackNext(reg: seq<Name>, dag: Dag, verdict: Name -> Verdict, order: seq<Name>, i: nat, ran: seq<Name>,
                  unhealthy: set<Name>)
    requires DepsFirst(reg, dag, order) && Distinct(order) && i < |order| &&
      Tracked(reg, dag, verdict, order[..i], ran, unhealthy)
    ensures var n := order[i];
      var below := BelowPasses(reg, dag, verdict, n);
      Tracked(reg, dag, verdict, order[..i + 1], if below then ran + [n] else ran,
        if below && verdict(n).Passed? then unhealthy - {n} else unhealthy + {n})
  {
    hide Deps, BelowPasses, RanInOrder, DepsFirst;
    var n := order[i];
    assert order[..i + 1] == order[..i] + [n] && n !in order[..i];
    if BelowPasses(reg, dag, verdict, n) { RunNext(reg, dag, verdict, order, i, ran, unhealthy); }
  }

  /** The loop stops at module i: the context is cancelled, or the module may run and reports an error. */
  ghost predicate StopsAt(reg: seq<Name>, dag: Dag, verdict: Name -> Verdict, cancelled: nat -> bool,
                          order: seq<Name>, i: nat) {
    i < |order| && (cancelled(i) || (BelowPasses(reg, dag, verdict, order[i]) && verdict(order[i]).Aborted?))
  }

  ghost predicate Stops(reg: seq<Name>, dag: Dag, verdict: Name -> Verdict, cancelled: nat -> bool, order: seq<Name>) {
    exists i: nat :: StopsAt(reg, dag, verdict, cancelled, order, i)
  }

  /** The module loop, over a resolved order. `cancelled(i)` is the context's state before module i. */
  method RunModules(reg: seq<Name>, dag: Dag, verdict: Name -> Verdict, cancelled: nat -> bool)
    returns (resolved: bool, ran: seq<Name>, unhealthy: set<Name>, aborted: bool)
    requires Registry(reg)
    ensures resolved <==> Acyclic(reg, dag)
    ensures RanInOrder(reg, dag, verdict, ran)
    ensures resolved && !aborted ==> forall n :: n in reg ==> (n in ran <==> BelowPasses(reg, dag, verdict, n))
    ensures resolved && !aborted ==> forall n :: n in reg ==> (n in unhealthy <==> !Healthy(reg, dag, verdict, n))
    ensures resolved ==>
      Resolve(reg, dag).Some? && (aborted <==> Stops(reg, dag, verdict, cancelled, Resolve(reg, dag).value))
  {
    hide Deps, BelowPasses, Healthy, Resolve, Acyclic, Stops;
    ResolvesExactlyWhenAcyclic(reg, dag);
    var plan, deps := ResolveModuleOrder(reg, dag);
    if plan.None? { return false, [], {}, false; }
    ResolvedIsTopological(reg, dag);
    forall n | n in reg ensures n in plan.value { assert n in Names(reg); }
    ran, unhealthy, aborted := RunOrder(reg, dag, plan.value, deps, verdict, cancelled);
    resolved := true;
  }

  method RunOrder(reg: seq<Name>, dag: Dag, order: seq<Name>, deps: map<Name, seq<Name>>, verdict: Name -> Verdict,
                  cancelled: nat -> bool)
    returns (ran: seq<Name>, unhealthy: set<Name>, aborted: bool)
    requires Registry(reg) && DepsFirst(reg, dag, order) && Distinct(order) && forall n ::
      At(deps, n) == Deps(reg, dag, n)
    ensures RanInOrder(reg, dag, verdict, ran)
    ensures !aborted ==> Tracked(reg, dag, verdict, order, ran, unhealthy)
    ensures aborted <==> Stops(reg, dag, verdict, cancelled, order)
  {
    hide Deps, BelowPasses, Healthy, Tracked, RanInOrder, DepsFirst;
    ran, unhealthy := [], {};
    TrackedStart(reg, dag, verdict, order);
    for i := 0 to |order|
      invariant Tracked(reg, dag, verdict, order[..i], ran, unhealthy)
      invariant forall n :: n in unhealthy ==> n in order[..i]
      invariant forall j: nat :: j < i ==> !StopsAt(reg, dag, verdict, cancelled, order, j)
    {
      TrackedInOrder(reg, dag, verdict, order[..i], ran, unhealthy);
      if cancelled(i) {
        assert StopsAt(reg, dag, verdict, cancelled, order, i);
        return ran, unhealthy, true;
      }
      var mod := order[i];
      FreeToRun(reg, dag, verdict, order, i, ran, unhealthy);
      TrackNext(reg, dag, verdict, order, i, ran, unhealthy);
      assert order[..i + 1] == order[..i] + [mod] && mod !in order[..i];
      assert unhealthy - {mod} == unhealthy;
      DepsNamed(reg, dag, mod);
      var blockedBy := FirstUnhealthyDep(At(deps, mod), unhealthy);
      if blockedBy != "" {
        unhealthy := unhealthy + {mod};
        continue;
      }
      RunNext(reg, dag, verdict, order, i, ran, unhealthy);
      ran := ran + [mod];
      if verdict(mod).Aborted? {
        assert StopsAt(reg, dag, verdict, cancelled, order, i);
        return ran, unhealthy, true;
      }
      if !verdict(mod).Passed? { unhealthy := unhealthy + {mod}; }
    }
    assert order[..|order|] == order;
    TrackedInOrder(reg, dag, verdict, order, ran, unhealthy);
    aborted := false;
  }

  lemma TrackedStart(reg: seq<Name>, dag: Dag, verdict: Name -> Verdict, order: seq<Name>)
    ensures Tracked(reg, dag, verdict, order[..0], [], {})
  {
  }

  lemma TrackedInOrder(reg: seq<Name>, dag: Dag, verdict: Name -> Verdict, seen: seq<Name>, ran: seq<Name>,
                       unhealthy: set<Name>)
    requires Tracked(reg, dag, verdict, seen, ran, unhealthy)
    ensures RanInOrder(reg, dag, verdict, ran)
  {
  }

  lemma DepsNamed(reg: seq<Name>, dag: Dag, n: Name)
    requires Registry(reg)
    ensures "" !in Deps(reg, dag, n)
  {
  }
}
