/** Dependency graphs of verifier modules: paths, cycles and deterministic ordering. */
module ModuleGraph {
  import opened Records

  type Name = string

  /** The names a module depends on, as the scenario lists them. */
  type Dag = map<Name, seq<Name>>

  ghost predicate Distinct(s: seq<Name>) {
    forall i, j :: 0 <= i < j < |s| ==> s[i] != s[j]
  }

  /** What the registry guarantees: no empty and no repeated name. */
  ghost predicate Registry(reg: seq<Name>) {
    Distinct(reg) && "" !in reg
  }

  function Select(s: seq<Name>, keep: set<Name>): (r: seq<Name>)
    ensures forall n :: n in r <==> n in s && n in keep
  {
    if s == [] then [] else (if s[0] in keep then [s[0]] else []) + Select(s[1..], keep)
  }

  function Names(s: seq<Name>): set<Name> {
    set n | n in s
  }

  /** The dependencies that count: between registered modules, in listed order, repeats kept. */
  function Deps(reg: seq<Name>, dag: Dag, n: Name): (d: seq<Name>)
    ensures forall m :: m in d ==> m in reg
  {
    if n in reg && n in dag then Select(dag[n], Names(reg)) else []
  }

  // ----- paths and cycles ------------------------------------------------------------------------------

  ghost predicate Path(reg: seq<Name>, dag: Dag, p: seq<Name>) {
    |p| >= 1 && forall i :: 0 <= i < |p| - 1 ==> p[i + 1] in Deps(reg, dag, p[i])
  }

  ghost predicate Cycle(reg: seq<Name>, dag: Dag, p: seq<Name>) {
    Path(reg, dag, p) && |p| >= 2 && p[0] == p[|p| - 1]
  }

  ghost predicate Acyclic(reg: seq<Name>, dag: Dag) {
    forall p :: !Cycle(reg, dag, p)
  }

  /** More places than names: some name occurs twice. */
  lemma {:induction false} Pigeonhole(p: seq<Name>, names: set<Name>) returns (i: nat, j: nat)
    requires |p| > |names| && forall k :: 0 <= k < |p| ==> p[k] in names
    ensures i < j < |p| && p[i] == p[j]
    decreases |p|
  {
    var last := p[|p| - 1];
    if k :| 0 <= k < |p| - 1 && p[k] == last {
      return k, |p| - 1;
    } else {
      i, j := Pigeonhole(p[..|p| - 1], names - {last});
    }
  }

  ghost predicate WaitsIn(reg: seq<Name>, dag: Dag, stuck: set<Name>, n: Name) {
    exists d :: d in Deps(reg, dag, n) && d in stuck
  }

  /** Every module of the set waits for another of the set. */
  ghost predicate Stuck(reg: seq<Name>, dag: Dag, stuck: set<Name>) {
    forall n :: n in stuck ==> WaitsIn(reg, dag, stuck, n)
  }

  lemma WaitsFor(reg: seq<Name>, dag: Dag, stuck: set<Name>, n: Name) returns (d: Name)
    requires Stuck(reg, dag, stuck) && n in stuck
    ensures d in Deps(reg, dag, n) && d in stuck
  {
    assert WaitsIn(reg, dag, stuck, n);
    d :| d in Deps(reg, dag, n) && d in stuck;
  }

  /** A walk of any length stays in a stuck set. */
  lemma {:induction false} Walk(reg: seq<Name>, dag: Dag, stuck: set<Name>, n: Name, k: nat) returns (p: seq<Name>)
    requires n in stuck && Stuck(reg, dag, stuck)
    ensures |p| == k + 1 && p[0] == n && Path(reg, dag, p) && forall i :: 0 <= i < |p| ==> p[i] in stuck
    decreases k
  {
    hide Stuck, Deps;
    if k == 0 {
      p := [n];
    } else {
      var d := WaitsFor(reg, dag, stuck, n);
      var rest := Walk(reg, dag, stuck, d, k - 1);
      p := [n] + rest;
      assert forall i :: 1 <= i < |p| ==> p[i] == rest[i - 1];
    }
  }

  /** A non-empty stuck set contains a cycle. */
  lemma StuckHasCycle(reg: seq<Name>, dag: Dag, stuck: set<Name>) returns (c: seq<Name>)
    requires stuck != {} && Stuck(reg, dag, stuck)
    ensures Cycle(reg, dag, c)
  {
    hide Stuck, Deps;
    var n :| n in stuck;
    var p := Walk(reg, dag, stuck, n, |stuck|);
    var i, j := Pigeonhole(p, stuck);
    c := p[i..j + 1];
  }

  /** Every dependency stands before its dependent. */
  ghost predicate DepsFirst(reg: seq<Name>, dag: Dag, order: seq<Name>) {
    forall i, d :: 0 <= i < |order| && d in Deps(reg, dag, order[i]) ==> d in order[..i]
  }

  /** In such an order a path leads strictly backwards. */
  lemma {:induction false} PathsLeadBack(reg: seq<Name>, dag: Dag, order: seq<Name>, p: seq<Name>, i: nat)
    returns (j: nat)
    requires DepsFirst(reg, dag, order) && Path(reg, dag, p) && i < |order| && p[0] == order[i]
    ensures j <= i && order[j] == p[|p| - 1] && (|p| > 1 ==> j < i)
    decreases |p|
  {
    if |p| == 1 { return i; }
    assert p[1] in Deps(reg, dag, order[i]);
    assert p[1] in order[..i];
    var k :| 0 <= k < i && order[k] == p[1];
    j := PathsLeadBack(reg, dag, order, p[1..], k);
  }

  lemma OrderedIsAcyclic(reg: seq<Name>, dag: Dag, order: seq<Name>)
    requires DepsFirst(reg, dag, order) && Distinct(order) && forall n :: n in reg ==> n in order
    ensures Acyclic(reg, dag)
  {
    forall p ensures !Cycle(reg, dag, p) {
      if Cycle(reg, dag, p) {
        assert p[1] in Deps(reg, dag, p[0]) && p[0] in reg;
        var i :| 0 <= i < |order| && order[i] == p[0];
        var j := PathsLeadBack(reg, dag, order, p, i);
        assert false;
      }
    }
  }

  // ----- the order, as a function ---------------------------------------------------------------------------

  predicate Ready(reg: seq<Name>, dag: Dag, done: seq<Name>, n: Name) {
    forall d :: d in Deps(reg, dag, n) ==> d in done
  }

  function Roots(reg: seq<Name>, dag: Dag): seq<Name> {
    Select(reg, set n | n in reg && Deps(reg, dag, n) == [])
  }

  /** The modules whose last open dependency is `name`, in registration order. */
  function Freed(reg: seq<Name>, dag: Dag, done: seq<Name>, name: Name): seq<Name> {
    Select(reg, set n | n in reg && name in Deps(reg, dag, n) && Ready(reg, dag, done + [name], n))
  }

  /** Kahn's loop from a state on. */
  function Kahn(reg: seq<Name>, dag: Dag, done: seq<Name>, queue: seq<Name>): seq<Name>
    requires Within(reg, done) && forall n :: n in queue ==> n in reg
    decreases |reg| - |done|, |queue|
  {
    if queue == [] then done
    else if queue[0] in done then Kahn(reg, dag, done, queue[1..])
    else
      WithinSnoc(reg, done, queue[0]);
      Kahn(reg, dag, done + [queue[0]], queue[1..] + Freed(reg, dag, done, queue[0]))
  }

  /** Distinct registered names, so never more than there are. */
  ghost predicate Within(reg: seq<Name>, done: seq<Name>) {
    Distinct(done) && (forall n :: n in done ==> n in reg) && |done| <= |reg|
  }

  lemma {:induction false} DistinctCount(s: seq<Name>)
    requires Distinct(s)
    ensures |Names(s)| == |s|
  {
    if s != [] {
      DistinctCount(s[1..]);
      assert Names(s) == Names(s[1..]) + {s[0]};
      assert s[0] !in Names(s[1..]);
    } else {
      assert Names(s) == {};
    }
  }

  lemma {:induction false} NamesCount(s: seq<Name>)
    ensures |Names(s)| <= |s|
  {
    if s != [] {
      NamesCount(s[1..]);
      assert Names(s) == Names(s[1..]) + {s[0]};
    } else {
      assert Names(s) == {};
    }
  }

  lemma {:induction false} SubsetCount(a: set<Name>, b: set<Name>)
    requires a <= b
    ensures |a| <= |b| && (|a| == |b| ==> a == b)
  {
    assert b == a + (b - a);
  }

  lemma WithinSnoc(reg: seq<Name>, done: seq<Name>, n: Name)
    requires Within(reg, done) && n in reg && n !in done
    ensures Within(reg, done + [n])
  {
    DistinctCount(done + [n]);
    NamesCount(reg);
    SubsetCount(Names(done + [n]), Names(reg));
  }

  // ----- what the loop keeps -----------------------------------------------------------------------------------

  /** Done modules follow their dependencies, queued ones are ready, and whatever is ready is done or queued. */
  ghost predicate Sound(reg: seq<Name>, dag: Dag, done: seq<Name>, queue: seq<Name>) {
    && Within(reg, done) && (forall n :: n in queue ==> n in reg)
    && DepsFirst(reg, dag, done)
    && (forall n :: n in queue ==> Ready(reg, dag, done, n))
    && (forall n :: n in reg && Ready(reg, dag, done, n) ==> n in done || n in queue)
  }

  lemma SoundStart(reg: seq<Name>, dag: Dag)
    ensures Sound(reg, dag, [], Roots(reg, dag))
  {
    forall n | n in reg && Ready(reg, dag, [], n) ensures n in Roots(reg, dag) {
      assert Deps(reg, dag, n) != [] ==> Deps(reg, dag, n)[0] in Deps(reg, dag, n);
    }
  }

  lemma SoundStep(reg: seq<Name>, dag: Dag, done: seq<Name>, queue: seq<Name>)
    requires Sound(reg, dag, done, queue) && queue != [] && queue[0] !in done
    ensures Sound(reg, dag, done + [queue[0]], queue[1..] + Freed(reg, dag, done, queue[0]))
  {
    hide Deps, DepsFirst, Ready, Within;
    var name, later := queue[0], done + [queue[0]];
    WithinSnoc(reg, done, name);
    DepsFirstSnoc(reg, dag, done, name);
    forall n | n in queue[1..] ensures n in reg && Ready(reg, dag, later, n) { ReadyGrows(reg, dag, done, name, n); }
    forall n | n in reg && Ready(reg, dag, later, n)
      ensures n in later || n in queue[1..] || n in Freed(reg, dag, done, name) {
      ReadyGrows(reg, dag, done, name, n);
      assert queue == [name] + queue[1..];
    }
  }

  lemma ReadyGrows(reg: seq<Name>, dag: Dag, done: seq<Name>, name: Name, n: Name)
    ensures Ready(reg, dag, done, n) ==> Ready(reg, dag, done + [name], n)
    ensures Ready(reg, dag, done + [name], n) ==> Ready(reg, dag, done, n) || name in Deps(reg, dag, n)
  {
    hide Deps;
  }

  lemma DepsFirstSnoc(reg: seq<Name>, dag: Dag, done: seq<Name>, n: Name)
    requires DepsFirst(reg, dag, done) && Ready(reg, dag, done, n)
    ensures DepsFirst(reg, dag, done + [n])
  {
    hide Deps;
    var later := done + [n];
    forall i, d | 0 <= i < |later| && d in Deps(reg, dag, later[i]) ensures d in later[..i] {
      assert later[..i] == done[..i];
      if i == |done| { assert done[..i] == done; }
    }
  }

  /** At the end what is left, if anything, is stuck. */
  lemma {:induction false} KahnResult(reg: seq<Name>, dag: Dag, done: seq<Name>, queue: seq<Name>)
    requires Sound(reg, dag, done, queue)
    ensures Sound(reg, dag, Kahn(reg, dag, done, queue), []) && done <= Kahn(reg, dag, done, queue)
    decreases |reg| - |done|, |queue|
  {
    hide Deps, Freed;
    if queue != [] {
      if queue[0] in done {
        KahnResult(reg, dag, done, queue[1..]);
      } else {
        SoundStep(reg, dag, done, queue);
        KahnResult(reg, dag, done + [queue[0]], queue[1..] + Freed(reg, dag, done, queue[0]));
      }
    }
  }

  /** The order that the loop computes, starting from the modules without dependencies. */
  function Order(reg: seq<Name>, dag: Dag): seq<Name> {
    Kahn(reg, dag, [], Roots(reg, dag))
  }

  /** `resolveModuleOrder`, without regard to how maps are iterated. */
  ghost function Resolve(reg: seq<Name>, dag: Dag): Option<seq<Name>> {
    if |dag| == 0 then Some(reg)
    else if exists n :: n in reg && n in Deps(reg, dag, n) then None
    else if |Order(reg, dag)| != |reg| then None
    else Some(Order(reg, dag))
  }

  // ----- the main results ------------------------------------------------------------------------------------------

  /** The result is a permutation of the registered modules with every dependency first. */
  lemma ResolvedIsTopological(reg: seq<Name>, dag: Dag)
    requires Registry(reg) && Resolve(reg, dag).Some?
    ensures var order := Resolve(reg, dag).value;
      Distinct(order) && |order| == |reg| && Names(order) == Names(reg) && DepsFirst(reg, dag, order)
  {
    hide Kahn, Roots;
    if |dag| == 0 {
      assert forall n :: Deps(reg, dag, n) == [];
    } else {
      var order := Order(reg, dag);
      SoundStart(reg, dag);
      KahnResult(reg, dag, [], Roots(reg, dag));
      DistinctCount(order);
      DistinctCount(reg);
      SubsetCount(Names(order), Names(reg));
    }
  }

  /** It exists exactly when the registered modules have no dependency cycle. */
  lemma ResolvesExactlyWhenAcyclic(reg: seq<Name>, dag: Dag)
    requires Registry(reg)
    ensures Resolve(reg, dag).Some? <==> Acyclic(reg, dag)
  {
    hide Kahn, Roots, Deps;
    if Resolve(reg, dag).Some? {
      ResolvedIsTopological(reg, dag);
      var order := Resolve(reg, dag).value;
      forall n | n in reg ensures n in order { assert n in Names(reg); }
      OrderedIsAcyclic(reg, dag, order);
    } else if n :| n in reg && n in Deps(reg, dag, n) {
      assert Cycle(reg, dag, [n, n]);
    } else {
      LeftoverIsCyclic(reg, dag);
    }
  }

  lemma LeftoverIsCyclic(reg: seq<Name>, dag: Dag)
    requires Registry(reg) && |Order(reg, dag)| != |reg|
    ensures !Acyclic(reg, dag)
  {
    hide Kahn, Roots, Deps, Stuck, WaitsIn;
    var order := Order(reg, dag);
    SoundStart(reg, dag);
    KahnResult(reg, dag, [], Roots(reg, dag));
    LeftoverStuck(reg, dag, order);
    var c := StuckHasCycle(reg, dag, Names(reg) - Names(order));
  }

  lemma LeftoverStuck(reg: seq<Name>, dag: Dag, order: seq<Name>)
    requires Registry(reg) && Sound(reg, dag, order, []) && |order| != |reg|
    ensures var left := Names(reg) - Names(order); left != {} && Stuck(reg, dag, left)
  {
    hide Deps, DepsFirst, WaitsIn;
    var left := Names(reg) - Names(order);
    DistinctCount(order);
    DistinctCount(reg);
    assert Names(reg) == Names(order) + left;
    forall m | m in left ensures WaitsIn(reg, dag, left, m) { LeftoverWaits(reg, dag, order, m); }
  }

  lemma LeftoverWaits(reg: seq<Name>, dag: Dag, order: seq<Name>, m: Name)
    requires Sound(reg, dag, order, []) && m in reg && m !in order
    ensures WaitsIn(reg, dag, Names(reg) - Names(order), m)
  {
    assert !Ready(reg, dag, order, m);
  }

  lemma {:induction false} SelectDistinct(s: seq<Name>, keep: set<Name>)
    requires Distinct(s)
    ensures Distinct(Select(s, keep))
  {
    if s != [] {
      SelectDistinct(s[1..], keep);
      assert s[0] !in s[1..];
    }
  }

  lemma {:induction false} QueueComesFirst(reg: seq<Name>, dag: Dag, done: seq<Name>, first: seq<Name>, rest: seq<Name>)
    requires Within(reg, done) && (forall n :: n in first || n in rest ==> n in reg) && Distinct(done + first)
    ensures done + first <= Kahn(reg, dag, done, first + rest)
    decreases |reg| - |done|, |first + rest|
  {
    hide Freed;
    var queue := first + rest;
    if first == [] {
      assert done + first == done;
      KahnExtends(reg, dag, done, rest);
      assert queue == rest;
    } else {
      var n := first[0];
      assert (done + first)[|done|] == n && forall i :: 0 <= i < |done| ==> (done + first)[i] == done[i];
      WithinSnoc(reg, done, n);
      var more := rest + Freed(reg, dag, done, n);
      assert queue[1..] + Freed(reg, dag, done, n) == first[1..] + more;
      assert done + [n] + first[1..] == done + first;
      FreedRegistered(reg, dag, done, n);
      QueueComesFirst(reg, dag, done + [n], first[1..], more);
    }
  }

  lemma FreedRegistered(reg: seq<Name>, dag: Dag, done: seq<Name>, name: Name)
    ensures forall n :: n in Freed(reg, dag, done, name) ==> n in reg
  {
  }

  lemma {:induction false} KahnExtends(reg: seq<Name>, dag: Dag, done: seq<Name>, queue: seq<Name>)
    requires Within(reg, done) && forall n :: n in queue ==> n in reg
    ensures done <= Kahn(reg, dag, done, queue)
    decreases |reg| - |done|, |queue|
  {
    if queue != [] {
      if queue[0] in done {
        KahnExtends(reg, dag, done, queue[1..]);
      } else {
        WithinSnoc(reg, done, queue[0]);
        KahnExtends(reg, dag, done + [queue[0]], queue[1..] + Freed(reg, dag, done, queue[0]));
      }
    }
  }

  /** All modules without registered dependencies come first, in registration order;
      so a module that the graph does not mention runs before every module with dependencies. */
  lemma RootsComeFirst(reg: seq<Name>, dag: Dag)
    requires Registry(reg)
    ensures Roots(reg, dag) <= Order(reg, dag)
  {
    hide Kahn;
    var roots := Roots(reg, dag);
    SelectDistinct(reg, set n | n in reg && Deps(reg, dag, n) == []);
    assert [] + roots == roots && roots + [] == roots;
    QueueComesFirst(reg, dag, [], roots, []);
  }
}
