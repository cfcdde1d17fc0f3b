/** `resolveModuleOrder` and the module loop of the verification engine. */
module ModuleOrder {
  import opened Records
  import opened ModuleGraph

  // ----- sorting by registration order -------------------------------------------------------------------

  /** The rank map's answer: the last place of the name, or zero. */
  function Rank(reg: seq<Name>, n: Name): nat {
    if reg == [] then 0 else if reg[|reg| - 1] == n then |reg| - 1 else Rank(reg[..|reg| - 1], n)
  }

  ghost predicate RankSorted(s: seq<Name>, reg: seq<Name>) {
    forall i, j :: 0 <= i < j < |s| ==> Rank(reg, s[i]) <= Rank(reg, s[j])
  }

  /** Sorted except that place j may be smaller than what stands before it. */
  ghost predicate SortedButFor(s: seq<Name>, reg: seq<Name>, j: nat, n: nat) {
    forall a, b :: 0 <= a < b < n <= |s| && b != j ==> Rank(reg, s[a]) <= Rank(reg, s[b])
  }

  method Ranks(regOrder: seq<Name>) returns (rank: map<Name, nat>)
    ensures forall n :: (if n in rank then rank[n] else 0) == Rank(regOrder, n)
  {
    rank := map[];
    for i := 0 to |regOrder|
      invariant forall n :: (if n in rank then rank[n] else 0) == Rank(regOrder[..i], n)
    {
      assert regOrder[..i + 1][..i] == regOrder[..i];
      rank := rank[regOrder[i] := i];
    }
    assert regOrder[..|regOrder|] == regOrder;
  }

  /** `sortByRegOrder`: an insertion sort in place. */
  method SortByRegOrder(names: array<Name>, regOrder: seq<Name>)
    modifies names
    ensures RankSorted(names[..], regOrder) && multiset(names[..]) == multiset(old(names[..]))
  {
    hide Rank;
    var rank := Ranks(regOrder);
    var i := 1;
    while i < names.Length
      invariant 1 <= i && (names.Length > 0 ==> i <= names.Length)
      invariant RankSorted(names[..if names.Length == 0 then 0 else i], regOrder)
      invariant multiset(names[..]) == multiset(old(names[..]))
    {
      SinkDown(names, regOrder, rank, i);
      i := i + 1;
    }
    assert names[..] == names[..names.Length];
  }

  /** The inner loop: element i goes down to its place. */
  method SinkDown(names: array<Name>, regOrder: seq<Name>, rank: map<Name, nat>, i: nat)
    requires 0 < i < names.Length && RankSorted(names[..i], regOrder)
    requires forall n :: (if n in rank then rank[n] else 0) == Rank(regOrder, n)
    modifies names
    ensures RankSorted(names[..i + 1], regOrder) && multiset(names[..]) == multiset(old(names[..]))
  {
    hide Rank, SortedButFor, RankSorted;
    var j := i;
    SinkStart(names[..], regOrder, i);
    while j > 0 &&
      (if names[j - 1] in rank then rank[names[j - 1]] else 0) > (if names[j] in rank then rank[names[j]] else 0)
      invariant 0 <= j <= i
      invariant SortedButFor(names[..], regOrder, j, i + 1)
      invariant multiset(names[..]) == multiset(old(names[..]))
    {
      SinkStep(names[..], regOrder, j, i + 1);
      Swap(names, j);
      j := j - 1;
    }
    SinkEnd(names[..], regOrder, j, i + 1);
  }

  function Swapped(s: seq<Name>, j: nat): seq<Name>
    requires 0 < j < |s|
  {
    s[j - 1 := s[j]][j := s[j - 1]]
  }

  method Swap(names: array<Name>, j: nat)
    requires 0 < j < names.Length
    modifies names
    ensures names[..] == Swapped(old(names[..]), j)
  {
    names[j - 1], names[j] := names[j], names[j - 1];
  }

  lemma SinkStart(s: seq<Name>, reg: seq<Name>, i: nat)
    requires i < |s| && RankSorted(s[..i], reg)
    ensures SortedButFor(s, reg, i, i + 1)
  {
    assert forall a :: 0 <= a < i ==> s[..i][a] == s[a];
  }

  lemma SinkStep(s: seq<Name>, reg: seq<Name>, j: nat, n: nat)
    requires 0 < j < n <= |s| && SortedButFor(s, reg, j, n) && Rank(reg, s[j - 1]) > Rank(reg, s[j])
    ensures SortedButFor(Swapped(s, j), reg, j - 1, n) && multiset(Swapped(s, j)) == multiset(s)
  {
    hide Rank;
    var t := Swapped(s, j);
    assert forall a :: 0 <= a < |s| && a != j && a != j - 1 ==> t[a] == s[a];
  }

  lemma SinkEnd(s: seq<Name>, reg: seq<Name>, j: nat, n: nat)
    requires j < n <= |s| && SortedButFor(s, reg, j, n) && (j > 0 ==> Rank(reg, s[j - 1]) <= Rank(reg, s[j]))
    ensures RankSorted(s[..n], reg)
  {
    hide Rank;
    forall a | 0 <= a < j ensures Rank(reg, s[a]) <= Rank(reg, s[j]) {
      assert a < j - 1 ==> Rank(reg, s[a]) <= Rank(reg, s[j - 1]);
    }
  }

  lemma {:induction false} SelectSnoc(s: seq<Name>, n: Name, keep: set<Name>)
    ensures Select(s + [n], keep) == Select(s, keep) + if n in keep then [n] else []
  {
    if s == [] {
      assert s + [n] == [n] && [n][1..] == [];
    } else {
      assert (s + [n])[1..] == s[1..] + [n];
      SelectSnoc(s[1..], n, keep);
    }
  }

  lemma {:induction false} RankOfDistinct(reg: seq<Name>, i: nat)
    requires Distinct(reg) && i < |reg|
    ensures Rank(reg, reg[i]) == i
  {
    var n := |reg| - 1;
    if i < n {
      RankOfDistinct(reg[..n], i);
      assert reg[..n][i] == reg[i];
    }
  }

  /** Distinct registered names sorted by rank are the registration order with the others left out. */
  lemma {:induction false} SortedIsSelect(s: seq<Name>, reg: seq<Name>)
    requires Distinct(reg) && Distinct(s) && (forall n :: n in s ==> n in reg) && RankSorted(s, reg)
    ensures s == Select(reg, Names(s))
    decreases |reg|
  {
    hide Rank, RankSorted, Select;
    if reg == [] {
      NoneSelected(s, reg);
    } else {
      var m := |reg| - 1;
      var front, last := reg[..m], reg[m];
      assert reg == front + [last];
      SelectSnoc(front, last, Names(s));
      if last in s {
        LastIsHighest(s, reg);
        FrontSorted(s, reg);
        RankInFront(s[..|s| - 1], reg);
        SortedIsSelect(s[..|s| - 1], front);
        SelectFront(s, front);
      } else {
        RankInFront(s, reg);
        SortedIsSelect(s, front);
      }
    }
  }

  lemma NoneSelected(s: seq<Name>, reg: seq<Name>)
    requires forall n :: n in s ==> n in reg
    ensures reg == [] ==> s == Select(reg, Names(s))
  {
    assert |s| > 0 ==> s[0] in reg;
  }

  lemma FrontSorted(s: seq<Name>, reg: seq<Name>)
    requires s != [] && RankSorted(s, reg) && Distinct(s) && forall n :: n in s ==> n in reg
    ensures var t := s[..|s| - 1]; RankSorted(t, reg) && Distinct(t) && forall n :: n in t ==> n in reg
  {
    hide Rank;
  }

  lemma SelectFront(s: seq<Name>, front: seq<Name>)
    requires s != [] && s[|s| - 1] !in front
    ensures Select(front, Names(s)) == Select(front, Names(s[..|s| - 1])) && s == s[..|s| - 1] + [s[|s| - 1]]
  {
    SelectSame(front, Names(s), Names(s[..|s| - 1]));
  }

  lemma LastIsHighest(s: seq<Name>, reg: seq<Name>)
    requires reg != [] && Distinct(reg) && Distinct(s) && (forall n :: n in s ==> n in reg) && RankSorted(s, reg) &&
      reg[|reg| - 1] in s
    ensures s[|s| - 1] == reg[|reg| - 1]
    ensures reg[|reg| - 1] !in s[..|s| - 1]
  {
    hide Rank;
    var last := reg[|reg| - 1];
    RankOfDistinct(reg, |reg| - 1);
    var p :| 0 <= p < |s| && s[p] == last;
    assert s[|s| - 1] in s;
    var q :| 0 <= q < |reg| && reg[q] == s[|s| - 1];
    RankOfDistinct(reg, q);
    assert Rank(reg, s[p]) <= Rank(reg, s[|s| - 1]);
  }

  lemma RankInFront(s: seq<Name>, reg: seq<Name>)
    requires reg != [] && Distinct(s) && RankSorted(s, reg) && (forall n :: n in s ==> n in reg) && reg[|reg| - 1] !in s
    ensures var front := reg[..|reg| - 1];
      RankSorted(s, front) && forall n :: n in s ==> n in front
  {
    var front := reg[..|reg| - 1];
    forall n | n in s ensures Rank(front, n) == Rank(reg, n) { }
    forall n | n in s ensures n in front {
      var i :| 0 <= i < |reg| && reg[i] == n;
      assert front[i] == n;
    }
  }

  lemma {:induction false} SelectSame(s: seq<Name>, a: set<Name>, b: set<Name>)
    requires forall n :: n in s ==> (n in a <==> n in b)
    ensures Select(s, a) == Select(s, b)
  {
    if s != [] { SelectSame(s[1..], a, b); }
  }

  // ----- building the graph ---------------------------------------------------------------------------------

  datatype Graph = Graph(deps: map<Name, seq<Name>>, adj: map<Name, seq<Name>>, indegree: map<Name, int>)

  function At(m: map<Name, seq<Name>>, n: Name): seq<Name> {
    if n in m then m[n] else []
  }

  /** The three maps describe the same edges, repeats included. */
  ghost predicate Consistent(g: Graph, reg: seq<Name>) {
    && (forall n :: n in reg <==> n in g.indegree)
    && (forall n :: n in reg ==> g.indegree[n] == |At(g.deps, n)|)
    && (forall n, d :: EdgeCounted(g, reg, n, d))
  }

  ghost predicate EdgeCounted(g: Graph, reg: seq<Name>, n: Name, d: Name) {
    multiset(At(g.adj, d))[n] == if n in reg then multiset(At(g.deps, n))[d] else 0
  }

  /** One edge more. */
  function AddEdge(g: Graph, node: Name, dep: Name): Graph
    requires node in g.indegree
  {
    Graph(g.deps[node := At(g.deps, node) + [dep]], g.adj[dep := At(g.adj, dep) + [node]],
      g.indegree[node := g.indegree[node] + 1])
  }

  lemma AddEdgeConsistent(g: Graph, reg: seq<Name>, node: Name, dep: Name)
    requires Consistent(g, reg) && node in reg
    ensures Consistent(AddEdge(g, node, dep), reg)
  {
    hide EdgeCounted;
    var h := AddEdge(g, node, dep);
    forall n, d ensures EdgeCounted(h, reg, n, d) {
      assert EdgeCounted(g, reg, n, d);
      AddEdgeCounted(g, reg, node, dep, n, d);
    }
  }

  lemma AddEdgeCounted(g: Graph, reg: seq<Name>, node: Name, dep: Name, n: Name, d: Name)
    requires node in g.indegree && node in reg && EdgeCounted(g, reg, n, d)
    ensures EdgeCounted(AddEdge(g, node, dep), reg, n, d)
  {
    CountSnoc(At(g.adj, d), node, n);
    CountSnoc(At(g.deps, n), dep, d);
  }

  lemma CountSnoc(s: seq<Name>, last: Name, n: Name)
    ensures multiset(s + [last])[n] == multiset(s)[n] + if n == last then 1 else 0
  {
  }

  /** The inner loop: the listed dependencies of one registered node; it stops at a self-dependency. */
  method EnterNode(reg: seq<Name>, dag: Dag, g: Graph, node: Name) returns (h: Graph, selfDep: bool)
    requires Consistent(g, reg) && node in reg && node in dag && At(g.deps, node) == []
    ensures selfDep <==> node in Deps(reg, dag, node)
    ensures !selfDep ==> Consistent(h, reg) && At(h.deps, node) == Deps(reg, dag, node)
    ensures !selfDep ==> forall n :: n != node ==> At(h.deps, n) == At(g.deps, n)
  {
    hide Consistent, Select;
    var raw := dag[node];
    h, selfDep := g, false;
    NothingSelected(Names(reg));
    for i := 0 to |raw|
      invariant Consistent(h, reg) && At(h.deps, node) == Select(raw[..i], Names(reg))
      invariant forall n :: n != node ==> At(h.deps, n) == At(g.deps, n)
      invariant node !in At(h.deps, node)
    {
      var dep := raw[i];
      assert raw[..i + 1] == raw[..i] + [dep];
      SelectSnoc(raw[..i], dep, Names(reg));
      if dep !in reg { continue; }
      if dep == node { return h, true; }
      AddEdgeConsistent(h, reg, node, dep);
      assert node in h.indegree by { ConsistentKeys(h, reg); }
      h := AddEdge(h, node, dep);
    }
    assert raw[..|raw|] == raw;
  }

  lemma NothingSelected(keep: set<Name>)
    ensures Select([], keep) == []
  {
  }

  lemma ConsistentKeys(g: Graph, reg: seq<Name>)
    requires Consistent(g, reg)
    ensures forall n :: n in reg <==> n in g.indegree
  {
  }

  /** The loop over the graph; nodes come in any order, as a map is iterated. */
  method BuildGraph(reg: seq<Name>, dag: Dag) returns (g: Graph, selfDep: bool)
    ensures selfDep <==> exists n :: n in reg && n in Deps(reg, dag, n)
    ensures !selfDep ==> Consistent(g, reg) && forall n :: At(g.deps, n) == Deps(reg, dag, n)
  {
    hide Consistent;
    var todo := dag.Keys;
    g, selfDep := Graph(map[], map[], map n | n in reg :: 0), false;
    NoEdges(g, reg);
    while todo != {}
      invariant todo <= dag.Keys && Consistent(g, reg)
      invariant forall n :: At(g.deps, n) == if n in todo then [] else Deps(reg, dag, n)
      invariant forall n :: n in reg && n !in todo ==> n !in Deps(reg, dag, n)
    {
      var node :| node in todo;
      todo := todo - {node};
      if node !in reg { continue; }
      g, selfDep := EnterNode(reg, dag, g, node);
      if selfDep { return; }
    }
  }

  lemma NoEdges(g: Graph, reg: seq<Name>)
    requires g == Graph(map[], map[], map n | n in reg :: 0)
    ensures Consistent(g, reg)
  {
  }

  // ----- Kahn's loop ---------------------------------------------------------------------------------------

  /** The entries not yet done. */
  function Open(ds: seq<Name>, done: seq<Name>): nat {
    if ds == [] then 0 else (if ds[0] in done then 0 else 1) + Open(ds[1..], done)
  }

  lemma {:induction false} OpenStep(ds: seq<Name>, done: seq<Name>, name: Name)
    requires name !in done
    ensures Open(ds, done) == Open(ds, done + [name]) + multiset(ds)[name]
  {
    if ds != [] {
      OpenStep(ds[1..], done, name);
      assert ds == [ds[0]] + ds[1..];
    }
  }

  lemma {:induction false} OpenReady(ds: seq<Name>, done: seq<Name>)
    ensures Open(ds, done) == 0 <==> forall d :: d in ds ==> d in done
  {
    if ds != [] {
      OpenReady(ds[1..], done);
      assert forall d :: d in ds <==> d == ds[0] || d in ds[1..];
    }
  }

  lemma {:induction false} OpenNone(ds: seq<Name>)
    ensures Open(ds, []) == |ds|
  {
    if ds != [] { OpenNone(ds[1..]); }
  }

  /** The indegrees count the open dependencies. */
  ghost predicate Degrees(reg: seq<Name>, dag: Dag, indegree: map<Name, int>, done: seq<Name>) {
    && (forall n :: n in reg <==> n in indegree)
    && (forall n :: n in reg ==> indegree[n] == Open(Deps(reg, dag, n), done))
  }

  /** Each successor entry took one off, and the modules with nothing left are freed. */
  ghost predicate Released(succs: seq<Name>, indegree: map<Name, int>, after: map<Name, int>, freed: seq<Name>) {
    && after.Keys == indegree.Keys
    && (forall n :: n in indegree ==> after[n] == indegree[n] - multiset(succs)[n])
    && Distinct(freed) && forall n :: n in freed <==> n in succs && n in after && after[n] == 0
  }

  /** The loop over the successors. */
  method Release(reg: seq<Name>, succs: seq<Name>, indegree: map<Name, int>)
    returns (after: map<Name, int>, freed: seq<Name>)
    requires forall n :: n in succs ==> n in indegree
    requires forall n :: n in indegree ==> multiset(succs)[n] <= indegree[n]
    ensures Released(succs, indegree, after, freed)
  {
    after, freed := indegree, [];
    for j := 0 to |succs|
      invariant after.Keys == indegree.Keys && Released(succs[..j], indegree, after, freed)
    {
      hide Released;
      var succ := succs[j];
      assert succs[..j + 1] == succs[..j] + [succ];
      PrefixCount(succs, j + 1, succ);
      ReleaseStep(succs[..j], succ, indegree, after, freed);
      after := after[succ := after[succ] - 1];
      if after[succ] == 0 { freed := freed + [succ]; }
    }
    assert succs[..|succs|] == succs;
  }

  lemma ReleaseStep(succs: seq<Name>, succ: Name, indegree: map<Name, int>, after: map<Name, int>, freed: seq<Name>)
    requires Released(succs, indegree, after, freed) && succ in indegree &&
      multiset(succs + [succ])[succ] <= indegree[succ]
    ensures var more := after[succ := after[succ] - 1];
      Released(succs + [succ], indegree, more, if more[succ] == 0 then freed + [succ] else freed)
  {
    forall n ensures multiset(succs + [succ])[n] == multiset(succs)[n] + if n == succ then 1 else 0 {
      CountSnoc(succs, succ, n);
    }
    InMultiset(succs, succ);
  }

  lemma PrefixCount(s: seq<Name>, j: nat, n: Name)
    requires j <= |s|
    ensures multiset(s[..j])[n] <= multiset(s)[n]
  {
    assert s == s[..j] + s[j..];
  }

  /** `sortByRegOrder` as the loop uses it. */
  method InRegOrder(freed: seq<Name>, reg: seq<Name>) returns (sorted: seq<Name>)
    requires Distinct(reg) && Distinct(freed) && forall n :: n in freed ==> n in reg
    ensures sorted == Select(reg, Names(freed))
  {
    hide Select, RankSorted;
    var names := new Name[|freed|](i requires 0 <= i < |freed| => freed[i]);
    assert names[..] == freed;
    SortByRegOrder(names, reg);
    sorted := names[..];
    SameNames(freed, sorted);
    forall n | n in sorted ensures n in reg { assert n in Names(freed); }
    SortedIsSelect(sorted, reg);
  }

  lemma SameNames(a: seq<Name>, b: seq<Name>)
    requires multiset(a) == multiset(b) && Distinct(a)
    ensures Distinct(b) && Names(a) == Names(b)
  {
    forall n ensures n in a <==> n in b { assert n in multiset(a) <==> n in multiset(b); }
    forall i, j | 0 <= i < j < |b| ensures b[i] != b[j] {
      if b[i] == b[j] { TwiceCounted(b, i, j); OnceCounted(a, b[i]); assert false; }
    }
  }

  lemma TwiceCounted(s: seq<Name>, i: nat, j: nat)
    requires i < j < |s| && s[i] == s[j]
    ensures multiset(s)[s[i]] >= 2
  {
    assert s == s[..j] + ([s[j]] + s[j + 1..]);
    assert s[..j][i] == s[i];
  }

  lemma {:induction false} OnceCounted(s: seq<Name>, n: Name)
    requires Distinct(s)
    ensures multiset(s)[n] <= 1
  {
    if s != [] {
      OnceCounted(s[1..], n);
      assert s == [s[0]] + s[1..];
    }
  }

  /** What one round of the loop does to degrees and queue. */
  lemma Round(reg: seq<Name>, dag: Dag, g: Graph, indegree: map<Name, int>, after: map<Name, int>, freed: seq<Name>,
              done: seq<Name>, name: Name)
    requires Consistent(g, reg) && (forall n :: At(g.deps, n) == Deps(reg, dag, n)) &&
      Degrees(reg, dag, indegree, done) && name !in done
    requires Released(At(g.adj, name), indegree, after, freed)
    ensures Degrees(reg, dag, after, done + [name])
    ensures (forall n :: n in freed ==> n in reg) && Select(reg, Names(freed)) == Freed(reg, dag, done, name)
  {
    hide Deps, Open, Select;
    forall n | n in reg ensures after[n] == Open(Deps(reg, dag, n), done + [name])
      ensures n in freed <==> name in Deps(reg, dag, n) && Ready(reg, dag, done + [name], n) {
      assert EdgeCounted(g, reg, n, name);
      OpenStep(Deps(reg, dag, n), done, name);
      OpenReady(Deps(reg, dag, n), done + [name]);
      InMultiset(At(g.adj, name), n);
      InMultiset(Deps(reg, dag, n), name);
    }
    SelectSame(reg, Names(freed), set n | n in reg && name in Deps(reg, dag, n) && Ready(reg, dag, done + [name], n));
  }

  lemma InMultiset(s: seq<Name>, n: Name)
    ensures n in s <==> multiset(s)[n] > 0
  {
    assert n in s <==> n in multiset(s);
  }

  lemma SuccessorsKnown(reg: seq<Name>, dag: Dag, g: Graph, indegree: map<Name, int>, done: seq<Name>, name: Name)
    requires Consistent(g, reg) && (forall n :: At(g.deps, n) == Deps(reg, dag, n)) &&
      Degrees(reg, dag, indegree, done) && name !in done
    ensures forall n :: n in At(g.adj, name) ==> n in indegree
    ensures forall n :: n in indegree ==> multiset(At(g.adj, name))[n] <= indegree[n]
  {
    hide Deps, Open;
    forall n ensures n in At(g.adj, name) ==> n in indegree
      ensures n in indegree ==> multiset(At(g.adj, name))[n] <= indegree[n] {
      assert EdgeCounted(g, reg, n, name);
      InMultiset(At(g.adj, name), n);
      OpenStep(Deps(reg, dag, n), done, name);
    }
  }

  /** Kahn's loop over the built graph. */
  method RunKahn(reg: seq<Name>, dag: Dag, g: Graph) returns (ordered: seq<Name>)
    requires Distinct(reg) && Consistent(g, reg) && forall n :: At(g.deps, n) == Deps(reg, dag, n)
    ensures ordered == Order(reg, dag)
  {
    hide Deps, Select, Degrees, Consistent, Freed;
    var indegree := g.indegree;
    DegreesStart(reg, dag, g);
    var queue := FirstQueue(reg, dag, indegree);
    ordered := [];
    var seen := {};
    while |queue| > 0
      invariant Within(reg, ordered) && (forall n :: n in queue ==> n in reg) && seen == Names(ordered)
      invariant Degrees(reg, dag, indegree, ordered) && Kahn(reg, dag, ordered, queue) == Order(reg, dag)
      decreases |reg| - |ordered|, |queue|
    {
      var name := queue[0];
      queue := queue[1..];
      if name in seen { continue; }
      seen := seen + {name};
      SuccessorsKnown(reg, dag, g, indegree, ordered, name);
      var after, freed := Release(reg, At(g.adj, name), indegree);
      Round(reg, dag, g, indegree, after, freed, ordered, name);
      indegree := after;
      freed := InRegOrder(freed, reg);
      WithinSnoc(reg, ordered, name);
      FreedRegistered(reg, dag, ordered, name);
      ordered := ordered + [name];
      queue := queue + freed;
    }
  }

  lemma DegreesStart(reg: seq<Name>, dag: Dag, g: Graph)
    requires Consistent(g, reg) && forall n :: At(g.deps, n) == Deps(reg, dag, n)
    ensures Degrees(reg, dag, g.indegree, [])
  {
    forall n | n in reg ensures g.indegree[n] == Open(Deps(reg, dag, n), []) { OpenNone(Deps(reg, dag, n)); }
  }

  /** The modules with indegree zero, in registration order. */
  method FirstQueue(reg: seq<Name>, dag: Dag, indegree: map<Name, int>) returns (queue: seq<Name>)
    requires Degrees(reg, dag, indegree, [])
    ensures queue == Roots(reg, dag)
  {
    hide Deps, Select;
    ghost var roots := set n | n in reg && Deps(reg, dag, n) == [];
    queue := [];
    NothingSelected(roots);
    for i := 0 to |reg|
      invariant queue == Select(reg[..i], roots)
    {
      assert reg[..i + 1] == reg[..i] + [reg[i]];
      SelectSnoc(reg[..i], reg[i], roots);
      OpenNone(Deps(reg, dag, reg[i]));
      if indegree[reg[i]] == 0 { queue := queue + [reg[i]]; }
    }
    assert reg[..|reg|] == reg;
  }

  /** `resolveModuleOrder`: the same answer however the maps are iterated. */
  method ResolveModuleOrder(reg: seq<Name>, dag: Dag) returns (order: Option<seq<Name>>, deps: map<Name, seq<Name>>)
    requires Registry(reg)
    ensures order == Resolve(reg, dag)
    ensures order.Some? ==> forall n :: At(deps, n) == Deps(reg, dag, n)
  {
    hide Order;
    if |dag| == 0 { return Some(reg), map[]; }
    var g, selfDep := BuildGraph(reg, dag);
    if selfDep { return None, map[]; }
    var ordered := RunKahn(reg, dag, g);
    if |ordered| != |reg| { return None, map[]; }
    return Some(ordered), g.deps;
  }
}
