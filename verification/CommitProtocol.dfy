/** Flush and compaction committing to one table list and one manifest, interleaved step by step. */
module CommitProtocol {
  import opened TableIds
  import opened Compaction

  /** A flush between taking an id and listing its table. */
  datatype FlushPc = NoFlush | Allocated(id: nat) | FlushCommitted(id: nat)

  /** A compaction; `kept` is the list computed for the manifest and for memory. */
  datatype CompactPc =
    | NoCompaction
    | Picked(picked: seq<nat>, oldLive: seq<nat>)
    | MergedTo(picked: seq<nat>, oldLive: seq<nat>, id: nat)
    | Listed(picked: seq<nat>, oldLive: seq<nat>, id: nat, kept: seq<nat>)
    | SetCommitted(picked: seq<nat>, oldLive: seq<nat>, id: nat, kept: seq<nat>)
    | RollingBack(oldLive: seq<nat>)

  /** `list` is db.sstables by id, `live` the manifest's set. */
  datatype State = State(list: seq<nat>, live: set<nat>, nextId: nat, flush: FlushPc, compact: CompactPc)

  datatype Action =
    | FlushAllocate | FlushFail | FlushCommit | FlushPublish
    | CompactPick | CompactMerge | CompactFail | CompactList | CompactCommit | CompactSwap | CompactRollback
    | Reopen

  function Without(list: seq<nat>, drop: seq<nat>): (r: seq<nat>)
    ensures forall x :: x in r <==> x in list && x !in drop
  {
    if list == [] then [] else (if list[0] in drop then [] else [list[0]]) + Without(list[1..], drop)
  }

  predicate AllIn(xs: seq<nat>, list: seq<nat>) {
    forall x :: x in xs ==> x in list
  }

  predicate Enabled(s: State, a: Action) {
    match a
    case FlushAllocate => s.flush == NoFlush
    case FlushFail => s.flush.Allocated?
    case FlushCommit => s.flush.Allocated?
    case FlushPublish => s.flush.FlushCommitted?
    case CompactPick => s.compact == NoCompaction && |s.list| >= PICK_COUNT
    case CompactMerge => s.compact.Picked?
    case CompactFail => s.compact.Picked? || s.compact.MergedTo? || s.compact.Listed?
    case CompactList => s.compact.MergedTo?
    case CompactCommit => s.compact.Listed?
    case CompactSwap => s.compact.SetCommitted?
    case CompactRollback => s.compact.RollingBack?
    case Reopen => true
  }

  ghost function Step(s: State, a: Action): State
    requires Enabled(s, a)
  {
    match a
    case FlushAllocate => s.(nextId := s.nextId + 1, flush := Allocated(s.nextId + 1))
    case FlushFail => s.(flush := NoFlush)
    case FlushCommit => s.(live := s.live + {s.flush.id}, flush := FlushCommitted(s.flush.id))
    case FlushPublish => s.(list := s.list + [s.flush.id], flush := NoFlush)
    case CompactPick => s.(compact := Picked(s.list[..PICK_COUNT], s.list))
    case CompactMerge => s.(nextId := s.nextId + 1,
      compact := MergedTo(s.compact.picked, s.compact.oldLive, s.nextId + 1))
    case CompactFail => s.(compact := NoCompaction)
    case CompactList =>
      if !AllIn(s.compact.picked, s.list) then s.(compact := NoCompaction)
      else
        var c := s.compact;
        s.(compact := Listed(c.picked, c.oldLive, c.id, Without(s.list, c.picked) + [c.id]))
    case CompactCommit =>
      var c := s.compact;
      s.(live := Elements(c.kept), compact := SetCommitted(c.picked, c.oldLive, c.id, c.kept))
    case CompactSwap =>
      if !AllIn(s.compact.picked, s.list) then s.(compact := RollingBack(s.compact.oldLive))
      else s.(list := s.compact.kept, compact := NoCompaction)
    case CompactRollback => s.(live := Elements(s.compact.oldLive), compact := NoCompaction)
    case Reopen => State(SortedIds(s.live), s.live, if s.live == {} then 0 else MaxId(s.live), NoFlush, NoCompaction)
  }

  ghost function Initial(): State {
    State([], {}, 0, NoFlush, NoCompaction)
  }

  ghost predicate IsRun(ss: seq<State>, acts: seq<Action>) {
    && |ss| == |acts| + 1 && ss[0] == Initial()
    && forall i :: 0 <= i < |acts| ==> Enabled(ss[i], acts[i]) && ss[i + 1] == Step(ss[i], acts[i])
  }

  // ----- every interleaving ----------------------------------------------------------

  ghost predicate PickedPresent(s: State) {
    match s.compact
    case NoCompaction => true
    case RollingBack(_) => false
    case _ => AllIn(s.compact.picked, s.list)
  }

  /** In every run whatsoever the picked tables stay listed, so the re-checks and the rollback never fire. */
  lemma {:induction false} RollbackNeverRuns(ss: seq<State>, acts: seq<Action>)
    requires IsRun(ss, acts)
    ensures PickedPresent(ss[|acts|])
    decreases |acts|
  {
    if acts != [] {
      var n := |acts| - 1;
      RollbackNeverRuns(ss[..n + 1], acts[..n]);
      assert ss[..n + 1][n] == ss[n];
      assert ss[n + 1] == Step(ss[n], acts[n]);
    }
  }

  // ----- runs without overlap --------------------------------------------------------

  ghost predicate Overlapping(s: State) {
    s.flush != NoFlush && s.compact != NoCompaction
  }

  ghost predicate IdsBounded(s: State) {
    && Ascending(s.list)
    && (forall x :: x in s.list || x in s.live ==> x <= s.nextId)
    && (s.flush.Allocated? || s.flush.FlushCommitted? ==> s.flush.id == s.nextId && s.flush.id !in s.list)
  }

  ghost predicate Agreement(s: State) {
    && IdsBounded(s) && PickedPresent(s)
    && (match s.flush
        case FlushCommitted(id) => s.live == Elements(s.list) + {id}
        case _ => !s.compact.SetCommitted? ==> s.live == Elements(s.list))
    && match s.compact
       case MergedTo(picked, _, id) => id == s.nextId && id !in s.list
       case Listed(picked, _, id, kept) => kept == Without(s.list, picked) + [id] && id == s.nextId && id !in s.list
       case SetCommitted(picked, _, id, kept) =>
         kept == Without(s.list, picked) + [id] && id == s.nextId && id !in s.list && s.live == Elements(kept)
       case _ => true
  }

  lemma {:induction false} WithoutAscending(list: seq<nat>, drop: seq<nat>)
    requires Ascending(list)
    ensures Ascending(Without(list, drop))
  {
    if list != [] {
      WithoutAscending(list[1..], drop);
      var rest := Without(list[1..], drop);
      forall j | 0 <= j < |rest| ensures list[0] < rest[j] {
        assert rest[j] in rest;
        var i :| 0 <= i < |list[1..]| && list[1..][i] == rest[j];
        assert list[0] < list[i + 1];
      }
    }
  }

  lemma AgreementStep(s: State, a: Action)
    requires Agreement(s) && Enabled(s, a) && !Overlapping(s) && !Overlapping(Step(s, a))
    ensures Agreement(Step(s, a))
  {
    hide SortedIds, Without;
    match a
    case FlushPublish =>
      SnocElements(s.list, s.flush.id);
      forall i | 0 <= i < |s.list| ensures s.list[i] < s.flush.id { assert s.list[i] in s.list; }
    case CompactSwap => SwapAgrees(s);
    case Reopen => ReopenAgrees(s);
    case CompactPick => assert forall x :: x in s.list[..PICK_COUNT] ==> x in s.list;
    case _ =>
  }

  lemma SwapAgrees(s: State)
    requires Agreement(s) && s.compact.SetCommitted? && s.flush == NoFlush
    ensures Agreement(Step(s, CompactSwap))
  {
    hide Without;
    WithoutAscending(s.list, s.compact.picked);
    var rest, id := Without(s.list, s.compact.picked), s.compact.id;
    forall i | 0 <= i < |rest| ensures rest[i] < id { assert rest[i] in rest; }
    SnocElements(rest, id);
  }

  lemma ReopenAgrees(s: State)
    ensures Agreement(Step(s, Reopen))
  {
    hide SortedIds;
    assert Elements(SortedIds(s.live)) == s.live;
  }

  /**
   * In every run where flush and compaction intervals never overlap, the list is strictly ascending, and whenever
   * no commit is under way it lists exactly the manifest's tables, so a reopen loads the same list.
   */
  lemma {:induction false} SeparateCommitsAgree(ss: seq<State>, acts: seq<Action>)
    requires IsRun(ss, acts) && forall i :: 0 <= i <= |acts| ==> !Overlapping(ss[i])
    ensures Agreement(ss[|acts|])
    ensures var s := ss[|acts|];
      s.flush == NoFlush && s.compact == NoCompaction ==> s.live == Elements(s.list) && Step(s, Reopen).list == s.list
    decreases |acts|
  {
    if acts == [] {
      assert Elements([]) == {};
    } else {
      hide Agreement, Step, Enabled, Overlapping;
      var n := |acts| - 1;
      SeparateCommitsAgree(ss[..n + 1], acts[..n]);
      assert ss[..n + 1][n] == ss[n] && ss[n + 1] == Step(ss[n], acts[n]);
      AgreementStep(ss[n], acts[n]);
    }
    ReopenSame(ss[|acts|]);
  }

  lemma ReopenSame(s: State)
    requires Agreement(s)
    ensures s.flush == NoFlush && s.compact == NoCompaction ==>
      s.live == Elements(s.list) && Step(s, Reopen).list == s.list
  {
    AscendingIsSortedIds(s.list);
  }

  // ----- overlap that loses a table, and overlap that reorders them ------------------------

  ghost predicate Reaches(s: State, acts: seq<Action>, t: State)
    decreases |acts|
  {
    if acts == [] then s == t else Enabled(s, acts[0]) && Reaches(Step(s, acts[0]), acts[1..], t)
  }

  lemma {:induction false} Then(s: State, acts: seq<Action>, t: State, a: Action, u: State)
    requires Reaches(s, acts, t) && Enabled(t, a) && u == Step(t, a)
    ensures Reaches(s, acts + [a], u)
    decreases |acts|
  {
    hide Step, Enabled;
    if acts == [] {
      assert acts + [a] == [a] && [a][1..] == [];
    } else {
      Then(Step(s, acts[0]), acts[1..], t, a, u);
      assert (acts + [a])[1..] == acts[1..] + [a];
    }
  }

  ghost predicate QuietState(s: State) {
    Agreement(s) && s.flush == NoFlush && s.compact == NoCompaction && |s.list| >= PICK_COUNT
  }

  /** The compactor stands right after its merge. */
  lemma ReachMerged(s: State) returns (t: State)
    requires QuietState(s)
    ensures Reaches(s, [CompactPick] + [CompactMerge], t)
    ensures t == State(s.list, s.live, s.nextId + 1, NoFlush, MergedTo(s.list[..PICK_COUNT], s.list, s.nextId + 1))
  {
    var s1 := Step(s, CompactPick);
    t := Step(s1, CompactMerge);
    assert [CompactPick][1..] == [];
    Then(s, [CompactPick], s1, CompactMerge, t);
  }

  /** A whole flush, whatever the compactor is doing. */
  lemma FlushRuns(s: State, acts: seq<Action>, t: State) returns (u: State)
    requires Reaches(s, acts, t) && t.flush == NoFlush
    ensures Reaches(s, acts + [FlushAllocate] + [FlushCommit] + [FlushPublish], u)
    ensures u == State(t.list + [t.nextId + 1], t.live + {t.nextId + 1}, t.nextId + 1, NoFlush, t.compact)
  {
    hide Reaches;
    var t1 := Step(t, FlushAllocate);
    var t2 := Step(t1, FlushCommit);
    u := Step(t2, FlushPublish);
    Then(s, acts, t, FlushAllocate, t1);
    Then(s, acts + [FlushAllocate], t1, FlushCommit, t2);
    Then(s, acts + [FlushAllocate] + [FlushCommit], t2, FlushPublish, u);
  }

  /** From any quiet state, a flush that commits and publishes inside the window loses its table everywhere. */
  lemma OverlapDropsFlushedTable(s: State) returns (acts: seq<Action>, end: State)
    requires QuietState(s)
    ensures Reaches(s, acts, end) && end.flush == NoFlush && end.compact == NoCompaction
    ensures FlushPublish in acts && var flushed := s.nextId + 2; flushed !in end.list && flushed !in end.live
  {
    hide Without, Reaches;
    PickedAreListed(s.list);
    var t := ReachMerged(s);
    acts := [CompactPick] + [CompactMerge];
    var t1 := Step(t, CompactList);
    Then(s, acts, t, CompactList, t1);
    acts := acts + [CompactList];
    var t2 := FlushRuns(s, acts, t1);
    acts := acts + [FlushAllocate] + [FlushCommit] + [FlushPublish];
    var t3 := Step(t2, CompactCommit);
    Then(s, acts, t2, CompactCommit, t3);
    end := Step(t3, CompactSwap);
    Then(s, acts + [CompactCommit], t3, CompactSwap, end);
    acts := acts + [CompactCommit] + [CompactSwap];
  }

  /** From any quiet state, a flush that fits between merge and list is kept, but memory and a reopen order it
      differently. */
  lemma OverlapReordersTables(s: State) returns (acts: seq<Action>, end: State)
    requires QuietState(s)
    ensures Reaches(s, acts, end) && end.flush == NoFlush && end.compact == NoCompaction
    ensures end.live == Elements(end.list) && s.nextId + 2 in end.list && Step(end, Reopen).list != end.list
  {
    hide Without, Reaches, SortedIds;
    PickedAreListed(s.list);
    var t := ReachMerged(s);
    acts := [CompactPick] + [CompactMerge];
    var t1 := FlushRuns(s, acts, t);
    acts := acts + [FlushAllocate] + [FlushCommit] + [FlushPublish];
    var t2 := Step(t1, CompactList);
    Then(s, acts, t1, CompactList, t2);
    acts := acts + [CompactList];
    var t3 := Step(t2, CompactCommit);
    Then(s, acts, t2, CompactCommit, t3);
    end := Step(t3, CompactSwap);
    Then(s, acts + [CompactCommit], t3, CompactSwap, end);
    acts := acts + [CompactCommit] + [CompactSwap];
    OutOfOrder(Without(t1.list, s.list[..PICK_COUNT]), s.nextId + 2, s.nextId + 1);
  }

  lemma OutOfOrder(rest: seq<nat>, newer: nat, last: nat)
    requires newer in rest && last < newer
    ensures !Ascending(rest + [last])
  {
    var i :| 0 <= i < |rest| && rest[i] == newer;
    assert (rest + [last])[i] > (rest + [last])[|rest|];
  }

  // ----- the code ------------------------------------------------------------------------

  class Tables {
    var sstables: seq<nat>
    var live: set<nat>
    var nextSSTID: nat

    ghost function St(): State
      reads this
    {
      State(sstables, live, nextSSTID, NoFlush, NoCompaction)
    }

    /** `doCompaction` with nothing else running; false means there was nothing to merge. */
    method DoCompaction(threshold: int) returns (compacted: bool)
      requires Agreement(St())
      modifies this
      ensures Agreement(St())
      ensures compacted <==> |old(sstables)| >= threshold && |old(sstables)| >= 2
      ensures !compacted ==> St() == old(St())
      ensures compacted ==> sstables == old(sstables)[2..] + [old(nextSSTID) + 1] && live == Elements(sstables)
      ensures compacted ==> nextSSTID == old(nextSSTID) + 1
    {
      hide Agreement, Without;
      var picked := PickSSTables(sstables, threshold);
      if |picked| < 2 { return false; }
      ghost var s0 := St();
      PickedAreListed(sstables);
      var present := ReadersStillPresent(sstables, picked);
      assert present;
      AgreementAscends(s0);
      var id := nextSSTID + 1;
      nextSSTID := id;
      WithoutPrefix(sstables);
      var newList := DropPicked(sstables, picked);
      newList := newList + [id];
      live := Elements(newList);
      sstables := newList;
      CompactionKeepsOrder(s0, newList, id);
      return true;
    }
  }

  /** The loop that rebuilds the list without the compacted readers. */
  method DropPicked(list: seq<nat>, picked: seq<nat>) returns (rest: seq<nat>)
    ensures rest == Without(list, picked)
  {
    rest := [];
    for i := 0 to |list|
      invariant rest == Without(list[..i], picked)
    {
      hide Without;
      assert list[..i + 1] == list[..i] + [list[i]];
      WithoutSnoc(list[..i], list[i], picked);
      if list[i] !in picked { rest := rest + [list[i]]; }
    }
    assert list[..|list|] == list;
  }

  lemma WithoutCons(x: nat, list: seq<nat>, drop: seq<nat>)
    ensures Without([x] + list, drop) == (if x in drop then [] else [x]) + Without(list, drop)
  {
    assert ([x] + list)[1..] == list;
  }

  lemma {:induction false} WithoutSnoc(list: seq<nat>, x: nat, drop: seq<nat>)
    ensures Without(list + [x], drop) == Without(list, drop) + if x in drop then [] else [x]
  {
    if list == [] {
      assert list + [x] == [x] && [x][1..] == [];
    } else {
      hide Without;
      var h, t := list[0], list[1..];
      assert list == [h] + t && list + [x] == [h] + (t + [x]);
      WithoutSnoc(t, x, drop);
      WithoutCons(h, t, drop);
      WithoutCons(h, t + [x], drop);
      Associative(if h in drop then [] else [h], Without(t, drop), if x in drop then [] else [x]);
    }
  }

  lemma Associative(a: seq<nat>, b: seq<nat>, c: seq<nat>)
    ensures a + b + c == a + (b + c)
  {
  }

  lemma PickedAreListed(list: seq<nat>)
    requires |list| >= PICK_COUNT
    ensures AllIn(list[..PICK_COUNT], list)
  {
  }

  /** In an ascending list the two picked ids occur only at the front. */
  lemma WithoutPrefix(list: seq<nat>)
    requires Ascending(list) && |list| >= PICK_COUNT
    ensures Without(list, list[..PICK_COUNT]) == list[PICK_COUNT..]
  {
    var drop := list[..PICK_COUNT];
    assert drop == [list[0], list[1]];
    NoneDropped(list[PICK_COUNT..], drop);
    assert list[1..][1..] == list[PICK_COUNT..];
    assert Without(list[1..], drop) == Without(list[PICK_COUNT..], drop);
  }

  lemma {:induction false} NoneDropped(list: seq<nat>, drop: seq<nat>)
    requires forall i :: 0 <= i < |list| ==> list[i] !in drop
    ensures Without(list, drop) == list
  {
    if list != [] {
      NoneDropped(list[1..], drop);
      assert list == [list[0]] + list[1..];
    }
  }

  lemma AgreementAscends(s: State)
    requires Agreement(s)
    ensures Ascending(s.list)
  {
  }

  lemma CompactionKeepsOrder(s: State, newList: seq<nat>, id: nat)
    requires Agreement(s) && s.flush == NoFlush && s.compact == NoCompaction && |s.list| >= PICK_COUNT
    requires id == s.nextId + 1 && newList == s.list[PICK_COUNT..] + [id]
    ensures Agreement(State(newList, Elements(newList), id, NoFlush, NoCompaction))
  {
    forall i | 0 <= i < |s.list| ensures s.list[i] < id { assert s.list[i] in s.list; }
    forall x | x in newList ensures x <= id { var i :| 0 <= i < |newList| && newList[i] == x; }
  }
}
