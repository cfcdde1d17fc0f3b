/** Appends, rotation and crashes of the manifest, as runs over a directory of manifest files. */
module ManifestRotation {
  import opened ByteStrings
  import opened Manifest

  /** CURRENT names a file by its number. */
  datatype Dir = Dir(current: nat, files: map<nat, Bytes>)

  /** Where a rotation stands; `ids` is the snapshot being written. */
  datatype Stage =
    | Steady
    | Filling(ids: seq<uint64>, written: nat)
    | Switched(prev: nat)

  /** `edits` is bookkeeping: the edits of the current file. */
  datatype State = State(dir: Dir, up: bool, live: set<uint64>, edits: seq<Edit>, stage: Stage)

  datatype Action =
    | Append(edit: Edit)
    | TornAppend(edit: Edit, bytes: nat)
    | StartRotation(ids: seq<uint64>) | WriteMore(bytes: nat) | AbortRotation
    | SwitchCurrent | RemoveOld
    | Crash | Open

  function Snapshot(crc: Checksum, ids: seq<uint64>): Bytes {
    Frame(crc, Payload(SetFileSet(ids)))
  }

  ghost predicate Enabled(crc: Checksum, s: State, a: Action) {
    match a
    case Append(e) => s.up && s.stage == Steady && Fits(e)
    case TornAppend(e, n) => s.up && s.stage == Steady && Fits(e) && n < |Frame(crc, Payload(e))|
    case StartRotation(ids) => s.up && s.stage == Steady && (set id | id in ids) == s.live && Fits(SetFileSet(ids))
    case WriteMore(n) => s.up && s.stage.Filling? && s.stage.written < n <= |Snapshot(crc, s.stage.ids)|
    case AbortRotation => s.up && s.stage.Filling?
    case SwitchCurrent => s.up && s.stage.Filling? && s.stage.written == |Snapshot(crc, s.stage.ids)|
    case RemoveOld => s.up && s.stage.Switched?
    case Crash => s.up
    case Open => !s.up && s.dir.current in s.dir.files && !Replay(crc, {}, s.dir.files[s.dir.current]).failed
  }

  ghost function Step(crc: Checksum, s: State, a: Action): State
    requires Enabled(crc, s, a) && s.dir.current in s.dir.files
  {
    var d, n := s.dir, s.dir.current;
    match a
    case Append(e) =>
      s.(dir := d.(files := d.files[n := d.files[n] + Frame(crc, Payload(e))]), live := Apply(s.live, e),
        edits := s.edits + [e])
    case TornAppend(e, k) => s.(dir := d.(files := d.files[n := d.files[n] + Frame(crc, Payload(e))[..k]]), up := false)
    case StartRotation(ids) => s.(dir := d.(files := d.files[n + 1 := []]), stage := Filling(ids, 0))
    case WriteMore(k) =>
      s.(dir := d.(files := d.files[n + 1 := Snapshot(crc, s.stage.ids)[..k]]), stage := Filling(s.stage.ids, k))
    case AbortRotation => s.(dir := d.(files := d.files - {n + 1}), stage := Steady)
    case SwitchCurrent => s.(dir := d.(current := n + 1), edits := [SetFileSet(s.stage.ids)], stage := Switched(n))
    case RemoveOld => s.(dir := d.(files := d.files - {s.stage.prev}), stage := Steady)
    case Crash => s.(up := false, stage := Steady)
    case Open =>
      var r := Replay(crc, {}, d.files[n]);
      s.(dir := d.(files := d.files[n := d.files[n][..r.valid]]), up := true, live := r.live, stage := Steady)
  }

  ghost function Initial(): State {
    State(Dir(1, map[1 := []]), false, {}, [], Steady)
  }

  ghost predicate Inv(crc: Checksum, s: State) {
    && s.dir.current in s.dir.files && AllFit(s.edits) && s.live == ApplyAll({}, s.edits)
    && FileHolds(crc, s.dir.files[s.dir.current], s.edits, s.up)
    && match s.stage
       case Steady => true
       case Filling(ids, k) =>
         && (set id | id in ids) == s.live && Fits(SetFileSet(ids)) && k <= |Snapshot(crc, ids)|
         && s.dir.current + 1 in s.dir.files && s.dir.files[s.dir.current + 1] == Snapshot(crc, ids)[..k]
       case Switched(prev) => prev != s.dir.current
  }

  /** Exactly the edits while the process is up; after a crash possibly a strict prefix of one more. */
  ghost predicate FileHolds(crc: Checksum, file: Bytes, edits: seq<Edit>, up: bool) {
    if up then file == EncodeEdits(crc, edits)
    else exists e, n: nat ::
           && n < |Frame(crc, Payload(e))| && (n > 0 ==> Fits(e))
           && file == EncodeEdits(crc, edits) + Frame(crc, Payload(e))[..n]
  }

  /** What a reopen would find at this very moment. */
  ghost predicate RecoversLive(crc: Checksum, s: State) {
    s.dir.current in s.dir.files &&
    var r := Replay(crc, {}, s.dir.files[s.dir.current]);
    !r.failed && r.live == s.live && r.records == |s.edits| && r.valid == |EncodeEdits(crc, s.edits)|
  }

  lemma HeldRecovers(crc: Checksum, s: State)
    requires Inv(crc, s)
    ensures RecoversLive(crc, s)
  {
    hide EncodeEdits, Replay, ApplyAll, Frame, Payload;
    var file := s.dir.files[s.dir.current];
    if s.up {
      assert file == EncodeEdits(crc, s.edits) + Frame(crc, Payload(NewFile(0)))[..0];
      ReplayOfTornManifest(crc, s.edits, NewFile(0), 0);
    } else {
      var e, n: nat :| n < |Frame(crc, Payload(e))| && (n > 0 ==> Fits(e)) &&
        file == EncodeEdits(crc, s.edits) + Frame(crc, Payload(e))[..n];
      ReplayOfTornManifest(crc, s.edits, e, n);
    }
  }

  lemma StepKeeps(crc: Checksum, s: State, a: Action)
    requires Inv(crc, s) && Enabled(crc, s, a)
    ensures Inv(crc, Step(crc, s, a))
  {
    hide EncodeEdits, Replay, ApplyAll, Frame, Payload;
    var file := s.dir.files[s.dir.current];
    match a
    case Append(e) =>
      EncodeEditsSnoc(crc, s.edits, e);
      ApplyAllSnoc({}, s.edits, e);
    case TornAppend(e, n) =>
    case SwitchCurrent => SwitchKeeps(crc, s);
    case Crash =>
      assert file == file + Frame(crc, Payload(NewFile(0)))[..0];
    case Open =>
      HeldRecovers(crc, s);
      var e, n: nat :| n < |Frame(crc, Payload(e))| && (n > 0 ==> Fits(e)) &&
        file == EncodeEdits(crc, s.edits) + Frame(crc, Payload(e))[..n];
      assert file[..|EncodeEdits(crc, s.edits)|] == EncodeEdits(crc, s.edits);
    case _ =>
  }

  lemma SwitchKeeps(crc: Checksum, s: State)
    requires Inv(crc, s) && Enabled(crc, s, SwitchCurrent)
    ensures Inv(crc, Step(crc, s, SwitchCurrent))
  {
    hide Frame, Payload;
    var ids := s.stage.ids;
    var e := SetFileSet(ids);
    assert Snapshot(crc, ids)[..|Snapshot(crc, ids)|] == Snapshot(crc, ids);
    assert [e][1..] == [];
    assert EncodeEdits(crc, [e]) == Frame(crc, Payload(e)) + EncodeEdits(crc, [e][1..]);
    assert ApplyAll({}, [e]) == ApplyAll(Apply({}, e), [e][1..]);
  }

  ghost predicate IsRun(crc: Checksum, ss: seq<State>, acts: seq<Action>) {
    && |ss| == |acts| + 1 && ss[0] == Initial()
    && forall i :: 0 <= i < |acts| ==>
         Enabled(crc, ss[i], acts[i]) && ss[i].dir.current in ss[i].dir.files && ss[i + 1] == Step(crc, ss[i], acts[i])
  }

  /**
   * At every point of every run of appends, torn appends, rotations, aborted rotations, crashes and reopens, the
   * file that CURRENT names replays to exactly the live set, and only a torn tail lies after its valid records.
   */
  lemma {:induction false} CurrentAlwaysRecovers(crc: Checksum, ss: seq<State>, acts: seq<Action>)
    requires IsRun(crc, ss, acts)
    ensures Inv(crc, ss[|acts|]) && RecoversLive(crc, ss[|acts|])
    decreases |acts|
  {
    if acts == [] {
      InitialInv(crc);
    } else {
      hide Inv, Enabled, Step, RecoversLive;
      var n := |acts| - 1;
      CurrentAlwaysRecovers(crc, ss[..n + 1], acts[..n]);
      assert ss[..n + 1][n] == ss[n];
      StepKeeps(crc, ss[n], acts[n]);
    }
    HeldRecovers(crc, ss[|acts|]);
  }

  lemma InitialInv(crc: Checksum)
    ensures Inv(crc, Initial())
  {
    assert Initial().dir.files[1] == EncodeEdits(crc, []) + Frame(crc, Payload(NewFile(0)))[..0];
  }

  // ----- the code ------------------------------------------------------------------------

  const RECORD_THRESHOLD := 64
  const SIZE_THRESHOLD := 0x1_0000

  ghost predicate Ordered(ids: seq<uint64>) {
    forall i, j :: 0 <= i < j < |ids| ==> ids[i] <= ids[j]
  }

  /** The edit sets the live set to these ids, in ascending order. */
  ghost predicate Lists(e: Edit, ids: multiset<uint64>) {
    e.SetFileSet? && Ordered(e.ids) && multiset(e.ids) == ids
  }

  /** The snapshot of the set fits the 32-bit record length. */
  predicate SnapshotFits(live: set<uint64>) {
    8 * |live| + 9 < TWO_32
  }

  function InsertId(ids: seq<uint64>, id: uint64): seq<uint64> {
    if ids == [] || id <= ids[0] then [id] + ids else [ids[0]] + InsertId(ids[1..], id)
  }

  lemma {:induction false} InsertIdFacts(ids: seq<uint64>, id: uint64)
    requires Ordered(ids)
    ensures Ordered(InsertId(ids, id)) && multiset(InsertId(ids, id)) == multiset(ids) + multiset{id}
  {
    hide Ordered;
    if ids == [] || id <= ids[0] {
      InsertFront(ids, id);
    } else {
      var head, tail := ids[0], ids[1..];
      OrderedTail(ids);
      InsertIdFacts(tail, id);
      AtMost(head, tail, id, InsertId(tail, id));
      OrderedCons(head, InsertId(tail, id));
      assert ids == [head] + tail;
    }
  }

  lemma InsertFront(ids: seq<uint64>, id: uint64)
    requires Ordered(ids) && (ids == [] || id <= ids[0])
    ensures Ordered([id] + ids)
  {
  }

  lemma OrderedTail(ids: seq<uint64>)
    requires Ordered(ids) && ids != []
    ensures Ordered(ids[1..]) && forall i :: 0 <= i < |ids[1..]| ==> ids[0] <= ids[1..][i]
  {
  }

  lemma OrderedCons(x: uint64, rest: seq<uint64>)
    requires Ordered(rest) && forall j :: 0 <= j < |rest| ==> x <= rest[j]
    ensures Ordered([x] + rest)
  {
  }

  lemma AtMost(x: uint64, ids: seq<uint64>, id: uint64, rest: seq<uint64>)
    requires x <= id && (forall i :: 0 <= i < |ids| ==> x <= ids[i]) && multiset(rest) == multiset(ids) + multiset{id}
    ensures forall j :: 0 <= j < |rest| ==> x <= rest[j]
  {
    forall j | 0 <= j < |rest| ensures x <= rest[j] {
      assert rest[j] in multiset(rest);
      assert rest[j] == id || rest[j] in ids;
    }
  }

  /** The ids in ascending order, each as often as given. */
  method SortIds(ids: seq<uint64>) returns (sorted: seq<uint64>)
    ensures Ordered(sorted) && multiset(sorted) == multiset(ids)
  {
    sorted := [];
    for i := 0 to |ids|
      invariant Ordered(sorted) && multiset(sorted) == multiset(ids[..i])
    {
      InsertIdFacts(sorted, ids[i]);
      sorted := InsertId(sorted, ids[i]);
      assert ids[..i + 1] == ids[..i] + [ids[i]];
    }
    assert ids[..|ids|] == ids;
  }

  /** `liveIDsLocked`: the set, in whatever order the map yields it, sorted. */
  method LiveIDs(live: set<uint64>) returns (ids: seq<uint64>)
    ensures Ordered(ids) && multiset(ids) == multiset(live)
  {
    ids := [];
    var left := live;
    while left != {}
      invariant left <= live && Ordered(ids) && multiset(ids) + multiset(left) == multiset(live)
      decreases |left|
    {
      var id :| id in left;
      InsertIdFacts(ids, id);
      ids := InsertId(ids, id);
      assert multiset(left) == multiset(left - {id}) + multiset{id};
      left := left - {id};
    }
  }

  lemma SameElements(ids: seq<uint64>, sorted: seq<uint64>)
    requires multiset(sorted) == multiset(ids)
    ensures |sorted| == |ids| && (set id | id in sorted) == (set id | id in ids)
    ensures Fits(SetFileSet(ids)) <==> Fits(SetFileSet(sorted))
  {
    assert |multiset(sorted)| == |multiset(ids)|;
    forall id ensures id in sorted <==> id in ids { assert id in multiset(sorted) <==> id in multiset(ids); }
  }

  lemma ListedSet(ids: seq<uint64>, live: set<uint64>)
    requires multiset(ids) == multiset(live) && SnapshotFits(live)
    ensures (set id | id in ids) == live && Fits(SetFileSet(ids))
  {
    assert |multiset(ids)| == |multiset(live)|;
    forall id ensures id in ids <==> id in live { assert id in multiset(ids) <==> id in multiset(live); }
  }

  class Log {
    const crc: Checksum
    var current: nat
    var files: map<nat, Bytes>
    var liveSet: set<uint64>
    var recordCount: nat
    ghost var edits: seq<Edit>

    ghost function St(): State
      reads this
    {
      State(Dir(current, files), true, liveSet, edits, Steady)
    }

    constructor (crc: Checksum)
      ensures this.crc == crc && Inv(crc, St())
    {
      this.crc, current, files, liveSet, recordCount, edits := crc, 1, map[1 := []], {}, 0, [];
    }

    method Append(e: Edit)
      requires Inv(crc, St()) && Fits(e)
      modifies this
      ensures Inv(crc, St()) && St() == Step(crc, old(St()), Action.Append(e)) && recordCount == old(recordCount) + 1
    {
      ghost var s := St();
      files := files[current := files[current] + Frame(crc, Payload(e))];
      liveSet, recordCount, edits := Apply(liveSet, e), recordCount + 1, edits + [e];
      StepKeeps(crc, s, Action.Append(e));
    }

    /** `AppendNewFile`. */
    method AppendNewFile(id: uint64)
      requires Inv(crc, St())
      modifies this
      ensures Inv(crc, St()) && liveSet == old(liveSet) + {id}
    {
      Append(NewFile(id));
    }

    /** `AppendSetFileSet`: the set is replaced in one record, which lists it in ascending order. */
    method AppendSetFileSet(ids: seq<uint64>)
      requires Inv(crc, St()) && Fits(SetFileSet(ids))
      modifies this
      ensures Inv(crc, St()) && liveSet == set id | id in ids
      ensures |edits| == |old(edits)| + 1 && Lists(edits[|old(edits)|], multiset(ids))
    {
      var sorted := SortIds(ids);
      SameElements(ids, sorted);
      Append(SetFileSet(sorted));
    }

    /** `MaybeCompact`: past either threshold, rewrite the manifest as one snapshot in the next file. */
    method MaybeCompact()
      requires Inv(crc, St()) && SnapshotFits(liveSet)
      modifies this
      ensures Inv(crc, St()) && liveSet == old(liveSet) && RecoversLive(crc, St())
      ensures current == if old(recordCount) >= 64 || |old(files)[old(current)]| >= 65_536
                         then old(current) + 1 else old(current)
      ensures current != old(current) ==> recordCount == 1 && old(current) !in files
    {
      if recordCount < RECORD_THRESHOLD && |files[current]| < SIZE_THRESHOLD {
        HeldRecovers(crc, St());
        return;
      }
      RotateSnapshot();
    }

    /** `rotateSnapshotLocked`, every step one action; the snapshot lists the live set in ascending order. */
    method RotateSnapshot()
      requires Inv(crc, St()) && SnapshotFits(liveSet)
      modifies this
      ensures Inv(crc, St()) && liveSet == old(liveSet) && RecoversLive(crc, St())
      ensures current == old(current) + 1 && recordCount == 1 && old(current) !in files
      ensures |edits| == 1 && Lists(edits[0], multiset(liveSet))
    {
      var ids := LiveIDs(liveSet);
      ListedSet(ids, liveSet);
      WriteSnapshot(ids);
    }

    method WriteSnapshot(ids: seq<uint64>)
      requires Inv(crc, St()) && (set id | id in ids) == liveSet && Fits(SetFileSet(ids))
      modifies this
      ensures Inv(crc, St()) && liveSet == old(liveSet) && RecoversLive(crc, St())
      ensures current == old(current) + 1 && recordCount == 1 && old(current) !in files
      ensures edits == [SetFileSet(ids)]
    {
      hide Inv, Replay, Frame, Payload, RecoversLive, Snapshot;
      ghost var s := St();
      InvFile(crc, s);
      var prev, next := current, current + 1;
      var snapshot := Snapshot(crc, ids);
      SnapshotSize(crc, ids);
      ghost var s1 := Step(crc, s, StartRotation(ids));
      StepKeeps(crc, s, StartRotation(ids));
      files := files[next := snapshot];
      ghost var s2 := Step(crc, s1, WriteMore(|snapshot|));
      StepKeeps(crc, s1, WriteMore(|snapshot|));
      assert snapshot[..|snapshot|] == snapshot;
      current := next;
      ghost var s3 := Step(crc, s2, SwitchCurrent);
      StepKeeps(crc, s2, SwitchCurrent);
      files := files - {prev};
      recordCount, edits := 1, [SetFileSet(ids)];
      StepKeeps(crc, s3, RemoveOld);
      assert St() == Step(crc, s3, RemoveOld);
      HeldRecovers(crc, St());
    }
  }

  lemma InvFile(crc: Checksum, s: State)
    requires Inv(crc, s)
    ensures s.dir.current in s.dir.files
  {
  }

  lemma SnapshotSize(crc: Checksum, ids: seq<uint64>)
    ensures |Snapshot(crc, ids)| >= 9
  {
  }
}
