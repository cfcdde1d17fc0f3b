/** Safety over whole runs of the durability state machine, and the runs that lose data. */
module DurabilityTheorems {
  import opened ByteStrings
  import opened Records
  import opened TableIds
  import opened Wal
  import opened Durability
  import opened DurabilityProofs

  // ----- every run ---------------------------------------------------------

  /** A run from an empty directory; crashes and reopens may occur anywhere. */
  ghost predicate IsRun(f: Format, ss: seq<State>, acts: seq<Action>) {
    && |ss| == |acts| + 1 && ss[0] == InitialState()
    && forall i :: 0 <= i < |acts| ==> Enabled(f, ss[i], acts[i]) && ss[i + 1] == Step(f, ss[i], acts[i])
  }

  ghost predicate IsSafeRun(f: Format, ss: seq<State>, acts: seq<Action>) {
    IsRun(f, ss, acts) && forall i :: 0 <= i < |acts| ==> Safe(f, ss[i], acts[i])
  }

  lemma InitialInv(f: Format)
    ensures Inv(f, InitialState())
  {
    var none := Record([], [], false);
    assert InitialState().disk.wal == EncodeAll(f, []) + Wire(f, none)[..0];
  }

  lemma StepKeeps(f: Format, s: State, a: Action)
    requires Inv(f, s) && Enabled(f, s, a) && Safe(f, s, a)
    ensures Inv(f, Step(f, s, a))
  {
    hide Inv, OpenStep, FlushStep, PersistStep, Recover, ReplayStartIsSafe;
    match a
    case Open => OpenKeeps(f, s);
    case Crash(done, next, torn) => CrashKeeps(f, s, done, next, torn);
    case Persist(batch) => PersistKeeps(f, s, batch);
    case ApplyBatch => ApplyKeeps(f, s);
    case Freeze => FreezeKeeps(f, s);
    case WriteTable => WriteTableKeeps(f, s);
    case DropTable => DropTableKeeps(f, s);
    case CommitTable => CommitTableKeeps(f, s);
    case PublishTable => PublishTableKeeps(f, s);
    case WriteCheckpoint => WriteCheckpointKeeps(f, s);
    case TruncateLog => TruncateLogKeeps(f, s);
    case RemoveCheckpoint => CleanupKeeps(f, s, a);
    case SkipCleanup => CleanupKeeps(f, s, a);
    case Pop => PopKeeps(f, s);
  }

  /** Every reachable state of a safe run satisfies the invariant. */
  lemma {:induction false} SafeRunKeepsInv(f: Format, ss: seq<State>, acts: seq<Action>)
    requires IsSafeRun(f, ss, acts)
    ensures Inv(f, ss[|acts|])
    decreases |acts|
  {
    hide Inv, Step, Enabled, Safe;
    if acts == [] {
      InitialInv(f);
    } else {
      var n := |acts| - 1;
      SafeRunKeepsInv(f, ss[..n + 1], acts[..n]);
      StepKeeps(f, ss[n], acts[n]);
    }
  }

  lemma {:induction false} OverQueueIsFold(f: Format, h: seq<Record>, cut: nat, covered: nat, queue: seq<Queued>,
                                           base: Table)
    requires QueueInv(f, h, cut, covered, queue) && covered <= |h| && base == Fold(h[..covered])
    ensures Before(covered, queue, |queue|) <= |h|
    ensures OverQueue(base, queue) == Fold(h[..Before(covered, queue, |queue|)])
  {
    hide Fold, EntryInv;
    if queue != [] {
      var n := |queue| - 1;
      var front := queue[..n];
      assert forall i :: 0 <= i <= n ==> Before(covered, front, i) == Before(covered, queue, i);
      OverQueueIsFold(f, h, cut, covered, front, base);
      assert Extends(h, Before(covered, queue, n), queue[n].mem, queue[n].upto);
    }
  }

  /** While the head's table is live but unlisted, the head itself still answers for it. */
  lemma UnlistedHead(base: Table, queue: seq<Queued>)
    requires queue != []
    ensures OverQueue(base, queue) == OverQueue(base + queue[0].mem, queue)
    decreases |queue|
  {
    if |queue| > 1 {
      assert queue[..|queue| - 1][0] == queue[0];
      UnlistedHead(base, queue[..|queue| - 1]);
    } else {
      assert queue[..0] == [];
      assert base + queue[0].mem == base + queue[0].mem + queue[0].mem;
    }
  }

  /** Reads: tables, queue and active memtable together show the applied history, at every stage of a flush. */
  lemma ViewIsHistory(f: Format, s: State)
    requires Inv(f, s) && s.mem.Some?
    ensures ListedTablesExist(s) && Applied(s) >= 0 && View(s) == Fold(s.history[..Applied(s)])
  {
    hide Fold, EncodeAll, SortedIds, Stack, OverQueue, CheckpointInv, QueueInv, LogInv;
    var m, h := s.mem.value, s.history;
    var listed, live := Stack(s.disk.tables, m.sstables), Stack(s.disk.tables, SortedIds(s.disk.live));
    OverQueueIsFold(f, h, s.cut, s.covered, m.queue, live);
    if m.stage.Committed? {
      StackSnoc(s.disk.tables, m.sstables, m.stage.id);
      UnlistedHead(listed, m.queue);
    } else {
      assert m.sstables + [] == m.sstables;
    }
  }

  lemma StackSnoc(tables: map<nat, Table>, ids: seq<nat>, id: nat)
    requires id in tables && forall x :: x in ids ==> x in tables
    ensures Stack(tables, ids + [id]) == Stack(tables, ids) + tables[id]
  {
    assert (ids + [id])[..|ids|] == ids;
  }

  /**
   * Crash recovery. Take any safe run that ends with the process up, and crash it there with any number of
   * complete records and any torn tail on disk. If replay then starts safely, Open succeeds exactly when the
   * log is within the size limit, and shows precisely the map of all durable records applied in order.
   */
  lemma CrashRecovery(f: Format, ss: seq<State>, acts: seq<Action>, crash: Action)
    requires IsSafeRun(f, ss, acts) && crash.Crash? && Enabled(f, ss[|acts|], crash)
    requires ReplayStartIsSafe(f, Step(f, ss[|acts|], crash))
    ensures var down := Step(f, ss[|acts|], crash);
      && (Enabled(f, down, Open) <==> |down.disk.wal| <= f.limits.maxFileSize)
      && (Enabled(f, down, Open) ==>
            var up := Step(f, down, Open);
            && up.history == ss[|acts|].history + crash.done && Applied(up) == |up.history|
            && ListedTablesExist(up) && View(up) == Fold(up.history))
  {
    hide Inv, Recover, EncodeAll, Fold, View;
    SafeRunKeepsInv(f, ss, acts);
    var down := Step(f, ss[|acts|], crash);
    CrashKeeps(f, ss[|acts|], crash.done, crash.next, crash.torn);
    var j: nat :| down.cut <= j <= down.covered && ReplayStart(down.disk) == |EncodeAll(f, down.history[down.cut..j])|;
    RecoverFrom(f, down, j);
    if Enabled(f, down, Open) {
      OpenKeeps(f, down);
      var up := Step(f, down, Open);
      ViewIsHistory(f, up);
      assert up.history[..|up.history|] == up.history;
    }
  }

  // ----- a discipline that makes every run safe ------------------------------

  /** No queued memtable is still waiting for its log truncation. */
  ghost predicate Quiet(m: Mem) {
    m.queue == [] || (|m.queue| == 1 && PastTruncation(m.stage))
  }

  ghost predicate PastTruncation(stage: Stage) {
    stage.Truncated? || stage == Done
  }

  /** A checkpoint that Open would trust was written for the file as it is now. */
  ghost predicate CheckpointFresh(s: State) {
    match s.disk.checkpoint
    case None => true
    case Some(c) => c.sst !in s.disk.live || |s.disk.wal| < c.offset || c.from == s.cut
  }

  ghost predicate Disciplined(s: State, a: Action) {
    (a.Freeze? && s.mem.Some? ==> Quiet(s.mem.value)) && (a.Open? ==> CheckpointFresh(s))
  }

  ghost predicate IsDisciplinedRun(f: Format, ss: seq<State>, acts: seq<Action>) {
    IsRun(f, ss, acts) && forall i :: 0 <= i < |acts| ==> Disciplined(ss[i], acts[i])
  }

  /** Entries still to be truncated were all frozen against the file as it is now. */
  ghost predicate CutoffsCurrent(s: State) {
    s.mem.Some? ==>
      var m := s.mem.value;
      && (|m.queue| <= 1 || (|m.queue| == 2 && PastTruncation(m.stage)))
      && forall i :: 0 <= i < |m.queue| && (i > 0 || !PastTruncation(m.stage)) ==> m.queue[i].from == s.cut
  }

  lemma FreshIsSafe(f: Format, s: State)
    requires Inv(f, s) && CheckpointFresh(s)
    ensures ReplayStartIsSafe(f, s)
  {
    hide EncodeAll, TablesInv, MemInv;
    if ReplayStart(s.disk) == 0 {
      assert s.history[s.cut..s.cut] == [];
      assert |EncodeAll(f, [])| == 0 by { SegmentNotEmpty(f, []); EmptyLog(f); }
    } else {
      var c := s.disk.checkpoint.value;
      assert c.from == s.cut && c.upto <= s.covered;
    }
  }

  lemma EmptyLog(f: Format)
    ensures EncodeAll(f, []) == []
  {
  }

  lemma DisciplineStep(f: Format, s: State, a: Action)
    requires Inv(f, s) && CutoffsCurrent(s) && Enabled(f, s, a) && Disciplined(s, a)
    ensures Safe(f, s, a) && CutoffsCurrent(Step(f, s, a))
  {
    if a.Open? {
      FreshIsSafe(f, s);
    } else if !a.Crash? && !a.Persist? {
      hide Inv, Fold, Stack;
      DisciplineFlush(f, s, s.mem.value, a);
    }
  }

  lemma DisciplineFlush(f: Format, s: State, m: Mem, a: Action)
    requires s.mem == Some(m) && CutoffsCurrent(s) && EnabledUp(f, s, m, a) && Disciplined(s, a)
    requires !a.Crash? && !a.Persist?
    ensures CutoffsCurrent(FlushStep(s, m, a))
    ensures a.TruncateLog? ==> TruncationIsSafe(s)
  {
    match a
    case Pop => assert forall i :: 0 <= i < |m.queue[1..]| ==> m.queue[1..][i] == m.queue[i + 1];
    case _ =>
  }

  /** Freezing only while no earlier truncation is pending, and never trusting a stale checkpoint, is enough. */
  lemma {:induction false} DisciplinedRunIsSafe(f: Format, ss: seq<State>, acts: seq<Action>)
    requires IsDisciplinedRun(f, ss, acts)
    ensures IsSafeRun(f, ss, acts) && CutoffsCurrent(ss[|acts|])
    decreases |acts|
  {
    if acts == [] {
      assert ss[0] == InitialState();
    } else {
      hide Inv, Step, Enabled, Safe, CutoffsCurrent, IsRun, IsDisciplinedRun, IsSafeRun;
      var n := |acts| - 1;
      DisciplinedPrefix(f, ss, acts);
      DisciplinedRunIsSafe(f, ss[..n + 1], acts[..n]);
      SafeRunKeepsInv(f, ss[..n + 1], acts[..n]);
      DisciplineStep(f, ss[n], acts[n]);
      SafeRunSnoc(f, ss, acts);
    }
  }

  lemma DisciplinedPrefix(f: Format, ss: seq<State>, acts: seq<Action>)
    requires IsDisciplinedRun(f, ss, acts) && acts != []
    ensures IsRun(f, ss, acts) && |ss| == |acts| + 1 && ss[..|acts|][|acts| - 1] == ss[|acts| - 1]
    ensures IsDisciplinedRun(f, ss[..|acts|], acts[..|acts| - 1]) && Disciplined(ss[|acts| - 1], acts[|acts| - 1])
    ensures Enabled(f, ss[|acts| - 1], acts[|acts| - 1]) && ss[|acts|] == Step(f, ss[|acts| - 1], acts[|acts| - 1])
  {
    hide Step, Enabled, Disciplined;
    var n := |acts| - 1;
    assert forall i :: 0 <= i <= n ==> ss[..n + 1][i] == ss[i];
    assert forall i :: 0 <= i < n ==> acts[..n][i] == acts[i];
  }

  lemma SafeRunSnoc(f: Format, ss: seq<State>, acts: seq<Action>)
    requires IsRun(f, ss, acts) && acts != [] && IsSafeRun(f, ss[..|acts|], acts[..|acts| - 1])
    requires Safe(f, ss[|acts| - 1], acts[|acts| - 1])
    ensures IsSafeRun(f, ss, acts)
  {
    hide Step, Enabled, Safe;
    var n := |acts| - 1;
    forall i | 0 <= i < |acts| ensures Safe(f, ss[i], acts[i]) {
      if i < n { assert ss[..n + 1][i] == ss[i] && acts[..n][i] == acts[i]; }
    }
  }

  // ----- the stale checkpoint, exactly ---------------------------------------

  lemma {:induction false} ScanSpan(f: Format, d: Bytes)
    ensures |EncodeAll(f, Scan(f, d).records)| == Scan(f, d).valid
    decreases |d|
  {
    if ReadOne(f, d).Got? {
      ScanSpan(f, d[ReadOne(f, d).size..]);
      ReadSize(f, d);
      var got, rest := ReadOne(f, d), Scan(f, d[ReadOne(f, d).size..]);
      assert ([got.record] + rest.records)[1..] == rest.records;
    }
  }

  lemma ReadSize(f: Format, d: Bytes)
    requires ReadOne(f, d).Got?
    ensures ReadOne(f, d).size == |Wire(f, ReadOne(f, d).record)|
  {
  }

  /**
   * Crash after truncation, before the checkpoint file is removed: the log then holds exactly the unflushed
   * records, and after them perhaps the start of a torn one. Open replays all of them if the log is shorter than the
   * recorded FreezeOffset, and only if, as long as the torn part alone does not reach that offset.
   */
  lemma LeftoverCheckpointExact(f: Format, s: State)
    requires Inv(f, s) && s.mem.None? && s.cut == s.covered && |s.disk.wal| <= f.limits.maxFileSize
    requires s.disk.checkpoint.Some? && s.disk.checkpoint.value.offset > 0
    ensures s.cut <= |s.history|
    ensures
      var wal, offset, unflushed := s.disk.wal, s.disk.checkpoint.value.offset, s.history[s.cut..];
      var r := Recover(f, wal, ReplayStart(s.disk));
      && (|wal| < offset ==> r.Recovered? && r.records == unflushed)
      && (r.Recovered? && r.records == unflushed && |wal| - |EncodeAll(f, unflushed)| < offset ==> |wal| < offset)
  {
    hide EncodeAll, Fold, Stack, SortedIds, Scan, TablesInv;
    var wal, start := s.disk.wal, ReplayStart(s.disk);
    if |wal| < s.disk.checkpoint.value.offset {
      assert s.history[s.cut..s.cut] == [];
      EmptyLog(f);
      RecoverFrom(f, s, s.cut);
    } else {
      ScanSpan(f, wal[start..]);
    }
  }

  /**
   * Where replay starts, on any log of records with any torn tail: a checkpoint whose table is dead, or that lies past
   * the end of the log, skips nothing; one of a live table at the boundary after k records skips exactly those.
   */
  lemma ReplayStartExact(f: Format, d: Disk, rs: seq<Record>, next: Record, n: nat, k: nat)
    requires AllFit(f, rs) && n < |Wire(f, next)| && (n > 0 ==> Fits(f, next)) && k <= |rs|
    requires d.wal == EncodeAll(f, rs) + Wire(f, next)[..n] && |d.wal| <= f.limits.maxFileSize
    ensures var r := Recover(f, d.wal, ReplayStart(d));
      && (d.checkpoint.None? ==> r == Recovered(rs, |EncodeAll(f, rs)|, EncodeAll(f, rs)))
      && (d.checkpoint.Some? ==>
            var c := d.checkpoint.value;
            && (c.sst !in d.live || c.offset > |d.wal| ==> r == Recovered(rs, |EncodeAll(f, rs)|, EncodeAll(f, rs)))
            && (c.sst in d.live && c.offset == |EncodeAll(f, rs[..k])| ==>
                  r == Recovered(rs[k..], |EncodeAll(f, rs)|, EncodeAll(f, rs))))
  {
    hide EncodeAll, Recover;
    RecoverExactly(f, [], rs, next, n);
    assert [] + EncodeAll(f, rs) == EncodeAll(f, rs);
    RecoverExactly(f, EncodeAll(f, rs[..k]), rs[k..], next, n);
    assert rs == rs[..k] + rs[k..];
    EncodeAllAppend(f, rs[..k], rs[k..]);
  }
}
