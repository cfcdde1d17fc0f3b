/** Every action of the durability state machine keeps its invariant. */
module DurabilityProofs {
  import opened ByteStrings
  import opened Records
  import opened TableIds
  import opened Wal
  import opened Durability

  // ----- log segments ------------------------------------------------------

  lemma Segments(f: Format, h: seq<Record>, a: nat, b: nat, c: nat)
    requires a <= b <= c <= |h|
    ensures EncodeAll(f, h[a..c]) == EncodeAll(f, h[a..b]) + EncodeAll(f, h[b..c])
  {
    assert h[a..c] == h[a..b] + h[b..c];
    EncodeAllAppend(f, h[a..b], h[b..c]);
  }

  lemma SuffixAsSegment(h: seq<Record>, a: nat)
    requires a <= |h|
    ensures h[a..] == h[a..|h|]
  {
  }

  lemma {:induction false} SegmentNotEmpty(f: Format, rs: seq<Record>)
    ensures |EncodeAll(f, rs)| >= 13 * |rs|
  {
    if rs != [] {
      hide Body;
      SegmentNotEmpty(f, rs[1..]);
    }
  }

  lemma {:induction false} StackFrame(t: map<nat, Table>, t': map<nat, Table>, ids: seq<nat>)
    requires forall id :: id in ids ==> id in t && id in t' && t[id] == t'[id]
    ensures Stack(t, ids) == Stack(t', ids)
  {
    if ids != [] { StackFrame(t, t', ids[..|ids| - 1]); }
  }

  // ----- appends -----------------------------------------------------------

  lemma PersistKeeps(f: Format, s: State, batch: seq<Record>)
    requires Inv(f, s) && Enabled(f, s, Persist(batch))
    ensures Inv(f, PersistStep(f, s, batch))
  {
    hide Fold, EncodeAll, Stack, SortedIds, QueueInv;
    var h, m := s.history, s.mem.value;
    assert (h + batch)[s.cut..] == h[s.cut..] + batch;
    EncodeAllAppend(f, h[s.cut..], batch);
    GrownPrefix(h, batch, s.covered);
    if s.disk.checkpoint.Some? { GrownSlice(h, batch, s.disk.checkpoint.value.from, s.disk.checkpoint.value.upto); }
    GrowQueue(f, h, batch, s.cut, s.covered, m.queue);
    GrowExtends(h, batch, Before(s.covered, m.queue, |m.queue|), m.active, |h|);
    assert (h + batch)[|h|..] == batch;
  }

  lemma GrownPrefix(h: seq<Record>, more: seq<Record>, n: nat)
    requires n <= |h|
    ensures (h + more)[..n] == h[..n]
  {
  }

  lemma GrownSlice(h: seq<Record>, more: seq<Record>, a: nat, b: nat)
    requires a <= b <= |h|
    ensures (h + more)[a..b] == h[a..b]
  {
  }

  lemma GrowExtends(h: seq<Record>, more: seq<Record>, a: nat, mem: Table, b: nat)
    requires Extends(h, a, mem, b)
    ensures Extends(h + more, a, mem, b)
  {
    GrownPrefix(h, more, a);
    GrownPrefix(h, more, b);
  }

  lemma GrowQueue(f: Format, h: seq<Record>, more: seq<Record>, cut: nat, covered: nat, queue: seq<Queued>)
    requires QueueInv(f, h, cut, covered, queue)
    ensures QueueInv(f, h + more, cut, covered, queue)
  {
    hide Extends, EncodeAll;
    forall i | 0 <= i < |queue| ensures EntryInv(f, h + more, cut, queue[i]) {
      GrownSlice(h, more, queue[i].from, queue[i].upto);
    }
    forall i | 0 <= i < |queue| ensures Extends(h + more, Before(covered, queue, i), queue[i].mem, queue[i].upto) {
      GrowExtends(h, more, Before(covered, queue, i), queue[i].mem, queue[i].upto);
    }
  }

  lemma ApplyKeeps(f: Format, s: State)
    requires Inv(f, s) && s.mem.Some?
    ensures Inv(f, FlushStep(s, s.mem.value, ApplyBatch))
  {
    hide Fold, EncodeAll, Stack, SortedIds, QueueInv, TablesInv, CheckpointInv;
    var m, h, n := s.mem.value, s.history, Applied(s);
    ReplayIsOverlay(m.active, m.unapplied);
    assert h == h[..n] + m.unapplied && h[..|h|] == h;
    FoldAppend(h[..n], m.unapplied);
  }

  lemma FreezeKeeps(f: Format, s: State)
    requires Inv(f, s) && Enabled(f, s, Freeze)
    ensures Inv(f, FlushStep(s, s.mem.value, Freeze))
  {
    hide Fold, EncodeAll, Stack, SortedIds, TablesInv, CheckpointInv, QueueInv;
    var m, h := s.mem.value, s.history;
    SuffixAsSegment(h, s.cut);
    var q := Queued(m.active, |s.disk.wal|, s.cut, |h|);
    AddToQueue(f, h, s.cut, s.covered, m.queue, q);
    assert Fold(h[..|h|]) + map[] == Fold(h[..|h|]);
  }

  lemma AddToQueue(f: Format, h: seq<Record>, cut: nat, covered: nat, queue: seq<Queued>, q: Queued)
    requires QueueInv(f, h, cut, covered, queue) && EntryInv(f, h, cut, q)
    requires Extends(h, Before(covered, queue, |queue|), q.mem, q.upto)
    ensures QueueInv(f, h, cut, covered, queue + [q])
  {
    hide Extends, EntryInv;
  }

  // ----- flush -------------------------------------------------------------

  lemma WriteTableKeeps(f: Format, s: State)
    requires Inv(f, s) && Enabled(f, s, WriteTable)
    ensures Inv(f, FlushStep(s, s.mem.value, WriteTable))
  {
    hide Fold, EncodeAll, Stack, SortedIds, CheckpointInv, QueueInv, ActiveInv;
    var s' := FlushStep(s, s.mem.value, WriteTable);
    assert CheckpointInv(f, s'.disk, s'.history, s'.cut, s'.covered) by { CheckpointFrame(f, s, s'); }
    StackFrame(s.disk.tables, s'.disk.tables, SortedIds(s.disk.live));
  }

  lemma CheckpointFrame(f: Format, s: State, s': State)
    requires CheckpointInv(f, s.disk, s.history, s.cut, s.covered)
    requires s'.disk.checkpoint == s.disk.checkpoint && s'.disk.live >= s.disk.live && s'.history == s.history
    requires s'.cut >= s.cut && s.covered <= s'.covered <= |s.history|
    ensures CheckpointInv(f, s'.disk, s'.history, s'.cut, s'.covered)
  {
    hide EncodeAll;
  }

  lemma DropTableKeeps(f: Format, s: State)
    requires Inv(f, s) && Enabled(f, s, DropTable)
    ensures Inv(f, FlushStep(s, s.mem.value, DropTable))
  {
    hide Fold, EncodeAll, Stack, SortedIds, CheckpointInv, QueueInv, ActiveInv;
    var s' := FlushStep(s, s.mem.value, DropTable);
    CheckpointFrame(f, s, s');
    StackFrame(s.disk.tables, s'.disk.tables, SortedIds(s.disk.live));
  }

  lemma CommitTableKeeps(f: Format, s: State)
    requires Inv(f, s) && Enabled(f, s, CommitTable)
    ensures Inv(f, FlushStep(s, s.mem.value, CommitTable))
  {
    hide Fold, EncodeAll, SortedIds, CheckpointInv, QueueInv, Stack, TablesInv;
    var m, id := s.mem.value, s.mem.value.stage.id;
    var s' := FlushStep(s, m, CommitTable);
    SortedIdsAdd(s.disk.live, id);
    HeadExtends(f, s.history, s.cut, s.covered, m.queue);
    CommitTables(s.disk, s.history, s.covered, id, m.queue[0]);
    CommitQueue(f, s.history, s.cut, s.covered, m.queue);
    CheckpointFrame(f, s, s');
  }

  lemma HeadExtends(f: Format, h: seq<Record>, cut: nat, covered: nat, queue: seq<Queued>)
    requires QueueInv(f, h, cut, covered, queue) && queue != []
    ensures Extends(h, covered, queue[0].mem, queue[0].upto) && EntryInv(f, h, cut, queue[0])
  {
    assert Before(covered, queue, 0) == covered;
  }

  lemma CommitTables(d: Disk, h: seq<Record>, covered: nat, id: nat, q: Queued)
    requires TablesInv(d, h, covered) && Extends(h, covered, q.mem, q.upto)
    requires id in d.tables && d.tables[id] == q.mem && SortedIds(d.live + {id}) == SortedIds(d.live) + [id]
    ensures TablesInv(d.(live := d.live + {id}), h, q.upto)
  {
    hide Fold, SortedIds;
    var ids := SortedIds(d.live);
    assert (ids + [id])[..|ids|] == ids;
  }

  /** Once its table is live the head adds nothing, so the queue still extends what is covered. */
  lemma CommitQueue(f: Format, h: seq<Record>, cut: nat, covered: nat, queue: seq<Queued>)
    requires QueueInv(f, h, cut, covered, queue) && queue != []
    ensures QueueInv(f, h, cut, queue[0].upto, queue)
  {
    hide Fold, EntryInv;
    HeadExtends(f, h, cut, covered, queue);
    var q := queue[0];
    assert Fold(h[..q.upto]) + q.mem == Fold(h[..q.upto]);
    forall i | 0 <= i < |queue| ensures Extends(h, Before(q.upto, queue, i), queue[i].mem, queue[i].upto) {
      if i > 0 { assert Before(q.upto, queue, i) == Before(covered, queue, i); }
    }
  }

  lemma PublishTableKeeps(f: Format, s: State)
    requires Inv(f, s) && Enabled(f, s, PublishTable)
    ensures Inv(f, FlushStep(s, s.mem.value, PublishTable))
  {
    hide Fold, EncodeAll, Stack, SortedIds, TablesInv, CheckpointInv, QueueInv, ActiveInv;
  }

  lemma WriteCheckpointKeeps(f: Format, s: State)
    requires Inv(f, s) && Enabled(f, s, WriteCheckpoint)
    ensures Inv(f, FlushStep(s, s.mem.value, WriteCheckpoint))
  {
    hide Fold, EncodeAll, Stack, SortedIds, QueueInv, ActiveInv;
    HeadExtends(f, s.history, s.cut, s.covered, s.mem.value.queue);
  }

  lemma TruncateLogKeeps(f: Format, s: State)
    requires Inv(f, s) && Enabled(f, s, TruncateLog) && TruncationIsSafe(s)
    ensures Inv(f, FlushStep(s, s.mem.value, TruncateLog))
  {
    hide Fold, EncodeAll, Stack, SortedIds, QueueInv, ActiveInv, CheckpointInv;
    TruncationExact(f, s);
    var m := s.mem.value;
    var s' := FlushStep(s, m, TruncateLog);
    AdvanceCut(f, s.history, s.cut, s'.cut, s.covered, m.queue);
    CheckpointFrame(f, s, s');
  }

  lemma AdvanceCut(f: Format, h: seq<Record>, cut: nat, cut': nat, covered: nat, queue: seq<Queued>)
    requires QueueInv(f, h, cut, covered, queue) && cut <= cut'
    ensures QueueInv(f, h, cut', covered, queue)
  {
    hide Extends, EncodeAll;
  }

  /**
   * Truncating at the recorded cutoff leaves exactly the unflushed records, if and only if
   * the file was not shifted since the freeze or nothing was appended since.
   */
  lemma TruncationExact(f: Format, s: State)
    requires Inv(f, s) && Enabled(f, s, TruncateLog)
    ensures var q := s.mem.value.queue[0];
      && s.cut <= q.upto <= |s.history|
      && (TruncateBefore(s.disk.wal, q.cutoff) == EncodeAll(f, s.history[q.upto..]) <==> TruncationIsSafe(s))
  {
    hide EncodeAll, Fold, Stack, SortedIds, QueueInv, ActiveInv;
    var h, q := s.history, s.mem.value.queue[0];
    HeadExtends(f, h, s.cut, s.covered, s.mem.value.queue);
    SuffixAsSegment(h, s.cut);
    SuffixAsSegment(h, q.upto);
    Segments(f, h, s.cut, q.upto, |h|);
    Segments(f, h, q.from, s.cut, q.upto);
    SegmentNotEmpty(f, h[q.from..s.cut]);
    SegmentNotEmpty(f, h[q.upto..]);
  }

  lemma CleanupKeeps(f: Format, s: State, a: Action)
    requires Inv(f, s) && Enabled(f, s, a) && (a.RemoveCheckpoint? || a.SkipCleanup?)
    ensures Inv(f, FlushStep(s, s.mem.value, a))
  {
    hide Fold, EncodeAll, Stack, SortedIds, QueueInv, ActiveInv;
  }

  lemma PopKeeps(f: Format, s: State)
    requires Inv(f, s) && Enabled(f, s, Pop)
    ensures Inv(f, FlushStep(s, s.mem.value, Pop))
  {
    hide Fold, EncodeAll, Stack, SortedIds, QueueInv, ActiveInv, TablesInv, CheckpointInv;
    var m := s.mem.value;
    PopQueue(f, s.history, s.cut, m.queue);
    assert Before(s.covered, m.queue[1..], |m.queue[1..]|) == Before(s.covered, m.queue, |m.queue|);
  }

  lemma PopQueue(f: Format, h: seq<Record>, cut: nat, queue: seq<Queued>)
    requires queue != [] && QueueInv(f, h, cut, queue[0].upto, queue)
    ensures QueueInv(f, h, cut, queue[0].upto, queue[1..])
  {
    hide Extends, EntryInv;
    var rest := queue[1..];
    forall i | 0 <= i < |rest| ensures EntryInv(f, h, cut, rest[i]) &&
      Extends(h, Before(queue[0].upto, rest, i), rest[i].mem, rest[i].upto) {
      assert rest[i] == queue[i + 1] && Before(queue[0].upto, rest, i) == Before(queue[0].upto, queue, i + 1);
    }
  }

  // ----- crash and open ----------------------------------------------------

  lemma CrashKeeps(f: Format, s: State, done: seq<Record>, next: Record, torn: nat)
    requires Inv(f, s) && Enabled(f, s, Crash(done, next, torn))
    ensures Inv(f, Step(f, s, Crash(done, next, torn)))
  {
    hide Fold, EncodeAll, Stack, SortedIds, Wire;
    var h, h' := s.history, s.history + done;
    assert h'[s.cut..] == h[s.cut..] + done;
    EncodeAllAppend(f, h[s.cut..], done);
    GrownPrefix(h, done, s.covered);
    if s.disk.checkpoint.Some? { GrownSlice(h, done, s.disk.checkpoint.value.from, s.disk.checkpoint.value.upto); }
  }

  /** What `Open` reads back when replay starts on a boundary in the covered part. */
  lemma RecoverFrom(f: Format, s: State, j: nat)
    requires Inv(f, s) && s.mem.None? && s.cut <= j <= s.covered
    requires ReplayStart(s.disk) == |EncodeAll(f, s.history[s.cut..j])|
    ensures Recover(f, s.disk.wal, ReplayStart(s.disk)).Recovered? <==> |s.disk.wal| <= f.limits.maxFileSize
    ensures var r := Recover(f, s.disk.wal, ReplayStart(s.disk));
      r.Recovered? ==> r.records == s.history[j..] && r.file == EncodeAll(f, s.history[s.cut..])
  {
    hide EncodeAll, Fold, Stack, SortedIds, Scan, Wire;
    var h, wal, start := s.history, s.disk.wal, ReplayStart(s.disk);
    var next, torn: nat :| torn < |Wire(f, next)| && (torn > 0 ==> Fits(f, next)) &&
      wal == EncodeAll(f, h[s.cut..]) + Wire(f, next)[..torn];
    SuffixAsSegment(h, s.cut);
    SuffixAsSegment(h, j);
    Segments(f, h, s.cut, j, |h|);
    assert wal[start..] == EncodeAll(f, h[j..]) + Wire(f, next)[..torn];
    ReplayOfTornLog(f, h[j..], next, torn);
    assert wal[..start + |EncodeAll(f, h[j..])|] == EncodeAll(f, h[s.cut..]);
    if torn == 0 { assert wal == EncodeAll(f, h[s.cut..]); }
  }

  lemma OpenKeeps(f: Format, s: State)
    requires Inv(f, s) && Enabled(f, s, Open) && ReplayStartIsSafe(f, s)
    ensures Inv(f, OpenStep(f, s))
  {
    hide EncodeAll, Fold, Stack, SortedIds, Recover;
    var j: nat :| s.cut <= j <= s.covered && ReplayStart(s.disk) == |EncodeAll(f, s.history[s.cut..j])|;
    RecoverFrom(f, s, j);
    var s' := OpenStep(f, s);
    OverlapIsHarmless(s.history, j, s.covered);
    assert s'.history[..|s'.history|] == s.history;
    assert s'.history[|s'.history|..] == [];
  }
}
