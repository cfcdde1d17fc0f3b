/** Runs that lose acknowledged data when either side condition is dropped. */
module DurabilityWitness {
  import opened ByteStrings
  import opened Records
  import opened TableIds
  import opened Wal
  import opened Durability
  import opened DurabilityProofs
  import opened DurabilityTheorems

  /** `acts` can be taken one after the other from `s` and end in `t`. */
  ghost predicate Reaches(f: Format, s: State, acts: seq<Action>, t: State)
    decreases |acts|
  {
    if acts == [] then s == t
    else Enabled(f, s, acts[0]) && Reaches(f, Step(f, s, acts[0]), acts[1..], t)
  }

  lemma {:induction false} ReachesAppend(f: Format, s: State, a: seq<Action>, t: State, b: seq<Action>, u: State)
    requires Reaches(f, s, a, t) && Reaches(f, t, b, u)
    ensures Reaches(f, s, a + b, u)
    decreases |a|
  {
    hide Step, Enabled;
    if a == [] {
      assert a + b == b;
    } else {
      ReachesAppend(f, Step(f, s, a[0]), a[1..], t, b, u);
      assert (a + b)[1..] == a[1..] + b;
    }
  }

  // ----- macro steps ---------------------------------------------------------

  ghost function AfterWrite(f: Format, s: State, r: Record): State
    requires s.mem.Some?
  {
    s.(disk := s.disk.(wal := s.disk.wal + EncodeAll(f, [r])),
       mem := Some(s.mem.value.(active := Replay(s.mem.value.active, [r]))),
       history := s.history + [r])
  }

  lemma WriteReaches(f: Format, s: State, r: Record)
    requires s.mem.Some? && s.mem.value.unapplied == [] && Fits(f, r)
    ensures Reaches(f, s, [Persist([r]), ApplyBatch], AfterWrite(f, s, r))
  {
    hide EncodeAll, Replay;
    var s1 := Step(f, s, Persist([r]));
    var s2 := Step(f, s1, ApplyBatch);
    assert s2 == AfterWrite(f, s, r);
    Two(f, s, Persist([r]), s1, ApplyBatch, s2);
  }

  lemma One(f: Format, s: State, a: Action, t: State)
    requires Enabled(f, s, a) && t == Step(f, s, a)
    ensures Reaches(f, s, [a], t)
  {
    hide Step, Enabled;
    assert [a][1..] == [];
  }

  lemma Two(f: Format, s: State, a: Action, t: State, b: Action, u: State)
    requires Enabled(f, s, a) && t == Step(f, s, a) && Enabled(f, t, b) && u == Step(f, t, b)
    ensures Reaches(f, s, [a, b], u)
  {
    hide Step, Enabled;
    One(f, s, a, t);
    One(f, t, b, u);
    ReachesAppend(f, s, [a], t, [b], u);
    assert [a] + [b] == [a, b];
  }

  /** The head's table is written, committed, listed and the log truncated; wal.flush is still there. */
  ghost function AfterTruncate(s: State): State
    requires s.mem.Some? && s.mem.value.queue != []
  {
    var m, d, q, id := s.mem.value, s.disk, s.mem.value.queue[0], s.mem.value.nextId + 1;
    State(Disk(TruncateBefore(d.wal, q.cutoff), Some(Checkpoint(q.cutoff, id, q.from, q.upto)), d.live + {id},
      d.tables[id := q.mem]),
          Some(m.(sstables := m.sstables + [id], nextId := id, stage := Truncated(id))), s.history, q.upto, q.upto)
  }

  /** A whole successful flush of the head of the queue. */
  ghost function AfterFlush(s: State): State
    requires s.mem.Some? && s.mem.value.queue != []
  {
    var t := AfterTruncate(s);
    var m := t.mem.value;
    t.(disk := t.disk.(checkpoint := None), mem := Some(m.(queue := m.queue[1..], stage := Idle)))
  }

  const TO_TRUNCATE := [WriteTable, CommitTable, PublishTable, WriteCheckpoint, TruncateLog]

  lemma TruncateReaches(f: Format, s: State)
    requires s.mem.Some? && s.mem.value.stage == Idle && s.mem.value.queue != []
    ensures Reaches(f, s, TO_TRUNCATE, AfterTruncate(s))
  {
    var s1 := Step(f, s, WriteTable);
    var s2 := Step(f, s1, CommitTable);
    var s3 := Step(f, s2, PublishTable);
    var s4 := Step(f, s3, WriteCheckpoint);
    var s5 := Step(f, s4, TruncateLog);
    assert s5 == AfterTruncate(s);
    Two(f, s, WriteTable, s1, CommitTable, s2);
    Two(f, s2, PublishTable, s3, WriteCheckpoint, s4);
    One(f, s4, TruncateLog, s5);
    ReachesAppend(f, s, [WriteTable, CommitTable], s2, [PublishTable, WriteCheckpoint], s4);
    ReachesAppend(f, s, [WriteTable, CommitTable] + [PublishTable, WriteCheckpoint], s4, [TruncateLog], s5);
    assert TO_TRUNCATE == [WriteTable, CommitTable] + [PublishTable, WriteCheckpoint] + [TruncateLog];
  }

  lemma FlushReaches(f: Format, s: State)
    requires s.mem.Some? && s.mem.value.stage == Idle && s.mem.value.queue != []
    ensures Reaches(f, s, TO_TRUNCATE + [RemoveCheckpoint, Pop], AfterFlush(s))
  {
    TruncateReaches(f, s);
    var t := AfterTruncate(s);
    var t1 := Step(f, t, RemoveCheckpoint);
    var t2 := Step(f, t1, Pop);
    assert t2 == AfterFlush(s);
    Two(f, t, RemoveCheckpoint, t1, Pop, t2);
    ReachesAppend(f, s, TO_TRUNCATE, t, [RemoveCheckpoint, Pop], t2);
  }

  // ----- the losing runs -----------------------------------------------------

  function Put(k: byte): Record {
    Record([k], [k], false)
  }

  ghost function Started(): State {
    State(Disk([], None, {}, map[]), Some(Mem(map[], [], [], [], 0, Idle)), [], 0, 0)
  }

  lemma StartReaches(f: Format)
    requires f.limits == DEFAULT_LIMITS
    ensures Reaches(f, InitialState(), [Open], Started())
  {
    assert Scan(f, []) == Scanned([], 0, Clean);
    assert SortedIds({}) == [];
    One(f, InitialState(), Open, Started());
  }

  lemma PutFits(f: Format, k: byte)
    requires f.limits == DEFAULT_LIMITS
    ensures Fits(f, Put(k)) && |EncodeAll(f, [Put(k)])| == 15
  {
    assert EncodeAll(f, [Put(k)]) == Wire(f, Put(k)) + EncodeAll(f, [Put(k)][1..]);
  }

  /** Put(k) followed by Freeze. */
  ghost function AfterFreeze(f: Format, s: State, k: byte): State
    requires s.mem.Some?
  {
    var t := AfterWrite(f, s, Put(k));
    FlushStep(t, t.mem.value, Freeze)
  }

  lemma FreezeReaches(f: Format, s: State, k: byte)
    requires f.limits == DEFAULT_LIMITS && s.mem.Some? && s.mem.value.unapplied == []
    ensures Reaches(f, s, [Persist([Put(k)]), ApplyBatch] + [Freeze], AfterFreeze(f, s, k))
  {
    PutFits(f, k);
    WriteReaches(f, s, Put(k));
    var t := AfterWrite(f, s, Put(k));
    One(f, t, Freeze, AfterFreeze(f, s, k));
    ReachesAppend(f, s, [Persist([Put(k)]), ApplyBatch], t, [Freeze], AfterFreeze(f, s, k));
  }

  lemma PowerOff(f: Format, s: State)
    requires s.mem.Some?
    ensures Reaches(f, s, [Crash([], Put(0), 0)], s.(mem := None))
  {
    EmptyLog(f);
    assert s.disk.wal + [] + Wire(f, Put(0))[..0] == s.disk.wal;
    assert s.history + [] == s.history;
    One(f, s, Crash([], Put(0), 0), s.(mem := None));
  }

  /** The reopened store shows nothing for a key that is neither in a table nor in an empty log. */
  lemma LostKey(f: Format, down: State, key: Bytes)
    requires down.mem.None? && down.disk.wal == [] && f.limits == DEFAULT_LIMITS
    requires ReplayStart(down.disk) == 0
    requires forall id :: id in down.disk.live ==> id in down.disk.tables && key !in down.disk.tables[id]
    ensures Enabled(f, down, Open)
    ensures var up := Step(f, down, Open); ListedTablesExist(up) && key !in View(up)
  {
    assert Scan(f, []) == Scanned([], 0, Clean);
    NotInStack(down.disk.tables, SortedIds(down.disk.live), key);
  }

  lemma {:induction false} NotInStack(tables: map<nat, Table>, ids: seq<nat>, key: Bytes)
    requires forall id :: id in ids ==> id in tables && key !in tables[id]
    ensures key !in Stack(tables, ids)
  {
    if ids != [] { NotInStack(tables, ids[..|ids| - 1], key); }
  }

  lemma LastWriteStays(h: seq<Record>, r: Record)
    ensures r.key in Fold(h + [r])
  {
    FoldAppend(h, [r]);
    assert [r][1..] == [];
    assert Replay(map[], [r]) == Replay(Apply(map[], r), [r][1..]);
  }

  /**
   * Two memtables queued at once: the second cutoff was measured before the first truncation shifted the
   * file, so it removes a synced record that no table holds. No checkpoint file is involved.
   */
  lemma TwoQueuedFreezesLoseData(f: Format) returns (acts: seq<Action>, down: State)
    requires f.limits == DEFAULT_LIMITS
    ensures Reaches(f, InitialState(), acts, down) && down.disk.checkpoint.None? && Enabled(f, down, Open)
    ensures var up := Step(f, down, Open); ListedTablesExist(up) && View(up) != Fold(up.history)
  {
    hide EncodeAll, Replay, Reaches, Step, Enabled, Fold;
    var s1 := Started();
    var s2 := AfterFreeze(f, s1, 1);
    var s3 := AfterFreeze(f, s2, 2);
    var s4 := AfterWrite(f, s3, Put(3));
    StartReaches(f);
    FreezeReaches(f, s1, 1);
    FreezeReaches(f, s2, 2);
    PutFits(f, 1); PutFits(f, 2); PutFits(f, 3);
    WriteReaches(f, s3, Put(3));
    ReachesAppend(f, InitialState(), [Open], s1, [Persist([Put(1)]), ApplyBatch] + [Freeze], s2);
    acts := [Open] + ([Persist([Put(1)]), ApplyBatch] + [Freeze]);
    ReachesAppend(f, InitialState(), acts, s2, [Persist([Put(2)]), ApplyBatch] + [Freeze], s3);
    acts := acts + ([Persist([Put(2)]), ApplyBatch] + [Freeze]);
    ReachesAppend(f, InitialState(), acts, s3, [Persist([Put(3)]), ApplyBatch], s4);
    acts := acts + [Persist([Put(3)]), ApplyBatch];
    acts, down := LoseThird(f, acts, s4);
  }

  lemma LoseThird(f: Format, acts: seq<Action>, s4: State) returns (acts': seq<Action>, down: State)
    requires f.limits == DEFAULT_LIMITS && s4 == AfterWrite(f, AfterFreeze(f, AfterFreeze(f, Started(), 1), 2), Put(3))
    requires Reaches(f, InitialState(), acts, s4)
    ensures Reaches(f, InitialState(), acts', down) && down.disk.checkpoint.None? && Enabled(f, down, Open)
    ensures var up := Step(f, down, Open); ListedTablesExist(up) && View(up) != Fold(up.history)
  {
    hide EncodeAll, Reaches, Step, Enabled, Fold;
    PutFits(f, 1); PutFits(f, 2); PutFits(f, 3);
    var s5 := AfterFlush(s4);
    var s6 := AfterFlush(s5);
    FlushReaches(f, s4);
    FlushReaches(f, s5);
    down := s6.(mem := None);
    PowerOff(f, s6);
    ReachesAppend(f, InitialState(), acts, s4, TO_TRUNCATE + [RemoveCheckpoint, Pop], s5);
    acts' := acts + (TO_TRUNCATE + [RemoveCheckpoint, Pop]);
    ReachesAppend(f, InitialState(), acts', s5, TO_TRUNCATE + [RemoveCheckpoint, Pop], s6);
    acts' := acts' + (TO_TRUNCATE + [RemoveCheckpoint, Pop]);
    ReachesAppend(f, InitialState(), acts', s6, [Crash([], Put(0), 0)], down);
    acts' := acts' + [Crash([], Put(0), 0)];
    assert |s4.disk.wal| == 45 && |s5.disk.wal| == 30 && s6.disk.wal == [];
    assert down.disk.tables == map[1 := Replay(map[], [Put(1)]), 2 := Replay(map[], [Put(2)])];
    LostKey(f, down, [3]);
    StepOpenKeepsHistory(f, down);
    LastWriteStays([Put(1), Put(2)], Put(3));
    assert down.history == [Put(1), Put(2)] + [Put(3)];
  }

  lemma StepOpenKeepsHistory(f: Format, s: State)
    requires Enabled(f, s, Open)
    ensures Step(f, s, Open).history == s.history
  {
  }

  /**
   * One memtable, frozen while the queue is empty, and a crash between truncation and removal of wal.flush:
   * the tail is as long as FreezeOffset, Open trusts the stale checkpoint and skips a synced record.
   */
  lemma StaleCheckpointLosesData(f: Format) returns (acts: seq<Action>, down: State)
    requires f.limits == DEFAULT_LIMITS
    ensures Reaches(f, InitialState(), acts, down) && !CheckpointFresh(down) && Enabled(f, down, Open)
    ensures var up := Step(f, down, Open); ListedTablesExist(up) && View(up) != Fold(up.history)
  {
    hide EncodeAll, Reaches, Step, Enabled, Fold;
    var s1 := Started();
    var s2 := AfterFreeze(f, s1, 1);
    var s3 := AfterWrite(f, s2, Put(2));
    var s4 := AfterTruncate(s3);
    PutFits(f, 1); PutFits(f, 2);
    StartReaches(f);
    FreezeReaches(f, s1, 1);
    WriteReaches(f, s2, Put(2));
    TruncateReaches(f, s3);
    PowerOff(f, s4);
    down := s4.(mem := None);
    ReachesAppend(f, InitialState(), [Open], s1, [Persist([Put(1)]), ApplyBatch] + [Freeze], s2);
    acts := [Open] + ([Persist([Put(1)]), ApplyBatch] + [Freeze]);
    ReachesAppend(f, InitialState(), acts, s2, [Persist([Put(2)]), ApplyBatch], s3);
    acts := acts + [Persist([Put(2)]), ApplyBatch];
    ReachesAppend(f, InitialState(), acts, s3, TO_TRUNCATE, s4);
    acts := acts + TO_TRUNCATE;
    ReachesAppend(f, InitialState(), acts, s4, [Crash([], Put(0), 0)], down);
    acts := acts + [Crash([], Put(0), 0)];
    assert |s3.disk.wal| == 30 && |s4.disk.wal| == 15 && ReplayStart(down.disk) == 15;
    SkippedKey(f, down, [2]);
    StepOpenKeepsHistory(f, down);
    LastWriteStays([Put(1)], Put(2));
    assert down.history == [Put(1)] + [Put(2)];
  }

  lemma SkippedKey(f: Format, down: State, key: Bytes)
    requires down.mem.None? && ReplayStart(down.disk) == |down.disk.wal| == 15 && f.limits == DEFAULT_LIMITS
    requires forall id :: id in down.disk.live ==> id in down.disk.tables && key !in down.disk.tables[id]
    ensures Enabled(f, down, Open)
    ensures var up := Step(f, down, Open); ListedTablesExist(up) && key !in View(up)
  {
    assert down.disk.wal[15..] == [];
    assert Scan(f, []) == Scanned([], 0, Clean);
    NotInStack(down.disk.tables, SortedIds(down.disk.live), key);
  }
}
