/**
 * Group commit, memtable freeze, flush, log checkpoint and truncation, crash and reopen,
 * as a state machine over one disk and one process.
 *
 * `history` is the list of all durable records. `cut` counts the leading records that are
 * no longer in the log file and `covered` those held by the live tables. These three, and
 * the `from`/`upto` fields below, are bookkeeping that no action reads.
 */
module Durability {
  import opened ByteStrings
  import opened Records
  import opened TableIds
  import opened Wal

  /** wal.flush: `offset` is FreezeOffset, `sst` is SSTID. */
  datatype Checkpoint = Checkpoint(offset: nat, sst: nat, from: nat, upto: nat)

  /** A frozen memtable; `cutoff` is the size of the log file when it was frozen. */
  datatype Queued = Queued(mem: Table, cutoff: nat, from: nat, upto: nat)

  /** How far the flusher is with the head of the queue. */
  datatype Stage =
    | Idle | Written(id: nat) | Committed(id: nat) | Published(id: nat)
    | Marked(id: nat) | Truncated(id: nat) | Done

  datatype Disk = Disk(wal: Bytes, checkpoint: Option<Checkpoint>, live: set<nat>, tables: map<nat, Table>)

  /** `unapplied` is a batch that is synced to the log but not yet in the active memtable. */
  datatype Mem = Mem(active: Table, unapplied: seq<Record>, queue: seq<Queued>, sstables: seq<nat>, nextId: nat,
                     stage: Stage)

  /** The process is down when `mem` is None. */
  datatype State = State(disk: Disk, mem: Option<Mem>, history: seq<Record>, cut: nat, covered: nat)

  datatype Action =
    | Persist(batch: seq<Record>) | ApplyBatch | Freeze
    | WriteTable | DropTable | CommitTable | PublishTable
    | WriteCheckpoint | TruncateLog | RemoveCheckpoint | SkipCleanup | Pop
    | Crash(done: seq<Record>, next: Record, torn: nat) | Open

  // ----- what a process sees -----------------------------------------------

  /** The tables in list order, later ones laid over earlier ones. */
  ghost function Stack(tables: map<nat, Table>, ids: seq<nat>): Table
    requires forall id :: id in ids ==> id in tables
  {
    if ids == [] then map[] else Stack(tables, ids[..|ids| - 1]) + tables[ids[|ids| - 1]]
  }

  function OverQueue(base: Table, queue: seq<Queued>): Table {
    if queue == [] then base else OverQueue(base, queue[..|queue| - 1]) + queue[|queue| - 1].mem
  }

  ghost predicate ListedTablesExist(s: State) {
    s.mem.Some? ==> forall id :: id in s.mem.value.sstables ==> id in s.disk.tables
  }

  /** Tables, then queued memtables oldest first, then the active memtable. */
  ghost function View(s: State): Table
    requires s.mem.Some? && ListedTablesExist(s)
  {
    OverQueue(Stack(s.disk.tables, s.mem.value.sstables), s.mem.value.queue) + s.mem.value.active
  }

  /** The number of durable records that have reached the active memtable. */
  function Applied(s: State): int
    requires s.mem.Some?
  {
    |s.history| - |s.mem.value.unapplied|
  }

  // ----- actions -----------------------------------------------------------

  /** `walReplayStartOffset`. */
  function ReplayStart(d: Disk): nat {
    match d.checkpoint
    case None => 0
    case Some(c) => if c.sst !in d.live then 0 else if |d.wal| < c.offset then 0 else c.offset
  }

  ghost function InitialState(): State {
    State(Disk([], None, {}, map[]), None, [], 0, 0)
  }

  ghost predicate Enabled(f: Format, s: State, a: Action) {
    match a
    case Open => s.mem.None? && Recover(f, s.disk.wal, ReplayStart(s.disk)).Recovered?
    case _ => s.mem.Some? && EnabledUp(f, s, s.mem.value, a)
  }

  ghost predicate EnabledUp(f: Format, s: State, m: Mem, a: Action) {
    match a
    case Persist(batch) => AllFit(f, batch) && m.unapplied == []
    case ApplyBatch => true
    case Freeze => m.unapplied == []
    case WriteTable => m.stage == Idle && m.queue != []
    case DropTable => m.stage.Written?
    case CommitTable => m.stage.Written?
    case PublishTable => m.stage.Committed?
    case WriteCheckpoint => m.stage.Published? && m.queue != []
    case TruncateLog => m.stage.Marked? && m.queue != []
    case RemoveCheckpoint => m.stage.Truncated?
    case SkipCleanup => m.stage.Published? || m.stage.Marked? || m.stage.Truncated?
    case Pop => m.stage == Done && m.queue != []
    case Crash(done, next, torn) =>
      && AllFit(f, done) && torn < |Wire(f, next)| && (torn > 0 ==> Fits(f, next))
      && (m.unapplied != [] ==> done == [] && torn == 0)
    case Open => false
  }

  ghost function Step(f: Format, s: State, a: Action): State
    requires Enabled(f, s, a)
  {
    match a
    case Open => OpenStep(f, s)
    case Crash(done, next, torn) =>
      State(s.disk.(wal := s.disk.wal + EncodeAll(f, done) + Wire(f, next)[..torn]), None, s.history + done, s.cut,
        s.covered)
    case Persist(batch) => PersistStep(f, s, batch)
    case _ => FlushStep(s, s.mem.value, a)
  }

  /** `AppendBatch` returned nil. */
  ghost function PersistStep(f: Format, s: State, batch: seq<Record>): State
    requires s.mem.Some?
  {
    s.(disk := s.disk.(wal := s.disk.wal + EncodeAll(f, batch)),
       mem := Some(s.mem.value.(unapplied := batch)),
       history := s.history + batch)
  }

  /** Everything that moves data from the active memtable towards the tables. */
  ghost function FlushStep(s: State, m: Mem, a: Action): State
    requires s.mem == Some(m) && !a.Open? && !a.Crash? && !a.Persist?
    requires a.WriteTable? || a.WriteCheckpoint? || a.TruncateLog? || a.Pop? ==> m.queue != []
    requires a.DropTable? || a.CommitTable? ==> m.stage.Written?
    requires a.PublishTable? ==> m.stage.Committed?
    requires a.WriteCheckpoint? ==> m.stage.Published?
    requires a.TruncateLog? ==> m.stage.Marked?
  {
    var d := s.disk;
    match a
    case ApplyBatch => s.(mem := Some(m.(active := Replay(m.active, m.unapplied), unapplied := [])))
    case Freeze =>
      var q := Queued(m.active, |d.wal|, s.cut, |s.history|);
      s.(mem := Some(m.(active := map[], queue := m.queue + [q])))
    case WriteTable =>
      var id := m.nextId + 1;
      s.(disk := d.(tables := d.tables[id := m.queue[0].mem]), mem := Some(m.(nextId := id, stage := Written(id))))
    case DropTable =>
      s.(disk := d.(tables := d.tables - {m.stage.id}), mem := Some(m.(stage := Idle)))
    case CommitTable =>
      s.(disk := d.(live := d.live + {m.stage.id}), mem := Some(m.(stage := Committed(m.stage.id))),
         covered := if m.queue == [] then s.covered else m.queue[0].upto)
    case PublishTable =>
      s.(mem := Some(m.(sstables := m.sstables + [m.stage.id], stage := Published(m.stage.id))))
    case WriteCheckpoint =>
      var c := Checkpoint(m.queue[0].cutoff, m.stage.id, m.queue[0].from, m.queue[0].upto);
      s.(disk := d.(checkpoint := Some(c)), mem := Some(m.(stage := Marked(m.stage.id))))
    case TruncateLog =>
      s.(disk := d.(wal := TruncateBefore(d.wal, m.queue[0].cutoff)), mem := Some(m.(stage := Truncated(m.stage.id))),
         cut := m.queue[0].upto)
    case RemoveCheckpoint => s.(disk := d.(checkpoint := None), mem := Some(m.(stage := Done)))
    case SkipCleanup => s.(mem := Some(m.(stage := Done)))
    case Pop => s.(mem := Some(m.(queue := m.queue[1..], stage := Idle)))
  }

  /** `Open`: load the manifest's tables in id order, replay the log tail, keep the valid log. */
  ghost function OpenStep(f: Format, s: State): State
    requires Recover(f, s.disk.wal, ReplayStart(s.disk)).Recovered?
  {
    var r := Recover(f, s.disk.wal, ReplayStart(s.disk));
    var nextId := if s.disk.live == {} then 0 else MaxId(s.disk.live);
    s.(disk := s.disk.(wal := r.file),
       mem := Some(Mem(Fold(r.records), [], [], SortedIds(s.disk.live), nextId, Idle)))
  }

  // ----- invariant ---------------------------------------------------------

  ghost predicate LogInv(f: Format, s: State) {
    && AllFit(f, s.history)
    && s.cut <= s.covered <= |s.history|
    && if s.mem.Some? then s.disk.wal == EncodeAll(f, s.history[s.cut..]) else TornAt(f, s.disk.wal, s.history[s.cut..])
  }

  /** The file is these records followed by a strict prefix of one more. */
  ghost predicate TornAt(f: Format, wal: Bytes, rs: seq<Record>) {
    exists next, torn: nat :: torn < |Wire(f, next)| && (torn > 0 ==> Fits(f, next)) &&
      wal == EncodeAll(f, rs) + Wire(f, next)[..torn]
  }

  /** The live tables, in id order, hold exactly the covered prefix of the history. */
  ghost predicate TablesInv(d: Disk, h: seq<Record>, covered: nat) {
    && (forall id :: id in d.live ==> id in d.tables)
    && covered <= |h|
    && Stack(d.tables, SortedIds(d.live)) == Fold(h[..covered])
  }

  ghost predicate CheckpointInv(f: Format, d: Disk, h: seq<Record>, cut: nat, covered: nat) {
    d.checkpoint.Some? ==>
      var c := d.checkpoint.value;
      && c.from <= cut && c.from <= c.upto <= covered <= |h|
      && c.sst in d.live
      && c.offset == |EncodeAll(f, h[c.from..c.upto])|
  }

  ghost predicate EntryInv(f: Format, h: seq<Record>, cut: nat, q: Queued) {
    && q.from <= cut && q.from <= q.upto <= |h|
    && q.cutoff == |EncodeAll(f, h[q.from..q.upto])|
  }

  /** The number of records older than the i-th queued memtable. */
  function Before(covered: nat, queue: seq<Queued>, i: nat): nat
    requires i <= |queue|
  {
    if i == 0 then covered else queue[i - 1].upto
  }

  /** Laying `mem` over the first `a` records gives the first `b`. */
  ghost predicate Extends(h: seq<Record>, a: nat, mem: Table, b: nat) {
    a <= b <= |h| && Fold(h[..a]) + mem == Fold(h[..b])
  }

  /** Each queued memtable, laid over what is older, gives the history up to its freeze. */
  ghost predicate QueueInv(f: Format, h: seq<Record>, cut: nat, covered: nat, queue: seq<Queued>) {
    && (forall i :: 0 <= i < |queue| ==> EntryInv(f, h, cut, queue[i]))
    && (forall i :: 0 <= i < |queue| ==> Extends(h, Before(covered, queue, i), queue[i].mem, queue[i].upto))
  }

  ghost predicate ActiveInv(h: seq<Record>, before: nat, active: Table, unapplied: seq<Record>) {
    && |unapplied| <= |h|
    && h[|h| - |unapplied|..] == unapplied
    && Extends(h, before, active, |h| - |unapplied|)
  }

  ghost predicate StageInv(d: Disk, m: Mem, covered: nat) {
    && (forall id :: id in d.live ==> id <= m.nextId)
    && SortedIds(d.live) == m.sstables + (if m.stage.Committed? then [m.stage.id] else [])
    && (m.stage != Idle ==> m.queue != [])
    && (m.stage != Idle && !m.stage.Written? ==> covered == m.queue[0].upto)
    && match m.stage
       case Written(id) => id == m.nextId && id !in d.live && id in d.tables && d.tables[id] == m.queue[0].mem
       case Committed(id) => id in d.live && id in d.tables && d.tables[id] == m.queue[0].mem
       case Published(id) => id in d.live
       case Marked(id) =>
         d.checkpoint == Some(Checkpoint(m.queue[0].cutoff, id, m.queue[0].from, m.queue[0].upto))
       case _ => true
  }

  ghost predicate MemInv(f: Format, s: State, m: Mem) {
    && QueueInv(f, s.history, s.cut, s.covered, m.queue)
    && ActiveInv(s.history, Before(s.covered, m.queue, |m.queue|), m.active, m.unapplied)
    && StageInv(s.disk, m, s.covered)
  }

  ghost predicate Inv(f: Format, s: State) {
    && LogInv(f, s)
    && TablesInv(s.disk, s.history, s.covered)
    && CheckpointInv(f, s.disk, s.history, s.cut, s.covered)
    && (s.mem.Some? ==> MemInv(f, s, s.mem.value))
  }

  // ----- the two side conditions -------------------------------------------

  /** The file has not been shifted since the head was frozen, or nothing was appended since. */
  ghost predicate TruncationIsSafe(s: State)
    requires s.mem.Some? && s.mem.value.queue != []
  {
    var q := s.mem.value.queue[0];
    q.from == s.cut || q.upto == |s.history|
  }

  /** Replay starts on a record boundary inside the part of the log that the tables cover. */
  ghost predicate ReplayStartIsSafe(f: Format, s: State) {
    s.covered <= |s.history| &&
    exists j: nat :: s.cut <= j <= s.covered && ReplayStart(s.disk) == |EncodeAll(f, s.history[s.cut..j])|
  }

  ghost predicate Safe(f: Format, s: State, a: Action)
    requires Enabled(f, s, a)
  {
    (a.TruncateLog? ==> TruncationIsSafe(s)) && (a.Open? ==> ReplayStartIsSafe(f, s))
  }
}
