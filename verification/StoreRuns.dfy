/**
 * The whole store as one machine: group commit, the durability machine and the layers that reads consult, step by
 * step through writes, flushes, crashes and reopens. The layers change by the code's own operations on listings.
 */
module StoreRuns {
  import opened ByteStrings
  import opened Records
  import opened TableIds
  import opened Wal
  import opened Durability
  import opened DurabilityTheorems
  import opened ReadPath
  import opened ReadsShowHistory
  import opened MergeReach
  import G = GroupCommit
  import Scan

  /** `files` holds the listing in every table file; `base` counts the records that were durable at the last open. */
  datatype Store = Store(g: G.State, s: State, l: Layers, files: map<nat, seq<Record>>, base: nat)

  datatype Event =
    | Client(c: G.Action)                              // a step of writers, waiters or flusher that touches no disk
    | Append                                           // AppendBatch returns nil
    | ApplyRecords(ok: bool)                           // the batch goes into the active memtable
    | Flush(d: Action)                                 // a step of freeze, flush or log cleanup
    | Die(done: seq<Record>, next: Record, torn: nat)  // a crash, with part of a batch written
    | Reopen

  /** The step of the durability machine in an event. */
  ghost function Durable(j: Store, e: Event): Option<Action> {
    match e
    case Client(_) => None
    case Append => if j.g.flusher.Writing? then Some(Persist(j.g.flusher.batch)) else None
    case ApplyRecords(_) => Some(ApplyBatch)
    case Flush(d) => Some(d)
    case Die(done, next, torn) => Some(Crash(done, next, torn))
    case Reopen => Some(Open)
  }

  /** The step of group commit in an event. */
  function Grouped(e: Event): Option<G.Action> {
    match e
    case Client(c) => Some(c)
    case Append => Some(G.AppendOk)
    case ApplyRecords(ok) => Some(G.Apply(ok))
    case _ => None
  }

  ghost predicate Enabled(f: Format, j: Store, e: Event) {
    && (Durable(j, e).Some? ==> Durability.Enabled(f, j.s, Durable(j, e).value))
    && (Grouped(e).Some? ==> j.s.mem.Some? && G.Enabled(j.g, Grouped(e).value))
    && (e.Client? ==> !e.c.AppendOk? && !e.c.Apply?)
    && (e.Flush? ==> !e.d.Persist? && !e.d.ApplyBatch? && !e.d.Crash? && !e.d.Open?)
    && (e.Die? ==> e.done <= if j.g.flusher.Writing? then j.g.flusher.batch else [])
  }

  // ----- the layers -----------------------------------------------------------------------------

  /** Put and Delete of each record into the sorted listing of a memtable. */
  function UpsertAll(es: seq<Record>, rs: seq<Record>): seq<Record>
    decreases |rs|
  {
    if rs == [] then es else UpsertAll(Upsert(es, ReadPath.Clean(rs[0])), rs[1..])
  }

  function Listings(files: map<nat, seq<Record>>, ids: seq<nat>): seq<seq<Record>> {
    if ids == [] then []
    else Listings(files, ids[..|ids| - 1]) + [if ids[|ids| - 1] in files then files[ids[|ids| - 1]] else []]
  }

  /** What a step of the flusher does to the layers. */
  function FlushLayers(l: Layers, d: Action): Layers {
    match d
    case Freeze => ReadPath.Freeze(l)
    case PublishTable => if l.queue == [] then l else Publish(l)
    case Pop => if l.queue == [] then l else ReadPath.Pop(l)
    case _ => l
  }

  /** The layers of a process that just opened: nothing queued, the replayed records, the live tables by id. */
  ghost function OpenLayers(f: Format, s: State, files: map<nat, seq<Record>>): Layers {
    var r := Recover(f, s.disk.wal, ReplayStart(s.disk));
    Layers([], UpsertAll([], if r.Recovered? then r.records else []), [], Listings(files, SortedIds(s.disk.live)))
  }

  ghost function FilesAfter(j: Store, e: Event): map<nat, seq<Record>> {
    if j.s.mem.None? then j.files
    else if e == Flush(WriteTable) && j.l.queue != [] then j.files[j.s.mem.value.nextId + 1 := j.l.queue[0]]
    else if e == Flush(DropTable) && j.s.mem.value.stage.Written? then j.files - {j.s.mem.value.stage.id}
    else j.files
  }

  ghost function LayersAfter(f: Format, j: Store, e: Event): Layers {
    match e
    case Client(c) => if G.Enabled(j.g, c) then j.l.(pending := G.Step(j.g, c).queued) else j.l
    case Append => j.l
    case ApplyRecords(_) => if j.s.mem.Some? then j.l.(active := UpsertAll(j.l.active, j.s.mem.value.unapplied))
      else j.l
    case Flush(d) => FlushLayers(j.l, d)
    case Die(_, _, _) => Layers([], [], [], [])
    case Reopen => OpenLayers(f, j.s, j.files)
  }

  ghost function Step(f: Format, j: Store, e: Event): Store
    requires Enabled(f, j, e)
  {
    var s := if Durable(j, e).Some? then Durability.Step(f, j.s, Durable(j, e).value) else j.s;
    var g := if e.Die? || e.Reopen? then G.InitialState() else if Grouped(e).Some? then G.Step(j.g, Grouped(e).value)
      else j.g;
    Store(g, s, LayersAfter(f, j, e), FilesAfter(j, e), if e.Reopen? then |s.history| else j.base)
  }

  ghost function Empty(): Store {
    Store(G.InitialState(), InitialState(), Layers([], [], [], []), map[], 0)
  }

  /** A run from an empty directory. */
  ghost predicate IsRun(f: Format, js: seq<Store>, es: seq<Event>) {
    && |js| == |es| + 1 && js[0] == Empty()
    && forall i :: 0 <= i < |es| ==> Enabled(f, js[i], es[i]) && js[i + 1] == Step(f, js[i], es[i])
  }

  /** The durability machine takes no unsafe step. */
  ghost predicate IsSafeRun(f: Format, js: seq<Store>, es: seq<Event>) {
    IsRun(f, js, es) && forall i :: 0 <= i < |es| ==> SafeEvent(f, js[i], es[i])
  }

  ghost predicate SafeEvent(f: Format, j: Store, e: Event)
    requires Enabled(f, j, e)
  {
    Durable(j, e).Some? ==> Safe(f, j.s, Durable(j, e).value)
  }

  // ----- what every step keeps ------------------------------------------------------------------------

  /** The listings in the files are sorted and stand for the tables on disk. */
  ghost predicate FilesRepresent(files: map<nat, seq<Record>>, tables: map<nat, Table>) {
    && files.Keys == tables.Keys
    && forall id :: id in files ==> Sorted(files[id]) && TableOf(files[id]) == tables[id]
  }

  /** The tables in the list are the files of their ids. */
  ghost predicate TablesFiled(ls: seq<seq<Record>>, files: map<nat, seq<Record>>, ids: seq<nat>) {
    |ls| == |ids| && forall i :: 0 <= i < |ids| ==> ids[i] in files && ls[i] == files[ids[i]]
  }

  ghost predicate QueueSorted(ls: seq<seq<Record>>) {
    forall i :: 0 <= i < |ls| ==> Sorted(ls[i])
  }

  /** The layers of a running process stand for its memory. */
  ghost predicate LayersRepresent(l: Layers, m: Mem, files: map<nat, seq<Record>>) {
    && Sorted(l.active) && TableOf(l.active) == m.active
    && QueueSorted(l.queue) && QueueRepresents(l.queue, m.queue)
    && TablesFiled(l.tables, files, m.sstables)
    && (m.stage.Written? || m.stage.Committed? ==>
         m.stage.id in files && l.queue != [] && files[m.stage.id] == l.queue[0])
  }

  /** Group commit and durability agree on what this process persisted. */
  ghost predicate Coupled(j: Store) {
    && j.base <= |j.s.history| && j.s.history == j.s.history[..j.base] + j.g.persisted
    && j.s.mem.Some? && j.s.mem.value.unapplied == G.Unapplied(j.g.flusher)
    && j.l.pending == j.g.queued
  }

  ghost predicate StoreInv(f: Format, j: Store) {
    && Inv(f, j.s) && FilesRepresent(j.files, j.s.disk.tables)
    && (j.s.mem.Some? ==> LayersRepresent(j.l, j.s.mem.value, j.files) && Coupled(j) && G.Inv(j.g))
  }

  lemma {:induction false} UpsertAllFacts(es: seq<Record>, rs: seq<Record>)
    requires Sorted(es)
    ensures Sorted(UpsertAll(es, rs)) && TableOf(UpsertAll(es, rs)) == Replay(TableOf(es), rs)
    decreases |rs|
  {
    hide Upsert, TableOf;
    if rs != [] {
      var r := ReadPath.Clean(rs[0]);
      UpsertSorted(es, r);
      UpsertIsApply(es, r);
      UpsertAllFacts(Upsert(es, r), rs[1..]);
    }
  }

  lemma {:induction false} ListingsFiled(files: map<nat, seq<Record>>, ids: seq<nat>)
    requires forall i :: 0 <= i < |ids| ==> ids[i] in files
    ensures TablesFiled(Listings(files, ids), files, ids)
  {
    if ids != [] { ListingsFiled(files, ids[..|ids| - 1]); }
  }

  // ----- step by step ---------------------------------------------------------------------------------

  lemma ClientKeeps(f: Format, j: Store, c: G.Action)
    requires StoreInv(f, j) && Enabled(f, j, Client(c))
    ensures StoreInv(f, Step(f, j, Client(c)))
  {
    hide Inv, FilesRepresent, LayersRepresent, G.Conserved, G.ClientsFine;
    G.ConservedStep(j.g, c);
    G.ClientsStep(j.g, c);
    ClientMovesNothing(j.g, c);
    SameLayers(j.l, G.Step(j.g, c).queued, j.s.mem.value, j.files);
  }

  lemma ClientMovesNothing(g: G.State, c: G.Action)
    requires G.Enabled(g, c) && !c.AppendOk? && !c.Apply?
    ensures var t := G.Step(g, c); t.persisted == g.persisted && G.Unapplied(t.flusher) == G.Unapplied(g.flusher)
  {
  }

  lemma SameLayers(l: Layers, pending: seq<Record>, m: Mem, files: map<nat, seq<Record>>)
    requires LayersRepresent(l, m, files)
    ensures LayersRepresent(l.(pending := pending), m, files)
  {
  }

  lemma AppendKeeps(f: Format, j: Store)
    requires StoreInv(f, j) && Enabled(f, j, Append)
    ensures StoreInv(f, Step(f, j, Append))
  {
    hide Inv, FilesRepresent, G.Conserved, G.ClientsFine, Sorted, TableOf, QueueRepresents, TablesFiled, EncodeAll;
    var batch := j.g.flusher.batch;
    StepKeeps(f, j.s, Persist(batch));
    G.ConservedStep(j.g, G.AppendOk);
    G.ClientsStep(j.g, G.AppendOk);
    var h := j.s.history;
    assert (h + batch)[..j.base] == h[..j.base];
    assert h + batch == h[..j.base] + (j.g.persisted + batch);
  }

  lemma ApplyKeeps(f: Format, j: Store, ok: bool)
    requires StoreInv(f, j) && Enabled(f, j, ApplyRecords(ok))
    ensures StoreInv(f, Step(f, j, ApplyRecords(ok)))
  {
    hide Inv, FilesRepresent, G.Conserved, G.ClientsFine, TableOf, QueueRepresents, TablesFiled, Replay, UpsertAll;
    StepKeeps(f, j.s, ApplyBatch);
    G.ConservedStep(j.g, G.Apply(ok));
    G.ClientsStep(j.g, G.Apply(ok));
    UpsertAllFacts(j.l.active, j.s.mem.value.unapplied);
  }

  lemma FlushKeeps(f: Format, j: Store, d: Action)
    requires StoreInv(f, j) && Enabled(f, j, Flush(d)) && SafeEvent(f, j, Flush(d))
    ensures StoreInv(f, Step(f, j, Flush(d)))
  {
    hide FilesRepresent, LayersRepresent, G.Inv, Fold, TablesInv, CheckpointInv, LogInv, QueueInv, ActiveInv;
    StepKeeps(f, j.s, d);
    hide Inv;
    var t := Step(f, j, Flush(d));
    FlushTouches(f, j.s, d);
    FlushRepresents(f, j.s, j.s.mem.value, j.l, j.files, d);
    QueueUntouched(j.l, d);
  }

  lemma QueueUntouched(l: Layers, d: Action)
    ensures FlushLayers(l, d).pending == l.pending
  {
  }

  lemma FlushTouches(f: Format, s: State, d: Action)
    requires Durability.Enabled(f, s, d) && !d.Persist? && !d.ApplyBatch? && !d.Crash? && !d.Open?
    ensures var t := Durability.Step(f, s, d);
      t.history == s.history && t.mem.Some? && t.mem.value.unapplied == s.mem.value.unapplied
  {
  }

  /** The flusher's steps on listings stand for its steps on tables. */
  lemma FlushRepresents(f: Format, s: State, m: Mem, l: Layers, files: map<nat, seq<Record>>, d: Action)
    requires Inv(f, s) && s.mem == Some(m) && FilesRepresent(files, s.disk.tables) && LayersRepresent(l, m, files)
    requires Durability.Enabled(f, s, d) && !d.Persist? && !d.ApplyBatch? && !d.Crash? && !d.Open?
    ensures var t, after := Durability.Step(f, s, d), FilesAfter(Store(G.InitialState(), s, l, files, 0), Flush(d));
      FilesRepresent(after, t.disk.tables) && t.mem.Some? && LayersRepresent(FlushLayers(l, d), t.mem.value, after)
  {
    hide FilesRepresent, LayersRepresent, Inv;
    if d.WriteTable? {
      WriteRepresents(f, s, m, l, files);
    } else if d.DropTable? {
      DropRepresents(f, s, m, l, files);
    } else if d.Freeze? {
      FreezeRepresents(l, m, files, |s.disk.wal|, s.cut, |s.history|);
    } else if d.PublishTable? {
      PublishRepresents(l, m, files);
    } else if d.Pop? {
      PopRepresents(l, m, files);
    } else {
      StageRepresents(l, m, files, Durability.Step(f, s, d).mem.value);
    }
  }

  lemma ListedAreLive(f: Format, s: State, m: Mem)
    requires Inv(f, s) && s.mem == Some(m)
    ensures forall id :: id in m.sstables ==> id in s.disk.live && id <= m.nextId
    ensures m.stage.Written? ==> m.stage.id !in m.sstables
  {
    hide LogInv, TablesInv, CheckpointInv, QueueInv, ActiveInv;
    forall id | id in m.sstables ensures id in s.disk.live && id <= m.nextId {
      assert id in SortedIds(s.disk.live);
    }
  }

  lemma WriteRepresents(f: Format, s: State, m: Mem, l: Layers, files: map<nat, seq<Record>>)
    requires Inv(f, s) && s.mem == Some(m) && FilesRepresent(files, s.disk.tables) && LayersRepresent(l, m, files)
    requires m.stage == Idle && m.queue != []
    ensures var id := m.nextId + 1;
      && l.queue != [] && FilesRepresent(files[id := l.queue[0]], s.disk.tables[id := m.queue[0].mem])
      && LayersRepresent(l, m.(nextId := id, stage := Written(id)), files[id := l.queue[0]])
  {
    hide Inv, TableOf, Sorted;
    ListedAreLive(f, s, m);
    forall i | 0 <= i < |m.sstables| ensures m.sstables[i] != m.nextId + 1 { assert m.sstables[i] in m.sstables; }
  }

  lemma DropRepresents(f: Format, s: State, m: Mem, l: Layers, files: map<nat, seq<Record>>)
    requires Inv(f, s) && s.mem == Some(m) && FilesRepresent(files, s.disk.tables) && LayersRepresent(l, m, files)
    requires m.stage.Written?
    ensures FilesRepresent(files - {m.stage.id}, s.disk.tables - {m.stage.id})
    ensures LayersRepresent(l, m.(stage := Idle), files - {m.stage.id})
  {
    hide Inv, TableOf, Sorted;
    ListedAreLive(f, s, m);
    forall i | 0 <= i < |m.sstables| ensures m.sstables[i] != m.stage.id { assert m.sstables[i] in m.sstables; }
  }

  lemma FreezeRepresents(l: Layers, m: Mem, files: map<nat, seq<Record>>, cutoff: nat, from: nat, upto: nat)
    requires LayersRepresent(l, m, files)
    ensures LayersRepresent(ReadPath.Freeze(l),
      m.(active := map[], queue := m.queue + [Queued(m.active, cutoff, from, upto)]), files)
  {
    NothingIsSorted();
    hide Sorted, TableOf;
    assert l.queue != [] ==> (l.queue + [l.active])[0] == l.queue[0];
  }

  lemma NothingIsSorted()
    ensures Sorted([]) && TableOf([]) == map[]
  {
  }

  lemma PublishRepresents(l: Layers, m: Mem, files: map<nat, seq<Record>>)
    requires LayersRepresent(l, m, files) && m.stage.Committed?
    ensures l.queue != []
    ensures LayersRepresent(Publish(l), m.(sstables := m.sstables + [m.stage.id], stage := Published(m.stage.id)),
      files)
  {
    hide Sorted, TableOf;
  }

  lemma PopRepresents(l: Layers, m: Mem, files: map<nat, seq<Record>>)
    requires LayersRepresent(l, m, files) && m.queue != []
    ensures l.queue != [] && LayersRepresent(ReadPath.Pop(l), m.(queue := m.queue[1..], stage := Idle), files)
  {
    hide Sorted, TableOf;
  }

  lemma StageRepresents(l: Layers, m: Mem, files: map<nat, seq<Record>>, t: Mem)
    requires LayersRepresent(l, m, files)
    requires t.active == m.active && t.queue == m.queue && t.sstables == m.sstables
    requires t.stage.Written? || t.stage.Committed? ==>
      (m.stage.Written? || m.stage.Committed?) && t.stage.id == m.stage.id
    ensures LayersRepresent(l, t, files)
  {
  }

  lemma ReopenKeeps(f: Format, j: Store)
    requires StoreInv(f, j) && Enabled(f, j, Reopen) && SafeEvent(f, j, Reopen)
    ensures StoreInv(f, Step(f, j, Reopen))
  {
    hide FilesRepresent, LayersRepresent, OpenLayers, G.Inv, G.InitialState;
    StepKeeps(f, j.s, Open);
    OpenRepresents(f, j.s, j.files);
    G.InitialInv();
    FreshlyOpened(f, j);
    hide Inv;
  }

  lemma FreshlyOpened(f: Format, j: Store)
    requires Enabled(f, j, Reopen)
    ensures var t := Step(f, j, Reopen);
      Coupled(t) && t.s.disk.tables == j.s.disk.tables && t.files == j.files && t.g == G.InitialState()
  {
    hide Recover, Fold, SortedIds, UpsertAll, Listings;
    var h := Step(f, j, Reopen).s.history;
    assert h == h[..|h|] + [];
  }

  lemma OpenRepresents(f: Format, s: State, files: map<nat, seq<Record>>)
    requires Inv(f, s) && FilesRepresent(files, s.disk.tables) && Durability.Enabled(f, s, Open)
    ensures var t := Durability.Step(f, s, Open);
      t.mem.Some? && LayersRepresent(OpenLayers(f, s, files), t.mem.value, files)
  {
    hide FilesRepresent, Recover, CheckpointInv, LogInv, MemInv, UpsertAll, Listings, SortedIds, TableOf, Sorted,
      Replay;
    var r, ids := Recover(f, s.disk.wal, ReplayStart(s.disk)), SortedIds(s.disk.live);
    NothingIsSorted();
    UpsertAllFacts([], r.records);
    LiveAreFiled(files, s.disk, ids);
    ListingsFiled(files, ids);
  }

  lemma LiveAreFiled(files: map<nat, seq<Record>>, d: Disk, ids: seq<nat>)
    requires FilesRepresent(files, d.tables) && ids == SortedIds(d.live) && forall id :: id in d.live ==> id in d.tables
    ensures forall i :: 0 <= i < |ids| ==> ids[i] in files
  {
    hide SortedIds;
    forall i | 0 <= i < |ids| ensures ids[i] in files { assert ids[i] in ids; }
  }

  lemma DieKeeps(f: Format, j: Store, e: Event)
    requires StoreInv(f, j) && e.Die? && Enabled(f, j, e)
    ensures StoreInv(f, Step(f, j, e))
  {
    hide FilesRepresent, LayersRepresent, Inv;
    StepKeeps(f, j.s, Crash(e.done, e.next, e.torn));
  }

  lemma EventKeeps(f: Format, j: Store, e: Event)
    requires StoreInv(f, j) && Enabled(f, j, e) && SafeEvent(f, j, e)
    ensures StoreInv(f, Step(f, j, e))
  {
    hide StoreInv, Step, Enabled, SafeEvent;
    match e
    case Client(c) => ClientKeeps(f, j, c);
    case Append => AppendKeeps(f, j);
    case ApplyRecords(ok) => ApplyKeeps(f, j, ok);
    case Flush(d) => FlushKeeps(f, j, d);
    case Die(_, _, _) => DieKeeps(f, j, e);
    case Reopen => ReopenKeeps(f, j);
  }

  lemma {:induction false} SafeRunKeepsStoreInv(f: Format, js: seq<Store>, es: seq<Event>, n: nat)
    requires IsSafeRun(f, js, es) && n <= |es|
    ensures StoreInv(f, js[n])
  {
    hide StoreInv, Step, Enabled, SafeEvent;
    if n == 0 {
      EmptyInv(f);
    } else {
      SafeRunKeepsStoreInv(f, js, es, n - 1);
      EventKeeps(f, js[n - 1], es[n - 1]);
    }
  }

  lemma EmptyInv(f: Format)
    ensures StoreInv(f, Empty())
  {
    hide Inv;
    DurabilityTheorems.InitialInv(f);
  }
}
