/** Layered reads against the state machine: what Get and Scan see is the fold of the applied and queued writes. */
module ReadsShowHistory {
  import opened ByteStrings
  import opened Records
  import opened Wal
  import opened Durability
  import opened DurabilityTheorems
  import opened ReadPath
  import Scan

  type Listings = seq<seq<Record>>

  // ----- newest-first search is looking up one overlaid table ------------------------------------------

  /** Listings oldest first, later ones laid over earlier ones. */
  function Overlay(ls: Listings): Table {
    if ls == [] then map[] else Overlay(ls[..|ls| - 1]) + TableOf(ls[|ls| - 1])
  }

  function CellAt(t: Table, key: Bytes): Option<Cell> {
    if key in t then Some(t[key]) else None
  }

  function CellOfHit(hit: Option<Record>): Option<Cell> {
    match hit case None => None case Some(e) => Some(CellOf(e))
  }

  lemma {:induction false} NewestFirstIsOverlay(ls: Listings, key: Bytes)
    ensures CellOfHit(FirstHit(Reverse(ls), key)) == CellAt(Overlay(ls), key)
  {
    hide Find, TableOf;
    if ls != [] {
      var n := |ls| - 1;
      var front := ls[..n];
      NewestFirstIsOverlay(front, key);
      TableOfFind(ls[n], key);
      assert Reverse(ls)[1..] == Reverse(front);
    }
  }

  /** The queued batch, read from its end or as a sorted listing, means its records in order. */
  lemma {:induction false} BatchListingIsFold(batch: seq<Record>)
    ensures TableOf(BatchListing(batch)) == Fold(batch)
  {
    hide Upsert, TableOf, Find;
    if batch == [] {
      NothingListed();
    } else {
      var n := |batch| - 1;
      var front, last := batch[..n], batch[n];
      BatchListingIsFold(front);
      FoldSnoc(front, last);
      assert batch == front + [last];
      var t := TableOf(BatchListing(batch));
      forall key ensures key in t <==> key in Fold(batch)
        ensures key in t ==> t[key] == Fold(batch)[key] {
        UpsertFind(BatchListing(front), ReadPath.Clean(last), key);
        TableOfFind(BatchListing(front), key);
        TableOfFind(BatchListing(batch), key);
      }
    }
  }

  lemma NothingListed()
    ensures TableOf([]) == map[] && Fold([]) == map[]
  {
  }

  lemma FoldSnoc(a: seq<Record>, r: Record)
    ensures Fold(a + [r]) == Fold(a)[r.key := CellOf(r)]
  {
    FoldAppend(a, [r]);
    var none: Table := map[];
    assert [r][1..] == [];
    assert Replay(Apply(none, r), []) == Apply(none, r);
    assert Fold([r]) == Apply(none, r);
  }

  /** Writing a record into a sorted listing is applying it to the table the listing stands for. */
  lemma UpsertIsApply(es: seq<Record>, r: Record)
    ensures TableOf(Upsert(es, r)) == Apply(TableOf(es), r)
  {
    hide Upsert, TableOf, Find;
    var t := TableOf(Upsert(es, r));
    forall key ensures key in t <==> key in Apply(TableOf(es), r)
      ensures key in t ==> t[key] == Apply(TableOf(es), r)[key] {
      UpsertFind(es, r, key);
      TableOfFind(es, key);
      TableOfFind(Upsert(es, r), key);
    }
  }

  // ----- what Get answers --------------------------------------------------------------------------------

  /** All layers, oldest first: tables, frozen memtables, active memtable, queued batch. */
  function OldestFirst(l: Layers): Listings {
    l.tables + (l.queue + [l.active, BatchListing(l.pending)])
  }

  /** What a reader of the table should be told. */
  function Answer(t: Table, key: Bytes): GetResult {
    if key in t && t[key].Live? then Found(t[key].value) else NotFound
  }

  lemma LayersReversed(l: Layers)
    ensures Reverse(OldestFirst(l)) == MemLayers(l) + Reverse(l.tables)
  {
    assert Reverse(l.queue + [l.active, BatchListing(l.pending)]) == MemLayers(l);
  }

  /** Get tells the truth about the overlaid layers exactly when the newest entry is not a live empty value in
      a table. */
  lemma GetIsOverlay(l: Layers, key: Bytes)
    ensures Get(l, key) == Answer(Overlay(OldestFirst(l)), key) <==> !Scan.EmptyInTable(l, key)
  {
    hide Find, Overlay, Reverse, BatchListing;
    LayersReversed(l);
    FirstHitAppend(MemLayers(l), Reverse(l.tables), key);
    NewestFirstIsOverlay(OldestFirst(l), key);
  }

  // ----- the layers of a running store -------------------------------------------------------------------------

  /** The listings of a process hold the tables of the state machine. */
  ghost predicate Represents(l: Layers, s: State) {
    && s.mem.Some? && ListedTablesExist(s)
    && TableOf(l.active) == s.mem.value.active
    && QueueRepresents(l.queue, s.mem.value.queue)
    && TablesRepresent(l.tables, s.disk.tables, s.mem.value.sstables)
  }

  ghost predicate QueueRepresents(ls: Listings, queue: seq<Queued>) {
    |ls| == |queue| && forall i :: 0 <= i < |ls| ==> TableOf(ls[i]) == queue[i].mem
  }

  ghost predicate TablesRepresent(ls: Listings, tables: map<nat, Table>, ids: seq<nat>) {
    |ls| == |ids| && forall i :: 0 <= i < |ls| ==> ids[i] in tables && TableOf(ls[i]) == tables[ids[i]]
  }

  lemma {:induction false} OverlayAppend(a: Listings, b: Listings)
    ensures Overlay(a + b) == Overlay(a) + Overlay(b)
  {
    hide TableOf;
    if b == [] {
      assert a + b == a;
    } else {
      var n := |b| - 1;
      assert (a + b)[..|a + b| - 1] == a + b[..n];
      OverlayAppend(a, b[..n]);
    }
  }

  lemma {:induction false} StackIsOverlay(ls: Listings, tables: map<nat, Table>, ids: seq<nat>)
    requires TablesRepresent(ls, tables, ids)
    ensures (forall id :: id in ids ==> id in tables) && Stack(tables, ids) == Overlay(ls)
  {
    hide TableOf;
    if ls != [] { StackIsOverlay(ls[..|ls| - 1], tables, ids[..|ids| - 1]); }
  }

  lemma {:induction false} QueueIsOverlay(base: Table, ls: Listings, queue: seq<Queued>)
    requires QueueRepresents(ls, queue)
    ensures OverQueue(base, queue) == base + Overlay(ls)
  {
    hide TableOf;
    if ls != [] { QueueIsOverlay(base, ls[..|ls| - 1], queue[..|queue| - 1]); }
  }

  lemma LayersShowView(l: Layers, s: State)
    requires Represents(l, s)
    ensures Overlay(OldestFirst(l)) == View(s) + Fold(l.pending)
  {
    hide TableOf, Overlay, Stack, OverQueue, BatchListing, Fold;
    StackIsOverlay(l.tables, s.disk.tables, s.mem.value.sstables);
    QueueIsOverlay(Overlay(l.tables), l.queue, s.mem.value.queue);
    OverlayAppend(l.tables, l.queue + [l.active, BatchListing(l.pending)]);
    OverlayAppend(l.queue, [l.active, BatchListing(l.pending)]);
    OverlayTwo(l.active, BatchListing(l.pending));
    BatchListingIsFold(l.pending);
  }

  lemma OverlayTwo(a: seq<Record>, b: seq<Record>)
    ensures Overlay([a, b]) == TableOf(a) + TableOf(b)
  {
    assert [a, b][..1] == [a] && [a][..0] == [];
    assert Overlay([a]) == map[] + TableOf(a);
  }

  // ----- reads in one state ----------------------------------------------------------------------------------------

  /** Get answers with the last of the applied durable records and the queued ones, in that order, exactly for the keys
      whose newest entry is not a live empty value in a table. */
  lemma GetInState(f: Format, s: State, l: Layers, key: Bytes)
    requires Inv(f, s) && Represents(l, s)
    ensures 0 <= Applied(s) <= |s.history|
    ensures Get(l, key) == Answer(Fold(s.history[..Applied(s)] + l.pending), key) <==> !Scan.EmptyInTable(l, key)
  {
    hide Fold, Overlay, View, Inv, Get;
    ViewIsHistory(f, s);
    LayersShowView(l, s);
    FoldAppend(s.history[..Applied(s)], l.pending);
    GetIsOverlay(l, key);
  }

  /** The newest entry of a key over all layers is its cell in that history. */
  lemma NewestInState(f: Format, s: State, l: Layers, key: Bytes)
    requires Inv(f, s) && Represents(l, s)
    ensures 0 <= Applied(s) <= |s.history|
    ensures CellOfHit(FirstHit(Scan.AllLayers(l), key)) == CellAt(Fold(s.history[..Applied(s)] + l.pending), key)
  {
    hide Fold, Overlay, View, Inv, FirstHit, Scan.AllLayers;
    ViewIsHistory(f, s);
    LayersShowView(l, s);
    FoldAppend(s.history[..Applied(s)], l.pending);
    NewestEntry(l, key);
  }

  lemma NewestEntry(l: Layers, key: Bytes)
    ensures CellOfHit(FirstHit(Scan.AllLayers(l), key)) == CellAt(Overlay(OldestFirst(l)), key)
  {
    hide Find, Overlay, Reverse, BatchListing, Scan.AllLayers, FirstHit;
    LayersReversed(l);
    Scan.LayersAsGetSeesThem(l, key);
    FirstHitAppend(MemLayers(l), Reverse(l.tables), key);
    NewestFirstIsOverlay(OldestFirst(l), key);
  }
}
