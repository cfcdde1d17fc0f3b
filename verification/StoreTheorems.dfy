/** The store's promises, over every safe run of writes, flushes, crashes and reopens. */
module StoreTheorems {
  import opened ByteStrings
  import opened Records
  import opened Wal
  import opened Durability
  import opened DurabilityTheorems
  import opened ReadPath
  import opened ReadsShowHistory
  import opened MergeReach
  import opened StoreRuns
  import G = GroupCommit
  import Scan

  lemma RunsRepresent(f: Format, js: seq<Store>, es: seq<Event>, n: nat)
    requires StoreRuns.IsSafeRun(f, js, es) && n <= |es|
    ensures var j := js[n];
      && Inv(f, j.s)
      && (j.s.mem.Some? ==> Represents(j.l, j.s) && j.l.pending == j.g.queued && G.Inv(j.g) && Coupled(j))
      && (j.s.mem.Some? ==> AllSorted(Scan.ScanRests(j.l)))
  {
    hide Inv, Sorted, TableOf, G.Inv, Scan.ScanRests;
    SafeRunKeepsStoreInv(f, js, es, n);
    var j := js[n];
    if j.s.mem.Some? {
      ListedExist(j);
      LayersSorted(j.l, j.files, j.s.mem.value, j.s.disk.tables);
    }
  }

  lemma ListedExist(j: Store)
    requires j.s.mem.Some? && FilesRepresent(j.files, j.s.disk.tables) && LayersRepresent(j.l, j.s.mem.value, j.files)
    ensures ListedTablesExist(j.s) && TablesRepresent(j.l.tables, j.s.disk.tables, j.s.mem.value.sstables)
  {
    hide Sorted, TableOf;
    var ids := j.s.mem.value.sstables;
    forall id | id in ids ensures id in j.s.disk.tables {
      var i :| 0 <= i < |ids| && ids[i] == id;
    }
  }

  lemma LayersSorted(l: Layers, files: map<nat, seq<Record>>, m: Mem, tables: map<nat, Table>)
    requires FilesRepresent(files, tables) && LayersRepresent(l, m, files)
    ensures AllSorted(Scan.ScanRests(l))
  {
    hide Sorted, TableOf, BatchListing;
    BatchListingSorted(l.pending);
    var rests := Scan.ScanRests(l);
    forall i | 0 <= i < |rests| ensures Sorted(rests[i]) {
      Scan.SourceIsLayer(l, i);
    }
  }

  // ----- reads ----------------------------------------------------------------------------------------

  /**
   * In every safe run, at every moment the process is up: Get answers with the last of the durable records that have
   * been applied and the queued ones, in that order, exactly for the keys whose newest entry is not a live empty
   * value in a table.
   */
  lemma GetShowsHistory(f: Format, js: seq<Store>, es: seq<Event>, n: nat, key: Bytes)
    requires StoreRuns.IsSafeRun(f, js, es) && n <= |es| && js[n].s.mem.Some?
    ensures var j := js[n];
      && 0 <= Applied(j.s) <= |j.s.history|
      && (Get(j.l, key) == Answer(Fold(j.s.history[..Applied(j.s)] + j.g.queued), key) <==>
           !Scan.EmptyInTable(j.l, key))
  {
    hide Fold, Inv, Get, G.Inv, Coupled, Represents;
    RunsRepresent(f, js, es, n);
    GetInState(f, js[n].s, js[n].l, key);
  }

  /**
   * In every safe run a scan is sorted, and shows a key of its range as that same history has it, exactly when it can
   * see the newest entry of the key or one to the same effect. It can, whatever the key, if it starts past the empty
   * key or no layer holds that key.
   */
  lemma ScanShowsHistory(f: Format, js: seq<Store>, es: seq<Event>, n: nat, start: Bytes, end: Bytes, key: Bytes)
    requires StoreRuns.IsSafeRun(f, js, es) && n <= |es| && js[n].s.mem.Some?
    requires |js[n].l.queue| + |js[n].l.tables| <= 1_000_000
    ensures var j := js[n];
      && 0 <= Applied(j.s) <= |j.s.history| && |Scan.ScanRests(j.l)| == |Scan.ScanPriorities(j.l)|
      && Sorted(Scan.ScanList(j.l, start, end))
      && (Scan.InRange(key, start, end) ==>
            (ShowsAs(Scan.ScanList(j.l, start, end), key,
              CellAt(Fold(j.s.history[..Applied(j.s)] + j.g.queued), key)) <==>
             Scan.LiveValue(Scan.Seen(j.l, start, key)) == Scan.LiveValue(FirstHit(Scan.AllLayers(j.l), key))))
      && (Scan.Scannable(Scan.ScanRests(j.l), start) && Scan.InRange(key, start, end) ==>
            Scan.Seen(j.l, start, key) == FirstHit(Scan.AllLayers(j.l), key))
  {
    hide Fold, Inv, G.Inv, Coupled, Represents, FirstHit, AllSorted, Scan.ScanList, Scan.ScanRests, Scan.ScanPriorities,
      Scan.AllLayers, Scan.Seen;
    RunsRepresent(f, js, es, n);
    var j := js[n];
    NewestInState(f, j.s, j.l, key);
    Scan.ScanIsNewestSeen(j.l, start, end);
    forall value ensures Record(key, value, false) in Scan.ScanList(j.l, start, end) <==>
      Scan.InRange(key, start, end) && Scan.LiveValue(Scan.Seen(j.l, start, key)) == Some(value)
    {
      Scan.ScanYields(j.l, start, end, key, value);
    }
    if Scan.Scannable(Scan.ScanRests(j.l), start) && Scan.InRange(key, start, end) { Scan.SeesAll(j.l, start, key); }
    if Scan.InRange(key, start, end) {
      var cell := CellAt(Fold(j.s.history[..Applied(j.s)] + j.g.queued), key);
      ShownExactly(Scan.ScanList(j.l, start, end), key, Scan.Seen(j.l, start, key), FirstHit(Scan.AllLayers(j.l), key),
        cell);
    }
  }

  /** The scan yields the key with its value if the cell is live, and not at all otherwise. */
  ghost predicate ShowsAs(out: seq<Record>, key: Bytes, cell: Option<Cell>) {
    forall value :: Record(key, value, false) in out <==> cell == Some(Live(value))
  }

  lemma ShownExactly(out: seq<Record>, key: Bytes, seen: Option<Record>, newest: Option<Record>, cell: Option<Cell>)
    requires forall value :: Record(key, value, false) in out <==> Scan.LiveValue(seen) == Some(value)
    requires CellOfHit(newest) == cell
    ensures ShowsAs(out, key, cell) <==> Scan.LiveValue(seen) == Scan.LiveValue(newest)
  {
    if ShowsAs(out, key, cell) {
      if Scan.LiveValue(seen).Some? { assert Record(key, Scan.LiveValue(seen).value, false) in out; }
      if Scan.LiveValue(newest).Some? { assert cell == Some(Live(Scan.LiveValue(newest).value)); }
    }
  }

  /** Right after a reopen everything durable is applied and nothing is queued. */
  lemma ReopenedShowsEverything(f: Format, js: seq<Store>, es: seq<Event>, n: nat)
    requires StoreRuns.IsSafeRun(f, js, es) && n < |es| && es[n] == Reopen
    ensures var j := js[n + 1];
      j.s.mem.Some? && Applied(j.s) == |j.s.history| && j.g.queued == [] && j.s.history == js[n].s.history
  {
    hide Recover, Fold, Inv;
    assert js[n + 1] == StoreRuns.Step(f, js[n], es[n]);
  }

  lemma DyingLeaves(f: Format, js: seq<Store>, es: seq<Event>, n: nat)
    requires StoreRuns.IsSafeRun(f, js, es) && n < |es| && es[n].Die?
    ensures js[n + 1].s.history == js[n].s.history + es[n].done
  {
    hide EncodeAll, Fold, Inv;
    assert js[n + 1] == StoreRuns.Step(f, js[n], es[n]);
  }

  /** Reading after a crash and a safe reopen, before any new write: the last durable record of each key, the records
      of a batch that was half written when the process died included. */
  lemma GetAfterCrash(f: Format, js: seq<Store>, es: seq<Event>, n: nat, key: Bytes)
    requires StoreRuns.IsSafeRun(f, js, es) && n + 1 < |es| && es[n].Die? && es[n + 1] == Reopen
    ensures js[n + 2].s.mem.Some?
    ensures Get(js[n + 2].l, key) == Answer(Fold(js[n].s.history + es[n].done), key) <==>
      !Scan.EmptyInTable(js[n + 2].l, key)
  {
    hide Fold, Get, Scan.EmptyInTable, StoreRuns.Step, StoreRuns.Enabled, SafeEvent, Applied;
    DyingLeaves(f, js, es, n);
    ReopenedShowsEverything(f, js, es, n + 1);
    GetShowsHistory(f, js, es, n + 2, key);
    var h := js[n + 2].s.history;
    assert h[..|h|] + [] == h;
  }

  /**
   * Against everything accepted so far, over what was durable at the open: Get is right, of a key whose newest entry
   * is no live empty value in a table, exactly when the batch in flight does not hold the key, or a queued record of
   * the key hides it, or it would answer the same.
   */
  lemma GetShowsAccepted(f: Format, js: seq<Store>, es: seq<Event>, n: nat, key: Bytes)
    requires StoreRuns.IsSafeRun(f, js, es) && n <= |es| && js[n].s.mem.Some?
    ensures var j := js[n];
      var open, hidden := j.s.history[..if j.base <= |j.s.history| then j.base else 0], Fold(G.Hidden(j.g));
      j.base <= |j.s.history| && (!Scan.EmptyInTable(j.l, key) ==>
        (Get(j.l, key) == Answer(Fold(open + j.g.accepted), key) <==>
         key !in hidden || key in Fold(j.g.queued) || Answer(Fold(open + j.g.applied), key) == Answer(hidden, key)))
  {
    hide Fold, Inv, Get, Scan.EmptyInTable, Represents, Coupled, G.Inv, AllSorted, StoreRuns.Step, StoreRuns.Enabled,
      SafeEvent, Applied, Answer, G.Hidden;
    RunsRepresent(f, js, es, n);
    GetShowsHistory(f, js, es, n, key);
    AppliedSoFar(js[n]);
    var j := js[n];
    AcceptedParts(j.g);
    var open := j.s.history[..j.base];
    AnswersAgree(open + j.g.applied, G.Hidden(j.g), j.g.queued, key);
    assert open + j.g.applied + G.Hidden(j.g) + j.g.queued == open + j.g.accepted;
  }

  lemma AcceptedParts(g: G.State)
    requires G.Inv(g)
    ensures g.accepted == g.applied + G.Hidden(g) + g.queued
  {
  }

  lemma AnswersAgree(shown: seq<Record>, hidden: seq<Record>, queued: seq<Record>, key: Bytes)
    ensures Answer(Fold(shown + queued), key) == Answer(Fold(shown + hidden + queued), key) <==>
      key !in Fold(hidden) || key in Fold(queued) || Answer(Fold(shown), key) == Answer(Fold(hidden), key)
  {
    hide Fold;
    FoldAppend(shown, queued);
    FoldAppend(shown + hidden, queued);
    FoldAppend(shown, hidden);
  }

  // ----- Sync ---------------------------------------------------------------------------------------------

  /** Event i starts a wait of `id`, and up to j the process lives and `id` starts no other wait. */
  ghost predicate Waits(es: seq<Event>, i: nat, j: nat, id: nat) {
    && i < j <= |es| && StartsWait(es[i], id)
    && forall n :: i < n < j ==> !StartsWait(es[n], id) && !es[n].Die? && !es[n].Reopen?
  }

  ghost predicate StartsWait(e: Event, id: nat) {
    e.Client? && (e.c == G.CallSync(id) || (e.c.WriteAndWait? && e.c.id == id))
  }

  lemma {:induction false} WaitRemembers(f: Format, js: seq<Store>, es: seq<Event>, i: nat, j: nat, id: nat)
    requires StoreRuns.IsRun(f, js, es) && Waits(es, i, j, id)
    ensures id in js[j].g.clients && js[j].g.clients[id].before == |js[i + 1].g.accepted|
    ensures js[i + 1].g.accepted <= js[j].g.accepted && js[j].base == js[i].base
    decreases j
  {
    hide StoreRuns.Step, StoreRuns.Enabled, StartsWait;
    assert StoreRuns.Enabled(f, js[j - 1], es[j - 1]) && js[j] == StoreRuns.Step(f, js[j - 1], es[j - 1]);
    if i + 1 < j {
      WaitRemembers(f, js, es, i, j - 1, id);
      EventRemembers(f, js[j - 1], es[j - 1], id);
    } else {
      WaitStarts(f, js[i], es[i], id);
    }
  }

  lemma WaitStarts(f: Format, j: Store, e: Event, id: nat)
    requires StoreRuns.Enabled(f, j, e) && StartsWait(e, id)
    ensures var t := StoreRuns.Step(f, j, e);
      id in t.g.clients && t.g.clients[id].before == |t.g.accepted| && t.base == j.base
  {
    hide FilesAfter, Durability.Step, Durability.Enabled;
  }

  lemma EventRemembers(f: Format, j: Store, e: Event, id: nat)
    requires StoreRuns.Enabled(f, j, e) && !StartsWait(e, id) && !e.Die? && !e.Reopen? && id in j.g.clients
    ensures var t := StoreRuns.Step(f, j, e);
      && id in t.g.clients && t.g.clients[id].before == j.g.clients[id].before
      && j.g.accepted <= t.g.accepted && t.base == j.base
  {
    hide FilesAfter, LayersAfter, Durability.Step, Durability.Enabled, G.Step, G.Enabled;
    if Grouped(e).Some? {
      G.KeepsBefore(j.g, Grouped(e).value, id);
      AcceptedGrows(j.g, Grouped(e).value);
    }
  }

  lemma AcceptedGrows(g: G.State, c: G.Action)
    requires G.Enabled(g, c)
    ensures g.accepted <= G.Step(g, c).accepted && g.persisted <= G.Step(g, c).persisted &&
      g.applied <= G.Step(g, c).applied
  {
  }

  lemma StepKeepsApplied(f: Format, s: State, a: Action)
    requires Durability.Enabled(f, s, a) && (s.mem.Some? ==> Applied(s) >= 0)
    ensures var t := Durability.Step(f, s, a);
      && s.history <= t.history
      && (t.mem.Some? ==> Applied(t) >= if s.mem.Some? then Applied(s) else |s.history|)
  {
    hide Recover, EncodeAll, Fold;
  }

  lemma EventKeepsApplied(f: Format, j: Store, e: Event)
    requires StoreRuns.Enabled(f, j, e) && (j.s.mem.Some? ==> Applied(j.s) >= 0)
    ensures var t := StoreRuns.Step(f, j, e).s;
      && j.s.history <= t.history
      && (t.mem.Some? ==> Applied(t) >= if j.s.mem.Some? then Applied(j.s) else |j.s.history|)
  {
    hide Durability.Step, Durability.Enabled, G.Step, G.Enabled, OpenLayers, FilesAfter;
    if Durable(j, e).Some? { StepKeepsApplied(f, j.s, Durable(j, e).value); }
  }

  /** What is durable stays durable, and what was applied is applied whenever the store is up again. */
  lemma {:induction false} AppliedStays(f: Format, js: seq<Store>, es: seq<Event>, i: nat, n: nat)
    requires StoreRuns.IsSafeRun(f, js, es) && i <= n <= |es| && js[i].s.mem.Some?
    ensures 0 <= Applied(js[i].s) <= |js[i].s.history| && js[i].s.history <= js[n].s.history
    ensures js[n].s.mem.Some? ==> Applied(js[i].s) <= Applied(js[n].s)
    decreases n
  {
    hide StoreRuns.Step, StoreRuns.Enabled, SafeEvent, Applied;
    AppliedBounds(f, js, es, i);
    if i < n {
      AppliedStays(f, js, es, i, n - 1);
      assert StoreRuns.Enabled(f, js[n - 1], es[n - 1]) && js[n] == StoreRuns.Step(f, js[n - 1], es[n - 1]);
      EventKeepsApplied(f, js[n - 1], es[n - 1]);
    }
  }

  lemma AppliedBounds(f: Format, js: seq<Store>, es: seq<Event>, n: nat)
    requires StoreRuns.IsSafeRun(f, js, es) && n <= |es| && js[n].s.mem.Some?
    ensures 0 <= Applied(js[n].s) <= |js[n].s.history|
  {
    hide Inv, View, Represents, Coupled, AllSorted;
    RunsRepresent(f, js, es, n);
    ViewIsHistory(f, js[n].s);
  }

  /** The applied part of the history is what was there at the open, then what group commit applied. */
  lemma AppliedSoFar(j: Store)
    requires Coupled(j) && G.Inv(j.g)
    ensures Applied(j.s) == j.base + |j.g.applied| && Applied(j.s) <= |j.s.history|
    ensures j.s.history[..Applied(j.s)] == j.s.history[..j.base] + j.g.applied
  {
    assert j.g.persisted == j.g.applied + G.Unapplied(j.g.flusher);
  }

  /**
   * A Sync, or a write that waits, returned nil at j. Then at every later moment, whatever crashes and safe reopens
   * came in between, the durable history begins with what was durable when that process opened followed by everything
   * it had accepted when the wait began; and whenever the store is up, all of that is in the part that reads show.
   */
  lemma SyncedWritesSurvive(f: Format, js: seq<Store>, es: seq<Event>, i: nat, j: nat, n: nat, id: nat)
    requires StoreRuns.IsSafeRun(f, js, es) && Waits(es, i, j, id) && j <= n <= |es|
    requires id in js[j].g.clients && js[j].g.clients[id].Returned? && js[j].g.clients[id].ok
    ensures js[i].base <= |js[j].s.history|
    ensures js[j].s.history[..js[i].base] + js[i + 1].g.accepted <= js[n].s.history
    ensures js[n].s.mem.Some? ==> |js[i + 1].g.accepted| + js[i].base <= Applied(js[n].s) <= |js[n].s.history|
  {
    hide Inv, Represents, G.Inv, Coupled, G.Step, G.Enabled, Durability.Step, Durability.Enabled, AllSorted;
    WaitRemembers(f, js, es, i, j, id);
    WaitingIsUp(f, js, es, i, j, id);
    RunsRepresent(f, js, es, j);
    G.ReturnedIsApplied(js[j].g, id);
    AppliedSoFar(js[j]);
    AppliedStays(f, js, es, j, n);
    if js[n].s.mem.Some? { AppliedBounds(f, js, es, n); }
    PrefixOfApplied(js[j].s.history, js[i].base, js[j].g.applied, js[j].g.accepted, js[i + 1].g.accepted,
      js[n].s.history);
  }

  lemma PrefixOfApplied<T>(h: seq<T>, base: nat, applied: seq<T>, accepted: seq<T>, before: seq<T>, later: seq<T>)
    requires base + |applied| <= |h| && h[..base + |applied|] == h[..base] + applied
    requires applied <= accepted && before <= accepted && |before| <= |applied| && h <= later
    ensures h[..base] + before <= later
  {
    assert before == applied[..|before|];
    assert h[..base] + before == (h[..base] + applied)[..base + |before|];
  }

  lemma {:induction false} WaitingIsUp(f: Format, js: seq<Store>, es: seq<Event>, i: nat, j: nat, id: nat)
    requires StoreRuns.IsRun(f, js, es) && Waits(es, i, j, id)
    ensures js[j].s.mem.Some?
    decreases j
  {
    hide Recover, EncodeAll, Fold;
    assert StoreRuns.Enabled(f, js[j - 1], es[j - 1]) && js[j] == StoreRuns.Step(f, js[j - 1], es[j - 1]);
    if i + 1 < j { WaitingIsUp(f, js, es, i, j - 1, id); }
  }

  // ----- runs that keep the discipline ------------------------------------------------------------------------

  ghost predicate IsDisciplinedRun(f: Format, js: seq<Store>, es: seq<Event>) {
    StoreRuns.IsRun(f, js, es) && forall i :: 0 <= i < |es| ==> DisciplinedEvent(js[i], es[i])
  }

  /** Freeze only while no earlier truncation is pending; open only over a checkpoint of the present log, or none. */
  ghost predicate DisciplinedEvent(j: Store, e: Event) {
    Durable(j, e).Some? ==> Disciplined(j.s, Durable(j, e).value)
  }

  /** Freezing only while no earlier truncation is pending, and never trusting a stale checkpoint, is enough: every
      theorem above holds of such a run. */
  lemma {:induction false} DisciplinedRunIsSafe(f: Format, js: seq<Store>, es: seq<Event>, n: nat)
    requires IsDisciplinedRun(f, js, es) && n <= |es|
    ensures Inv(f, js[n].s) && CutoffsCurrent(js[n].s)
    ensures forall i :: 0 <= i < n ==> SafeEvent(f, js[i], es[i])
  {
    hide StoreRuns.Step, StoreRuns.Enabled, SafeEvent, DisciplinedEvent, Inv, CutoffsCurrent;
    if n == 0 {
      InitialInv(f);
      InitialCutoffs();
    } else {
      DisciplinedRunIsSafe(f, js, es, n - 1);
      var j, e := js[n - 1], es[n - 1];
      assert DisciplinedEvent(j, e) && StoreRuns.Enabled(f, j, e) && js[n] == StoreRuns.Step(f, j, e);
      DisciplinedEventIsSafe(f, j, e);
    }
  }

  lemma DisciplinedEventIsSafe(f: Format, j: Store, e: Event)
    requires Inv(f, j.s) && CutoffsCurrent(j.s) && StoreRuns.Enabled(f, j, e) && DisciplinedEvent(j, e)
    ensures SafeEvent(f, j, e)
    ensures Inv(f, StoreRuns.Step(f, j, e).s) && CutoffsCurrent(StoreRuns.Step(f, j, e).s)
  {
    hide Durability.Step, Durability.Enabled, Inv, CutoffsCurrent, Safe, Disciplined, G.Step, G.Enabled, OpenLayers;
    if Durable(j, e).Some? {
      DisciplineStep(f, j.s, Durable(j, e).value);
      StepKeeps(f, j.s, Durable(j, e).value);
    }
  }

  lemma InitialCutoffs()
    ensures CutoffsCurrent(InitialState())
  {
  }

  /** Reads in a disciplined run, and what a nil return of Sync promises in one. */
  lemma DisciplinedReads(f: Format, js: seq<Store>, es: seq<Event>, n: nat, key: Bytes)
    requires IsDisciplinedRun(f, js, es) && n <= |es| && js[n].s.mem.Some?
    ensures var j := js[n];
      && 0 <= Applied(j.s) <= |j.s.history|
      && (Get(j.l, key) == Answer(Fold(j.s.history[..Applied(j.s)] + j.g.queued), key) <==>
           !Scan.EmptyInTable(j.l, key))
  {
    hide Inv, CutoffsCurrent, SafeEvent, DisciplinedEvent, Fold, Get, Scan.EmptyInTable;
    DisciplinedRunIsSafe(f, js, es, |es|);
    GetShowsHistory(f, js, es, n, key);
  }

  lemma DisciplinedSyncs(f: Format, js: seq<Store>, es: seq<Event>, i: nat, j: nat, n: nat, id: nat)
    requires IsDisciplinedRun(f, js, es) && Waits(es, i, j, id) && j <= n <= |es|
    requires id in js[j].g.clients && js[j].g.clients[id].Returned? && js[j].g.clients[id].ok
    ensures js[i].base <= |js[j].s.history|
    ensures js[j].s.history[..js[i].base] + js[i + 1].g.accepted <= js[n].s.history
    ensures js[n].s.mem.Some? ==> |js[i + 1].g.accepted| + js[i].base <= Applied(js[n].s) <= |js[n].s.history|
  {
    hide Inv, CutoffsCurrent, SafeEvent, DisciplinedEvent, Fold;
    DisciplinedRunIsSafe(f, js, es, |es|);
    SyncedWritesSurvive(f, js, es, i, j, n, id);
  }
}
