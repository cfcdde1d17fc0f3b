/**
 * Which flushes a compaction loses. The compaction computes its new list in one locked section, commits it to the
 * manifest without the lock, and swaps it in later; a flush that commits or publishes in between is not on that list.
 */
module CommitWindows {
  import opened TableIds
  import opened Compaction
  import opened CommitProtocol

  // ----- ids in every run ----------------------------------------------------------------

  /** A flush or compaction holds an id that no table has yet. */
  ghost predicate IdsFresh(s: State) {
    && (forall x :: x in s.list || x in s.live ==> x <= s.nextId)
    && (s.flush != NoFlush ==> s.flush.id <= s.nextId && s.flush.id !in s.list)
    && (s.flush.Allocated? ==> s.flush.id !in s.live)
    && (s.compact.MergedTo? || s.compact.Listed? || s.compact.SetCommitted? ==>
          && s.compact.id <= s.nextId && s.compact.id !in s.list
          && (s.flush != NoFlush ==> s.flush.id != s.compact.id))
    && (s.compact.MergedTo? || s.compact.Listed? ==> s.compact.id !in s.live)
    && (s.compact.Listed? || s.compact.SetCommitted? ==> forall x :: x in s.compact.kept ==> x <= s.nextId)
    && (s.compact.Listed? || s.compact.SetCommitted? ==> s.flush != NoFlush ==> s.flush.id !in s.compact.kept)
  }

  lemma FreshStep(s: State, a: Action)
    requires IdsFresh(s) && PickedPresent(s) && Enabled(s, a)
    ensures IdsFresh(Step(s, a)) && PickedPresent(Step(s, a))
  {
    hide SortedIds, Without;
    match a
    case CompactPick => assert forall x :: x in s.list[..PICK_COUNT] ==> x in s.list;
    case _ =>
  }

  lemma {:induction false} FreshRun(ss: seq<State>, acts: seq<Action>, n: nat)
    requires IsRun(ss, acts) && n <= |acts|
    ensures IdsFresh(ss[n]) && PickedPresent(ss[n])
  {
    hide Step, Enabled, IdsFresh, PickedPresent;
    if n == 0 {
      FreshStart();
    } else {
      FreshRun(ss, acts, n - 1);
      FreshStep(ss[n - 1], acts[n - 1]);
    }
  }

  lemma FreshStart()
    ensures IdsFresh(Initial()) && PickedPresent(Initial())
  {
  }

  // ----- windows -------------------------------------------------------------------------------

  /** The ids that flushes publish in steps i to n. */
  ghost function PublishedIn(ss: seq<State>, acts: seq<Action>, i: nat, n: nat): seq<nat>
    requires IsRun(ss, acts) && n <= |acts|
    decreases n
  {
    if n <= i then []
    else PublishedIn(ss, acts, i, n - 1) + if acts[n - 1].FlushPublish? then [ss[n - 1].flush.id] else []
  }

  /** The ids that flushes commit in steps i to n. */
  ghost function CommittedIn(ss: seq<State>, acts: seq<Action>, i: nat, n: nat): set<nat>
    requires IsRun(ss, acts) && n <= |acts|
    decreases n
  {
    if n <= i then {}
    else CommittedIn(ss, acts, i, n - 1) + if acts[n - 1].FlushCommit? then {ss[n - 1].flush.id} else {}
  }

  /** The list is computed in step i, and up to step n the compaction neither fails nor crashes nor swaps. */
  ghost predicate Window(acts: seq<Action>, i: nat, n: nat) {
    && i < n <= |acts| && acts[i].CompactList?
    && forall m :: i < m < n ==> !acts[m].CompactFail? && !acts[m].Reopen? && !acts[m].CompactSwap?
  }

  /** Within the window the list grows by what is published, and the computed list stays as it was. */
  lemma {:induction false} ListInWindow(ss: seq<State>, acts: seq<Action>, i: nat, n: nat)
    requires IsRun(ss, acts) && Window(acts, i, n)
    ensures ss[n].list == ss[i].list + PublishedIn(ss, acts, i + 1, n)
    ensures ss[i].compact.MergedTo? && (ss[n].compact.Listed? || ss[n].compact.SetCommitted?)
    ensures ss[n].compact.picked == ss[i].compact.picked && ss[n].compact.id == ss[i].compact.id
    ensures ss[n].compact.kept == Without(ss[i].list, ss[i].compact.picked) + [ss[i].compact.id]
    decreases n
  {
    hide SortedIds, Without;
    FreshRun(ss, acts, i);
    assert Enabled(ss[i], acts[i]) && Enabled(ss[n - 1], acts[n - 1]) && ss[n] == Step(ss[n - 1], acts[n - 1]);
    if n > i + 1 { ListInWindow(ss, acts, i, n - 1); }
  }

  /** Until the set is committed, the manifest only grows by what flushes commit. */
  lemma {:induction false} LiveInWindow(ss: seq<State>, acts: seq<Action>, i: nat, n: nat)
    requires IsRun(ss, acts) && Window(acts, i, n) && ss[n].compact.Listed?
    ensures ss[n].live == ss[i].live + CommittedIn(ss, acts, i + 1, n)
    decreases n
  {
    hide SortedIds, Without, PublishedIn;
    ListInWindow(ss, acts, i, n);
    assert Enabled(ss[n - 1], acts[n - 1]) && ss[n] == Step(ss[n - 1], acts[n - 1]);
    if n > i + 1 {
      ListInWindow(ss, acts, i, n - 1);
      LiveInWindow(ss, acts, i, n - 1);
    } else {
      FreshRun(ss, acts, i);
    }
  }

  lemma {:induction false} PublishedNew(ss: seq<State>, acts: seq<Action>, i: nat, n: nat)
    requires IsRun(ss, acts) && Window(acts, i, n)
    ensures forall x :: x in PublishedIn(ss, acts, i + 1, n) ==> x !in ss[i].list && x != ss[i].compact.id
    decreases n
  {
    hide SortedIds, Without, Step, Enabled;
    if n > i + 1 {
      PublishedNew(ss, acts, i, n - 1);
      ListInWindow(ss, acts, i, n - 1);
      FreshRun(ss, acts, n - 1);
      if acts[n - 1].FlushPublish? { PublishIsEnabled(ss[n - 1]); }
    }
  }

  lemma PublishIsEnabled(s: State)
    ensures Enabled(s, FlushPublish) ==> s.flush.FlushCommitted?
    ensures Enabled(s, FlushCommit) ==> s.flush.Allocated?
  {
  }

  lemma {:induction false} CommittedNew(ss: seq<State>, acts: seq<Action>, i: nat, n: nat)
    requires IsRun(ss, acts) && Window(acts, i, n)
    ensures forall x :: x in CommittedIn(ss, acts, i + 1, n) ==> x !in ss[i].list && x != ss[i].compact.id
    decreases n
  {
    hide SortedIds, Without, Step, Enabled;
    if n > i + 1 {
      CommittedNew(ss, acts, i, n - 1);
      ListInWindow(ss, acts, i, n - 1);
      FreshRun(ss, acts, n - 1);
      if acts[n - 1].FlushCommit? { PublishIsEnabled(ss[n - 1]); }
    }
  }

  // ----- what one compaction drops ------------------------------------------------------------------

  /**
   * Committing the computed set drops from the manifest, besides the picked tables, exactly the tables that were
   * live and not listed when the list was computed and those that flushes committed since.
   */
  lemma ManifestDropsExactly(ss: seq<State>, acts: seq<Action>, i: nat, j: nat)
    requires IsRun(ss, acts) && Window(acts, i, j) && j < |acts| && acts[j].CompactCommit?
    ensures ss[i].compact.MergedTo?
    ensures ss[j].live - ss[j + 1].live - Elements(ss[i].compact.picked)
         == ss[i].live - Elements(ss[i].list) + CommittedIn(ss, acts, i + 1, j)
  {
    hide SortedIds, Without, PublishedIn, CommittedIn, IdsFresh;
    assert Enabled(ss[j], acts[j]) && ss[j + 1] == Step(ss[j], acts[j]);
    ListInWindow(ss, acts, i, j);
    LiveInWindow(ss, acts, i, j);
    CommittedNew(ss, acts, i, j);
    PickedWereListed(ss, acts, i);
    var c := ss[i].compact;
    SetDrops(ss[i].live, CommittedIn(ss, acts, i + 1, j), ss[i].list, c.picked, c.id);
  }

  lemma SetDrops(live: set<nat>, since: set<nat>, list: seq<nat>, picked: seq<nat>, id: nat)
    requires id !in live && (forall x :: x in picked ==> x in list) && forall x :: x in since ==> x !in list && x != id
    ensures live + since - Elements(Without(list, picked) + [id]) - Elements(picked) == live - Elements(list) + since
  {
    hide Without;
    var kept := Without(list, picked) + [id];
    forall x: nat ensures x in live + since - Elements(kept) - Elements(picked) <==>
      x in live - Elements(list) + since {
      assert x in kept <==> x in Without(list, picked) || x == id;
    }
  }

  lemma ListDrops(list: seq<nat>, since: seq<nat>, picked: seq<nat>, id: nat)
    requires (forall x :: x in picked ==> x in list) && forall x :: x in since ==> x !in list && x != id
    requires id !in list
    ensures Elements(list + since) - Elements(Without(list, picked) + [id]) - Elements(picked) == Elements(since)
  {
    hide Without;
    var kept := Without(list, picked) + [id];
    forall x: nat ensures x in Elements(list + since) - Elements(kept) - Elements(picked) <==> x in Elements(since) {
      assert x in kept <==> x in Without(list, picked) || x == id;
      assert x in list + since <==> x in list || x in since;
    }
  }

  lemma PickedWereListed(ss: seq<State>, acts: seq<Action>, i: nat)
    requires IsRun(ss, acts) && i < |acts| && ss[i].compact.MergedTo?
    ensures ss[i].compact.id !in ss[i].live && ss[i].compact.id !in ss[i].list
    ensures forall x :: x in ss[i].compact.picked ==> x in ss[i].list
  {
    FreshRun(ss, acts, i);
  }

  /** Swapping the computed list in drops from memory, besides the picked tables, exactly those published since. */
  lemma MemoryDropsExactly(ss: seq<State>, acts: seq<Action>, i: nat, k: nat)
    requires IsRun(ss, acts) && Window(acts, i, k) && k < |acts| && acts[k].CompactSwap?
    ensures ss[i].compact.MergedTo?
    ensures Elements(ss[k].list) - Elements(ss[k + 1].list) - Elements(ss[i].compact.picked)
         == Elements(PublishedIn(ss, acts, i + 1, k))
  {
    hide SortedIds, Without, PublishedIn, IdsFresh;
    assert Enabled(ss[k], acts[k]) && ss[k + 1] == Step(ss[k], acts[k]);
    ListInWindow(ss, acts, i, k);
    PublishedNew(ss, acts, i, k);
    PickedWereListed(ss, acts, i);
    FreshRun(ss, acts, k);
    assert PickedPresent(ss[k]);
    var c := ss[i].compact;
    ListDrops(ss[i].list, PublishedIn(ss, acts, i + 1, k), c.picked, c.id);
  }

  // ----- losing nothing, over whole runs ---------------------------------------------------------------

  /** A compaction replaces the table by its merged one. */
  ghost predicate Replaces(s: State, a: Action, x: nat) {
    || ((a.CompactCommit? || a.CompactSwap?) && (s.compact.Listed? || s.compact.SetCommitted?) && x in s.compact.picked)
    || (a.Reopen? && s.compact.SetCommitted? && x in s.compact.picked)
  }

  /** The step takes no table from memory or from the manifest that no compaction replaces. */
  ghost predicate Keeps(s: State, a: Action, t: State) {
    && (forall x :: x in s.list && !Replaces(s, a, x) ==> x in t.list)
    && (forall x :: x in s.live && !Replaces(s, a, x) ==> x in t.live)
  }

  ghost predicate Lossless(ss: seq<State>, acts: seq<Action>)
    requires IsRun(ss, acts)
  {
    forall n :: 0 <= n < |acts| ==> Keeps(ss[n], acts[n], ss[n + 1])
  }

  /** No flush stands between commit and publication when the list is computed or commits before the set is. */
  ghost predicate CleanCommit(ss: seq<State>, acts: seq<Action>, i: nat, j: nat)
    requires IsRun(ss, acts) && j <= |acts| && i <= j
  {
    !ss[i].flush.FlushCommitted? && forall m :: i < m < j ==> !acts[m].FlushCommit?
  }

  /** No flush publishes between computing the list and swapping it in. */
  ghost predicate CleanSwap(acts: seq<Action>, i: nat, k: nat)
    requires k <= |acts|
  {
    forall m :: i < m < k ==> !acts[m].FlushPublish?
  }

  /** If step n ends or commits a window, the window was clean. */
  ghost predicate CleanAt(ss: seq<State>, acts: seq<Action>, n: nat)
    requires IsRun(ss, acts) && n < |acts|
  {
    forall i: nat :: Window(acts, i, n) ==>
      && (acts[n].CompactCommit? ==> CleanCommit(ss, acts, i, n))
      && (acts[n].CompactSwap? ==> CleanSwap(acts, i, n))
  }

  ghost predicate CleanWindows(ss: seq<State>, acts: seq<Action>)
    requires IsRun(ss, acts)
  {
    forall n: nat :: n < |acts| ==> CleanAt(ss, acts, n)
  }

  lemma {:induction false} NonePublished(ss: seq<State>, acts: seq<Action>, i: nat, n: nat)
    requires IsRun(ss, acts) && n <= |acts|
    ensures PublishedIn(ss, acts, i, n) == [] <==> forall m :: i <= m < n ==> !acts[m].FlushPublish?
    decreases n
  {
    if n > i { NonePublished(ss, acts, i, n - 1); }
  }

  lemma {:induction false} NoneCommitted(ss: seq<State>, acts: seq<Action>, i: nat, n: nat)
    requires IsRun(ss, acts) && n <= |acts|
    ensures CommittedIn(ss, acts, i, n) == {} <==> forall m :: i <= m < n ==> !acts[m].FlushCommit?
    decreases n
  {
    if n > i {
      NoneCommitted(ss, acts, i, n - 1);
      if acts[n - 1].FlushCommit? { assert ss[n - 1].flush.id in CommittedIn(ss, acts, i, n); }
    }
  }

  /** A swap keeps everything exactly when its window is clean. */
  lemma SwapKeepsExactly(ss: seq<State>, acts: seq<Action>, i: nat, k: nat)
    requires IsRun(ss, acts) && Window(acts, i, k) && k < |acts| && acts[k].CompactSwap?
    ensures Keeps(ss[k], acts[k], ss[k + 1]) <==> CleanSwap(acts, i, k)
  {
    hide SortedIds, Without, PublishedIn, IdsFresh;
    MemoryDropsExactly(ss, acts, i, k);
    ListInWindow(ss, acts, i, k);
    NonePublished(ss, acts, i + 1, k);
    SwapEffect(ss[k]);
    assert Enabled(ss[k], acts[k]) && ss[k + 1] == Step(ss[k], acts[k]);
    var gone := Elements(ss[k].list) - Elements(ss[k + 1].list) - Elements(ss[i].compact.picked);
    if PublishedIn(ss, acts, i + 1, k) != [] { assert PublishedIn(ss, acts, i + 1, k)[0] in gone; }
    if Keeps(ss[k], acts[k], ss[k + 1]) { assert gone == {}; }
  }

  lemma CommitEffect(s: State)
    ensures Enabled(s, CompactCommit) ==> Step(s, CompactCommit).list == s.list
  {
  }

  lemma SwapEffect(s: State)
    ensures Enabled(s, CompactSwap) ==> Step(s, CompactSwap).live == s.live
  {
  }

  /** Whoever stands past the commit when the list is computed was live and unlisted. */
  lemma UnlistedAt(ss: seq<State>, acts: seq<Action>, i: nat)
    requires IsRun(ss, acts) && i <= |acts| && Intact(ss[i]) && !ss[i].compact.SetCommitted?
    ensures ss[i].live - Elements(ss[i].list) == if ss[i].flush.FlushCommitted? then {ss[i].flush.id} else {}
  {
    FreshRun(ss, acts, i);
  }

  /** Memory and manifest hold the same tables up to the flush and the compaction that are under way. */
  ghost predicate Intact(s: State) {
    && (forall x :: x in s.list ==> x in s.live || (s.compact.SetCommitted? && x in s.compact.picked))
    && (forall x :: x in s.live ==>
          x in s.list || (s.flush.FlushCommitted? && x == s.flush.id) || (s.compact.SetCommitted? && x == s.compact.id))
    && (s.compact.SetCommitted? ==> forall x :: x in s.compact.picked ==> x !in s.live)
    && (s.compact.SetCommitted? ==> forall x :: x in s.compact.kept ==> x in s.live)
    && (s.flush.FlushCommitted? ==> s.flush.id in s.live)
  }

  /** From an intact state a commit keeps everything exactly when its window is clean. */
  lemma CommitKeepsExactly(ss: seq<State>, acts: seq<Action>, i: nat, j: nat)
    requires IsRun(ss, acts) && Window(acts, i, j) && j < |acts| && acts[j].CompactCommit? && Intact(ss[i])
    ensures Keeps(ss[j], acts[j], ss[j + 1]) <==> CleanCommit(ss, acts, i, j)
  {
    hide SortedIds, Without, PublishedIn, CommittedIn, IdsFresh, Intact;
    ManifestDropsExactly(ss, acts, i, j);
    UnlistedAt(ss, acts, i);
    ListInWindow(ss, acts, i, j);
    NoneCommitted(ss, acts, i + 1, j);
    assert Enabled(ss[j], acts[j]) && ss[j + 1] == Step(ss[j], acts[j]);
    CommitEffect(ss[j]);
    var gone := ss[j].live - ss[j + 1].live - Elements(ss[i].compact.picked);
    KeepsUnless(ss[j], ss[j + 1], gone);
  }

  lemma KeepsUnless(s: State, t: State, gone: set<nat>)
    requires s.compact.Listed? && t.list == s.list && gone == s.live - t.live - Elements(s.compact.picked)
    ensures Keeps(s, CompactCommit, t) <==> gone == {}
  {
    forall x: nat ensures x in gone <==> x in s.live && !Replaces(s, CompactCommit, x) && x !in t.live { }
    if gone != {} { var x :| x in gone; }
  }

  /** A compaction that has computed its list is inside a window. */
  lemma {:induction false} WindowOf(ss: seq<State>, acts: seq<Action>, n: nat) returns (i: nat)
    requires IsRun(ss, acts) && n <= |acts| && (ss[n].compact.Listed? || ss[n].compact.SetCommitted?)
    ensures Window(acts, i, n)
  {
    hide SortedIds, Without, Elements;
    assert n > 0;
    assert Enabled(ss[n - 1], acts[n - 1]) && ss[n] == Step(ss[n - 1], acts[n - 1]);
    if acts[n - 1].CompactList? {
      i := n - 1;
    } else {
      i := WindowOf(ss, acts, n - 1);
    }
  }

  lemma OtherStepKeeps(s: State, a: Action)
    requires Intact(s) && IdsFresh(s) && PickedPresent(s) && Enabled(s, a) && !a.CompactCommit? && !a.CompactSwap?
    ensures Intact(Step(s, a)) && Keeps(s, a, Step(s, a))
  {
    hide SortedIds, Without;
  }

  /** Without a committed flush at the start and a commit since, none is published either. */
  lemma {:induction false} NothingToPublish(ss: seq<State>, acts: seq<Action>, i: nat, n: nat)
    requires IsRun(ss, acts) && Window(acts, i, n) && CleanCommit(ss, acts, i, n)
    ensures !ss[n].flush.FlushCommitted? && PublishedIn(ss, acts, i + 1, n) == []
    decreases n
  {
    hide SortedIds, Without, Elements;
    assert Enabled(ss[n - 1], acts[n - 1]) && ss[n] == Step(ss[n - 1], acts[n - 1]);
    if n > i + 1 { NothingToPublish(ss, acts, i, n - 1); }
  }

  lemma CleanCommitIntact(ss: seq<State>, acts: seq<Action>, i: nat, j: nat)
    requires IsRun(ss, acts) && Window(acts, i, j) && j < |acts| && acts[j].CompactCommit? &&
      CleanCommit(ss, acts, i, j)
    ensures Intact(ss[j + 1])
  {
    hide SortedIds, Without, PublishedIn, CleanCommit;
    NothingToPublish(ss, acts, i, j);
    ListInWindow(ss, acts, i, j);
    FreshRun(ss, acts, i);
    assert Enabled(ss[j], acts[j]) && ss[j + 1] == Step(ss[j], acts[j]);
  }

  lemma CleanSwapIntact(ss: seq<State>, acts: seq<Action>, i: nat, k: nat)
    requires IsRun(ss, acts) && Window(acts, i, k) && k < |acts| && acts[k].CompactSwap? && CleanSwap(acts, i, k)
    requires Intact(ss[k])
    ensures Intact(ss[k + 1])
  {
    hide SortedIds, Without, PublishedIn;
    NonePublished(ss, acts, i + 1, k);
    ListInWindow(ss, acts, i, k);
    FreshRun(ss, acts, k);
    assert Enabled(ss[k], acts[k]) && ss[k + 1] == Step(ss[k], acts[k]);
  }

  /** One step of a run that was clean so far: it keeps everything exactly when it is clean, and then stays intact. */
  lemma StepKeepsExactly(ss: seq<State>, acts: seq<Action>, n: nat)
    requires IsRun(ss, acts) && n < |acts| && forall m :: 0 <= m <= n ==> Intact(ss[m])
    ensures Keeps(ss[n], acts[n], ss[n + 1]) <==> CleanAt(ss, acts, n)
    ensures CleanAt(ss, acts, n) ==> Intact(ss[n + 1])
  {
    hide Keeps, CleanCommit, CleanSwap, Intact, IdsFresh, SortedIds;
    FreshRun(ss, acts, n);
    assert Enabled(ss[n], acts[n]) && ss[n + 1] == Step(ss[n], acts[n]);
    if acts[n].CompactCommit? || acts[n].CompactSwap? {
      var i := WindowOf(ss, acts, n);
      WindowKeepsExactly(ss, acts, i, n);
      forall h: nat | Window(acts, h, n)
        ensures acts[n].CompactCommit? ==> (CleanCommit(ss, acts, h, n) <==> Keeps(ss[n], acts[n], ss[n + 1]))
        ensures acts[n].CompactSwap? ==> (CleanSwap(acts, h, n) <==> Keeps(ss[n], acts[n], ss[n + 1]))
      {
        WindowKeepsExactly(ss, acts, h, n);
      }
    } else {
      OtherStepKeeps(ss[n], acts[n]);
    }
  }

  lemma WindowKeepsExactly(ss: seq<State>, acts: seq<Action>, i: nat, n: nat)
    requires IsRun(ss, acts) && Window(acts, i, n) && n < |acts| && Intact(ss[i]) && Intact(ss[n])
    ensures acts[n].CompactCommit? ==> (CleanCommit(ss, acts, i, n) <==> Keeps(ss[n], acts[n], ss[n + 1]))
    ensures acts[n].CompactSwap? ==> (CleanSwap(acts, i, n) <==> Keeps(ss[n], acts[n], ss[n + 1]))
    ensures (acts[n].CompactCommit? || acts[n].CompactSwap?) && Keeps(ss[n], acts[n], ss[n + 1]) ==> Intact(ss[n + 1])
  {
    hide Keeps, CleanCommit, CleanSwap, Intact;
    if acts[n].CompactCommit? {
      CommitKeepsExactly(ss, acts, i, n);
      if CleanCommit(ss, acts, i, n) { CleanCommitIntact(ss, acts, i, n); }
    } else if acts[n].CompactSwap? {
      SwapKeepsExactly(ss, acts, i, n);
      if CleanSwap(acts, i, n) { CleanSwapIntact(ss, acts, i, n); }
    }
  }

  lemma {:induction false} CleanRunIntact(ss: seq<State>, acts: seq<Action>, n: nat)
    requires IsRun(ss, acts) && n <= |acts|
    requires (forall m: nat :: m < n ==> CleanAt(ss, acts, m)) ||
      (forall m :: 0 <= m < n ==> Keeps(ss[m], acts[m], ss[m + 1]))
    ensures forall m :: 0 <= m <= n ==> Intact(ss[m])
  {
    hide CleanAt, Keeps, Step, Enabled;
    if n > 0 {
      hide Intact;
      CleanRunIntact(ss, acts, n - 1);
      StepKeepsExactly(ss, acts, n - 1);
    }
  }

  /**
   * In every run of flushes, compactions, failures and reopens: no table is ever lost, from memory or from the
   * manifest, if and only if every compaction finds its window clean. A flush may commit between the manifest commit
   * and the swap, as long as it publishes after the swap.
   */
  lemma LosslessExactly(ss: seq<State>, acts: seq<Action>)
    requires IsRun(ss, acts)
    ensures Lossless(ss, acts) <==> CleanWindows(ss, acts)
    ensures Lossless(ss, acts) ==> Intact(ss[|acts|])
  {
    hide CleanAt, Keeps, Intact, Step, Enabled;
    if Lossless(ss, acts) || CleanWindows(ss, acts) {
      CleanRunIntact(ss, acts, |acts|);
      forall n: nat | n < |acts| ensures Keeps(ss[n], acts[n], ss[n + 1]) <==> CleanAt(ss, acts, n) {
        StepKeepsExactly(ss, acts, n);
      }
      if Lossless(ss, acts) {
        forall n: nat | n < |acts| ensures CleanAt(ss, acts, n) { assert Keeps(ss[n], acts[n], ss[n + 1]); }
      }
      if CleanWindows(ss, acts) {
        forall n | 0 <= n < |acts| ensures Keeps(ss[n], acts[n], ss[n + 1]) { assert CleanAt(ss, acts, n); }
      }
    }
  }

  /** In such a run a table that is listed once stays listed and live until a compaction replaces it. */
  lemma {:induction false} ListedUntilReplaced(ss: seq<State>, acts: seq<Action>, i: nat, j: nat, x: nat)
    requires IsRun(ss, acts) && CleanWindows(ss, acts) && i <= j <= |acts| && x in ss[i].list
    requires forall n :: i <= n < j ==> !Replaces(ss[n], acts[n], x)
    ensures x in ss[j].list && (x in ss[j].live || (ss[j].compact.SetCommitted? && x in ss[j].compact.picked))
    decreases j
  {
    hide CleanAt, Keeps, Step, Enabled, Replaces;
    LosslessExactly(ss, acts);
    CleanRunIntact(ss, acts, j);
    if i < j {
      ListedUntilReplaced(ss, acts, i, j - 1, x);
      KeptByStep(ss[j - 1], acts[j - 1], ss[j], x);
    }
  }

  lemma KeptByStep(s: State, a: Action, t: State, x: nat)
    requires Keeps(s, a, t) && x in s.list && !Replaces(s, a, x)
    ensures x in t.list
  {
  }
}
