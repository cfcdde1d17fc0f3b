/** What merging tables means for reads, in place and where the code puts the result. */
module Compaction {
  import opened ByteStrings
  import opened Records
  import opened Merge
  import opened MergeReach
  import opened MergeIterators
  import opened ReadPath
  import opened Scan

  const PICK_COUNT := 2

  /** `mergeReaders`: readers oldest to newest, priority is the position. */
  function ReaderPriorities(n: nat): (pris: seq<int>)
    ensures |pris| == n && forall i :: 0 <= i < n ==> pris[i] == i
  {
    seq(n, i => i)
  }

  /** The entries written to the merged table, tombstones kept. */
  function MergedTable(tables: Rests): seq<Record> {
    Merged(tables, ReaderPriorities(|tables|))
  }

  lemma ReaderPrioritiesRanked(n: nat)
    ensures Ranked(ReaderPriorities(n))
  {
  }

  /**
   * The merged table answers every key as a newest-first search over what the merge reaches of its inputs, tombstones
   * included; that is all of them when none holds the empty key.
   */
  lemma MergedTableAnswers(tables: Rests, key: Bytes)
    requires AllSorted(tables)
    ensures Sorted(MergedTable(tables)) && NoEmptyKey(MergedTable(tables))
    ensures Find(MergedTable(tables), key) == FirstHit(Reverse(Reach(tables)), key)
    ensures WellFormed(tables) ==> Find(MergedTable(tables), key) == FirstHit(Reverse(tables), key)
  {
    hide Merged, Find, FirstHit, IsBest, Reach;
    var pris, out, reach := ReaderPriorities(|tables|), MergedTable(tables), Reach(tables);
    ReaderPrioritiesRanked(|tables|);
    MergedSorted(tables, pris);
    ReachWellFormed(tables);
    forall e: Record | e.key == key ensures Find(out, key) == Some(e) <==> FirstHit(Reverse(reach), key) == Some(e) {
      MergedIsBest(tables, pris, e);
      FindIsMembership(out, e);
      NewestIsBest(reach, e);
    }
    if Find(out, key).Some? { FindSome(out, key); }
    if FirstHit(Reverse(reach), key).Some? { FirstHitKey(Reverse(reach), key); }
    if WellFormed(tables) { ReachAll(tables); }
  }

  /** It answers every key as its inputs did if and only if none of them holds the empty key. */
  lemma MergedTableExactly(tables: Rests)
    requires AllSorted(tables)
    ensures (forall key :: Find(MergedTable(tables), key) == FirstHit(Reverse(tables), key)) <==> WellFormed(tables)
  {
    hide Find, FirstHit, MergedTable, Reach;
    forall key ensures WellFormed(tables) ==> Find(MergedTable(tables), key) == FirstHit(Reverse(tables), key) {
      MergedTableAnswers(tables, key);
    }
    if !WellFormed(tables) {
      var i :| 0 <= i < |tables| && !NoEmptyKey(tables[i]);
      MergedTableAnswers(tables, []);
      FindNone(MergedTable(tables), []);
      FindNone(tables[i], []);
      var p := FirstHitAt(Reverse(tables), []);
      assert Reverse(tables)[|tables| - 1 - i] == tables[i];
    }
  }

  /** Of two tables, a newer one that holds the empty key wipes both, and an older one that holds it is lost itself. */
  lemma EmptyKeyWipesTables(older: seq<Record>, newer: seq<Record>)
    requires Sorted(older) && Sorted(newer)
    ensures AtKey(newer, []) ==> MergedTable([older, newer]) == []
    ensures AtKey(older, []) && !AtKey(newer, []) ==> MergedTable([older, newer]) == newer
  {
    hide Merged, LastEmpty, Late;
    var tables, out := [older, newer], MergedTable([older, newer]);
    var reach := Reach(tables);
    MergedTableAnswers(tables, []);
    if AtKey(newer, []) {
      if out != [] {
        EmittedIsLate(tables, out[0]);
        NothingIsLate(tables, out[0].key);
      }
    } else if AtKey(older, []) {
      OlderIsLost(older, newer);
      forall e ensures e in out <==> e in newer {
        FindIsMembership(out, e);
        FindIsMembership(newer, e);
        MergedTableAnswers(tables, e.key);
      }
      SortedIsUnique(out, newer);
    }
  }

  lemma NothingIsLate(tables: Rests, key: Bytes)
    requires tables != [] && AtKey(tables[|tables| - 1], [])
    ensures !Late(tables, key)
  {
  }

  lemma EmittedIsLate(tables: Rests, e: Record)
    requires AllSorted(tables) && e in MergedTable(tables)
    ensures Late(tables, e.key)
  {
    hide Merged;
    ReaderPrioritiesRanked(|tables|);
    assert HasKey(MergedTable(tables), e.key);
    EmittedKeysExactly(tables, ReaderPriorities(|tables|), e.key);
  }

  /** The older table stands at the empty key: nothing of it is reached, and the newer one answers alone. */
  lemma OlderIsLost(older: seq<Record>, newer: seq<Record>)
    requires Sorted(older) && Sorted(newer) && AtKey(older, []) && !AtKey(newer, [])
    ensures forall key :: FirstHit(Reverse(Reach([older, newer])), key) == Find(newer, key)
  {
    hide Find, FirstHit, LastEmpty, Late;
    var tables := [older, newer];
    assert AtKey(tables[0], []);
    assert LastEmpty(tables) == 0;
    if Late(tables, []) { LateNotEmpty(tables, []); }
    assert Reach(tables)[0] == [] && Reach(tables)[1] == newer;
    assert Reach(tables) == [[], newer] && Reverse([[], newer]) == [newer, []];
    forall key ensures FirstHit([newer, []], key) == Find(newer, key) {
      FirstHitTwo(newer, [], key);
      FindNone([], key);
    }
  }

  lemma NewestIsBest(tables: Rests, e: Record)
    requires AllSorted(tables)
    ensures IsBest(tables, ReaderPriorities(|tables|), e) <==> FirstHit(Reverse(tables), e.key) == Some(e)
  {
    hide Find, FirstHit, Reverse;
    var pris, all, n := ReaderPriorities(|tables|), Reverse(tables), |tables|;
    ReaderPrioritiesRanked(n);
    var p := FirstHitAt(all, e.key);
    if p < 0 {
      forall i | 0 <= i < n ensures e !in tables[i] {
        assert all[n - 1 - i] == tables[i];
        FindNone(tables[i], e.key);
      }
    } else {
      var i := n - 1 - p;
      assert all[p] == tables[i];
      forall j | 0 <= j < n && HasKey(tables[j], e.key) ensures pris[j] <= pris[i] {
        HasKeyIsFind(tables[j], e.key);
        assert all[n - 1 - j] == tables[j];
      }
      HasKeyIsFind(tables[i], e.key);
      OnlyOneBest(tables, pris, i, e);
      FindIsMembership(tables[i], e);
    }
  }

  /** What the merge gives for a key, and what its inputs gave; they differ only if an input holds the empty key. */
  ghost predicate Mangled(picked: Rests, key: Bytes) {
    FirstHit(Reverse(Reach(picked)), key) != FirstHit(Reverse(picked), key)
  }

  lemma NothingMangled(picked: Rests, key: Bytes)
    requires WellFormed(picked)
    ensures !Mangled(picked, key)
  {
    ReachAll(picked);
  }

  function Or(a: Option<Record>, b: Option<Record>): Option<Record> {
    if a.Some? then a else b
  }

  /** Putting the merged table where its inputs stood preserves a lookup if and only if a newer table answers first,
      or what the merge reached, with the older tables behind it, answers as the inputs did. */
  lemma InPlaceExactly(older: Rests, picked: Rests, newer: Rests, key: Bytes)
    requires AllSorted(picked)
    ensures var before, after := older + picked + newer, older + [MergedTable(picked)] + newer;
      && (FirstHit(Reverse(after), key) == FirstHit(Reverse(before), key) <==>
            || FirstHit(Reverse(newer), key).Some?
            || Or(FirstHit(Reverse(Reach(picked)), key), FirstHit(Reverse(older), key))
               == Or(FirstHit(Reverse(picked), key), FirstHit(Reverse(older), key)))
      && (WellFormed(picked) ==> FirstHit(Reverse(after), key) == FirstHit(Reverse(before), key))
  {
    hide FirstHit, Reverse, MergedTable, Reach;
    var m := [MergedTable(picked)];
    ReverseBoth(older + picked, newer);
    ReverseBoth(older + m, newer);
    ReverseBoth(older, picked);
    ReverseBoth(older, m);
    FirstHitAppend(Reverse(newer), Reverse(picked) + Reverse(older), key);
    FirstHitAppend(Reverse(newer), Reverse(m) + Reverse(older), key);
    FirstHitAppend(Reverse(picked), Reverse(older), key);
    FirstHitAppend(Reverse(m), Reverse(older), key);
    MergedTableAnswers(picked, key);
    FirstHitOne(MergedTable(picked), key);
    assert Reverse(m) == m;
    if WellFormed(picked) { NothingMangled(picked, key); }
  }

  /** The list after `doCompaction`: the remaining tables, then the merged one. */
  function Compacted(tables: Rests): Rests
    requires |tables| >= PICK_COUNT
  {
    tables[PICK_COUNT..] + [MergedTable(tables[..PICK_COUNT])]
  }

  /** The key is both in the merged table and in a remaining table, with different newest entries. */
  ghost predicate Shadowed(tables: Rests, key: Bytes)
    requires |tables| >= PICK_COUNT
  {
    var mine, rest := FirstHit(Reverse(Reach(tables[..PICK_COUNT])), key), FirstHit(Reverse(tables[PICK_COUNT..]), key);
    mine.Some? && rest.Some? && mine != rest
  }

  /** The picked tables alone answer the key, and the merge mangles it. */
  ghost predicate Dropped(tables: Rests, key: Bytes)
    requires |tables| >= PICK_COUNT
  {
    FirstHit(Reverse(tables[PICK_COUNT..]), key).None? && Mangled(tables[..PICK_COUNT], key)
  }

  /** Appending the merged table last preserves a lookup exactly when the key is neither shadowed nor dropped. */
  lemma AppendLastExactly(tables: Rests, key: Bytes)
    requires |tables| >= PICK_COUNT && AllSorted(tables)
    ensures FirstHit(Reverse(Compacted(tables)), key) == FirstHit(Reverse(tables), key) <==>
      !Shadowed(tables, key) && !Dropped(tables, key)
    ensures WellFormed(tables) ==> !Dropped(tables, key)
    ensures WellFormed(tables) && Shadowed(tables, key) ==>
      FirstHit(Reverse(Compacted(tables)), key) == FirstHit(Reverse(tables[..PICK_COUNT]), key)
  {
    hide FirstHit, Reverse, MergedTable, Reach;
    var picked, rest := tables[..PICK_COUNT], tables[PICK_COUNT..];
    var m := [MergedTable(picked)];
    assert tables == picked + rest;
    ReverseBoth(picked, rest);
    ReverseBoth(rest, m);
    FirstHitAppend(Reverse(rest), Reverse(picked), key);
    FirstHitAppend(Reverse(m), Reverse(rest), key);
    MergedTableAnswers(picked, key);
    FirstHitOne(MergedTable(picked), key);
    assert Reverse(m) == m;
    if WellFormed(tables) { NothingMangled(picked, key); }
  }

  /** In particular a key that only one side has keeps its answer when no input holds the empty key. */
  lemma DisjointKeysPreserved(tables: Rests, key: Bytes)
    requires |tables| >= PICK_COUNT && AllSorted(tables) && WellFormed(tables[..PICK_COUNT])
    requires FirstHit(Reverse(tables[..PICK_COUNT]), key).None? || FirstHit(Reverse(tables[PICK_COUNT..]), key).None?
    ensures FirstHit(Reverse(Compacted(tables)), key) == FirstHit(Reverse(tables), key)
  {
    hide FirstHit, Reverse, MergedTable, Reach;
    AppendLastExactly(tables, key);
    NothingMangled(tables[..PICK_COUNT], key);
  }

  /** Four tables, the oldest deleting a key that the newest holds: compaction makes the key disappear. */
  lemma CompactionCanHideNewerValue() returns (tables: Rests, l: Layers)
    ensures |tables| == 4 && WellFormed(tables) && l == Layers([], [], [], tables)
    ensures Get(l, [1]) == Found([7]) && Get(l.(tables := Compacted(tables)), [1]) == NotFound
  {
    var gone, kept := Record([1], [], true), Record([1], [7], false);
    tables := [[gone], [Record([2], [2], false)], [Record([3], [3], false)], [kept]];
    l := Layers([], [], [], tables);
    var picked, rest := tables[..2], tables[2..];
    assert picked == [[gone], [Record([2], [2], false)]] && rest == [[Record([3], [3], false)], [kept]];
    assert Reverse(picked) == [[Record([2], [2], false)], [gone]] &&
      Reverse(rest) == [[kept], [Record([3], [3], false)]];
    FirstHitTwo([Record([2], [2], false)], [gone], [1]);
    FirstHitTwo([kept], [Record([3], [3], false)], [1]);
    FindOther(Record([2], [2], false), [1]);
    ReachAll(picked);
    assert Shadowed(tables, [1]);
    AppendLastExactly(tables, [1]);
    ReverseBoth(picked, rest);
    assert tables == picked + rest;
    FirstHitAppend(Reverse(rest), Reverse(picked), [1]);
    NothingInMemory(l, [1]);
    NothingInMemory(l.(tables := Compacted(tables)), [1]);
  }

  lemma FindOther(r: Record, key: Bytes)
    requires r.key != key
    ensures Find([r], key) == None
  {
    assert [r][1..] == [];
  }

  lemma NothingInMemory(l: Layers, key: Bytes)
    requires l.pending == [] && l.active == [] && l.queue == []
    ensures FirstHit(MemLayers(l), key).None?
  {
    assert Reverse([]) == [];
    assert MemLayers(l) == [[], []];
    FirstHitTwo([], [], key);
  }

  // ----- the code --------------------------------------------------------------------

  /** `pickSSTablesForCompactionLocked`: the two oldest, once there are enough tables. */
  method PickSSTables(tables: seq<nat>, threshold: int) returns (picked: seq<nat>)
    ensures picked == if |tables| < threshold || |tables| < 2 then [] else tables[..2]
  {
    if |tables| < threshold { return []; }
    var n := PICK_COUNT;
    if |tables| < n { n := |tables|; }
    if n < 2 { return []; }
    picked := tables[..n];
  }

  /** `readersStillPresent`: every wanted reader occurs in the list. */
  method ReadersStillPresent(all: seq<nat>, subset: seq<nat>) returns (ok: bool)
    ensures ok <==> forall r :: r in subset ==> r in all
  {
    for i := 0 to |subset|
      invariant forall j :: 0 <= j < i ==> subset[j] in all
    {
      var found := false;
      for k := 0 to |all|
        invariant found <==> subset[i] in all[..k]
      {
        if all[k] == subset[i] { found := true; }
      }
      assert all[..|all|] == all;
      if !found { return false; }
    }
    return true;
  }

  /** `MergeReadersKeepTombstones` up to the writer: iterators over the readers, merged in place. */
  method MergeReaders(tables: Rests) returns (out: seq<Record>)
    ensures out == MergedTable(tables)
  {
    var srcs := NewIterators(tables, ReaderPriorities(|tables|));
    assert RestsOf(srcs) == tables;
    out := ForEachMerged(srcs, false);
  }
}
