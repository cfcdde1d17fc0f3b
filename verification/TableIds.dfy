/** SSTable ids: sets of them, and the ascending listing in which they are loaded. */
module TableIds {

  ghost function MaxId(s: set<nat>): (m: nat)
    requires s != {}
    ensures m in s && forall x :: x in s ==> x <= m
  {
    var x :| x in s;
    if s == {x} then x
    else
      var m := MaxId(s - {x});
      assert forall y :: y in s ==> y == x || y in s - {x};
      if m < x then x else m
  }

  /** `LiveIDs`: the ids of a live set in ascending order. */
  ghost function SortedIds(s: set<nat>): (ids: seq<nat>)
    ensures forall x :: x in ids <==> x in s
    ensures Ascending(ids)
  {
    if s == {} then []
    else
      var m := MaxId(s);
      var rest := SortedIds(s - {m});
      assert forall x :: x in s <==> x == m || x in s - {m};
      rest + [m]
  }

  ghost predicate Ascending(ids: seq<nat>) {
    forall i, j :: 0 <= i < j < |ids| ==> ids[i] < ids[j]
  }

  lemma SortedIdsAdd(s: set<nat>, id: nat)
    requires forall x :: x in s ==> x < id
    ensures SortedIds(s + {id}) == SortedIds(s) + [id]
  {
    assert MaxId(s + {id}) == id;
    assert s + {id} - {id} == s;
  }

  function Elements(ids: seq<nat>): (s: set<nat>)
    ensures forall x :: x in s <==> x in ids
  {
    set x | x in ids
  }

  /** An ascending listing is determined by its elements. */
  lemma {:induction false} AscendingIsSortedIds(ids: seq<nat>)
    requires Ascending(ids)
    ensures ids == SortedIds(Elements(ids))
  {
    hide SortedIds, Ascending;
    if ids == [] {
      NoIds(ids);
    } else {
      var n := |ids| - 1;
      AscendingFront(ids);
      AscendingIsSortedIds(ids[..n]);
      assert ids == ids[..n] + [ids[n]];
      SortedSnoc(ids[..n], ids[n]);
    }
  }

  lemma NoIds(ids: seq<nat>)
    requires ids == []
    ensures ids == SortedIds(Elements(ids))
  {
    assert Elements(ids) == {};
  }

  lemma AscendingFront(ids: seq<nat>)
    requires Ascending(ids) && ids != []
    ensures Ascending(ids[..|ids| - 1])
  {
  }

  lemma SortedSnoc(front: seq<nat>, last: nat)
    requires Ascending(front + [last]) && front == SortedIds(Elements(front))
    ensures front + [last] == SortedIds(Elements(front + [last]))
  {
    hide SortedIds;
    SnocElements(front, last);
    forall x | x in Elements(front) ensures x < last {
      var i :| 0 <= i < |front| && front[i] == x;
      assert (front + [last])[i] < (front + [last])[|front|];
    }
    SortedIdsAdd(Elements(front), last);
  }

  lemma SnocElements(front: seq<nat>, last: nat)
    ensures Elements(front + [last]) == Elements(front) + {last}
  {
  }
}
