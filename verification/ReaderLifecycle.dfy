/** Closing a table file under concurrent readers: every atomic load, store and add is a step of its own. */
module ReaderLifecycle {
  import opened TableIds

  /** Where a goroutine stands between two atomic operations. */
  datatype Pc =
    | Holding          // after Ref, until Unref
    | SawZero          // Unref took the count to zero and has yet to load closePending
    | StoringDiscard   // Discard after its first store
    | LoadingRefs      // Close or Discard before loading the count
    | Closing          // about to enter closeFile
    | Removing         // closed the file and has yet to load discardPending
    | Done

  /** `checked` and `late` are history: the removal check was made; it was made before discardPending was
      first stored. */
  datatype State = State(
    published: bool, refs: int, closePending: bool, discardPending: bool,
    fileClosed: bool, closes: nat, checked: bool, late: bool, removed: bool, threads: map<nat, Pc>)

  datatype Action =
    | Unpublish
    | Ref(id: nat)
    | Unref(id: nat)
    | LoadPending(id: nat)
    | StartClose(id: nat, discard: bool)
    | StoreDiscard(id: nat)
    | LoadRefs(id: nat)
    | CloseFile(id: nat)
    | LoadDiscard(id: nat)

  predicate At(s: State, id: nat, pc: Pc) {
    id in s.threads && s.threads[id] == pc
  }

  /** New references come from the published list; Close and Discard are called once the reader has left it. */
  predicate Enabled(s: State, a: Action) {
    match a
    case Unpublish => true
    case Ref(id) => s.published && id !in s.threads
    case Unref(id) => At(s, id, Holding)
    case LoadPending(id) => At(s, id, SawZero)
    case StartClose(id, _) => !s.published && id !in s.threads
    case StoreDiscard(id) => At(s, id, StoringDiscard)
    case LoadRefs(id) => At(s, id, LoadingRefs)
    case CloseFile(id) => At(s, id, Closing)
    case LoadDiscard(id) => At(s, id, Removing)
  }

  /** Where the goroutine stands after its step. */
  function NextPc(s: State, a: Action): Pc
    requires a != Unpublish
  {
    match a
    case Ref(_) => Holding
    case Unref(_) => if s.refs - 1 == 0 then SawZero else Done
    case LoadPending(_) => if s.closePending then Closing else Done
    case StartClose(_, discard) => if discard then StoringDiscard else LoadingRefs
    case StoreDiscard(_) => LoadingRefs
    case LoadRefs(_) => if s.refs == 0 then Closing else Done
    case CloseFile(_) => if s.fileClosed then Done else Removing
    case LoadDiscard(_) => Done
  }

  /** What the step does to the reader. */
  function Effect(s: State, a: Action): State {
    match a
    case Unpublish => s.(published := false)
    case Ref(_) => s.(refs := s.refs + 1)
    case Unref(_) => s.(refs := s.refs - 1)
    case LoadPending(_) => s
    case StartClose(_, _) => s.(closePending := true)
    case StoreDiscard(_) => s.(discardPending := true, late := if s.discardPending then s.late else s.checked)
    case LoadRefs(_) => s
    case CloseFile(_) => if s.fileClosed then s else s.(fileClosed := true, closes := s.closes + 1)
    case LoadDiscard(_) => s.(checked := true, removed := s.removed || s.discardPending)
  }

  function Step(s: State, a: Action): State
    requires Enabled(s, a)
  {
    if a == Unpublish then Effect(s, a) else Effect(s, a).(threads := s.threads[a.id := NextPc(s, a)])
  }

  function InitialState(): State {
    State(true, 0, false, false, false, 0, false, false, false, map[])
  }

  ghost predicate Reaches(s: State, acts: seq<Action>, t: State)
    decreases |acts|
  {
    if acts == [] then t == s else Enabled(s, acts[0]) && Reaches(Step(s, acts[0]), acts[1..], t)
  }

  ghost predicate Reachable(s: State) {
    exists acts :: Reaches(InitialState(), acts, s)
  }

  // ----- what every step keeps ---------------------------------------------------------------------------

  ghost function Holders(s: State): set<nat> {
    set id | id in s.threads && s.threads[id].Holding?
  }

  ghost predicate Any(s: State, pc: Pc) {
    exists id :: At(s, id, pc)
  }

  /** Some goroutine is still bound to see to the closing. */
  ghost predicate Attended(s: State) {
    Any(s, SawZero) || Any(s, StoringDiscard) || Any(s, LoadingRefs) || Any(s, Closing)
  }

  ghost predicate Inv(s: State) {
    && s.refs == |Holders(s)|
    && s.closes == (if s.fileClosed then 1 else 0)
    && (s.closePending ==> !s.published)
    && (Any(s, StoringDiscard) || Any(s, LoadingRefs) || Any(s, Closing) || Any(s, Removing) || s.fileClosed ==>
         s.closePending)
    && (s.closePending && Holders(s) == {} && !Attended(s) ==> s.fileClosed)
  }

  lemma HoldersStep(s: State, a: Action)
    requires Enabled(s, a)
    ensures Holders(Step(s, a)) == if a.Ref? then Holders(s) + {a.id} else if a.Unref? then Holders(s) - {a.id}
      else Holders(s)
    ensures a.Ref? ==> a.id !in Holders(s)
    ensures a.Unref? ==> a.id in Holders(s)
  {
  }

  lemma AnyStep(s: State, a: Action, pc: Pc)
    requires Enabled(s, a) && Any(Step(s, a), pc)
    ensures Any(s, pc) || (a != Unpublish && pc == NextPc(s, a))
  {
    var id :| At(Step(s, a), id, pc);
    if a == Unpublish || id != a.id { assert At(s, id, pc); }
  }

  lemma AnyStays(s: State, a: Action, pc: Pc)
    requires Enabled(s, a) && Any(s, pc) && (a == Unpublish || a.Ref? || a.StartClose? || s.threads[a.id] != pc)
    ensures Any(Step(s, a), pc)
  {
    var id :| At(s, id, pc);
    assert At(Step(s, a), id, pc);
  }

  lemma InvStep(s: State, a: Action)
    requires Inv(s) && Enabled(s, a)
    ensures Inv(Step(s, a))
  {
    hide Holders, Any;
    var t := Step(s, a);
    HoldersStep(s, a);
    FlagsStep(s, a);
    ClosingAttended(s, a);
  }

  lemma FlagsStep(s: State, a: Action)
    requires Inv(s) && Enabled(s, a)
    ensures var t := Step(s, a);
      Any(t, StoringDiscard) || Any(t, LoadingRefs) || Any(t, Closing) || Any(t, Removing) || t.fileClosed ==>
        t.closePending
  {
    hide Holders, Any;
    var t := Step(s, a);
    forall pc | Any(t, pc) ensures Any(s, pc) || (a != Unpublish && pc == NextPc(s, a)) { AnyStep(s, a, pc); }
    if a != Unpublish && !a.Ref? && !a.StartClose? { assert Any(s, s.threads[a.id]) by { MovedWasThere(s, a); } }
  }

  lemma MovedWasThere(s: State, a: Action)
    requires Enabled(s, a) && a != Unpublish && a.id in s.threads
    ensures Any(s, s.threads[a.id])
  {
    assert At(s, a.id, s.threads[a.id]);
  }

  lemma MovedIsThere(s: State, a: Action)
    requires Enabled(s, a) && a != Unpublish
    ensures Any(Step(s, a), NextPc(s, a))
  {
    assert At(Step(s, a), a.id, NextPc(s, a));
  }

  /** After Close or Discard began and the last holder left, someone attends to the closing or it is done. */
  lemma ClosingAttended(s: State, a: Action)
    requires Inv(s) && Enabled(s, a)
    ensures var t := Step(s, a); t.closePending && Holders(t) == {} ==> Attended(t) || t.fileClosed
  {
    hide Holders, Any;
    var t := Step(s, a);
    HoldersStep(s, a);
    if a != Unpublish { MovedIsThere(s, a); }
    if a.Unref? && Holders(t) == {} { assert Holders(s) == {a.id}; }
    if t.closePending && Holders(t) == {} && !t.fileClosed && !a.Unref? && !a.StartClose? {
      if a != Unpublish && !a.Ref? { MovedWasThere(s, a); }
      StillAttended(s, a);
    }
  }

  /** Whoever attends either goes on attending or is not the one who moved. */
  lemma StillAttended(s: State, a: Action)
    requires Inv(s) && Enabled(s, a) && Attended(s) && s.closePending && !a.Unref? && !a.StartClose? && s.refs == 0
    ensures Attended(Step(s, a)) || Step(s, a).fileClosed
  {
    hide Holders, Any;
    if a != Unpublish { MovedIsThere(s, a); }
    forall pc | Any(s, pc) && (a == Unpublish || a.Ref? || s.threads[a.id] != pc) ensures Any(Step(s, a), pc) {
      AnyStays(s, a, pc);
    }
  }

  lemma {:induction false} ReachesKeepsInv(s: State, acts: seq<Action>, t: State)
    requires Inv(s) && Reaches(s, acts, t)
    ensures Inv(t)
    decreases |acts|
  {
    if acts != [] {
      InvStep(s, acts[0]);
      ReachesKeepsInv(Step(s, acts[0]), acts[1..], t);
    }
  }

  lemma ReachableInv(s: State)
    requires Reachable(s)
    ensures Inv(s)
  {
    var acts :| Reaches(InitialState(), acts, s);
    assert Holders(InitialState()) == {};
    ReachesKeepsInv(InitialState(), acts, s);
  }

  // ----- closed once, and closed in the end --------------------------------------------------------------------

  /** In every reachable state the file has been closed at most once. */
  lemma ClosedAtMostOnce(s: State)
    requires Reachable(s)
    ensures s.closes <= 1 && (s.closes == 1 <==> s.fileClosed)
  {
    ReachableInv(s);
  }

  /** When Close or Discard has begun and every goroutine has finished, the file is closed. */
  lemma ClosedInTheEnd(s: State)
    requires Reachable(s) && s.closePending && forall id :: id in s.threads ==> s.threads[id].Done?
    ensures s.fileClosed
  {
    ReachableInv(s);
    assert Holders(s) == {};
  }

  // ----- never closed under a reader, and when that fails -----------------------------------------------------------

  /** A reference is held while another goroutine is between its decrement to zero and its load of closePending. */
  ghost predicate Overtaken(s: State) {
    Holders(s) != {} && Any(s, SawZero)
  }

  ghost predicate ClosedUnderReader(s: State) {
    s.fileClosed && Holders(s) != {}
  }

  /** No state along the run is overtaken. */
  ghost predicate Orderly(s: State, acts: seq<Action>, t: State)
    decreases |acts|
  {
    !Overtaken(s) && if acts == [] then t == s else Enabled(s, acts[0]) && Orderly(Step(s, acts[0]), acts[1..], t)
  }

  /** Once a goroutine has decided to close, nobody holds a reference. */
  ghost predicate Decided(s: State) {
    s.fileClosed || Any(s, Closing) ==> Holders(s) == {}
  }

  lemma DecidedStep(s: State, a: Action)
    requires Inv(s) && Decided(s) && !Overtaken(s) && Enabled(s, a)
    ensures Decided(Step(s, a))
  {
    hide Holders, Any;
    var t := Step(s, a);
    HoldersStep(s, a);
    if Any(t, Closing) { AnyStep(s, a, Closing); }
    if a != Unpublish && a.id in s.threads { MovedWasThere(s, a); }
  }

  /** In every run in which no Ref overtakes an Unref at zero, the file is never closed under a reader. */
  lemma {:induction false} NeverClosedUnderReader(s: State, acts: seq<Action>, t: State)
    requires Inv(s) && Decided(s) && Orderly(s, acts, t)
    ensures !ClosedUnderReader(t)
    decreases |acts|
  {
    if acts != [] {
      InvStep(s, acts[0]);
      DecidedStep(s, acts[0]);
      NeverClosedUnderReader(Step(s, acts[0]), acts[1..], t);
    }
  }

  /** The same from the start. */
  lemma OrderlyRunIsSafe(acts: seq<Action>, t: State)
    requires Orderly(InitialState(), acts, t)
    ensures !ClosedUnderReader(t)
  {
    assert Holders(InitialState()) == {};
    NeverClosedUnderReader(InitialState(), acts, t);
  }

  predicate NoRef(acts: seq<Action>) {
    forall i :: 0 <= i < |acts| ==> !acts[i].Ref?
  }

  /** The steps of others, without any new reference, can close the file under a reader. */
  ghost predicate Doomed(s: State) {
    exists acts, t :: NoRef(acts) && Reaches(s, acts, t) && ClosedUnderReader(t)
  }

  /** Exactly the states in which a reference is held and a goroutine stands past a zero count are doomed. */
  lemma DoomedExactly(s: State)
    requires Reachable(s)
    ensures Doomed(s) <==> Holders(s) != {} && (s.fileClosed || Any(s, SawZero) || Any(s, Closing))
  {
    ReachableInv(s);
    if Doomed(s) {
      var acts, t :| NoRef(acts) && Reaches(s, acts, t) && ClosedUnderReader(t);
      DoomedOnlyIf(s, acts, t);
    }
    if Holders(s) != {} && (s.fileClosed || Any(s, SawZero) || Any(s, Closing)) { DoomedIf(s); }
  }

  lemma {:induction false} DoomedOnlyIf(s: State, acts: seq<Action>, t: State)
    requires Inv(s) && NoRef(acts) && Reaches(s, acts, t) && ClosedUnderReader(t)
    ensures Holders(s) != {} && (s.fileClosed || Any(s, SawZero) || Any(s, Closing))
    decreases |acts|
  {
    hide Holders, Any;
    if acts != [] {
      InvStep(s, acts[0]);
      DoomedOnlyIf(Step(s, acts[0]), acts[1..], t);
      DoomedBack(s, acts[0]);
    }
  }

  lemma DoomedBack(s: State, a: Action)
    requires Inv(s) && Enabled(s, a) && !a.Ref?
    requires var u := Step(s, a); Holders(u) != {} && (u.fileClosed || Any(u, SawZero) || Any(u, Closing))
    ensures Holders(s) != {} && (s.fileClosed || Any(s, SawZero) || Any(s, Closing))
  {
    hide Holders, Any;
    var u := Step(s, a);
    HoldersStep(s, a);
    InvStep(s, a);
    assert u.refs > 0;
    if Any(u, SawZero) { AnyStep(s, a, SawZero); }
    if Any(u, Closing) { AnyStep(s, a, Closing); }
    if a != Unpublish && a.id in s.threads { MovedWasThere(s, a); }
  }

  lemma ReachesSteps(s: State, a: Action, acts: seq<Action>, t: State)
    requires Enabled(s, a) && Reaches(Step(s, a), acts, t)
    ensures Reaches(s, [a] + acts, t)
  {
    assert ([a] + acts)[1..] == acts;
  }

  lemma DoomedStep(s: State, a: Action)
    requires Enabled(s, a) && !a.Ref? && Doomed(Step(s, a))
    ensures Doomed(s)
  {
    var acts, t :| NoRef(acts) && Reaches(Step(s, a), acts, t) && ClosedUnderReader(t);
    ReachesSteps(s, a, acts, t);
    assert NoRef([a] + acts);
  }

  lemma DoomedNow(s: State)
    requires ClosedUnderReader(s)
    ensures Doomed(s)
  {
    assert NoRef([]) && Reaches(s, [], s);
  }

  lemma DoomedIf(s: State)
    requires Inv(s) && Holders(s) != {} && (s.fileClosed || Any(s, SawZero) || Any(s, Closing))
    ensures Doomed(s)
  {
    hide Holders, Doomed;
    if s.fileClosed {
      DoomedNow(s);
    } else if Any(s, Closing) {
      var c :| At(s, c, Closing);
      DoomedByClosing(s, c);
    } else {
      var c :| At(s, c, SawZero);
      DoomedBySawZero(s, c);
    }
  }

  lemma DoomedByClosing(s: State, c: nat)
    requires Holders(s) != {} && !s.fileClosed && At(s, c, Closing)
    ensures Doomed(s)
  {
    hide Holders, Doomed;
    HoldersStep(s, CloseFile(c));
    DoomedNow(Step(s, CloseFile(c)));
    DoomedStep(s, CloseFile(c));
  }

  lemma DoomedByPending(s: State, c: nat)
    requires Holders(s) != {} && !s.fileClosed && At(s, c, SawZero) && s.closePending
    ensures Doomed(s)
  {
    hide Holders, Doomed;
    HoldersStep(s, LoadPending(c));
    DoomedByClosing(Step(s, LoadPending(c)), c);
    DoomedStep(s, LoadPending(c));
  }

  /** Unpublish and Discard while c has yet to load closePending. */
  lemma DoomedBySawZero(s: State, c: nat)
    requires Holders(s) != {} && !s.fileClosed && At(s, c, SawZero)
    ensures Doomed(s)
  {
    hide Holders, Doomed;
    if s.closePending {
      DoomedByPending(s, c);
    } else {
      var u := Step(s, Unpublish);
      var d := MaxId(s.threads.Keys) + 1;
      var v := Step(u, StartClose(d, true));
      HoldersStep(s, Unpublish);
      HoldersStep(u, StartClose(d, true));
      DoomedByPending(v, c);
      DoomedStep(u, StartClose(d, true));
      DoomedStep(s, Unpublish);
    }
  }

  /** The overtaking really happens: two readers and a Discard close the file under the second reader. */
  lemma RefOvertakesUnref() returns (acts: seq<Action>, t: State)
    ensures Reaches(InitialState(), acts, t) && ClosedUnderReader(t)
  {
    var s0 := InitialState();
    var s1 := Step(s0, Ref(1));
    var s2 := Step(s1, Unref(1));
    var s3 := Step(s2, Ref(2));
    assert At(s3, 1, SawZero) && 2 in Holders(s3);
    DoomedBySawZero(s3, 1);
    var rest, end :| NoRef(rest) && Reaches(s3, rest, end) && ClosedUnderReader(end);
    ReachesSteps(s2, Ref(2), rest, end);
    ReachesSteps(s1, Unref(1), [Ref(2)] + rest, end);
    ReachesSteps(s0, Ref(1), [Unref(1)] + ([Ref(2)] + rest), end);
    return [Ref(1)] + ([Unref(1)] + ([Ref(2)] + rest)), end;
  }

  // ----- removal -----------------------------------------------------------------------------------------------------

  /** One goroutine at most is between closing and the removal check, and the check is made once. */
  ghost predicate Checking(s: State) {
    && (forall i, j :: At(s, i, Removing) && At(s, j, Removing) ==> i == j)
    && (Any(s, Removing) ==> s.fileClosed && !s.checked)
    && (s.fileClosed ==> s.checked || Any(s, Removing))
    && (s.checked ==> s.fileClosed)
  }

  ghost predicate RemovalInv(s: State) {
    && Checking(s)
    && (s.discardPending ==> s.closePending)
    && (!s.discardPending ==> !s.removed && !s.late)
    && (s.discardPending && s.checked ==> (s.removed <==> !s.late))
    && (s.discardPending && !s.checked ==> !s.late && !s.removed)
  }

  lemma RemovalStep(s: State, a: Action)
    requires Inv(s) && RemovalInv(s) && Enabled(s, a)
    ensures RemovalInv(Step(s, a))
  {
    hide Holders, Attended;
    var t := Step(s, a);
    forall i | At(t, i, Removing) ensures At(s, i, Removing) || (a == CloseFile(i) && !s.fileClosed) { }
    if a != Unpublish && a.id in s.threads { assert At(s, a.id, s.threads[a.id]); }
    if Any(s, Removing) && !a.LoadDiscard? { AnyStays(s, a, Removing); }
    if a.CloseFile? && !s.fileClosed { assert At(t, a.id, Removing); }
  }

  lemma {:induction false} ReachesKeepsRemoval(s: State, acts: seq<Action>, t: State)
    requires Inv(s) && RemovalInv(s) && Reaches(s, acts, t)
    ensures RemovalInv(t)
    decreases |acts|
  {
    if acts != [] {
      InvStep(s, acts[0]);
      RemovalStep(s, acts[0]);
      ReachesKeepsRemoval(Step(s, acts[0]), acts[1..], t);
    }
  }

  /** After a Discard, when every goroutine has finished, the file is gone exactly when discardPending
      was stored before the goroutine that closed the file looked at it. */
  lemma RemovedExactly(s: State)
    requires Reachable(s) && s.discardPending && forall id :: id in s.threads ==> s.threads[id].Done?
    ensures s.removed <==> !s.late
  {
    var acts :| Reaches(InitialState(), acts, s);
    assert Holders(InitialState()) == {};
    ReachesKeepsRemoval(InitialState(), acts, s);
    ClosedInTheEnd(s);
  }

  /** The last reader can close the file between the two stores of Discard, and then nobody removes it. */
  lemma RemovalMissed() returns (acts: seq<Action>, t: State)
    ensures Reaches(InitialState(), acts, t) && t.discardPending && t.fileClosed && !t.removed
    ensures forall id :: id in t.threads ==> t.threads[id].Done?
  {
    acts, t := MissedAfterClose();
    hide Reaches;
    acts := MissedBeforeClose(acts, t);
    var s2 := State(false, 1, false, false, false, 0, false, false, false, map[1 := Holding]);
    acts := TwoSteps(InitialState(), Ref(1), Unpublish, s2, acts, t);
  }

  /** Reader 1 has closed the file while Discard 2 stands between its stores. */
  ghost function BetweenStores(): State {
    State(false, 0, true, false, true, 1, false, false, false, map[1 := Removing, 2 := StoringDiscard])
  }

  lemma MissedAfterClose() returns (acts: seq<Action>, t: State)
    ensures Reaches(BetweenStores(), acts, t) && t.discardPending && t.fileClosed && !t.removed
    ensures forall id :: id in t.threads ==> t.threads[id].Done?
  {
    var s := State(false, 0, true, true, true, 1, true, true, false, map[1 := Done, 2 := LoadingRefs]);
    t := State(false, 0, true, true, true, 1, true, true, false, map[1 := Done, 2 := Done]);
    acts := TwoSteps(s, LoadRefs(2), CloseFile(2), t, [], t);
    hide Reaches;
    acts := TwoSteps(BetweenStores(), LoadDiscard(1), StoreDiscard(2), s, acts, t);
  }

  lemma MissedBeforeClose(rest: seq<Action>, t: State) returns (acts: seq<Action>)
    requires Reaches(BetweenStores(), rest, t)
    ensures Reaches(State(false, 1, false, false, false, 0, false, false, false, map[1 := Holding]), acts, t)
  {
    hide Reaches;
    var s2 := State(false, 1, false, false, false, 0, false, false, false, map[1 := Holding]);
    var s4 := State(false, 0, true, false, false, 0, false, false, false, map[1 := SawZero, 2 := StoringDiscard]);
    acts := TwoSteps(s4, LoadPending(1), CloseFile(1), BetweenStores(), rest, t);
    acts := TwoSteps(s2, StartClose(2, true), Unref(1), s4, acts, t);
  }

  lemma TwoSteps(s: State, a: Action, b: Action, u: State, rest: seq<Action>, t: State) returns (acts: seq<Action>)
    requires Enabled(s, a) && Enabled(Step(s, a), b) && Step(Step(s, a), b) == u && Reaches(u, rest, t)
    ensures Reaches(s, acts, t)
  {
    ReachesSteps(Step(s, a), b, rest, t);
    ReachesSteps(s, a, [b] + rest, t);
    return [a] + ([b] + rest);
  }

  // ----- the code ----------------------------------------------------------------------------------------------------

  lemma ReachesThen(s: State, acts: seq<Action>, t: State, a: Action)
    requires Reaches(s, acts, t) && Enabled(t, a)
    ensures Reaches(s, acts + [a], Step(t, a))
    decreases |acts|
  {
    if acts == [] {
      assert acts + [a] == [a] && [a][1..] == [];
      assert Reaches(Step(s, a), [], Step(s, a));
    } else {
      assert (acts + [a])[1..] == acts[1..] + [a];
      ReachesThen(Step(s, acts[0]), acts[1..], t, a);
    }
  }

  /** The methods of a reader, each a stretch of steps when nothing comes between; `id` names the calling goroutine. */
  class Reader {
    var refs: int
    var closePending: bool
    var discardPending: bool
    var fileClosed: bool
    var removed: bool
    ghost var published: bool
    ghost var closes: nat
    ghost var checked: bool
    ghost var late: bool
    ghost var threads: map<nat, Pc>

    ghost function St(): State
      reads this
    {
      State(published, refs, closePending, discardPending, fileClosed, closes, checked, late, removed, threads)
    }

    /** Every method leaves its goroutine done. */
    ghost predicate Ran(s: State, acts: seq<Action>, id: nat)
      reads this
    {
      Reaches(s, acts, St()) && At(St(), id, Done)
    }

    // the atomic operations

    method DecrementRefs(ghost id: nat) returns (n: int)
      requires Enabled(St(), Unref(id))
      modifies `refs, `threads
      ensures St() == Step(old(St()), Unref(id)) && n == refs == old(refs) - 1 &&
        At(St(), id, if n == 0 then SawZero else Done)
    {
      refs := refs - 1;
      threads := threads[id := if refs == 0 then SawZero else Done];
      return refs;
    }

    method LoadClosePending(ghost id: nat) returns (pending: bool)
      requires Enabled(St(), LoadPending(id))
      modifies `threads
      ensures St() == Step(old(St()), LoadPending(id)) && pending == closePending &&
        At(St(), id, if pending then Closing else Done)
    {
      threads := threads[id := if closePending then Closing else Done];
      return closePending;
    }

    method StoreClosePending(discard: bool, ghost id: nat)
      requires Enabled(St(), StartClose(id, discard))
      modifies `closePending, `threads
      ensures St() == Step(old(St()), StartClose(id, discard)) && closePending &&
        At(St(), id, if discard then StoringDiscard else LoadingRefs)
    {
      closePending, threads := true, threads[id := if discard then StoringDiscard else LoadingRefs];
    }

    method StoreDiscardPending(ghost id: nat)
      requires Enabled(St(), StoreDiscard(id))
      modifies `discardPending, `late, `threads
      ensures St() == Step(old(St()), StoreDiscard(id)) && discardPending && At(St(), id, LoadingRefs)
    {
      late := if discardPending then late else checked;
      discardPending, threads := true, threads[id := LoadingRefs];
    }

    method LoadRefCount(ghost id: nat) returns (n: int)
      requires Enabled(St(), LoadRefs(id))
      modifies `threads
      ensures St() == Step(old(St()), LoadRefs(id)) && n == refs && At(St(), id, if n == 0 then Closing else Done)
    {
      threads := threads[id := if refs == 0 then Closing else Done];
      return refs;
    }

    method CloseOnce(ghost id: nat) returns (already: bool)
      requires Enabled(St(), CloseFile(id))
      modifies `fileClosed, `closes, `threads
      ensures St() == Step(old(St()), CloseFile(id)) && already == old(fileClosed) && fileClosed &&
        At(St(), id, if already then Done else Removing)
    {
      already := fileClosed;
      if already {
        threads := threads[id := Done];
      } else {
        fileClosed, closes, threads := true, closes + 1, threads[id := Removing];
      }
    }

    method RemoveIfDiscarded(ghost id: nat)
      requires Enabled(St(), LoadDiscard(id))
      modifies `removed, `checked, `threads
      ensures St() == Step(old(St()), LoadDiscard(id)) && removed == (old(removed) || discardPending) &&
        At(St(), id, Done)
    {
      if discardPending { removed := true; }
      checked, threads := true, threads[id := Done];
    }

    // the methods

    /** `closeFile`, called by a goroutine that has decided to close. */
    method CloseTheFile(ghost id: nat, ghost s: State, ghost before: seq<Action>) returns (ghost acts: seq<Action>)
      requires Reaches(s, before, St()) && At(St(), id, Closing)
      modifies `fileClosed, `closes, `removed, `checked, `threads
      ensures Ran(s, acts, id) && fileClosed
      ensures removed == (old(removed) || (!old(fileClosed) && discardPending))
    {
      hide Reaches, Step;
      ReachesThen(s, before, St(), CloseFile(id));
      acts := before + [CloseFile(id)];
      var already := CloseOnce(id);
      if already { return; }
      ReachesThen(s, acts, St(), LoadDiscard(id));
      acts := acts + [LoadDiscard(id)];
      RemoveIfDiscarded(id);
    }

    /** `Unref`. */
    method DropRef(ghost id: nat) returns (ghost acts: seq<Action>)
      requires Enabled(St(), Unref(id))
      modifies this
      ensures Ran(old(St()), acts, id) && refs == old(refs) - 1 && closePending == old(closePending)
      ensures fileClosed == (old(fileClosed) || (refs == 0 && closePending)) && discardPending == old(discardPending)
      ensures removed == (old(removed) || (!old(fileClosed) && refs == 0 && closePending && discardPending))
    {
      hide Reaches, Step;
      ghost var s := St();
      ReachesFirst(s, Unref(id));
      acts := [Unref(id)];
      var n := DecrementRefs(id);
      if n == 0 {
        ReachesThen(s, acts, St(), LoadPending(id));
        acts := acts + [LoadPending(id)];
        var pending := LoadClosePending(id);
        if pending { acts := CloseTheFile(id, s, acts); }
      }
    }

    /** What a lookup does to the reader: Ref before it, Unref after it. */
    method Borrow(ghost id: nat) returns (ghost acts: seq<Action>)
      requires Enabled(St(), Ref(id))
      modifies this
      ensures Ran(old(St()), acts, id) && refs == old(refs)
      ensures fileClosed == (old(fileClosed) || (refs == 0 && closePending)) && closePending == old(closePending)
      ensures removed == (old(removed) || (!old(fileClosed) && refs == 0 && closePending && discardPending))
    {
      hide Reaches;
      ghost var s := St();
      refs := refs + 1;
      threads := threads[id := Holding];
      ghost var more := DropRef(id);
      ReachesSteps(s, Ref(id), more, St());
      acts := [Ref(id)] + more;
    }

    /** `Close` and `Discard`. */
    method Shut(discard: bool, ghost id: nat) returns (ghost acts: seq<Action>)
      requires Enabled(St(), StartClose(id, discard))
      modifies this
      ensures Ran(old(St()), acts, id) && closePending && refs == old(refs)
      ensures discardPending == (old(discardPending) || discard)
      ensures fileClosed == (old(fileClosed) || refs == 0)
      ensures removed == (old(removed) || (!old(fileClosed) && refs == 0 && discardPending))
    {
      hide Reaches, Step;
      ghost var s := St();
      ReachesFirst(s, StartClose(id, discard));
      acts := [StartClose(id, discard)];
      StoreClosePending(discard, id);
      if discard {
        ReachesThen(s, acts, St(), StoreDiscard(id));
        acts := acts + [StoreDiscard(id)];
        StoreDiscardPending(id);
      }
      ReachesThen(s, acts, St(), LoadRefs(id));
      acts := acts + [LoadRefs(id)];
      var n := LoadRefCount(id);
      if n == 0 { acts := CloseTheFile(id, s, acts); }
    }
  }

  lemma ReachesFirst(s: State, a: Action)
    requires Enabled(s, a)
    ensures Reaches(s, [a], Step(s, a))
  {
    assert Reaches(s, [], s) && [] + [a] == [a];
    ReachesThen(s, [], s, a);
  }
}
