/** Group commit: writers queue records, one flusher persists them batch by batch, Sync waits. */
module GroupCommit {
  import opened ByteStrings
  import opened Records
  import Wal

  const BATCH_MAX_RECORDS := 64
  const BATCH_MAX_BYTES := 16 * 1024

  function RecordWireSize(r: Record): nat {
    4 + |r.key| + 4 + |r.value| + 1 + 4
  }

  function WireSizes(rs: seq<Record>): nat {
    if rs == [] then 0 else RecordWireSize(rs[0]) + WireSizes(rs[1..])
  }

  /** The counted size of records is the number of bytes they take in the log, whatever the checksum and the limits. */
  lemma {:induction false} WireSizesAreBytes(f: Wal.Format, rs: seq<Record>)
    ensures WireSizes(rs) == |Wal.EncodeAll(f, rs)|
    ensures forall i :: 0 <= i < |rs| ==> RecordWireSize(rs[i]) == |Wal.Wire(f, rs[i])|
  {
    if rs != [] { WireSizesAreBytes(f, rs[1..]); }
  }

  lemma {:induction false} WireSizesAppend(a: seq<Record>, b: seq<Record>)
    ensures WireSizes(a + b) == WireSizes(a) + WireSizes(b)
  {
    if a == [] {
      assert a + b == b;
    } else {
      assert (a + b)[1..] == a[1..] + b;
      WireSizesAppend(a[1..], b);
    }
  }

  lemma WireSizesSnoc(a: seq<Record>, r: Record)
    ensures WireSizes(a + [r]) == WireSizes(a) + RecordWireSize(r)
  {
    WireSizesAppend(a, [r]);
    assert [r][1..] == [];
  }

  // ----- the state machine -------------------------------------------------------------------------

  /** Where the batch flusher stands; `asker` is the goroutine waiting for this pass, if any. */
  datatype Flusher =
    | Idle
    | Taken(batch: seq<Record>, asker: Option<nat>)
    | Writing(batch: seq<Record>, asker: Option<nat>)
    | Synced(batch: seq<Record>, asker: Option<nat>)
    | Ending(asker: Option<nat>, ok: bool)
    | Replying(asker: Option<nat>, ok: bool)

  /** A goroutine that waits for the flusher; `before` counts the records accepted when it began to. */
  datatype Client =
    | Asking(before: nat, syncing: bool)
    | InHand(before: nat, syncing: bool)
    | Answered(before: nat, syncing: bool, ok: bool)
    | Passed(before: nat)
    | Returned(before: nat, ok: bool)

  datatype State = State(
    accepted: seq<Record>, persisted: seq<Record>, applied: seq<Record>,
    queued: seq<Record>, bytes: int, inflight: int, flusher: Flusher, clients: map<nat, Client>)

  datatype Action =
    | Write(r: Record)
    | WriteAndWait(r: Record, id: nat)
    | CallSync(id: nat)
    | Take(asker: Option<nat>)
    | Begin
    | AppendOk
    | AppendFail
    | Apply(ok: bool)
    | End
    | Reply
    | PassBarrier(id: nat)
    | CheckEmpty(id: nat)
    | Return(id: nat)
    | GiveUp(id: nat)

  predicate AskerReady(s: State, asker: Option<nat>) {
    asker.Some? ==> asker.value in s.clients && s.clients[asker.value].Asking?
  }

  predicate Enabled(s: State, a: Action) {
    match a
    case Write(_) => true
    case WriteAndWait(_, id) => id !in s.clients || s.clients[id].Returned?
    case CallSync(id) => id !in s.clients || s.clients[id].Returned?
    case Take(asker) => s.flusher.Idle? && AskerReady(s, asker)
    case Begin => s.flusher.Taken?
    case AppendOk => s.flusher.Writing?
    case AppendFail => s.flusher.Writing?
    case Apply(_) => s.flusher.Synced?
    case End => s.flusher.Ending?
    case Reply => s.flusher.Replying?
    case PassBarrier(id) => id in s.clients && s.clients[id].Answered? && s.clients[id].ok && s.clients[id].syncing &&
      s.inflight <= 0
    case CheckEmpty(id) => id in s.clients && s.clients[id].Passed?
    case Return(id) => id in s.clients && s.clients[id].Answered? && !(s.clients[id].ok && s.clients[id].syncing)
    case GiveUp(id) => id in s.clients && s.clients[id].Asking?
  }

  function Enqueue(s: State, r: Record): State {
    s.(accepted := s.accepted + [r], queued := s.queued + [r], bytes := s.bytes + RecordWireSize(r))
  }

  function SetClient(s: State, id: nat, c: Client): State {
    s.(clients := s.clients[id := c])
  }

  /** The asker goes from waiting in the channel to being served. */
  function TakeUp(s: State, asker: Option<nat>): State
    requires AskerReady(s, asker)
  {
    if asker.None? then s
    else SetClient(s, asker.value, InHand(s.clients[asker.value].before, s.clients[asker.value].syncing))
  }

  function Answer(s: State, asker: Option<nat>, ok: bool): State {
    if asker.Some? && asker.value in s.clients && s.clients[asker.value].InHand?
    then SetClient(s, asker.value, Answered(s.clients[asker.value].before, s.clients[asker.value].syncing, ok))
    else s
  }

  function Step(s: State, a: Action): State
    requires Enabled(s, a)
  {
    match a
    case Write(r) => Enqueue(s, r)
    case WriteAndWait(r, id) => SetClient(Enqueue(s, r), id, Asking(|s.accepted| + 1, false))
    case CallSync(id) => SetClient(s, id, Asking(|s.accepted|, true))
    case Take(asker) =>
      if s.queued == [] then TakeUp(s, asker).(flusher := Replying(asker, true))
      else TakeUp(s, asker).(queued := [], bytes := 0, flusher := Taken(s.queued, asker))
    case Begin => s.(inflight := s.inflight + 1, flusher := Writing(s.flusher.batch, s.flusher.asker))
    case AppendOk => s.(persisted := s.persisted + s.flusher.batch, flusher := Synced(s.flusher.batch, s.flusher.asker))
    case AppendFail =>
      s.(queued := s.flusher.batch + s.queued, bytes := s.bytes + WireSizes(s.flusher.batch),
        flusher := Ending(s.flusher.asker, false))
    case Apply(ok) => s.(applied := s.applied + s.flusher.batch, flusher := Ending(s.flusher.asker, ok))
    case End => s.(inflight := s.inflight - 1, flusher := Replying(s.flusher.asker, s.flusher.ok))
    case Reply => Answer(s, s.flusher.asker, s.flusher.ok).(flusher := Idle)
    case PassBarrier(id) => SetClient(s, id, Passed(s.clients[id].before))
    case CheckEmpty(id) =>
      SetClient(s, id, if s.queued == [] then Returned(s.clients[id].before, true)
        else Asking(s.clients[id].before, true))
    case Return(id) => SetClient(s, id, Returned(s.clients[id].before, s.clients[id].ok))
    case GiveUp(id) => SetClient(s, id, Returned(s.clients[id].before, false))
  }

  function InitialState(): State {
    State([], [], [], [], 0, 0, Idle, map[])
  }

  /** A run lists its states; action i leads from state i to state i + 1. */
  ghost predicate IsRun(states: seq<State>, acts: seq<Action>) {
    && |states| == |acts| + 1 && states[0] == InitialState()
    && forall i :: 0 <= i < |acts| ==> Enabled(states[i], acts[i]) && states[i + 1] == Step(states[i], acts[i])
  }

  // ----- conservation -----------------------------------------------------------------------------------

  /** The records taken from the queue and not yet synced. */
  function InFlight(f: Flusher): seq<Record> {
    if f.Taken? || f.Writing? then f.batch else []
  }

  /** The records that are synced but not yet in the memtable. */
  function Unapplied(f: Flusher): seq<Record> {
    if f.Synced? then f.batch else []
  }

  ghost predicate Conserved(s: State) {
    && s.accepted == s.persisted + InFlight(s.flusher) + s.queued
    && s.persisted == s.applied + Unapplied(s.flusher)
    && s.bytes == WireSizes(s.queued)
    && s.inflight == if s.flusher.Writing? || s.flusher.Synced? || s.flusher.Ending? then 1 else 0
  }

  /** What the flusher has promised the goroutine it is serving. */
  ghost predicate ServedWell(f: Flusher, persisted: nat, applied: nat, id: nat, before: nat) {
    match f
    case Idle => false
    case Taken(batch, asker) => asker == Some(id) && before <= persisted + |batch|
    case Writing(batch, asker) => asker == Some(id) && before <= persisted + |batch|
    case Synced(_, asker) => asker == Some(id) && before <= persisted
    case Ending(asker, ok) => asker == Some(id) && (ok ==> before <= applied)
    case Replying(asker, ok) => asker == Some(id) && (ok ==> before <= applied)
  }

  /** A goroutine that was answered nil finds everything it waited for persisted and applied. */
  ghost predicate ClientFine(c: Client, id: nat, f: Flusher, accepted: nat, persisted: nat, applied: nat) {
    match c
    case Asking(before, _) => before <= accepted
    case InHand(before, _) => before <= accepted && ServedWell(f, persisted, applied, id, before)
    case Answered(before, _, ok) => before <= accepted && (ok ==> before <= applied)
    case Passed(before) => before <= applied
    case Returned(before, ok) => ok ==> before <= applied
  }

  ghost predicate ClientsFine(s: State) {
    && (forall id :: id in s.clients ==>
          ClientFine(s.clients[id], id, s.flusher, |s.accepted|, |s.persisted|, |s.applied|))
    && (!s.flusher.Idle? && s.flusher.asker.Some? ==>
          s.flusher.asker.value in s.clients && s.clients[s.flusher.asker.value].InHand?)
  }

  ghost predicate Inv(s: State) {
    Conserved(s) && ClientsFine(s)
  }

  /** A Sync passes the barrier only while no batch is between the start of its append and its apply. */
  lemma BarrierIsQuiet(s: State, id: nat)
    requires Conserved(s) && Enabled(s, PassBarrier(id))
    ensures InFlight(s.flusher) == [] || s.flusher.Taken?
    ensures Unapplied(s.flusher) == [] && !s.flusher.Ending?
    ensures s.persisted == s.applied
  {
  }

  predicate MovesRecords(a: Action) {
    a.Write? || a.WriteAndWait? || a.Take? || a.AppendOk? || a.AppendFail? || a.Apply?
  }

  lemma ConservedStep(s: State, a: Action)
    requires Conserved(s) && Enabled(s, a)
    ensures Conserved(Step(s, a))
  {
    hide WireSizes;
    if MovesRecords(a) { ConservedMove(s, a); }
  }

  lemma ConservedMove(s: State, a: Action)
    requires Conserved(s) && Enabled(s, a) && MovesRecords(a)
    ensures Conserved(Step(s, a))
  {
    hide WireSizes;
    if a.Write? || a.WriteAndWait? {
      ConservedEnqueue(s, a.r);
    } else if a.Take? {
      assert WireSizes([]) == 0 by { NoWireSizes(); }
      assert s.accepted == s.persisted + s.queued + [];
    } else if a.AppendFail? {
      WireSizesAppend(s.flusher.batch, s.queued);
      assert s.accepted == s.persisted + [] + (s.flusher.batch + s.queued);
    } else if a.AppendOk? {
      assert s.accepted == (s.persisted + s.flusher.batch) + [] + s.queued;
    }
  }

  lemma ConservedEnqueue(s: State, r: Record)
    requires Conserved(s)
    ensures Conserved(Enqueue(s, r))
  {
    hide WireSizes;
    WireSizesSnoc(s.queued, r);
    var front := s.persisted + InFlight(s.flusher);
    assert front + s.queued + [r] == front + (s.queued + [r]);
  }

  lemma NoWireSizes()
    ensures WireSizes([]) == 0
  {
  }

  lemma ClientsStep(s: State, a: Action)
    requires Inv(s) && Enabled(s, a)
    ensures ClientsFine(Step(s, a))
  {
    hide WireSizes;
    var t := Step(s, a);
    forall id | id in t.clients ensures ClientFine(t.clients[id], id, t.flusher, |t.accepted|, |t.persisted|,
      |t.applied|) {
      assert id in s.clients ==> ClientFine(s.clients[id], id, s.flusher, |s.accepted|, |s.persisted|, |s.applied|);
    }
  }

  lemma InitialInv()
    ensures Inv(InitialState())
  {
  }

  lemma {:induction false} RunKeepsInv(states: seq<State>, acts: seq<Action>, i: nat)
    requires IsRun(states, acts) && i <= |acts|
    ensures Inv(states[i])
  {
    if i > 0 {
      RunKeepsInv(states, acts, i - 1);
      ConservedStep(states[i - 1], acts[i - 1]);
      ClientsStep(states[i - 1], acts[i - 1]);
    }
  }

  /** Every accepted record is, once and in order, persisted, in flight or queued; the byte count is the queue's. */
  lemma Conservation(states: seq<State>, acts: seq<Action>, i: nat)
    requires IsRun(states, acts) && i <= |acts|
    ensures states[i].accepted == states[i].persisted + InFlight(states[i].flusher) + states[i].queued
    ensures states[i].bytes == WireSizes(states[i].queued)
  {
    RunKeepsInv(states, acts, i);
  }

  // ----- what a successful return means ---------------------------------------------------------------------

  lemma {:induction false} RecordsGrow(states: seq<State>, acts: seq<Action>, i: nat, j: nat)
    requires IsRun(states, acts) && i <= j <= |acts|
    ensures states[i].accepted <= states[j].accepted && states[i].persisted <= states[j].persisted
    decreases j
  {
    if i < j { RecordsGrow(states, acts, i, j - 1); }
  }

  /** Step i starts a wait of `id`, and no later step before j starts another. */
  ghost predicate Waits(acts: seq<Action>, i: nat, j: nat, id: nat) {
    && i < j <= |acts| && (acts[i] == CallSync(id) || (acts[i].WriteAndWait? && acts[i].id == id))
    && forall l :: i < l < j ==> acts[l] != CallSync(id) && !(acts[l].WriteAndWait? && acts[l].id == id)
  }

  lemma {:induction false} WaitRemembers(states: seq<State>, acts: seq<Action>, i: nat, j: nat, id: nat)
    requires IsRun(states, acts) && Waits(acts, i, j, id)
    ensures id in states[j].clients && states[j].clients[id].before == |states[i + 1].accepted|
    decreases j
  {
    if i + 1 < j {
      WaitRemembers(states, acts, i, j - 1, id);
      assert acts[j - 1] != CallSync(id);
      KeepsBefore(states[j - 1], acts[j - 1], id);
    }
  }

  lemma KeepsBefore(s: State, a: Action, id: nat)
    requires Enabled(s, a) && id in s.clients && a != CallSync(id) && !(a.WriteAndWait? && a.id == id)
    ensures id in Step(s, a).clients && Step(s, a).clients[id].before == s.clients[id].before
  {
  }

  /** A wait that returned nil leaves everything accepted by its start persisted and applied, in the accepted order.
      For Sync that is every write before the call, for a write that waits it includes the write itself. */
  lemma ReturnMeansPersisted(states: seq<State>, acts: seq<Action>, i: nat, j: nat, id: nat)
    requires IsRun(states, acts) && Waits(acts, i, j, id)
    requires id in states[j].clients && states[j].clients[id].Returned? && states[j].clients[id].ok
    ensures states[i + 1].accepted <= states[j].applied <= states[j].persisted
  {
    WaitRemembers(states, acts, i, j, id);
    RunKeepsInv(states, acts, j);
    RecordsGrow(states, acts, i + 1, j);
    ReturnedIsApplied(states[j], id);
    assert states[i + 1].accepted == states[j].accepted[..|states[i + 1].accepted|];
  }

  lemma ReturnedIsApplied(s: State, id: nat)
    requires Inv(s) && id in s.clients && s.clients[id].Returned? && s.clients[id].ok
    ensures s.clients[id].before <= |s.applied| && s.applied <= s.persisted <= s.accepted
  {
    assert ClientFine(s.clients[id], id, s.flusher, |s.accepted|, |s.persisted|, |s.applied|);
  }

  // ----- what reads see meanwhile ------------------------------------------------------------------------------

  /** The layers Get consults hold the applied records, with the queue on top. */
  function Visible(s: State): Table {
    Fold(s.applied) + Fold(s.queued)
  }

  /** The records that Get cannot see. */
  function Hidden(s: State): seq<Record> {
    InFlight(s.flusher) + Unapplied(s.flusher)
  }

  function Lookup(t: Table, key: Bytes): Option<Cell> {
    if key in t then Some(t[key]) else None
  }

  /** A read of a key is right exactly when no hidden record is the newest of that key, or it changes nothing. */
  lemma VisibleExactly(s: State, key: Bytes)
    requires Inv(s)
    ensures Lookup(Visible(s), key) == Lookup(Fold(s.accepted), key) <==>
      key !in Fold(Hidden(s)) || key in Fold(s.queued) || Lookup(Fold(s.applied), key) == Some(Fold(Hidden(s))[key])
  {
    hide Fold;
    assert s.accepted == s.applied + Hidden(s) + s.queued;
    FoldAppend(s.applied + Hidden(s), s.queued);
    FoldAppend(s.applied, Hidden(s));
  }

  /** A batch in flight is seen by no read: one accepted write, taken and not yet applied. */
  lemma InFlightIsInvisible() returns (states: seq<State>, acts: seq<Action>)
    ensures IsRun(states, acts)
    ensures Lookup(Fold(states[|acts|].accepted), [1]) == Some(Live([9])) &&
      Lookup(Visible(states[|acts|]), [1]) == None
  {
    var r := Record([1], [9], false);
    var s1 := Step(InitialState(), Write(r));
    var s2 := Step(s1, Take(None));
    states, acts := [InitialState(), s1, s2], [Write(r), Take(None)];
    assert s2.accepted == [r] && [r][1..] == [];
    assert Fold([r]) == map[[1] := Live([9])] && Fold([]) == map[];
  }
}
