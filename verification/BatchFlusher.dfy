/** The batch flusher and Sync, each method a stretch of a run of the group commit machine. */
module BatchFlusher {
  import opened ByteStrings
  import opened Records
  import opened GroupCommit
  import Wal

  ghost predicate Reaches(s: State, acts: seq<Action>, t: State)
    decreases |acts|
  {
    if acts == [] then s == t else Enabled(s, acts[0]) && Reaches(Step(s, acts[0]), acts[1..], t)
  }

  lemma {:induction false} Then(s: State, acts: seq<Action>, t: State, a: Action)
    requires Reaches(s, acts, t) && Enabled(t, a)
    ensures Reaches(s, acts + [a], Step(t, a))
    decreases |acts|
  {
    hide Step, Enabled;
    if acts == [] {
      assert acts + [a] == [a] && [a][1..] == [];
    } else {
      assert (acts + [a])[1..] == acts[1..] + [a];
      Then(Step(s, acts[0]), acts[1..], t, a);
    }
  }

  lemma {:induction false} ReachesAppend(s: State, a: seq<Action>, t: State, b: seq<Action>, u: State)
    requires Reaches(s, a, t) && Reaches(t, b, u)
    ensures Reaches(s, a + b, u)
    decreases |a|
  {
    hide Step, Enabled;
    if a == [] {
      assert a + b == b;
    } else {
      assert (a + b)[1..] == a[1..] + b;
      ReachesAppend(Step(s, a[0]), a[1..], t, b, u);
    }
  }

  lemma {:induction false} ReachesKeepsInv(s: State, acts: seq<Action>, t: State)
    requires Inv(s) && Reaches(s, acts, t)
    ensures Inv(t)
    decreases |acts|
  {
    hide Step, Enabled, Conserved, ClientsFine;
    if acts != [] {
      ConservedStep(s, acts[0]);
      ClientsStep(s, acts[0]);
      ReachesKeepsInv(Step(s, acts[0]), acts[1..], t);
    }
  }

  /** What happens around one pass of the flusher: whether the store is closed before it, the writes that land while
      it holds no lock, whether the append succeeds, and whether the step after it does. */
  datatype Pass = Pass(closed: bool, meantime: seq<Record>, appendOk: bool, applyOk: bool)

  function Writes(rs: seq<Record>): seq<Action> {
    if rs == [] then [] else Writes(rs[..|rs| - 1]) + [Write(rs[|rs| - 1])]
  }

  /** The pass as a stretch of a run. */
  function PassActions(asker: Option<nat>, pass: Pass, empty: bool): seq<Action> {
    if empty then [Take(asker)] + Writes(pass.meantime) + [Reply]
    else
      [Take(asker)] + [Begin] + Writes(pass.meantime)
      + (if pass.appendOk then [AppendOk] + [Apply(pass.applyOk)] else [AppendFail]) + [End] + [Reply]
  }

  class DB {
    var pendingBatch: seq<Record>
    var batchSizeBytes: int
    var inflight: int
    ghost var accepted: seq<Record>
    ghost var persisted: seq<Record>
    ghost var applied: seq<Record>
    ghost var flusher: Flusher
    ghost var clients: map<nat, Client>

    ghost function St(): State
      reads this
    {
      State(accepted, persisted, applied, pendingBatch, batchSizeBytes, inflight, flusher, clients)
    }

    /** `writeRecord` up to its wait; `wait` says that the caller goes on to wait for the flusher. */
    method WriteRecord(r: Record, syncWrites: bool, activeSize: int, memtableSize: int, blocked: bool, closed: bool,
                       ghost id: nat, ghost f: Wal.Format)
      returns (accept: bool, wait: bool)
      requires Conserved(St()) && Enabled(St(), CallSync(id))
      modifies this
      ensures accept == (!blocked && !closed) && (!accept ==> St() == old(St()))
      ensures accept ==> St() == Step(old(St()), if wait then WriteAndWait(r, id) else Write(r))
      ensures accept ==> pendingBatch == old(pendingBatch) + [r] && accepted == old(accepted) + [r] && Conserved(St())
      ensures accept ==> (wait <==>
        || syncWrites || |pendingBatch| >= 64 || |Wal.EncodeAll(f, pendingBatch)| >= 16 * 1024
        || activeSize + |Wal.EncodeAll(f, pendingBatch)| > memtableSize)
    {
      if blocked { return false, false; }
      if closed { return false, false; }
      ConservedStep(St(), Write(r));
      Enqueue(r);
      WireSizesAreBytes(f, pendingBatch);
      wait := syncWrites || |pendingBatch| >= BATCH_MAX_RECORDS || batchSizeBytes >= BATCH_MAX_BYTES
        || activeSize + batchSizeBytes > memtableSize;
      if wait { clients := clients[id := Asking(|accepted|, false)]; }
      return true, wait;
    }

    method Enqueue(r: Record)
      modifies this
      ensures St() == Step(old(St()), Write(r))
    {
      pendingBatch := pendingBatch + [r];
      batchSizeBytes := batchSizeBytes + RecordWireSize(r);
      accepted := accepted + [r];
    }

    /** Writers that come while the flusher holds no lock. */
    method WritesLand(rs: seq<Record>, ghost s0: State, ghost done: seq<Action>)
      requires Reaches(s0, done, St())
      modifies this
      ensures Reaches(s0, done + Writes(rs), St())
      ensures pendingBatch == old(pendingBatch) + rs && accepted == old(accepted) + rs
      ensures persisted == old(persisted) && applied == old(applied) && flusher == old(flusher) &&
        clients == old(clients)
      ensures inflight == old(inflight)
    {
      hide Reaches;
      assert done + [] == done;
      for i := 0 to |rs|
        invariant Reaches(s0, done + Writes(rs[..i]), St())
        invariant pendingBatch == old(pendingBatch) + rs[..i] && accepted == old(accepted) + rs[..i]
        invariant persisted == old(persisted) && applied == old(applied) && flusher == old(flusher) &&
          clients == old(clients)
        invariant inflight == old(inflight)
      {
        assert rs[..i + 1][..i] == rs[..i] && rs[..i + 1] == rs[..i] + [rs[i]];
        Then(s0, done + Writes(rs[..i]), St(), Write(rs[i]));
        assert done + Writes(rs[..i]) + [Write(rs[i])] == done + Writes(rs[..i + 1]);
        Enqueue(rs[i]);
      }
      assert rs[..|rs|] == rs;
    }

    /** `takePendingBatchLocked`, with the check for an empty queue before it. */
    method TakePendingBatch(ghost asker: Option<nat>) returns (batch: seq<Record>)
      requires Enabled(St(), Take(asker))
      modifies this
      ensures batch == old(pendingBatch) && St() == Step(old(St()), Take(asker))
    {
      batch := pendingBatch;
      clients := TakeUp(St(), asker).clients;
      if |batch| == 0 {
        flusher := Replying(asker, true);
      } else {
        pendingBatch, batchSizeBytes := [], 0;
        flusher := Taken(batch, asker);
      }
    }

    /** `restorePendingBatchLocked` after a failed append. */
    method RestorePendingBatch(batch: seq<Record>)
      requires Enabled(St(), AppendFail) && batch == flusher.batch
      modifies `pendingBatch, `batchSizeBytes, `flusher
      ensures St() == Step(old(St()), AppendFail)
    {
      pendingBatch := batch + pendingBatch;
      var i := 0;
      while i < |batch|
        invariant 0 <= i <= |batch|
        invariant batchSizeBytes + WireSizes(batch[i..]) == old(batchSizeBytes) + WireSizes(batch)
        invariant pendingBatch == batch + old(pendingBatch) && flusher == old(flusher)
      {
        assert batch[i..][1..] == batch[i + 1..];
        batchSizeBytes := batchSizeBytes + RecordWireSize(batch[i]);
        i := i + 1;
      }
      flusher := Ending(flusher.asker, false);
    }

    /** `flushPendingBatch`, with the reply to the goroutine it serves. */
    method FlushPendingBatch(ghost asker: Option<nat>, pass: Pass) returns (ok: bool, ghost acts: seq<Action>)
      requires Enabled(St(), Take(asker))
      modifies this
      ensures Reaches(old(St()), acts, St()) && acts == PassActions(asker, pass, old(pendingBatch) == [])
      ensures ok == (old(pendingBatch) == [] || (pass.appendOk && pass.applyOk)) && flusher == Idle
      ensures accepted == old(accepted) + pass.meantime
      ensures clients == Answer(TakeUp(old(St()), asker), asker, ok).clients
      ensures pass.appendOk ==> persisted == old(persisted) + old(pendingBatch) && pendingBatch == pass.meantime
      ensures !pass.appendOk ==> persisted == old(persisted) && pendingBatch == old(pendingBatch) + pass.meantime
    {
      hide Reaches, Step, Enabled;
      ghost var s0 := St();
      var batch;
      batch, acts := TakeFirst(asker, s0);
      if |batch| == 0 {
        WritesLand(pass.meantime, s0, acts);
        acts := acts + Writes(pass.meantime);
        ok := true;
      } else {
        ok, acts := PersistBatch(batch, pass, s0, acts);
      }
      acts := SendReply(s0, acts);
    }

    method TakeFirst(ghost asker: Option<nat>, ghost s0: State) returns (batch: seq<Record>, ghost acts: seq<Action>)
      requires s0 == St() && Enabled(St(), Take(asker))
      modifies this
      ensures Reaches(s0, acts, St()) && acts == [Take(asker)] && batch == old(pendingBatch) && pendingBatch == []
      ensures flusher == if batch == [] then Replying(asker, true) else Taken(batch, asker)
      ensures clients == TakeUp(s0, asker).clients
      ensures accepted == old(accepted) && persisted == old(persisted) && applied == old(applied)
    {
      NoSteps(s0);
      Then(s0, [], s0, Take(asker));
      acts := [] + [Take(asker)];
      batch := TakePendingBatch(asker);
    }

    /** The reply on the channel of the goroutine that asked. */
    method SendReply(ghost s0: State, ghost done: seq<Action>) returns (ghost acts: seq<Action>)
      requires Reaches(s0, done, St()) && flusher.Replying?
      modifies `clients, `flusher
      ensures Reaches(s0, acts, St()) && acts == done + [Reply]
      ensures clients == Answer(old(St()), old(flusher).asker, old(flusher).ok).clients && flusher == Idle
    {
      hide Reaches;
      Then(s0, done, St(), Reply);
      acts := done + [Reply];
      clients := Answer(St(), flusher.asker, flusher.ok).clients;
      flusher := Idle;
    }

    /** Between the two locked sections of the pass and the second of them. */
    method PersistBatch(batch: seq<Record>, pass: Pass, ghost s0: State, ghost done: seq<Action>)
      returns (ok: bool, ghost acts: seq<Action>)
      requires Reaches(s0, done, St()) && flusher.Taken? && flusher.batch == batch
      modifies this
      ensures Reaches(s0, acts, St())
      ensures acts == done + [Begin] + Writes(pass.meantime)
                      + (if pass.appendOk then [AppendOk] + [Apply(pass.applyOk)] else [AppendFail]) + [End]
      ensures ok == (pass.appendOk && pass.applyOk) && flusher == Replying(old(flusher).asker, ok)
      ensures accepted == old(accepted) + pass.meantime && clients == old(clients)
      ensures persisted == old(persisted) + if pass.appendOk then batch else []
      ensures pendingBatch == (if pass.appendOk then [] else batch) + old(pendingBatch) + pass.meantime
    {
      hide Reaches;
      acts := BeginPersist(s0, done);
      WritesLand(pass.meantime, s0, acts);
      acts := acts + Writes(pass.meantime);
      if pass.appendOk {
        acts := AppendAndApply(pass.applyOk, s0, acts);
      } else {
        Then(s0, acts, St(), AppendFail);
        acts := acts + [AppendFail];
        RestorePendingBatch(batch);
      }
      ok := pass.appendOk && pass.applyOk;
      acts := EndPersist(s0, acts);
    }

    method BeginPersist(ghost s0: State, ghost done: seq<Action>) returns (ghost acts: seq<Action>)
      requires Reaches(s0, done, St()) && flusher.Taken?
      modifies `inflight, `flusher
      ensures Reaches(s0, acts, St()) && acts == done + [Begin]
      ensures flusher == Writing(old(flusher).batch, old(flusher).asker)
    {
      hide Reaches;
      Then(s0, done, St(), Begin);
      acts := done + [Begin];
      inflight := inflight + 1;
      flusher := Writing(flusher.batch, flusher.asker);
    }

    /** The append returned nil; the second locked section applies the batch. */
    method AppendAndApply(applyOk: bool, ghost s0: State, ghost done: seq<Action>) returns (ghost acts: seq<Action>)
      requires Reaches(s0, done, St()) && flusher.Writing?
      modifies `persisted, `applied, `flusher
      ensures Reaches(s0, acts, St()) && acts == done + ([AppendOk] + [Apply(applyOk)])
      ensures flusher == Ending(old(flusher).asker, applyOk)
      ensures persisted == old(persisted) + old(flusher).batch && applied == old(applied) + old(flusher).batch
    {
      hide Reaches;
      Then(s0, done, St(), AppendOk);
      persisted, flusher := persisted + flusher.batch, Synced(flusher.batch, flusher.asker);
      Then(s0, done + [AppendOk], St(), Apply(applyOk));
      applied, flusher := applied + flusher.batch, Ending(flusher.asker, applyOk);
      acts := done + [AppendOk] + [Apply(applyOk)];
      assert acts == done + ([AppendOk] + [Apply(applyOk)]);
    }

    method EndPersist(ghost s0: State, ghost done: seq<Action>) returns (ghost acts: seq<Action>)
      requires Reaches(s0, done, St()) && flusher.Ending?
      modifies `inflight, `flusher
      ensures Reaches(s0, acts, St()) && acts == done + [End]
      ensures flusher == Replying(old(flusher).asker, old(flusher).ok)
    {
      hide Reaches;
      Then(s0, done, St(), End);
      acts := done + [End];
      inflight := inflight - 1;
      flusher := Replying(flusher.asker, flusher.ok);
    }

    /** `Sync`: ask the flusher, pass the barrier, look for an empty queue, and start over if there is none. */
    method Sync(blocked: bool, passes: seq<Pass>, ghost id: nat) returns (ok: bool, ghost acts: seq<Action>)
      requires Inv(St()) && flusher == Idle && Enabled(St(), CallSync(id))
      modifies this
      ensures Reaches(old(St()), acts, St()) && Inv(St()) && flusher == Idle
      ensures ok == (!blocked && SyncSucceeds(old(pendingBatch) == [], passes))
      ensures ok ==> old(accepted) <= applied <= persisted && pendingBatch == [] && applied == accepted
    {
      hide Reaches, SyncSucceeds, Inv, Enabled, St;
      ghost var s0, before := St(), |accepted|;
      NoSteps(s0);
      if blocked { return false, []; }
      acts := Ask(id, s0);
      var left := passes;
      while true
        invariant Reaches(s0, acts, St()) && flusher == Idle && id in clients && clients[id] == Asking(before, true)
        invariant SyncSucceeds(pendingBatch == [], left) == SyncSucceeds(old(pendingBatch) == [], passes)
        invariant old(accepted) <= accepted
        decreases |left|
      {
        SyncUnfolds(pendingBatch == [], left);
        ghost var t := St();
        var end;
        end, acts := Round(NextPass(left), id, s0, acts);
        if end == Error { return false, acts; }
        if end == Nil {
          assert old(accepted) == accepted[..before];
          return true, acts;
        }
        left := left[1..];
      }
    }

    /** One turn of the loop. */
    method Round(pass: Pass, ghost id: nat, ghost s0: State, ghost done: seq<Action>)
      returns (end: RoundEnd, ghost acts: seq<Action>)
      requires Inv(s0) && Reaches(s0, done, St()) && flusher == Idle && id in clients && clients[id].Asking? &&
        clients[id].syncing
      modifies this
      ensures Reaches(s0, acts, St()) && Inv(St()) && flusher == Idle && id in clients
      ensures end == Error <==> pass.closed || !(old(pendingBatch) == [] || (pass.appendOk && pass.applyOk))
      ensures end == Nil ==>
        pass.meantime == [] && old(clients[id]).before <= |applied| && applied <= persisted <= accepted
      ensures end == Nil ==> pendingBatch == [] && applied == accepted
      ensures end == Again ==> pass.meantime != [] && pendingBatch == pass.meantime && clients[id] == old(clients[id])
      ensures old(accepted) <= accepted
    {
      hide Reaches, Inv, PassActions;
      acts := done;
      if pass.closed {
        acts := Move(GiveUp(id), s0, acts, id);
        ReachesKeepsInv(s0, acts, St());
        return Error, acts;
      }
      ghost var t := St();
      var ok, more := FlushPendingBatch(Some(id), pass);
      ReachesAppend(s0, acts, t, more, St());
      acts := acts + more;
      if !ok {
        acts := Move(Return(id), s0, acts, id);
        ReachesKeepsInv(s0, acts, St());
        return Error, acts;
      }
      end, acts := CheckRound(id, s0, acts);
    }

    /** The barrier and the look at the queue after a pass that went well. */
    method CheckRound(ghost id: nat, ghost s0: State, ghost done: seq<Action>)
      returns (end: RoundEnd, ghost acts: seq<Action>)
      requires Inv(s0) && Reaches(s0, done, St()) && flusher == Idle
      requires id in clients && clients[id].Answered? && clients[id].ok && clients[id].syncing
      modifies `clients
      ensures Reaches(s0, acts, St()) && Inv(St()) && id in clients
      ensures end == if pendingBatch == [] then Nil else Again
      ensures end == Nil ==> old(clients[id]).before <= |applied| && applied <= persisted <= accepted
      ensures end == Again ==> clients[id] == Asking(old(clients[id]).before, true)
      ensures end == Nil ==> applied == accepted
    {
      hide Reaches, Inv;
      ReachesKeepsInv(s0, done, St());
      IdleBarrier(St());
      acts := Move(PassBarrier(id), s0, done, id);
      end := if |pendingBatch| == 0 then Nil else Again;
      acts := Move(CheckEmpty(id), s0, acts, id);
      ReachesKeepsInv(s0, acts, St());
      if end == Nil {
        ReturnedIsApplied(St(), id);
        NothingLeft(St());
      }
    }

    method Ask(ghost id: nat, ghost s0: State) returns (ghost acts: seq<Action>)
      requires s0 == St() && Enabled(St(), CallSync(id))
      modifies `clients
      ensures Reaches(s0, acts, St()) && clients == old(clients)[id := Asking(|accepted|, true)]
    {
      NoSteps(s0);
      Then(s0, [], s0, CallSync(id));
      acts := [] + [CallSync(id)];
      clients := clients[id := Asking(|accepted|, true)];
    }

    /** A step of the waiting goroutine alone. */
    ghost method Move(a: Action, s0: State, done: seq<Action>, id: nat) returns (acts: seq<Action>)
      requires Reaches(s0, done, St()) && Enabled(St(), a)
      requires a == GiveUp(id) || a == Return(id) || a == PassBarrier(id) || a == CheckEmpty(id)
      modifies `clients
      ensures Reaches(s0, acts, St()) && acts == done + [a] && St() == Step(old(St()), a)
    {
      Then(s0, done, St(), a);
      acts := done + [a];
      clients := Step(St(), a).clients;
    }
  }

  lemma NoSteps(s: State)
    ensures Reaches(s, [], s)
  {
  }

  datatype RoundEnd = Error | Nil | Again

  /** After the listed passes nothing disturbs the flusher any more. */
  function NextPass(passes: seq<Pass>): Pass {
    if passes == [] then Pass(false, [], true, true) else passes[0]
  }

  /** Sync returns nil exactly if it meets a pass after which the queue is empty before one that fails or a close. */
  function SyncSucceeds(empty: bool, passes: seq<Pass>): bool
    decreases |passes|
  {
    var pass := NextPass(passes);
    if pass.closed || !(empty || (pass.appendOk && pass.applyOk)) then false
    else pass.meantime == [] || SyncSucceeds(false, passes[1..])
  }

  lemma SyncUnfolds(empty: bool, passes: seq<Pass>)
    ensures var pass := NextPass(passes);
      && (passes == [] ==> pass.meantime == [])
      && SyncSucceeds(empty, passes) ==
           (!pass.closed && (empty || (pass.appendOk && pass.applyOk)) &&
             (pass.meantime == [] || SyncSucceeds(false, passes[1..])))
  {
  }

  /** Round j is fine: the store is open, and there is nothing to write or it is written and applied. */
  ghost predicate FineRound(empty: bool, passes: seq<Pass>, j: nat)
    requires j <= |passes|
  {
    var pass := NextPass(passes[j..]);
    !pass.closed && ((j == 0 && empty) || (pass.appendOk && pass.applyOk))
  }

  /** Rounds up to n are fine, and n is the first after which nothing new is queued. */
  ghost predicate EndsAt(empty: bool, passes: seq<Pass>, n: nat) {
    && n <= |passes| && (forall j :: 0 <= j <= n ==> FineRound(empty, passes, j))
    && (forall j :: 0 <= j < n ==> passes[j].meantime != []) && NextPass(passes[n..]).meantime == []
  }

  lemma {:induction false} SyncSucceedsExactly(empty: bool, passes: seq<Pass>)
    ensures SyncSucceeds(empty, passes) <==> exists n: nat :: EndsAt(empty, passes, n)
    decreases |passes|
  {
    assert passes[0..] == passes;
    var pass := NextPass(passes);
    if pass.meantime == [] {
      if SyncSucceeds(empty, passes) { assert EndsAt(empty, passes, 0); }
      forall n: nat | EndsAt(empty, passes, n) ensures FineRound(empty, passes, 0) {}
    } else {
      SyncSucceedsExactly(false, passes[1..]);
      forall n: nat ensures EndsAt(empty, passes, n + 1) <==>
        FineRound(empty, passes, 0) && EndsAt(false, passes[1..], n)
      {
        EndsLater(empty, passes, n);
      }
      if n: nat :| EndsAt(empty, passes, n) {
        assert n > 0;
        assert EndsAt(false, passes[1..], n - 1);
      }
    }
  }

  lemma EndsLater(empty: bool, passes: seq<Pass>, n: nat)
    requires passes != [] && passes[0].meantime != []
    ensures EndsAt(empty, passes, n + 1) <==> FineRound(empty, passes, 0) && EndsAt(false, passes[1..], n)
  {
    var rest := passes[1..];
    if n <= |rest| {
      forall j | 0 <= j <= n ensures rest[j..] == passes[j + 1..] {}
      if FineRound(empty, passes, 0) && EndsAt(false, rest, n) {
        forall j | 0 <= j <= n + 1 ensures FineRound(empty, passes, j) {
          if j > 0 { assert FineRound(false, rest, j - 1); }
        }
        forall j | 0 <= j < n + 1 ensures passes[j].meantime != [] { if j > 0 { assert rest[j - 1].meantime != []; } }
      }
      if EndsAt(empty, passes, n + 1) {
        forall j | 0 <= j <= n ensures FineRound(false, rest, j) { assert FineRound(empty, passes, j + 1); }
        forall j | 0 <= j < n ensures rest[j].meantime != [] { assert passes[j + 1].meantime != []; }
      }
    }
  }

  lemma NothingLeft(s: State)
    requires Inv(s) && s.flusher == Idle && s.queued == []
    ensures s.applied == s.accepted
  {
  }

  lemma IdleBarrier(s: State)
    requires Inv(s) && s.flusher == Idle
    ensures s.inflight == 0
  {
  }
}
