/**
 * The transfer registry: the map from transfer id to reassembly state that
 * `HandleFileFragmentAsync` creates entries in, appends through and removes
 * entries from. `Step` is its behaviour on values; `TransferRegistry` is the
 * mutable map of state objects, proved to behave as `Step` says.
 */
module Registry {
  import opened Wrappers
  import opened Protocol
  import opened Reassembly

  /** What the registry holds, by value. */
  type Transfers = map<Guid, StateView>

  /** What handling one fragment came to. `Completed` carries the finished state handed to the save. */
  datatype FragmentOutcome = Ignored | Accepted | Completed(finished: StateView) | Aborted

  /** The state a fragment is checked against: a fresh one for a first fragment, else the tracked one. */
  function Start(reg: Transfers, b: DataBatch): StateView
    requires b.isFirst || b.transferId in reg
  {
    if b.isFirst then Initial(b.transferId, b.kind, b.filename, b.originalSize) else reg[b.transferId]
  }

  /**
   * `HandleFileFragmentAsync` on values. A first fragment replaces whatever
   * was tracked for its id; a later fragment for an untracked id is ignored;
   * an in-order fragment is appended, and completes and removes the transfer
   * when it is the last; an out-of-order fragment removes the transfer.
   */
  function Step(reg: Transfers, b: DataBatch): (r: (Transfers, FragmentOutcome))
    // only the fragment's own transfer is touched
    ensures r.0 - {b.transferId} == reg - {b.transferId}
    // an unknown transfer is ignored and nothing changes
    ensures !b.isFirst && b.transferId !in reg <==> r.1 == Ignored
    ensures r.1 == Ignored ==> r.0 == reg
    // the entry survives exactly when an in-order, non-last fragment was taken
    ensures b.transferId in r.0 <==> r.1 == Accepted
    ensures r.1 == Accepted ==> !b.isLast
    ensures r.1.Completed? ==> b.isLast
    // a first fragment is checked against a fresh state, never the old one
    ensures b.isFirst ==> (r.1.Accepted? || r.1.Completed? <==> b.sequence == 0)
    ensures b.isFirst && r.1 == Accepted ==>
      r.0[b.transferId] == StateView(b.transferId, b.kind, Payload(b), 1, b.filename, b.originalSize)
    // a later fragment is taken exactly when it carries the expected number
    ensures !b.isFirst && b.transferId in reg ==>
      (r.1.Accepted? || r.1.Completed? <==> b.sequence == reg[b.transferId].expectedSequence)
    ensures !b.isFirst && r.1 == Accepted ==>
      r.0[b.transferId].buffer == reg[b.transferId].buffer + Payload(b)
  {
    if !b.isFirst && b.transferId !in reg then (reg, Ignored)
    else
      var v := Start(reg, b);
      if !Accepts(v, b) then (reg - {b.transferId}, Aborted)
      else if b.isLast then (reg - {b.transferId}, Completed(Appended(v, b)))
      else (reg[b.transferId := Appended(v, b)], Accepted)
  }

  /** The registry after handling `bs` in order, with the outcome of each. */
  function StepAll(reg: Transfers, bs: seq<DataBatch>): (r: (Transfers, seq<FragmentOutcome>))
    ensures |r.1| == |bs|
  {
    if bs == [] then (reg, [])
    else
      var prev := StepAll(reg, bs[..|bs| - 1]);
      var next := Step(prev.0, bs[|bs| - 1]);
      (next.0, prev.1 + [next.1])
  }

  // ---------------------------------------------------------------------
  // Properties of whole fragment streams

  /**
   * `fs` is one transfer's fragments as a correct sender numbers them: the
   * first marked first, the rest numbered 0, 1, 2, ... as C# `int`s, and
   * none but possibly the final one marked last.
   */
  predicate InOrder(fs: seq<DataBatch>, id: Guid) {
    && |fs| >= 1
    && (forall i | 0 <= i < |fs| :: fs[i].transferId == id && fs[i].sequence == Wrap32(i))
    && (forall i | 0 <= i < |fs| :: fs[i].isFirst <==> i == 0)
    && (forall i | 0 <= i < |fs| - 1 :: !fs[i].isLast)
  }

  /** The state a transfer reaches once all of `fs` has been accepted. */
  function Collected(fs: seq<DataBatch>): StateView
    requires |fs| >= 1
  {
    StateView(fs[0].transferId, fs[0].kind, Payloads(fs), Wrap32(|fs|), fs[0].filename, fs[0].originalSize)
  }

  lemma {:induction false} InOrderPrefix(fs: seq<DataBatch>, id: Guid, k: nat)
    requires InOrder(fs, id) && 1 <= k <= |fs|
    ensures InOrder(fs[..k], id)
  {
  }

  /**
   * Delivering an in-order stream without its final `isLast` fragment, from
   * any registry, leaves the transfer tracked with the payloads end to end
   * and the counter at the number delivered, every fragment accepted and
   * every other transfer as it was.
   */
  lemma {:induction false} InOrderAccumulates(reg: Transfers, fs: seq<DataBatch>, id: Guid)
    requires InOrder(fs, id) && !fs[|fs| - 1].isLast
    ensures StepAll(reg, fs).0 == reg[id := Collected(fs)]
    ensures forall i | 0 <= i < |fs| :: StepAll(reg, fs).1[i] == Accepted
  {
    var n := |fs|;
    var b := fs[n - 1];
    if n == 1 {
      assert fs[..0] == [];
      assert Payloads(fs) == Payload(b) by {
        assert Payloads(fs) == Payloads(fs[..0]) + Payload(b);
      }
    } else {
      var init := fs[..n - 1];
      InOrderPrefix(fs, id, n - 1);
      InOrderAccumulates(reg, init, id);
      var m := StepAll(reg, init).0;
      CollectedStep(fs, id);
      StepAppends(m, b);
      assert m[id := Collected(fs)] == reg[id := Collected(fs)];
    }
  }

  /** A later, in-order fragment for a tracked transfer extends its entry. */
  lemma StepAppends(m: Transfers, b: DataBatch)
    requires !b.isFirst && b.transferId in m && Accepts(m[b.transferId], b)
    ensures Step(m, b) ==
      if b.isLast then (m - {b.transferId}, Completed(Appended(m[b.transferId], b)))
      else (m[b.transferId := Appended(m[b.transferId], b)], Accepted)
  {
  }

  /** One more in-order fragment is accepted by the state its predecessors reached, and extends it. */
  lemma CollectedStep(fs: seq<DataBatch>, id: Guid)
    requires InOrder(fs, id) && |fs| >= 2
    ensures Accepts(Collected(fs[..|fs| - 1]), fs[|fs| - 1])
    ensures Collected(fs) == Appended(Collected(fs[..|fs| - 1]), fs[|fs| - 1])
  {
    var n := |fs|;
    assert fs[..n - 1][0] == fs[0];
    Wrap32Succ(n - 1);
    assert Payloads(fs) == Payloads(fs[..n - 1]) + Payload(fs[n - 1]);
  }

  /**
   * Delivering a complete in-order stream, its final fragment marked last,
   * from any registry: every fragment but the last is accepted, the last
   * completes the transfer with the payloads end to end, and the transfer's
   * entry is gone while every other transfer is as it was.
   */
  lemma {:induction false} InOrderCompletes(reg: Transfers, fs: seq<DataBatch>, id: Guid)
    requires InOrder(fs, id) && fs[|fs| - 1].isLast
    ensures StepAll(reg, fs).0 == reg - {id}
    ensures forall i | 0 <= i < |fs| - 1 :: StepAll(reg, fs).1[i] == Accepted
    ensures StepAll(reg, fs).1[|fs| - 1] == Completed(Collected(fs))
    ensures Collected(fs).buffer == Payloads(fs)
  {
    var n := |fs|;
    var b := fs[n - 1];
    if n == 1 {
      assert fs[..0] == [];
      assert Payloads(fs) == Payloads(fs[..0]) + Payload(b);
    } else {
      var init := fs[..n - 1];
      InOrderPrefix(fs, id, n - 1);
      InOrderAccumulates(reg, init, id);
      var m := StepAll(reg, init).0;
      CollectedStep(fs, id);
      StepAppends(m, b);
      assert m - {id} == reg - {id};
    }
  }

  /** The batches of `bs` that belong to transfer `id`, in order. */
  function OfTransfer(bs: seq<DataBatch>, id: Guid): (r: seq<DataBatch>)
    ensures |r| <= |bs|
  {
    if bs == [] then []
    else if bs[|bs| - 1].transferId == id then OfTransfer(bs[..|bs| - 1], id) + [bs[|bs| - 1]]
    else OfTransfer(bs[..|bs| - 1], id)
  }

  /** The entry for `id`, if any. */
  function Entry(reg: Transfers, id: Guid): Option<StateView> {
    if id in reg then Some(reg[id]) else None
  }

  /**
   * Transfers do not interfere: what the registry holds for `id` after any
   * interleaved stream is what it would hold had only `id`'s batches been
   * delivered.
   */
  lemma {:induction false} Isolation(reg: Transfers, bs: seq<DataBatch>, id: Guid)
    ensures Entry(StepAll(reg, bs).0, id) == Entry(StepAll(reg, OfTransfer(bs, id)).0, id)
  {
    if bs != [] {
      var init := bs[..|bs| - 1];
      var b := bs[|bs| - 1];
      Isolation(reg, init, id);
      var m1 := StepAll(reg, init).0;
      var m2 := StepAll(reg, OfTransfer(init, id)).0;
      if b.transferId == id {
        var ob := OfTransfer(init, id) + [b];
        assert OfTransfer(bs, id) == ob;
        assert ob[..|ob| - 1] == OfTransfer(init, id);
        assert Entry(m1, id) == Entry(m2, id);
        StepLocal(m1, m2, b);
      } else {
        assert Entry(Step(m1, b).0, id) == Entry(m1, id) by {
          assert Step(m1, b).0 - {b.transferId} == m1 - {b.transferId};
          assert id in Step(m1, b).0 <==> id in Step(m1, b).0 - {b.transferId};
          assert id in m1 <==> id in m1 - {b.transferId};
        }
      }
    }
  }

  /** A fragment's effect on its own transfer depends only on that transfer's entry. */
  lemma StepLocal(m1: Transfers, m2: Transfers, b: DataBatch)
    requires Entry(m1, b.transferId) == Entry(m2, b.transferId)
    ensures Entry(Step(m1, b).0, b.transferId) == Entry(Step(m2, b).0, b.transferId)
  {
  }

  lemma ValuesRemove<K, V>(m: map<K, V>, k: K)
    ensures (m - {k}).Values <= m.Values
  {
    forall v | v in (m - {k}).Values ensures v in m.Values {
      var j :| j in m - {k} && (m - {k})[j] == v;
      assert m[j] == v;
    }
  }

  lemma UpdateTwice<K, V>(m: map<K, V>, k: K, v: V, w: V)
    ensures m[k := v][k := w] == m[k := w]
  {
  }

  lemma UpdateRemove<K, V>(m: map<K, V>, k: K, v: V)
    ensures m[k := v] - {k} == m - {k}
  {
  }

  // ---------------------------------------------------------------------
  // The registry object

  /**
   * `_activeTransfers`: the map from transfer id to the state object that
   * reassembles it, used one fragment at a time.
   */
  class TransferRegistry {
    var active: map<Guid, ReassemblyState>
    /** The registry by value. */
    ghost var Contents: Transfers

    /**
     * Each entry is filed under its own id (so no two ids share a state), is
     * consistent, and is what `Contents` records for that id.
     */
    ghost predicate Valid()
      reads this, active.Values
    {
      && active.Keys == Contents.Keys
      && forall id | id in active ::
           active[id].transferId == id && active[id].View() == Contents[id]
    }

    constructor ()
      ensures Valid() && Contents == map[]
    {
      active := map[];
      Contents := map[];
    }

    /**
     * `HandleFileFragmentAsync`: handles one file fragment exactly as `Step`
     * says and, when the fragment completes its transfer, saves the result.
     * `invalid` is the platform's set of invalid file-name characters and
     * `written` whether the file write succeeds.
     */
    method HandleFileFragment(batch: DataBatch, invalid: set<char>, written: bool)
      returns (outcome: FragmentOutcome, savedAs: Option<string>)
      requires Valid()
      modifies this, active.Values
      ensures Valid()
      ensures (Contents, outcome) == Step(old(Contents), batch)
      ensures savedAs == if outcome.Completed? then SavedAs(outcome.finished, invalid, written) else None
      ensures forall s | s in active.Values :: s in old(active.Values) || fresh(s)
    {
      ghost var before := Contents;
      var state := Acquire(batch);
      if state == null {
        assert Step(before, batch) == (before, Ignored);
        return Ignored, None;
      }
      ghost var mid := Contents;
      ghost var v := state.View();
      assert v == Start(before, batch);
      ghost var held := active;
      outcome, savedAs := Apply(state, batch, invalid, written);
      ValuesRemove(held, batch.transferId);
      if outcome == Accepted {
        UpdateTwice(before, batch.transferId, v, Appended(v, batch));
      } else {
        UpdateRemove(before, batch.transferId, v);
      }
    }

    /**
     * The first half of `HandleFileFragmentAsync`: the state the fragment is
     * checked against. A first fragment discards any state tracked under its
     * id and files a fresh one; a later fragment finds its transfer's state,
     * or `null` when the id is not tracked.
     */
    method Acquire(batch: DataBatch) returns (state: ReassemblyState?)
      requires Valid()
      modifies this
      ensures Valid()
      ensures state == null <==> !batch.isFirst && batch.transferId !in old(Contents)
      ensures state == null ==> active == old(active) && Contents == old(Contents)
      ensures state != null ==>
        && batch.transferId in active && active[batch.transferId] == state
        && state.View() == Start(old(Contents), batch)
        && Contents == old(Contents)[batch.transferId := state.View()]
      ensures forall s | s in active.Values :: s in old(active.Values) || fresh(s)
    {
      var id := batch.transferId;
      if batch.isFirst {
        if id in active {
          // a stale transfer under the same id is discarded
          Retire(id);
        }
        state := new ReassemblyState(id, batch.kind, batch.filename, batch.originalSize);
        Admit(id, state);
        assert Contents == old(Contents)[id := state.View()];
      } else if id in active {
        state := active[id];
        assert Contents == Contents[id := state.View()];
      } else {
        state := null;
      }
    }

    /** `_activeTransfers.TryRemove(id, out _)`. */
    method Retire(id: Guid)
      requires Valid()
      modifies this
      ensures Valid()
      ensures active == old(active) - {id} && Contents == old(Contents) - {id}
    {
      active := active - {id};
      Contents := Contents - {id};
    }

    /** `_activeTransfers.TryAdd(id, state)` for an id not yet tracked. */
    method Admit(id: Guid, state: ReassemblyState)
      requires Valid() && id !in active && state.transferId == id
      modifies this
      ensures Valid()
      ensures active == old(active)[id := state] && Contents == old(Contents)[id := state.View()]
    {
      active := active[id := state];
      Contents := Contents[id := state.View()];
    }

    /**
     * The second half of `HandleFileFragmentAsync`: offers the fragment to
     * the transfer's state; the entry stays only if the fragment was taken and
     * was not the last, and a completed transfer is saved.
     */
    method Apply(state: ReassemblyState, batch: DataBatch, invalid: set<char>, written: bool)
      returns (outcome: FragmentOutcome, savedAs: Option<string>)
      requires Valid() && batch.transferId in active && active[batch.transferId] == state
      modifies this, state
      ensures Valid()
      ensures outcome ==
        if !Accepts(old(state.View()), batch) then Aborted
        else if batch.isLast then Completed(Appended(old(state.View()), batch))
        else Accepted
      ensures Contents ==
        if outcome.Accepted? then old(Contents)[batch.transferId := Appended(old(state.View()), batch)]
        else old(Contents) - {batch.transferId}
      ensures savedAs == if outcome.Completed? then SavedAs(outcome.finished, invalid, written) else None
      ensures active == if outcome.Accepted? then old(active) else old(active) - {batch.transferId}
    {
      var id := batch.transferId;
      ghost var v := state.View();
      ghost var before := Contents;
      assert forall k | k in active && k != id :: active[k] != state;
      var ok := state.AddFragment(batch);
      // the state object changed in place; the ghost map follows it
      Contents := Contents[id := state.View()];
      if ok && !batch.isLast {
        outcome := Accepted;
        savedAs := None;
      } else {
        if ok {
          savedAs := state.SaveFile(invalid, written);
          outcome := Completed(state.View());
        } else {
          outcome := Aborted;
          savedAs := None;
        }
        Retire(id);
        UpdateRemove(before, id, state.View());
      }
    }
  }
}
