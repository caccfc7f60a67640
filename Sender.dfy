/**
 * The outbound file path of the client: `SendFileAsync` cuts a file into
 * 8 KiB fragments of one transfer and hands them to the relay in containers
 * of at most 50 batches.
 */
module Sender {
  import opened Wrappers
  import opened Strings
  import opened Protocol
  import opened Reassembly
  import opened Registry

  /** Bytes per fragment. */
  const FragmentSize := 8192
  /** Fragments per container. */
  const BatchSize := 50
  /** The longest byte array the runtime allocates, hence the longest file read. */
  const MaxFileLength := 0x7FFF_FFC7

  /** The number of fragments a file of `n` bytes is cut into. */
  function FragmentCount(n: nat): (k: nat)
    ensures k * FragmentSize >= n
    ensures k > 0 ==> (k - 1) * FragmentSize < n
  {
    (n + FragmentSize - 1) / FragmentSize
  }

  /** How many bytes of a file of `n` bytes the first `j` fragments cover. */
  function Covered(n: nat, j: nat): nat {
    if j * FragmentSize <= n then j * FragmentSize else n
  }

  lemma CoveredStep(n: nat, j: nat)
    ensures Covered(n, j) <= Covered(n, j + 1) <= n
  {
    assert (j + 1) * FragmentSize == j * FragmentSize + FragmentSize;
  }

  /** Fragment `i` of the file `bytes` sent as transfer `id`. */
  function FragmentAt(bytes: seq<byte>, filename: string, id: Guid, i: nat): DataBatch
    requires |bytes| <= MaxFileLength && i < FragmentCount(|bytes|)
  {
    var n := |bytes|;
    var lo := Covered(n, i);
    var hi := Covered(n, i + 1);
    DataBatch(id, FileFragment, i, lo == 0, hi >= n, Some(bytes[lo..hi]),
              if lo == 0 then Some(filename) else None,
              if lo == 0 then Some(n) else None)
  }

  /** The first `k` fragments of the file, in sending order. */
  function FragmentsUpTo(bytes: seq<byte>, filename: string, id: Guid, k: nat): (fs: seq<DataBatch>)
    requires |bytes| <= MaxFileLength && k <= FragmentCount(|bytes|)
    ensures |fs| == k
  {
    if k == 0 then [] else FragmentsUpTo(bytes, filename, id, k - 1) + [FragmentAt(bytes, filename, id, k - 1)]
  }

  /** Every fragment of the file, in sending order. */
  function Fragments(bytes: seq<byte>, filename: string, id: Guid): seq<DataBatch>
    requires |bytes| <= MaxFileLength
  {
    FragmentsUpTo(bytes, filename, id, FragmentCount(|bytes|))
  }

  lemma {:induction false} FragmentsUpToIndex(bytes: seq<byte>, filename: string, id: Guid, k: nat)
    requires |bytes| <= MaxFileLength && k <= FragmentCount(|bytes|)
    ensures forall i | 0 <= i < k :: FragmentsUpTo(bytes, filename, id, k)[i] == FragmentAt(bytes, filename, id, i)
  {
    if k > 0 {
      FragmentsUpToIndex(bytes, filename, id, k - 1);
    }
  }

  /**
   * The shape of the fragments: as many as `FragmentCount` says, none for an
   * empty file; fragment `i` has sequence number `i`, a payload of
   * `min(8192, n - 8192 i)` bytes, the first-fragment flag, the file name and
   * the size exactly when it is fragment 0, and the last-fragment flag
   * exactly when it is the final one.
   */
  lemma FragmentsShape(bytes: seq<byte>, filename: string, id: Guid)
    requires |bytes| <= MaxFileLength
    ensures var fs := Fragments(bytes, filename, id);
      && (|bytes| == 0 <==> fs == [])
      && |fs| == FragmentCount(|bytes|)
      && forall i | 0 <= i < |fs| ::
           && fs[i].transferId == id && fs[i].kind == FileFragment && fs[i].sequence == i
           && |Payload(fs[i])| == (if |bytes| - i * FragmentSize < FragmentSize then |bytes| - i * FragmentSize else FragmentSize)
           && HasPayload(fs[i])
           && (fs[i].isFirst <==> i == 0)
           && (fs[i].filename == if i == 0 then Some(filename) else None)
           && (fs[i].originalSize == if i == 0 then Some(|bytes|) else None)
           && (fs[i].isLast <==> i == |fs| - 1)
  {
    FragmentsUpToIndex(bytes, filename, id, FragmentCount(|bytes|));
  }

  /** The bytes of the first `j` fragments are the first `min(8192 j, n)` bytes of the file. */
  lemma {:induction false} FragmentsPrefix(bytes: seq<byte>, filename: string, id: Guid, j: nat)
    requires |bytes| <= MaxFileLength && j <= FragmentCount(|bytes|)
    ensures Payloads(FragmentsUpTo(bytes, filename, id, j)) == bytes[..Covered(|bytes|, j)]
  {
    if j > 0 {
      var init := FragmentsUpTo(bytes, filename, id, j - 1);
      var f := FragmentAt(bytes, filename, id, j - 1);
      FragmentsPrefix(bytes, filename, id, j - 1);
      var fs := init + [f];
      assert fs[..j - 1] == init;
      var lo := Covered(|bytes|, j - 1);
      var hi := Covered(|bytes|, j);
      CoveredStep(|bytes|, j - 1);
      assert fs[|fs| - 1] == f;
      assert Payloads(fs) == Payloads(init) + Payload(f);
      assert Payload(f) == bytes[lo..hi];
      assert bytes[..lo] + bytes[lo..hi] == bytes[..hi];
    }
  }

  /** The fragments carry the whole file, end to end. */
  lemma FragmentsConcat(bytes: seq<byte>, filename: string, id: Guid)
    requires |bytes| <= MaxFileLength
    ensures Payloads(Fragments(bytes, filename, id)) == bytes
  {
    FragmentsPrefix(bytes, filename, id, FragmentCount(|bytes|));
  }

  /** `s` cut into consecutive runs of `BatchSize`, the last run possibly shorter. */
  function Chunks(s: seq<DataBatch>): seq<DataBatchContainer>
    decreases |s|
  {
    if s == [] then []
    else if |s| <= BatchSize then [s]
    else [s[..BatchSize]] + Chunks(s[BatchSize..])
  }

  /**
   * The containers are the batches end to end, each non-empty and at most
   * `BatchSize` long, every one but the last exactly `BatchSize` long.
   */
  lemma {:induction false} ChunksShape(s: seq<DataBatch>)
    ensures Flatten(Chunks(s)) == s
    ensures |Chunks(s)| == (|s| + BatchSize - 1) / BatchSize
    ensures forall k | 0 <= k < |Chunks(s)| :: 0 < |Chunks(s)[k]| <= BatchSize
    ensures forall k | 0 <= k < |Chunks(s)| - 1 :: |Chunks(s)[k]| == BatchSize
    decreases |s|
  {
    if s == [] {
    } else if |s| <= BatchSize {
      assert Flatten([s]) == Flatten([]) + s;
    } else {
      var rest := Chunks(s[BatchSize..]);
      ChunksShape(s[BatchSize..]);
      FlattenCons(s[..BatchSize], rest);
      assert s[..BatchSize] + s[BatchSize..] == s;
    }
  }

  lemma {:induction false} FlattenCons(c: DataBatchContainer, cs: seq<DataBatchContainer>)
    ensures Flatten([c] + cs) == c + Flatten(cs)
    decreases |cs|
  {
    if cs == [] {
      assert [c] + cs == [c];
      assert Flatten([c]) == Flatten([]) + c;
    } else {
      var n := |cs|;
      assert ([c] + cs)[..n] == [c] + cs[..n - 1];
      FlattenCons(c, cs[..n - 1]);
    }
  }

  /** Runs of a prefix that fills whole runs stay whole. */
  lemma {:induction false} ChunksAppend(p: seq<DataBatch>, q: seq<DataBatch>, m: nat)
    requires |p| == BatchSize * m
    ensures Chunks(p + q) == Chunks(p) + Chunks(q)
    decreases m
  {
    if m == 0 {
      assert p + q == q;
    } else {
      assert |p| >= BatchSize;
      assert (p + q)[..BatchSize] == p[..BatchSize];
      assert (p + q)[BatchSize..] == p[BatchSize..] + q;
      if |p| == BatchSize {
        assert p[BatchSize..] == [];
        assert Chunks(p) == [p];
        assert p[BatchSize..] + q == q;
        if q == [] {
          assert p + q == p;
        }
      } else {
        ChunksAppend(p[BatchSize..], q, m - 1);
      }
    }
  }

  /** One `SendData` request to `recipient` per container, in order. */
  function Addressed(recipient: string, cs: seq<DataBatchContainer>): (rs: seq<SendDataRequest>)
    ensures |rs| == |cs|
  {
    if cs == [] then [] else Addressed(recipient, cs[..|cs| - 1]) + [SendDataRequest(recipient, cs[|cs| - 1])]
  }

  /** Every request goes to `recipient` and carries its container. */
  lemma {:induction false} AddressedMeaning(recipient: string, cs: seq<DataBatchContainer>)
    ensures forall k | 0 <= k < |cs| :: Addressed(recipient, cs)[k] == SendDataRequest(recipient, cs[k])
  {
    if cs != [] {
      AddressedMeaning(recipient, cs[..|cs| - 1]);
    }
  }

  /** The running totals of payload bytes after each container of `cs`. */
  function Progress(cs: seq<DataBatchContainer>): (r: seq<nat>)
    ensures |r| == |cs|
  {
    if cs == [] then [] else Progress(cs[..|cs| - 1]) + [|Payloads(Flatten(cs))|]
  }

  /** Entry `k` of the running totals counts the payload bytes of the first `k + 1` containers. */
  lemma {:induction false} ProgressMeaning(cs: seq<DataBatchContainer>)
    ensures forall k | 0 <= k < |cs| :: Progress(cs)[k] == |Payloads(Flatten(cs[..k + 1]))|
  {
    if cs != [] {
      var init := cs[..|cs| - 1];
      ProgressMeaning(init);
      forall k | 0 <= k < |cs| ensures Progress(cs)[k] == |Payloads(Flatten(cs[..k + 1]))| {
        if k < |init| {
          assert init[..k + 1] == cs[..k + 1];
        } else {
          assert cs[..k + 1] == cs;
        }
      }
    }
  }

  /** After the last request of a non-empty file the running total is the file's length. */
  lemma FinalProgress(bytes: seq<byte>, filename: string, id: Guid)
    requires 0 < |bytes| <= MaxFileLength
    ensures var cs := Chunks(Fragments(bytes, filename, id));
      |cs| > 0 && Progress(cs)[|cs| - 1] == |bytes|
  {
    var fs := Fragments(bytes, filename, id);
    var cs := Chunks(fs);
    FragmentsShape(bytes, filename, id);
    ChunksShape(fs);
    FragmentsConcat(bytes, filename, id);
    ProgressMeaning(cs);
    assert cs[..|cs|] == cs;
  }

  /** The guard at the top of `SendFileAsync`: a live connection and both aliases present. */
  predicate CanSend(connected: bool, clientAlias: Option<string>, recipientAlias: Option<string>) {
    && connected
    && clientAlias.Some? && |clientAlias.value| > 0
    && recipientAlias.Some? && |recipientAlias.value| > 0
  }

  /**
   * How many of `count` relay calls return when call number `failsAt`, if
   * any, throws: the calls before it.
   */
  function Delivered(failsAt: Option<nat>, count: nat): nat {
    if failsAt.Some? && failsAt.value < count then failsAt.value else count
  }

  /**
   * `SendFileAsync` for a file whose bytes are `fileBytes`, sent as transfer
   * `transferId`. Each relay call that returns is recorded in `sent`;
   * `progress[k]` is the sender's `offset` after call `k`. Relay call number
   * `failsAt`, if any, throws: the `catch` abandons the rest of the file and
   * the closing report of the fragment count, `fragmentCount`, is not made.
   */
  method SendFile(fileBytes: seq<byte>, filename: string, transferId: Guid, connected: bool,
                  clientAlias: Option<string>, recipientAlias: Option<string>, failsAt: Option<nat>)
    returns (sent: seq<SendDataRequest>, progress: seq<nat>, fragmentCount: Option<nat>)
    requires |fileBytes| <= MaxFileLength
    ensures !CanSend(connected, clientAlias, recipientAlias) ==> sent == [] && progress == [] && fragmentCount == None
    ensures CanSend(connected, clientAlias, recipientAlias) ==>
      var fs := Fragments(fileBytes, filename, transferId);
      var containers := Chunks(fs);
      var n := Delivered(failsAt, |containers|);
      && sent == Addressed(recipientAlias.value, containers[..n])
      && progress == Progress(containers[..n])
      && fragmentCount == if n == |containers| then Some(|fs|) else None
  {
    sent, progress, fragmentCount := [], [], None;
    if !CanSend(connected, clientAlias, recipientAlias) {
      return;
    }
    var recipient := recipientAlias.value;
    var total := |fileBytes|;
    var sequence: nat := 0;
    var offset: nat := 0;
    var current: seq<DataBatch> := [];
    ghost var flushed: nat := 0;
    ghost var prefix: seq<DataBatch> := [];
    ghost var containers: seq<DataBatchContainer> := [];
    while offset < total
      invariant sequence <= FragmentCount(total) && flushed <= sequence
      invariant offset == Covered(total, sequence)
      invariant offset < total ==> sequence < FragmentCount(total) && flushed == BatchSize * |sent|
      invariant offset == total ==> sequence == FragmentCount(total) && current == []
      invariant |current| < BatchSize
      invariant prefix == FragmentsUpTo(fileBytes, filename, transferId, flushed)
      invariant prefix + current == FragmentsUpTo(fileBytes, filename, transferId, sequence)
      invariant containers == Chunks(prefix)
      invariant sent == Addressed(recipient, containers)
      invariant progress == Progress(containers)
      invariant failsAt.Some? ==> |sent| <= failsAt.value
    {
      FragmentFromOffset(fileBytes, filename, transferId, sequence);
      var bytesToSend := if FragmentSize < total - offset then FragmentSize else total - offset;
      var isFirst := offset == 0;
      var isLast := offset + bytesToSend >= total;
      var batch := DataBatch(transferId, FileFragment, sequence, isFirst, isLast,
                             Some(fileBytes[offset..offset + bytesToSend]),
                             if isFirst then Some(filename) else None,
                             if isFirst then Some(total) else None);
      assert batch == FragmentAt(fileBytes, filename, transferId, sequence);
      NextFragment(fileBytes, filename, transferId, sequence, prefix, current);
      current := current + [batch];
      offset := offset + bytesToSend;
      sequence := sequence + 1;
      if |current| >= BatchSize || isLast {
        if failsAt.Some? && failsAt.value == |sent| {
          Abandoned(fileBytes, filename, transferId, flushed, recipient, prefix, sent, progress);
          return;
        }
        var request := SendDataRequest(recipient, current);
        Flushed(fileBytes, filename, transferId, sequence, recipient, prefix, current, sent, progress);
        prefix := prefix + current;
        assert prefix + [] == prefix;
        containers := Chunks(prefix);
        sent := sent + [request];
        progress := progress + [offset];
        current := [];
        flushed := sequence;
      }
    }
    FinishedAll(fileBytes, filename, transferId, recipient, prefix, sent, progress);
    fragmentCount := Some(sequence);
  }

  /** One more fragment extends the fragments sent so far. */
  lemma NextFragment(bytes: seq<byte>, filename: string, id: Guid, k: nat,
                     prefix: seq<DataBatch>, current: seq<DataBatch>)
    requires |bytes| <= MaxFileLength && k < FragmentCount(|bytes|)
    requires prefix + current == FragmentsUpTo(bytes, filename, id, k)
    ensures prefix + (current + [FragmentAt(bytes, filename, id, k)]) == FragmentsUpTo(bytes, filename, id, k + 1)
  {
    assert (prefix + current) + [FragmentAt(bytes, filename, id, k)] == prefix + (current + [FragmentAt(bytes, filename, id, k)]);
  }

  /**
   * Flushing the fragments since the last flush, after whole containers
   * already sent, adds one request carrying them and one running total: the
   * bytes the first `k` fragments cover.
   */
  lemma Flushed(bytes: seq<byte>, filename: string, id: Guid, k: nat, recipient: string,
                prefix: seq<DataBatch>, current: seq<DataBatch>,
                sent: seq<SendDataRequest>, progress: seq<nat>)
    requires |bytes| <= MaxFileLength && k <= FragmentCount(|bytes|)
    requires 0 < |current| <= BatchSize && |prefix| == BatchSize * |sent|
    requires prefix + current == FragmentsUpTo(bytes, filename, id, k)
    requires sent == Addressed(recipient, Chunks(prefix)) && progress == Progress(Chunks(prefix))
    ensures sent + [SendDataRequest(recipient, current)] == Addressed(recipient, Chunks(prefix + current))
    ensures progress + [Covered(|bytes|, k)] == Progress(Chunks(prefix + current))
  {
    FlushStep(prefix, current, |sent|, recipient);
    FlushedBytes(bytes, filename, id, k);
  }

  /** The first `k` fragments are a prefix of all of them. */
  lemma FragmentsUpToPrefix(bytes: seq<byte>, filename: string, id: Guid, k: nat)
    requires |bytes| <= MaxFileLength && k <= FragmentCount(|bytes|)
    ensures FragmentsUpTo(bytes, filename, id, k) == Fragments(bytes, filename, id)[..k]
  {
    FragmentsUpToIndex(bytes, filename, id, k);
    FragmentsUpToIndex(bytes, filename, id, FragmentCount(|bytes|));
  }

  /**
   * When the sender stops after whole containers, with fragments still to
   * go, the requests made so far are the first requests of a complete send.
   */
  lemma Abandoned(bytes: seq<byte>, filename: string, id: Guid, k: nat, recipient: string,
                  prefix: seq<DataBatch>, sent: seq<SendDataRequest>, progress: seq<nat>)
    requires |bytes| <= MaxFileLength && k < FragmentCount(|bytes|)
    requires prefix == FragmentsUpTo(bytes, filename, id, k) && |prefix| == BatchSize * |sent|
    requires sent == Addressed(recipient, Chunks(prefix)) && progress == Progress(Chunks(prefix))
    ensures var containers := Chunks(Fragments(bytes, filename, id));
      && |sent| < |containers|
      && sent == Addressed(recipient, containers[..|sent|])
      && progress == Progress(containers[..|sent|])
  {
    var all := Fragments(bytes, filename, id);
    var m := |sent|;
    FragmentsUpToPrefix(bytes, filename, id, k);
    assert all == prefix + all[k..];
    ChunksAppend(prefix, all[k..], m);
    ChunksShape(prefix);
    assert (|prefix| + BatchSize - 1) / BatchSize == m;
    ChunksShape(all[k..]);
    assert Chunks(all)[..m] == Chunks(prefix);
  }

  /**
   * A send abandoned after `n` of its containers, with fragments still to
   * go, leaves the receiver holding a half-built entry for the transfer: the
   * bytes of those containers, a proper prefix of the file, with every other
   * transfer as it was. No later fragment of the transfer will come to
   * complete or remove it.
   */
  lemma AbandonedLeavesPending(reg: Transfers, bytes: seq<byte>, filename: string, id: Guid, n: nat)
    requires |bytes| <= MaxFileLength
    requires 0 < n < |Chunks(Fragments(bytes, filename, id))|
    ensures var after := StepAll(reg, Flatten(Chunks(Fragments(bytes, filename, id))[..n])).0;
      && id in after
      && after[id].buffer == bytes[..Covered(|bytes|, BatchSize * n)]
      && Covered(|bytes|, BatchSize * n) < |bytes|
      && after - {id} == reg - {id}
  {
    SentContainers(bytes, filename, id, n);
    PendingPrefix(reg, bytes, filename, id, BatchSize * n);
  }

  /** The first `n` of several containers carry the first `50 n` fragments, not all of them. */
  lemma SentContainers(bytes: seq<byte>, filename: string, id: Guid, n: nat)
    requires |bytes| <= MaxFileLength
    requires 0 < n < |Chunks(Fragments(bytes, filename, id))|
    ensures var fs := Fragments(bytes, filename, id);
      && BatchSize * n < |fs|
      && Flatten(Chunks(fs)[..n]) == fs[..BatchSize * n]
  {
    var fs := Fragments(bytes, filename, id);
    var k := BatchSize * n;
    ChunksShape(fs);
    assert k < |fs|;
    var p := fs[..k];
    assert fs == p + fs[k..];
    ChunksAppend(p, fs[k..], n);
    ChunksShape(p);
    assert Chunks(fs)[..n] == Chunks(p);
  }

  /**
   * A receiver given only the first `k` fragments of the file, fewer than
   * all, holds them collected in the transfer's entry.
   */
  lemma PendingPrefix(reg: Transfers, bytes: seq<byte>, filename: string, id: Guid, k: nat)
    requires |bytes| <= MaxFileLength
    requires 0 < k < |Fragments(bytes, filename, id)|
    ensures var after := StepAll(reg, Fragments(bytes, filename, id)[..k]).0;
      && id in after
      && after[id].buffer == bytes[..Covered(|bytes|, k)]
      && Covered(|bytes|, k) < |bytes|
      && after - {id} == reg - {id}
  {
    var fs := Fragments(bytes, filename, id);
    FragmentsShape(bytes, filename, id);
    assert k * FragmentSize <= (|fs| - 1) * FragmentSize;
    assert InOrder(fs, id);
    InOrderPrefix(fs, id, k);
    InOrderAccumulates(reg, fs[..k], id);
    FragmentsUpToPrefix(bytes, filename, id, k);
    FragmentsPrefix(bytes, filename, id, k);
  }

  /** After the loop every container was sent. */
  lemma FinishedAll(bytes: seq<byte>, filename: string, id: Guid, recipient: string,
                    prefix: seq<DataBatch>, sent: seq<SendDataRequest>, progress: seq<nat>)
    requires |bytes| <= MaxFileLength
    requires prefix == FragmentsUpTo(bytes, filename, id, FragmentCount(|bytes|))
    requires sent == Addressed(recipient, Chunks(prefix)) && progress == Progress(Chunks(prefix))
    ensures var containers := Chunks(Fragments(bytes, filename, id));
      && |sent| == |containers|
      && sent == Addressed(recipient, containers[..|sent|])
      && progress == Progress(containers[..|sent|])
  {
    var containers := Chunks(Fragments(bytes, filename, id));
    assert containers[..|containers|] == containers;
  }

  /** Fragment `i` as the sender builds it from its running offset. */
  lemma FragmentFromOffset(bytes: seq<byte>, filename: string, id: Guid, i: nat)
    requires |bytes| <= MaxFileLength && i < FragmentCount(|bytes|)
    ensures var n := |bytes|;
      var lo := Covered(n, i);
      var len := if FragmentSize < n - lo then FragmentSize else n - lo;
      && lo < n && lo + len == Covered(n, i + 1)
      && (lo + len >= n <==> i + 1 == FragmentCount(n))
      && FragmentAt(bytes, filename, id, i) ==
           DataBatch(id, FileFragment, i, lo == 0, lo + len >= n, Some(bytes[lo..lo + len]),
                     if lo == 0 then Some(filename) else None,
                     if lo == 0 then Some(n) else None)
  {
  }

  /**
   * Flushing `current`, the fragments since the last flush, after `prefix`,
   * the `m` full containers already sent, extends the requests and the
   * running totals by one container.
   */
  lemma FlushStep(prefix: seq<DataBatch>, current: seq<DataBatch>, m: nat, recipient: string)
    requires 0 < |current| <= BatchSize && |prefix| == BatchSize * m
    ensures var before := Chunks(prefix);
      var after := Chunks(prefix + current);
      && Addressed(recipient, after) == Addressed(recipient, before) + [SendDataRequest(recipient, current)]
      && Progress(after) == Progress(before) + [|Payloads(Flatten(after))|]
  {
    var before := Chunks(prefix);
    ChunksAppend(prefix, current, m);
    assert Chunks(current) == [current];
    assert (before + [current])[..|before|] == before;
  }

  /** The containers for the first `j` fragments carry the bytes those fragments cover. */
  lemma FlushedBytes(bytes: seq<byte>, filename: string, id: Guid, j: nat)
    requires |bytes| <= MaxFileLength && j <= FragmentCount(|bytes|)
    ensures |Payloads(Flatten(Chunks(FragmentsUpTo(bytes, filename, id, j))))| == Covered(|bytes|, j)
  {
    FragmentsPrefix(bytes, filename, id, j);
    ChunksShape(FragmentsUpTo(bytes, filename, id, j));
  }

  /**
   * Sending then receiving: fed in order into the registry, from any state,
   * the fragments of a non-empty file complete its transfer with exactly the
   * file's bytes, its name and its size, and leave no entry behind; every
   * fragment before the last is accepted.
   */
  lemma SendThenReceive(reg: Transfers, bytes: seq<byte>, filename: string, id: Guid)
    requires 0 < |bytes| <= MaxFileLength
    ensures var fs := Fragments(bytes, filename, id);
      var r := StepAll(reg, fs);
      && Flatten(Chunks(fs)) == fs
      && r.0 == reg - {id}
      && (forall i | 0 <= i < |fs| - 1 :: r.1[i] == Accepted)
      && r.1[|fs| - 1] == Completed(StateView(id, FileFragment, bytes, Wrap32(|fs|), Some(filename), Some(|bytes|)))
  {
    var fs := Fragments(bytes, filename, id);
    FragmentsShape(bytes, filename, id);
    ChunksShape(fs);
    FragmentsConcat(bytes, filename, id);
    assert InOrder(fs, id);
    InOrderCompletes(reg, fs, id);
  }
}
