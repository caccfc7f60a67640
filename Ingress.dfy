/**
 * The inbound half of the client: the `ReceiveDataBatch` handler that walks
 * one container from the relay, hands file fragments to the transfer
 * registry and injects raw IP packets into the virtual device.
 */
module Ingress {
  import opened Wrappers
  import opened Protocol
  import opened Registry

  /** The batches of `c` the handler passes to the registry, in order. */
  function FileFragments(c: DataBatchContainer): (r: seq<DataBatch>)
    ensures |r| <= |c|
    ensures forall k | 0 <= k < |r| :: r[k].kind == FileFragment && HasPayload(r[k])
  {
    if c == [] then []
    else
      var b := c[|c| - 1];
      if HasPayload(b) && b.kind == FileFragment then FileFragments(c[..|c| - 1]) + [b]
      else FileFragments(c[..|c| - 1])
  }

  /**
   * The packets the handler writes into the device, in order: the payloads
   * of the raw-packet batches that carry one, provided the device session is
   * up and the device found room for the packet (`hasRoom[i]` for the
   * batch at position `i`).
   */
  function Injected(c: DataBatchContainer, hasRoom: seq<bool>, sessionActive: bool): (r: seq<seq<byte>>)
    requires |hasRoom| == |c|
    ensures |r| <= |c|
    ensures !sessionActive ==> r == []
    ensures forall k | 0 <= k < |r| :: |r[k]| > 0
  {
    if c == [] then []
    else
      var b := c[|c| - 1];
      var prev := Injected(c[..|c| - 1], hasRoom[..|c| - 1], sessionActive);
      if HasPayload(b) && b.kind == IpPacket && sessionActive && hasRoom[|c| - 1] then prev + [b.data.value]
      else prev
  }

  /** The raw-packet batches of `c` that carry a payload. */
  function IpPackets(c: DataBatchContainer): (n: nat)
    ensures n <= |c|
  {
    if c == [] then 0
    else
      var b := c[|c| - 1];
      IpPackets(c[..|c| - 1]) + if HasPayload(b) && b.kind == IpPacket then 1 else 0
  }

  /** The number of bytes in `ps`. */
  function TotalLength(ps: seq<seq<byte>>): nat {
    if ps == [] then 0 else TotalLength(ps[..|ps| - 1]) + |ps[|ps| - 1]|
  }

  /** What the handler reports about one container. */
  datatype Report = Report(ipPacketCount: nat, ipBytesCount: nat, fileFragCount: nat, injected: seq<seq<byte>>)

  /**
   * The report after one more batch: `hasRoom` says whether the device could
   * take the packet. When the session is down a raw packet is counted though
   * not injected.
   */
  function Tally(r: Report, b: DataBatch, sessionActive: bool, hasRoom: bool): Report {
    if !HasPayload(b) then r
    else match b.kind
      case FileFragment => r.(fileFragCount := r.fileFragCount + 1)
      case IpPacket =>
        if !sessionActive then r.(ipPacketCount := r.ipPacketCount + 1)
        else if hasRoom then
          Report(r.ipPacketCount + 1, r.ipBytesCount + |b.data.value|, r.fileFragCount, r.injected + [b.data.value])
        else r
      case Unknown(_) => r
  }

  /** The report for a whole container. */
  function TallyAll(c: DataBatchContainer, hasRoom: seq<bool>, sessionActive: bool): Report
    requires |hasRoom| == |c|
  {
    if c == [] then Report(0, 0, 0, [])
    else Tally(TallyAll(c[..|c| - 1], hasRoom[..|c| - 1], sessionActive), c[|c| - 1], sessionActive, hasRoom[|c| - 1])
  }

  /**
   * The report agrees with the reference definitions: the injected packets
   * are `Injected`, the file-fragment count is the number of fragments the
   * registry saw, the byte count is the size of the injected packets, and the
   * packet count is the injected packets, or every raw packet when the
   * session is down.
   */
  lemma {:induction false} TallyAllMeaning(c: DataBatchContainer, hasRoom: seq<bool>, sessionActive: bool)
    requires |hasRoom| == |c|
    ensures var r := TallyAll(c, hasRoom, sessionActive);
      && r.injected == Injected(c, hasRoom, sessionActive)
      && r.fileFragCount == |FileFragments(c)|
      && r.ipBytesCount == TotalLength(r.injected)
      && r.ipPacketCount == if sessionActive then |r.injected| else IpPackets(c)
  {
    if c != [] {
      TallyAllMeaning(c[..|c| - 1], hasRoom[..|c| - 1], sessionActive);
      var r := TallyAll(c[..|c| - 1], hasRoom[..|c| - 1], sessionActive);
      var b := c[|c| - 1];
      if HasPayload(b) && b.kind == IpPacket && sessionActive && hasRoom[|c| - 1] {
        assert (r.injected + [b.data.value])[..|r.injected|] == r.injected;
      }
    }
  }

  /**
   * One pass of the handler's loop: a batch without a payload is skipped, a
   * file fragment goes to the registry, a raw packet is injected when the
   * session is up and the device has room.
   */
  method Dispatch(registry: TransferRegistry, batch: DataBatch, report: Report,
                  sessionActive: bool, hasRoom: bool, invalid: set<char>, written: bool)
    returns (next: Report)
    requires registry.Valid()
    modifies registry, registry.active.Values
    ensures registry.Valid()
    ensures registry.Contents ==
      if HasPayload(batch) && batch.kind == FileFragment then Step(old(registry.Contents), batch).0
      else old(registry.Contents)
    ensures next == Tally(report, batch, sessionActive, hasRoom)
    ensures forall s | s in registry.active.Values :: s in old(registry.active.Values) || fresh(s)
  {
    next := report;
    if batch.data.None? || |batch.data.value| == 0 {
      return;
    }
    match batch.kind {
      case FileFragment =>
        next := next.(fileFragCount := next.fileFragCount + 1);
        var _, _ := registry.HandleFileFragment(batch, invalid, written);
      case IpPacket =>
        if !sessionActive {
          next := next.(ipPacketCount := next.ipPacketCount + 1);
        } else if hasRoom {
          next := Report(next.ipPacketCount + 1, next.ipBytesCount + |batch.data.value|,
                         next.fileFragCount, next.injected + [batch.data.value]);
        }
      case Unknown(_) =>
    }
  }

  /** What one more batch of the container adds to the reference definitions. */
  lemma OneMore(reg: Transfers, c: DataBatchContainer, hasRoom: seq<bool>, sessionActive: bool, i: nat)
    requires |hasRoom| == |c| && i < |c|
    ensures var before := StepAll(reg, FileFragments(c[..i])).0;
      StepAll(reg, FileFragments(c[..i + 1])).0 ==
        if HasPayload(c[i]) && c[i].kind == FileFragment then Step(before, c[i]).0 else before
    ensures TallyAll(c[..i + 1], hasRoom[..i + 1], sessionActive) ==
      Tally(TallyAll(c[..i], hasRoom[..i], sessionActive), c[i], sessionActive, hasRoom[i])
  {
    assert c[..i + 1][..i] == c[..i];
    assert hasRoom[..i + 1][..i] == hasRoom[..i];
    var fs := FileFragments(c[..i]);
    if HasPayload(c[i]) && c[i].kind == FileFragment {
      assert (fs + [c[i]])[..|fs|] == fs;
    }
  }

  /**
   * The `ReceiveDataBatch` handler. Batches without a payload are skipped;
   * file fragments go to the registry one at a time, exactly as `StepAll`
   * says; raw packets are injected into the device when its session is up and
   * `hasRoom` says the device could take them, and are otherwise dropped.
   * `written[i]` says whether saving succeeds if batch `i` completes a file.
   */
  method ReceiveDataBatch(registry: TransferRegistry, container: DataBatchContainer,
                          sessionActive: bool, hasRoom: seq<bool>, invalid: set<char>, written: seq<bool>)
    returns (report: Report)
    requires registry.Valid()
    requires |hasRoom| == |container| && |written| == |container|
    modifies registry, registry.active.Values
    ensures registry.Valid()
    ensures registry.Contents == StepAll(old(registry.Contents), FileFragments(container)).0
    ensures report == TallyAll(container, hasRoom, sessionActive)
  {
    report := Report(0, 0, 0, []);
    if |container| == 0 {
      return;
    }
    var i := 0;
    while i < |container|
      invariant 0 <= i <= |container|
      invariant registry.Valid()
      invariant registry.Contents == StepAll(old(registry.Contents), FileFragments(container[..i])).0
      invariant report == TallyAll(container[..i], hasRoom[..i], sessionActive)
      invariant forall s | s in registry.active.Values :: s in old(registry.active.Values) || fresh(s)
    {
      var batch := container[i];
      OneMore(old(registry.Contents), container, hasRoom, sessionActive, i);
      report := Dispatch(registry, batch, report, sessionActive, hasRoom[i], invalid, written[i]);
      i := i + 1;
    }
    assert container[..i] == container;
    assert hasRoom[..i] == hasRoom;
  }
}
