/**
 * The transfer protocol's data model: the `DataBatch` unit, its container,
 * the batch kinds and the 128-bit transfer identifier, plus the 32-bit
 * integer arithmetic the sequence counters use.
 */
module Protocol {
  import opened Wrappers
  import opened Strings

  newtype byte = x: int | 0 <= x < 0x100

  /** A C# `int`. */
  type Int32 = x: int | Int32Min <= x <= Int32Max

  /** `x++` on a C# `int` in the default unchecked context: the maximum wraps to the minimum. */
  function Int32Succ(x: Int32): (r: Int32)
    ensures (r - x - 1) % 0x1_0000_0000 == 0
  {
    if x == Int32Max then Int32Min else x + 1
  }

  /** The C# `int` a counter holds after `n` increments from zero. */
  function Wrap32(n: nat): (r: Int32)
    ensures n <= Int32Max ==> r == n
  {
    (n + 0x8000_0000) % 0x1_0000_0000 - 0x8000_0000
  }

  /** Incrementing the counter once more is counting one more. */
  lemma Wrap32Succ(n: nat)
    ensures Int32Succ(Wrap32(n)) == Wrap32(n + 1)
  {
    var m := (n + 0x8000_0000) % 0x1_0000_0000;
    if m == 0xFFFF_FFFF {
      assert (n + 1 + 0x8000_0000) % 0x1_0000_0000 == 0;
    } else {
      assert (n + 1 + 0x8000_0000) % 0x1_0000_0000 == m + 1;
    }
  }

  /** A `Guid`, as the 128-bit number its canonical text spells in hexadecimal. */
  newtype Guid = x: int | 0 <= x < 0x1_0000_0000_0000_0000_0000_0000_0000_0000

  const HexAlphabet: set<char> := {'0', '1', '2', '3', '4', '5', '6', '7', '8', '9', 'a', 'b', 'c', 'd', 'e', 'f'}

  function HexChar(d: nat): (c: char)
    requires d < 16
    ensures c in HexAlphabet
  {
    if d < 10 then DigitChar(d) else ((d - 10 + 'a' as int) as char)
  }

  /** The last `n` hexadecimal digits of `v`, most significant first, lower case. */
  function HexDigits(v: nat, n: nat): (s: string)
    ensures |s| == n && AllIn(s, HexAlphabet)
  {
    if n == 0 then [] else HexDigits(v / 16, n - 1) + [HexChar(v % 16)]
  }

  /** `Guid.ToString()`: 32 lower-case hexadecimal digits grouped 8-4-4-4-12. */
  function GuidText(g: Guid): (s: string)
    ensures |s| == 36 && AllIn(s, HexAlphabet + {'-'})
  {
    var d := HexDigits(g as nat, 32);
    d[..8] + "-" + d[8..12] + "-" + d[12..16] + "-" + d[16..20] + "-" + d[20..]
  }

  /** The two kinds of batch; any other tag value is carried as `Unknown`. */
  datatype MessageType = IpPacket | FileFragment | Unknown(tag: int)

  /**
   * One batch. `data`, `filename` and `originalSize` are nullable in the
   * source; the sender sets `filename` and `originalSize` on a file's first
   * fragment only.
   */
  datatype DataBatch = DataBatch(
    transferId: Guid,
    kind: MessageType,
    sequence: Int32,
    isFirst: bool,
    isLast: bool,
    data: Option<seq<byte>>,
    filename: Option<string>,
    originalSize: Option<int>)

  /** A `DataBatchContainer`: the batches of one relay call, in order. */
  type DataBatchContainer = seq<DataBatch>

  /** What the relay is asked to deliver in one `SendData` call. */
  datatype SendDataRequest = SendDataRequest(recipientAlias: string, container: DataBatchContainer)

  /** The bytes a batch carries; a null payload carries none. */
  function Payload(b: DataBatch): seq<byte> {
    if b.data.Some? then b.data.value else []
  }

  /** A batch the receiver does not discard on sight: its payload is present and non-empty. */
  predicate HasPayload(b: DataBatch) {
    b.data.Some? && |b.data.value| > 0
  }

  /** The payloads of `bs`, end to end. */
  function Payloads(bs: seq<DataBatch>): seq<byte> {
    if bs == [] then [] else Payloads(bs[..|bs| - 1]) + Payload(bs[|bs| - 1])
  }

  /** The batches of the containers, end to end. */
  function Flatten(cs: seq<DataBatchContainer>): DataBatchContainer {
    if cs == [] then [] else Flatten(cs[..|cs| - 1]) + cs[|cs| - 1]
  }

  lemma {:induction false} PayloadsAppend(a: seq<DataBatch>, b: seq<DataBatch>)
    ensures Payloads(a + b) == Payloads(a) + Payloads(b)
  {
    if b == [] {
      assert a + b == a;
    } else {
      assert (a + b)[..|a + b| - 1] == a + b[..|b| - 1];
      PayloadsAppend(a, b[..|b| - 1]);
    }
  }
}
