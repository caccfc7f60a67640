/**
 * `ParseCidr`: the `address/prefix` notation of section 3.1 of RFC 4632,
 * checked and turned into the network address and its dotted-decimal
 * netmask. The address check (`IPAddress.TryParse`) is a parameter.
 *
 * The mask arithmetic is done on 32-bit words as the source does it on a
 * C# `uint`. Bits and octets are numbered from the most significant end.
 */
module Cidr {
  import opened Wrappers
  import opened Strings

  /** What a successful `ParseCidr` hands back through its `out` parameters. */
  datatype Network = Network(address: string, mask: string)

  /** Bit `i` of `m`, bit 0 being the most significant. */
  predicate Bit(m: bv32, i: bv8)
    requires i < 32
  {
    (m >> (31 - i)) & 1 == 1
  }

  /** Octet `k` of `m`, octet 0 being the most significant. */
  function Octet(m: bv32, k: bv8): (o: nat)
    requires k < 4
    ensures o < 256
  {
    ((m >> (24 - 8 * k)) & 0xFF) as nat
  }

  /**
   * `prefixInt == 0 ? 0 : 0xFFFFFFFF << (32 - prefixInt)`: the word whose
   * top `prefix` bits are set. (C# takes a `uint` shift count modulo 32,
   * so a shift by 32 would leave the word unchanged; hence the special case.)
   */
  function MaskWord(prefix: nat): (m: bv32)
    requires prefix <= 32
    ensures forall i: bv8 | i < 32 :: Bit(m, i) <==> i < prefix as bv8
  {
    if prefix == 0 then 0 else 0xFFFF_FFFF << (32 - prefix as bv8)
  }

  /** The octets of `m` in order. */
  function Octets(m: bv32): (os: seq<nat>)
    ensures |os| == 4
    ensures forall k: bv8 | k < 4 :: os[k] == Octet(m, k)
  {
    [Octet(m, 0), Octet(m, 1), Octet(m, 2), Octet(m, 3)]
  }

  /** `IPAddress.ToString` of an IPv4 address: its octets in decimal, joined by dots. */
  function DottedQuad(os: seq<nat>): (s: string)
    requires |os| == 4
    ensures forall i | 0 <= i < |s| :: IsDigit(s[i]) || s[i] == '.'
  {
    Decimal(os[0]) + "." + Decimal(os[1]) + "." + Decimal(os[2]) + "." + Decimal(os[3])
  }

  /** The netmask of a prefix length, as text. */
  function MaskText(prefix: nat): string
    requires prefix <= 32
  {
    DottedQuad(Octets(MaskWord(prefix)))
  }

  /** Four dot-free parts joined by dots split back into those parts. */
  lemma SplitDots(a: string, b: string, c: string, d: string)
    requires NoneIn(a, {'.'}) && NoneIn(b, {'.'}) && NoneIn(c, {'.'}) && NoneIn(d, {'.'})
    ensures Split(a + "." + b + "." + c + "." + d, {'.'}) == [a, b, c, d]
  {
    var cd := c + ['.'] + d;
    var bcd := b + ['.'] + cd;
    assert a + "." + b + "." + c + "." + d == a + ['.'] + bcd;
    SplitNoSeparator(d, {'.'});
    SplitAround(c, '.', d, {'.'});
    SplitAround(b, '.', cd, {'.'});
    SplitAround(a, '.', bcd, {'.'});
  }

  /** A number in decimal has no dot in it and reads back as itself. */
  lemma OctetText(o: nat)
    requires o < 256
    ensures NoneIn(Decimal(o), {'.'}) && TryParseInt32(Decimal(o)) == Some(o)
  {
    ParseDecimal(o);
  }

  /** The dotted quad splits into the four octets again, each reading back as its value. */
  lemma DottedQuadRoundTrip(os: seq<nat>)
    requires |os| == 4 && forall k | 0 <= k < 4 :: os[k] < 256
    ensures var parts := Split(DottedQuad(os), {'.'});
      && |parts| == 4
      && forall k | 0 <= k < 4 :: TryParseInt32(parts[k]) == Some(os[k])
  {
    var d := [Decimal(os[0]), Decimal(os[1]), Decimal(os[2]), Decimal(os[3])];
    forall k | 0 <= k < 4 ensures NoneIn(d[k], {'.'}) {
      OctetText(os[k]);
    }
    SplitDots(d[0], d[1], d[2], d[3]);
    var parts := Split(DottedQuad(os), {'.'});
    forall k | 0 <= k < 4 ensures TryParseInt32(parts[k]) == Some(os[k]) {
      assert parts[k] == Decimal(os[k]);
      OctetText(os[k]);
    }
  }

  /**
   * The mask text reads back as four octets whose bits, taken most
   * significant first, are `prefix` ones followed by zeros.
   */
  lemma MaskTextMeaning(prefix: nat)
    requires prefix <= 32
    ensures var parts := Split(MaskText(prefix), {'.'});
      && |parts| == 4
      && forall k: bv8 | k < 4 :: TryParseInt32(parts[k]) == Some(Octet(MaskWord(prefix), k))
  {
    DottedQuadRoundTrip(Octets(MaskWord(prefix)));
  }

  /**
   * The `case` labels of the `switch (prefix)`: five prefix texts with a
   * fixed mask, each the mask its prefix length computes to.
   */
  function LiteralMask(prefix: string): (r: Option<string>)
    ensures r.Some? ==> TryParseInt32(prefix).Some? && 0 <= TryParseInt32(prefix).value <= 32
    ensures r.Some? ==> r.value == MaskText(TryParseInt32(prefix).value)
  {
    DecimalTexts();
    FixedMasks();
    ParseDecimal(0); ParseDecimal(8); ParseDecimal(16); ParseDecimal(24); ParseDecimal(32);
    if prefix == "32" then Some("255.255.255.255")
    else if prefix == "24" then Some("255.255.255.0")
    else if prefix == "16" then Some("255.255.0.0")
    else if prefix == "8" then Some("255.0.0.0")
    else if prefix == "0" then Some("0.0.0.0")
    else None
  }

  /** The decimal texts the fixed masks and prefixes are made of. */
  lemma DecimalTexts()
    ensures Decimal(0) == "0" && Decimal(8) == "8" && Decimal(16) == "16" && Decimal(24) == "24"
    ensures Decimal(25) == "25" && Decimal(32) == "32" && Decimal(128) == "128" && Decimal(255) == "255"
  {
    assert Decimal(1) == "1" && Decimal(2) == "2" && Decimal(3) == "3" && Decimal(12) == "12";
  }

  lemma FixedWords()
    ensures MaskWord(32) == 0xFFFF_FFFF && MaskWord(25) == 0xFFFF_FF80 && MaskWord(24) == 0xFFFF_FF00
    ensures MaskWord(16) == 0xFFFF_0000 && MaskWord(8) == 0xFF00_0000 && MaskWord(0) == 0
  {
  }

  lemma FixedMasks()
    ensures MaskText(32) == "255.255.255.255" && MaskText(24) == "255.255.255.0"
    ensures MaskText(16) == "255.255.0.0" && MaskText(8) == "255.0.0.0" && MaskText(0) == "0.0.0.0"
  {
    DecimalTexts();
    FixedWords();
    assert Octets(0xFFFF_FFFF) == [255, 255, 255, 255];
    assert Octets(0xFFFF_FF00) == [255, 255, 255, 0];
    assert Octets(0xFFFF_0000) == [255, 255, 0, 0];
    assert Octets(0xFF00_0000) == [255, 0, 0, 0];
    assert Octets(0) == [0, 0, 0, 0];
  }

  /**
   * The checks before the `switch`: not blank, a `/`, exactly two
   * `/`-separated parts, an address the platform accepts, and a prefix that
   * `int.TryParse` reads as a number from 0 to 32. Gives the address, the
   * prefix text and its value.
   */
  function Prefixed(cidr: string, validAddress: string -> bool): (r: Option<(string, string, nat)>)
    ensures r.Some? ==> r.value.2 <= 32
  {
    if IsNullOrWhiteSpace(Some(cidr)) || '/' !in cidr then None
    else
      var parts := Split(cidr, {'/'});
      if |parts| != 2 || !validAddress(parts[0]) then None
      else
        match TryParseInt32(parts[1])
        case None => None
        case Some(p) => if p < 0 || p > 32 then None else Some((parts[0], parts[1], p))
  }

  /** Without a `/` there is only one part, so the `Contains('/')` check adds nothing. */
  lemma SlashNeeded(cidr: string)
    ensures '/' !in cidr ==> |Split(cidr, {'/'})| == 1
  {
    if '/' !in cidr {
      SplitNoSeparator(cidr, {'/'});
    }
  }

  /**
   * `ParseCidr` with the `default:` branch computing the mask from the
   * prefix length: on success the address part and the mask of the prefix.
   */
  function ParseCidr(cidr: string, validAddress: string -> bool): (r: Option<Network>)
    ensures var parts := Split(cidr, {'/'});
      r.Some? <==>
        && !IsNullOrWhiteSpace(Some(cidr))
        && |parts| == 2 && validAddress(parts[0])
        && TryParseInt32(parts[1]).Some? && 0 <= TryParseInt32(parts[1]).value <= 32
    ensures var parts := Split(cidr, {'/'});
      r.Some? ==> r.value == Network(parts[0], MaskText(TryParseInt32(parts[1]).value))
  {
    SlashNeeded(cidr);
    match Prefixed(cidr, validAddress)
    case None => None
    case Some((address, prefix, p)) =>
      match LiteralMask(prefix)
      case Some(mask) =>
        Some(Network(address, mask))
      case None => Some(Network(address, MaskText(p)))
  }

  // ---------------------------------------------------------------------
  // The `default:` branch as written

  /** `IPAddress.HostToNetworkOrder` on a little-endian host: the octets in reverse order. */
  function ByteSwap(m: bv32): (r: bv32)
    ensures forall k: bv8 | k < 4 :: Octet(r, k) == Octet(m, 3 - k)
  {
    (m << 24) | ((m & 0xFF00) << 8) | ((m >> 8) & 0xFF00) | (m >> 24)
  }

  /**
   * The `default:` branch as written. `(int)maskUInt` keeps the bits;
   * `HostToNetworkOrder` reverses the octets; `new IPAddress(long)` widens
   * that `int` with its sign and throws for a negative value, which the
   * `catch` turns into failure; otherwise `ToString` prints the address's
   * octets least significant first.
   */
  function DefaultMaskAsWritten(prefix: nat): (r: Option<string>)
    requires prefix <= 32
    ensures r == if prefix >= 25 then None else Some(MaskText(prefix))
  {
    SwapBack(MaskWord(prefix));
    var swapped := ByteSwap(MaskWord(prefix));
    if Bit(swapped, 0) then None
    else Some(DottedQuad([Octet(swapped, 3), Octet(swapped, 2), Octet(swapped, 1), Octet(swapped, 0)]))
  }

  /** `ParseCidr` as written. Whatever it accepts, it reads as `ParseCidr` does. */
  function ParseCidrAsWritten(cidr: string, validAddress: string -> bool): (r: Option<Network>)
    ensures r.Some? ==> r == ParseCidr(cidr, validAddress)
  {
    match Prefixed(cidr, validAddress)
    case None => None
    case Some((address, prefix, p)) =>
      match LiteralMask(prefix)
      case Some(mask) => Some(Network(address, mask))
      case None =>
        match DefaultMaskAsWritten(p)
        case Some(mask) => Some(Network(address, mask))
        case None => None
  }

  /** Swapping the octets moves octet 3's top bit to the sign bit; reading the swap back to front restores the octets. */
  lemma SwapBack(m: bv32)
    ensures Bit(ByteSwap(m), 0) <==> Bit(m, 24)
    ensures [Octet(ByteSwap(m), 3), Octet(ByteSwap(m), 2), Octet(ByteSwap(m), 1), Octet(ByteSwap(m), 0)] == Octets(m)
  {
  }

  /**
   * The source as written agrees with `ParseCidr` except on a prefix from 25
   * to 32 that is not written exactly `32` (such as `25`, `30` or `032`),
   * where it fails.
   */
  lemma AsWrittenRejectsLongPrefixes(cidr: string, validAddress: string -> bool)
    ensures ParseCidrAsWritten(cidr, validAddress) ==
      match Prefixed(cidr, validAddress)
      case Some((_, prefix, p)) => if p >= 25 && LiteralMask(prefix).None? then None else ParseCidr(cidr, validAddress)
      case None => None
  {
  }

  /** `10.0.0.0/25` passes every check before the `switch`, with prefix 25. */
  lemma Slash25Prefixed(cidr: string, validAddress: string -> bool)
    requires cidr == "10.0.0.0/25" && validAddress("10.0.0.0")
    ensures Prefixed(cidr, validAddress) == Some(("10.0.0.0", "25", 25))
  {
    SplitSlash25(cidr);
    DecimalTexts();
    ParseDecimal(25);
    DigitNotWhite(cidr[0]);
    assert !IsNullOrWhiteSpace(Some(cidr));
    assert cidr[8] == '/';
  }

  lemma SplitSlash25(cidr: string)
    requires cidr == "10.0.0.0/25"
    ensures Split(cidr, {'/'}) == ["10.0.0.0", "25"]
  {
    assert cidr == "10.0.0.0" + ['/'] + "25";
    SplitNoSeparator("25", {'/'});
    SplitAround("10.0.0.0", '/', "25", {'/'});
  }

  lemma Mask25()
    ensures MaskText(25) == "255.255.255.128"
  {
    DecimalTexts();
    FixedWords();
    assert Octets(0xFFFF_FF80) == [255, 255, 255, 128];
  }

  /** `10.0.0.0/25` is refused as written, though its mask is `255.255.255.128`. */
  lemma Slash25(cidr: string, validAddress: string -> bool)
    requires cidr == "10.0.0.0/25" && validAddress("10.0.0.0")
    ensures ParseCidrAsWritten(cidr, validAddress) == None
    ensures ParseCidr(cidr, validAddress) == Some(Network("10.0.0.0", "255.255.255.128"))
  {
    Slash25Prefixed(cidr, validAddress);
    assert LiteralMask("25") == None;
    Mask25();
  }
}
