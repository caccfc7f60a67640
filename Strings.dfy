/**
 * The few .NET string operations the client relies on, written out over
 * `seq<char>`: `char.IsWhiteSpace`, `Trim`, `Split` (with and without
 * `RemoveEmptyEntries`), `string.Join`, `int.TryParse` and the decimal
 * rendering of small numbers.
 */
module Strings {
  import opened Wrappers

  /** The characters `char.IsWhiteSpace` accepts (the Unicode White_Space set). */
  const WhiteSpace: set<char> :=
    {'\t', '\n', '\U{B}', '\U{C}', '\r', ' ', '\U{85}', '\U{A0}', '\U{1680}',
     '\U{2000}', '\U{2001}', '\U{2002}', '\U{2003}', '\U{2004}', '\U{2005}',
     '\U{2006}', '\U{2007}', '\U{2008}', '\U{2009}', '\U{200A}',
     '\U{2028}', '\U{2029}', '\U{202F}', '\U{205F}', '\U{3000}'}

  /** The white space `int.TryParse` skips around a number (`NumberStyles.Integer`). */
  const NumberWhiteSpace: set<char> := {'\t', '\n', '\U{B}', '\U{C}', '\r', ' '}

  /** Every character of `s` lies in `cs`. */
  predicate AllIn(s: string, cs: set<char>) {
    forall i | 0 <= i < |s| :: s[i] in cs
  }

  lemma AllInSubset(s: string, a: set<char>, b: set<char>)
    requires AllIn(s, a) && a <= b
    ensures AllIn(s, b)
  {
  }

  /** No character of `s` lies in `cs`. */
  predicate NoneIn(s: string, cs: set<char>) {
    forall i | 0 <= i < |s| :: s[i] !in cs
  }

  /** `string.IsNullOrWhiteSpace`. */
  predicate IsNullOrWhiteSpace(s: Option<string>) {
    s.None? || AllIn(s.value, WhiteSpace)
  }

  lemma DigitNotWhite(c: char)
    requires IsDigit(c)
    ensures c !in WhiteSpace
  {
  }

  /** How many characters at the front of `s` lie in `cs`. */
  function Leading(s: string, cs: set<char>): (n: nat)
    ensures n <= |s|
    ensures forall i | 0 <= i < n :: s[i] in cs
    ensures n < |s| ==> s[n] !in cs
    decreases |s|
  {
    if s != [] && s[0] in cs then
      var m := Leading(s[1..], cs);
      assert forall i | 1 <= i < 1 + m :: s[i] == s[1..][i - 1];
      1 + m
    else
      0
  }

  /** How many characters at the back of `s` lie in `cs`. */
  function Trailing(s: string, cs: set<char>): (n: nat)
    ensures n <= |s|
    ensures forall i | |s| - n <= i < |s| :: s[i] in cs
    ensures n < |s| ==> s[|s| - n - 1] !in cs
  {
    if s != [] && s[|s| - 1] in cs then 1 + Trailing(s[..|s| - 1], cs) else 0
  }

  /** `s.TrimStart(cs)`: every leading character from `cs` removed. */
  function TrimStart(s: string, cs: set<char>): string {
    s[Leading(s, cs)..]
  }

  /** `s.TrimEnd(cs)`: every trailing character from `cs` removed. */
  function TrimEnd(s: string, cs: set<char>): string {
    s[..|s| - Trailing(s, cs)]
  }

  /** `s.Trim()`: both ends stripped of white space. */
  function Trim(s: string): (r: string)
    ensures exists i, j | 0 <= i <= j <= |s| :: r == s[i..j] && AllIn(s[..i], WhiteSpace) && AllIn(s[j..], WhiteSpace)
    ensures r == [] || (r[0] !in WhiteSpace && r[|r| - 1] !in WhiteSpace)
  {
    TrimBoth(s, WhiteSpace);
    TrimEnd(TrimStart(s, WhiteSpace), WhiteSpace)
  }

  /** Trimming both ends cuts out a middle part whose ends are kept characters. */
  lemma TrimBoth(s: string, cs: set<char>)
    ensures var r := TrimEnd(TrimStart(s, cs), cs);
      && (exists i, j | 0 <= i <= j <= |s| :: r == s[i..j] && AllIn(s[..i], cs) && AllIn(s[j..], cs))
      && (r == [] || (r[0] !in cs && r[|r| - 1] !in cs))
  {
    var i := Leading(s, cs);
    var t := s[i..];
    var k := Trailing(t, cs);
    var j := |s| - k;
    assert t[..|t| - k] == s[i..j];
    assert forall m | 0 <= m < i :: s[..i][m] == s[m];
    assert forall m | 0 <= m < k :: s[j..][m] == t[|t| - k + m];
  }

  /** Trimming yields nothing exactly when the string is all white space. */
  lemma TrimBlank(s: string)
    ensures Trim(s) == [] <==> AllIn(s, WhiteSpace)
  {
    TrimBothEmpty(s, WhiteSpace);
  }

  lemma TrimBothEmpty(s: string, cs: set<char>)
    ensures TrimEnd(TrimStart(s, cs), cs) == [] <==> AllIn(s, cs)
  {
    var i := Leading(s, cs);
    var t := s[i..];
    var k := Trailing(t, cs);
    forall m | i <= m < |s| ensures s[m] == t[m - i] {
    }
  }

  /** A string that does not start or end in white space is its own trim. */
  lemma TrimIdentity(s: string)
    requires s == [] || (s[0] !in WhiteSpace && s[|s| - 1] !in WhiteSpace)
    ensures Trim(s) == s
  {
  }

  /**
   * `s.Split(seps)`: the pieces between separator characters, empty pieces
   * included, so there is always one more piece than there are separators.
   */
  function Split(s: string, seps: set<char>): (parts: seq<string>)
    ensures |parts| >= 1
    ensures forall k | 0 <= k < |parts| :: NoneIn(parts[k], seps)
  {
    if s == [] then [""]
    else
      var rest := Split(s[1..], seps);
      if s[0] in seps then [""] + rest
      else [[s[0]] + rest[0]] + rest[1..]
  }

  /** The `RemoveEmptyEntries` filter. */
  function NonEmpty(parts: seq<string>): (r: seq<string>)
    ensures |r| <= |parts|
    ensures forall k | 0 <= k < |r| :: r[k] != [] && r[k] in parts
  {
    if parts == [] then []
    else if parts[0] == [] then NonEmpty(parts[1..])
    else [parts[0]] + NonEmpty(parts[1..])
  }

  /** `s.Split(seps, StringSplitOptions.RemoveEmptyEntries)`. */
  function SplitNonEmpty(s: string, seps: set<char>): (parts: seq<string>)
    ensures forall k | 0 <= k < |parts| :: parts[k] != [] && NoneIn(parts[k], seps)
  {
    NonEmpty(Split(s, seps))
  }

  /** `string.Join(sep, parts)`. */
  function Join(sep: string, parts: seq<string>): (r: string)
    ensures parts == [] ==> r == []
    ensures parts != [] ==> |r| == |Concat(parts)| + (|parts| - 1) * |sep|
  {
    if parts == [] then []
    else if |parts| == 1 then parts[0]
    else parts[0] + sep + Join(sep, parts[1..])
  }

  /** The pieces laid end to end, without separators. */
  function Concat(parts: seq<string>): string {
    if parts == [] then [] else parts[0] + Concat(parts[1..])
  }

  /** `s` with every character from `cs` deleted. */
  function Without(s: string, cs: set<char>): (r: string)
    ensures NoneIn(r, cs)
  {
    if s == [] then []
    else if s[0] in cs then Without(s[1..], cs)
    else [s[0]] + Without(s[1..], cs)
  }

  lemma {:induction false} WithoutAppend(a: string, b: string, cs: set<char>)
    ensures Without(a + b, cs) == Without(a, cs) + Without(b, cs)
  {
    if a == [] {
      assert a + b == b;
    } else {
      assert (a + b)[0] == a[0] && (a + b)[1..] == a[1..] + b;
      WithoutAppend(a[1..], b, cs);
    }
  }

  /** Laying the pieces of a split end to end gives the input minus its separators. */
  lemma {:induction false} SplitConcat(s: string, seps: set<char>)
    ensures Concat(Split(s, seps)) == Without(s, seps)
  {
    if s != [] {
      SplitConcat(s[1..], seps);
      var rest := Split(s[1..], seps);
      if s[0] !in seps {
        assert Concat(rest) == rest[0] + Concat(rest[1..]);
      }
    }
  }

  /** Dropping empty pieces does not change what the pieces spell. */
  lemma {:induction false} ConcatNonEmpty(parts: seq<string>)
    ensures Concat(NonEmpty(parts)) == Concat(parts)
  {
    if parts != [] {
      ConcatNonEmpty(parts[1..]);
    }
  }

  /** Joining pieces free of `cs` with a separator free of `cs` stays free of `cs`. */
  lemma {:induction false} JoinNoneIn(sep: string, parts: seq<string>, cs: set<char>)
    requires NoneIn(sep, cs)
    requires forall k | 0 <= k < |parts| :: NoneIn(parts[k], cs)
    ensures NoneIn(Join(sep, parts), cs)
  {
    if |parts| > 1 {
      JoinNoneIn(sep, parts[1..], cs);
    }
  }

  /** Once the separator's characters are deleted, a join spells the same as the pieces end to end. */
  lemma {:induction false} JoinWithout(sep: string, parts: seq<string>, cs: set<char>)
    requires AllIn(sep, cs)
    ensures Without(Join(sep, parts), cs) == Without(Concat(parts), cs)
  {
    if |parts| == 1 {
      assert parts[1..] == [];
      assert Concat(parts) == parts[0] + Concat([]) == parts[0];
    } else if |parts| > 1 {
      JoinWithout(sep, parts[1..], cs);
      WithoutAppend(parts[0] + sep, Join(sep, parts[1..]), cs);
      WithoutAppend(parts[0], sep, cs);
      WithoutAll(sep, cs);
      WithoutAppend(parts[0], Concat(parts[1..]), cs);
    }
  }

  lemma {:induction false} WithoutAll(s: string, cs: set<char>)
    requires AllIn(s, cs)
    ensures Without(s, cs) == []
  {
    if s != [] {
      WithoutAll(s[1..], cs);
    }
  }

  /** Deleting one set of characters and then another is deleting both at once. */
  lemma {:induction false} WithoutTwice(s: string, a: set<char>, b: set<char>)
    ensures Without(Without(s, a), b) == Without(s, a + b)
  {
    if s != [] {
      WithoutTwice(s[1..], a, b);
    }
  }

  /** A separator after a separator-free head splits that head off as the first part. */
  lemma {:induction false} SplitAround(a: string, c: char, rest: string, seps: set<char>)
    requires NoneIn(a, seps) && c in seps
    ensures Split(a + [c] + rest, seps) == [a] + Split(rest, seps)
  {
    var s := a + [c] + rest;
    if a == [] {
      assert s[1..] == rest;
    } else {
      assert s[1..] == a[1..] + [c] + rest;
      SplitAround(a[1..], c, rest, seps);
      assert [a[0]] + a[1..] == a;
    }
  }

  /** A string with no separator splits into itself alone. */
  lemma {:induction false} SplitNoSeparator(s: string, seps: set<char>)
    requires NoneIn(s, seps)
    ensures Split(s, seps) == [s]
  {
    if s != [] {
      SplitNoSeparator(s[1..], seps);
      assert [s[0]] + s[1..] == s;
    }
  }

  /** `s` begins with `prefix` (ordinal comparison). */
  predicate StartsWith(s: string, prefix: string) {
    |prefix| <= |s| && s[..|prefix|] == prefix
  }

  /** `needle` occurs in `s` as a contiguous piece (ordinal comparison). */
  predicate Contains(s: string, needle: string) {
    exists i | 0 <= i <= |s| - |needle| :: OccursAt(s, needle, i)
  }

  /** `needle` occurs in `s` starting at index `i`. */
  predicate OccursAt(s: string, needle: string, i: int) {
    0 <= i <= |s| - |needle| && s[i..i + |needle|] == needle
  }

  // ---------------------------------------------------------------------
  // Decimal numbers

  const Int32Min: int := -0x8000_0000
  const Int32Max: int := 0x7FFF_FFFF

  predicate IsDigit(c: char) {
    '0' <= c <= '9'
  }

  function DigitValue(c: char): (d: nat)
    requires IsDigit(c)
    ensures d < 10
  {
    (c as int) - ('0' as int)
  }

  function DigitChar(d: nat): (c: char)
    requires d < 10
    ensures IsDigit(c) && DigitValue(c) == d
  {
    ((d + '0' as int) as char)
  }

  /** The value of a string of decimal digits, most significant first. */
  function DecimalValue(ds: string): nat
    requires forall i | 0 <= i < |ds| :: IsDigit(ds[i])
  {
    if ds == [] then 0 else DecimalValue(ds[..|ds| - 1]) * 10 + DigitValue(ds[|ds| - 1])
  }

  /** The shortest decimal rendering of `n`, as `n.ToString()` writes it. */
  function Decimal(n: nat): (s: string)
    ensures s != [] && forall i | 0 <= i < |s| :: IsDigit(s[i])
    ensures n < 10 <==> |s| == 1
  {
    if n < 10 then [DigitChar(n)] else Decimal(n / 10) + [DigitChar(n % 10)]
  }

  /** Reading back a rendered number gives the number. */
  lemma {:induction false} DecimalRoundTrip(n: nat)
    ensures DecimalValue(Decimal(n)) == n
  {
    if n >= 10 {
      DecimalRoundTrip(n / 10);
      var s := Decimal(n);
      assert s[..|s| - 1] == Decimal(n / 10);
    }
  }

  /**
   * `int.TryParse(s, out v)` with `NumberStyles.Integer` and the invariant
   * culture: optional surrounding white space, an optional `+` or `-`, one
   * or more ASCII digits, and a value that fits in 32 bits.
   */
  function TryParseInt32(s: string): (r: Option<int>)
    ensures r.Some? ==> Int32Min <= r.value <= Int32Max
  {
    ParseSigned(TrimEnd(TrimStart(s, NumberWhiteSpace), NumberWhiteSpace))
  }

  /** The number between the white space: an optional sign and the digits. */
  function ParseSigned(t: string): (r: Option<int>)
    ensures r.Some? ==> Int32Min <= r.value <= Int32Max
  {
    if t != [] && (t[0] == '-' || t[0] == '+') then
      match ParseDigits(t[1..])
      case Some(m) => if t[0] == '-' then InRange(-(m as int)) else InRange(m)
      case None => None
    else
      match ParseDigits(t)
      case Some(m) => InRange(m)
      case None => None
  }

  /** The value of one or more ASCII digits. */
  function ParseDigits(ds: string): (r: Option<nat>)
    ensures r.Some? <==> ds != [] && forall i | 0 <= i < |ds| :: IsDigit(ds[i])
  {
    if ds != [] && forall i | 0 <= i < |ds| :: IsDigit(ds[i]) then Some(DecimalValue(ds)) else None
  }

  function InRange(v: int): (r: Option<int>)
    ensures r.Some? <==> Int32Min <= v <= Int32Max
    ensures r.Some? ==> r.value == v
  {
    if Int32Min <= v <= Int32Max then Some(v) else None
  }

  /** Every number in range written plainly parses back to itself. */
  lemma ParseDecimal(n: nat)
    requires n <= Int32Max
    ensures TryParseInt32(Decimal(n)) == Some(n)
  {
    var s := Decimal(n);
    assert IsDigit(s[0]) && IsDigit(s[|s| - 1]);
    assert s[0] !in NumberWhiteSpace;
    assert Leading(s, NumberWhiteSpace) == 0;
    assert TrimStart(s, NumberWhiteSpace) == s;
    assert s[|s| - 1] !in NumberWhiteSpace;
    assert Trailing(s, NumberWhiteSpace) == 0;
    assert TrimEnd(s, NumberWhiteSpace) == s;
    DecimalRoundTrip(n);
    assert ParseDigits(s) == Some(n);
    assert !(s[0] == '-' || s[0] == '+');
  }
}
