/**
 * The adapter lookup of `GetWinTunInterfaceDetails`: reading the table that
 * `netsh interface ipv4 show interfaces` prints and picking the first row
 * that names the client's adapter. Running `netsh` is outside the model; its
 * success flag and output are parameters.
 */
module Netsh {
  import opened Wrappers
  import opened Strings

  /** The adapter found: its interface index and its name as listed. */
  datatype Interface = Interface(index: int, name: string)

  /** Upper-casing as `OrdinalIgnoreCase` compares, for ASCII letters. */
  function UpperAscii(c: char): (u: char)
    ensures 'a' <= c <= 'z' ==> 'A' <= u <= 'Z'
    ensures !('a' <= c <= 'z') ==> u == c
  {
    if 'a' <= c <= 'z' then (c as int - 32) as char else c
  }

  function Upper(s: string): (r: string)
    ensures |r| == |s| && forall i | 0 <= i < |s| :: r[i] == UpperAscii(s[i])
  {
    seq(|s|, i requires 0 <= i < |s| => UpperAscii(s[i]))
  }

  predicate StartsWithIgnoreCase(s: string, prefix: string) {
    StartsWith(Upper(s), Upper(prefix))
  }

  predicate ContainsIgnoreCase(s: string, needle: string) {
    Contains(Upper(s), Upper(needle))
  }

  /** `a` and `b` are the same character, or one ASCII letter in its two cases. */
  predicate SameIgnoringCase(a: char, b: char) {
    || a == b
    || ('a' <= a <= 'z' && b as int == a as int - 32)
    || ('a' <= b <= 'z' && a as int == b as int - 32)
  }

  /** Upper-casing identifies exactly the characters that differ only in ASCII case. */
  lemma UpperAsciiMeaning(a: char, b: char)
    ensures UpperAscii(a) == UpperAscii(b) <==> SameIgnoringCase(a, b)
  {
  }

  /** Two strings upper-case alike exactly when they agree position by position up to ASCII case. */
  lemma {:induction false} UpperMeaning(s: string, t: string)
    ensures Upper(s) == Upper(t) <==>
      |s| == |t| && forall i | 0 <= i < |s| :: SameIgnoringCase(s[i], t[i])
  {
    if |s| == |t| {
      forall i | 0 <= i < |s| ensures Upper(s)[i] == Upper(t)[i] <==> SameIgnoringCase(s[i], t[i]) {
        UpperAsciiMeaning(s[i], t[i]);
      }
      if forall i | 0 <= i < |s| :: SameIgnoringCase(s[i], t[i]) {
        assert forall i | 0 <= i < |s| :: Upper(s)[i] == Upper(t)[i];
      }
    }
  }

  /** `needle` occurs in `s` at `i`, up to ASCII case. */
  predicate OccursAtIgnoringCase(s: string, needle: string, i: int) {
    0 <= i <= |s| - |needle| && forall j | 0 <= j < |needle| :: SameIgnoringCase(s[i + j], needle[j])
  }

  /** The upper-cased window of `s` at `i` is the upper-cased slice of `s` there. */
  lemma UpperSlice(s: string, i: nat, j: nat)
    requires i <= j <= |s|
    ensures Upper(s)[i..j] == Upper(s[i..j])
  {
  }

  /** The comparison at the `Idx` header: a prefix up to ASCII case. */
  lemma StartsWithIgnoreCaseMeaning(s: string, prefix: string)
    ensures StartsWithIgnoreCase(s, prefix) <==> OccursAtIgnoringCase(s, prefix, 0)
  {
    if |prefix| <= |s| {
      UpperSlice(s, 0, |prefix|);
      UpperMeaning(s[..|prefix|], prefix);
    }
  }

  /** `Contains(…, StringComparison.OrdinalIgnoreCase)`: an occurrence up to ASCII case. */
  lemma ContainsIgnoreCaseMeaning(s: string, needle: string)
    ensures ContainsIgnoreCase(s, needle) <==> exists i :: OccursAtIgnoringCase(s, needle, i)
  {
    forall i | 0 <= i <= |s| - |needle|
      ensures OccursAt(Upper(s), Upper(needle), i) <==> OccursAtIgnoringCase(s, needle, i)
    {
      var w := s[i..i + |needle|];
      UpperSlice(s, i, i + |needle|);
      UpperMeaning(w, needle);
      assert forall j | 0 <= j < |needle| :: w[j] == s[i + j];
    }
    if ContainsIgnoreCase(s, needle) {
      var i :| 0 <= i <= |s| - |needle| && OccursAt(Upper(s), Upper(needle), i);
      assert OccursAtIgnoringCase(s, needle, i);
    }
    if exists i :: OccursAtIgnoringCase(s, needle, i) {
      var i :| OccursAtIgnoringCase(s, needle, i);
      assert OccursAt(Upper(s), Upper(needle), i);
    }
  }

  /** `$"SGR_{clientAlias ?? "Default"}"`: the name the client gives its adapter. */
  function AdapterName(clientAlias: Option<string>): string {
    "SGR_" + (if clientAlias.Some? then clientAlias.value else "Default")
  }

  /** A name holding the adapter's name in any ASCII case passes the comparison at the name column. */
  lemma NamesAdapterAnyCase(name: string, clientAlias: Option<string>, i: int)
    requires OccursAtIgnoringCase(name, AdapterName(clientAlias), i)
    ensures ContainsIgnoreCase(name, AdapterName(clientAlias))
  {
    ContainsIgnoreCaseMeaning(name, AdapterName(clientAlias));
  }

  /** A trimmed line that is blank, a `---` rule or the `Idx` header row. */
  predicate Skipped(trimmed: string) {
    trimmed == [] || StartsWith(trimmed, "---") || StartsWithIgnoreCase(trimmed, "Idx")
  }

  /**
   * What one line of the table yields: the interface it lists, when the line
   * has at least five columns, the name (the columns from the fifth on,
   * joined by single spaces) contains `expected` ignoring case, and the
   * first column reads as an `int`.
   */
  function LineMatch(line: string, expected: string): (r: Option<Interface>)
    ensures r.Some? ==> ContainsIgnoreCase(r.value.name, expected)
    ensures r.Some? ==> Int32Min <= r.value.index <= Int32Max
    ensures r.Some? ==> !Skipped(Trim(line))
  {
    var trimmed := Trim(line);
    if Skipped(trimmed) then None
    else
      var parts := SplitNonEmpty(trimmed, {' '});
      if |parts| < 5 then None
      else
        var name := Trim(Join(" ", parts[4..]));
        if !ContainsIgnoreCase(name, expected) then None
        else
          match TryParseInt32(Trim(parts[0]))
          case Some(index) => Some(Interface(index, name))
          case None => None
  }

  /** The output's lines, split at `\r` and `\n`, empty ones dropped. */
  function Lines(output: string): (lines: seq<string>)
    ensures forall k | 0 <= k < |lines| :: lines[k] != [] && NoneIn(lines[k], {'\r', '\n'})
  {
    SplitNonEmpty(output, {'\r', '\n'})
  }

  /** The per-line reading for adapter name `expected`. */
  function Matcher(expected: string): string -> Option<Interface> {
    line => LineMatch(line, expected)
  }

  /** What `f` yields for the first element of `xs` for which it yields anything. */
  function FirstMatch<T, R>(xs: seq<T>, f: T -> Option<R>): Option<R> {
    if xs == [] then None
    else if f(xs[0]).Some? then f(xs[0])
    else FirstMatch(xs[1..], f)
  }

  /**
   * `FirstMatch` finds nothing exactly when `f` yields nothing anywhere, and
   * otherwise finds what `f` yields at some position while every position
   * before it yields nothing.
   */
  lemma {:induction false} FirstMatchMeaning<T, R>(xs: seq<T>, f: T -> Option<R>)
    ensures FirstMatch(xs, f).None? <==> forall k | 0 <= k < |xs| :: f(xs[k]).None?
    ensures FirstMatch(xs, f).Some? ==>
      exists k | 0 <= k < |xs| ::
        && f(xs[k]) == FirstMatch(xs, f)
        && forall j | 0 <= j < k :: f(xs[j]).None?
  {
    if xs != [] {
      var rest := xs[1..];
      FirstMatchMeaning(rest, f);
      if f(xs[0]).Some? {
        assert f(xs[0]) == FirstMatch(xs, f);
      } else {
        forall k | 1 <= k < |xs| ensures xs[k] == rest[k - 1] {
        }
        if FirstMatch(rest, f).Some? {
          var k :| 0 <= k < |rest| && f(rest[k]) == FirstMatch(rest, f) &&
            forall j | 0 <= j < k :: f(rest[j]).None?;
          forall j | 0 <= j < k + 1 ensures f(xs[j]).None? {
            if j > 0 {
              assert xs[j] == rest[j - 1];
            }
          }
          assert f(xs[k + 1]) == FirstMatch(xs, f);
        }
      }
    }
  }

  /**
   * What the lookup reports is a listed interface whose name contains the
   * adapter name, ignoring case, and whose index is an `int`, taken from a
   * line that is not a header, with no earlier line naming the adapter.
   */
  lemma FoundNamesAdapter(lines: seq<string>, expected: string)
    ensures var r := FirstMatch(lines, Matcher(expected));
      r.Some? ==>
        && ContainsIgnoreCase(r.value.name, expected)
        && Int32Min <= r.value.index <= Int32Max
        && exists k | 0 <= k < |lines| ::
             && LineMatch(lines[k], expected) == r && !Skipped(Trim(lines[k]))
             && forall j | 0 <= j < k :: LineMatch(lines[j], expected).None?
  {
    FirstMatchMeaning(lines, Matcher(expected));
  }

  /**
   * `GetWinTunInterfaceDetails` after `netsh` has run: nothing when `netsh`
   * failed or printed only white space; otherwise the lines are scanned in
   * order and the first that names the adapter gives its index and name.
   */
  method FindInterface(succeeded: bool, output: string, clientAlias: Option<string>)
    returns (found: Option<Interface>)
    ensures found ==
      if !succeeded || IsNullOrWhiteSpace(Some(output)) then None
      else FirstMatch(Lines(output), Matcher(AdapterName(clientAlias)))
  {
    if !succeeded || IsNullOrWhiteSpace(Some(output)) {
      return None;
    }
    var expected := AdapterName(clientAlias);
    var lines := Lines(output);
    var k := 0;
    while k < |lines|
      invariant 0 <= k <= |lines|
      invariant FirstMatch(lines[k..], Matcher(expected)) == FirstMatch(lines, Matcher(expected))
    {
      var candidate := LineMatch(lines[k], expected);
      if candidate.Some? {
        return candidate;
      }
      assert lines[k..][1..] == lines[k + 1..];
      k := k + 1;
    }
    return None;
  }
}
