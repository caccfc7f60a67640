/**
 * Per-transfer reassembly: the `ReassemblyState` object that accumulates the
 * fragments of one file in strict sequence order, and the file-name
 * sanitiser its save step applies before writing the result.
 */
module Reassembly {
  import opened Wrappers
  import opened Strings
  import opened Protocol

  /** A reassembly state's fields at one moment. */
  datatype StateView = StateView(
    transferId: Guid,
    kind: MessageType,
    buffer: seq<byte>,
    expectedSequence: Int32,
    filename: Option<string>,
    originalSize: Option<int>)

  /** The state a transfer starts from: nothing received, fragment 0 expected. */
  function Initial(id: Guid, kind: MessageType, filename: Option<string>, originalSize: Option<int>): StateView {
    StateView(id, kind, [], 0, filename, originalSize)
  }

  /** `AddFragment` accepts exactly the fragment whose sequence number is the expected one. */
  predicate Accepts(v: StateView, b: DataBatch) {
    b.sequence == v.expectedSequence
  }

  /** The state after an accepted fragment: its payload appended, the counter stepped. */
  function Appended(v: StateView, b: DataBatch): StateView {
    v.(buffer := v.buffer + Payload(b), expectedSequence := Int32Succ(v.expectedSequence))
  }

  /**
   * The per-transfer state object. `buffer` is the source's `List<byte>` and
   * `expectedSequence` its `int` counter; the other fields are fixed when the
   * object is built.
   */
  class ReassemblyState {
    const transferId: Guid
    const kind: MessageType
    var buffer: seq<byte>
    var expectedSequence: Int32
    const filename: Option<string>
    const originalSize: Option<int>

    function View(): StateView
      reads this
    {
      StateView(transferId, kind, buffer, expectedSequence, filename, originalSize)
    }

    constructor (transferId: Guid, kind: MessageType, filename: Option<string>, originalSize: Option<int>)
      ensures View() == Initial(transferId, kind, filename, originalSize)
    {
      this.transferId := transferId;
      this.kind := kind;
      this.filename := filename;
      this.originalSize := originalSize;
      buffer := [];
      expectedSequence := 0;
    }

    /**
     * Takes `batch` if it is the next fragment in sequence: its payload (if
     * any) is appended and the counter stepped. Any other fragment is refused
     * and nothing changes.
     */
    method AddFragment(batch: DataBatch) returns (ok: bool)
      modifies this
      ensures ok <==> batch.sequence == old(expectedSequence)
      ensures View() == if ok then Appended(old(View()), batch) else old(View())
    {
      if batch.sequence == expectedSequence {
        if batch.data.Some? && |batch.data.value| > 0 {
          buffer := buffer + batch.data.value;
        }
        expectedSequence := Int32Succ(expectedSequence);
        return true;
      }
      return false;
    }

    /**
     * `SaveFileAsync`: the name the buffer is written under, or `None`. The
     * write itself is outside the model; `written` says whether it succeeded.
     */
    function SaveFile(invalid: set<char>, written: bool): (r: Option<string>)
      reads this
      ensures r.Some? ==> written && kind == FileFragment && !IsNullOrWhiteSpace(filename)
    {
      SavedAs(View(), invalid, written)
    }
  }

  /** `SaveFileAsync` on a state value (see `ReassemblyState.SaveFile`). */
  function SavedAs(v: StateView, invalid: set<char>, written: bool): Option<string> {
    if written then SafeFileName(v.kind, v.filename, v.transferId, invalid) else None
  }

  /**
   * Offers `bs` one by one to a state, as successive `AddFragment` calls do,
   * and returns the final state with the fragments that were taken.
   */
  function Offer(v: StateView, bs: seq<DataBatch>): (r: (StateView, seq<DataBatch>))
  {
    if bs == [] then (v, [])
    else
      var prev := Offer(v, bs[..|bs| - 1]);
      var b := bs[|bs| - 1];
      if Accepts(prev.0, b) then (Appended(prev.0, b), prev.1 + [b]) else prev
  }

  /**
   * `v` is what a fresh state for `id` becomes after taking `taken`: its
   * buffer is their payloads end to end, its counter is how many it took,
   * the fragments taken were numbered 0, 1, 2, ..., and nothing but the
   * buffer and the counter has changed.
   */
  predicate Tracks(v: StateView, taken: seq<DataBatch>, id: Guid, kind: MessageType, filename: Option<string>, size: Option<int>) {
    && v.buffer == Payloads(taken)
    && v.expectedSequence == Wrap32(|taken|)
    && (forall i | 0 <= i < |taken| :: taken[i].sequence == Wrap32(i))
    && v.transferId == id && v.kind == kind && v.filename == filename && v.originalSize == size
  }

  lemma TracksStep(v: StateView, taken: seq<DataBatch>, b: DataBatch,
                   id: Guid, kind: MessageType, filename: Option<string>, size: Option<int>)
    requires Tracks(v, taken, id, kind, filename, size) && Accepts(v, b)
    ensures Tracks(Appended(v, b), taken + [b], id, kind, filename, size)
  {
    var taken' := taken + [b];
    PayloadsAppend(taken, [b]);
    assert Payloads([b]) == Payload(b) by {
      assert [b][..0] == [];
    }
    Wrap32Succ(|taken|);
    assert forall i | 0 <= i < |taken| :: taken'[i] == taken[i];
  }

  /**
   * Whatever is offered to a fresh state, the state tracks the fragments it
   * took (see `Tracks`).
   */
  lemma {:induction false} OfferInvariant(id: Guid, kind: MessageType, filename: Option<string>, size: Option<int>, bs: seq<DataBatch>)
    ensures Tracks(Offer(Initial(id, kind, filename, size), bs).0, Offer(Initial(id, kind, filename, size), bs).1, id, kind, filename, size)
  {
    if bs != [] {
      var init := bs[..|bs| - 1];
      var b := bs[|bs| - 1];
      OfferInvariant(id, kind, filename, size, init);
      var prev := Offer(Initial(id, kind, filename, size), init);
      if Accepts(prev.0, b) {
        TracksStep(prev.0, prev.1, b, id, kind, filename, size);
      }
    }
  }

  // ---------------------------------------------------------------------
  // File-name sanitiser

  /** `Path.GetInvalidFileNameChars()` on Windows. */
  const WindowsInvalidFileNameChars: set<char> :=
    {'"', '<', '>', '|', '\0', '\U{1}', '\U{2}', '\U{3}', '\U{4}', '\U{5}', '\U{6}', '\U{7}',
     '\U{8}', '\t', '\n', '\U{B}', '\U{C}', '\r', '\U{E}', '\U{F}', '\U{10}', '\U{11}',
     '\U{12}', '\U{13}', '\U{14}', '\U{15}', '\U{16}', '\U{17}', '\U{18}', '\U{19}',
     '\U{1A}', '\U{1B}', '\U{1C}', '\U{1D}', '\U{1E}', '\U{1F}', ':', '*', '?', '\\', '/'}

  /**
   * The characters the sanitiser itself writes (its `_` separator and the
   * fallback names) are among these.
   */
  predicate SafeNameChar(c: char) {
    c == '_' || c == '-' || c == '.' || '0' <= c <= '9' || 'a' <= c <= 'z'
  }

  /** No character the sanitiser writes of its own accord is invalid. */
  predicate KeepsOwnChars(invalid: set<char>) {
    forall c | SafeNameChar(c) :: c !in invalid
  }

  lemma GuidTextSafe(id: Guid)
    ensures forall i | 0 <= i < |GuidText(id)| :: SafeNameChar(GuidText(id)[i])
  {
    var g := GuidText(id);
    forall i | 0 <= i < |g| ensures SafeNameChar(g[i]) {
      assert g[i] in HexAlphabet + {'-'};
    }
  }

  /** The suffix of the name used when sanitising leaves nothing but white space. */
  const BlankSuffix := "_received_file_safe_name.bin"
  /** The suffix of the name used when sanitising leaves `.` or `..`. */
  const DotSuffix := "_safe.bin"

  lemma SuffixesSafe()
    ensures |BlankSuffix| > 2 && forall i | 0 <= i < |BlankSuffix| :: SafeNameChar(BlankSuffix[i])
    ensures |DotSuffix| > 2 && forall i | 0 <= i < |DotSuffix| :: SafeNameChar(DotSuffix[i])
  {
  }

  /** A fallback name: the transfer id followed by `suffix`. */
  function Fallback(id: Guid, suffix: string): (s: string)
    requires forall i | 0 <= i < |suffix| :: SafeNameChar(suffix[i])
    ensures |s| > |suffix| && forall i | 0 <= i < |s| :: SafeNameChar(s[i])
  {
    GuidTextSafe(id);
    GuidText(id) + suffix
  }

  /** No safe-name character is white space. */
  lemma SafeCharNotWhite(c: char)
    requires SafeNameChar(c)
    ensures c !in WhiteSpace
  {
  }

  /**
   * The pieces of `f` between invalid characters, empty pieces dropped,
   * joined with `_` and trimmed. Apart from invalid characters, underscores
   * and white space, it spells exactly what `f` spells, and when `_` is a
   * valid character it holds no invalid character.
   */
  function Sanitised(f: string, invalid: set<char>): (r: string)
    ensures '_' !in invalid ==> NoneIn(r, invalid)
    ensures Without(r, invalid + {'_'} + WhiteSpace) == Without(f, invalid + {'_'} + WhiteSpace)
  {
    SanitisedFacts(f, invalid);
    Trim(Join("_", SplitNonEmpty(f, invalid)))
  }

  lemma SanitisedFacts(f: string, invalid: set<char>)
    ensures var r := Trim(Join("_", SplitNonEmpty(f, invalid)));
      && ('_' !in invalid ==> NoneIn(r, invalid))
      && Without(r, invalid + {'_'} + WhiteSpace) == Without(f, invalid + {'_'} + WhiteSpace)
  {
    var parts := SplitNonEmpty(f, invalid);
    var joined := Join("_", parts);
    var drop := invalid + {'_'} + WhiteSpace;
    if '_' !in invalid {
      JoinNoneIn("_", parts, invalid);
    }
    JoinWithout("_", parts, drop);
    ConcatNonEmpty(Split(f, invalid));
    SplitConcat(f, invalid);
    WithoutTwice(f, invalid, drop);
    assert invalid + drop == drop;
    TrimWithout(joined, drop);
  }

  /** Trimming deletes only white space. */
  lemma TrimWithout(s: string, drop: set<char>)
    requires WhiteSpace <= drop
    ensures Without(Trim(s), drop) == Without(s, drop)
  {
    var i, j :| 0 <= i <= j <= |s| && Trim(s) == s[i..j] && AllIn(s[..i], WhiteSpace) && AllIn(s[j..], WhiteSpace);
    assert s == s[..i] + s[i..j] + s[j..];
    WithoutAppend(s[..i] + s[i..j], s[j..], drop);
    WithoutAppend(s[..i], s[i..j], drop);
    AllInSubset(s[..i], WhiteSpace, drop);
    AllInSubset(s[j..], WhiteSpace, drop);
    WithoutAll(s[..i], drop);
    WithoutAll(s[j..], drop);
  }

  /**
   * The name `SaveFileAsync` writes under, or `None` when the state is not a
   * file transfer or has no usable file name.
   */
  function SafeFileName(kind: MessageType, filename: Option<string>, id: Guid, invalid: set<char>): (r: Option<string>)
    ensures r.None? <==> kind != FileFragment || IsNullOrWhiteSpace(filename)
    ensures r.Some? ==> !AllIn(r.value, WhiteSpace) && r.value != "." && r.value != ".."
  {
    if kind != FileFragment || IsNullOrWhiteSpace(filename) then None
    else
      var s := Sanitised(filename.value, invalid);
      SuffixesSafe();
      var named := if AllIn(s, WhiteSpace) then Fallback(id, BlankSuffix) else s;
      var name := if named == "." || named == ".." then Fallback(id, DotSuffix) else named;
      SafeCharNotWhite(Fallback(id, BlankSuffix)[0]);
      SafeCharNotWhite(Fallback(id, DotSuffix)[0]);
      assert !AllIn(named, WhiteSpace);
      Some(name)
  }

  /** Whatever name the sanitiser chooses contains no invalid character. */
  lemma SafeFileNameClean(kind: MessageType, filename: Option<string>, id: Guid, invalid: set<char>)
    requires KeepsOwnChars(invalid)
    ensures var r := SafeFileName(kind, filename, id, invalid);
      r.Some? ==> NoneIn(r.value, invalid)
  {
    assert SafeNameChar('_');
  }

  /** The Windows set of invalid characters spares the sanitiser's own characters. */
  lemma WindowsKeepsOwnChars()
    ensures KeepsOwnChars(WindowsInvalidFileNameChars)
  {
  }

  /** A name that is already safe is kept exactly as it is. */
  lemma SafeFileNameKeepsSafeName(f: string, id: Guid, invalid: set<char>)
    requires NoneIn(f, invalid) && !AllIn(f, WhiteSpace)
    requires f[0] !in WhiteSpace && f[|f| - 1] !in WhiteSpace
    requires f != "." && f != ".."
    ensures SafeFileName(FileFragment, Some(f), id, invalid) == Some(f)
  {
    SanitisedKeeps(f, invalid);
    assert !IsNullOrWhiteSpace(Some(f));
  }

  lemma SanitisedKeeps(f: string, invalid: set<char>)
    requires NoneIn(f, invalid) && f != []
    requires f[0] !in WhiteSpace && f[|f| - 1] !in WhiteSpace
    ensures Sanitised(f, invalid) == f
  {
    SplitNoSeparator(f, invalid);
    assert SplitNonEmpty(f, invalid) == [f];
    assert Join("_", [f]) == f;
    TrimIdentity(f);
  }
}
