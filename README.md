# ClienteSGR core, modelled in Dafny

ClienteSGR is a Windows client for the SGR relay. Clients register an alias
with a SignalR hub. The hub relays `DataBatchContainer`s between them: raw IP
packets for a WinTun virtual adapter, and file fragments. This project models
the parts of `Program.cs` that hold logic and proves properties about them.

- **Reassembly** (`Reassembly.dfy`). `ReassemblyState` is a class with the
  source's mutable `Buffer` and `ExpectedSequence`. `AddFragment` accepts a
  fragment exactly when its sequence number is the expected one. It then
  appends the payload and steps the `int` counter, with 32-bit wrap-around
  written out. The file-name sanitiser of `SaveFileAsync` is a pure function.
  It takes the platform's invalid file-name characters as a parameter.
- **Transfer registry** (`Registry.dfy`). `Step`/`StepAll` are a pure
  reference model of `HandleFileFragmentAsync` over a map from transfer id to
  state. The class `TransferRegistry` keeps the source's map from id to
  `ReassemblyState` objects. Its methods are proved to follow `Step`. The
  lemmas cover:
  - create-or-replace on a first fragment;
  - ignoring unknown ids;
  - removal on the last or an out-of-order fragment;
  - isolation between transfers;
  - a whole in-order transfer collecting exactly its payloads.
- **Ingress** (`Ingress.dfy`). This is the `foreach` over a received
  container. It skips empty batches, hands file fragments to the registry,
  and counts and injects IP packets. Injection into WinTun is abstracted as
  a per-batch "device had room" flag and a "session active" flag.
- **Sender** (`Sender.dfy`). The loop of `SendFileAsync` cuts a file into
  8192-byte fragments and flushes them in containers of at most 50. The
  method records each relay call and the `offset` at that call. The model
  proves:
  - the fragment count, lengths and flags;
  - that the fragments reassemble to the file;
  - the container shapes;
  - end to end, that the receiver's registry completes the transfer with
    the file's exact bytes;
  - that a relay call which throws abandons the rest of the file, and a
    receiver of the containers sent before it keeps the transfer pending
    with only a prefix of the file.
- **CIDR parsing** (`Cidr.dfy`). `ParseCidr` reads `address/prefix` in the
  prefix notation of section 3.1 of RFC 4632. It yields the address and the
  dotted-quad netmask whose top `prefix` bits are set. Masks are computed on
  `bv32`. Address validation (`IPAddress.TryParse`) is a predicate parameter.
- **Interface lookup** (`Netsh.dfy`). This is the line parser of
  `GetWinTunInterfaceDetails` that reads `netsh interface ipv4 show
  interfaces` output. It is a `while` loop proved equal to "the first line
  that matches".

Shared modules:

- `Wrappers.dfy` holds `Option`.
- `Strings.dfy` holds the .NET string operations the core uses:
  - `char.IsWhiteSpace`;
  - `Trim`;
  - `Split` with and without `RemoveEmptyEntries`;
  - `string.Join`;
  - `int.TryParse`.
- `Protocol.dfy` holds:
  - `DataBatch` and `DataBatchContainer`;
  - the `Guid` text form;
  - the 32-bit `int` counter.

## Model

| member | source | states |
|---|---|---|
| Strings.Trim | Program.cs:59 | `Trim` removes only white space, and only from the two ends. The result is a contiguous middle part of the input. It is empty or starts and ends with a non-white-space character. |
| Strings.TrimBlank | Program.cs:59-61 | Trimming leaves nothing exactly when the input is all white space. So the blank-name fallback fires exactly for names that are blank after sanitising. |
| Strings.TrimIdentity | Program.cs:59 | A string that neither starts nor ends with white space is unchanged by `Trim`. |
| Strings.Split | Program.cs:935 | `Split` without options always yields at least one part. No part contains a separator. |
| Strings.SplitConcat | Program.cs:935 | The parts of `Split`, end to end, are the input with its separators deleted. Nothing is lost or added. |
| Strings.SplitNoSeparator | Program.cs:934-935 | A string with no separator splits into itself alone. This is why the separate `Contains('/')` test changes nothing. |
| Strings.SplitAround | Program.cs:935 | A separator-free head followed by a separator splits off as the first part, and the rest is split independently. |
| Strings.SplitNonEmpty | Program.cs:59 | With `RemoveEmptyEntries` every part is non-empty and contains no separator. |
| Strings.ConcatNonEmpty | Program.cs:59 | Dropping the empty parts loses no characters. |
| Strings.Join | Program.cs:890 | Joining no parts gives the empty string. Otherwise the joined string is as long as the parts together plus one separator between each neighbouring pair. |
| Strings.JoinNoneIn | Program.cs:59 | Joining parts free of a set of characters, with a separator outside that set, gives a string free of that set. |
| Strings.JoinWithout | Program.cs:59 | When the separator consists of deleted characters, deleting them from the joined string gives the same result as deleting them from the parts laid end to end. |
| Strings.TryParseInt32 | Program.cs:937 | `int.TryParse` accepts only values in the 32-bit range. |
| Strings.DecimalRoundTrip | Program.cs:937 | The digits of a number's decimal text have that number as their value. |
| Strings.ParseDecimal | Program.cs:937 | `int.TryParse` reads the decimal text of every `int`-sized natural number back as itself. |
| Protocol.Int32Succ | Program.cs:41 | `ExpectedSequence++` is two's-complement increment: the result differs from x + 1 by a multiple of 2^32. Being an `int`, it is the only such value. |
| Protocol.Wrap32 | Program.cs:41 | The counter after n increments from 0 equals n while n fits in an `int`. |
| Protocol.Wrap32Succ | Program.cs:41 | One more increment of the counter after n increments is the counter after n + 1 increments. |
| Protocol.GuidText | Program.cs:63 | `Guid.ToString()` in the default "D" format is 36 characters, each a lower-case hex digit or `-`. |
| Protocol.PayloadsAppend | Program.cs:39 | The payloads of two runs of batches, end to end, are the payloads of the combined run. This is the `Buffer.AddRange` step. |
| Reassembly.ReassemblyState.constructor | Program.cs:20-31 | A new state has an empty buffer, expected sequence 0, and the id, kind, file name and size it was given. |
| Reassembly.ReassemblyState.AddFragment | Program.cs:33-45 | Returns true exactly when the fragment's sequence equals `ExpectedSequence`. The buffer then gains the payload (nothing when `Data` is null or empty) and the counter steps with `int` wrap-around. On false, nothing changes. |
| Reassembly.ReassemblyState.SaveFile | Program.cs:47-77 | Returns a path only when the write succeeded, the kind is `FileFragment` and the file name is neither null nor white space. Otherwise it returns null, as the checks and the `catch` do. |
| Reassembly.TracksStep | Program.cs:33-45 | One accepted fragment preserves the invariant: the buffer is the accepted payloads end to end, the counter is their number, and fragment i carried sequence i. |
| Reassembly.OfferInvariant | Program.cs:33-45 | From a fresh state, after any run of `AddFragment` calls, the buffer is exactly the accepted fragments' payloads in order. The counter is their number (wrapped), the accepted fragments are numbered 0, 1, 2, …, and the fixed fields are unchanged. |
| Reassembly.GuidTextSafe | Program.cs:63 | A Guid's text uses only characters the sanitiser itself may write. |
| Reassembly.Fallback | Program.cs:61-66 | The fallback names `{TransferId}_received_file_safe_name.bin` and `{TransferId}_safe.bin` are longer than their suffixes and use only characters the sanitiser itself may write. |
| Reassembly.Sanitised | Program.cs:59 | The sanitised name contains no invalid character (when `_` itself is valid). Apart from invalid characters, `_` and white space, it holds exactly the original name's characters, in order. |
| Reassembly.SanitisedFacts | Program.cs:59 | The same two facts for the expression `Join("_", Split(invalid, RemoveEmptyEntries)).Trim()` itself. |
| Reassembly.TrimWithout | Program.cs:59 | Trimming deletes only white space. |
| Reassembly.SanitisedKeeps | Program.cs:59 | A non-empty name with no invalid character and no white space at either end passes the sanitiser unchanged. |
| Reassembly.SafeFileName | Program.cs:49-66 | No name exactly when the kind is not `FileFragment` or the file name is null or white space. A produced name is never blank, `.` or `..`. |
| Reassembly.SafeFileNameClean | Program.cs:57-66 | When the platform's invalid set spares the sanitiser's own characters, the chosen name contains no invalid character, fallbacks included. |
| Reassembly.WindowsKeepsOwnChars | Program.cs:58 | The Windows `GetInvalidFileNameChars` set spares those characters. |
| Reassembly.SafeFileNameKeepsSafeName | Program.cs:57-66 | A valid, non-blank name without surrounding white space, other than `.` and `..`, is saved under itself. |
| Registry.Step | Program.cs:805-841 | One fragment changes only its own transfer's entry. A non-first fragment with an unknown id is ignored and changes nothing. The entry survives exactly when an in-order, non-last fragment was accepted. A first fragment is checked against a fresh state, so it is taken exactly when its sequence is 0. A later fragment is taken exactly when it carries the expected number, and its payload is appended. |
| Registry.StepAll | Program.cs:805-841 | Handling a stream of fragments yields one outcome per fragment. |
| Registry.StepAppends | Program.cs:817-831 | An in-order, non-first fragment of a tracked transfer is appended. If it is the last, the transfer completes and its entry is removed. |
| Registry.CollectedStep | Program.cs:33-45 | Each further in-order fragment is accepted by the state its predecessors reached, and extends it. |
| Registry.InOrderPrefix | Program.cs:805-841 | Every non-empty prefix of an in-order transfer is itself in order. |
| Registry.InOrderAccumulates | Program.cs:805-841 | An in-order transfer not yet at its last fragment has every fragment accepted. The registry then holds its collected state, and all other entries are untouched. |
| Registry.InOrderCompletes | Program.cs:805-841 | An in-order transfer ending in its last fragment has every earlier fragment accepted and the last one completing. The completed buffer is exactly its payloads in order, and the entry is removed with all others untouched. |
| Registry.Isolation | Program.cs:97 | Transfers do not interfere. The entry for an id after any interleaved stream equals the entry after delivering only that id's fragments. |
| Registry.StepLocal | Program.cs:805-841 | A fragment's effect on its own entry depends only on that entry. |
| Registry.TransferRegistry.constructor | Program.cs:97 | The registry starts empty. |
| Registry.TransferRegistry.HandleFileFragment | Program.cs:805-841 | The registry's contents and outcome change exactly as `Step` says. A completed transfer is saved under `SafeFileName`, and no state object outside the registry is reused. |
| Registry.TransferRegistry.Acquire | Program.cs:807-815 | A non-first fragment with an unknown id gets no state and changes nothing. A first fragment replaces any stale state with a new one built from its own metadata. A known id keeps its state. |
| Registry.TransferRegistry.Retire | Program.cs:830 | Removes one transfer's entry and nothing else. |
| Registry.TransferRegistry.Admit | Program.cs:812 | Adds one new transfer's entry and nothing else. |
| Registry.TransferRegistry.Apply | Program.cs:817-839 | An out-of-order fragment aborts and removes the entry. An in-order last fragment completes, is saved, and its entry is removed whether or not the save succeeded. Any other in-order fragment is appended and the entry kept. |
| Ingress.FileFragments | Program.cs:777-780 | Every batch handed to the registry is a file fragment with a non-empty payload, and there are no more of them than batches. |
| Ingress.Injected | Program.cs:781-791 | Nothing is injected while the session is down. Every injected packet is non-empty, and there are no more of them than batches. |
| Ingress.IpPackets | Program.cs:781-782 | At most one IP packet is counted per batch. |
| Ingress.TallyAllMeaning | Program.cs:775-793 | The container's report injects exactly the selected packets. It counts exactly the forwarded file fragments, and its byte count is the injected packets' total length. Its packet count is the injected packets while the session is up and every IP packet while it is down. |
| Ingress.OneMore | Program.cs:775-793 | One more batch of the container steps the registry and the report exactly as handling that batch does. |
| Ingress.Dispatch | Program.cs:777-792 | One batch: a file fragment with a payload steps the registry as `Step`, and anything else leaves the registry unchanged. The report is updated by `Tally`. |
| Ingress.ReceiveDataBatch | Program.cs:770-797 | After the loop, the registry is `StepAll` over the container's file fragments and the report is `TallyAll` over the container. Each batch brings its own room and file-write outcome. For an empty container both are unchanged. |
| Sender.FragmentCount | Program.cs:1000-1006 | The loop makes the fewest 8192-byte fragments that cover the file: enough to cover it, and one fewer would not. |
| Sender.CoveredStep | Program.cs:1000-1006 | The bytes covered never decrease from one fragment to the next and never exceed the file. |
| Sender.FragmentsUpToIndex | Program.cs:1000-1006 | The i-th fragment of any run of fragments is the fragment the loop builds at step i. |
| Sender.FragmentsShape | Program.cs:1000-1006 | An empty file yields no fragment. Otherwise there are `FragmentCount` fragments with sequences 0, 1, 2, …, each non-empty, of length min(8192, N − 8192 i). `IsFirst`, the file name and the size are on fragment 0 only, and `IsLast` is on the final fragment only. |
| Sender.FragmentsPrefix | Program.cs:1000-1006 | The payloads of the first j fragments are exactly the first min(8192 j, N) bytes of the file. |
| Sender.FragmentsConcat | Program.cs:1000-1006 | The fragments' payloads, end to end, are the file. |
| Sender.NextFragment | Program.cs:1002-1006 | Appending the next fragment to those already built gives the first k + 1 fragments. |
| Sender.Flushed | Program.cs:1008-1016 | A flush after whole containers adds exactly one request, carrying the pending fragments, and one running total: the bytes the fragments so far cover. |
| Sender.FragmentFromOffset | Program.cs:1002-1006 | The fragment built from the running `offset` is fragment i of the specification. It is last exactly when it reaches the end of the file. |
| Sender.ChunksShape | Program.cs:1008-1016 | The containers, end to end, are the fragment list. There are ceil(n/50) of them, each non-empty with at most 50 batches, and all but the last hold exactly 50. |
| Sender.ChunksAppend | Program.cs:1008-1016 | Cutting after a whole number of full containers does not change how the rest is grouped. |
| Sender.FlattenCons | Program.cs:1008-1016 | Putting a container in front puts its batches in front. |
| Sender.FlushStep | Program.cs:1008-1016 | A flush adds exactly one relay call carrying the current container. The offset it reports is the total payload dispatched so far. |
| Sender.AddressedMeaning | Program.cs:1010 | Relay call k goes to the recipient with container k. |
| Sender.ProgressMeaning | Program.cs:1011 | The offset at dispatch k equals the payload bytes in containers 0 to k. |
| Sender.FlushedBytes | Program.cs:1011 | After j fragments have been flushed, the bytes dispatched are min(8192 j, N). |
| Sender.FinalProgress | Program.cs:1011 | A non-empty file is sent in at least one container, and the offset at the final dispatch is the file's length. |
| Sender.SendFile | Program.cs:987-1023 | Without a connection or both aliases, nothing is sent and no count is reported. Otherwise the relay calls are the containers in order, addressed to the recipient, with the offsets as above. When relay call `failsAt` throws, the calls before it are the only ones made and the `catch` reports no count. When no call throws, every container is sent and the fragment count is reported. |
| Sender.FragmentsUpToPrefix | Program.cs:1000-1006 | The first k fragments built by the loop are the first k fragments of the specification. |
| Sender.Abandoned | Program.cs:1008-1022 | When a relay call throws part-way, the calls already made are a proper prefix of the containers, each addressed to the recipient, with the matching offsets. |
| Sender.FinishedAll | Program.cs:998-1016 | When the loop ends, the calls made are all the containers, with their offsets. |
| Sender.AbandonedLeavesPending | Program.cs:1008-1022 | A receiver that got only the first n of several containers keeps the transfer pending: its buffer is the first min(50·8192·n, N) bytes, fewer than the file. No other transfer's entry changes. |
| Sender.SentContainers | Program.cs:1008-1016 | The first n of several containers carry exactly the first 50·n fragments, and some fragments remain. |
| Sender.PendingPrefix | Program.cs:805-841 | A receiver given only the first k fragments of a file, fewer than all, tracks the transfer with the first min(8192·k, N) bytes, and leaves every other entry unchanged. |
| Sender.SendThenReceive | Program.cs:987-1023 | Feeding the sent fragments, in order, to a receiver's registry accepts every fragment and completes the transfer. The buffer is exactly the file's bytes, the metadata is the first fragment's, and the entry is removed. |
| Cidr.MaskWord | Program.cs:938 | `0xFFFFFFFF << (32 - prefix)`, with 0 for prefix 0, has exactly its top `prefix` bits set. |
| Cidr.DottedQuad | Program.cs:938 | The text of an `IPAddress` holds only decimal digits and dots. |
| Cidr.DottedQuadRoundTrip | Program.cs:938 | A dotted quad splits back into four parts, each parsing to its octet. |
| Cidr.MaskTextMeaning | Program.cs:938 | The mask text splits into four parts that parse to the four octets of the mask word, most significant first. |
| Cidr.LiteralMask | Program.cs:938 | When the prefix text matches a `case` label, it parses to an `int` in 0..32, and the label's fixed mask is the computed mask for that prefix length. |
| Cidr.FixedMasks | Program.cs:938 | The computed masks for 32, 24, 16, 8 and 0 are `255.255.255.255`, `255.255.255.0`, `255.255.0.0`, `255.0.0.0` and `0.0.0.0`. |
| Cidr.Prefixed | Program.cs:934-937 | Any prefix that passes the checks before the `switch` is at most 32. |
| Cidr.SlashNeeded | Program.cs:934-935 | Input without `/` never splits into two parts. |
| Cidr.ParseCidr | Program.cs:929-942 | Succeeds exactly when the input is not blank, splits on `/` into exactly two parts, the address part is valid and the prefix part parses to an integer in 0..32. Then the network is the address part and the mask is the dotted quad of the top-`prefix`-bits word. This is the corrected definition; see Findings. |
| Cidr.ByteSwap | Program.cs:938 | `HostToNetworkOrder` on a little-endian host reverses the four octets. |
| Cidr.SwapBack | Program.cs:938 | After the swap, the sign bit is the last mask octet's top bit, and reading the octets backwards gives the original word. |
| Cidr.DefaultMaskAsWritten | Program.cs:938 | The `default:` branch as written throws, and so returns false, exactly for prefix lengths 25 and over. Below that it produces the right mask. |
| Cidr.ParseCidrAsWritten | Program.cs:929-942 | The source as written: whatever it accepts, it parses exactly as `ParseCidr` does. |
| Cidr.AsWrittenRejectsLongPrefixes | Program.cs:929-942 | The source as written agrees with `ParseCidr` except on a prefix of 25 to 32 not spelt exactly as a `case` label, where it fails. |
| Cidr.Slash25 | Program.cs:929-942 | On `10.0.0.0/25` the source as written fails, while the mask is `255.255.255.128`. |
| Netsh.UpperAsciiMeaning | Program.cs:892 | Two characters upper-case alike exactly when they are equal or are the two cases of one ASCII letter. |
| Netsh.UpperMeaning | Program.cs:892 | Two strings upper-case alike exactly when they have the same length and agree position by position ignoring ASCII case. |
| Netsh.StartsWithIgnoreCaseMeaning | Program.cs:885 | The `Idx` test holds exactly when the line starts with `Idx` ignoring ASCII case. |
| Netsh.ContainsIgnoreCaseMeaning | Program.cs:892 | `Contains(…, OrdinalIgnoreCase)` holds exactly when the needle occurs, ignoring ASCII case, at some position of the string. |
| Netsh.NamesAdapterAnyCase | Program.cs:892 | An interface name holding `SGR_{alias}` in any ASCII case passes the name test. |
| Netsh.LineMatch | Program.cs:884-903 | A line yields an interface only when its trimmed form is not blank, a `---` rule or the `Idx` header. The name must contain the adapter name ignoring case, and the index is an `int`. |
| Netsh.Lines | Program.cs:881 | Splitting the output on CR and LF with empties removed gives non-empty lines without line breaks. |
| Netsh.FirstMatchMeaning | Program.cs:882-906 | The search finds nothing exactly when no line matches. Otherwise it returns the match at some line before which no line matches. |
| Netsh.FoundNamesAdapter | Program.cs:882-906 | A found interface comes from the first matching line. That line is not a header or rule, its name contains the adapter name, and its index is an `int`. |
| Netsh.FindInterface | Program.cs:869-908 | A failed `netsh` run or blank output finds nothing. Otherwise the loop returns the first line's match for `SGR_{alias}` (`SGR_Default` without an alias), or nothing. |

## Left out

- All I/O is left out:
  - the SignalR hub connection, `InvokeAsync` and the event handlers;
  - configuration files and logging;
  - menus and console input;
  - `route`/`netsh` process execution;
  - reading the file being sent.

  The relay call of `SendFileAsync` is recorded as a `SendDataRequest` in a sequence. The output and success flag of `netsh` are parameters of `FindInterface`.
- The file write in `SaveFileAsync` (`Path.Combine`, `File.WriteAllBytesAsync`) and its `catch`: whether the write succeeded is the `written` parameter, and the result is the chosen file name rather than a combined path.
- WinTun.cs is not part of this model: it only declares native driver calls. Packet allocation, injection and the receive loop (`WinTunReadLoopAsync`, egress `SendIpPacket`) are outside it. Injection is reduced to the `sessionActive` and per-batch `hasRoom` flags.
- Concurrency: `ConcurrentDictionary`, background tasks, cancellation tokens and `Task.Delay`. The registry is modelled sequentially, one fragment at a time. A `TryAdd` that loses a race cannot happen sequentially.
- Floating-point progress percentages and `Stopwatch` timing. The model keeps the integer `offset` the percentage is computed from.
- A `null` container or batch list at Program.cs:772 is not representable; an empty container is modelled and changes nothing.
- Reassembly.Sanitised, Reassembly.SafeFileName: any set of invalid characters is accepted. With an empty set, .NET `Split(char[])` splits on white space, while the model splits on nothing. The source only ever passes the platform's non-empty set from `Path.GetInvalidFileNameChars()`.
- Reassembly.ReassemblyState.AddFragment: the source's `Buffer` is a `List<byte>`, which cannot exceed 0x7FFFFFC7 bytes. An `AddRange` past that size throws before `ExpectedSequence++`, and nothing in the fragment handler or the ingress loop catches it, so the rest of the container is abandoned and the counter is not advanced. The model's buffer is unbounded, and that fragment is accepted. Every accepted fragment adds at least one byte, so the 32-bit wrap of `ExpectedSequence` stated by `Protocol.Int32Succ` and `Reassembly.OfferInvariant` is reachable only in the model.
- Reassembly.ReassemblyState.SaveFile: states when a name is produced, not which one. That is `SafeFileName`, which `Registry.TransferRegistry.HandleFileFragment` is proved to use.
- The `originalSize` mismatch check at completion only logs, and is left out with logging.
- Strings: characters are Unicode scalar values, not the UTF-16 code units of .NET. A character outside the Basic Multilingual Plane counts once here but twice in .NET `Length`, and a lone surrogate cannot be represented. Culture-sensitive `StartsWith("---")` is modelled as an ordinal comparison. `OrdinalIgnoreCase` is modelled for ASCII letters only.
- Strings.TryParseInt32: models `int.TryParse` under `NumberStyles.Integer` with the invariant culture: surrounding white space, one leading sign, ASCII digits. Culture-specific signs and trailing NUL characters are not modelled.
- Cidr: `IPAddress.TryParse` is the predicate parameter `validAddress`. The host is assumed little-endian, as every Windows platform is. On failure the source sets `network` to the address part before returning false; the model returns `None` and does not model the out-parameters on failure.
- Netsh.FindInterface: the alias is free text typed by the user or read from the settings file, so the adapter name `SGR_{alias}` may hold non-ASCII letters. The model compares those case-sensitively, while .NET `OrdinalIgnoreCase` folds them (`ñ` and `Ñ`, `ú` and `Ú`). So the model finds no interface where the source would, when `netsh` prints such a letter in the other case.
- Netsh.FindInterface: returns the interface instead of setting the static fields `_wintunInterfaceIndex` and `_wintunInterfaceName`.
- Sender.SendFile: which relay call throws, if any, is the parameter `failsAt`. A call that throws is not recorded in `sent`, since whether the hub saw it is unknown. A failure to read the file, the other exception the `catch` handles, is left out with file I/O.
- Sender.SendFile: requires the file to be no longer than the largest .NET byte array (0x7FFFFFC7 bytes), which `File.ReadAllBytesAsync` enforces. The sender's `int` sequence counter therefore never wraps.

## Findings

| source | as written | input that shows it | evidently intended | confidence | as-written member | corrected member |
|---|---|---|---|---|---|---|
| Program.cs:938 | The `default:` branch builds the mask as `new IPAddress(IPAddress.HostToNetworkOrder((int)maskUInt))`. On a little-endian host the swapped value is negative for every prefix from 25 to 31. The `IPAddress(long)` constructor then throws, and the `catch` makes `ParseCidr` return false. Only the exact text `32` escapes, through its `case` label. | `10.0.0.0/25` (also `10.0.0.0/30` and `10.0.0.0/032`) | Every prefix length 0..32 yields its mask, e.g. `255.255.255.128` for `/25`. | high; not executed | Cidr.ParseCidrAsWritten (shown by Cidr.Slash25 and Cidr.DefaultMaskAsWritten) | Cidr.ParseCidr |
