# MDT serial probe — a Dafny model

This project models the decision layer of `tools/probe_mdt.py`. That script
looks for Thorlabs MDT piezo controllers on serial ports. It opens each
enumerated port and sends a few harmless identification commands (`XR?\r`,
`ID?\r`, `*IDN?\r`, `XR?\n`, `XR?`). It cleans up every reply, and decides
from the reply text whether an MDT controller answered. It collects one
verdict per port and prints a one-line summary per port.

The model has six modules:

- `Wrappers` (`option.dfy`): the `Option` type, for Python's `None`.
- `Reply` (`reply.dfy`): the reply normalizer `_strip_echo_and_prompts`.
  - Bytes are decoded as ASCII, and bytes that do not decode are dropped.
  - Whitespace is trimmed as Python's `str.strip()` trims it.
  - An echoed copy of the command is removed.
  - The prompt and terminator characters `\r \n space > ! *` are stripped
    from both ends.
- `Signature` (`signature.dfy`): the inline classifier, pulled out as the
  predicate `IsMatch`. A non-empty reply matches in two cases:
  - its upper-cased text contains `MDT`, `THOR` or a match of `69[34]`;
  - or it contains a match of `-?\d+\.\d+`.

  Both regular expressions are written as explicit substring predicates.
  `DecimalSearch` proves that the simpler "digit, dot, digit" search is
  equivalent to the full decimal pattern.
- `PortProbe` (`probe.dfy`): `probe_port`.
  - The serial port is replaced by a `PortOutcome`. Either opening the port
    failed, with an error text, or the port opened. For an opened port, each
    command has an `Attempt`: the write failed, or the write succeeded and
    we have what the 1024-byte read and the 2048-byte read returned.
  - `ProbePort` is the imperative loop with its early returns.
  - `ProbePort` is proved equal to the functional specification `Probe`,
    and its count of commands tried (failed writes included) is proved equal to `CommandsTried`.
  - The lemmas state the behaviour of `Probe`: the first match wins, the
    last non-empty reply is kept, an open failure short-circuits, a failed
    write only skips its command, and later commands are never consulted.
- `PortScan` (`scan.dfy`): `scan_ports`.
  - The results dictionary is an insertion-ordered `ScanResult`: a key
    sequence plus a map.
  - `ScanPorts` fills it in a loop and is proved equal to `Scan`.
  - `ScanSpec` and `DistinctScan` describe the dictionary `Scan` returns.
- `Summary` (`summary.dfy`): the summary lines printed by `main`.

The command list is a parameter of `ProbePort`, `ScanPorts` and the
specification functions. The script always passes `ID_COMMANDS`, which the
model holds as `PortProbe.IdCommands`. `PortProbe.ModelReplyScenario` applies
it to a device that answers the first command with its model number.

## Model

| member | source | states |
|---|---|---|
| Reply.Decode | tools/probe_mdt.py:43-44 | decoding with `errors='ignore'` gives ASCII text no longer than the bytes |
| Reply.DecodeByte | tools/probe_mdt.py:44 | one byte decodes to its character when below 128, and to nothing when 128 or more (`errors='ignore'`) |
| Reply.DecodeAppend | tools/probe_mdt.py:44 | decoding distributes over concatenation: each byte is kept or dropped on its own |
| Reply.DecodeEncode | tools/probe_mdt.py:44 | an ASCII string survives encoding and then decoding |
| Reply.EncodeDecode | tools/probe_mdt.py:44 | bytes below 128 decode losslessly: one character per byte, and encoding gives the bytes back |
| Reply.DecodeDropsNonAscii | tools/probe_mdt.py:44 | bytes that are all 128 or more decode to the empty string |
| Reply.LeadEnd | tools/probe_mdt.py:47 | the forward scan of `strip` passes only characters of the set, and stops at the end or at a character outside it |
| Reply.TrailStart | tools/probe_mdt.py:47 | the backward scan of `strip` passes only characters of the set, and stops at its lower bound or after a character outside it |
| Reply.Strip | tools/probe_mdt.py:47 | `str.strip(chars)`: no character of the set is left at either end |
| Reply.StripWindow | tools/probe_mdt.py:47 | strip keeps a contiguous window of the input, and everything outside it is in the set |
| Reply.StripSplit | tools/probe_mdt.py:56 | the input is the removed prefix, then the result, then the removed suffix, and both removed parts lie in the set |
| Reply.StripUnique | tools/probe_mdt.py:56 | any window that fits the description of strip is the one strip returns |
| Reply.StripWithin | tools/probe_mdt.py:47 | stripping never introduces characters: text within a set stays within it |
| Reply.StripIdempotent | tools/probe_mdt.py:56 | stripping twice is the same as stripping once |
| Reply.StripAllOf | tools/probe_mdt.py:56 | text made only of characters of the set strips to the empty string |
| Reply.Normalize | tools/probe_mdt.py:41-57 | the normalizer is total, and its result never starts or ends with `\r`, `\n`, space, `>`, `!` or `*` |
| Reply.NormalizeAscii | tools/probe_mdt.py:43-56 | the normalized reply is always ASCII, whatever bytes came in |
| Reply.NormalizeRemovesEcho | tools/probe_mdt.py:49-52 | when the trimmed reply starts with the non-empty trimmed command, the trimmed reply is that command, then only whitespace and framing, then the result, then only whitespace and framing |
| Reply.Regroup | tools/probe_mdt.py:52-56 | cutting the echo and then trimming twice leaves the echo, a whitespace/framing gap, the result and a whitespace/framing tail |
| Reply.NormalizeWithoutEcho | tools/probe_mdt.py:50-56 | without an echo, nothing but framing is removed from the trimmed reply |
| Reply.NormalizeFramingOnly | tools/probe_mdt.py:44-56 | a reply made only of framing characters and undecodable bytes normalizes to the empty string, for any command |
| Reply.FramingOnlyStrips | tools/probe_mdt.py:52-56 | framing-only text normalizes to empty on both branches of the echo test |
| Reply.DecodeWithin | tools/probe_mdt.py:44 | bytes that are dropped or decode into a set give text within that set |
| Reply.NormalizeWhitespaceOnly | tools/probe_mdt.py:44-56 | a reply made only of whitespace and undecodable bytes normalizes to the empty string, for any command |
| Reply.NormalizeModelReply | tools/probe_mdt.py:41-57 | the reply `MDT693B\r` to `XR?\r` normalizes to `MDT693B` |
| Reply.NormalizePlain | tools/probe_mdt.py:47-56 | a reply that does not echo the command (the command trims to nothing, or the trimmed reply does not start with the trimmed command) and whose trimmed text has no framing character at either end normalizes to that trimmed text |
| Reply.DecodeAsciiBytes | tools/probe_mdt.py:44 | bytes below 128 decode to one character per byte with the same code |
| Reply.NormalizeMixedExample | tools/probe_mdt.py:47-56 | whitespace is trimmed before framing is stripped, so the reply `!\t!` to `XR?\r` normalizes to a lone tab |
| Reply.TrimmedBangTab | tools/probe_mdt.py:44-47 | the bytes of `!\t!` decode and trim to `!\t!` |
| Reply.TrimmedQuery | tools/probe_mdt.py:50 | the command `XR?\r` decodes and trims to `XR?` |
| Reply.NormalizeEmpty | tools/probe_mdt.py:41-57 | an empty read normalizes to the empty string |
| Signature.UpperChar | tools/probe_mdt.py:116 | `str.upper()` on one character: the result is never a lower-case letter, it is a capital exactly when the input is a letter, and digits stay digits |
| Signature.ToUpper | tools/probe_mdt.py:116 | upper-casing keeps the length, leaves no lower-case letter, and leaves every digit and `.` where it was |
| Signature.UnsignedHasCore | tools/probe_mdt.py:122 | a match of `\d+\.\d+` holds a digit, a dot and a digit in a row |
| Signature.DecimalSearch | tools/probe_mdt.py:122 | `HasDecimal` holds exactly when some substring matches `-?\d+\.\d+` as a whole |
| Signature.ToUpperIdempotent | tools/probe_mdt.py:116 | upper-casing twice is the same as upper-casing once |
| Signature.ToUpperAppend | tools/probe_mdt.py:116 | upper-casing distributes over concatenation |
| Signature.DecimalIgnoresCase | tools/probe_mdt.py:116-122 | upper-casing does not change whether a decimal is found |
| Signature.ClassifyIgnoresCase | tools/probe_mdt.py:114-122 | a reply and its upper-cased form are classified alike |
| Signature.ContainsInContext | tools/probe_mdt.py:117 | a substring occurrence survives text added before and after |
| Signature.ModelNumberInContext | tools/probe_mdt.py:117 | a `69[34]` match survives text added before and after |
| Signature.DecimalInContext | tools/probe_mdt.py:122 | a decimal match survives text added before and after |
| Signature.ClassifyInContext | tools/probe_mdt.py:114-122 | a matching reply still matches with any text around it |
| Signature.NoDigitsNoTokenNoMatch | tools/probe_mdt.py:114-122 | without digits and without `MDT`/`THOR` in any case, a reply never matches; the empty reply never matches |
| Signature.TokenMatches | tools/probe_mdt.py:115-116 | `MDT` or `THOR` in any case, or `693` or `694`, makes any text around it match |
| Signature.TokenExamples | tools/probe_mdt.py:115-116 | `thor` matches in lower case and `x694` matches through the model number |
| Signature.ClassifyExamples | tools/probe_mdt.py:114-122 | `xMDTy`, `MDT693B` and `-12.50` match and the empty reply does not |
| PortProbe.RawReply | tools/probe_mdt.py:101-111 | the raw reply is empty exactly when both reads returned nothing (a read error counts as nothing); a non-empty first read is used as it is |
| PortProbe.Replies | tools/probe_mdt.py:94-113 | one normalized reply per command |
| PortProbe.ReplyAt | tools/probe_mdt.py:95-113 | reply `j` is the normalized answer to command `j`, and a failed write gives the empty reply |
| PortProbe.MapPairs | tools/probe_mdt.py:94 | one result per pair of command and outcome |
| PortProbe.MapPairsAt | tools/probe_mdt.py:94 | the result at `j` is computed from command `j` and outcome `j` |
| PortProbe.MapPairsRemove | tools/probe_mdt.py:94-98 | dropping one command and its outcome drops exactly its result |
| PortProbe.FirstMatch | tools/probe_mdt.py:114-127 | the position of the first matching reply: it matches, and nothing before it does |
| PortProbe.LastFilled | tools/probe_mdt.py:114-129 | the position of the last non-empty reply: it is non-empty, and everything after it is empty |
| PortProbe.Probe | tools/probe_mdt.py:60-138 | the port and metadata are recorded; `open_error` is set exactly on an open failure, and then there is no match and no reply; a match carries a matching reply; a reply is never empty |
| PortProbe.Conclude | tools/probe_mdt.py:114-137 | an opened port has no `open_error`; a match carries a matching reply; a kept reply is never empty |
| PortProbe.CommandsTried | tools/probe_mdt.py:80-98 | at most all commands are tried (a failed write counts as tried), and none when the port does not open |
| PortProbe.Tried | tools/probe_mdt.py:94-127 | at most all commands are tried |
| PortProbe.Classify | tools/probe_mdt.py:116-127 | the two signature checks on a non-empty reply decide exactly `IsMatch` |
| PortProbe.ReadReply | tools/probe_mdt.py:101-113 | reading, re-reading when empty, and normalizing gives the specified reply to that command |
| PortProbe.FailedWriteNoReply | tools/probe_mdt.py:95-98 | a failed write contributes the empty reply |
| PortProbe.ProbePort | tools/probe_mdt.py:60-138 | the loop with early returns computes exactly the verdict `Probe` specifies, and tries exactly `CommandsTried` commands |
| PortProbe.FirstMatchIs | tools/probe_mdt.py:114-127 | a matching position with no earlier match is the first match |
| PortProbe.LastFilledIs | tools/probe_mdt.py:129-137 | a non-empty position followed only by empty replies is the last non-empty one |
| PortProbe.OpenFailureVerdict | tools/probe_mdt.py:80-84 | a port that does not open yields its open error, no match, no reply, and no command tried |
| PortProbe.FirstMatchWins | tools/probe_mdt.py:117-127 | when reply `k` is the first match, the verdict is a match carrying reply `k`, and exactly `k + 1` commands are tried |
| PortProbe.LastReplyWins | tools/probe_mdt.py:129-137 | without a match, the verdict is no match carrying the last non-empty reply, and every command is tried |
| PortProbe.EmptyRepliesVerdict | tools/probe_mdt.py:92-138 | when every reply is empty, the verdict is no match and no reply |
| PortProbe.LaterRepliesIgnored | tools/probe_mdt.py:117-127 | replies after the first match change neither the verdict nor the number of commands tried |
| PortProbe.FirstReplyMatches | tools/probe_mdt.py:94-121 | when the reply to the first command matches, the verdict is a match with that reply and only one command is tried |
| PortProbe.ModelReplyScenario | tools/probe_mdt.py:36 | with the script's command list, a device that answers `XR?\r` with `MDT693B\r` gives a match with reply `MDT693B` after one command |
| PortProbe.SilentPortVerdict | tools/probe_mdt.py:94-138 | if every write fails or every read returns nothing, the verdict is no match and no reply, after all commands |
| PortProbe.LaterAttemptsIgnored | tools/probe_mdt.py:117-127 | outcomes of commands after the first match change nothing |
| PortProbe.FailedWriteSkipped | tools/probe_mdt.py:95-98 | a failed write only skips its command: the verdict is that of a probe without that command |
| PortProbe.ConcludeSkipsEmpty | tools/probe_mdt.py:114 | removing an empty reply does not change the verdict |
| PortProbe.RemovedAt | tools/probe_mdt.py:95-98 | slicing out position `i` keeps the elements before it and shifts those after it down by one |
| PortProbe.FirstMatchSkipsEmpty | tools/probe_mdt.py:114 | removing an empty reply does not change which reply matches first, nor whether one matches |
| PortProbe.LastFilledSkipsEmpty | tools/probe_mdt.py:114-129 | removing an empty reply does not change which reply is kept last, nor whether one is kept |
| PortScan.Put | tools/probe_mdt.py:146 | dictionary assignment: the value is updated, a new key goes last, an existing key keeps its place |
| PortScan.PutValid | tools/probe_mdt.py:146 | assignment keeps the dictionary well-formed |
| PortScan.LastIndex | tools/probe_mdt.py:69-70 | the last position holding the name, or -1 when there is none |
| PortScan.Lookup | tools/probe_mdt.py:69-70 | the metadata lookup misses exactly when no enumerated port has that name |
| PortScan.Verdicts | tools/probe_mdt.py:144-146 | one verdict per enumerated port |
| PortScan.ScanPorts | tools/probe_mdt.py:141-147 | the loop builds exactly the dictionary `Scan` specifies |
| PortScan.DedupSpec | tools/probe_mdt.py:143-146 | the dictionary's key order holds each name once, and only the enumerated names |
| PortScan.DedupDistinct | tools/probe_mdt.py:143-146 | with distinct names, the key order is the enumeration order |
| PortScan.BuildKeys | tools/probe_mdt.py:143-146 | successive assignments give a well-formed dictionary keyed in order of first assignment |
| PortScan.BuildValues | tools/probe_mdt.py:143-146 | after successive assignments, each key holds the value of its last assignment |
| PortScan.BuildSpec | tools/probe_mdt.py:143-146 | successive assignments give a well-formed dictionary keyed in order of first assignment, and each value comes from the last assignment |
| PortScan.ScanSpec | tools/probe_mdt.py:141-147 | the scan yields one entry per distinct enumerated name, in enumeration order; each entry's `port` equals its key; each entry is the verdict of probing the last port with that name, with its metadata |
| PortScan.DistinctScan | tools/probe_mdt.py:141-147 | with distinct names, the keys are the names in order and port `i`'s entry is its own probe's verdict |
| Summary.SummaryLines | tools/probe_mdt.py:161-166 | one line per results entry |
| Summary.StatusReportsMatch | tools/probe_mdt.py:162-166 | a line reads `match=MATCH` exactly when the verdict is a match |
| Summary.StatusWord | tools/probe_mdt.py:162 | the status word starts with `MATCH` exactly for a match |
| Summary.StartsWithAppend | tools/probe_mdt.py:166 | a common head does not change whether one line starts with another text |
| Summary.LineHead | tools/probe_mdt.py:166 | every line starts with its port name and `: match=` |
| Summary.LineEndsWithReply | tools/probe_mdt.py:163-166 | a line ends with ` reply=` and the reply, and just ` reply=` when there is no reply |
| Summary.MissingMetaPrintsEmpty | tools/probe_mdt.py:164-166 | a port without enumeration metadata, or found but reporting neither manufacturer nor product, prints empty manufacturer and product fields |
| Summary.FieldTexts | tools/probe_mdt.py:164-165 | each of the manufacturer and product fields prints empty exactly when the port was not enumerated, reported no value or reported an empty one, and otherwise prints the reported value |
| Summary.ScanFieldTexts | tools/probe_mdt.py:69-73 | every scanned entry carries the metadata of the last enumerated port with its name, and its manufacturer and product fields print that port's values, or the empty string for a value it did not report |
| Summary.OpenFailureLine | tools/probe_mdt.py:80-84 | a port that does not open prints `match=no` and an empty reply |
| Summary.SummaryLinesSpec | tools/probe_mdt.py:161-166 | line `i` starts with key `i` and reads `MATCH` exactly when that entry matches |
| Summary.ScanSummary | tools/probe_mdt.py:141-166 | with distinct names, line `i` belongs to port `i` and reads `MATCH` exactly when that port's entry matches |

## Left out

- Serial I/O and timing are not modelled. Opening the port, the buffer resets, `write`, `read`, `close` and `time.sleep(0.05)` are replaced by a given `PortOutcome`. The read sizes 1024 and 2048 and the baud rate and timeout are not modelled.
- `close` is not modelled. The model assumes that `ser.close()` on a match (lines 120 and 126) never raises: it is not inside a `try`, so an exception there would abort the whole scan. The `close` after the loop (lines 131-134) swallows its exceptions. The open-failure return (line 84) has no port to close.
- Port enumeration is an input sequence of `PortInfo`. `probe_port` calls `list_ports.comports()` a second time. The model assumes that call returns the same list.
- The exception path of the metadata lookup is not modelled. The model assumes that lookup never raises.
- An enumerated port's info object is always truthy, so `if pinfo:` becomes "the name was found".
- The `except` branch of the decoding (`s = str(raw)`) is left out. Decoding with `errors='ignore'` cannot raise, so that branch is unreachable. The same holds for the `try` around the echo removal.
- The `res` dictionary's optional keys are modelled as `Option` fields. The keys `manufacturer`, `product`, `vid`, `pid` and `hwid` are all present when the port was found, and all absent otherwise; the model reads "absent" as `None`. The `vid` and `pid` values are kept as opaque integers.
- Command-line parsing, JSON output, file writing and the "Saved N entries" message (lines 150-178) are left out. They are library I/O.
- Printing is modelled as the list of lines `Summary.SummaryLines` returns.
- `tools/get_mdt_dlls.py` is not part of this model. It is a network download with SHA-256 hashing.
- `find_MDT_devices.py`, `MDTControlGUI.py` and `src/mdt/__init__.py` are not part of this model. They only delegate to modules outside it.
- Reply.Normalize: the property "a reply made only of framing characters and whitespace normalizes to the empty string" is proved for replies made only of framing characters (`NormalizeFramingOnly`) and for replies made only of whitespace (`NormalizeWhitespaceOnly`). It fails for some mixes, because whitespace is trimmed before the framing is stripped: `!\t!` to `XR?\r` leaves a tab (`NormalizeMixedExample`), while `\t!` normalizes to the empty string.
