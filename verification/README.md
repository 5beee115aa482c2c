# Camera scanner core, modelled in Dafny

W8CameraHackV2 scans a country's IPv4 address space for web-facing cameras. It
fetches the regional registry's allocation list and keeps the IPv4 records of
the selected country as range descriptors `"<start>/<count>"`. It saves them
to a range file, loads them back, and expands each descriptor into host
addresses. It queues an (address, 80) and an (address, 8080) work item per
host. For every answer it classifies the HTTP response against two camera
signatures, reports each camera address once, and appends a record to the
results file. Ctrl+C sets a stop flag and Ctrl+Z toggles a pause flag.

This project models that logic as pure functions over strings, integers and
sequences, plus three methods for the enqueue loop (`ExpandAt`, `EnqueueHosts`,
`EnqueueRanges`):

| module | file | models |
|---|---|---|
| `Optional` | optional.dfy | the `Option` type used for every error path |
| `Text` | text.dfy | Python's `str.strip` (with `str.isspace` whitespace), `str.split`, `str.join`, `in` on strings, ASCII `upper`/`lower` |
| `Decimal` | decimal.dfy | Python's `int()` of a string and `str()` of an integer |
| `IPv4` | ipv4.dfy | addresses as naturals below 2^32, CIDR networks, `hosts()`, dotted-quad parsing and printing |
| `Expander` | expander.dfy | `cidr_to_ip_range` |
| `Registry` | registry.dfy | the per-line filter and the result of `fetch_country_ipv4` |
| `RangeFile` | range_file.dfy | `save_ip_ranges` / `load_ip_ranges` and the file text between them |
| `Probe` | probe.dfy | `scan` after the socket read: gate, classification, de-duplication, URL, record |
| `Controller` | controller.dfy | the enqueue loop of `run_scanner`, the flag handlers, a sequential session |

The model follows the code, including these behaviours a reader might not expect:

- A count that is not a power of two is not rejected. `32 - int(log2(count))`
  rounds it down to the largest power of two not above it, so `"a/768"`
  expands the /23 of 512 addresses (`Expander.RoundsDownToPowerOfTwo`).
- The prefix is valid for every count from 1 to 2^33 - 1. Counts in
  [2^32, 2^33) give prefix 0, the whole address space. Only counts of 2^33
  and above make the prefix negative and the descriptor expand to nothing
  (`Expander.PrefixFor`).
- `strict=False` masks the start address down to the network boundary. An
  unaligned start therefore expands hosts below the start address
  (`IPv4.NetworkOf`).
- A registry record whose value field `int()` rejects raises out of the loop.
  The broad `except` around it then makes the whole fetch return `[]`, even
  the descriptors already collected (`Registry.OneBadValueLosesAll`).
- `detected_ips` is a module global that is never cleared. `run_scanner`
  resets only the two flags, so an address found in one run is never reported
  again in a later run of the same process (`Controller.NoRepeatReport`).

Time, sockets and threads become inputs of the model:

- The detection time is an opaque string.
- The socket answer is an `Option<string>`, with `None` for any connect, send,
  receive or decode failure.
- The moment the stop flag becomes set during the enqueue loop is given as
  the index of the first stop check that sees it.
- The `hosts()` of /31 and /32 networks is a parameter `tiny`.

## Model

| member | source | states |
|---|---|---|
| Text.Strip | W8CameraHackV2.py:223 | the result is a contiguous piece of the input with only whitespace (Python's `isspace` set) before and after it, has no whitespace at either end, and is empty exactly when the input is all whitespace |
| Text.StripUnique | W8CameraHackV2.py:223 | any piece of the input without whitespace at its ends and with only whitespace around it is the result of `strip()` |
| Text.StripIdempotent | W8CameraHackV2.py:404 | stripping twice is stripping once |
| Text.JoinSplit | W8CameraHackV2.py:283 | joining the pieces of a split with the separator gives the text back |
| Text.Split | W8CameraHackV2.py:228 | `split` gives at least one piece and no piece holds a separator |
| Text.SplitNone | W8CameraHackV2.py:228 | a string without a separator splits into itself alone |
| Text.SplitAtSeparator | W8CameraHackV2.py:228 | a separator ends the first piece and the rest of the string splits on its own |
| Text.SplitJoin | W8CameraHackV2.py:228 | splitting parts joined by a separator, none of which holds a separator, gives the parts back |
| Decimal.NatToString | W8CameraHackV2.py:234 | `str()` of a natural is canonical decimal (no leading zero) whose value is the number |
| Decimal.CanonicalRoundTrip | W8CameraHackV2.py:297 | a canonical digit string is the printed form of its own value |
| Decimal.ParseIntOf | W8CameraHackV2.py:233 | a stripped numeral whose sign-free body is canonical digits reads as their value, negated after a '-' |
| Decimal.ParseIntString | W8CameraHackV2.py:233-234 | `int()` reads back every integer `str()` prints, negatives included |
| Decimal.IntStripSlice | W8CameraHackV2.py:233 | the text `int()` reads is a contiguous piece of the input with only `int()` whitespace before and after it (Python's `isspace` set less U+1C-U+1F), and is empty exactly when the input is all such whitespace |
| Decimal.IntStripUnique | W8CameraHackV2.py:233 | any piece of the input without `int()` whitespace at its ends and with only such whitespace around it is the text `int()` reads |
| Decimal.ParseIntForm | W8CameraHackV2.py:233 | `int()` accepts every optional sign followed by digits grouped by single underscores (leading zeros allowed), with `int()` whitespace around it, and reads its value |
| Decimal.ParseIntOnlyForms | W8CameraHackV2.py:233 | `int()` accepts nothing else: every accepted text has that shape |
| Decimal.NumeralExample | W8CameraHackV2.py:233 | `+0_7` is a numeral of value 7 |
| Decimal.ParseIntExample | W8CameraHackV2.py:233 | `int(' +0_7\n')` strips to `+0_7` and reads 7 |
| Decimal.SeparatorControlRejected | W8CameraHackV2.py:233 | a text starting with one of the separator controls U+1C-U+1F is not an integer, although `str.strip` would remove that character |
| Decimal.SeparatorControlExample | W8CameraHackV2.py:233 | `int('\x1c5')` fails while `'\x1c5'.strip()` is `'5'` |
| IPv4.FloorLog2 | W8CameraHackV2.py:294 | the integer part k of log2 n satisfies 2^k <= n < 2^(k+1) |
| IPv4.FloorLog2Unique | W8CameraHackV2.py:294 | that k is the only such exponent |
| IPv4.NetworkOf | W8CameraHackV2.py:297 | masking with `strict=False` gives a valid network of the requested prefix whose range holds the address |
| IPv4.HostRange | W8CameraHackV2.py:299 | `hosts()` up to /30 has 2^(32-prefix) - 2 addresses, strictly increasing, all strictly between network and broadcast |
| IPv4.HostRangeComplete | W8CameraHackV2.py:299 | every address strictly inside the network is in `hosts()`, at its offset from the base |
| IPv4.HostRangeSlash30 | W8CameraHackV2.py:299 | a /30 has exactly the two hosts after its base |
| IPv4.OctetsOfFromOctets | W8CameraHackV2.py:297 | the four octets of an address built from four octets are those octets |
| IPv4.ParseOctet | W8CameraHackV2.py:297 | an accepted octet is a canonical digit string whose value is below 256 |
| IPv4.ParseIp | W8CameraHackV2.py:297 | a text is an address exactly when it splits on '.' into four valid octets, and the address's octets are those pieces' values in order |
| IPv4.ParseFormatIp | W8CameraHackV2.py:297-299 | parsing `str(ip)` gives the address back |
| IPv4.FormatParseIp | W8CameraHackV2.py:297-299 | every text `IPv4Address` accepts is the printed form of its address |
| IPv4.FormatIpInjective | W8CameraHackV2.py:299 | distinct addresses print differently |
| Expander.PrefixFor | W8CameraHackV2.py:290-294 | a prefix exists exactly for 1 <= count < 2^33; its block is the largest power of two not above the count |
| Expander.PrefixRoundsDown | W8CameraHackV2.py:294 | a count derives the same prefix as its largest power of two |
| Expander.ParseDescriptor | W8CameraHackV2.py:283-297 | a descriptor yields a network exactly when it splits in two on '/', the count is an integer in range and the address parses; the network holds the address and its block brackets the count |
| Expander.NetworkFor | W8CameraHackV2.py:294-297 | a count and an address give a network exactly when 1 <= count < 2^33; it holds the address and its block brackets the count |
| Expander.CidrToIpRange | W8CameraHackV2.py:279-302 | every malformed descriptor gives `[]`; up to /30 the expansion has 2^(32-prefix) - 2 entries |
| Expander.ExpansionAddresses | W8CameraHackV2.py:297-299 | every entry parses to an address strictly between network and broadcast, in ascending order |
| Expander.FormattedHostsParse | W8CameraHackV2.py:299 | each printed host parses back to the host |
| Expander.FormattedHostsOrdered | W8CameraHackV2.py:299 | the printed hosts of a network read back as ascending addresses strictly inside it |
| Expander.FormattedHostsComplete | W8CameraHackV2.py:299 | the printed hosts of a network include every address strictly inside it |
| Expander.ExpansionDistinct | W8CameraHackV2.py:299 | no address is listed twice |
| Expander.ExpansionComplete | W8CameraHackV2.py:299 | every address strictly inside the network is listed |
| Expander.DescriptorSplits | W8CameraHackV2.py:283-284 | a descriptor written as `f"{start_ip}/{count}"` splits back into the start text and the count |
| Expander.RoundsDownToPowerOfTwo | W8CameraHackV2.py:294-299 | a descriptor expands exactly like the one whose count is rounded down to a power of two |
| Expander.DescriptorNetwork | W8CameraHackV2.py:283-297 | such a descriptor denotes the network of the start address with the derived prefix |
| Expander.PrefixOfPowerOfTwo | W8CameraHackV2.py:294 | a count of 2^k gives prefix 32 - k, whose block holds 2^k addresses |
| Expander.HostCount | W8CameraHackV2.py:294-299 | a count of 2^k, 2 <= k <= 32, expands to 2^k - 2 hosts |
| Expander.Slash30Expansion | W8CameraHackV2.py:297-299 | a /30 descriptor expands to the two addresses after the network base |
| Expander.SeparatorCountExpandsToNothing | W8CameraHackV2.py:283-284 | a descriptor whose count text starts with a separator control U+1C-U+1F expands to `[]` |
| Expander.CountFourGivesTwoHosts | W8CameraHackV2.py:290-299 | `"a/4"` expands to the two addresses after a with its two low bits cleared |
| Registry.ClassifyLine | W8CameraHackV2.py:223-234 | blank and `#` lines are skipped; a line contributes exactly when it has at least 7 fields, field 1 equals the country code and field 2 equals `ipv4` (both ignoring case), and field 4 is an integer; the contribution is `parts[3] + "/" + str(int(parts[4]))`; a selected line whose field 4 is not an integer fails |
| Registry.SeparatorValueFails | W8CameraHackV2.py:231-233 | a selected record whose value field starts with a separator control U+1C-U+1F fails, so the fetch is `[]` |
| Registry.CollectAppend | W8CameraHackV2.py:222-241 | gathering line outcomes is a homomorphism over concatenation, so output order follows input order |
| Registry.CollectFails | W8CameraHackV2.py:233 | gathering fails exactly when some outcome fails |
| Registry.CollectMembers | W8CameraHackV2.py:234 | a descriptor is gathered exactly when some outcome emits it |
| Registry.FilterLines | W8CameraHackV2.py:222-241 | a successful filter yields at most one descriptor per line |
| Registry.FilterAppend | W8CameraHackV2.py:222-241 | the filter of a split download is the two halves' results in order |
| Registry.FilterFails | W8CameraHackV2.py:231-233 | the filter fails exactly when some selected record's value field is not an integer |
| Registry.FilterMembers | W8CameraHackV2.py:231-234 | a descriptor is in the output exactly when some line emits it |
| Registry.IgnorableContributesNothing | W8CameraHackV2.py:225-226 | inserting a blank or comment line anywhere does not change the result |
| Registry.FetchCountryIpv4 | W8CameraHackV2.py:202-255 | no country code or a failed download gives `[]`; otherwise the filtered descriptors |
| Registry.OneBadValueLosesAll | W8CameraHackV2.py:233 | one selected record with a malformed value field makes the whole fetch `[]` |
| Registry.FetchedFromSelected | W8CameraHackV2.py:231-234 | every fetched descriptor is the start field and count of an IPv4 record of the selected country |
| Registry.EmittedDescriptorSplits | W8CameraHackV2.py:234 | an emitted descriptor, read by the expander, gives back the record's start field and count |
| RangeFile.NonBlank | W8CameraHackV2.py:404 | the filter keeps only non-empty entries of its input and never lengthens it |
| RangeFile.NonBlankMembers | W8CameraHackV2.py:404 | an entry survives the blank filter exactly when it is non-empty |
| RangeFile.NonBlankKeeps | W8CameraHackV2.py:404 | a list without blank entries passes the filter unchanged |
| RangeFile.NonBlankAppend | W8CameraHackV2.py:404 | the filter keeps order: a split list filters to the two halves' results in order |
| RangeFile.StripNonBlankMembers | W8CameraHackV2.py:404 | an entry is loaded exactly when it is the non-empty strip of some line |
| RangeFile.StripNonBlankNoBreaks | W8CameraHackV2.py:404 | lines without line breaks come out clean: non-empty, stripped and free of line breaks |
| RangeFile.StripNonBlankClean | W8CameraHackV2.py:404 | clean lines pass through unchanged |
| RangeFile.ReadRanges | W8CameraHackV2.py:403-404 | every loaded entry is non-empty, stripped and free of line breaks |
| RangeFile.WriteRanges | W8CameraHackV2.py:266-268 | an empty list writes empty text; entries without line breaks split back, on line breaks, into exactly those entries; entries without `'\n'` split back on `'\n'` alone, so `'\n'` is the separator written |
| RangeFile.NewlineJoin | W8CameraHackV2.py:268 | entries joined by `'\n'` split back on `'\n'`, and on every line break, when they hold none |
| RangeFile.ReadWrite | W8CameraHackV2.py:400-404 | loading the text `save_ip_ranges` writes (line 268) for entries that hold no line break strips them and drops the blank ones, in order |
| RangeFile.ReadWriteClean | W8CameraHackV2.py:400-404 | clean entries survive a save (line 268) and a load exactly |
| RangeFile.ReadIdempotent | W8CameraHackV2.py:400-404 | loading what was saved from a load changes nothing |
| RangeFile.SaveIpRanges | W8CameraHackV2.py:258-272 | an empty list reports failure and leaves the file as it was; otherwise the file is replaced by the newline join |
| RangeFile.LoadIpRanges | W8CameraHackV2.py:400-411 | `None` exactly when the file is missing or unreadable; otherwise clean entries |
| RangeFile.SaveThenLoad | W8CameraHackV2.py:258-272 | saving clean entries then loading them (lines 403-404) gives them back; saving nothing leaves the old file to be loaded |
| Probe.FirstMatch | W8CameraHackV2.py:330-342 | the first rule whose marker occurs, with no earlier rule's marker occurring; none only when no marker occurs |
| Probe.Classify | W8CameraHackV2.py:330-342 | Dahua exactly when "HTTP" and the Dahua title occur; HIK exactly when "HTTP" and "login.asp" occur but the Dahua title does not; nothing otherwise |
| Probe.Url | W8CameraHackV2.py:328 | the URL is exactly `http://` + address + `:8080` for port 8080, and `http://` + address for every other port |
| Probe.PortText | W8CameraHackV2.py:328 | the port 8080 prints as `8080` |
| Probe.UrlReadBack | W8CameraHackV2.py:328 | for an address without ':', the URL after `http://` splits on ':' into the address and `8080` for port 8080, and into the address alone otherwise |
| Probe.UrlAddress | W8CameraHackV2.py:328 | two ports give the same URL exactly when both or neither are 8080 |
| Probe.Scan | W8CameraHackV2.py:310-342 | stop returns at once; pause holds the call; a finding happens exactly when the address is new and the response names a camera; the detected set grows by that address only |
| Probe.Record | W8CameraHackV2.py:348-354 | for a finding whose text fields hold no newline, the record splits on newlines into the seven written lines (bar, type, address, port, URL, time, bar), the blank line and an empty last piece |
| Probe.TerminatedJoin | W8CameraHackV2.py:348-354 | lines each written with a trailing newline are the lines joined by newlines with an empty last piece |
| Probe.ParseRecordRoundTrip | W8CameraHackV2.py:348-354 | the seven writes (bar, type, address, port, URL, time, bar and blank line) read back to the finding they were written from |
| Controller.HostItemsAt | W8CameraHackV2.py:476-477 | host k's items are at positions 2k (port 80) and 2k + 1 (port 8080) |
| Controller.HostItemsPrefix | W8CameraHackV2.py:473-478 | the items of the first j hosts begin the items of all hosts |
| Controller.FullQueueLength | W8CameraHackV2.py:465-478 | the full queue has two items per host of every range |
| Controller.HostsQueued | W8CameraHackV2.py:465-475 | a range queues all its hosts without stop and none when the check before it sees stop; otherwise it queues hosts exactly while their checks do not see stop |
| Controller.CutQueueNoStop | W8CameraHackV2.py:465-478 | when no check sees stop the cut queue is the full queue |
| Controller.CutQueueStopAtOnce | W8CameraHackV2.py:465-467 | stop seen at the very first check queues nothing |
| Controller.CutQueuePrefix | W8CameraHackV2.py:465-478 | the cut queue is always a prefix of the full queue |
| Controller.CutQueueTail | W8CameraHackV2.py:465-467 | ranges whose checks all come at or after the first check that sees stop add nothing |
| Controller.FullQueuePrefix | W8CameraHackV2.py:465-478 | the queue of the first i ranges begins the full queue |
| Controller.PartialQueuePrefix | W8CameraHackV2.py:465-478 | stopping part-way through a range still leaves a prefix of the full queue |
| Controller.EnqueueHosts | W8CameraHackV2.py:473-478 | the inner loop queues the items of a prefix of the hosts, and stops short only when stop is seen |
| Controller.EnqueueRanges | W8CameraHackV2.py:464-478 | with stop checked before each range and before each host, the queue is exactly the items, in range and host order, of every host whose check comes before the first check that sees stop; it has 2 x total_ips items, begins the full queue, and is all of it without stop |
| Controller.Step | W8CameraHackV2.py:310-342 | Ctrl+C sets stop and Ctrl+Z flips pause (lines 381-393); a new run clears both flags (lines 419-420) and its end sets stop (line 495); a finding is appended only by an attempt on an address not detected before whose response classifies, and it then holds that camera type, the address, port, URL and time, and the detected set grows by exactly that address; conversely such an attempt with both flags clear always appends one; without a new finding the detected set is unchanged |
| Controller.StepConsistent | W8CameraHackV2.py:330-339 | each event keeps the detected set equal to the reported addresses, each reported once |
| Controller.RunConsistent | W8CameraHackV2.py:330-339 | so does every sequence of events |
| Controller.DistinctCount | W8CameraHackV2.py:502 | with distinct addresses there are as many addresses as findings |
| Controller.CamerasFoundCount | W8CameraHackV2.py:502 | from program start, the number of cameras reported (the size of the detected set declared at line 106) equals the number of records written, over any sequence of runs |
| Controller.RunGrows | W8CameraHackV2.py:414-420 | the detected set is never cleared, so it never shrinks and findings are only appended, across runs too |
| Controller.NoRepeatReport | W8CameraHackV2.py:330-339 | an address detected earlier, in this run or an earlier one, is never reported again |
| Controller.StopSticky | W8CameraHackV2.py:381-384 | until a new run clears it (line 419), stop stays set once set |
| Controller.StoppedScansNothing | W8CameraHackV2.py:310-311 | while stop is set and no run starts, attempts change neither the detected set nor the findings |
| Controller.PauseToggles | W8CameraHackV2.py:393 | n Ctrl+Z presses flip pause n times and leave stop alone |
| Controller.StartRunKeepsDetected | W8CameraHackV2.py:414-420 | a new run clears both flags and keeps every address detected earlier |

## Left out

- Sockets (connect, send, recv, decode): the answer is an input, `None` for any failure, which `scan` swallows.
- Worker threads, the `Queue`, the `execute` loop and the unsynchronised race on `detected_ips`: the session applies attempts one at a time.
- Signal registration, `sys.exit` after Ctrl+C and `KeyboardInterrupt` handling: only the flag updates are modelled.
- The HTTP clients (`aiohttp`, `requests`), status codes and timeouts: a download is an `Option` of its lines.
- Writing failures of the range file and the results file (both caught), and the results file's growth: each finding's record text is modelled, not the file.
- Floating-point `math.log2`: replaced by the exact integer floor of log2. Below 2^33 the distance from log2 of a count to the next integer is far above double precision, so the integer part of the double result is that floor.
- The `hosts()` of /31 and /32 networks: library special cases, left to the parameter `tiny`.
- Timestamps, elapsed time, sleeps and the busy wait while paused: the time is an input string, and a paused attempt is `Blocked` until an attempt after the resume.
- Console output, banners, menus, the country table and `update_ip_ranges`'s sequencing of fetch, save and scan.
- Decimal.NatToString: no limit on the number of digits, where Python 3.11's `str()` of an integer with more than 4300 digits raises `ValueError` by default. The registry's counts and the octets are far shorter.
- Decimal.ParseInt: no contract of its own. `ParseIntString` states that it reads back every integer `str()` prints. `ParseIntForm` and `ParseIntOnlyForms` state the syntax it accepts: an optional sign, ASCII digits grouped by single underscores, and the whitespace `int()` skips around them. That whitespace is ASCII space, tab to carriage return and the non-ASCII `isspace` characters, but not the separator controls U+1C-U+1F, which `str.strip` removes and `int()` rejects (`Decimal.IsIntSpace`). Non-ASCII digits, which `int()` also accepts, are not modelled. Neither is the digit limit of Python 3.11 and later: by default `int()` of a string with more than 4300 digits raises `ValueError`, where the model reads the value. A registry value field that long would make the source's fetch `[]` (line 233), while the model emits its descriptor. The expander's `int()` at line 284 has the same limit, and the model does not apply it there either.
- Text.Upper: ASCII case mapping only, where Python's `upper`/`lower` are Unicode-aware.
- Controller.CamerasFoundCount: assumes every reported camera's record is written. In the source, the console `print` at line 335 or 342 runs after `detected_ips.add` and before the write at lines 345-355. If that print raised, or opening or writing the results file failed, the address would be detected with no record written, and `scan` would swallow the exception.
- Controller.EnqueueRanges: the moment stop is set is an input (the index of the first stop check that sees it), not the asynchronous signal.
