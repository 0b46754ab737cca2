# speedtest-cli throughput engine, modelled in Dafny

This project models the core of a Go network speed test: the byte counter
(`BytesCounter`) that download and upload streams write to and read through,
the rates computed from it, the throttled download/upload progress snapshots,
and the progress-event helpers next to it: the `/proc/net/dev`-style
interface-statistics parser, the WAN interface choice and the internal-IP
lookup for the header event.

Everything is pure: the counter is an immutable record and `Write` / `Read`
are record-to-record transition functions that also return the snapshot they
emitted, if any. Wall-clock time is an explicit integer number of
milliseconds (`now`). The wrapped payload reader is represented only by what
one read of it returned (`n` bytes and an optional error). Float64 arithmetic
is modelled with `real`, and `None` stands for a NaN or an infinity.

Modules, one per concern:

- `Wrappers` (`wrappers.dfy`): `Option`.
- `Strconv` (`strconv.dfy`): Go's `strconv.ParseInt(s, 10, 64)` and decimal formatting.
- `Strings` (`strings.dfy`): Go's `strings.TrimSpace` and `strings.Fields`.
- `RealArith` (`realarith.dfy`): multiplication by a positive real is monotone, and integer and real products agree.
- `Events` (`events.dfy`): the tagged progress snapshot and its bandwidth and completion arithmetic.
- `Rates` (`rates.dfy`): the unit choice of `AvgHumanize`.
- `Counter` (`counter.dfy`): `BytesCounter` and its methods.
- `Trace` (`trace.dfy`): runs of `Write`/`Read` calls and what holds over them.
- `Progress` (`progress.dfy`): `SendDownloadProgress`, `SendUploadProgress`, `SendPingProgress`.
- `IfStats` (`ifstats.dfy`): `getInterfaceStats` over a sequence of lines.
- `NetIf` (`netif.dfy`): `getWanInterface` and `getIPFromInterface` over interface records.

Behaviour of the code that the model keeps deliberately:

- The throttle is strict. A snapshot needs strictly more than the interval
  since the last one (`>`, not `>=`).
- The snapshot bandwidth is not guarded against zero elapsed time. The model
  returns `None` there, because Go leaves the value unspecified.
- The completion fraction is capped at 1 but not floored at 0.
- The unit labels are `bytes/s`, `KB/s`, `MB/s` and `GB/s` in both bases. There
  are no `KiB`-style labels.
- The error of the rewind inside `Read` is discarded. It is not fatal.
- The payload position stays inside the payload only while the wrapped
  reader never yields more than what is left of the payload.
  `Trace.PositionStaysInPayload` states this assumption explicitly.

## Model

| member | source | states |
|---|---|---|
| Counter.NewCounter | defs/bytes_counter.go:53-58 | a new counter has a 100 ms progress interval and every other field zero or empty |
| Counter.NewCounterIsSilent | defs/bytes_counter.go:53-67 | a counter that was never given a transfer type emits no snapshot on any write or read |
| Counter.SetMebi | defs/bytes_counter.go:125-127 | selects the base; no other field changes |
| Counter.SetTransferType | defs/bytes_counter.go:130-132 | sets the transfer type; no other field changes |
| Counter.SetDuration | defs/bytes_counter.go:135-137 | sets the phase duration; no other field changes |
| Counter.SetUploadSize | defs/bytes_counter.go:140-142 | the payload size is given in KiB and stored as `k * 1024` bytes; no other field changes |
| Counter.Start | defs/bytes_counter.go:192-195 | the start and the last-progress time both become `now`; nothing else changes |
| Counter.StartOpensInterval | defs/bytes_counter.go:192-195 | `Start` also resets the throttle: after `Start` at `t`, a write emits exactly when the type is "download" and the time is strictly later than `t` plus the interval |
| Counter.Write | defs/bytes_counter.go:61-88 | returns `(len, nil)`; the total grows by exactly `len`; a download snapshot is emitted iff strictly more than the interval has passed and the type is "download"; it carries the new total and `now - start`; only the last-progress time may change besides, and only to `now` when emitting |
| Counter.ResetReader | defs/bytes_counter.go:186-189 | rewinding puts the position back to 0 and changes nothing else |
| Counter.Read | defs/bytes_counter.go:91-122 | returns the reader's `n` and error unchanged; total and position both grow by `n`, and the position returns to 0 exactly when it reaches the payload size; from a position inside the payload, a read within the remaining bytes leaves it inside; an upload snapshot is emitted iff strictly more than the interval has passed and the type is "upload" |
| Counter.SeekWrapperSeek | defs/bytes_counter.go:213-215 | a wrapper that cannot seek reports offset 0 and no error for any request |
| Counter.AvgBytes | defs/bytes_counter.go:145-147 | the average rate times the elapsed seconds is the total; non-negative for a non-negative total |
| Counter.CurrentSpeed | defs/bytes_counter.go:203-205 | the current speed is the same quantity as the average rate |
| Counter.AvgMbps | defs/bytes_counter.go:150-156 | megabits per second: times 10^6 (or 2^20 in binary mode) it is eight times the byte rate |
| Counter.AvgHumanize | defs/bytes_counter.go:159-176 | the average rate expressed in the unit `Rates.Expresses` characterises, for the counter's base |
| Rates.Humanize | defs/bytes_counter.go:159-176 | the result scales back to the input; its value is below the base unless the unit is GB; every smaller unit would show at least the base |
| Rates.ExpressesUnique | defs/bytes_counter.go:167-175 | that characterisation admits exactly one value and unit for each input |
| Rates.HumanizeMonotone | defs/bytes_counter.go:167-175 | a larger rate is never shown in a smaller unit |
| Rates.HumanizeExamples | defs/bytes_counter.go:167-175 | 500, 5000, 5e6, 5e9 bytes/s in decimal give 500 bytes, 5 KB, 5 MB, 5 GB; 5e12 stays in GB; binary mode divides by 1024 |
| Rates.HumanizeLabels | defs/bytes_counter.go:167-175 | `Rates.Label` prints `bytes/s`, `KB/s`, `MB/s` and `GB/s` for the four units, in decimal and binary mode alike |
| Rates.LabelInjective | defs/bytes_counter.go:168-174 | the four labels are distinct, so the label printed after the number names the chosen unit |
| Rates.ScaleIsPower | defs/bytes_counter.go:162-174 | each unit stands for the base raised to its position |
| Events.Bandwidth | defs/bytes_counter.go:73 | defined exactly when time has elapsed; for positive elapsed time and bytes, the truncated bytes per second `r` satisfies `r * elapsed <= bytes * 1000 < (r + 1) * elapsed` |
| Events.TruncateTowardZero | defs/bytes_counter.go:73 | the integer conversion truncates toward zero, within one of the real value |
| Events.Completion | defs/bytes_counter.go:74-77 | at most 1; for a positive duration `elapsed / duration` below the duration and exactly 1 from it on, within [0, 1] for non-negative elapsed; for a zero duration exactly 1 (+Inf capped) once time has passed and undefined (NaN or -Inf) otherwise; for a negative duration `elapsed / duration` while elapsed exceeds the duration and exactly 1 from there down |
| Events.CompletionMonotone | defs/bytes_counter.go:74-77 | for a positive duration, the completion fraction never decreases as time passes |
| Events.TransferSnapshot | defs/bytes_counter.go:68-77 | the snapshot is tagged with its kind and carries the total, `now - start`, the bandwidth `Events.Bandwidth` gives for them and the completion `Events.Completion` gives against the duration; so the completion is at most 1, and within [0, 1] for a positive duration after the start |
| Trace.ReturnedIsRequested | defs/bytes_counter.go:61-122 | every write and read returns exactly the count it was given, whatever the counter's state |
| Trace.TotalIsSumOfReturned | defs/bytes_counter.go:61-122 | over any run of writes and reads, the total grows by exactly the sum of the returned counts, including those of reads that returned an error |
| Trace.TotalCountsAllCalls | defs/bytes_counter.go:197-200 | `Total` of a counter that started at zero reports exactly the bytes written or read through it, the sum of the counts of all calls |
| Trace.TotalMonotone | defs/bytes_counter.go:61-122 | the total never decreases |
| Trace.RunKeepsConfiguration | defs/bytes_counter.go:61-122 | writes and reads never change the start, payload size, interval, transfer type, duration or base |
| Trace.SameCountsSameTotal | defs/bytes_counter.go:61-122 | runs whose calls carry the same byte counts, in any order, end with the same total |
| Trace.AvgBytesOrderIndependent | defs/bytes_counter.go:144-147 | such runs keep the start time and report the same average rate at any later time |
| Trace.PositionStaysInPayload | defs/bytes_counter.go:91-99 | with a non-empty payload and a reader that never yields more than remains of it, the position stays in `[0, uploadSize)` after every call |
| Trace.EmissionBound | defs/bytes_counter.go:67-84 | snapshots are more than an interval apart: the number emitted up to time `until`, times the interval plus one, is at most the time since the last snapshot before the run |
| Trace.EmittedBytesOrdered | defs/bytes_counter.go:71-105 | emitted snapshots report non-decreasing totals, each between the totals before and after the run |
| Progress.SendDownloadProgress | defs/progress.go:247-258 | a download snapshot with the counter's total, `now - start`, the bandwidth `Events.Bandwidth` gives for them, and the completion `Events.Completion` gives against `durationMs` (at most 1, within [0, 1] for a positive duration) |
| Progress.SendUploadProgress | defs/progress.go:268-279 | the same for an upload, with the same bandwidth and completion values |
| Progress.SendPingProgress | defs/progress.go:232-238 | a ping snapshot passing latency, jitter and progress through unchanged |
| Progress.WriteEmitsDownloadProgress | defs/progress.go:247-258 | the snapshot a due `Write` emits is the one `SendDownloadProgress` builds for the counter's own duration |
| Progress.ReadEmitsUploadProgress | defs/progress.go:268-279 | the snapshot a due `Read` emits is the one `SendUploadProgress` builds for the counter's own duration |
| Strconv.ParseInt | defs/progress.go:108-110 | a parsed value fits in 64 signed bits and comes from an optional sign followed by at least one and only ASCII digits (a lone sign fails); a negative value needs a minus sign |
| Strconv.ParseUnsigned | defs/progress.go:108-110 | bare digits parse to their decimal value when it fits in 64 signed bits, and fail otherwise |
| Strconv.ParseNegative | defs/progress.go:108-110 | a minus sign before digits gives the negated value when it fits in 64 signed bits, and fails otherwise |
| Strconv.ParsePlus | defs/progress.go:108-110 | a plus sign before digits parses exactly as the bare digits do |
| Strconv.ParseFormatRoundTrip | defs/progress.go:108-110 | every 64-bit value written in decimal parses back to itself |
| Strconv.ParseIntRejectsOutOfRange | defs/progress.go:108-110 | a value outside 64 signed bits fails to parse and so leaves its counter unchanged |
| Strings.IsSpaceIsWhiteSpace | defs/progress.go:104-106 | the white space `TrimSpace` and `Fields` cut at is exactly the Unicode White_Space set: tab through carriage return, space, U+0085, U+00A0, U+1680, U+2000-U+200A, U+2028, U+2029, U+202F, U+205F and U+3000 |
| Strings.TrimSpace | defs/progress.go:104 | the result is the slice of the line left after cutting only white space from its start and its end, and it neither starts nor ends with white space; so it is empty exactly when the line is all white space |
| Strings.TrimLeftSpace | defs/progress.go:104 | trimming keeps a suffix and removes only white space |
| Strings.TrimRightSpace | defs/progress.go:104 | trimming keeps a prefix and removes only white space |
| Strings.Fields | defs/progress.go:106 | every field is non-empty and free of white space |
| Strings.FieldsOfSpaced | defs/progress.go:106 | words separated by any non-empty runs of white space, with any white space before and after them, split back into exactly those words |
| Strings.SplitAround | defs/progress.go:106 | every line is its fields with white space around and between them, so the fields are exactly its maximal runs of non-white-space characters |
| Strings.FieldsOfTrimSpace | defs/progress.go:104-106 | trimming the line first changes none of its fields |
| Strings.FirstWordSurvivesTrim | defs/progress.go:104-105 | a first word preceded by any white space is a prefix of the trimmed line, so the prefix test sees it |
| Strings.FieldsOfJoin | defs/progress.go:106 | splitting words joined by spaces gives the words back |
| IfStats.ParseFields | defs/progress.go:108-155 | each field is parsed on its own as a 64-bit decimal integer, in order |
| IfStats.FillCounters | defs/progress.go:107-156 | the k-th of eight parsed fields fills the k-th counter when it parsed, and leaves that counter unchanged otherwise |
| IfStats.ScanLine | defs/progress.go:104-157 | a line that is not an `eth0:` entry changes nothing; the line fails exactly when it is an entry with fewer than 17 fields (the index-out-of-range panic) |
| IfStats.ScanLineColumn | defs/progress.go:104-157 | a line that is not a short entry is read without failing, and field j of an entry, when it parses, becomes the counter of column j (1..8 receive, 9..16 transmit, in order); otherwise that counter keeps its value |
| IfStats.ScanFromFails | defs/progress.go:103-157 | scanning the lines fails exactly when one of them is a short entry |
| IfStats.ScanFromColumns | defs/progress.go:103-157 | when no line is a short entry the scan succeeds, and each counter holds its field from the last entry where that field parses, or its value from before the scan |
| IfStats.GetInterfaceStatsSpec | defs/progress.go:92-161 | the scan fails exactly when some entry is too short; otherwise each counter holds its field from the last entry where that field parses, and 0 if none |
| IfStats.NoEntryAllZero | defs/progress.go:92-161 | without an `eth0:` line every counter is 0 |
| IfStats.ScanRenderedEntry | defs/progress.go:103-157 | an entry whose name and 64-bit counters are joined by single spaces reads back as exactly those counters |
| IfStats.ScanPaddedEntry | defs/progress.go:103-157 | an entry padded with any white space before, between and after its words, as in `/proc/net/dev`, reads back as exactly its 64-bit counters, whatever was read before it |
| NetIf.GetWanInterface | defs/progress.go:164-182 | the first interface named eth0, or up and not loopback with more than one address; the zero interface if there is none |
| NetIf.To4 | defs/progress.go:189 | an IPv4 form has 4 bytes; a 4-byte address is its own; a 16-byte one is the IPv4-mapped prefix plus the result |
| NetIf.To4OfTo16 | defs/progress.go:189 | the IPv4-mapped 16-byte form of an address converts back to the same 4 bytes |
| NetIf.GetIPFromInterface | defs/progress.go:184-196 | the dotted text of the first address that has an IPv4 form, or "n/a" if none has |
| NetIf.DottedQuadReadsBack | defs/progress.go:190 | the text of an IPv4 address is four pieces joined by dots, the k-th being byte k in decimal without leading zeros |
| NetIf.NotAvailableIsNoAddress | defs/progress.go:195 | "n/a" never coincides with the text of an address |

## Left out

- Concurrency. The mutex and the unsynchronised check-then-set of the last-progress time are not modelled. The model has one sequential caller.
- Wall-clock time. `time.Now` and `time.Since` are an integer millisecond parameter, one per call. The source reads the clock several times in a call and truncates nanosecond durations to milliseconds.
- JSON encoding, logging and the ISO-8601 timestamp format. A snapshot carries its time as an integer. The marshal error that a NaN or infinite value causes is represented by `None` in the snapshot.
- Float64 rounding. Rates and fractions are exact reals.
- The `%.2f` formatting of `AvgHumanize`. The model returns the value and the unit.
- Integer width. `total`, `pos`, `uploadSize * 1024` and the timestamps are unbounded integers. The source's 64-bit wrap-around is not modelled, nor is the saturation of Go's `time.Sub`: a counter that was never started keeps the zero `time.Time` as its start, and Go then reports an elapsed time of about 9223372036854 ms, where the model reports `now - 0`.
- Counter.AvgBytes: requires `now > start`, because with no elapsed time the source divides by zero and gets an infinity or NaN. `CurrentSpeed`, `AvgMbps` and `AvgHumanize` inherit this precondition.
- Events.Bandwidth: returns `None` when no time has elapsed. Go's conversion of an infinity or NaN to `int` has no specified value.
- Trace.PositionStaysInPayload: assumes the reader never yields more than what remains of the payload. The `bytes.Reader` internals that guarantee this are not modelled.
- `GenerateBlob` and `getRandomData`. These need random bytes from `crypto/rand` and allocate the payload. The payload only appears as its length.
- `getAvg`. It averages a float slice, which is NaN for an empty slice. Nothing in the modelled core calls it.
- Opening the statistics file at its hard-coded path and splitting it into lines with `bufio.Scanner`, including the scanner's 64 KiB line limit. The input is a sequence of lines, and a file that fails to open is no lines. The unused interface parameter of `getInterfaceStats` is dropped.
- `net.Interfaces` and `Addrs`. Interfaces are records that carry their address list. A failed address query is an empty list, and both selection rules treat it exactly as the source does. Every address is taken to be a `*net.IPNet`, so the type assertion's panic on other address types is not modelled.
- `SendProgressHeader`'s assembly. It copies fields from `Server.GetURL` and `IPInfoResponse`, which are not part of this model. Only its two selection closures and the statistics reader are modelled.
- `report/json.go`. It declares structs and has no behaviour. The duplicated progress structs are one tagged `Events.Snapshot` type.
