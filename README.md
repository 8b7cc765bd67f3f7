# Bindicator firmware core, modelled in Dafny

Bindicator is firmware for an RP2350 board with three bin-collection LEDs (green, black,
brown). On each wake cycle it fetches a collection schedule over MQTT, parses it into a
fixed job table, and lights the LED of every bin whose collection window is open. Around
that loop it keeps a functional watchdog, pushes OTLP/JSON telemetry, serves a Telnet
debug console, and accepts over-the-air firmware updates into the inactive partition of
an A/B flash layout. A host command-line tool packs UF2 images and pushes them to the
OTA port.

This project models the logic of that core and proves what it promises:

- `OtaServer` (`ota_server.dfy`) and `OtaServerProperties`: the OTA access window and the
  `handleOTASession` state machine ("OTA" handshake, length-prefixed chunks, on-demand
  sector erase, programming at the running offset, the DONE digest check). The session
  is a method over a sequence of frames, specified by the function `SessionSpec`.
- `Partitions` (`partitions.dfy`): partition offsets, XIP addresses and size, the target
  partition, decoding of the boot-info words, the reboot parameters and the flash wrappers
  of `ota/ota.go`. The boot ROM and the flash are injected objects that record each call.
- `PushProperties` (`push_properties.dfy`): the host's `otaPush` framing and DONE line are
  exactly what the device session accepts, and the session reboots iff the digests agree.
- `Watchdog` (`watchdog.dfy`): the main loop's health flag, watchdog feeding, the sleeps
  that keep feeding it, MQTT retries with backoff, the refresh decision, and `syncNTP`.
- `Schedule` and `ScheduleProperties` (`schedule.dfy`): the CSV schedule parser and the
  15-slot job table.
- `Bindicator` and `BindicatorProperties` (`bindicator.dfy`): the LED window rule over
  integer nanosecond instants, with a civil-date conversion that follows Go's `time.Date`.
- `Cli` and `CliProperties` (`cli.dfy`, `cli_properties.dfy`): UF2 extraction, telnet IAC
  stripping, OTA chunk framing, the DONE line, and the `.env` loader.
- `Console` and `ConsoleProperties` (`console.dfy`, `console_properties.dfy`): the line
  editor, the password prompt with brute-force lockout, `parseDuration`, `hasPrefix`, the
  `ota-enable` argument, and the decimal and hex formatters.
- `Telemetry`, `TelemetryProperties` and `TelemetryFlush` (`telemetry*.dfy`): the log and
  metric rings, the span slots and their parent stack, pausing, and the queue clearing of
  the flushes.
- `OtlpJson` and `OtlpJsonProperties` (`otlp_json*.dfy`): the bounded `jsonWriter` over the
  2048-byte body buffer and the three OTLP/JSON payload builders.
- `SlogBridge` (`slog_bridge.dfy`): the slog handler's level gate, severity mapping,
  groups, and the 128-byte message builder with its copy helpers.
- `Mqtt` (`mqtt.dfy`): `bytesEqual`, `appendHex` and the response-topic handler.
- `Common` (`common.dfy`): bytes, ASCII text, 32-bit words, little-endian encoding, and the
  decimal and hex digit renderings shared by the files above.

Conventions:

- Time is integer nanoseconds.
- Go's fixed-width integers are unbounded `int`. Where a width matters, the wrap is
  written out: the uint32 sector arithmetic, the UF2 address sums, `writeInt` on
  `math.MinInt32`, and the int32/int64 products of `parseDuration`.
- SHA-256 is a function parameter `sha`.
- The network, clocks and the PRNG are parameters or sequences of outcomes.
- Where a test or a source comment disagrees with the code, the model follows the code:
  - a DONE line with an empty hash is accepted as verified, though the comment at
    ota_server.go:293 expects 64 hex digits;
  - the chunk limit is `otaBufSize`, 4160 bytes, though its comment at ota_server.go:25
    speaks of a 4 KB chunk;
  - a bad handshake gets no error reply (ota_server.go:238-246);
  - the access window closes after every session, though the comment at ota_server.go:213
    speaks of a successful one;
  - `StartSpan` reuses the first inactive slot, though a telemetry test expects a
    pending completed span to block reuse.
- The OTA session is modelled with the sector arithmetic as written. That keeps the
  empty-first-chunk erase (see Findings) visible in `SessionSpec`. The intended
  computation is defined and proved beside it.

## Model

| member | source | states |
|---|---|---|
| Common.FormatInt | console.go:627-640 | zero is written as "0"; a negative number writes nothing (the loop never runs); a positive one writes its decimal digits, without a leading zero, at most ten, reading back as n |
| Common.DigitsRoundTrip | console.go:633-638 | the divide-by-ten loop emits only digits, none at all for zero, never a leading '0', and the digits read back as n |
| Common.DecimalRoundTrip | console.go:627-640 | the rendering with "0" for zero is a nonempty run of digits that reads back as n |
| Common.FillDigits | telemetry/json.go:109-120 | the right-to-left fill of a 20-byte buffer yields exactly the decimal digits of n |
| Common.HexFixedRoundTrip | console.go:652-658 | the fixed-width hex loop emits only lowercase hex digits and reads back as n modulo 16^k |
| Common.HexBytesRoundTrip | ota_server.go:563-571 | formatHashHex emits two lowercase hex digits per byte and they read back as the bytes |
| Common.HexBytesInjective | ota_server.go:563-571 | two digests with the same hex text are the same digest |
| Common.LE32RoundTrip | cmd/cli/main.go:446 | a length word written little-endian reads back as the same word |
| Common.EncodeLE32RoundTrip | cmd/cli/main.go:642-650 | four header bytes decoded little-endian and re-encoded are the same four bytes |
| Common.CopyInto | cmd/cli/main.go:681 | `copy` overwrites exactly the bytes from offset for the length of the source and leaves the rest |
| Telemetry.RingPush | telemetry/telemetry.go:150-157 | writing the slot after the newest entry, and advancing head only when all eight are taken, leaves the ring holding the newest eight of the old entries plus the new one, oldest first |
| Telemetry.PushWithRoom | telemetry/telemetry.go:151-157 | with a free slot, the new entry is appended after every old one |
| Telemetry.PushWhenFull | telemetry/telemetry.go:151-154 | with all eight slots taken, the oldest entry is dropped and the new one appended |
| Telemetry.NewLogEntry | telemetry/telemetry.go:159-176 | the record keeps the first min(len, 128) message bytes, the timestamp and severity, and carries the trace context exactly when one is set |
| Telemetry.NewMetricPoint | telemetry/telemetry.go:226-237 | the point keeps the first min(len, 32) name bytes, the value, the timestamp and the gauge flag |
| Telemetry.FirstInactive | telemetry/telemetry.go:286-292 | -1 exactly when every slot is active; otherwise the lowest inactive slot |
| Telemetry.Telemetry.constructor | telemetry/telemetry.go:88-120 | the package's zero state: disabled, unpaused, no trace context, empty rings, zero ids and counters |
| Telemetry.Telemetry.Init | telemetry/telemetry.go:123-139 | recording is enabled |
| Telemetry.Telemetry.Log | telemetry/telemetry.go:142-177 | disabled or paused: the ring is untouched; otherwise the queued records are the newest eight of the old ones plus the new record |
| Telemetry.Telemetry.RecordMetric | telemetry/telemetry.go:209-238 | disabled or paused: the ring is untouched; otherwise the queued points are the newest eight of the old ones plus the new point |
| Telemetry.Telemetry.GenerateTraceID | telemetry/telemetry.go:244-274 | the trace id is the Unix seconds mod 2^32, big-endian, then three random words; the span id is two random words; a trace context is set |
| Telemetry.Telemetry.StartSpan | telemetry/telemetry.go:277-334 | disabled or paused: returns -1 and changes nothing; otherwise the slot and new span state are those of StartSpec |
| Telemetry.Telemetry.EndSpan | telemetry/telemetry.go:337-361 | the span state becomes EndSpec's: nothing for a bad index or inactive slot, otherwise the span is closed and the previous span restored |
| Telemetry.Telemetry.Pause | telemetry/telemetry.go:386-393 | sets the paused flag |
| Telemetry.Telemetry.Resume | telemetry/telemetry.go:396-400 | clears the paused flag |
| Telemetry.Telemetry.IsPaused | telemetry/telemetry.go:403-407 | returns the paused flag |
| TelemetryProperties.PushedKeepsNewest | telemetry/telemetry.go:150-157 | any run of pushes into a ring of at most eight keeps the newest eight of everything pushed, oldest first |
| TelemetryProperties.NewestAppend | telemetry/telemetry.go:150-157 | dropping old entries early or late gives the same ring |
| TelemetryProperties.TwelvePushes | telemetry/telemetry_test.go:78-90 | twelve pushes into an empty ring leave the last eight, in order |
| TelemetryProperties.StartSlot | telemetry/telemetry.go:285-297 | StartSpan takes the first inactive slot; only when all four are active does it reuse the SpanHead slot and advance SpanHead; no other slot changes |
| TelemetryProperties.StartNests | telemetry/telemetry.go:299-331 | the new span is active, open, parented on the current span, in the current trace, becomes current, and keeps the truncated name |
| TelemetryProperties.EndRestores | telemetry/telemetry.go:337-361 | ending the span just started restores the previous current span and counts one more completed span, capped at four |
| TelemetryProperties.EndIgnoresStale | telemetry/telemetry.go:341-348 | an out-of-range index or an inactive slot leaves the span state unchanged |
| TelemetryProperties.EndCounts | telemetry/telemetry.go:350-360 | ending an active span records end time and status, deactivates it, restores its saved previous span and counts it, capped at four |
| TelemetryProperties.NestedSpans | telemetry/telemetry_test.go:536-591 | two siblings started and ended under one parent both have it as parent, and ending the parent restores the original span |
| TelemetryProperties.BigEndianRoundTrip | telemetry/telemetry.go:250-253 | the four big-endian bytes of a 32-bit word read back as the word |
| TelemetryProperties.TraceIdTime | telemetry/telemetry.go:248-253 | the first four bytes of the trace id read back as the Unix seconds mod 2^32 |
| TelemetryFlush.FlushLogs | telemetry/telemetry.go:417-452 | nothing happens with an empty ring, disabled or paused; otherwise the ring is emptied and the POST to /v1/logs carries the logs document of the old records; SentLogs grows by the count on delivery, SendErrors by one on failure |
| TelemetryFlush.PostLogs | telemetry/telemetry.go:425 | the body buffer holds the logs document of the queued records, as far as it fits |
| TelemetryFlush.SettleLogs | telemetry/telemetry.go:426-451 | the ring is reset and exactly one of the counters moves |
| TelemetryFlush.FlushMetrics | telemetry/telemetry.go:455-490 | as FlushLogs, for metric points and /v1/metrics |
| TelemetryFlush.PostMetrics | telemetry/telemetry.go:463 | the body buffer holds the metrics document of the queued points, as far as it fits |
| TelemetryFlush.SettleMetrics | telemetry/telemetry.go:464-489 | the ring is reset and exactly one of the counters moves |
| TelemetryFlush.FlushSpans | telemetry/telemetry.go:493-527 | nothing happens with SpanCount zero, disabled or paused; otherwise every completed span is sent and cleared, SpanCount drops to zero, and no POST goes out when no slot held a completed span; a delivered POST adds SpanCount |
| TelemetryFlush.PostSpans | telemetry/telemetry.go:501 | completed slots are cleared; the document lists exactly the completed spans, and none is built when there are none |
| TelemetryFlush.SettleSpans | telemetry/telemetry.go:502-526 | SpanCount is reset; counters move only when a POST was made |
| TelemetryFlush.Flush | telemetry/telemetry.go:410-414 | logs, metrics and spans are flushed in that order: while enabled and not paused every queue ends empty and each non-empty one goes out as its document; otherwise nothing changes |
| TelemetryFlush.NothingToClear | telemetry/json.go:284-380 | when no slot holds a completed span, clearing changes no slot |
| TelemetryFlush.NotCompletedIfNoneEmitted | telemetry/json.go:284-380 | when nothing is emitted, no slot holds a completed span |
| Telemetry.Telemetry.Enable | telemetry/telemetry.go:674-678 | recording is switched on |
| Telemetry.Telemetry.Disable | telemetry/telemetry.go:667-671 | recording is switched off, so Log, RecordMetric and StartSpan do nothing until it is switched on again |
| OtlpJson.PutAllExtends | telemetry/json.go:25-39 | writes never grow the body past 2048 bytes and never change what is already there |
| OtlpJson.PutAllAppend | telemetry/json.go:25-39 | writing two runs of pieces one after the other is writing their concatenation |
| OtlpJson.Prefix | telemetry/json.go:71 | the loop visits the first min(n, len(b)) bytes, none for a negative n |
| OtlpJson.ShortSha | telemetry/json.go:170-175 | the first seven bytes of the git SHA, or all of it when shorter |
| OtlpJson.NonZeroMeans | telemetry/json.go:322-328 | an id counts as non-zero exactly when some byte of it is non-zero |
| OtlpJson.JsonWriter.constructor | telemetry/json.go:184-185 | a fresh writer over the 2048-byte body buffer, at position 0, with nothing written |
| OtlpJson.JsonWriter.WriteRaw | telemetry/json.go:25-31 | the string is copied at pos and pos advances only when the whole string fits; otherwise nothing changes |
| OtlpJson.JsonWriter.WriteByte | telemetry/json.go:34-39 | the byte lands and pos advances only while pos < 2048 |
| OtlpJson.JsonWriter.WriteEscaped | telemetry/json.go:46-63 | a quote, backslash, newline, carriage return or tab becomes its two-byte escape, another printable byte is written as is, any other byte is skipped |
| OtlpJson.JsonWriter.WriteString | telemetry/json.go:42-66 | an opening quote, the escape of every byte in order, a closing quote |
| OtlpJson.JsonWriter.WriteBytes | telemetry/json.go:69-91 | as WriteString over the first min(n, len(b)) bytes |
| OtlpJson.JsonWriter.WriteEach | telemetry/json.go:117-119 | one byte write per digit, in order |
| OtlpJson.JsonWriter.WriteUint64 | telemetry/json.go:109-120 | the decimal digits of n, nothing for zero |
| OtlpJson.JsonWriter.WriteInt64 | telemetry/json.go:94-106 | quoted: "0" for zero, otherwise an optional '-' and the digits of uint64 of the magnitude |
| OtlpJson.JsonWriter.WriteInt | telemetry/json.go:123-142 | "0" for zero, otherwise an optional '-' and the digits of the 32-bit negation |
| OtlpJson.JsonWriter.WriteHex | telemetry/json.go:145-153 | quoted, two lowercase hex digits per byte, high nibble first |
| OtlpJson.JsonWriter.WriteResourceAttributes | telemetry/json.go:156-167 | the fixed resource attributes with the escaped version and short SHA in place |
| OtlpJson.WriteOpening | telemetry/json.go:188-190 | the document opening, the resource attributes and the scope opening, in order (shared by the three builders) |
| OtlpJson.IsNonZero | telemetry/json.go:322-328 | true exactly when some byte of the id is non-zero |
| OtlpJson.WriteLogRecord | telemetry/json.go:203-219 | one log record: time, severity, body, then the trace fields when present, then the closing brace |
| OtlpJson.WriteLogHead | telemetry/json.go:203-209 | the time, severity and body fields of one record |
| OtlpJson.WriteLogTrace | telemetry/json.go:212-217 | the traceId and spanId fields exactly when the record carries a trace context |
| OtlpJson.WriteLogItem | telemetry/json.go:198-219 | one loop pass: a comma before every record but the first, then the record |
| OtlpJson.WriteLogQueue | telemetry/json.go:193-220 | the queued records, oldest first from LogHead, comma separated |
| OtlpJson.BuildLogsJSON | telemetry/json.go:179-226 | 0 and no write for an empty ring; otherwise a positive length whose bytes are the logs document of the queued records, cut where the buffer fills |
| OtlpJson.WriteMetricRecord | telemetry/json.go:254-273 | one metric: the name, then a gauge or a monotonic cumulative sum data point with time and value |
| OtlpJson.WriteMetricItem | telemetry/json.go:249-273 | one loop pass: a comma before every metric but the first, then the metric |
| OtlpJson.WriteMetricQueue | telemetry/json.go:244-274 | the queued points, oldest first from MetricHead, comma separated |
| OtlpJson.BuildMetricsJSON | telemetry/json.go:230-280 | 0 and no write for an empty ring; otherwise a positive length whose bytes are the metrics document of the queued points |
| OtlpJson.WriteSpanRecord | telemetry/json.go:338-370 | one span: ids, optional parent, name, kind, times and status code 1 or 2 |
| OtlpJson.WriteSpanIds | telemetry/json.go:338-354 | traceId, spanId, and parentSpanId only for a non-zero parent |
| OtlpJson.WriteSpanTimes | telemetry/json.go:356-370 | name, kind, start and end times and the status object |
| OtlpJson.CountCompleted | telemetry/json.go:286-299 | the number of slots that are inactive, ended and carry a non-zero trace id |
| OtlpJson.WriteSpanItem | telemetry/json.go:333-370 | a comma before every span but the first, then the span |
| OtlpJson.WriteSlot | telemetry/json.go:316-370 | a slot is written exactly when it holds a completed span |
| OtlpJson.ClearSlot | telemetry/json.go:373 | the slot just visited is cleared when it was sent; later slots are untouched |
| OtlpJson.VisitSlot | telemetry/json.go:315-374 | one pass of the slot loop keeps the written spans equal to the completed ones among the slots visited, and clears exactly those |
| OtlpJson.WriteSpanSlots | telemetry/json.go:314-374 | every completed span, in slot order, comma separated; every sent slot is cleared and no other |
| OtlpJson.BuildSpansJSON | telemetry/json.go:284-380 | 0 and nothing changed when no slot holds a completed span; otherwise a positive length whose bytes are the spans document of the completed spans, which are cleared |
| OtlpJsonProperties.PutAllFits | telemetry/json.go:25-39 | while everything fits, the buffer holds exactly the concatenation of the writes |
| OtlpJsonProperties.DroppedEscapeThenQuote | telemetry/json.go:25-39 | with one byte of room, a two-byte escape is dropped but the closing quote after it lands |
| OtlpJsonProperties.EscapeRoundTrip | telemetry/json.go:44-64 | the escaped bytes form a valid JSON string body that unescapes to the printable bytes of the input, in order |
| OtlpJsonProperties.StringReadsBack | telemetry/json.go:42-66 | writeString's output is quoted and reads back as the input with unprintable bytes removed |
| OtlpJsonProperties.Int64ReadsBack | telemetry/json.go:94-106 | writeInt64 writes a quoted decimal that reads back as n, with a '-' first exactly for a negative n |
| OtlpJsonProperties.IntReadsBack | telemetry/json.go:123-142 | apart from -2^31, writeInt writes the decimal of n, with a '-' first for a negative n |
| OtlpJsonProperties.IntMinWritesSignOnly | telemetry/json.go:128-138 | for -2^31 the 32-bit negation stays negative and only '-' is written |
| OtlpJsonProperties.HexReadsBack | telemetry/json.go:145-153 | writeHex emits only lowercase hex digits, two per byte, that read back as the bytes |
| OtlpJsonProperties.TraceIdOnlyWithContext | telemetry/json.go:212-217 | a log record has a traceId field exactly when the entry has a trace context |
| OtlpJsonProperties.ParentOnlyWhenNonZero | telemetry/json.go:343-354 | a span has a parentSpanId field exactly when its parent id is non-zero |
| OtlpJsonProperties.GaugeOrSum | telemetry/json.go:257-271 | a metric is written as a gauge exactly when it is one, and as a sum otherwise |
| OtlpJsonProperties.EmittedAreCompleted | telemetry/json.go:315-331 | every span written is a completed span from the slots, and every completed span is written |
| OtlpJsonProperties.ClearedEmitsNothing | telemetry/json.go:373 | after the slots are cleared, a second build writes no span |
| SlogBridge.SeverityBands | telemetry/slog.go:82-93 | level at or above Error gives 17, Warn up to Error 13, Info up to Warn 9, below Info 5, each in both directions |
| SlogBridge.SeverityMonotone | telemetry/slog.go:82-93 | a higher slog level never maps to a lower OTLP severity |
| SlogBridge.WithAttrs | telemetry/slog.go:53-64 | the new handler keeps the group and lists the old attributes followed by the new ones |
| SlogBridge.GroupPath | telemetry/slog.go:67-79 | nested groups join with '.' (the outer name alone when there was no group) and the attributes are kept |
| SlogBridge.Int64TextReadsBack | telemetry/slog.go:176-194 | the decimal of an int64 reads back as it, with a '-' first exactly for a negative value |
| SlogBridge.MagnitudeOf | telemetry/slog.go:190-193 | for a negative n, uint64 of the wrapped negation is the magnitude of n, including for -2^63 |
| SlogBridge.DurationUnit | telemetry/slog.go:229-243 | the unit is one of 1 s, 1 ms, 1 us, 1 ns |
| SlogBridge.DurationTruncates | telemetry/slog.go:222-245 | a positive duration is shown in the largest unit not above it, as the whole number of units (truncated, never zero) followed by the unit's suffix |
| SlogBridge.FillCut | telemetry/slog.go:143-149 | filling after a cut text is the cut of the longer text |
| SlogBridge.FillFill | telemetry/slog.go:143-149 | two copies in a row fill the same bytes as one copy of both strings |
| SlogBridge.WalkCuts | telemetry/slog.go:115-137 | the attribute loop yields the 128-byte cut of the text followed by the first k attributes, where k never exceeds the four still allowed |
| SlogBridge.MessageIsPrefix | telemetry/slog.go:97-140 | the message is the 128-byte cut of "group:message" followed by the first k attributes, k at most four |
| SlogBridge.MessageWhole | telemetry/slog.go:97-140 | with at most four attributes and at least ten bytes to spare, the message is the whole "group:message key=value…" text |
| SlogBridge.FiveAttrsDrop | telemetry/slog.go:117-118 | attributes after the fourth never reach the message |
| SlogBridge.CopyToBuffer | telemetry/slog.go:143-149 | the bytes of s land from pos while the buffer has room; earlier bytes stay |
| SlogBridge.PutByte | telemetry/slog.go:122-125 | one byte lands when there is room |
| SlogBridge.CopyUint64ToBuffer | telemetry/slog.go:197-219 | the decimal of n, "0" for zero, as far as it fits |
| SlogBridge.CopyInt64ToBuffer | telemetry/slog.go:176-194 | the signed decimal of n, as far as it fits |
| SlogBridge.CopyDurationToBuffer | telemetry/slog.go:222-245 | "0s" for zero, otherwise the truncated count in the largest fitting unit with its suffix, negative values in ns |
| SlogBridge.CopyAttrValue | telemetry/slog.go:152-173 | strings, integers, booleans, durations and float-derived integers as text, "?" for any other kind |
| SlogBridge.CopyAttr | telemetry/slog.go:121-133 | " key=value", as far as it fits |
| SlogBridge.BuildTelemetryMessage | telemetry/slog.go:97-140 | the buffer loop builds exactly the Message text |
| SlogBridge.Handle | telemetry/slog.go:38-50 | below Info, or with recording off or paused, the log ring is unchanged; otherwise it gains one record holding the mapped severity and the built message |
| SlogBridge.Message | telemetry/slog.go:97-140 | the telemetry text of a record never exceeds the 128-byte message buffer |
| Cli.DecodeBlock | cmd/cli/main.go:639-650 | a 512-byte block decodes to its three magics, target and size read little-endian, and the 476 bytes from offset 32 as payload |
| Cli.Blocks | cmd/cli/main.go:631-639 | a file of 512-byte blocks splits into exactly length/512 well-formed blocks |
| Cli.FirstBadMagic | cmd/cli/main.go:641-647 | the index of the first block with a wrong magic, every earlier block valid, or the block count when all are valid |
| Cli.MinTarget | cmd/cli/main.go:637-654 | a 32-bit value no larger than any block's target address |
| Cli.MaxEnd | cmd/cli/main.go:637-657 | a 32-bit value no smaller than any block's wrapped target+payloadSize |
| Cli.Paint | cmd/cli/main.go:666-682 | copying the first k payloads either yields an image of the allocated size or stops at a block before k whose slice is out of range |
| Cli.FirstWrap | cmd/cli/main.go:655-656 | the index of the first block whose target+payloadSize overflows 32 bits, every earlier block fitting |
| Cli.BlocksAt | cmd/cli/main.go:639 | block i decodes from bytes i*512 to (i+1)*512 of the file |
| Cli.ReadBlock | cmd/cli/main.go:670-673 | the block read at i is the i-th decoded block |
| Cli.MagicStep | cmd/cli/main.go:641-647 | a valid magic at i moves the first bad magic past i |
| Cli.PaintCopies | cmd/cli/main.go:676-681 | an in-range copy writes the clamped payload at target-minAddr and leaves the rest of the image |
| Cli.PaintPanics | cmd/cli/main.go:680-681 | a slice bound outside the image stops the copy at that block |
| Cli.PanicPersists | cmd/cli/main.go:669-682 | once a block panics, later blocks change nothing |
| Cli.RangeStep | cmd/cli/main.go:652-657 | the running minimum target and maximum end extend by one block as the loop's two comparisons do |
| Cli.ExtractUF2Binary | cmd/cli/main.go:625-685 | the method returns exactly what ExtractUF2 specifies: too small, not a multiple of 512, first bad magic, too large, panic at a block, or the image |
| Cli.ScanBlocks | cmd/cli/main.go:637-658 | the first pass finds the first bad magic, and when there is none the minimum target and maximum end |
| Cli.CopyPayloads | cmd/cli/main.go:666-684 | the second pass yields the Paint image, or the panic at the first out-of-range block |
| Cli.CopyBlock | cmd/cli/main.go:672-681 | one block's copy extends Paint by that block, or reports the block out of range |
| Cli.StripTelnetIac | cmd/cli/main.go:580-599 | the loop returns StripIac of the input |
| Cli.FrameFirmware | cmd/cli/main.go:434-448 | the send loop produces exactly the Frames of the firmware |
| Cli.DoneLine | cmd/cli/main.go:470-472 | "DONE " followed by two hex digits per hash byte and a newline |
| Cli.Trim | cmd/cli/main.go:501 | the trimmed text is the part of the input after its leading white space (as `unicode.IsSpace` defines it) with only white space after it, and has no white space at either end |
| Cli.IndexOf | cmd/cli/main.go:506 | the first position of c, or the length when c is absent |
| Cli.Environment.constructor | cmd/cli/main.go:521-522 | starts from the given process environment |
| Cli.Environment.Setenv | cmd/cli/main.go:522 | sets the variable exactly when the key is acceptable, otherwise leaves the environment unchanged |
| Cli.Environment.LoadLine | cmd/cli/main.go:500-524 | one .env line changes the environment as ApplyLine says |
| Cli.Environment.LoadEnvFile | cmd/cli/main.go:493-525 | a missing file changes nothing; otherwise every newline-separated line is applied in order |
| CliProperties.DecodeEncodeBlock | cmd/cli/main.go:639-650 | decoding an encoded block gives the block back |
| CliProperties.BlocksOfEncoded | cmd/cli/main.go:631-639 | a file of encoded blocks splits back into the same blocks |
| CliProperties.MinTargetIs | cmd/cli/main.go:652-654 | the minimum target is any block target that no target undercuts |
| CliProperties.MinTargetAtLeast | cmd/cli/main.go:652-654 | a lower bound on every target bounds the minimum |
| CliProperties.MaxEndIs | cmd/cli/main.go:655-657 | the maximum end is any block end that no end exceeds |
| CliProperties.MaxEndAtMost | cmd/cli/main.go:655-657 | an upper bound on every end bounds the maximum |
| CliProperties.Uf2Accepted | cmd/cli/main.go:625-685 | an accepted file has whole blocks, all with valid magics, and an image of (maxEnd-minTarget) mod 2^32 bytes, at most 4 MiB |
| CliProperties.Uf2Rejected | cmd/cli/main.go:626-647 | too small exactly below 512 bytes, not-a-multiple exactly for a remainder, bad magic at i exactly when block i is the first invalid one |
| CliProperties.PaintCover | cmd/cli/main.go:669-682 | each image byte is the byte of the last block covering it, zero if none |
| CliProperties.ImageBytes | cmd/cli/main.go:666-684 | each byte of an extracted image comes from the last block whose payload covers its address |
| CliProperties.PaintSucceeds | cmd/cli/main.go:680-681 | when every block fits inside the image, no copy panics |
| CliProperties.NoWrapNoPanic | cmd/cli/main.go:652-682 | when no block's address range wraps, extraction never panics |
| CliProperties.WrapBlocksPanic | cmd/cli/main.go:655-681 | a block at 0xFFFFFF00 of size 0x100 beside one at 0 makes the copy panic at block 0 |
| CliProperties.WrapPanics | cmd/cli/main.go:655-681 | the same two blocks encoded as a file make extractUF2Binary panic |
| CliProperties.WrapRejectedWhenChecked | cmd/cli/main.go:655-656 | with the wrap check that file is rejected at block 0 |
| CliProperties.CheckedNeverPanics | cmd/cli/main.go:625-685 | extraction with the wrap check never panics on any input |
| CliProperties.CheckedAgrees | cmd/cli/main.go:625-685 | on files with no wrapping block the checked extraction equals the original |
| CliProperties.CoverConsecutive | cmd/cli/ota_test.go:189-241 | blocks of 256 bytes at consecutive addresses cover address 256i+j with byte j of block i |
| CliProperties.ExtractIsPaint | cmd/cli/main.go:660-684 | past the magic and size checks, extraction returns the painted image |
| CliProperties.ConsecutiveRoundTrip | cmd/cli/ota_test.go:189-241 | a file of consecutive 256-byte blocks extracts to their payloads laid end to end |
| CliProperties.StripPlainPrefix | cmd/cli/main.go:580-599 | bytes before the first 0xFF pass through unchanged |
| CliProperties.StripPlain | cmd/cli/main.go:584 | text without 0xFF is unchanged, and a lone trailing 0xFF is kept |
| CliProperties.StripCommands | cmd/cli/main.go:584-592 | IAC and a command are dropped, and the option byte too for WILL/WONT/DO/DONT |
| CliProperties.StripShape | cmd/cli/main.go:580-599 | the result is never longer, and its only possible 0xFF is a final byte that ended the input |
| CliProperties.NegotiationThenPrompt | cmd/cli/main.go:603-616 | IAC WILL ECHO followed by "> " strips to "> ", so the prompt is found |
| CliProperties.FramesRoundTrip | cmd/cli/main.go:434-448 | ceil(len/4096) chunks are sent and their concatenation is the firmware |
| CliProperties.FramesShape | cmd/cli/main.go:437-447 | every chunk is non-empty, all but the last are 4096 bytes, and each is preceded by its length as 4 little-endian bytes |
| CliProperties.NeverOverwrites | cmd/cli/main.go:520-523 | loading .env never removes a variable nor changes one already set to a non-empty value |
| CliProperties.NothingAssigned | cmd/cli/main.go:502-509 | blank, comment and '='-less lines leave the environment unchanged |
| CliProperties.TrimUnspaced | cmd/cli/main.go:501 | text with no space at either end is its own trim |
| CliProperties.QuotedAssignment | cmd/cli/main.go:506-518 | KEY="value" parses as the pair (KEY, value) |
| CliProperties.AssignmentSplits | cmd/cli/main.go:501-518 | a trimmed non-comment line with '=' assigns its trimmed left side the unquoted trimmed right side |
| CliProperties.QuotedValue | cmd/cli/main.go:515-518 | a double-quoted value loses its quotes |
| CliProperties.EqualsAfterKey | cmd/cli/main.go:506 | the first '=' of KEY="value" follows the key |
| CliProperties.QuotedLineRoundTrip | cmd/cli/main.go:493-525 | a KEY="value" line sets KEY to value exactly when KEY is unset or empty and Setenv accepts it |
| Console.LineEditor.constructor | console.go:169-171 | a session starts with an empty line and nothing to skip |
| Console.LineEditor.Feed | console.go:194-230 | one byte moves the buffer, length, skip count and newline flag exactly as ByteStep says, and reports the command run and prompt it causes |
| Console.LineEditor.Read | console.go:189-238 | one read leaves the line, skip count and events that ReadSpec gives, keeping the editor well formed |
| Console.StepAppends | console.go:191-231 | a byte step only appends to the events so far, keeps the skip count within 0..2, and keeps the line printable and within the limit |
| Console.LockoutFor | console.go:730-741 | the lockout lies between 0 and 5 minutes and is zero exactly below three failures |
| Console.AuthGuard.constructor | console.go:754-762 | no failures recorded |
| Console.AuthGuard.RecordFailure | console.go:754-757 | the failure count rises by one and the failure time is now |
| Console.AuthGuard.ResetFailures | console.go:760-762 | the failure count is zero and the last failure time is kept |
| Console.AuthGuard.Authenticate | console.go:772-855 | success exactly when the submitted password equals the expected one, resetting the count; a wrong, overlong or timed-out entry records a failure at now; a closed connection records nothing |
| Console.TypePassword | console.go:810-841 | the inner loop over one read leaves passBuf holding PassScan's password, submitted or still being typed with its skip count |
| Console.ReadPassword | console.go:792-854 | the outer loop ends as EntrySpec says: entered, overlong, timed out or disconnected |
| Console.DigitRun | console.go:879-882 | the leading digits end at the first non-digit |
| Console.UnitAt | console.go:885-899 | the unit is always seconds, minutes or hours |
| Console.ParseDuration | console.go:871-900 | the method returns DurationSpec of the text |
| Console.HasPrefix | console.go:858-868 | true exactly when prefix is an initial segment of cmd |
| Console.OtaEnableTimeout | console.go:503-512 | the command matches "ota-enable" alone or followed by a space; the timeout is the parsed duration when positive and 0 otherwise |
| Console.OtaEnableCommand | console.go:503-513 | a matching command enables the OTA window now with the parsed timeout or the 10-minute default; any other command leaves the window alone |
| Console.WriteInt2 | console.go:643-649 | always two bytes, the zero-padded decimal of n for 0..99 |
| Console.ZeroDigits | console.go:661-663 | k '0' bytes |
| Console.HexFixedPadded | console.go:655-658 | the fixed-width hex of a value below 16^k is its unpadded hex behind leading zeros |
| Console.HexDigitsLead | console.go:661-663 | the unpadded hex of a positive value does not start with '0' |
| Console.WriteHex | console.go:652-665 | the method returns HexText, the 8 hex digits with leading zeros skipped but one digit kept |
| Console.LowDigits | console.go:926-932 | at most k digits |
| Console.IntField | console.go:921-935 | one to three digits, or nothing for a negative value |
| Console.LowField | console.go:926-934 | the digit loop produces IntField of n |
| Console.WriteIntToBuf | console.go:921-935 | returns the field length and writes as much of the field as fits at pos, leaving the other bytes |
| Console.FormatRemoteIP | console.go:903-918 | four bytes format as the dotted quad, anything else as "unknown" |
| Console.DottedComplete | console.go:908-915 | the four-field prefix is the whole dotted quad |
| Console.PutField | console.go:909-913 | one field, with its dot before it when not first, extends the written prefix |
| Console.DecimalShort | console.go:921-935 | for a byte the field is its full decimal of at most three digits |
| Console.LowDigitsAreDigits | console.go:926-932 | below 10^k the k lowest digits are the full decimal |
| ConsoleProperties.Commands | console.go:218-220 | no more commands run than events |
| ConsoleProperties.Printables | console.go:226-230 | only printable bytes are kept |
| ConsoleProperties.ScanGood | console.go:191-231 | the inner loop keeps the skip count, the line and every dispatched command well formed |
| ConsoleProperties.ReadGood | console.go:189-238 | every command a read runs is nonempty, printable and shorter than 1023 bytes, and the kept line stays printable and below the limit |
| ConsoleProperties.IacSkipsThree | console.go:202-206 | IAC and the two bytes after it are dropped, whatever they are |
| ConsoleProperties.IacAcrossReads | console.go:171-198 | an IAC at the end of one read skips the first two bytes of the next |
| ConsoleProperties.NewlinesCollapse | console.go:209-213 | a CR or LF right after a line end is ignored |
| ConsoleProperties.ScanPrintable | console.go:226-230 | printable bytes are appended to the line one by one |
| ConsoleProperties.OneCommand | console.go:209-222 | a printable command followed by CR LF runs once, then prompts, leaving an empty line |
| ConsoleProperties.LongLineDiscarded | console.go:191-238 | a line reaching 1023 bytes is discarded with "Line too long", and the rest of that read is dropped |
| ConsoleProperties.CommandsSnoc | console.go:218-220 | one more event adds its command, if any |
| ConsoleProperties.FlattenSnoc | console.go:218-220 | joining one more command appends it |
| ConsoleProperties.StepKeepsText | console.go:209-230 | apart from IAC, a byte step keeps the printable text typed so far split between run commands and the line |
| ConsoleProperties.ScanKeepsText | console.go:191-231 | without IAC bytes and without overflow, the commands run plus the line are exactly the printable bytes received |
| ConsoleProperties.LockoutMonotone | console.go:730-741 | more failures never shorten the lockout |
| ConsoleProperties.LockoutThresholds | console.go:730-741 | 5 s from 3 failures, 30 s from 5, 5 min from 10 |
| ConsoleProperties.LockoutExpires | console.go:745-751 | five minutes after the last failure no lockout remains |
| ConsoleProperties.LockedAfterThird | console.go:745-751 | from the third failure a connection within 5 s is refused, and below three failures none is |
| ConsoleProperties.PassScanPrintable | console.go:837-840 | printable password bytes are stored until the 63-byte limit |
| ConsoleProperties.PasswordLine | console.go:826-834 | a printable password with CR LF is entered as typed |
| ConsoleProperties.PasswordAcrossReads | console.go:792-841 | a password split over two reads is entered whole |
| ConsoleProperties.NegotiationSkipped | console.go:814-824 | telnet negotiation at the start of the reply does not reach the password |
| ConsoleProperties.OverlongPassword | console.go:843-848 | 63 printable bytes without a newline end entry as overlong |
| ConsoleProperties.SilenceTimesOut | console.go:804-854 | reads that bring nothing until the deadline end in a timeout |
| ConsoleProperties.DecimalPrefix | console.go:879-882 | dropping the last digit never increases the value |
| ConsoleProperties.DecimalNonnegative | console.go:879-882 | a digit string has a nonnegative value |
| ConsoleProperties.AccumulateExact | console.go:880 | the 32-bit accumulation is exact below 2^31 |
| ConsoleProperties.DigitRunOf | console.go:879-882 | the digit loop stops exactly after the digits |
| ConsoleProperties.ProductFits | console.go:886-898 | a count up to 2,000,000 times a unit fits in int64 |
| ConsoleProperties.DurationIs | console.go:871-900 | for counts up to 2,000,000 the duration is the count times the unit |
| ConsoleProperties.DurationUnits | console.go:871-900 | empty gives 0, bare digits seconds, m/M minutes, h/H hours, any other unit byte seconds |
| ConsoleProperties.OtaEnableExamples | console.go:503-512 | "5m" is five minutes and "0" is zero, so the default is kept |
| ConsoleProperties.HexDigitsRoundTrip | console.go:652-665 | the unpadded hex digits are lower-case and read back as n |
| ConsoleProperties.HexTextRoundTrip | console.go:652-665 | one to eight lower-case hex digits that read back as n, starting with '0' only for zero |
| ConsoleProperties.Int2Padded | console.go:643-649 | 7 writes "07" and 42 writes "42" |
| ConsoleProperties.FirstDot | console.go:903-918 | the first '.' or the end |
| ConsoleProperties.FirstDotAfter | console.go:903-918 | the first dot lies after a dot-free prefix |
| ConsoleProperties.FieldsCons | console.go:903-918 | a dot-free field then a dot splits off that field |
| ConsoleProperties.FieldsSingle | console.go:903-918 | a dot-free text is one field |
| ConsoleProperties.DecimalNoDot | console.go:921-935 | a decimal holds no dot |
| ConsoleProperties.FourFields | console.go:908-914 | four dot-free fields joined by dots split back into the four |
| ConsoleProperties.DottedRoundTrip | console.go:903-918 | the dotted quad has four fields that read back as the four address bytes, and is 7 to 15 bytes long |
| Mqtt.TopicResponse | mqtt.go:31 | the response topic "bindicator/response" is 19 bytes |
| Mqtt.BytesEqual | mqtt.go:235-245 | true exactly when the two slices are equal, length and bytes |
| Mqtt.AppendHex | mqtt.go:248-256 | exactly four bytes are appended, the prefix is unchanged, and they are the 4-digit hex of v |
| Mqtt.AppendHexRoundTrip | mqtt.go:248-256 | the appended bytes are lower-case hex digits that read back as v |
| Mqtt.FourHexDigits | mqtt.go:249-255 | the four nibbles, most significant first, are lower-case hex digits reading back as v |
| Mqtt.ResponseSink.constructor | mqtt.go:35-41 | no response yet and an empty response length |
| Mqtt.ResponseSink.OnMQTTMessage | mqtt.go:205-220 | another topic changes nothing; on the response topic the bytes read land in the buffer, a read error other than EOF is returned with length and flag unchanged, otherwise the length is the bytes read and the flag is set |
| OtaServer.FormatHex | ota_server.go:550-560 | "0x" followed by eight lower-case hex digits that read back as n |
| OtaServer.FormatHashHex | ota_server.go:563-571 | two lower-case hex digits per byte, which decode back to the hash |
| OtaServer.LeadingTrim | ota_server.go:577-579 | the run of spaces, CRs and LFs at the start |
| OtaServer.TrailingTrim | ota_server.go:580-582 | the run of spaces, CRs and LFs at the end |
| OtaServer.TrimSpace | ota_server.go:574-584 | the middle of s with only space, CR and LF cut from both ends, and none left at either end |
| OtaServer.TrimSpaceIdempotent | ota_server.go:574-584 | trimming twice is trimming once |
| OtaServer.Truncate | ota_server.go:587-592 | a text within maxLen is unchanged; a longer one keeps its first maxLen bytes followed by "..." |
| OtaServer.AccessWindow.constructor | ota_server.go:38-42 | the window starts disabled |
| OtaServer.AccessWindow.Enable | ota_server.go:50-64 | enabled now, with the given timeout or the 10-minute default for 0 |
| OtaServer.AccessWindow.Disable | ota_server.go:67-75 | disabled, start and timeout kept |
| OtaServer.AccessWindow.IsEnabled | ota_server.go:78-96 | true exactly when enabled and no more than the timeout has passed; an expired window is switched off |
| OtaServer.AccessWindow.TimeRemaining | ota_server.go:100-113 | zero when disabled or expired, otherwise the timeout less the time since enabling |
| OtaServer.RemainingMatchesOpen | ota_server.go:78-113 | time remains only while the window is open, and then it is the timeout less the elapsed time |
| OtaServer.NoSectorsErased | ota_server.go:269 | the table starts with all 512 sectors unerased |
| OtaServer.EraseSectors | ota_server.go:402-433 | the sector table keeps its 512 entries |
| OtaServer.Step | ota_server.go:276-462 | an accepted chunk keeps the progress valid and never lowers the total |
| OtaServer.Run | ota_server.go:276-462 | no more chunks accepted than frames read; the total only grows, stays within 1984 KiB and equals the bytes received; a reboot is always into the target partition |
| OtaServer.SessionSpec | ota_server.go:219-463 | replies are sent exactly when "OTA" opened the session, the first being READY 2031616; without it nothing is written to flash and the session ends as no-init or bad-init |
| OtaServer.RunFromUnfold | ota_server.go:276-462 | one iteration of the loop from frame i either stops with that frame's replies or continues from the next frame |
| OtaServer.RunFromIsRun | ota_server.go:276-462 | the loop from frame i with replies and operations so far equals those followed by Run over the remaining frames |
| OtaServer.WireAppend | ota_server.go:249-455 | sending one more reply appends its text |
| OtaServer.EraseChunkSectors | ota_server.go:400-433 | the erase loop marks and issues the sector erases EraseSectors gives |
| OtaServer.Render | ota_server.go:249-455 | the bytes written for a reply are ReplyText |
| OtaServer.AcceptChunk | ota_server.go:378-448 | the total grows by the chunk, the chunk is hashed, the sector erases are issued and the chunk is written at partition + total |
| OtaServer.ReceiveFrame | ota_server.go:280-455 | one frame is handled as Step says: a stop changes no flash or progress, a continue issues Step's operations and moves to its progress |
| OtaServer.Emit | ota_server.go:249-455 | the reply is recorded and its text sent |
| OtaServer.ReceivePass | ota_server.go:276-462 | one pass of the loop keeps the sent bytes, flash log and remaining run consistent with the whole session |
| OtaServer.ReceiveLoop | ota_server.go:268-463 | the receive loop sends Run's replies, writes Run's operations to flash and ends with Run's outcome |
| OtaServer.Receive | ota_server.go:234-463 | the session sends SessionSpec's replies and issues its flash operations: nothing without an "OTA" handshake, otherwise READY and the receive loop into the target partition |
| OtaServer.ResumeBackgroundTasks | ota_server.go:226-232 | the deferred function leaves the bindicator and telemetry unpaused and every telemetry queue flushed |
| OtaServer.FlushAndReboot | ota_server.go:338-346 | telemetry is resumed and flushed, then a reboot into the partition is requested from the boot ROM; the call returns exactly when the ROM reports a non-zero result |
| OtaServer.HandleSession | ota_server.go:219-463 | telemetry and the bindicator are paused for the session; it sends SessionSpec's replies, issues its flash operations, and reboots into the target partition exactly on a Reboot outcome; afterwards telemetry is resumed with every queue flushed, and the bindicator stays paused only when the reboot reset the device |
| OtaServer.ServeOnce | ota_server.go:154-215 | a session is served exactly when the window is open; afterwards OTA is disabled; a closed window sends and writes nothing and leaves telemetry and the bindicator alone |
| OtaServerProperties.SectorEraseIndex | ota_server.go:404 | the erase offset of a sector maps back to that sector |
| OtaServerProperties.EraseSectorsOps | ota_server.go:402-433 | every erase issued is of a tracked, not yet erased sector within the chunk's span |
| OtaServerProperties.EraseSectorsOnce | ota_server.go:402-433 | the erase loop never erases a sector twice |
| OtaServerProperties.EraseSectorsMarks | ota_server.go:402-433 | afterwards a sector is marked exactly when it was marked before or lies in the span |
| OtaServerProperties.EraseSectorsCovers | ota_server.go:402-433 | every unmarked tracked sector in the span is erased |
| OtaServerProperties.AckRepliesCons | ota_server.go:448-455 | the ACKs of a run of chunks start with the first chunk's running total |
| OtaServerProperties.RunCons | ota_server.go:276-462 | the loop over a nonempty run is one Step followed by the loop over the rest |
| OtaServerProperties.AllAcceptableCons | ota_server.go:350-375 | a run is acceptable exactly when its first chunk is and the rest are at the new total |
| OtaServerProperties.PrefixSplit | ota_server.go:276-462 | the first a frames split into the first frame and the next a-1 |
| OtaServerProperties.StepFacts | ota_server.go:288-455 | a frame continues exactly when it is an acceptable chunk, then adding its bytes to the total and the hash and sending ACK of the new total; otherwise it stops with StopOutcome and its reply |
| OtaServerProperties.RunAccepts | ota_server.go:276-462 | the loop accepts a prefix of acceptable chunks, reads one more frame unless all were accepted, and the received bytes are those chunks' data in order |
| OtaServerProperties.AcceptsCons | ota_server.go:276-462 | one accepted chunk followed by an accepted prefix of the rest is an accepted prefix of the whole run |
| OtaServerProperties.RunReplies | ota_server.go:276-462 | the replies are one ACK per accepted chunk with its running total, then the stop reply |
| OtaServerProperties.RepliesCons | ota_server.go:448-455 | an ACK followed by the replies of the rest are the replies of the whole run |
| OtaServerProperties.RunStops | ota_server.go:276-462 | the loop ends with a lost connection when every frame was accepted, otherwise at the first unacceptable frame with its outcome |
| OtaServerProperties.ErasesProgramNothing | ota_server.go:415 | erases alone write no data |
| OtaServerProperties.ProgramsAppend | ota_server.go:437 | two contiguous write sequences form one |
| OtaServerProperties.StepOps | ota_server.go:400-437 | an accepted chunk issues its sector erases, then its write |
| OtaServerProperties.ChunkWriteFacts | ota_server.go:437 | a chunk write puts the data at its address |
| OtaServerProperties.ChunkOpsChain | ota_server.go:400-437 | erases then a write then later contiguous writes put the data at the address |
| OtaServerProperties.StepWrites | ota_server.go:381-437 | the chunk's data is written at partition + total, contiguous with what follows |
| OtaServerProperties.RunWrites | ota_server.go:276-462 | the writes of a session are contiguous from the partition start, and their data are exactly the bytes received |
| OtaServerProperties.ChunkMarks | ota_server.go:402-433 | a marked sector has been erased |
| OtaServerProperties.ChunkErasesMarked | ota_server.go:402-433 | an erased tracked sector is marked |
| OtaServerProperties.ChunkEraseOnce | ota_server.go:402-437 | no sector is erased twice across chunks |
| OtaServerProperties.ChunkEraseBeforeWrite | ota_server.go:400-437 | every written byte lies in a sector erased before the write |
| OtaServerProperties.ChunkErasure | ota_server.go:400-437 | one chunk keeps the sector table consistent with the erases issued |
| OtaServerProperties.StepErasure | ota_server.go:276-462 | one loop step keeps the sector table consistent with the flash history |
| OtaServerProperties.RunErasure | ota_server.go:276-462 | a session erases only tracked sectors, never one twice, and writes only into sectors it erased first |
| OtaServerProperties.SessionErasure | ota_server.go:219-463 | every session erases each tracked sector at most once and erases before it writes |
| OtaServerProperties.ErasesWithinAppend | ota_server.go:402-433 | erases inside the partition stay inside when joined |
| OtaServerProperties.StepErasesWithin | ota_server.go:400-433 | a chunk that is not an empty first chunk erases only inside the partition's firmware area |
| OtaServerProperties.RunErasesWithin | ota_server.go:276-462 | without an empty first chunk, the loop erases only inside the partition |
| OtaServerProperties.SessionErasesWithin | ota_server.go:219-463 | a session whose first frame is not an empty chunk erases only inside the target partition |
| OtaServerProperties.EmptyFirstChunkSpan | ota_server.go:400-401 | an empty chunk at total 0 spans sectors 0 to 0xFFFFF because the uint32 subtraction wraps |
| OtaServerProperties.EmptyFirstChunkErasesAll | ota_server.go:400-425 | an empty first chunk erases all 512 tracked sectors; for target A that includes the first 16 sectors (64 KiB) of partition B, and erases leave the partition |
| OtaServerProperties.IntendedSpanInsidePartition | ota_server.go:400-401 | the intended last sector always lies inside the partition, lies before the first for an empty first chunk, and matches the code for every nonempty chunk |
| OtaServerProperties.StopFrameTouchesNothing | ota_server.go:350-375 | the frame that ends the loop adds no flash operation |
| OtaServerProperties.AcceptableRunAccepted | ota_server.go:276-462 | a run of acceptable chunks is accepted whole and ends when the connection is lost |
| OtaServerProperties.SessionShape | ota_server.go:219-463 | an opened session replies READY, one ACK per accepted chunk and the stop reply; it received those chunks' data, and ends as the first unacceptable frame says or as a lost connection |
| OtaServerProperties.SessionVerdict | ota_server.go:288-347 | the session reboots exactly when a DONE frame follows the accepted chunks and its hash is empty or matches the digest of the data, and reports a mismatch exactly when it does not; the last reply is VERIFIED or the mismatch error |
| OtaServerProperties.StopVerdict | ota_server.go:288-316 | a stopping frame reboots exactly when it is DONE with an accepted hash, and mismatches exactly when it is DONE with a rejected one |
| OtaServerProperties.AckRunningTotals | ota_server.go:448-455 | chunks of 4096, 4096 and 1808 bytes are answered READY 2031616, ACK 4096, ACK 8192, ACK 10000 |
| Partitions.PartitionOffset | ota/ota.go:160-162 | partition A at 0x2000, any other at 0x2000 + 1984 KiB, both sector aligned |
| Partitions.PartitionXipAddr | ota/ota.go:165-167 | the XIP address is 0x10000000 above the flash offset and fits in 32 bits |
| Partitions.PartitionMaxSizeBytes | ota/ota.go:170-172 | 1984 KiB, exactly 496 sectors |
| Partitions.PartitionsAdjacentAndDisjoint | ota/ota.go:67-78 | partition B starts where A ends, no offset lies in both, and together they cover 0x2000 up to 0x3E2000 |
| Partitions.TargetPartition | ota/ota.go:375-380 | the target is B exactly when running from A, otherwise A, and never the running partition |
| Partitions.TargetNeverRunningSlot | ota/ota.go:375-380 | no flash offset lies in both the target and the running partition |
| Partitions.BootPartitionByte | ota/ota.go:200-201 | byte 2 of the boot-info word, 0..255 |
| Partitions.DecodeCurrentPartition | ota/ota.go:189-207 | below 0xFF; nonzero only when the ROM call succeeded and reported boot info; then the partition byte, 0xFF meaning A |
| Partitions.RebootArgs | ota/ota.go:110-124 | flash-update reboot with no-return flag 0x104, 1000 ms delay, p0 the partition's XIP address, p1 0 |
| Partitions.BootRom.constructor | ota/ota.go:85-99 | the ROM's reboot and explicit-buy results and the boot info as given, no reboot yet |
| Partitions.CurrentPartition | ota/ota.go:369-371 | the decoded boot partition, below 0xFF |
| Partitions.RomTargetPartition | ota/ota.go:375-380 | A or B, never the current partition |
| Partitions.ConfirmPartition | ota/ota.go:310-316 | success exactly when the explicit-buy ROM function exists and returns 0 |
| Partitions.Ota.constructor | ota/ota.go:101-102 | no reboot result, no WiFi shutdown registered |
| Partitions.Ota.SetWiFiShutdown | ota/ota.go:387-389 | the shutdown hook is registered, nothing else changes |
| Partitions.Ota.RebootToPartition | ota/ota.go:327-333 | the WiFi hook runs once if registered, the ROM reboot is called with RebootArgs when available, the result is -1 without it, and the call returns only on a nonzero result |
| Partitions.Flash.constructor | ota/ota.go:236-280 | an empty operation log |
| Partitions.Flash.WriteChunk | ota/ota.go:395-401 | a nonempty chunk is programmed at the offset when the ROM functions exist; an empty one does nothing |
| Partitions.Flash.EraseSector | ota/ota.go:406-409 | one 4096-byte erase at the offset when the ROM functions exist |
| Partitions.Flash.ErasePartition | ota/ota.go:414-419 | one erase of 1984 KiB at the partition offset when the ROM functions exist |
| Partitions.ProgramErased | ota/ota.go:236-256 | programming an erased byte stores the data byte |
| PushProperties.ToMessages | cmd/cli/main.go:444-448 | each chunk write becomes one frame with its length prefix as header |
| PushProperties.FramesAccepted | ota_server.go:350-375 | every frame the host sends for firmware within the size limit is acceptable, and their data is the firmware |
| PushProperties.AcceptableAreChunks | ota_server.go:288 | acceptable frames are never DONE |
| PushProperties.AcceptablePrefix | ota_server.go:276-462 | a run of acceptable chunks followed by anything is accepted at least that far |
| PushProperties.DoneRestRead | ota_server.go:288-297 | after "DONE", a space, lower-case hex and a newline read back as that hex |
| PushProperties.DoneLineSplit | cmd/cli/main.go:472 | the DONE line starts with the header "DONE" and the rest is space, hex, newline |
| PushProperties.DoneLineRead | cmd/cli/main.go:470-472 | the device reads from the host's DONE line exactly the hex of the hash |
| PushProperties.DigestAccepted | ota_server.go:311 | a hex hash is accepted exactly when it is the digest's |
| PushProperties.PushStopsAtDone | cmd/cli/main.go:434-472 | the device accepts every chunk, receives exactly the firmware, ACKs each chunk and stops at DONE, rebooting exactly when the digest matches |
| PushProperties.PushSession | cmd/cli/main.go:369-490 | a push is answered READY, one ACK per chunk and VERIFIED when the digest of the firmware equals the sent hash (rebooting into the target), and the mismatch error otherwise |
| Schedule.DigitOf | parse.go:82-84 | the byte minus '0' in 8-bit arithmetic; at most 9 exactly for a decimal digit, and then its value |
| Schedule.Atoi2 | parse.go:78-88 | the value of the first two bytes when both are digits, otherwise 0 |
| Schedule.Atoi4 | parse.go:91-103 | the value of the first four bytes when all are digits, otherwise 0 |
| Schedule.ParseBinType | parse.go:106-129 | GREEN for a 'G'/'g' start, BLACK for "BL", BROWN for "BR", in either case, each only with at least five bytes; UNKNOWN otherwise |
| Schedule.Lower | parse.go:113-123 | upper-case ASCII letters lowered, all else kept |
| Schedule.BinNameRoundTrip | parse.go:106-129 | GREEN, BLACK and BROWN parse back to their type, in upper or lower case |
| Schedule.IndexOf | parse.go:42-48 | -1 or an index of s |
| Schedule.IndexOfFacts | parse.go:42-48 | a found index holds the first colon; -1 exactly when there is none |
| Schedule.FieldEnd | parse.go:33-36 | the entry ends within the data |
| Schedule.FieldEndFacts | parse.go:33-36 | the entry holds no comma and ends at a comma or the end of the data |
| Schedule.ParseEntryAccepts | parse.go:40-66 | an entry is stored exactly when it has at least 11 bytes, its first colon at 10, and a known bin with year above 0, month 1..12 and day 1..31, and then it holds those fields |
| Schedule.FieldsUnfold | parse.go:31-72 | splitting at commas yields the first entry and the split of the rest |
| Schedule.LeadingDigits | parse.go:21-24 | the timestamp digits end at the first non-digit |
| Schedule.Wrap64 | parse.go:22 | int64 wrap-around, the identity within range |
| Schedule.FirstJobs | parse.go:31 | at most 15 jobs |
| Schedule.Wrap64Shift | parse.go:22 | wrapping ignores multiples of 2^64 |
| Schedule.Wrap64Step | parse.go:22 | wrapping after each digit gives the wrap of the exact accumulation |
| Schedule.JobTable.Jobs | bindicator.go:214-216 | the stored jobs are the first jobCount slots |
| Schedule.JobTable.constructor | bindicator.go:56-59 | an empty table and timestamp 0 |
| Schedule.JobTable.ClearJobs | bindicator.go:219-221 | the table is emptied |
| Schedule.JobTable.StoreEntry | parse.go:38-68 | the entry's job, if valid, is appended to the table |
| Schedule.JobTable.ParseNext | parse.go:32-71 | one entry is consumed, keeping the stored jobs followed by those still to parse equal to all jobs |
| Schedule.JobTable.ParseScheduleResponse | parse.go:11-75 | the table holds ScheduleJobs of the data, the returned count is its size, and the timestamp is the int64-wrapped leading number |
| Schedule.Stored | parse.go:60-66 | at most one job per entry |
| Schedule.SameLeadingDigits | parse.go:21-24 | the loop's stop position is the number of leading digits |
| Schedule.FieldEndUnique | parse.go:33-36 | a comma-free run ending at a comma or the end is the entry |
| Schedule.EntryLoopStep | parse.go:31-72 | storing one entry and moving past its comma keeps stored plus remaining jobs equal to all jobs |
| Schedule.EntryStep | parse.go:33-71 | the entries from pos are the current one followed by those after its comma |
| ScheduleProperties.AllJobsValid | parse.go:60 | every job parsed is valid |
| ScheduleProperties.KeepValid | parse.go:60 | only valid jobs are kept |
| ScheduleProperties.ScheduleJobsValid | parse.go:31-66 | at most 15 jobs, every one with a known bin, positive year, month 1..12 and day 1..31 |
| ScheduleProperties.EmptyResponse | parse.go:15-17 | empty data gives timestamp 0 and no jobs |
| ScheduleProperties.AllJobsCons | parse.go:31-72 | an entry then a comma contributes its job ahead of the rest |
| ScheduleProperties.AllJobsLast | parse.go:31-72 | a final entry contributes its job |
| ScheduleProperties.Pad2 | parse.go:53-54 | two bytes |
| ScheduleProperties.Pad4 | parse.go:52 | four bytes |
| ScheduleProperties.RenderEntry | parse.go:7-8 | a YYYY-MM-DD:TYPE entry is 16 bytes |
| ScheduleProperties.RenderEntryNoComma | parse.go:7-8 | an entry holds no comma |
| ScheduleProperties.Pad2Value | parse.go:78-88 | a padded two-digit number reads back |
| ScheduleProperties.Pad4Value | parse.go:91-103 | a padded four-digit number reads back |
| ScheduleProperties.RenderEntryLayout | parse.go:50-57 | year at 0..4, month at 5..7, day at 8..10 and bin name after the colon at 10 |
| ScheduleProperties.RenderEntryRoundTrip | parse.go:38-68 | a valid job rendered as an entry parses back to itself |
| ScheduleProperties.RenderedEntriesParse | parse.go:31-72 | valid jobs joined by commas parse back to the same jobs |
| ScheduleProperties.RenderedTimestamp | parse.go:19-24 | the timestamp of a rendered schedule reads back |
| ScheduleProperties.RenderedAfterTimestamp | parse.go:26-29 | after the timestamp and its comma come the joined entries |
| ScheduleProperties.ScheduleRoundTrip | parse.go:11-75 | a rendered schedule parses back to its timestamp and its first 15 jobs |
| ScheduleProperties.TableFills | parse_test.go:187-199 | a response with more than 15 valid entries fills exactly 15 slots |
| Bindicator.DaysInMonth | bindicator.go:156-159 | 28 to 31 days, February having 29 exactly in a leap year |
| Bindicator.AnyInWindowSnoc | bindicator.go:153-186 | one more job lights a bin exactly when it is that bin and inside its window |
| Bindicator.Indicator.constructor | bindicator.go:61-69 | all LEDs off and not paused |
| Bindicator.Indicator.SetBindicatorPaused | bindicator.go:72-74 | the paused flag takes the given value |
| Bindicator.Indicator.IsBindicatorPaused | bindicator.go:77-79 | returns the paused flag |
| Bindicator.Indicator.SetLED | bindicator.go:94-131 | only the named bin's LED takes the value, reporting whether it changed; an unknown bin changes nothing |
| Bindicator.Indicator.UpdateLEDsFromSchedule | bindicator.go:136-211 | while paused nothing changes; otherwise each LED is on exactly when some job of that bin has now strictly between noon the day before and noon of its collection day |
| Bindicator.NextCollection | bindicator.go:190-204 | the first job whose noon on the collection day is still ahead, every earlier job being past, or -1 when all are past |
| BindicatorProperties.PrevDay | bindicator.go:162 | the day before a valid date is a valid date |
| BindicatorProperties.EpochIsDayZero | bindicator.go:156-159 | 1970-01-01 is day 0 |
| BindicatorProperties.DivStep | bindicator.go:156-159 | one more day carries into the next period exactly at its last day |
| BindicatorProperties.YearLength | bindicator.go:156-159 | a year has 366 days when leap, 365 otherwise |
| BindicatorProperties.DaysBeforeDecember | bindicator.go:156-159 | the months of a year add up to its length |
| BindicatorProperties.PrevDayInMonth | bindicator.go:156-159 | the previous day of the month is one day earlier |
| BindicatorProperties.PrevDayMonthStart | bindicator.go:156-159 | the last day of the previous month is the day before the 1st |
| BindicatorProperties.MonthStartsStep | bindicator.go:156-159 | each month starts where the previous one ends |
| BindicatorProperties.PrevDayYearStart | bindicator.go:156-159 | 31 December is the day before 1 January |
| BindicatorProperties.PrevDayIsOneDayEarlier | bindicator.go:162 | the previous date is exactly one day earlier |
| BindicatorProperties.InRangeMonth | bindicator.go:156-159 | for months 1..12 the day count is the days before the year, the month and the day |
| BindicatorProperties.WindowByDay | bindicator.go:161-167 | a time is in the window exactly when it is before noon of the collection day or after noon of the day before |
| BindicatorProperties.WindowOnCollectionDay | bindicator.go:163-167 | on collection day the window is open strictly before noon |
| BindicatorProperties.WindowOnDayBefore | bindicator.go:161-167 | on the day before the window is open strictly after noon |
| BindicatorProperties.WindowClosedOtherDays | bindicator.go:161-167 | on any other day the window is closed |
| BindicatorProperties.UnknownJobLightsNothing | bindicator.go:176-185 | a job of unknown bin lights no LED |
| BindicatorProperties.Jan20Examples | bindicator_test.go:8-94 | a 20 January collection is lit from just after noon on the 19th until just before noon on the 20th, and not at either noon |
| BindicatorProperties.BoundaryExamples | bindicator_test.go:202-244 | windows cross year and month ends, and 29 February 2028 is a real collection day |
| Watchdog.Backoffs | main.go:313-340 | the waits of a backoff schedule: exactly n of them, one per retry |
| Watchdog.NthBackoffClosedForm | main.go:336-339 | after n doubling-and-capping steps the backoff is min(first * 2^n, cap), and never leaves [first, cap] |
| Watchdog.BackoffsBounded | main.go:313-340 | every wait of the schedule is the n-th backoff, lies between the minimum and the cap, and the waits never decrease |
| Watchdog.BackoffsIndex | main.go:325-340 | the k-th wait of the schedule is the backoff after k doubling steps |
| Watchdog.MqttBackoffSchedule | main.go:313-318 | the MQTT retries wait 16 s, 32 s and then 60 s (capped from 64 s) |
| Watchdog.NtpBackoffSchedule | main.go:533-555 | the NTP attempts wait 0.5 s, 1 s, 2 s, 4 s, 8 s, 16 s and then 30 s from the seventh wait on |
| Watchdog.SleepSlicesFacts | main.go:608-619 | sleepWithWatchdog's slices add up to the duration (nothing for d <= 0), each lies in (0, 2 s], and all but the last are exactly 2 s, so the 8 s watchdog is fed in time |
| Watchdog.PollsBracket | main.go:431-448 | sleepWithRefreshCheck makes the least number of polls whose total reaches the duration: one fewer would fall short |
| Watchdog.PollBelow | main.go:438-447 | after p polls the elapsed time is below the duration exactly when p is fewer than the polls the loop makes |
| Watchdog.FailuresBeforeIndex | main.go:325-391 | the failures before the first success are exactly the leading failed attempts |
| Watchdog.FailuresBeforeAll | main.go:325-391 | every attempt counts as failed exactly when none succeeds, and otherwise the attempt after the failures is a success |
| Watchdog.FailuresBeforeAppend | main.go:536-599 | the failures before the first success of two runs of attempts: those of the first run when it succeeds, else all of it plus those of the second |
| Watchdog.WithoutMembers | main.go:525-529 | dropping the configured server from the fallbacks keeps exactly the fallbacks that differ from it |
| Watchdog.ServerListFacts | main.go:512-529 | the NTP server list starts with the configured server, holds each fallback after it exactly when that fallback differs from it, has no duplicates, and has 3 or 4 entries |
| Watchdog.Device.constructor | main.go:44-56 | at boot the device is healthy with no failures, the last success is the boot time, and no schedule has been fetched yet |
| Watchdog.Device.FeedIfHealthy | main.go:453-457 | the watchdog is fed once when the system is healthy and not at all otherwise |
| Watchdog.Device.CheckSystemHealth | main.go:462-483 | health stays only while there are fewer than 3 consecutive failures and fewer than 12 hours since the last success; once lost it is never regained |
| Watchdog.Device.FatalError | main.go:75-91 | a fatal error stops the watchdog feeding and sleeps 15 one-second slices before the software reset |
| Watchdog.Device.SleepWithWatchdog | main.go:608-619 | the sleep advances the clock by the duration (nothing when it is not positive), sleeps the 2 s slices, and feeds once per slice while healthy |
| Watchdog.Device.SleepWithRefreshCheck | main.go:424-449 | the debug override replaces the duration; the loop polls at min(5 s, duration) until the duration is reached or a refresh request arrives, which sets the force-refresh flag; the clock advances by the polls waited and the watchdog is fed before each poll |
| Watchdog.Device.PollUntil | main.go:436-448 | the polling loop waits out the polls before the request (all of them when none comes in time), feeds before each poll, and forces a refresh exactly when a request comes early |
| Watchdog.Device.StartCycle | main.go:280-293 | a cycle refreshes when no schedule was ever fetched, the refresh interval has passed, or a refresh was forced; the force flag is reported and cleared |
| Watchdog.Device.BackoffWait | main.go:334-339 | one retry sleeps the current backoff and moves on to the next doubled-and-capped backoff |
| Watchdog.Device.RecordSuccess | main.go:370-389 | a successful fetch counts the success, clears the failure count and sets the last success and last fetch to now |
| Watchdog.Device.RecordExhausted | main.go:359-369 | exhausted retries add one consecutive failure and re-check the health thresholds |
| Watchdog.Device.RefreshSchedule | main.go:313-391 | the MQTT refresh tries up to 4 times with the 16/32/60 s backoffs between; a success resets the failures and stamps the refresh time, while four failures add one consecutive failure, keep the cached schedule and re-check health |
| Watchdog.Device.BuildServerList | main.go:523-529 | the list built is the configured server followed by the fallbacks that differ from it |
| Watchdog.Device.TryServer | main.go:536-598 | one server's attempts stop at the first successful exchange; each failed lookup or exchange waits the next backoff |
| Watchdog.Device.TryServers | main.go:536-604 | the servers are tried in order until an exchange succeeds, one backoff per failed attempt, and the last error is set exactly when some attempt failed |
| Watchdog.Device.SyncNtp | main.go:522-605 | NTP sync succeeds exactly when some attempt across the server list succeeds, and then counts one sync; otherwise it counts one failure and reports an error when any attempt was made |
| Watchdog.ServersStep | main.go:536-599 | trying one more server either finds the first success at the running failure count or carries the count on to the next server |
| Watchdog.NtpServerStep | main.go:536-599 | the attempts from server j on split into that server's attempts and the rest, for both the first success and the failure count |
| Watchdog.ThreeFailedRounds | main.go:359-369 | three refresh rounds in a row whose every attempt fails leave the device unhealthy, so the watchdog resets it |

## Left out

- Network plumbing is I/O, so it is left out. Its outcomes become inputs: frames, reads, fetch results and NTP exchange results. This covers the listeners and accept loops, `readWithTimeout`/`readExactly`, `otaServerLoop`'s waiting, `consoleServer`, `fetchScheduleViaMQTT`, `closeConn`, DNS and NTP calls, and the CLI's `runCommand`, `interactive`, `otaInfo`, `otaEnable`, `authenticate` and `consumeUntilPrompt`.
- `sendHTTPPost` is the network: its success is the parameter `delivered` of the flushes. `senderLoop` is timing and goroutine scheduling around those flushes.
- SHA-256 is a library. It is the function parameter `sha`, and the digest check compares its hex text exactly, as the code does.
- The boot ROM function-table lookups, inline assembly, interrupt masking, the watchdog trigger register and the busy-wait loops of `ota/ota.go` are foreign hardware calls. They are the injected `BootRom` and `Flash` objects.
- The flash wrappers of `ota/ota.go` never return an error, so the session's erase and write error branches cannot run and are not modelled.
- OtaServer.HandleSession: the `feedWatchdogIfHealthy` calls on each pass of the receive loop, before each erase and before each write are not modelled, because the watchdog is modelled on its own in `Watchdog`. The session's flushes share one `delivered` outcome, and the 100 ms and 3 s sleeps are timing.
- Goroutines, `sync.Mutex`, the `sync.WaitGroup` wait in `Pause` and `runtime.Gosched` are concurrency. Each locked operation is one atomic method.
- Floating point is left out: `Hours()` in `checkSystemHealth` becomes integer nanoseconds against 12 hours, and the float case of `copyAttrValue` and the minute/second displays of console.go are not modelled.
- Wall-clock reads, `time.Format` and sleeping are the model clock `now` and the list of sleeps made. The PRNG words are parameters.
- Logging (`slog` calls, `println`, `logLEDState`) writes text only and changes no modelled state.
- SlogBridge.Handle: the console text handler it also writes to, `Enabled`, and the returned error are I/O and are not modelled.
- SlogBridge.CopyToBuffer: a start position past the buffer end is excluded by `requires`, because Go panics on it.
- The span `Kind` written by `BuildSpansJSON` is the constant 0, because the `Span` record of telemetry.go has no such field.
- `processCommand`'s commands other than `ota-enable` are not modelled: they print status, call the telemetry and OTA switches, or trigger a refresh. The same goes for `writeBool`, `writeBinType`, `writeUptime`, `writeWifiUptime`, `writeConsole` and `flushConsole`.
- `Status` is left out: it is a read of counters, under the mutex.
- `LogDebug`/`LogInfo`/`LogWarn`/`LogError`, `RecordGauge`/`RecordCounter` and `BinType.String` are one-line wrappers around modelled members.
- `ConfirmPartitionWithCode`, `Reboot` and `initLEDs`/`initConsole` are thin wrappers or hardware setup.
- The `main` loop is modelled through its steps (`StartCycle`, `RefreshSchedule`, `SyncNtp`, `SleepWithRefreshCheck`) rather than as one unbounded loop. `loopForeverStack` is packet I/O.
- config/config.go, credentials/credentials.go and version/version.go wrap library parsers and embedded strings; they are not part of this model. LED blink patterns, GPIO and the watchdog peripheral setup are hardware I/O. `readFirmwareInfo` and `getPassword` print or read the terminal.
- The test-only copies are used only as oracles for examples, not as sources of behaviour. These are the `jsonWriter` in telemetry/json_test.go, telemetry/stub_test.go and the bindicator stubs. Tests that call functions absent from the sources (`FlushSpans`, `GetPendingSpanCount`, `SetSpanStatus`) are not modelled.
- OtaServer.EraseSectors: its own contract states only the shape of the result. Which sectors it erases, in which order and each at most once is proved in OtaServerProperties.
- OtaServer.Step: its own contract states only the shape of the result. Its effect on replies, flash and progress is proved in OtaServerProperties.
- Schedule.FieldEnd states only bounds in its own contract. Its meaning is proved in Schedule.FieldEndFacts.
- Watchdog.Device.TryServer: the feed count is stated only as non-decreasing. The exact count depends on the number of attempts made while healthy.
- Watchdog.Device.TryServers: the feed count is stated only as non-decreasing. The exact count depends on the number of attempts made while healthy.
- Watchdog.Device.SyncNtp: the feed count is stated only as non-decreasing. The exact count depends on the number of attempts made while healthy.

## Findings

| source | as written | input that shows it | evidently intended | confidence | as-written member | corrected member |
|---|---|---|---|---|---|---|
| ota_server.go:400-401 | `endSector` is computed in uint32 as `(totalBytes + chunkLen - 1) / 4096`, so a zero-length first chunk wraps it to 0xFFFFF and the erase loop erases all 512 tracked sectors, 2 MiB from the partition start: for target A this erases the first 16 sectors (64 KiB) of partition B, the running image | the handshake "OTA" followed by a chunk header of length 0 as the first frame | an empty chunk erases nothing, and every erased sector lies inside the 496-sector target partition | high, not executed | OtaServerProperties.EmptyFirstChunkErasesAll | OtaServerProperties.IntendedSpanInsidePartition |
| cmd/cli/main.go:655-681 | `maxAddr` is computed as `TargetAddr + PayloadSize` in uint32 without a wrap check, so a block near the top of the address space makes the output range look small and the later copy indexes out of range and panics | two valid UF2 blocks with targets 0xFFFFFF00 and 0 and payload size 0x100 | a block whose end wraps is rejected as an error, and extraction never panics | high, not executed | CliProperties.WrapPanics | CliProperties.CheckedNeverPanics |
