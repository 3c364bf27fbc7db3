# FFmpeg jitter-buffer eBPF exporter, modelled in Dafny

The exporter watches a streaming process with uprobes. An eBPF program
(`ffmpeg_jitterbuffer_monitor.c`) keeps a hash table keyed by
(pid, tid, traced function). An entry probe stamps the time of the call.
The matching return probe folds the elapsed time into total, minimum and
maximum delay, and the named return handlers also bump the packet, drop
and byte counters. The Python exporter (`ffmpeg_jitterbuffer_exporter.py`)
compiles that program and attaches an entry and a return probe to every
candidate function it can find: stable FFmpeg library functions in three
shared libraries, then stable and legacy names in the target binary. Each
collection cycle then copies every table record into Prometheus counters,
gauges and a histogram, labelled by (pid, function).

The project models three pieces:

- `monitor.dfy` (module `Monitor`): the table record with explicit u64
  wrap-around, the bounded name copy, and every entry and return handler.
  They are methods of the class `StatsTable`, proved against the functions
  `AfterEntry`/`AfterReturn`. `Program()` lists the 20 handlers the C file
  defines.
- `history.dfy` (module `History`): what a record holds after any sequence
  of handler calls. The min/max sentinels mean "no positive delay yet", the
  counters count exactly the returns that bump them, and no field moves
  backwards while nothing wraps.
- `attacher.dfy` (module `Attacher`): the candidate catalogs, the
  handler-name rewrite and its properties, and the attach loop as the
  method `AttachUprobes`, proved against the in-order filter `Attached`.
  It also holds the match between the names the rewrite produces and the
  handlers the C program defines, and the start-up dispatch
  `LoadEbpfProgram`.
- `translator.dfy` (module `Translator`): one collection cycle as the
  method `Registry.CollectMetrics`, proved against `PublishAll`. Lemmas
  cover what each label set shows afterwards.
- `decimal.dfy` (`str(pid)`) and `options.dfy` (an `Option` type) are
  support modules.

The host is an input throughout:
- The clock, the current pid and tid, the return register and the word
  read through an argument pointer are parameters of the handlers.
- Whether a file exists, whether bcc attaches a probe, whether the C
  source is found and compiles, and what `/proc/<pid>/exe` resolves to
  are parameters of the attacher and the loader.

A few consequences of the code as written are worth knowing; the model
follows the code and proves them:
- `attach_uprobes` returns False when nothing attached
  (`ffmpeg_jitterbuffer_exporter.py:245-249`), but `load_ebpf_program`
  discards that result and returns True (`:127`, `:132`, `:140-141`), so
  loading succeeds with no probe attached
  (`Attacher.LoadIgnoresAttachFailure`).
- The minimum and maximum gauge conditions
  (`ffmpeg_jitterbuffer_exporter.py:292`, `:298`) never test
  `packet_count`, and the `av_packet_alloc`/`ref`/`unref` returns
  (`ffmpeg_jitterbuffer_monitor.c:242-262`) record delays without counting
  packets. A record with `packet_count` 0 therefore still sets the minimum
  and maximum gauges (`Translator.DelayWithoutPackets`).
- The thread id is part of the kernel key but not of the labels. Threads
  of one process overwrite one another's series instead of adding up
  (`Translator.ThreadsShareSeries`). Published counters are monotonic only
  for a key that is alone under its labels and whose counters do not wrap
  (`Translator.CountersNonDecreasing`).
- The `rtp_parse_packet` candidate derives the handler name
  `rtp_parse_packet_entry`, but the C program defines `rtp_parse_entry`.
  That candidate, `ff_rtp_parse_packet` and the two
  `SrsRtpJitterBuffer` members can therefore never attach, and the
  `rtp_parse_*` handlers are named by no candidate
  (`Attacher.HandledCandidates`, `Attacher.UnhandledNeverAttached`,
  `Attacher.RtpParseHandlersUnreachable`).

## Model

| member | source | states |
|---|---|---|
| Monitor.Wrap | ebpf-exporter/ffmpeg_jitterbuffer_monitor.c:12-21 | a u64 field update keeps results up to 2^64-1 and subtracts 2^64 from a single overflow |
| Monitor.Elapsed | ebpf-exporter/ffmpeg_jitterbuffer_monitor.c:74-75 | the u64 delay is now-last when the clock moved forward, wraps to 2^64+now-last when it moved back, and is 0 exactly when the two stamps are equal |
| Monitor.NameField | ebpf-exporter/ffmpeg_jitterbuffer_monitor.c:38-41 | the bounded copy into the 64-byte name field is a prefix of the name shorter than 64 and keeps every shorter name whole |
| Monitor.KeyOf | ebpf-exporter/ffmpeg_jitterbuffer_monitor.c:38-41 | the key of a handler call; its name part is NameField of the function name (specified by Monitor.NameField) |
| Monitor.Program | ebpf-exporter/ffmpeg_jitterbuffer_monitor.c:90-320 | the 20 handlers by name, with the function each records under and the counters its return bumps (specified by History.ReturnHandlerEffects, Attacher.StableNamesHandled, Attacher.JitterbufferHandled, Attacher.RtpParseHandlersUnreachable) |
| Monitor.PacketSize | ebpf-exporter/ffmpeg_jitterbuffer_monitor.c:111-115 | the bytes added to total_bytes: nothing for handlers that read no size, the u64 read in jitterbuffer_put, the low 32 bits in rtp_parse_packet (second argument, :169-173); never more than the word read |
| Monitor.ApplyEffect | ebpf-exporter/ffmpeg_jitterbuffer_monitor.c:95-320 | a named return handler changes only packet_count, dropped_packets and total_bytes; packet_count changes iff the handler counts packets, dropped_packets iff it counts drops and the return value is negative, total_bytes only if it reads a size |
| Monitor.AddDelay | ebpf-exporter/ffmpeg_jitterbuffer_monitor.c:74-85 | the delay fold touches only total, min and max; a zero delay changes nothing; a positive delay is added to the total mod 2^64, the new min is the old min or the delay and no larger than either, the new max is the old max or the delay and no smaller than either; a consistent summary stays consistent while the delay is below U64_MAX |
| Monitor.Step | ebpf-exporter/ffmpeg_jitterbuffer_monitor.c:59-88 | one call on an existing record: an entry renews the timestamp, a return applies its counter effect then folds its delay (specified by History.StepCounters, History.ReturnKeepsTimestamp, History.RunReplaysDelays) |
| Monitor.AfterEntry | ebpf-exporter/ffmpeg_jitterbuffer_monitor.c:33-56 | entry on a present key renews only its timestamp; an absent key is inserted as all zero with min U64_MAX and stamped, unless the table is full, when nothing changes; other keys are untouched |
| Monitor.AfterReturn | ebpf-exporter/ffmpeg_jitterbuffer_monitor.c:59-88 | a return never adds or removes keys, leaves the table unchanged on an absent key, touches no other key and never changes last_timestamp_ns |
| Monitor.AfterHandler | ebpf-exporter/ffmpeg_jitterbuffer_monitor.c:90-320 | a handler call on the table: AfterEntry for an entry handler, AfterReturn with its effect for a return handler (specified by Monitor.StatsTable.Fire) |
| Monitor.EntryKeepsConsistent | ebpf-exporter/ffmpeg_jitterbuffer_monitor.c:43-53 | an entry probe keeps every record's sentinel/min<=max consistency |
| Monitor.ReturnKeepsConsistent | ebpf-exporter/ffmpeg_jitterbuffer_monitor.c:59-88 | a return handler keeps every record consistent unless it measures a delay of U64_MAX |
| Monitor.StatsTable.constructor | ebpf-exporter/ffmpeg_jitterbuffer_monitor.c:24 | the table starts empty with the given capacity |
| Monitor.StatsTable.ProbeEntry | ebpf-exporter/ffmpeg_jitterbuffer_monitor.c:33-56 | the new table is AfterEntry of the old one, and consistency of all records is preserved |
| Monitor.StatsTable.ProbeReturn | ebpf-exporter/ffmpeg_jitterbuffer_monitor.c:59-88 | the new table is AfterReturn with no counter effect |
| Monitor.StatsTable.HandleReturn | ebpf-exporter/ffmpeg_jitterbuffer_monitor.c:95-320 | a named return handler's counter updates followed by the common return logic give AfterReturn with its effect; consistency is preserved while the delay is below U64_MAX |
| Monitor.StatsTable.Fire | ebpf-exporter/ffmpeg_jitterbuffer_monitor.c:90-320 | running any of the 20 handlers by name gives the table AfterHandler describes for it |
| History.RunReplaysDelays | ebpf-exporter/ffmpeg_jitterbuffer_monitor.c:59-88 | after any sequence of calls, total/min/max depend only on the sequence of delays the returns measured |
| History.ReplaySummarises | ebpf-exporter/ffmpeg_jitterbuffer_monitor.c:74-85 | folding delays into a fresh summary gives the smallest positive delay (U64_MAX if none), the largest delay and the sum modulo 2^64 |
| History.SummaryFacts | ebpf-exporter/ffmpeg_jitterbuffer_monitor.c:77-85 | with delays below U64_MAX: minimum is U64_MAX iff maximum is 0 iff no delay is positive, and every positive delay lies between minimum and maximum |
| History.SentinelMeansNoSample | ebpf-exporter/ffmpeg_jitterbuffer_monitor.c:44-85 | in a record created by an entry probe, after any calls, provided no measured delay is U64_MAX: min = U64_MAX iff max = 0 iff no positive delay was measured, min <= max otherwise, total is the sum of delays mod 2^64 |
| History.StepCounters | ebpf-exporter/ffmpeg_jitterbuffer_monitor.c:95-320 | one call adds 1 to packet_count iff its handler counts packets, 1 to dropped_packets iff it counts drops and returned negative, and the size read to total_bytes, each mod 2^64 |
| History.CountersCountEvents | ebpf-exporter/ffmpeg_jitterbuffer_monitor.c:95-320 | the three counters of a new record are, mod 2^64, the number of counting returns, of dropping returns with a negative value, and the bytes the returns read |
| History.RunGrows | ebpf-exporter/ffmpeg_jitterbuffer_monitor.c:59-320 | while no addition wraps, packet_count, dropped_packets, total_bytes, total_delay_ns and max_delay_ns never decrease, min_delay_ns never increases, buffer_size never changes |
| History.PacketCountWraps | ebpf-exporter/ffmpeg_jitterbuffer_monitor.c:108 | without the no-wrap condition monotonicity fails: a packet_count of U64_MAX wraps to 0 |
| History.ReturnHandlerEffects | ebpf-exporter/ffmpeg_jitterbuffer_monitor.c:95-320 | exactly put, rtp_parse, avcodec_send_packet and both bitstream-filter returns count packets; only put and rtp_parse add bytes; exactly get, avcodec_send_packet, avcodec_receive_frame and both bitstream-filter returns count drops |
| History.ReturnKeepsTimestamp | ebpf-exporter/ffmpeg_jitterbuffer_monitor.c:59-88 | no return changes last_timestamp_ns or buffer_size |
| Attacher.ReplaceScope | ebpf-exporter/ffmpeg_jitterbuffer_exporter.py:204 | `s.replace('::', '_')`, left to right without overlap (specified by Attacher.ReplaceScopeIsScopeFree, Attacher.ReplaceScopeFixesScopeFree) |
| Attacher.ReplaceDots | ebpf-exporter/ffmpeg_jitterbuffer_exporter.py:204 | `s.replace('.', '_')` (specified by Attacher.ReplaceDotsAt) |
| Attacher.ReplaceScopeIsScopeFree | ebpf-exporter/ffmpeg_jitterbuffer_exporter.py:204 | replacing `::` leaves no `::` behind |
| Attacher.ReplaceScopeFixesScopeFree | ebpf-exporter/ffmpeg_jitterbuffer_exporter.py:204 | replacing `::` in a string without `::` changes nothing |
| Attacher.ReplaceDotsAt | ebpf-exporter/ffmpeg_jitterbuffer_exporter.py:204 | replacing dots keeps the length and maps each character to `_` if it is a dot and to itself otherwise |
| Attacher.SanitizeIdempotent | ebpf-exporter/ffmpeg_jitterbuffer_exporter.py:204 | the rewritten name holds no `.` and no `::`, so rewriting it again changes nothing |
| Attacher.Sanitize | ebpf-exporter/ffmpeg_jitterbuffer_exporter.py:204 | `func.replace('::', '_').replace('.', '_')` (specified by Attacher.SanitizeIdempotent, Attacher.PlainNameKept, Attacher.ScopedHandlerName) |
| Attacher.HandlerName | ebpf-exporter/ffmpeg_jitterbuffer_exporter.py:228-235 | the rewritten name followed by `_entry` or `_return` (specified by Attacher.ScopedHandlerName, Attacher.ScopedExample, Attacher.HandledCandidates) |
| Attacher.PlainNameKept | ebpf-exporter/ffmpeg_jitterbuffer_exporter.py:204 | a name with no `:` and no `.` is its own rewrite |
| Attacher.ScopedHandlerName | ebpf-exporter/ffmpeg_jitterbuffer_exporter.py:204 | `cls::member` with plain parts gives the handler `cls_member` plus the suffix |
| Attacher.ScopedExample | ebpf-exporter/ffmpeg_jitterbuffer_exporter.py:175-182 | `SrsRtpJitterBuffer::put` gives `SrsRtpJitterBuffer_put_entry` |
| Attacher.Across | ebpf-exporter/ffmpeg_jitterbuffer_exporter.py:222 | the candidates of one file, in catalog order (specified by Attacher.AcrossMembership) |
| Attacher.LibraryCandidates | ebpf-exporter/ffmpeg_jitterbuffer_exporter.py:194-198 | the stable names in each existing library, library by library (specified by Attacher.LibraryCandidatesMembership, Attacher.MissingLibrarySkipped) |
| Attacher.Candidates | ebpf-exporter/ffmpeg_jitterbuffer_exporter.py:194-243 | every candidate in the order tried: the libraries, then the binary with stable and legacy names (specified by Attacher.AttachedMembership) |
| Attacher.Attaches | ebpf-exporter/ffmpeg_jitterbuffer_exporter.py:199-219 | both the entry and the return attach succeed, which needs both handler names in the C program (specified by Attacher.FilterMembership, Attacher.HandledCandidates) |
| Attacher.Filter | ebpf-exporter/ffmpeg_jitterbuffer_exporter.py:199-243 | the candidates that attach, in order (specified by Attacher.FilterMembership, Attacher.FilterAppend, Attacher.FourCandidates) |
| Attacher.Attached | ebpf-exporter/ffmpeg_jitterbuffer_exporter.py:191-243 | the candidates `attach_uprobes` records (specified by Attacher.AttachUprobes, Attacher.AttachedMembership, Attacher.NothingAttachedIff) |
| Attacher.AttachUprobes | ebpf-exporter/ffmpeg_jitterbuffer_exporter.py:159-251 | the recorded `path:func` list is the labels of the in-order filter of all candidates by "both probes attach", and the result is true iff that list is non-empty |
| Attacher.AttachAll | ebpf-exporter/ffmpeg_jitterbuffer_exporter.py:222-243 | one inner loop appends exactly the labels of the names in the file whose entry and return probes both attach, in order |
| Attacher.FilterMembership | ebpf-exporter/ffmpeg_jitterbuffer_exporter.py:199-219 | a candidate is recorded iff it is tried and both its probes attach |
| Attacher.FilterAppend | ebpf-exporter/ffmpeg_jitterbuffer_exporter.py:217-219 | a failure skips only its own candidate: filtering a concatenation is concatenating the filters |
| Attacher.FourCandidates | ebpf-exporter/ffmpeg_jitterbuffer_exporter.py:238-243 | failing, attaching, failing and attaching candidates in that order record exactly the two that attach |
| Attacher.AcrossMembership | ebpf-exporter/ffmpeg_jitterbuffer_exporter.py:222 | the candidates of a file are exactly that file with each of the names |
| Attacher.LibraryCandidatesMembership | ebpf-exporter/ffmpeg_jitterbuffer_exporter.py:194-198 | the library candidates are exactly the stable names in the listed libraries that exist |
| Attacher.AttachedMembership | ebpf-exporter/ffmpeg_jitterbuffer_exporter.py:194-243 | `path:func` is recorded iff both its probes attach and it is a stable name in an existing library or a stable or legacy name in the binary |
| Attacher.NothingAttachedIff | ebpf-exporter/ffmpeg_jitterbuffer_exporter.py:245-251 | nothing is recorded iff no candidate has both probes attach |
| Attacher.MissingLibrarySkipped | ebpf-exporter/ffmpeg_jitterbuffer_exporter.py:195-196 | a library path that does not exist contributes no recorded candidate |
| Attacher.StableNamesHandled | ebpf-exporter/ffmpeg_jitterbuffer_monitor.c:179-320 | every stable name derives an entry and a return handler the C program defines |
| Attacher.JitterbufferHandled | ebpf-exporter/ffmpeg_jitterbuffer_monitor.c:90-147 | jitterbuffer_put and jitterbuffer_get derive handlers the C program defines |
| Attacher.UnhandledHaveNoEntry | ebpf-exporter/ffmpeg_jitterbuffer_exporter.py:175-182 | rtp_parse_packet, ff_rtp_parse_packet and the two SrsRtpJitterBuffer members derive no entry handler the C program defines |
| Attacher.HandledCandidates | ebpf-exporter/ffmpeg_jitterbuffer_exporter.py:164-182 | a candidate name derives both handlers iff it is a stable name, jitterbuffer_put or jitterbuffer_get |
| Attacher.UnhandledNeverAttached | ebpf-exporter/ffmpeg_jitterbuffer_exporter.py:222-243 | whatever the host, the four unhandled legacy names are never recorded |
| Attacher.RtpParseHandlersUnreachable | ebpf-exporter/ffmpeg_jitterbuffer_monitor.c:150-177 | no candidate name derives `rtp_parse_entry` or `rtp_parse_return` |
| Attacher.LoadEbpfProgram | ebpf-exporter/ffmpeg_jitterbuffer_exporter.py:106-147 | on success the target is the given binary when there is one, and otherwise the executable resolved for a given pid, and the attached list is what the attacher records there; on failure nothing was attached |
| Attacher.LoadFailsIff | ebpf-exporter/ffmpeg_jitterbuffer_exporter.py:114-141 | loading fails iff the source is missing, does not compile, or neither a binary nor a pid with a resolvable executable was given |
| Attacher.BinaryTakesPrecedence | ebpf-exporter/ffmpeg_jitterbuffer_exporter.py:126-133 | with a binary given, the pid and its executable make no difference and the binary is the target |
| Attacher.LoadIgnoresAttachFailure | ebpf-exporter/ffmpeg_jitterbuffer_exporter.py:126-141 | loading reports success even when no probe attached |
| Decimal.Show | ebpf-exporter/ffmpeg_jitterbuffer_exporter.py:278 | `str(pid)` is a non-empty string of decimal digits with no leading zero, one digit exactly for 0..9 |
| Decimal.ShowValue | ebpf-exporter/ffmpeg_jitterbuffer_exporter.py:278 | the digits of `str(pid)`, read most significant first, denote the pid |
| Decimal.ShowInjective | ebpf-exporter/ffmpeg_jitterbuffer_exporter.py:278 | different pids give different pid labels |
| Translator.Seconds | ebpf-exporter/ffmpeg_jitterbuffer_exporter.py:296 | dividing by 1e9 gives a non-negative value, zero only for 0 ns, which times 1e9 is the nanoseconds again |
| Translator.AverageDelay | ebpf-exporter/ffmpeg_jitterbuffer_exporter.py:272-274 | the average is non-negative, positive iff packets and total delay are both positive, and times the packet count equals the total delay in seconds |
| Translator.LabelOf | ebpf-exporter/ffmpeg_jitterbuffer_exporter.py:277-281 | the label set `(str(pid), function name)` of a key, dropping tid (specified by Translator.LabelOfSeparatesPids, Translator.ThreadsShareSeries) |
| Translator.Publish | ebpf-exporter/ffmpeg_jitterbuffer_exporter.py:268-322 | one turn of the loop on the registry contents (specified by Translator.PublishRow) |
| Translator.PublishAll | ebpf-exporter/ffmpeg_jitterbuffer_exporter.py:267-322 | a cycle over a snapshot, item by item in order (specified by Translator.Registry.CollectMetrics, Translator.PublishAllAppend, Translator.UntouchedLabel, Translator.LastWriteWins, Translator.HistogramObservations) |
| Translator.PublishRow | ebpf-exporter/ffmpeg_jitterbuffer_exporter.py:268-322 | one record overwrites its three counters and sets buffer size to packet_count; it sets min iff min is not the sentinel and max iff max > 0, otherwise keeping their old values; it sets avg and appends one observation iff the average is positive; no other label set changes |
| Translator.Reached | ebpf-exporter/ffmpeg_jitterbuffer_exporter.py:324-327 | a cycle gets through a prefix of the snapshot: all of it without an exception, the items before the failing one otherwise |
| Translator.Registry.constructor | ebpf-exporter/ffmpeg_jitterbuffer_exporter.py:17-64 | the eight metric families start with no series |
| Translator.Registry.CollectMetrics | ebpf-exporter/ffmpeg_jitterbuffer_exporter.py:259-327 | the registry after a cycle is the old one with the reached items published in order |
| Translator.Registry.PublishItem | ebpf-exporter/ffmpeg_jitterbuffer_exporter.py:268-322 | one loop turn publishes one record |
| Translator.PublishAllAppend | ebpf-exporter/ffmpeg_jitterbuffer_exporter.py:267 | publishing two snapshots in turn is publishing their concatenation |
| Translator.UntouchedLabel | ebpf-exporter/ffmpeg_jitterbuffer_exporter.py:277-322 | a label set no item maps to shows what it showed before |
| Translator.LastWriteWins | ebpf-exporter/ffmpeg_jitterbuffer_exporter.py:277-290 | the last item under a label set decides its counters and its buffer-size gauge |
| Translator.LabelOfSeparatesPids | ebpf-exporter/ffmpeg_jitterbuffer_exporter.py:277-281 | two keys share a label set iff they have the same pid and function name |
| Translator.PidsIndependent | ebpf-exporter/ffmpeg_jitterbuffer_exporter.py:277-322 | records of different pids publish to independent label sets |
| Translator.ThreadsShareSeries | ebpf-exporter/ffmpeg_jitterbuffer_exporter.py:277-290 | keys that differ only in tid share a label set, whose counters show the later record and not a sum |
| Translator.CountersNonDecreasing | ebpf-exporter/ffmpeg_jitterbuffer_exporter.py:277-290 | a key alone under its labels in two cycles, whose record went through handler calls without wrap-around in between, publishes its record's counters in both cycles and the published values do not decrease |
| Translator.MinGaugeNeverSentinel | ebpf-exporter/ffmpeg_jitterbuffer_exporter.py:292-296 | the minimum gauge never holds the sentinel converted to seconds |
| Translator.HistogramObservations | ebpf-exporter/ffmpeg_jitterbuffer_exporter.py:311-315 | a cycle appends to a label's histogram exactly one positive observation per item under it with a positive average, keeping what was there |
| Translator.DelayGaugesTogether | ebpf-exporter/ffmpeg_jitterbuffer_exporter.py:292-302 | for a consistent record the min and max gauges are set together and then min <= max; otherwise both keep their values |
| Translator.ProbeAExample | ebpf-exporter/ffmpeg_jitterbuffer_exporter.py:272-322 | 10 packets with 50 ms total delay publish an average of 0.005 s and one observation of 0.005, with the exact counters and gauges |
| Translator.DelayWithoutPackets | ebpf-exporter/ffmpeg_jitterbuffer_exporter.py:292-296 | an av_packet_alloc call of 5 ns leaves packet_count 0 yet sets the minimum gauge to 5 ns, and leaves the average unset |

## Left out

- The HTTP server and its `/metrics` handler: network I/O.
- The collector thread and its sleep loop: threading and timing. One collection cycle is modelled.
- Signal handling and argument parsing in `main`: plumbing.
- BPF compilation, reading the C source and resolving `/proc/<pid>/exe`: foreign calls and the filesystem. Their outcomes are parameters of `Attacher.LoadEbpfProgram`.
- The bcc attach calls and `os.path.exists`: they are the host oracles of `Attacher.Host`. When an entry probe attaches and the return probe then fails, the entry probe stays attached in the running process. The model records only that the candidate is not listed.
- Attacher.AttachUprobes: does not model the outer exception path that returns false. Nothing in its outer body can raise once the attach calls are caught, apart from console output, and the loader ignores the result anyway.
- Console output and the traceback printing on errors: I/O.
- prometheus_client internals and the histogram's bucket list: the histogram is modelled as the sequence of values observed, which determines every bucket count.
- Floating-point rounding of `/1e9` and of the average: seconds are exact reals.
- UTF-8 decoding of the function name: names are already-decoded strings, so a label is the recorded name itself.
- The BPF helpers (clock, pid/tid, user and kernel reads, registers): their values are method parameters. A failed user read is a size of 0.
- The hash table's maximum number of entries: this is bcc's default, so it is a constructor parameter of `Monitor.StatsTable`.
- Concurrent writers on several CPUs and the reader racing them: each handler call is atomic.
- Dead code: the unused perf output buffer, the exporter's `prev_stats` and the unused `current_time` of `collect_metrics`.
- A collection cycle reads the table as a snapshot sequence of (key, record) pairs in bcc's iteration order. That order is a parameter.
- History.SentinelMeansNoSample: the sentinel and min <= max facts are promised only while no measured delay is U64_MAX. Such a delay arises when the clock steps back by exactly 1 ns; the C code then records it as a maximum while the minimum keeps its sentinel, so no stronger statement holds.
- Monitor.AddDelay: keeps a consistent summary consistent only for a delay below U64_MAX, for the same reason.
