/**
 * The kernel-side half of the jitter-buffer monitor: the statistics table the
 * eBPF program keeps per (pid, tid, traced function), and the handlers that
 * update it when a traced function is entered and when it returns.
 *
 * Every u64 field of the C record is a `U64` here and every `++` and `+=` is
 * taken modulo 2^64, as the C code computes it. What the BPF helpers supply
 * (the clock, the current pid and tid, the word read from user memory, the
 * return register) arrives as method and function inputs.
 */
module Monitor {

  const U64Max: nat := 0xFFFF_FFFF_FFFF_FFFF
  const TwoTo64: nat := 0x1_0000_0000_0000_0000
  const TwoTo32: nat := 0x1_0000_0000

  type U64 = x: int | 0 <= x < 0x1_0000_0000_0000_0000
  type U32 = x: int | 0 <= x < 0x1_0000_0000

  /** An unsigned 64-bit result: the mathematical value reduced modulo 2^64. */
  function Wrap(x: nat): (r: U64)
    ensures x <= U64Max ==> r == x
    ensures U64Max < x < 2 * TwoTo64 ==> r == x - TwoTo64
  {
    x % TwoTo64
  }

  /** `now - last` in u64 arithmetic: the delay the return probe computes. */
  function Elapsed(last: U64, now: U64): (d: U64)
    ensures last <= now ==> d == now - last
    ensures now < last ==> d == TwoTo64 + now - last
    ensures d == 0 <==> now == last
  {
    (now - last) % TwoTo64
  }

  /** Size of the key's `function_name` buffer, terminating NUL included. */
  const NameFieldSize: nat := 64

  /** What the bounded string copy leaves in `function_name`. */
  function NameField(name: string): (field: string)
    ensures |field| < NameFieldSize && field <= name
    ensures |name| < NameFieldSize ==> field == name
  {
    if |name| < NameFieldSize then name else name[..NameFieldSize - 1]
  }

  /** `struct jitterbuffer_key`. */
  datatype Key = Key(pid: U32, tid: U32, functionName: string)

  /** The key a handler builds from the current pid/tid and its function name. */
  function KeyOf(pid: U32, tid: U32, name: string): Key
  {
    Key(pid, tid, NameField(name))
  }

  /** `struct jitterbuffer_metrics`. */
  datatype Metrics = Metrics(
    packetCount: U64,
    totalDelayNs: U64,
    minDelayNs: U64,
    maxDelayNs: U64,
    bufferSize: U64,
    droppedPackets: U64,
    totalBytes: U64,
    lastTimestampNs: U64)

  /** The record an entry probe inserts for a new key: all zero but the minimum. */
  const Initial: Metrics := Metrics(0, 0, U64Max, 0, 0, 0, 0, 0)

  /**
   * The delay summary is well formed: the minimum holds its sentinel exactly
   * when the maximum is still 0, and once a delay is in, min <= max.
   */
  predicate Consistent(m: Metrics)
  {
    && (m.minDelayNs == U64Max <==> m.maxDelayNs == 0)
    && (m.maxDelayNs > 0 ==> m.minDelayNs <= m.maxDelayNs)
  }

  // ---------------------------------------------------------------------------
  // The handlers of the eBPF program
  // ---------------------------------------------------------------------------

  /** How a return handler reads a packet size before the common return logic. */
  datatype SizeRead =
    | NoSize  // total_bytes is not touched
    | Size64  // a u64 read through the first argument (jitterbuffer_put)
    | Size32  // a u32 read through the second argument (rtp_parse_packet)

  /** What a named return handler does before `probe_jitterbuffer_return`. */
  datatype Effect = Effect(countsPacket: bool, size: SizeRead, dropsOnError: bool)

  /** The return handlers that only run the common delay update. */
  const DelayOnly: Effect := Effect(false, NoSize, false)

  /** One function of the eBPF program, with the function name it records under. */
  datatype Handler =
    | OnEntry(traced: string)
    | OnReturn(traced: string, effect: Effect)

  /** Every handler the C program defines, by the name a uprobe attaches to. */
  function Program(): map<string, Handler>
  {
    map[
      "jitterbuffer_put_entry" := OnEntry("jitterbuffer_put"),
      "jitterbuffer_put_return" := OnReturn("jitterbuffer_put", Effect(true, Size64, false)),
      "jitterbuffer_get_entry" := OnEntry("jitterbuffer_get"),
      "jitterbuffer_get_return" := OnReturn("jitterbuffer_get", Effect(false, NoSize, true)),
      "rtp_parse_entry" := OnEntry("rtp_parse_packet"),
      "rtp_parse_return" := OnReturn("rtp_parse_packet", Effect(true, Size32, false)),
      "avcodec_send_packet_entry" := OnEntry("avcodec_send_packet"),
      "avcodec_send_packet_return" := OnReturn("avcodec_send_packet", Effect(true, NoSize, true)),
      "avcodec_receive_frame_entry" := OnEntry("avcodec_receive_frame"),
      "avcodec_receive_frame_return" := OnReturn("avcodec_receive_frame", Effect(false, NoSize, true)),
      "av_packet_alloc_entry" := OnEntry("av_packet_alloc"),
      "av_packet_alloc_return" := OnReturn("av_packet_alloc", DelayOnly),
      "av_packet_ref_entry" := OnEntry("av_packet_ref"),
      "av_packet_ref_return" := OnReturn("av_packet_ref", DelayOnly),
      "av_packet_unref_entry" := OnEntry("av_packet_unref"),
      "av_packet_unref_return" := OnReturn("av_packet_unref", DelayOnly),
      "av_bsf_send_packet_entry" := OnEntry("av_bsf_send_packet"),
      "av_bsf_send_packet_return" := OnReturn("av_bsf_send_packet", Effect(true, NoSize, true)),
      "av_bsf_receive_packet_entry" := OnEntry("av_bsf_receive_packet"),
      "av_bsf_receive_packet_return" := OnReturn("av_bsf_receive_packet", Effect(true, NoSize, true))
    ]
  }

  /**
   * The bytes a return handler adds to total_bytes. `word` is the
   * little-endian u64 at the argument pointer, 0 when the pointer is null or
   * the read faults (the helper then zeroes its destination); a u32 read sees
   * its low half.
   */
  function PacketSize(size: SizeRead, word: U64): (bytes: U64)
    ensures bytes <= word
    ensures size == NoSize ==> bytes == 0
    ensures size == Size64 ==> bytes == word
    ensures size == Size32 ==> bytes < TwoTo32 && (word < TwoTo32 ==> bytes == word)
    ensures size == Size32 ==> bytes == word % TwoTo32
  {
    match size
    case NoSize => 0
    case Size64 => word
    case Size32 => word % TwoTo32
  }

  /** The counter updates a named return handler makes on an existing record. */
  function ApplyEffect(m: Metrics, e: Effect, ret: int, word: U64): (r: Metrics)
    ensures r.(packetCount := m.packetCount, droppedPackets := m.droppedPackets,
               totalBytes := m.totalBytes) == m
    ensures r.packetCount != m.packetCount <==> e.countsPacket
    ensures r.droppedPackets != m.droppedPackets <==> e.dropsOnError && ret < 0
    ensures r.totalBytes != m.totalBytes ==> e.size != NoSize
  {
    m.(packetCount := if e.countsPacket then Wrap(m.packetCount + 1) else m.packetCount,
       totalBytes := Wrap(m.totalBytes + PacketSize(e.size, word)),
       droppedPackets := if e.dropsOnError && ret < 0 then Wrap(m.droppedPackets + 1)
                         else m.droppedPackets)
  }

  /** `probe_jitterbuffer_return`'s fold of one delay into an existing record. */
  function AddDelay(m: Metrics, delay: U64): (r: Metrics)
    ensures r.(totalDelayNs := m.totalDelayNs, minDelayNs := m.minDelayNs,
               maxDelayNs := m.maxDelayNs) == m
    ensures delay == 0 ==> r == m
    ensures r.minDelayNs <= m.minDelayNs && m.maxDelayNs <= r.maxDelayNs
    ensures delay > 0 ==> r.minDelayNs <= delay <= r.maxDelayNs
    ensures delay > 0 ==> r.totalDelayNs == Wrap(m.totalDelayNs + delay)
    ensures r.minDelayNs == m.minDelayNs || r.minDelayNs == delay
    ensures r.maxDelayNs == m.maxDelayNs || r.maxDelayNs == delay
    ensures Consistent(m) && delay < U64Max ==> Consistent(r)
  {
    if delay > 0 then
      m.(totalDelayNs := Wrap(m.totalDelayNs + delay),
         minDelayNs := if delay < m.minDelayNs then delay else m.minDelayNs,
         maxDelayNs := if delay > m.maxDelayNs then delay else m.maxDelayNs)
    else
      m
  }

  /** One handler call on a key that is already in the table. */
  datatype Event =
    | Enter(now: U64)
    | Leave(effect: Effect, now: U64, ret: int, word: U64)

  /** What one handler call does to the record of its key. */
  function Step(m: Metrics, e: Event): Metrics
  {
    match e
    case Enter(now) => m.(lastTimestampNs := now)
    case Leave(effect, now, ret, word) =>
      var n := ApplyEffect(m, effect, ret, word);
      AddDelay(n, Elapsed(n.lastTimestampNs, now))
  }

  // ---------------------------------------------------------------------------
  // The table
  // ---------------------------------------------------------------------------

  /**
   * `probe_jitterbuffer_entry`: a present key only has its timestamp renewed;
   * an absent key is inserted as `Initial` and stamped, unless the table is
   * full, in which case nothing changes.
   */
  function AfterEntry(t: map<Key, Metrics>, capacity: nat, k: Key, now: U64): (u: map<Key, Metrics>)
    ensures u.Keys == if k in t || |t| < capacity then t.Keys + {k} else t.Keys
    ensures forall j :: j in t && j != k ==> u[j] == t[j]
    ensures k in t ==> u[k] == t[k].(lastTimestampNs := now)
    ensures k !in t && k in u ==> u[k] == Initial.(lastTimestampNs := now)
  {
    if k in t then t[k := Step(t[k], Enter(now))]
    else if |t| < capacity then t[k := Step(Initial, Enter(now))]
    else t
  }

  /**
   * A return handler: on a present key its counter updates, then the common
   * delay update; on an absent key nothing at all.
   */
  function AfterReturn(t: map<Key, Metrics>, k: Key, effect: Effect, now: U64, ret: int, word: U64)
    : (u: map<Key, Metrics>)
    ensures u.Keys == t.Keys
    ensures k !in t ==> u == t
    ensures forall j :: j in t && j != k ==> u[j] == t[j]
    ensures k in t ==> u[k].lastTimestampNs == t[k].lastTimestampNs
  {
    if k in t then t[k := Step(t[k], Leave(effect, now, ret, word))] else t
  }

  /** A call of handler `h` of the program by the thread `tid` of process `pid`. */
  function AfterHandler(t: map<Key, Metrics>, capacity: nat, h: Handler,
                        pid: U32, tid: U32, now: U64, ret: int, word: U64): map<Key, Metrics>
  {
    match h
    case OnEntry(name) => AfterEntry(t, capacity, KeyOf(pid, tid, name), now)
    case OnReturn(name, effect) => AfterReturn(t, KeyOf(pid, tid, name), effect, now, ret, word)
  }

  /** Every record of the table is `Consistent`. */
  predicate AllConsistent(t: map<Key, Metrics>)
  {
    forall k :: k in t ==> Consistent(t[k])
  }

  /** An entry probe keeps every record of the table consistent. */
  lemma EntryKeepsConsistent(t: map<Key, Metrics>, capacity: nat, k: Key, now: U64)
    ensures AllConsistent(t) ==> AllConsistent(AfterEntry(t, capacity, k, now))
  {
  }

  /** So does a return handler, unless the delay it measures is the all-ones u64. */
  lemma ReturnKeepsConsistent(t: map<Key, Metrics>, k: Key, effect: Effect, now: U64, ret: int, word: U64)
    ensures AllConsistent(t) && (k in t ==> Elapsed(t[k].lastTimestampNs, now) < U64Max) ==>
            AllConsistent(AfterReturn(t, k, effect, now, ret, word))
  {
  }

  /** `jitterbuffer_stats` with the handlers as methods, each call atomic. */
  class StatsTable {
    var stats: map<Key, Metrics>
    /** The map's maximum number of entries. */
    const capacity: nat

    constructor (capacity: nat)
      ensures this.capacity == capacity && stats == map[]
    {
      this.capacity := capacity;
      stats := map[];
    }

    /** `probe_jitterbuffer_entry`. */
    method ProbeEntry(pid: U32, tid: U32, name: string, now: U64)
      modifies this
      ensures stats == AfterEntry(old(stats), capacity, KeyOf(pid, tid, name), now)
      ensures AllConsistent(old(stats)) ==> AllConsistent(stats)
    {
      EntryKeepsConsistent(stats, capacity, KeyOf(pid, tid, name), now);
      var key := KeyOf(pid, tid, name);
      if key !in stats {
        if |stats| >= capacity {
          // lookup_or_try_init found no room
          return;
        }
        stats := stats[key := Initial];
      }
      stats := stats[key := stats[key].(lastTimestampNs := now)];
    }

    /** `probe_jitterbuffer_return`: the delay update every return handler ends with. */
    method ProbeReturn(pid: U32, tid: U32, name: string, now: U64)
      modifies this
      ensures stats == AfterReturn(old(stats), KeyOf(pid, tid, name), DelayOnly, now, 0, 0)
    {
      var key := KeyOf(pid, tid, name);
      if key in stats {
        var metrics := stats[key];
        var delay := Elapsed(metrics.lastTimestampNs, now);
        if delay > 0 {
          metrics := metrics.(totalDelayNs := Wrap(metrics.totalDelayNs + delay));
          if delay < metrics.minDelayNs {
            metrics := metrics.(minDelayNs := delay);
          }
          if delay > metrics.maxDelayNs {
            metrics := metrics.(maxDelayNs := delay);
          }
        }
        stats := stats[key := metrics];
      }
    }

    /**
     * A named return handler: its own counter updates on the record, then
     * `probe_jitterbuffer_return`. It keeps every record consistent unless
     * the delay it measures is the all-ones u64.
     */
    method HandleReturn(pid: U32, tid: U32, name: string, effect: Effect, now: U64, ret: int, word: U64)
      modifies this
      ensures stats == AfterReturn(old(stats), KeyOf(pid, tid, name), effect, now, ret, word)
      ensures var k := KeyOf(pid, tid, name);
              AllConsistent(old(stats)) && (k in old(stats) ==> Elapsed(old(stats)[k].lastTimestampNs, now) < U64Max)
              ==> AllConsistent(stats)
    {
      ReturnKeepsConsistent(stats, KeyOf(pid, tid, name), effect, now, ret, word);
      var key := KeyOf(pid, tid, name);
      if key in stats {
        var metrics := stats[key];
        if effect.countsPacket {
          metrics := metrics.(packetCount := Wrap(metrics.packetCount + 1));
        }
        metrics := metrics.(totalBytes := Wrap(metrics.totalBytes + PacketSize(effect.size, word)));
        if effect.dropsOnError && ret < 0 {
          metrics := metrics.(droppedPackets := Wrap(metrics.droppedPackets + 1));
        }
        stats := stats[key := metrics];
      }
      ProbeReturn(pid, tid, name, now);
    }

    /** The kernel runs the handler named `handler` for thread `tid` of process `pid`. */
    method Fire(handler: string, pid: U32, tid: U32, now: U64, ret: int, word: U64)
      requires handler in Program()
      modifies this
      ensures stats == AfterHandler(old(stats), capacity, Program()[handler], pid, tid, now, ret, word)
    {
      match Program()[handler]
      case OnEntry(name) => ProbeEntry(pid, tid, name, now);
      case OnReturn(name, effect) => HandleReturn(pid, tid, name, effect, now, ret, word);
    }
  }
}
