/**
 * What a record of the statistics table holds after any sequence of handler
 * calls on its key: the delay summary the exporter reads is exactly the
 * minimum, maximum and sum of the positive delays measured so far, the
 * counters count the calls that bump them, and no field moves backwards
 * while nothing wraps around.
 */
module History {
  import opened Monitor

  /** The record after the calls `events`, in order, starting from `m`. */
  function Run(m: Metrics, events: seq<Event>): Metrics
    decreases |events|
  {
    if events == [] then m
    else Step(Run(m, events[..|events| - 1]), events[|events| - 1])
  }

  /** The delay each return in `events` measures, in order. */
  function Delays(m: Metrics, events: seq<Event>): seq<U64>
    decreases |events|
  {
    if events == [] then []
    else
      var before := Run(m, events[..|events| - 1]);
      Delays(m, events[..|events| - 1]) +
      match events[|events| - 1]
      case Enter(_) => []
      case Leave(_, now, _, _) => [Elapsed(before.lastTimestampNs, now)]
  }

  /** The delay summary after folding the delays `ds` into `m`. */
  function Replay(m: Metrics, ds: seq<U64>): Metrics
    decreases |ds|
  {
    if ds == [] then m else AddDelay(Replay(m, ds[..|ds| - 1]), ds[|ds| - 1])
  }

  /** The three fields `probe_jitterbuffer_return` maintains. */
  function DelaySummary(m: Metrics): (U64, U64, U64)
  {
    (m.totalDelayNs, m.minDelayNs, m.maxDelayNs)
  }

  /** No positive delay among `ds`. */
  predicate NoSample(ds: seq<U64>)
  {
    forall i :: 0 <= i < |ds| ==> ds[i] == 0
  }

  /** The smallest positive delay, `U64Max` when there is none. */
  function MinPositive(ds: seq<U64>): U64
    decreases |ds|
  {
    if ds == [] then U64Max
    else
      var m := MinPositive(ds[..|ds| - 1]);
      var d := ds[|ds| - 1];
      if 0 < d < m then d else m
  }

  /** The largest delay, 0 when there is none. */
  function MaxDelay(ds: seq<U64>): U64
    decreases |ds|
  {
    if ds == [] then 0
    else
      var m := MaxDelay(ds[..|ds| - 1]);
      var d := ds[|ds| - 1];
      if d > m then d else m
  }

  function Sum(ds: seq<U64>): nat
    decreases |ds|
  {
    if ds == [] then 0 else Sum(ds[..|ds| - 1]) + ds[|ds| - 1]
  }

  /** Adding to a wrapped sum wraps the whole sum. */
  lemma WrapAdd(a: nat, b: nat)
    ensures Wrap(Wrap(a) + b) == Wrap(a + b)
  {
    var q := a / TwoTo64;
    assert a == q * TwoTo64 + Wrap(a);
    assert (q * TwoTo64 + (Wrap(a) + b)) % TwoTo64 == (Wrap(a) + b) % TwoTo64;
  }

  /** The delay summary after a history depends only on the delays it measured. */
  lemma {:induction false} RunReplaysDelays(m: Metrics, events: seq<Event>)
    ensures DelaySummary(Run(m, events)) == DelaySummary(Replay(m, Delays(m, events)))
    decreases |events|
  {
    if events != [] {
      var init, e := events[..|events| - 1], events[|events| - 1];
      RunReplaysDelays(m, init);
      var before := Run(m, init);
      var ds := Delays(m, init);
      match e
      case Enter(_) =>
        assert Delays(m, events) == ds;
      case Leave(effect, now, ret, word) =>
        var d := Elapsed(before.lastTimestampNs, now);
        assert Delays(m, events) == ds + [d];
        assert (ds + [d])[..|ds|] == ds;
        assert Replay(m, ds + [d]) == AddDelay(Replay(m, ds), d);
        var n := ApplyEffect(before, effect, ret, word);
        assert DelaySummary(n) == DelaySummary(before) && n.lastTimestampNs == before.lastTimestampNs;
    }
  }

  /** Folding delays into an empty summary yields their minimum, maximum and sum. */
  lemma {:induction false} ReplaySummarises(m: Metrics, ds: seq<U64>)
    requires m.totalDelayNs == 0 && m.minDelayNs == U64Max && m.maxDelayNs == 0
    ensures Replay(m, ds).minDelayNs == MinPositive(ds)
    ensures Replay(m, ds).maxDelayNs == MaxDelay(ds)
    ensures Replay(m, ds).totalDelayNs == Wrap(Sum(ds))
    decreases |ds|
  {
    if ds != [] {
      var init, d := ds[..|ds| - 1], ds[|ds| - 1];
      ReplaySummarises(m, init);
      if d > 0 {
        WrapAdd(Sum(init), d);
      }
    }
  }

  /**
   * While every delay is below the all-ones u64: the minimum is `U64Max`
   * exactly when no delay is positive, the maximum is 0 exactly then, and
   * otherwise every positive delay lies between the two.
   */
  lemma {:induction false} SummaryFacts(ds: seq<U64>)
    requires forall i :: 0 <= i < |ds| ==> ds[i] < U64Max
    ensures MinPositive(ds) == U64Max <==> NoSample(ds)
    ensures MaxDelay(ds) == 0 <==> NoSample(ds)
    ensures !NoSample(ds) ==> MinPositive(ds) <= MaxDelay(ds)
    ensures forall i :: 0 <= i < |ds| && ds[i] > 0 ==> MinPositive(ds) <= ds[i] <= MaxDelay(ds)
    decreases |ds|
  {
    if ds != [] {
      var init, d := ds[..|ds| - 1], ds[|ds| - 1];
      SummaryFacts(init);
      assert NoSample(ds) <==> NoSample(init) && d == 0 by {
        if NoSample(init) && d == 0 {
          forall i | 0 <= i < |ds| ensures ds[i] == 0 {
            if i < |init| { assert ds[i] == init[i]; }
          }
        }
      }
      forall i | 0 <= i < |ds| && ds[i] > 0
        ensures MinPositive(ds) <= ds[i] <= MaxDelay(ds)
      {
        if i < |init| { assert ds[i] == init[i]; }
      }
    }
  }

  /**
   * The no-data sentinels the exporter tests mean what they say: in a record
   * created by an entry probe, whatever handler calls followed, the minimum
   * is `U64Max` iff the maximum is 0 iff no positive delay has been measured;
   * otherwise min <= max. The total is the sum of the delays modulo 2^64.
   * (A measured delay of exactly `U64Max`, a clock stepping back by 1 ns,
   * would be recorded as a maximum but never as a minimum.)
   */
  lemma SentinelMeansNoSample(events: seq<Event>)
    requires var ds := Delays(Initial, events); forall i :: 0 <= i < |ds| ==> ds[i] < U64Max
    ensures var r, ds := Run(Initial, events), Delays(Initial, events);
            && (r.minDelayNs == U64Max <==> NoSample(ds))
            && (r.maxDelayNs == 0 <==> NoSample(ds))
            && (!NoSample(ds) ==> r.minDelayNs <= r.maxDelayNs)
            && r.totalDelayNs == Wrap(Sum(ds))
  {
    var ds := Delays(Initial, events);
    RunReplaysDelays(Initial, events);
    ReplaySummarises(Initial, ds);
    SummaryFacts(ds);
  }

  /** How many returns in `events` count a packet. */
  function CountedPackets(events: seq<Event>): nat
    decreases |events|
  {
    if events == [] then 0
    else
      var e := events[|events| - 1];
      CountedPackets(events[..|events| - 1]) + if e.Leave? && e.effect.countsPacket then 1 else 0
  }

  /** How many returns in `events` count a drop: a dropping handler seeing a negative return value. */
  function CountedDrops(events: seq<Event>): nat
    decreases |events|
  {
    if events == [] then 0
    else
      var e := events[|events| - 1];
      CountedDrops(events[..|events| - 1]) + if e.Leave? && e.effect.dropsOnError && e.ret < 0 then 1 else 0
  }

  /** The bytes the returns in `events` report. */
  function ReportedBytes(events: seq<Event>): nat
    decreases |events|
  {
    if events == [] then 0
    else
      var e := events[|events| - 1];
      ReportedBytes(events[..|events| - 1]) + if e.Leave? then PacketSize(e.effect.size, e.word) else 0
  }

  /** What one call adds to the three counters, before the u64 reduction. */
  lemma StepCounters(m: Metrics, e: Event)
    ensures Step(m, e).packetCount == Wrap(m.packetCount + if e.Leave? && e.effect.countsPacket then 1 else 0)
    ensures Step(m, e).droppedPackets ==
            Wrap(m.droppedPackets + if e.Leave? && e.effect.dropsOnError && e.ret < 0 then 1 else 0)
    ensures Step(m, e).totalBytes == Wrap(m.totalBytes + if e.Leave? then PacketSize(e.effect.size, e.word) else 0)
  {
  }

  /**
   * packet_count, dropped_packets and total_bytes of a new record count,
   * modulo 2^64, exactly the returns of the handlers that bump them.
   */
  lemma {:induction false} CountersCountEvents(events: seq<Event>)
    ensures Run(Initial, events).packetCount == Wrap(CountedPackets(events))
    ensures Run(Initial, events).droppedPackets == Wrap(CountedDrops(events))
    ensures Run(Initial, events).totalBytes == Wrap(ReportedBytes(events))
    decreases |events|
  {
    if events != [] {
      var init := events[..|events| - 1];
      var e := events[|events| - 1];
      CountersCountEvents(init);
      var before := Run(Initial, init);
      assert Run(Initial, events) == Step(before, e);
      StepCounters(before, e);
      WrapAdd(CountedPackets(init), if e.Leave? && e.effect.countsPacket then 1 else 0);
      WrapAdd(CountedDrops(init), if e.Leave? && e.effect.dropsOnError && e.ret < 0 then 1 else 0);
      WrapAdd(ReportedBytes(init), if e.Leave? then PacketSize(e.effect.size, e.word) else 0);
    }
  }

  /**
   * `b` is a later state of the record `a`: counters and accumulators have not
   * decreased, the minimum has not increased, buffer_size is as it was.
   */
  predicate Grows(a: Metrics, b: Metrics)
  {
    && a.packetCount <= b.packetCount
    && a.droppedPackets <= b.droppedPackets
    && a.totalBytes <= b.totalBytes
    && a.totalDelayNs <= b.totalDelayNs
    && a.maxDelayNs <= b.maxDelayNs
    && b.minDelayNs <= a.minDelayNs
    && b.bufferSize == a.bufferSize
  }

  /** The u64 additions the call `e` makes on `m` all stay below 2^64. */
  predicate NoWrap(m: Metrics, e: Event)
  {
    e.Leave? ==>
      && (e.effect.countsPacket ==> m.packetCount < U64Max)
      && (e.effect.dropsOnError && e.ret < 0 ==> m.droppedPackets < U64Max)
      && m.totalBytes + PacketSize(e.effect.size, e.word) <= U64Max
      && m.totalDelayNs + Elapsed(m.lastTimestampNs, e.now) <= U64Max
  }

  /** Field monotonicity over a whole history in which no addition wraps. */
  lemma {:induction false} RunGrows(m: Metrics, events: seq<Event>)
    requires forall i :: 0 <= i < |events| ==> NoWrap(Run(m, events[..i]), events[i])
    ensures Grows(m, Run(m, events))
    decreases |events|
  {
    if events != [] {
      var init := events[..|events| - 1];
      forall i | 0 <= i < |init| ensures NoWrap(Run(m, init[..i]), init[i]) {
        assert init[..i] == events[..i];
      }
      RunGrows(m, init);
      assert NoWrap(Run(m, init), events[|events| - 1]) by {
        assert events[..|events| - 1] == init;
      }
    }
  }

  /** Without the no-wrap condition monotonicity fails: a full packet_count wraps to 0. */
  lemma PacketCountWraps(m: Metrics, now: U64)
    requires m.packetCount == U64Max
    ensures Step(m, Leave(Effect(true, NoSize, false), now, 0, 0)).packetCount == 0
  {
  }

  /**
   * Which return handler bumps which counter: packet_count in put, rtp_parse,
   * avcodec_send_packet and both bitstream-filter calls; total_bytes only in
   * put and rtp_parse; dropped_packets (on a negative return) in get,
   * avcodec_send_packet, avcodec_receive_frame and both bitstream-filter calls.
   */
  lemma ReturnHandlerEffects(h: string)
    requires h in Program() && Program()[h].OnReturn?
    ensures var f, e := Program()[h].traced, Program()[h].effect;
            && (e.countsPacket <==> f in {"jitterbuffer_put", "rtp_parse_packet", "avcodec_send_packet",
                                          "av_bsf_send_packet", "av_bsf_receive_packet"})
            && (e.size != NoSize <==> f in {"jitterbuffer_put", "rtp_parse_packet"})
            && (e.dropsOnError <==> f in {"jitterbuffer_get", "avcodec_send_packet", "avcodec_receive_frame",
                                          "av_bsf_send_packet", "av_bsf_receive_packet"})
  {
  }

  /** No return handler ever changes last_timestamp_ns or buffer_size. */
  lemma ReturnKeepsTimestamp(m: Metrics, effect: Effect, now: U64, ret: int, word: U64)
    ensures Step(m, Leave(effect, now, ret, word)).lastTimestampNs == m.lastTimestampNs
    ensures Step(m, Leave(effect, now, ret, word)).bufferSize == m.bufferSize
  {
  }
}
