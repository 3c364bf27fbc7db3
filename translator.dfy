/**
 * The user-space half: one collection cycle of the exporter, which reads
 * every (key, record) pair of the statistics table and publishes it into the
 * Prometheus registry under the labels (pid, function).
 *
 * The registry is modelled by what each metric family holds per label set:
 * the three counters and the buffer-size gauge hold the last value written,
 * the delay gauges hold the last value set, and the delay histogram holds the
 * sequence of values observed. Seconds are exact reals here.
 */
module Translator {
  import opened Options
  import opened Monitor
  import Decimal
  import History

  /** The label set of every series: `pid=str(pid)` and `function=<name>`. */
  datatype Label = Label(pid: string, func: string)

  /** The labels a record is published under; the thread id is not among them. */
  function LabelOf(k: Key): Label
  {
    Label(Decimal.Show(k.pid), k.functionName)
  }

  const NsPerSecond: real := 1000000000.0

  /** Nanoseconds to seconds, as the division by `1e9` does. */
  function Seconds(ns: nat): (s: real)
    ensures s >= 0.0 && (s == 0.0 <==> ns == 0)
    ensures s * NsPerSecond == ns as real
  {
    ns as real / NsPerSecond
  }

  /**
   * The derived average delay in seconds: total delay over packet count,
   * and 0.0 when no packet was counted.
   */
  function AverageDelay(m: Metrics): (avg: real)
    ensures avg >= 0.0
    ensures avg > 0.0 <==> m.packetCount > 0 && m.totalDelayNs > 0
    ensures m.packetCount > 0 ==> avg * m.packetCount as real == Seconds(m.totalDelayNs)
  {
    if m.packetCount > 0 then (m.totalDelayNs as real / m.packetCount as real) / NsPerSecond else 0.0
  }

  /** What the eight metric families hold, label set by label set. */
  datatype Series = Series(
    packets: map<Label, nat>,
    dropped: map<Label, nat>,
    bytes: map<Label, nat>,
    delayMin: map<Label, real>,
    delayMax: map<Label, real>,
    delayAvg: map<Label, real>,
    observations: map<Label, seq<real>>,
    bufferSize: map<Label, real>)

  const Empty: Series := Series(map[], map[], map[], map[], map[], map[], map[], map[])

  /** What one label set shows in each family; `None` where it has no series yet. */
  datatype Row = Row(
    packets: Option<nat>,
    dropped: Option<nat>,
    bytes: Option<nat>,
    delayMin: Option<real>,
    delayMax: Option<real>,
    delayAvg: Option<real>,
    observations: seq<real>,
    bufferSize: Option<real>)

  function Lookup<V>(m: map<Label, V>, l: Label): Option<V>
  {
    if l in m then Some(m[l]) else None
  }

  /** The samples observed so far under `l` (none for a new label set). */
  function Observed(obs: map<Label, seq<real>>, l: Label): seq<real>
  {
    if l in obs then obs[l] else []
  }

  function View(s: Series, l: Label): Row
  {
    Row(Lookup(s.packets, l), Lookup(s.dropped, l), Lookup(s.bytes, l),
        Lookup(s.delayMin, l), Lookup(s.delayMax, l), Lookup(s.delayAvg, l),
        Observed(s.observations, l), Lookup(s.bufferSize, l))
  }

  /** `collect_metrics` on one (key, record) pair of the snapshot. */
  function Publish(s: Series, k: Key, m: Metrics): Series
  {
    var l := LabelOf(k);
    var avg := AverageDelay(m);
    Series(
      s.packets[l := m.packetCount],
      s.dropped[l := m.droppedPackets],
      s.bytes[l := m.totalBytes],
      if m.minDelayNs != U64Max then s.delayMin[l := Seconds(m.minDelayNs)] else s.delayMin,
      if m.maxDelayNs > 0 then s.delayMax[l := Seconds(m.maxDelayNs)] else s.delayMax,
      if avg > 0.0 then s.delayAvg[l := avg] else s.delayAvg,
      if avg > 0.0 then s.observations[l := Observed(s.observations, l) + [avg]] else s.observations,
      s.bufferSize[l := m.packetCount as real])
  }

  /**
   * Publishing one record: the counters are overwritten with the kernel's
   * cumulative totals, the minimum gauge is set unless the minimum is still
   * its sentinel, the maximum gauge unless it is 0, the average gauge and one
   * histogram observation when the average is positive, and the buffer-size
   * gauge takes the packet count. No other label set changes.
   */
  lemma PublishRow(s: Series, k: Key, m: Metrics)
    ensures forall l :: l != LabelOf(k) ==> View(Publish(s, k, m), l) == View(s, l)
    ensures var before, after := View(s, LabelOf(k)), View(Publish(s, k, m), LabelOf(k));
      && after.packets == Some(m.packetCount)
      && after.dropped == Some(m.droppedPackets)
      && after.bytes == Some(m.totalBytes)
      && after.delayMin == (if m.minDelayNs != U64Max then Some(Seconds(m.minDelayNs)) else before.delayMin)
      && after.delayMax == (if m.maxDelayNs > 0 then Some(Seconds(m.maxDelayNs)) else before.delayMax)
      && after.delayAvg == (if m.packetCount > 0 && m.totalDelayNs > 0 then Some(AverageDelay(m)) else before.delayAvg)
      && after.observations ==
         before.observations + (if m.packetCount > 0 && m.totalDelayNs > 0 then [AverageDelay(m)] else [])
      && after.bufferSize == Some(m.packetCount as real)
  {
  }

  /** Publishing a snapshot's items in the order the table yields them. */
  function PublishAll(s: Series, items: seq<(Key, Metrics)>): Series
    decreases |items|
  {
    if items == [] then s
    else
      var last := items[|items| - 1];
      Publish(PublishAll(s, items[..|items| - 1]), last.0, last.1)
  }

  lemma PublishAllSnoc(s: Series, items: seq<(Key, Metrics)>, i: nat)
    requires i < |items|
    ensures PublishAll(s, items[..i + 1]) == Publish(PublishAll(s, items[..i]), items[i].0, items[i].1)
  {
    assert items[..i + 1][..i] == items[..i];
  }

  /**
   * The items a cycle gets through: all of them, or those before the item
   * whose reading raises; the exception ends the cycle.
   */
  function Reached(items: seq<(Key, Metrics)>, failAt: Option<nat>): (done: seq<(Key, Metrics)>)
    ensures done <= items
    ensures failAt.None? ==> done == items
    ensures failAt.Some? ==> |done| == if failAt.value < |items| then failAt.value else |items|
  {
    if failAt.Some? && failAt.value < |items| then items[..failAt.value] else items
  }

  /** The metric families of the exporter, updated in place by each collection. */
  class Registry {
    var packets: map<Label, nat>
    var dropped: map<Label, nat>
    var bytes: map<Label, nat>
    var delayMin: map<Label, real>
    var delayMax: map<Label, real>
    var delayAvg: map<Label, real>
    var observations: map<Label, seq<real>>
    var bufferSize: map<Label, real>

    function State(): Series
      reads this
    {
      Series(packets, dropped, bytes, delayMin, delayMax, delayAvg, observations, bufferSize)
    }

    /** A registry in which no series has been created yet. */
    constructor ()
      ensures State() == Empty
    {
      packets, dropped, bytes := map[], map[], map[];
      delayMin, delayMax, delayAvg := map[], map[], map[];
      observations, bufferSize := map[], map[];
    }

    /**
     * `collect_metrics`: publish the snapshot `items` in order. `failAt` is
     * the index of the item at which an exception is raised, if any; the
     * items before it stay published and the rest of the cycle is dropped.
     */
    method CollectMetrics(items: seq<(Key, Metrics)>, failAt: Option<nat>)
      modifies this
      ensures State() == PublishAll(old(State()), Reached(items, failAt))
    {
      var i := 0;
      while i < |items|
        invariant 0 <= i <= |items|
        invariant failAt.Some? ==> i <= failAt.value
        invariant State() == PublishAll(old(State()), items[..i])
      {
        if failAt == Some(i) {
          break;
        }
        var (key, metrics) := items[i];
        PublishItem(key, metrics);
        PublishAllSnoc(old(State()), items, i);
        i := i + 1;
      }
      if i == |items| {
        assert items[..i] == items;
      }
    }

    /** The body of the loop of `collect_metrics`, for one (key, record) pair. */
    method PublishItem(key: Key, metrics: Metrics)
      modifies this
      ensures State() == Publish(old(State()), key, metrics)
    {
      var l := LabelOf(key);
      var avg := AverageDelay(metrics);
      packets := packets[l := metrics.packetCount];
      dropped := dropped[l := metrics.droppedPackets];
      bytes := bytes[l := metrics.totalBytes];
      if metrics.minDelayNs != U64Max {
        delayMin := delayMin[l := Seconds(metrics.minDelayNs)];
      }
      if metrics.maxDelayNs > 0 {
        delayMax := delayMax[l := Seconds(metrics.maxDelayNs)];
      }
      if avg > 0.0 {
        delayAvg := delayAvg[l := avg];
      }
      if avg > 0.0 {
        observations := observations[l := Observed(observations, l) + [avg]];
      }
      bufferSize := bufferSize[l := metrics.packetCount as real];
    }
  }

  // ---------------------------------------------------------------------------
  // Properties of a collection cycle
  // ---------------------------------------------------------------------------

  /** Publishing two snapshots one after the other is publishing their concatenation. */
  lemma {:induction false} PublishAllAppend(s: Series, a: seq<(Key, Metrics)>, b: seq<(Key, Metrics)>)
    ensures PublishAll(s, a + b) == PublishAll(PublishAll(s, a), b)
    decreases |b|
  {
    if b == [] {
      assert a + b == a;
    } else {
      var init := b[..|b| - 1];
      PublishAllAppend(s, a, init);
      assert (a + b)[..|a + b| - 1] == a + init;
    }
  }

  /** A label set no item of the snapshot maps to shows what it showed before. */
  lemma {:induction false} UntouchedLabel(s: Series, items: seq<(Key, Metrics)>, l: Label)
    requires forall i :: 0 <= i < |items| ==> LabelOf(items[i].0) != l
    ensures View(PublishAll(s, items), l) == View(s, l)
    decreases |items|
  {
    if items != [] {
      var init := items[..|items| - 1];
      assert forall i :: 0 <= i < |init| ==> init[i] == items[i];
      UntouchedLabel(s, init, l);
      PublishRow(PublishAll(s, init), items[|items| - 1].0, items[|items| - 1].1);
    }
  }

  /**
   * The last item with a given label set decides its counters and its
   * buffer-size gauge: earlier items under the same labels are overwritten.
   */
  lemma LastWriteWins(s: Series, items: seq<(Key, Metrics)>, i: nat)
    requires i < |items|
    requires forall j :: i < j < |items| ==> LabelOf(items[j].0) != LabelOf(items[i].0)
    ensures var row, m := View(PublishAll(s, items), LabelOf(items[i].0)), items[i].1;
      && row.packets == Some(m.packetCount)
      && row.dropped == Some(m.droppedPackets)
      && row.bytes == Some(m.totalBytes)
      && row.bufferSize == Some(m.packetCount as real)
  {
    var l := LabelOf(items[i].0);
    var head, tail := items[..i + 1], items[i + 1..];
    assert items == head + tail;
    PublishAllAppend(s, head, tail);
    PublishAllSnoc(s, items, i);
    PublishRow(PublishAll(s, items[..i]), items[i].0, items[i].1);
    assert forall j :: 0 <= j < |tail| ==> tail[j] == items[i + 1 + j];
    UntouchedLabel(PublishAll(s, head), tail, l);
  }

  /** The pid label is the pid in decimal, so different pids never share a label set. */
  lemma LabelOfSeparatesPids(k1: Key, k2: Key)
    ensures LabelOf(k1) == LabelOf(k2) <==> k1.pid == k2.pid && k1.functionName == k2.functionName
  {
    Decimal.ShowInjective(k1.pid, k2.pid);
  }

  /** Two keys differing in pid give two independent label sets. */
  lemma PidsIndependent(s: Series, k1: Key, m1: Metrics, k2: Key, m2: Metrics)
    requires k1.pid != k2.pid
    ensures View(PublishAll(s, [(k1, m1), (k2, m2)]), LabelOf(k1)) == View(Publish(s, k1, m1), LabelOf(k1))
    ensures View(PublishAll(s, [(k1, m1), (k2, m2)]), LabelOf(k2)) == View(Publish(s, k2, m2), LabelOf(k2))
  {
    LabelOfSeparatesPids(k1, k2);
    var l1, l2 := LabelOf(k1), LabelOf(k2);
    assert l1 != l2;
    var p1 := Publish(s, k1, m1);
    var items := [(k1, m1), (k2, m2)];
    PublishAllSnoc(s, items, 0);
    PublishAllSnoc(s, items, 1);
    assert items[..0] == [] && items[..2] == items;
    PublishRow(s, k1, m1);
    PublishRow(p1, k2, m2);
    assert View(Publish(p1, k2, m2), l1) == View(p1, l1);
    PublishRow(s, k2, m2);
    assert View(p1, l2) == View(s, l2);
  }

  /**
   * Keys that differ only in the thread id share one label set: after the
   * cycle it shows the counters of whichever record came last, not their sum.
   */
  lemma ThreadsShareSeries(s: Series, k1: Key, m1: Metrics, k2: Key, m2: Metrics)
    requires k1.pid == k2.pid && k1.functionName == k2.functionName
    ensures LabelOf(k1) == LabelOf(k2)
    ensures var row := View(PublishAll(s, [(k1, m1), (k2, m2)]), LabelOf(k1));
      row.packets == Some(m2.packetCount) && row.dropped == Some(m2.droppedPackets) &&
      row.bytes == Some(m2.totalBytes)
  {
    assert [(k1, m1), (k2, m2)][..1] == [(k1, m1)];
    PublishRow(Publish(s, k1, m1), k2, m2);
  }

  /**
   * A key that is the only one under its label set in two consecutive
   * snapshots, whose kernel record went through the handler calls `events`
   * in between without any u64 addition wrapping, publishes its record's
   * counters in both cycles, and the published counters did not decrease.
   */
  lemma CountersNonDecreasing(s: Series, a: seq<(Key, Metrics)>, i: nat, b: seq<(Key, Metrics)>, j: nat,
                              events: seq<Event>)
    requires i < |a| && j < |b| && a[i].0 == b[j].0
    requires forall x :: 0 <= x < |a| && x != i ==> LabelOf(a[x].0) != LabelOf(a[i].0)
    requires forall x :: 0 <= x < |b| && x != j ==> LabelOf(b[x].0) != LabelOf(b[j].0)
    requires b[j].1 == History.Run(a[i].1, events)
    requires forall x :: 0 <= x < |events| ==> History.NoWrap(History.Run(a[i].1, events[..x]), events[x])
    ensures var l, first := LabelOf(a[i].0), PublishAll(s, a);
            var second := PublishAll(first, b);
      && View(first, l).packets == Some(a[i].1.packetCount)
      && View(second, l).packets == Some(b[j].1.packetCount)
      && View(first, l).dropped == Some(a[i].1.droppedPackets)
      && View(second, l).dropped == Some(b[j].1.droppedPackets)
      && View(first, l).bytes == Some(a[i].1.totalBytes)
      && View(second, l).bytes == Some(b[j].1.totalBytes)
      && View(first, l).packets.value <= View(second, l).packets.value
      && View(first, l).dropped.value <= View(second, l).dropped.value
      && View(first, l).bytes.value <= View(second, l).bytes.value
  {
    History.RunGrows(a[i].1, events);
    LastWriteWins(s, a, i);
    LastWriteWins(PublishAll(s, a), b, j);
  }

  /** The labels that have a minimum-delay gauge, with the values it holds below the sentinel in seconds. */
  predicate MinGaugesReal(s: Series)
  {
    forall l :: l in s.delayMin ==> s.delayMin[l] < Seconds(U64Max)
  }

  /** The sentinel minimum is never published as a delay. */
  lemma {:induction false} MinGaugeNeverSentinel(s: Series, items: seq<(Key, Metrics)>)
    requires MinGaugesReal(s)
    ensures MinGaugesReal(PublishAll(s, items))
    decreases |items|
  {
    if items != [] {
      var init, last := items[..|items| - 1], items[|items| - 1];
      MinGaugeNeverSentinel(s, init);
      var before := PublishAll(s, init);
      var after := Publish(before, last.0, last.1);
      PublishRow(before, last.0, last.1);
      forall l | l in after.delayMin ensures after.delayMin[l] < Seconds(U64Max) {
        assert View(after, l).delayMin == Some(after.delayMin[l]);
        if l != LabelOf(last.0) {
          assert View(before, l) == View(after, l);
        } else if last.1.minDelayNs == U64Max {
          assert View(before, l).delayMin == View(after, l).delayMin;
        }
      }
    }
  }

  /** The number of items under `l` whose average is positive: the samples the cycle observes there. */
  function Samples(items: seq<(Key, Metrics)>, l: Label): nat
    decreases |items|
  {
    if items == [] then 0
    else
      var last := items[|items| - 1];
      Samples(items[..|items| - 1], l) + if LabelOf(last.0) == l && AverageDelay(last.1) > 0.0 then 1 else 0
  }

  /**
   * The histogram receives one sample per item under its labels with a
   * positive average, appended after what it held, and every sample it
   * holds is positive.
   */
  lemma {:induction false} HistogramObservations(s: Series, items: seq<(Key, Metrics)>, l: Label)
    ensures var before, after := Observed(s.observations, l), Observed(PublishAll(s, items).observations, l);
      && |after| == |before| + Samples(items, l)
      && after[..|before|] == before
      && forall x :: |before| <= x < |after| ==> after[x] > 0.0
    decreases |items|
  {
    if items != [] {
      var init, last := items[..|items| - 1], items[|items| - 1];
      HistogramObservations(s, init, l);
      var mid := PublishAll(s, init);
      assert View(mid, l).observations == Observed(mid.observations, l);
      var after := Publish(mid, last.0, last.1);
      PublishRow(mid, last.0, last.1);
      assert View(after, l).observations == Observed(after.observations, l);
    }
  }

  /**
   * With a well-formed record, the minimum and maximum gauges are set
   * together, and then minimum <= maximum.
   */
  lemma DelayGaugesTogether(s: Series, k: Key, m: Metrics)
    requires Consistent(m)
    ensures var before, after := View(s, LabelOf(k)), View(Publish(s, k, m), LabelOf(k));
      if m.maxDelayNs > 0 then
        after.delayMin == Some(Seconds(m.minDelayNs)) && after.delayMax == Some(Seconds(m.maxDelayNs)) &&
        after.delayMin.value <= after.delayMax.value
      else
        after.delayMin == before.delayMin && after.delayMax == before.delayMax
  {
    PublishRow(s, k, m);
  }

  /**
   * A record of pid 100 and function "probe_a" with 50 ms of
   * total delay over 10 packets, minimum 1 ms, maximum 9 ms, 2 drops and
   * 4096 bytes publishes exactly these values.
   */
  lemma ProbeAExample(tid: U32, bufferSize: U64, lastTimestampNs: U64)
    ensures var k := Key(100, tid, "probe_a");
            var m := Metrics(10, 50_000_000, 1_000_000, 9_000_000, bufferSize, 2, 4096, lastTimestampNs);
      && LabelOf(k) == Label("100", "probe_a")
      && View(Publish(Empty, k, m), Label("100", "probe_a")) ==
         Row(Some(10), Some(2), Some(4096), Some(0.001), Some(0.009), Some(0.005), [0.005], Some(10.0))
  {
    Decimal.ShowHundred();
    var k := Key(100, tid, "probe_a");
    PublishRow(Empty, k, Metrics(10, 50_000_000, 1_000_000, 9_000_000, bufferSize, 2, 4096, lastTimestampNs));
  }

  /**
   * A return that counts no packet still records its delay: after an
   * `av_packet_alloc` entry at 10 ns and its return at 15 ns, the record has
   * packet_count 0 and yet the minimum-delay gauge is set to 5 ns.
   */
  lemma DelayWithoutPackets(capacity: nat, pid: U32, tid: U32)
    requires capacity > 0
    ensures var k := KeyOf(pid, tid, "av_packet_alloc");
            var t := AfterReturn(AfterEntry(map[], capacity, k, 10), k, DelayOnly, 15, 0, 0);
      && k in t && t[k].packetCount == 0
      && View(Publish(Empty, k, t[k]), LabelOf(k)).delayMin == Some(Seconds(5))
      && View(Publish(Empty, k, t[k]), LabelOf(k)).delayAvg == None
  {
    var k := KeyOf(pid, tid, "av_packet_alloc");
    var t := AfterReturn(AfterEntry(map[], capacity, k, 10), k, DelayOnly, 15, 0, 0);
    PublishRow(Empty, k, t[k]);
  }
}
