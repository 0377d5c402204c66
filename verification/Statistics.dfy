/**
  The scans behind the loss and bandwidth estimates look at every live packet exactly once, and what the
  estimates are made of.
 */
module Statistics {
  import opened EndpointModel
  import EndpointRuns
  import opened Windows

  // ---- Scans ----

  /** The sum of `weight` over the first `k` numbers of the window that are live, as the source's loops add it up. */
  function Scan<T>(w: Window<T>, weight: T -> nat, k: nat): nat
  {
    if k == 0 then 0
    else
      var u := w.Base() + k - 1;
      Scan(w, weight, k - 1) + if u in w.live then weight(w.live[u]) else 0
  }

  lemma NonEmptyHasKey<T>(live: map<int, T>)
    ensures live == map[] || exists u :: u in live
  {
    if forall u :: u !in live {
      assert live == map[];
    }
  }

  /** The sum of all sizes, in no particular order. */
  ghost function Sum(sizes: map<int, nat>): nat
    decreases |sizes|
  {
    if sizes == map[] then 0
    else
      NonEmptyHasKey(sizes);
      var u :| u in sizes;
      sizes[u] + Sum(sizes - {u})
  }

  lemma {:induction false} SumWithout(sizes: map<int, nat>, u: int)
    requires u in sizes
    ensures Sum(sizes) == sizes[u] + Sum(sizes - {u})
    decreases |sizes|
  {
    var v :| v in sizes && Sum(sizes) == sizes[v] + Sum(sizes - {v});
    if v != u {
      SumWithout(sizes - {v}, u);
      SumWithout(sizes - {u}, v);
      assert sizes - {v} - {u} == sizes - {u} - {v};
    }
  }

  ghost function Weighed<T>(live: map<int, T>, weight: T -> nat): map<int, nat> {
    map u | u in live :: weight(live[u])
  }

  ghost function Below<T>(live: map<int, T>, limit: int): map<int, T> {
    map u | u in live && u < limit :: live[u]
  }

  lemma {:induction false} ScanIsTotalBelow<T>(w: Window<T>, weight: T -> nat, k: nat)
    requires w.Valid()
    ensures Scan(w, weight, k) == Sum(Weighed(Below(w.live, w.Base() + k), weight))
    decreases k
  {
    if k == 0 {
      assert Below(w.live, w.Base()) == map[];
    } else {
      var u := w.Base() + k - 1;
      ScanIsTotalBelow(w, weight, k - 1);
      var now, before := Weighed(Below(w.live, u + 1), weight), Weighed(Below(w.live, u), weight);
      if u in w.live {
        SumWithout(now, u);
        assert now - {u} == before;
      } else {
        assert now == before;
      }
    }
  }

  /** A scan of the whole window adds every live entry exactly once. */
  lemma ScanIsTotal<T>(w: Window<T>, weight: T -> nat)
    requires w.Valid()
    ensures Scan(w, weight, w.size) == Sum(Weighed(w.live, weight))
  {
    ScanIsTotalBelow(w, weight, w.size);
    assert Below(w.live, w.head) == w.live;
  }

  // ---- Bytes ----

  ghost function SentBytes(w: Window<SentData>): nat {
    Sum(map u | u in w.live :: w.live[u].bytes)
  }

  /** Of the acknowledged packets only. */
  ghost function AckedBytes(w: Window<SentData>): nat {
    Sum(map u | u in w.live && w.live[u].acked :: w.live[u].bytes)
  }

  ghost function ReceivedBytes(w: Window<ReceivedData>): nat {
    Sum(map u | u in w.live :: w.live[u].bytes)
  }

  /** What the three scans add up. */
  const SENT_WEIGHT: SentData -> nat := (d: SentData) => d.bytes
  const ACKED_WEIGHT: SentData -> nat := (d: SentData) => if d.acked then d.bytes else 0
  const RECEIVED_WEIGHT: ReceivedData -> nat := (d: ReceivedData) => d.bytes

  ghost function Restricted(sizes: map<int, nat>, keep: set<int>): map<int, nat> {
    map u | u in sizes && u in keep :: sizes[u]
  }

  lemma KeptWithout(sizes: map<int, nat>, keep: set<int>, u: int)
    requires u in sizes && u in keep
    ensures u in Restricted(sizes, keep)
    ensures Restricted(sizes, keep) - {u} == Restricted(sizes - {u}, keep) && sizes - {u} - keep == sizes - keep
  {
  }

  lemma DroppedWithout(sizes: map<int, nat>, keep: set<int>, u: int)
    requires u in sizes && u !in keep
    ensures Restricted(sizes - {u}, keep) == Restricted(sizes, keep) && sizes - keep - {u} == sizes - {u} - keep
  {
  }

  /** A sum splits into those of any part and the rest. */
  lemma {:induction false} SumSplits(sizes: map<int, nat>, keep: set<int>)
    ensures Sum(sizes) == Sum(Restricted(sizes, keep)) + Sum(sizes - keep)
    decreases |sizes|
  {
    NonEmptyHasKey(sizes);
    if sizes == map[] {
      assert Restricted(sizes, keep) == map[] && sizes - keep == map[];
    } else {
      var u :| u in sizes;
      SumWithout(sizes, u);
      SumSplits(sizes - {u}, keep);
      if u in keep {
        KeptWithout(sizes, keep, u);
        SumWithout(Restricted(sizes, keep), u);
      } else {
        DroppedWithout(sizes, keep, u);
        SumWithout(sizes - keep, u);
      }
    }
  }

  lemma {:induction false} ZerosAddNothing(sizes: map<int, nat>)
    requires forall u <- sizes :: sizes[u] == 0
    ensures Sum(sizes) == 0
    decreases |sizes|
  {
    if sizes != map[] {
      NonEmptyHasKey(sizes);
      var u :| u in sizes;
      SumWithout(sizes, u);
      ZerosAddNothing(sizes - {u});
    }
  }

  ghost function AckedNumbers(w: Window<SentData>): set<int> {
    set u | u in w.live && w.live[u].acked
  }

  /** The three scans yield the bytes of all sent packets, of all received ones, and of the acknowledged ones. */
  lemma ScansAddBytes(sent: Window<SentData>, received: Window<ReceivedData>)
    requires sent.Valid() && received.Valid()
    ensures Scan(sent, SENT_WEIGHT, sent.size) == SentBytes(sent)
    ensures Scan(received, RECEIVED_WEIGHT, received.size) == ReceivedBytes(received)
    ensures Scan(sent, ACKED_WEIGHT, sent.size) == AckedBytes(sent)
  {
    ScanIsTotal(sent, SENT_WEIGHT);
    ScanIsTotal(received, RECEIVED_WEIGHT);
    ScanIsTotal(sent, ACKED_WEIGHT);
    assert Weighed(sent.live, SENT_WEIGHT) == map u | u in sent.live :: sent.live[u].bytes;
    assert Weighed(received.live, RECEIVED_WEIGHT) == map u | u in received.live :: received.live[u].bytes;
    var weights := Weighed(sent.live, ACKED_WEIGHT);
    SumSplits(weights, AckedNumbers(sent));
    ZerosAddNothing(weights - AckedNumbers(sent));
    assert Restricted(weights, AckedNumbers(sent)) == map u | u in sent.live && sent.live[u].acked :: sent.live[u].bytes;
  }

  /** Acknowledged bytes never exceed sent bytes. */
  lemma AckedAtMostSentBytes(w: Window<SentData>)
    ensures AckedBytes(w) <= SentBytes(w)
  {
    var sizes: map<int, nat> := map u | u in w.live :: w.live[u].bytes;
    SumSplits(sizes, AckedNumbers(w));
    assert Restricted(sizes, AckedNumbers(w)) == map u | u in w.live && w.live[u].acked :: w.live[u].bytes;
  }

  // ---- Packet loss ----

  /** The unacknowledged packets of the sampled, older part of the sent window. */
  ghost function Lost(w: Window<SentData>, k: nat): set<int> {
    set u | u in w.live && w.Base() < u <= w.Base() + k && !w.live[u].acked
  }

  lemma {:induction false} DroppedCountsLost(w: Window<SentData>, k: nat)
    ensures Dropped(w, k) == |Lost(w, k)|
    decreases k
  {
    if k == 0 {
      assert Lost(w, 0) == {};
    } else {
      DroppedCountsLost(w, k - 1);
      var u := w.Base() + k;
      if u in w.live && !w.live[u].acked {
        assert Lost(w, k) == Lost(w, k - 1) + {u};
      } else {
        assert Lost(w, k) == Lost(w, k - 1);
      }
    }
  }

  /** In percent of the sampled numbers. */
  ghost function LossSample(w: Window<SentData>, samples: nat): real
    requires samples > 0
  {
    |Lost(w, samples)| as real / samples as real * 100.0
  }

  /** The estimate keeps `1 - factor` of its distance from the sample, or takes it over when it is close. */
  ghost predicate Approaches(before: real, after: real, sample: real, factor: real) {
    if -0.00001 < before - sample < 0.00001 then after == sample
    else after - sample == (1.0 - factor) * (before - sample)
  }

  lemma SmoothApproaches(current: real, sample: real, factor: real)
    ensures Approaches(current, Smooth(current, sample, factor), sample, factor)
  {
    var d := current - sample;
    assert (sample - current) * factor == -(d * factor);
    assert (1.0 - factor) * d == d - d * factor;
  }

  /** An update changes nothing but the estimate, which stays while the next sequence is below half the sent
      window, and else approaches the loss in its older half. */
  ghost predicate LossUpdated(e: EndpointState, e': EndpointState)
    requires e.config.sentSize >= 2
  {
    var samples := e.config.sentSize / 2;
    && e' == e.(packetLoss := e'.packetLoss)
    && if e.sequence < samples then e'.packetLoss == e.packetLoss
       else Approaches(e.packetLoss, e'.packetLoss, LossSample(e.sent, samples), e.config.lossFactor)
  }

  lemma UpdateMovesLoss(e: EndpointState)
    requires EndpointRuns.Invariant(e)
    ensures LossUpdated(e, UpdateLoss(e))
  {
    var samples := e.config.sentSize / 2;
    DroppedCountsLost(e.sent, samples);
    SmoothApproaches(e.packetLoss, LossSample(e.sent, samples), e.config.lossFactor);
  }
}
