/**
 Flow-statistics reduction of the routing scenario.

 The flow monitor's statistics container is modelled as the sequence of its
 per-flow records in iteration order; the two running totals as `nat`s and
 the delivery ratio as a `real`.
 */
module FlowStatistics {

  datatype Option<T> = None | Some(value: T)

  /** The two counters of one flow record that the reduction reads. */
  datatype FlowStats = FlowStats(txPackets: nat, rxPackets: nat)

  /** Packets sent and received, summed over a set of flows. */
  datatype PacketTotals = PacketTotals(sent: nat, received: nat)
  {
    function Plus(other: PacketTotals): PacketTotals
    {
      PacketTotals(sent + other.sent, received + other.received)
    }
  }

  /** Sums of `txPackets` and of `rxPackets` over `records`. */
  function Totals(records: seq<FlowStats>): PacketTotals
  {
    if records == [] then PacketTotals(0, 0)
    else
      Totals(records[..|records| - 1]).Plus(RecordTotals(records[|records| - 1]))
  }

  /** The totals of two batches of flows add up. */
  lemma {:induction false} TotalsAppend(a: seq<FlowStats>, b: seq<FlowStats>)
    ensures Totals(a + b) == Totals(a).Plus(Totals(b))
  {
    if b == [] {
      assert a + b == a;
    } else {
      var init := b[..|b| - 1];
      assert (a + b)[..|a + b| - 1] == a + init;
      TotalsAppend(a, init);
    }
  }

  /** The totals of one flow record. */
  function RecordTotals(r: FlowStats): PacketTotals
  {
    PacketTotals(r.txPackets, r.rxPackets)
  }

  /** Taking one record out of the middle removes exactly its counters from the totals. */
  lemma {:induction false} TotalsRemoveAt(b: seq<FlowStats>, k: nat)
    requires k < |b|
    ensures multiset(b[..k] + b[k + 1..]) == multiset(b) - multiset{b[k]}
    ensures Totals(b) == Totals(b[..k] + b[k + 1..]).Plus(RecordTotals(b[k]))
  {
    var front, x, back := b[..k], b[k], b[k + 1..];
    assert b == (front + [x]) + back;
    assert multiset(b) == multiset(front) + multiset{x} + multiset(back);
    assert Totals([x]) == RecordTotals(x) by {
      assert [x][..0] == [];
    }
    TotalsAppend(front + [x], back);
    TotalsAppend(front, [x]);
    TotalsAppend(front, back);
  }

  /** The totals do not depend on the order in which flow records are visited. */
  lemma {:induction false} TotalsPermutation(a: seq<FlowStats>, b: seq<FlowStats>)
    requires multiset(a) == multiset(b)
    ensures Totals(a) == Totals(b)
  {
    if a == [] {
      assert |b| == |multiset(b)| == 0;
    } else {
      var init, last := a[..|a| - 1], a[|a| - 1];
      assert a == init + [last];
      assert multiset(init) == multiset(a) - multiset{last};
      assert last in multiset(b);
      var k :| 0 <= k < |b| && b[k] == last;
      TotalsRemoveAt(b, k);
      TotalsPermutation(init, b[..k] + b[k + 1..]);
    }
  }

  /** Nothing was sent exactly when no flow transmitted a packet. */
  lemma {:induction false} NoTrafficIffNothingSent(records: seq<FlowStats>)
    ensures Totals(records).sent == 0 <==> forall k :: 0 <= k < |records| ==> records[k].txPackets == 0
  {
    if records != [] {
      var init := records[..|records| - 1];
      NoTrafficIffNothingSent(init);
      assert forall k :: 0 <= k < |init| ==> init[k] == records[k];
    }
  }

  /** Without duplicate deliveries (no flow receives more than it sent) the
      received total does not exceed the sent total. */
  lemma {:induction false} ReceivedAtMostSent(records: seq<FlowStats>)
    requires forall k :: 0 <= k < |records| ==> records[k].rxPackets <= records[k].txPackets
    ensures Totals(records).received <= Totals(records).sent
  {
    if records != [] {
      var init := records[..|records| - 1];
      assert forall k :: 0 <= k < |init| ==> init[k] == records[k];
      ReceivedAtMostSent(init);
    }
  }

  /** The aggregation loop: two accumulators updated once per flow record. */
  method Aggregate(stats: seq<FlowStats>) returns (totalPacketsSent: nat, totalPacketsReceived: nat)
    ensures totalPacketsSent == Totals(stats).sent
    ensures totalPacketsReceived == Totals(stats).received
  {
    totalPacketsSent, totalPacketsReceived := 0, 0;
    for i := 0 to |stats|
      invariant PacketTotals(totalPacketsSent, totalPacketsReceived) == Totals(stats[..i])
    {
      assert stats[..i + 1][..i] == stats[..i];
      totalPacketsSent := totalPacketsSent + stats[i].txPackets;
      totalPacketsReceived := totalPacketsReceived + stats[i].rxPackets;
    }
    assert stats[..|stats|] == stats;
  }

  /** Received over sent; undefined when nothing was sent. No upper bound:
      duplicate deliveries may push it above one. */
  function DeliveryRatio(totals: PacketTotals): (r: Option<real>)
    ensures r.Some? <==> totals.sent > 0
    ensures r.Some? ==> r.value >= 0.0 && r.value * (totals.sent as real) == totals.received as real
  {
    if totals.sent == 0 then None
    else Some(totals.received as real / totals.sent as real)
  }

  /** In the well-behaved case the ratio is at most one. */
  lemma RatioAtMostOne(records: seq<FlowStats>)
    requires forall k :: 0 <= k < |records| ==> records[k].rxPackets <= records[k].txPackets
    ensures DeliveryRatio(Totals(records)).Some? ==> DeliveryRatio(Totals(records)).value <= 1.0
  {
    ReceivedAtMostSent(records);
  }

  /** Duplicate deliveries are accepted, not clamped: 12 received of 10 sent gives 1.2. */
  lemma RatioAboveOne()
    ensures DeliveryRatio(Totals([FlowStats(10, 12)])) == Some(1.2)
  {
  }

  /** The reduction followed by the ratio: the ratio is defined
      exactly when some flow transmitted a packet. */
  method PacketDeliveryRatio(stats: seq<FlowStats>) returns (packetDeliveryRatio: Option<real>)
    ensures packetDeliveryRatio == DeliveryRatio(Totals(stats))
    ensures packetDeliveryRatio.None? <==> forall k :: 0 <= k < |stats| ==> stats[k].txPackets == 0
  {
    var totalPacketsSent, totalPacketsReceived := Aggregate(stats);
    NoTrafficIffNothingSent(stats);
    packetDeliveryRatio := DeliveryRatio(PacketTotals(totalPacketsSent, totalPacketsReceived));
  }
}
