/** The user-based-security (v3) tool: its walk and GET, which report nothing
    and fail quietly, the two discovery tables and the one-shot traffic
    monitor with integer rates. */
module SnmpToolV3 {
  import opened Snmp
  import Decimal
  import Oid
  import SnmpToolV2

  /** `snmp_get_v3`: no value when the response failed, otherwise the value
      of the first binding, or no value when there are none. */
  function SnmpGet(r: Response): (v: Option<string>)
    ensures v.Some? <==> !Failed(r) && |r.varBinds| > 0
    ensures v.Some? ==> v.value == r.varBinds[0].value
  {
    if Failed(r) then None
    else if |r.varBinds| == 0 then None
    else Some(r.varBinds[0].value)
  }

  /** Both tools fetch the same value; the v2 tool only prints more. */
  lemma GetAgreesWithV2(r: Response)
    requires SnmpToolV2.Reportable(r)
    ensures SnmpGet(r) == SnmpToolV2.SnmpGet(r).value
  {
  }

  /** `snmp_walk_v3`: every binding of every response, in order, unless some
      response failed; then nothing at all, even if bindings had been
      collected before the failure. */
  method SnmpWalk(responses: seq<Response>) returns (results: seq<Binding>)
    ensures AnyFailed(responses) ==> results == []
    ensures !AnyFailed(responses) ==> results == Flatten(responses)
    ensures !AnyFailed(responses) ==> |results| == TotalVarBinds(responses)
  {
    results := [];
    for i := 0 to |responses|
      invariant results == Flatten(responses[..i])
      invariant forall k :: 0 <= k < i ==> !Failed(responses[k])
    {
      var r := responses[i];
      if Failed(r) {
        results := [];
        return;
      }
      for j := 0 to |r.varBinds|
        invariant results == Flatten(responses[..i]) + r.varBinds[..j]
      {
        results := results + [r.varBinds[j]];
      }
      assert responses[..i + 1][..i] == responses[..i];
    }
    assert responses[..|responses|] == responses;
    FlattenLength(responses);
  }

  /** A failure anywhere, even after good responses, makes the stream a
      failed one, so `SnmpWalk` returns nothing for it where the v2 walk
      would keep `Flatten(good)`; the first failure is at or before `bad`. */
  lemma PartialWalkDiscarded(good: seq<Response>, bad: Response, rest: seq<Response>)
    requires Failed(bad)
    ensures AnyFailed(good + [bad] + rest)
    ensures FirstFailure(good + [bad] + rest) <= |good|
  {
    assert (good + [bad] + rest)[|good|] == bad;
  }

  /** One row of the interface table. */
  datatype InterfaceRow = InterfaceRow(index: string, description: string, status: string, speed: string)

  /** `interface_discovery`: one row per ifDescr binding, in walk order, with
      status and speed taken by POSITION from the ifOperStatus and ifSpeed
      walks (shorter columns are an `IndexError`). */
  method InterfaceDiscovery(descrs: seq<Binding>, statuses: seq<Binding>, speeds: seq<Binding>)
    returns (data: seq<InterfaceRow>)
    requires |statuses| >= |descrs| && |speeds| >= |descrs|
    ensures |data| == |descrs|
    ensures forall i :: 0 <= i < |descrs| ==>
      data[i].index == Oid.LastComponent(descrs[i].oid) &&
      data[i].description == descrs[i].value &&
      data[i].speed == speeds[i].value
    ensures forall i :: 0 <= i < |descrs| ==>
      (data[i].status == "up" <==> statuses[i].value == "1") &&
      (data[i].status == "down" <==> statuses[i].value != "1")
  {
    data := [];
    for i := 0 to |descrs|
      invariant |data| == i
      invariant forall k :: 0 <= k < i ==>
        data[k] == InterfaceRow(Oid.LastComponent(descrs[k].oid), descrs[k].value,
                                OperStatusText(statuses[k].value), speeds[k].value)
    {
      var index := Oid.LastComponent(descrs[i].oid);
      var status := OperStatusText(statuses[i].value);
      data := data + [InterfaceRow(index, descrs[i].value, status, speeds[i].value)];
    }
  }

  /** One row of the neighbour table. */
  datatype NeighborRow = NeighborRow(ipAddress: string, macAddress: string)

  /** `ip_neighbor_discovery`: one row per binding; the address is the last
      four pieces of the name (the whole name when it has fewer), the MAC the
      value unchanged. */
  method IpNeighborDiscovery(neighbors: seq<Binding>) returns (data: seq<NeighborRow>)
    ensures |data| == |neighbors|
    ensures forall i :: 0 <= i < |neighbors| ==>
      data[i].ipAddress == Oid.LastFour(neighbors[i].oid) && data[i].macAddress == neighbors[i].value
    ensures forall i :: 0 <= i < |neighbors| && |Oid.Split(neighbors[i].oid)| <= 4 ==>
      data[i].ipAddress == neighbors[i].oid
  {
    data := [];
    for i := 0 to |neighbors|
      invariant |data| == i
      invariant forall k :: 0 <= k < i ==>
        data[k] == NeighborRow(Oid.LastFour(neighbors[k].oid), neighbors[k].value)
    {
      var ipAddr := Oid.LastFour(neighbors[i].oid);
      data := data + [NeighborRow(ipAddr, neighbors[i].value)];
    }
    forall i | 0 <= i < |neighbors| && |Oid.Split(neighbors[i].oid)| <= 4
      ensures data[i].ipAddress == neighbors[i].oid
    {
      Oid.ShortOidIsAddress(neighbors[i].oid);
    }
  }

  /** Floor division by a positive divisor (Python's `//`, which for a
      positive divisor is Dafny's `/`) brackets the dividend. */
  lemma FloorDivBounds(x: int, d: int)
    requires d > 0
    ensures (x / d) * d <= x < (x / d + 1) * d
    ensures x / d >= 0 <==> x >= 0
  {
    var q := x / d;
    assert x == q * d + x % d;
    assert (q + 1) * d == q * d + d;
  }

  /** `(after - before) * 8 // interval`: the floor of the bit count over the
      nominal interval. A counter that went down gives a negative rate, which
      the tool does not correct. */
  function BitRate(before: int, after: int, interval: int): (bps: int)
    requires interval > 0
    ensures bps * interval <= (after - before) * 8 < (bps + 1) * interval
    ensures bps >= 0 <==> after >= before
  {
    FloorDivBounds((after - before) * 8, interval);
    (after - before) * 8 / interval
  }

  /** One traffic record. */
  datatype TrafficRate = TrafficRate(index: string, inBps: int, outBps: int)

  /** `traffic_monitor`: one record per ifInOctets binding of the first
      sample, its counters paired by POSITION with the other three walks. */
  method TrafficMonitor(in1: seq<Binding>, out1: seq<Binding>, in2: seq<Binding>, out2: seq<Binding>, interval: int)
    returns (data: seq<TrafficRate>)
    requires interval >= 0 && (|in1| > 0 ==> interval > 0)
    requires CounterColumn(in1, |in1|) && CounterColumn(out1, |in1|)
    requires CounterColumn(in2, |in1|) && CounterColumn(out2, |in1|)
    ensures |data| == |in1|
    ensures forall i :: 0 <= i < |in1| ==>
      data[i].index == Oid.LastComponent(in1[i].oid) &&
      data[i].inBps == BitRate(Decimal.Value(in1[i].value), Decimal.Value(in2[i].value), interval) &&
      data[i].outBps == BitRate(Decimal.Value(out1[i].value), Decimal.Value(out2[i].value), interval)
  {
    data := [];
    for i := 0 to |in1|
      invariant |data| == i
      invariant forall k :: 0 <= k < i ==>
        data[k] == TrafficRate(
          Oid.LastComponent(in1[k].oid),
          BitRate(Decimal.Value(in1[k].value), Decimal.Value(in2[k].value), interval),
          BitRate(Decimal.Value(out1[k].value), Decimal.Value(out2[k].value), interval))
    {
      var idx := Oid.LastComponent(in1[i].oid);
      var inBps := BitRate(Decimal.Value(in1[i].value), Decimal.Value(in2[i].value), interval);
      var outBps := BitRate(Decimal.Value(out1[i].value), Decimal.Value(out2[i].value), interval);
      data := data + [TrafficRate(idx, inBps, outBps)];
    }
  }
}
