/** The community-string (v2c) tool: its walk, its single GET, the two
    discovery tables and the traffic sampler. Every walk result the
    discovery and traffic code reads is an input here: it is what `SnmpWalk`
    returns for the columns the tool asks for. */
module SnmpToolV2 {
  import opened Snmp
  import Decimal
  import Oid

  /** What the tool prints for a failed response. */
  datatype Diagnostic =
    | Indication(text: string)
    | Status(status: nat, offender: string)

  /** A failed response whose report can be printed: when only the status is
      set, `varBinds[errorIndex - 1]` must exist, or the report itself raises
      an `IndexError`. */
  predicate Reportable(r: Response) {
    r.errorIndication.Some? || r.errorStatus == 0 || r.errorIndex <= |r.varBinds|
  }

  /** `errorIndex and varBinds[int(errorIndex) - 1][0] or '?'`: the name of
      the blamed binding, or "?" when no binding is blamed (or its name is
      empty, which Python also reads as false). */
  function ErrorOffender(errorIndex: nat, varBinds: seq<Binding>): (at: string)
    requires errorIndex <= |varBinds|
    ensures at != ""
    ensures errorIndex == 0 ==> at == "?"
    ensures errorIndex > 0 ==> at == varBinds[errorIndex - 1].oid || (varBinds[errorIndex - 1].oid == "" && at == "?")
  {
    if errorIndex == 0 then "?"
    else if varBinds[errorIndex - 1].oid == "" then "?"
    else varBinds[errorIndex - 1].oid
  }

  /** The report printed for a failed response: an error indication wins
      over an error status, and a status report names the blamed binding. */
  function Diagnose(r: Response): (d: Diagnostic)
    requires Failed(r) && Reportable(r)
    ensures d.Indication? <==> r.errorIndication.Some?
    ensures d.Indication? ==> d.text == r.errorIndication.value
    ensures d.Status? ==> d.status == r.errorStatus && d.status != 0
    ensures d.Status? ==> d.offender == ErrorOffender(r.errorIndex, r.varBinds)
  {
    if r.errorIndication.Some? then Indication(r.errorIndication.value)
    else Status(r.errorStatus, ErrorOffender(r.errorIndex, r.varBinds))
  }

  /** `snmp_walk`: collect the bindings of every response up to the first
      failed one, report that one and stop, keeping what was collected. */
  method SnmpWalk(responses: seq<Response>) returns (result: seq<Binding>, report: Option<Diagnostic>)
    requires FirstFailure(responses) < |responses| ==> Reportable(responses[FirstFailure(responses)])
    ensures result == Flatten(responses[..FirstFailure(responses)])
    ensures report.None? <==> !AnyFailed(responses)
    ensures report.Some? ==> report.value == Diagnose(responses[FirstFailure(responses)])
    ensures |responses| > 0 && Failed(responses[0]) ==> result == []
    ensures !AnyFailed(responses) ==> |result| == TotalVarBinds(responses)
  {
    result := [];
    report := None;
    var i := 0;
    while i < |responses|
      invariant i <= FirstFailure(responses)
      invariant result == Flatten(responses[..i])
      invariant report == None
    {
      var r := responses[i];
      if r.errorIndication.Some? {
        assert i == FirstFailure(responses);
        report := Some(Indication(r.errorIndication.value));
        break;
      } else if r.errorStatus != 0 {
        assert i == FirstFailure(responses);
        report := Some(Status(r.errorStatus, ErrorOffender(r.errorIndex, r.varBinds)));
        break;
      } else {
        for j := 0 to |r.varBinds|
          invariant result == Flatten(responses[..i]) + r.varBinds[..j]
        {
          result := result + [r.varBinds[j]];
        }
        assert responses[..i + 1][..i] == responses[..i];
        i := i + 1;
      }
    }
    if report == None {
      assert i == |responses| == FirstFailure(responses);
      assert responses[..i] == responses;
      FlattenLength(responses);
    }
  }

  /** A failure after some good responses keeps the bindings already
      collected and drops everything from the failure on. */
  lemma PartialWalkKept(good: seq<Response>, bad: Response, rest: seq<Response>)
    requires forall i :: 0 <= i < |good| ==> !Failed(good[i])
    requires Failed(bad)
    ensures FirstFailure(good + [bad] + rest) == |good|
    ensures Flatten((good + [bad] + rest)[..FirstFailure(good + [bad] + rest)]) == Flatten(good)
  {
    var rs := good + [bad] + rest;
    assert rs[|good|] == bad;
    assert forall i :: 0 <= i < |good| ==> rs[i] == good[i];
    assert rs[..|good|] == good;
  }

  /** What `snmp_get` hands back: the value, and the report it printed. */
  datatype Fetched = Fetched(value: Option<string>, report: Option<Diagnostic>)

  /** `snmp_get` on the one response of a GET: no value when the response
      failed, otherwise the text of the first binding's value, or no value
      when there are no bindings. */
  function SnmpGet(r: Response): (f: Fetched)
    requires Reportable(r)
    ensures f.report.Some? <==> Failed(r)
    ensures f.report.Some? ==> f.report.value == Diagnose(r)
    ensures f.value.Some? <==> !Failed(r) && |r.varBinds| > 0
    ensures f.value.Some? ==> f.value.value == r.varBinds[0].value
  {
    if Failed(r) then Fetched(None, Some(Diagnose(r)))
    else if |r.varBinds| == 0 then Fetched(None, None)
    else Fetched(Some(r.varBinds[0].value), None)
  }

  /** One row of the interface table. */
  datatype InterfaceSummary = InterfaceSummary(index: string, description: string, status: string)

  /** `interface_discovery`: one row per ifDescr binding, in walk order, the
      status taken from the ifOperStatus binding at the same POSITION (the
      code does not match indices; a shorter status column is an
      `IndexError`). */
  method InterfaceDiscovery(descr: seq<Binding>, status: seq<Binding>) returns (summary: seq<InterfaceSummary>)
    requires |status| >= |descr|
    ensures |summary| == |descr|
    ensures forall i :: 0 <= i < |descr| ==>
      summary[i].index == Oid.LastComponent(descr[i].oid) && summary[i].description == descr[i].value
    ensures forall i :: 0 <= i < |descr| ==>
      (summary[i].status == "up" <==> status[i].value == "1") &&
      (summary[i].status == "down" <==> status[i].value != "1")
  {
    summary := [];
    for i := 0 to |descr|
      invariant |summary| == i
      invariant forall k :: 0 <= k < i ==>
        summary[k] == InterfaceSummary(Oid.LastComponent(descr[k].oid), descr[k].value, OperStatusText(status[k].value))
    {
      var idx := Oid.LastComponent(descr[i].oid);
      summary := summary + [InterfaceSummary(idx, descr[i].value, OperStatusText(status[i].value))];
    }
  }

  /** One row of the neighbour table. */
  datatype Neighbor = Neighbor(ip: string, mac: string)

  /** `neighbor_discovery`: one row per ipNetToMediaPhysAddress binding, the
      address being the last four pieces of its name and the MAC its value
      unchanged. */
  method NeighborDiscovery(entries: seq<Binding>) returns (neighbors: seq<Neighbor>)
    ensures |neighbors| == |entries|
    ensures forall i :: 0 <= i < |entries| ==>
      neighbors[i].ip == Oid.LastFour(entries[i].oid) && neighbors[i].mac == entries[i].value
  {
    neighbors := [];
    for i := 0 to |entries|
      invariant |neighbors| == i
      invariant forall k :: 0 <= k < i ==> neighbors[k] == Neighbor(Oid.LastFour(entries[k].oid), entries[k].value)
    {
      var ipStr := Oid.LastFour(entries[i].oid);
      neighbors := neighbors + [Neighbor(ipStr, entries[i].value)];
    }
  }

  /** The four walks of one sampling iteration: in/out octets before the
      sleep, and again after it. */
  datatype Round = Round(inBefore: seq<Binding>, outBefore: seq<Binding>, inAfter: seq<Binding>, outAfter: seq<Binding>)

  /** One traffic record. The tool divides each numerator by the measured
      elapsed time and rounds it; only the integer numerators are kept here. */
  datatype TrafficSample = TrafficSample(iface: string, inBits: int, outBits: int)

  /** The rate numerator `(after - before) * 8`, in bits; a counter that went
      down gives a negative numerator, which the tool does not correct. */
  function BitsDelta(before: int, after: int): (bits: int)
    ensures bits < 0 <==> after < before
    ensures bits == 0 <==> after == before
    ensures bits % 8 == 0
  {
    (after - before) * 8
  }

  /** Every counter the loop over `n` interfaces reads in one round is there
      and is decimal text. */
  predicate RoundReadable(r: Round, n: nat) {
    CounterColumn(r.inBefore, n) && CounterColumn(r.outBefore, n) &&
    CounterColumn(r.inAfter, n) && CounterColumn(r.outAfter, n)
  }

  function SampleAt(descrs: seq<Binding>, r: Round, j: nat): TrafficSample
    requires j < |descrs| && RoundReadable(r, |descrs|)
  {
    TrafficSample(
      descrs[j].value,
      BitsDelta(Decimal.Value(r.inBefore[j].value), Decimal.Value(r.inAfter[j].value)),
      BitsDelta(Decimal.Value(r.outBefore[j].value), Decimal.Value(r.outAfter[j].value)))
  }

  /** The records of one round, one per ifDescr binding, in that order. */
  function RoundSamples(descrs: seq<Binding>, r: Round): seq<TrafficSample>
    requires RoundReadable(r, |descrs|)
  {
    seq(|descrs|, j requires 0 <= j < |descrs| => SampleAt(descrs, r, j))
  }

  /** The records of several rounds, round after round. */
  function Samples(descrs: seq<Binding>, rounds: seq<Round>): seq<TrafficSample>
    requires forall i :: 0 <= i < |rounds| ==> RoundReadable(rounds[i], |descrs|)
  {
    if rounds == [] then []
    else Samples(descrs, rounds[..|rounds| - 1]) + RoundSamples(descrs, rounds[|rounds| - 1])
  }

  /** `range(iterations)` runs no iteration for a negative count. */
  function Iterations(iterations: int): (n: nat)
    ensures iterations >= 0 ==> n == iterations
    ensures iterations <= 0 ==> n == 0
  {
    if iterations > 0 then iterations else 0
  }

  lemma {:induction false} RowMajorBound(i: nat, j: nat, m: nat, n: nat)
    requires i < m && j < n
    ensures i * n + j < m * n
    decreases m - i
  {
    if i + 1 < m {
      RowMajorBound(i + 1, j, m, n);
      assert (i + 1) * n == i * n + n;
    } else {
      assert m * n == i * n + n;
    }
  }

  /** `iterations` rounds give `iterations * len(descrs)` records. */
  lemma {:induction false} SamplesLength(descrs: seq<Binding>, rounds: seq<Round>)
    requires forall i :: 0 <= i < |rounds| ==> RoundReadable(rounds[i], |descrs|)
    ensures |Samples(descrs, rounds)| == |rounds| * |descrs|
    decreases |rounds|
  {
    if rounds != [] {
      SamplesLength(descrs, rounds[..|rounds| - 1]);
      assert (|rounds| - 1) * |descrs| + |descrs| == |rounds| * |descrs|;
    }
  }

  /** Records are in iteration-major order: record `i * len(descrs) + j` is
      interface `j` of round `i`. */
  lemma {:induction false} SamplesAt(descrs: seq<Binding>, rounds: seq<Round>, i: nat, j: nat)
    requires forall k :: 0 <= k < |rounds| ==> RoundReadable(rounds[k], |descrs|)
    requires i < |rounds| && j < |descrs|
    ensures i * |descrs| + j < |Samples(descrs, rounds)|
    ensures Samples(descrs, rounds)[i * |descrs| + j] == SampleAt(descrs, rounds[i], j)
    decreases |rounds|
  {
    var front := rounds[..|rounds| - 1];
    SamplesLength(descrs, rounds);
    SamplesLength(descrs, front);
    RowMajorBound(i, j, |rounds|, |descrs|);
    if i < |front| {
      SamplesAt(descrs, front, i, j);
      assert rounds[i] == front[i];
    } else {
      assert i * |descrs| == |front| * |descrs|;
    }
  }

  /** `monitor_traffic`: for each of `iterations` rounds, one record per
      ifDescr binding; the counters of interface `j` are read by POSITION in
      the four walks of the round. Each round sleeps `interval` seconds,
      which raises a `ValueError` for a negative interval. */
  method MonitorTraffic(descrs: seq<Binding>, rounds: seq<Round>, interval: int, iterations: int)
    returns (results: seq<TrafficSample>)
    requires Iterations(iterations) > 0 ==> interval >= 0
    requires iterations <= |rounds|
    requires forall i :: 0 <= i < iterations ==> RoundReadable(rounds[i], |descrs|)
    ensures results == Samples(descrs, rounds[..Iterations(iterations)])
    ensures |results| == Iterations(iterations) * |descrs|
  {
    results := [];
    for i := 0 to Iterations(iterations)
      invariant results == Samples(descrs, rounds[..i])
    {
      var round := rounds[i];
      ghost var before := results;
      ghost var row := RoundSamples(descrs, round);
      for j := 0 to |descrs|
        invariant results == before + row[..j]
      {
        var inBits := BitsDelta(Decimal.Value(round.inBefore[j].value), Decimal.Value(round.inAfter[j].value));
        var outBits := BitsDelta(Decimal.Value(round.outBefore[j].value), Decimal.Value(round.outAfter[j].value));
        assert row[..j + 1] == row[..j] + [TrafficSample(descrs[j].value, inBits, outBits)];
        results := results + [TrafficSample(descrs[j].value, inBits, outBits)];
      }
      assert row[..|descrs|] == row;
      assert rounds[..i + 1][..i] == rounds[..i];
    }
    SamplesLength(descrs, rounds[..Iterations(iterations)]);
  }
}
