/** What the two tools receive from the protocol engine, and the facts about
    it that both of their walks rely on.

    A GET or GET-NEXT exchange yields a tuple `(errorIndication, errorStatus,
    errorIndex, varBinds)`; a walk is the sequence of those tuples the
    GET-NEXT iterator produces for one subtree. Here that sequence is an
    input, so nothing of the network is modelled. */
module Snmp {
  import Decimal

  datatype Option<T> = None | Some(value: T)

  /** A variable binding as the tools keep it: `(str(name), str(value))`. */
  datatype Binding = Binding(oid: string, value: string)

  /** One response tuple. `errorIndication` is a local failure (timeout,
      authentication), `errorStatus` the device's error code (0 for none)
      and `errorIndex` the 1-based position of the binding it blames (0 for
      none). */
  datatype Response = Response(
    errorIndication: Option<string>,
    errorStatus: nat,
    errorIndex: nat,
    varBinds: seq<Binding>)

  /** The test `if errorIndication ... elif errorStatus` of both tools. */
  predicate Failed(r: Response) {
    r.errorIndication.Some? || r.errorStatus != 0
  }

  predicate AnyFailed(rs: seq<Response>) {
    exists i :: 0 <= i < |rs| && Failed(rs[i])
  }

  /** Position of the first failed response, `|rs|` when none failed. */
  function FirstFailure(rs: seq<Response>): (k: nat)
    ensures k <= |rs|
    ensures forall i :: 0 <= i < k ==> !Failed(rs[i])
    ensures k < |rs| ==> Failed(rs[k])
    ensures k < |rs| <==> AnyFailed(rs)
  {
    if rs == [] then 0
    else if Failed(rs[0]) then 0
    else
      var k := FirstFailure(rs[1..]);
      assert forall i :: 1 <= i < |rs| ==> rs[i] == rs[1..][i - 1];
      1 + k
  }

  /** The bindings of all responses, response by response, in order. */
  function Flatten(rs: seq<Response>): seq<Binding>
  {
    if rs == [] then [] else Flatten(rs[..|rs| - 1]) + rs[|rs| - 1].varBinds
  }

  /** The number of bindings across all responses. */
  function TotalVarBinds(rs: seq<Response>): nat
  {
    if rs == [] then 0 else |rs[0].varBinds| + TotalVarBinds(rs[1..])
  }

  lemma {:induction false} FlattenAppend(a: seq<Response>, b: seq<Response>)
    ensures Flatten(a + b) == Flatten(a) + Flatten(b)
    decreases |b|
  {
    if b == [] {
      assert a + b == a;
    } else {
      var c := a + b;
      assert c[..|c| - 1] == a + b[..|b| - 1];
      FlattenAppend(a, b[..|b| - 1]);
    }
  }

  /** Walking everything collects exactly as many bindings as were sent. */
  lemma {:induction false} FlattenLength(rs: seq<Response>)
    ensures |Flatten(rs)| == TotalVarBinds(rs)
    decreases |rs|
  {
    if rs != [] {
      assert rs == [rs[0]] + rs[1..];
      FlattenAppend([rs[0]], rs[1..]);
      assert [rs[0]][..0] == [];
      FlattenLength(rs[1..]);
    }
  }

  /** The ifOperStatus text of both tools: "up" for code "1", "down" for
      every other code. */
  function OperStatusText(code: string): (t: string)
    ensures t == "up" <==> code == "1"
    ensures t == "down" <==> code != "1"
  {
    if code == "1" then "up" else "down"
  }

  /** A walked counter column the traffic code can read at positions
      `0 .. n-1`: long enough, and every value there is decimal text. */
  predicate CounterColumn(w: seq<Binding>, n: nat) {
    |w| >= n && forall i :: 0 <= i < n ==> Decimal.IsDecimal(w[i].value)
  }
}
