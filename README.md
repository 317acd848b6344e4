# SNMP polling tools: a verified model of their core

The repository has two command-line SNMP pollers. `snmp_tool_v2.py` works
with a community string (SNMP v2c). `snmp_tool_v3.py` works with SNMPv3
user-based security (authPriv). Both offer the same three features: interface
discovery, IP neighbour discovery and traffic monitoring. All three are built
on a table WALK, and the tools also have a single GET.

This project models the logic that sits between the protocol engine and the
console:

- **Walk accumulation.** The responses of a GET-NEXT iteration are folded
  into a list of `(oid, value)` text pairs. The two tools treat a failure
  differently. The v2 walk stops at the first failed response and keeps what
  it already collected. The v3 walk returns an empty list as soon as any
  response fails.
- **Single GET.** The value of the first binding, or no value.
- **The v2 error report.** The failed response's offending binding, named by
  `errorIndex`, or `?`.
- **Table correlation.** Parallel column walks (ifDescr, ifOperStatus,
  ifSpeed) are zipped into rows BY POSITION. The row index is the text after
  the last `.` of the primary column's OID. Status code `"1"` becomes
  `"up"`, and every other code becomes `"down"`.
- **Neighbour addresses.** The last four dot-separated pieces of an
  ipNetToMediaPhysAddress OID.
- **Traffic.** The counter deltas. For v2 this is the integer numerator
  `(after - before) * 8` of every record, across all iterations. For v3 it
  is the integer rate `(after - before) * 8 // interval`.

Modules, in dependency order:

| file | module | contents |
|---|---|---|
| oid.dfy | `Oid` | `str.split('.')`, `'.'.join(...)`, the last-component and last-four-components extractions |
| decimal.dfy | `Decimal` | the decimal text of counters: `str(n)` and `int(s)` for plain digits |
| snmp.dfy | `Snmp` | bindings, response tuples, failure test, flattening of a response stream, the status text |
| snmp_tool_v2.py → snmp_tool_v2.dfy | `SnmpToolV2` | walk, GET, error report, the two discovery tables, the traffic loop |
| snmp_tool_v3.py → snmp_tool_v3.dfy | `SnmpToolV3` | walk, GET, the two discovery tables, the traffic monitor |

Everything that loops in the source (the walks, the discovery loops and the
nested traffic loop) is a `method` with a `for`/`while` loop and invariants.
Each is proved against specification functions: `Flatten`, `FirstFailure`,
`Oid.LastComponent`, `Oid.LastFour`, `Samples` and `BitRate`. The properties
of those functions are proved as lemmas or as their own `ensures`. The split
and join expressions are pure functions.

The protocol engine is not modelled. A walk's input is the sequence of
`(errorIndication, errorStatus, errorIndex, varBinds)` tuples the engine's
iterator would yield. A GET's input is the one tuple it yields. The discovery
and traffic methods take the walk results they read (the outputs of
`SnmpWalk`) as parameters.

Where the Python code would raise, the model has a `requires`. These cases
are:
- an `IndexError` from a secondary column shorter than the primary one;
- an `IndexError` from a blamed binding that does not exist;
- a `ValueError` from `int()` on text that is not a number;
- in v3, a `ZeroDivisionError` for an interval of 0;
- in both tools, the `ValueError` of `time.sleep` for a negative interval
  (`SnmpToolV2.MonitorTraffic` and `SnmpToolV3.TrafficMonitor`).

### What the code does not do

This model follows the code throughout. In particular:

- Columns are zipped by position, not matched by table index, and no row is
  marked as missing. A secondary column shorter than the primary one is an
  `IndexError`, which the model makes a precondition.
- A counter that went down gives a negative delta or rate, and neither tool
  corrects it. `BitsDelta` and `BitRate` state that their result is negative
  exactly when the counter decreased.
- A walk that fails partway behaves differently in the two tools. The v2 walk
  keeps the bindings collected before the failure; see
  `SnmpToolV2.SnmpWalk` and `SnmpToolV2.PartialWalkKept`. The v3 walk
  discards them and returns nothing; see `SnmpToolV3.SnmpWalk` and
  `SnmpToolV3.PartialWalkDiscarded`.
- `Oid.LastFour` checks neither that there are four pieces nor that each is
  in 0..255. It joins whatever the last (up to) four pieces are, and a
  shorter OID passes through whole; see `Oid.ShortOidIsAddress`.
- The v3 rate divides by the nominal `interval`. The v2 rate divides by the
  time measured around the sleep.

## Model

| member | source | states |
|---|---|---|
| `Oid.Split` | snmp_tool_v2.py:61 | `split('.')` always yields at least one piece, so taking `[-1]` never fails |
| `Oid.SplitDotFree` | snmp_tool_v3.py:57 | no piece of `oid.split('.')` contains a dot |
| `Oid.JoinSplit` | snmp_tool_v2.py:80-81 | `'.'.join(s.split('.')) == s` for every string |
| `Oid.SplitJoin` | snmp_tool_v3.py:76-77 | splitting the join of one or more dot-free pieces gives back exactly those pieces |
| `Oid.Join` | snmp_tool_v2.py:81 | `'.'.join(parts)`, the pieces with one dot between neighbours (a definition); `Oid.JoinSplit` and `Oid.SplitJoin` prove it the inverse of `Oid.Split` |
| `Oid.JoinSnoc` | snmp_tool_v2.py:81 | joining one more piece appends exactly one dot and that piece to the join so far |
| `Oid.DotFreeNoLastDot` | snmp_tool_v2.py:61 | text has no dot exactly when the scan for its last dot finds none |
| `Oid.SplitSnoc` | snmp_tool_v3.py:76-77 | splitting `x + "." + q` with `q` dot-free gives the pieces of `x`, then `q` |
| `Oid.LastDotBeforeTail` | snmp_tool_v2.py:81 | in `x + "." + q` with `q` dot-free, the last dot is the one in front of `q` |
| `Oid.LastDot` | snmp_tool_v2.py:61 | the position found holds a dot and no later position does, or it is -1 |
| `Oid.TailStart` | snmp_tool_v3.py:76-77 | the start of the last `n` pieces lies within the text and is 0 or just after a dot |
| `Oid.LastPieces` | snmp_tool_v2.py:80 | `parts[-n:]` for `n >= 1` (a definition; for `n == 0` Python returns the whole list, so the model requires `n >= 1`); `Oid.LastPiecesShape` states its shape |
| `Oid.LastPiecesShape` | snmp_tool_v3.py:76 | `parts[-n:]` is a suffix of `parts`; it has `n` pieces, or all of them when there are fewer |
| `Oid.TailStep` | snmp_tool_v3.py:76-77 | when the text has a dot and `n >= 2`, the slice from `TailStart(s, n)` is the join of the last `n` pieces (the step case of `Oid.TailStartIsJoin`) |
| `Oid.TailStartIsJoin` | snmp_tool_v3.py:76-77 | the text from `TailStart(s, n)` on is exactly `'.'.join(s.split('.')[-n:])` |
| `Oid.LastComponent` | snmp_tool_v2.py:61 | the index has no dot, is a suffix of the OID, is preceded by a `.` when the OID has one, and is the whole OID otherwise |
| `Oid.LastComponentIsLastPiece` | snmp_tool_v3.py:57 | the index is exactly `oid.split('.')[-1]` |
| `Oid.LastFour` | snmp_tool_v3.py:76-77 | the address is a suffix of the OID, and either the whole OID or preceded by a `.` |
| `Oid.LastFourIsJoin` | snmp_tool_v2.py:80-81 | the address is exactly `'.'.join(oid.split('.')[-4:])` |
| `Oid.ShortOidIsAddress` | snmp_tool_v3.py:76-77 | an OID with at most four pieces is its own address |
| `Oid.LastFourDotFree` | snmp_tool_v2.py:80 | for an OID with four or more pieces, `oid.split('.')[-4:]` is the slice of the last four pieces, and none of them contains a dot |
| `Oid.LastFourPieces` | snmp_tool_v2.py:80-81 | for an OID with four or more pieces, the address splits into exactly its last four pieces |
| `Decimal.Value` | snmp_tool_v3.py:99-100 | `int(s)` for plain decimal text, read most significant digit first (a definition); `Decimal.ValueBounds` bounds it and `Decimal.ValueFormat` proves it reads back `str(n)` |
| `Decimal.ValueBounds` | snmp_tool_v2.py:113-114 | `k` digits read as a number below `10^k`, and as at least `10^(k-1)` when the first digit is not `0` |
| `Decimal.Format` | snmp_tool_v3.py:41 | `str()` of a counter is non-empty decimal digits without a leading zero |
| `Decimal.ValueFormat` | snmp_tool_v3.py:99-100 | `int(str(c)) == c`: reading a walked counter's text gives its value back |
| `Snmp.Failed` | snmp_tool_v2.py:21-24 | the failure test `if errorIndication: ... elif errorStatus:` (a definition); `Snmp.FirstFailure` locates the first response it holds for |
| `Snmp.FirstFailure` | snmp_tool_v2.py:21-26 | the position of the first failed response: every earlier one succeeded, the one there failed, and it is `len` exactly when none failed |
| `Snmp.FlattenAppend` | snmp_tool_v2.py:28-29 | the bindings of two response runs, one after the other, are the concatenation of their bindings |
| `Snmp.FlattenLength` | snmp_tool_v3.py:40-41 | the flattened bindings number the sum of the varBinds counts of the responses |
| `Snmp.OperStatusText` | snmp_tool_v2.py:62 | the text is "up" exactly when the code is "1" and "down" exactly when it is not |
| `SnmpToolV2.ErrorOffender` | snmp_tool_v2.py:25 | the report is never empty; it is "?" when `errorIndex` is 0; otherwise it is the OID of `varBinds[errorIndex-1]` (or "?" when that OID is empty) |
| `SnmpToolV2.Diagnose` | snmp_tool_v2.py:21-26 | the report of a failed response: an indication report exactly when there is an error indication, carrying its text; otherwise a status report with the non-zero status and the `ErrorOffender` of `errorIndex` |
| `SnmpToolV2.SnmpWalk` | snmp_tool_v2.py:11-30 | the result is the in-order concatenation of the bindings of every response before the first failed one; a report is produced exactly when some response failed, and describes that one; a failed first response gives `[]`; without failures the length is the total number of varBinds |
| `SnmpToolV2.PartialWalkKept` | snmp_tool_v2.py:21-29 | a failure after good responses stops the walk there, and the walk keeps exactly the good responses' bindings |
| `SnmpToolV2.SnmpGet` | snmp_tool_v2.py:32-47 | no value on an error indication or status, and then exactly a report; otherwise the first binding's value, or no value when there are no bindings |
| `SnmpToolV2.InterfaceDiscovery` | snmp_tool_v2.py:58-70 | one row per ifDescr binding, in order; the index is that OID's `LastComponent`; the description is its value; the status is "up" iff the status at the same position is "1", else "down" |
| `SnmpToolV2.NeighborDiscovery` | snmp_tool_v2.py:78-85 | one row per binding, in order; the IP is the OID's `LastFour`; the MAC is the value unchanged |
| `SnmpToolV2.BitsDelta` | snmp_tool_v2.py:113-114 | the bit numerator is negative exactly when the counter decreased and zero exactly when it did not move; it is a multiple of 8 |
| `SnmpToolV2.Iterations` | snmp_tool_v2.py:96 | the number of rounds `range(iterations)` runs: `iterations` when it is non-negative, 0 when it is not |
| `SnmpToolV2.SamplesLength` | snmp_tool_v2.py:96-121 | `iterations` rounds give `iterations * len(descrs)` records |
| `SnmpToolV2.SamplesAt` | snmp_tool_v2.py:96-121 | records are iteration-major: record `i * len(descrs) + j` is interface `j` of round `i`, named `descrs[j][1]` |
| `SnmpToolV2.MonitorTraffic` | snmp_tool_v2.py:87-123 | the nested loops produce exactly the records of the first `max(iterations, 0)` rounds, in round order; their count is `max(iterations, 0) * len(descrs)`; a negative `interval` is excluded whenever a round runs, because `time.sleep` would raise |
| `SnmpToolV3.SnmpGet` | snmp_tool_v3.py:11-26 | no value on an error indication or status; otherwise the first binding's value, or no value when there are none |
| `SnmpToolV3.GetAgreesWithV2` | snmp_tool_v3.py:19-26 | the v3 GET returns the same value as the v2 GET on every response the v2 GET can report |
| `SnmpToolV3.SnmpWalk` | snmp_tool_v3.py:28-42 | `[]` when any response failed, even after bindings were collected; otherwise every binding of every response, in order, as many as all the varBinds |
| `SnmpToolV3.PartialWalkDiscarded` | snmp_tool_v3.py:38-39 | one failed response after any number of good ones makes the stream a failed one, with its first failure at or before that response; this is the premise of `SnmpToolV3.SnmpWalk`'s `AnyFailed ==> results == []`, so such a walk returns nothing |
| `SnmpToolV3.InterfaceDiscovery` | snmp_tool_v3.py:44-65 | one row per ifDescr binding, in order; the index is the OID's `LastComponent`; the description and speed are the values at the same position unchanged; the status is "up" iff the code is "1", else "down" |
| `SnmpToolV3.IpNeighborDiscovery` | snmp_tool_v3.py:67-82 | one row per binding; the address is the OID's `LastFour`, and the whole OID when it has at most four pieces; the MAC is the value unchanged |
| `SnmpToolV3.FloorDivBounds` | snmp_tool_v3.py:99-100 | for a positive divisor, `x // d` brackets `x`: `q*d <= x < (q+1)*d`, and `q` is non-negative exactly when `x` is |
| `SnmpToolV3.BitRate` | snmp_tool_v3.py:99-100 | `bps * interval <= delta * 8 < (bps + 1) * interval`; the rate is non-negative exactly when the counter did not decrease |
| `SnmpToolV3.TrafficMonitor` | snmp_tool_v3.py:84-105 | one record per ifInOctets binding of the first sample, in order; the index is its last OID component; the in and out rates are `BitRate` of the counters (read with `int()`) at the same position |

## Left out

- The protocol engine (`SnmpEngine`, `CommunityData`, `UsmUserData`, `UdpTransportTarget`, `nextCmd`, `getCmd`), its timeout and retry settings, and the auth/priv protocol constants. These are foreign network calls. Their output is taken as an input sequence of response tuples.
- The composition inside `interface_discovery`, `neighbor_discovery`, `monitor_traffic` and their v3 counterparts, where each calls the walk for fixed column OIDs. The discovery and traffic methods take the walk results as parameters instead, because the walk OIDs only select what the device sends.
- Console rendering (`rich` `Console` and `Table`, every `console.print`). This is presentation only. The v2 error report is modelled as the `Diagnostic` value that would be printed, without its formatting or `prettyPrint` of the status name.
- `export_data` in both files (CSV/JSON file output), and `main` in both files (the interactive `input()` menu).
- `time.sleep` and `time.time`, which are clock and scheduling calls. The v2 tool's float division by the measured `delta_t`, `round(..., 2)`, the `:.2f` formatting and the float `timestamp` field are floating point. `SnmpToolV2.TrafficSample` keeps only the integer numerator and the interface name of each record.
- Python's full `int()` grammar (sign, surrounding whitespace, underscores). `Decimal.Value` reads plain digits only, and the traffic methods require that readable counter text.
- `SnmpToolV3.SnmpGet`: the v3 GET returns the raw value object. The model returns its text, the same representation the walks keep.
- `SnmpToolV2.SnmpWalk` and `SnmpToolV2.SnmpGet`: a failed response whose report itself raises `IndexError` (a status with `errorIndex` past the bindings) is excluded by a precondition. The source crashes there instead of returning.
- `SnmpToolV2.MonitorTraffic`: the `ZeroDivisionError` on a zero measured `delta_t` is not modelled, because the clock is not modelled and the records keep only the numerator. The `interval` parameter only carries the precondition of `time.sleep`.
- `SnmpToolV2.MonitorTraffic`: its contract ties the result to `Samples`. The iteration-major position of each record is stated by the lemma `SnmpToolV2.SamplesAt` rather than in the method's own postcondition.
