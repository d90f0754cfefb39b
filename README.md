# Malicious-node routing scenario: tagging and delivery ratio

The repository is an ns-3 scenario script. It creates a population of
wireless nodes, appends a number of extra nodes that it labels malicious,
runs UDP traffic between two nodes over Wi-Fi, and prints the packet
delivery ratio summed over all flows that the flow monitor observed.

This project models the two pieces of the script that are its own logic:

- **Malicious-node tagging** (`malicious_marking.dfy`, module
  `MaliciousMarking`). `MarkMaliciousNodes` walks the first
  `numMaliciousNodes` nodes of a node container and sets
  `isMalicious[id]` for each node's id, in place. The container is
  modelled by the sequence of its nodes' ids, and the `vector<bool>` by an
  `array<bool>`. The loop is proved against the specification function
  `Marked`. Lemmas about `Marked` give its meaning:
  - an entry is set exactly when it was set before or its index is a
    marked id, and every other entry keeps its value;
  - marking twice is the same as marking once;
  - only the set of ids matters, not their order;
  - marking distinct, unset ids adds exactly one set entry per id.

  `SetUpMaliciousFlags` models the setup in `main`. The malicious nodes are
  appended after the `numNodes` base nodes, not chosen among them. The
  flag vector covers the whole population of `numNodes + numMaliciousNodes`
  entries and starts all `false`. The simulator's id assignment is an
  input. Under sequential ids (base nodes `0 .. numNodes-1`, malicious
  nodes `numNodes .. numNodes+numMaliciousNodes-1`), exactly the appended
  nodes end up flagged, `numMaliciousNodes` entries in all, and every base
  node stays benign.
- **Flow-statistics reduction** (`flow_statistics.dfy`, module
  `FlowStatistics`). The flow monitor's statistics container is modelled
  as the sequence of its records in iteration order, each record holding
  `txPackets` and `rxPackets` as `nat`. `Aggregate` is the loop with the
  two running accumulators, proved equal to the recursive sums `Totals`.
  The sums split over concatenation and do not depend on the order of the
  records. `DeliveryRatio` divides received by sent as a `real`. It
  returns `None` when nothing was sent, which happens exactly when no flow
  transmitted a packet. Otherwise it returns the value whose product with
  the sent total is the received total. Nothing bounds the ratio by one:
  12 received of 10 sent gives 1.2. When no flow receives more than it
  sent, the ratio is at most one.

The source divides without a check, so zero traffic gives NaN there.
The model makes that case an explicit `None`.

## Model

| member | source | states |
|---|---|---|
| `MaliciousMarking.MarkMaliciousNodes` | routing-comparison.cc:17-26 | The flag vector after the loop equals `Marked` of the old vector and the first `numMaliciousNodes` ids. Each entry is true iff it was true before or its index is one of those ids. The length is unchanged. Callers must keep `Get(i)` and the write in range. |
| `MaliciousMarking.Marked` | routing-comparison.cc:19-23 | Marking never changes the length of the flag vector. |
| `MaliciousMarking.MarkedSetsExactlyIds` | routing-comparison.cc:19-23 | After marking, entry `j` is true exactly when it was true before or `j` is a marked id. All other entries keep their value. |
| `MaliciousMarking.MarkIdempotent` | routing-comparison.cc:23 | Marking the same ids again leaves the vector as after the first pass. |
| `MaliciousMarking.MarkOrderIrrelevant` | routing-comparison.cc:19-23 | Two id sequences with the same members give the same flags, whatever their order or repetitions. |
| `MaliciousMarking.MarkDistinctCount` | routing-comparison.cc:19-23 | Marking distinct ids whose entries were false raises the number of true entries by exactly the number of ids. |
| `MaliciousMarking.SetupFlagsAppendedNodes` | routing-comparison.cc:42-54 | With sequential ids, the appended malicious ids are in range of the `numNodes + numMaliciousNodes` vector. After marking, entries `0 .. numNodes-1` are false, entries from `numNodes` on are true, and exactly `numMaliciousNodes` entries are true. |
| `MaliciousMarking.SetUpMaliciousFlags` | routing-comparison.cc:42-54 | A fresh vector of `numNodes + numMaliciousNodes` entries, true exactly at the malicious nodes' ids. Under sequential ids it is true exactly from index `numNodes` on and has `numMaliciousNodes` true entries. |
| `FlowStatistics.Aggregate` | routing-comparison.cc:133-140 | The two accumulators end equal to the sum of `txPackets` and the sum of `rxPackets` over all flow records. |
| `FlowStatistics.TotalsAppend` | routing-comparison.cc:136-140 | The totals of two batches of records concatenated are the sums of their totals. |
| `FlowStatistics.TotalsRemoveAt` | routing-comparison.cc:136-140 | Removing one record from anywhere in the sequence removes exactly its counters from the totals. |
| `FlowStatistics.TotalsPermutation` | routing-comparison.cc:136-140 | Any permutation of the flow records gives the same sent and received totals. |
| `FlowStatistics.NoTrafficIffNothingSent` | routing-comparison.cc:138 | The sent total is zero iff every flow record has `txPackets == 0`. |
| `FlowStatistics.ReceivedAtMostSent` | routing-comparison.cc:133-140 | If no flow received more packets than it sent, the received total is at most the sent total. |
| `FlowStatistics.DeliveryRatio` | routing-comparison.cc:142 | The ratio is defined iff the sent total is positive. It is then non-negative and, multiplied by the sent total, gives the received total. |
| `FlowStatistics.RatioAtMostOne` | routing-comparison.cc:142 | If no flow received more than it sent, any defined ratio is at most 1. |
| `FlowStatistics.RatioAboveOne` | routing-comparison.cc:142 | One flow with 10 sent and 12 received gives ratio 1.2. The ratio is not clamped. |
| `FlowStatistics.PacketDeliveryRatio` | routing-comparison.cc:133-142 | The reported ratio is `DeliveryRatio` of the totals. It is undefined exactly when no flow transmitted a packet. |

## Left out

- ns-3 node creation and id assignment (`NodeContainer::Create`, `Add`, `Get`, `GetId`): node ids are an input sequence. The sequential-id layout is an explicit hypothesis of `SetupFlagsAppendedNodes` and of the last postcondition of `SetUpMaliciousFlags`.
- `MarkMaliciousNodes`: an out-of-range `Get(i)` or vector write is undefined behaviour in the source. The model makes both bounds requirements on the caller instead of modelling a failure.
- 32-bit widths of `numNodes`, `numMaliciousNodes`, node ids and packet counters: all are unbounded `nat`. A `uint32_t` overflow of `numNodes + numMaliciousNodes` would need about four billion nodes.
- IEEE-754 `double` accumulators and division (lines 133-142). The model uses `nat` sums and a `real` ratio. Integer counts below 2^53 sum exactly in a double. The NaN or infinity of a zero division becomes `None`.
- The flow monitor's map from flow id to statistics: modelled as a sequence in iteration order. `TotalsPermutation` shows that the order does not matter.
- Command-line parsing (lines 35-39), `NS_LOG_INFO` and `cout` output (lines 24, 143): I/O.
- Mobility and position allocation (lines 57-74): mostly commented out, no effect on the modelled logic.
- Wi-Fi, PHY and channel setup, internet stack, IPv4 addresses, UDP applications, flow-monitor installation, `CheckForLostPackets` and `Simulator::Run/Stop/Destroy` (lines 78-131, 145): calls into the simulator, whose behaviour is not part of this model. `simulationTime` only parameterises that scheduler.
- Role lookup by id, a malicious-node count query, and configuration or unknown-id errors: these belong to a generalised registry design and are not operations of the script. The count of flagged entries is stated by `MarkDistinctCount` and `SetupFlagsAppendedNodes`.
