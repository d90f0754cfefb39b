/**
 Malicious-node tagging of the routing scenario.

 A node container is modelled by the sequence of the ids its nodes carry
 (`Get(i)->GetId()` is the i-th element). The flag vector `isMalicious`
 is a fixed-size `array<bool>` updated in place.
 */
module MaliciousMarking {

  /** A node id from the simulator's global node list. */
  type NodeId = nat

  /** Every id in `ids` indexes a flag vector of length `n`. */
  predicate AllBelow(ids: seq<NodeId>, n: nat)
  {
    forall k :: 0 <= k < |ids| ==> ids[k] < n
  }

  /** No id occurs twice in `ids`. */
  predicate Distinct(ids: seq<NodeId>)
  {
    forall a, b :: 0 <= a < b < |ids| ==> ids[a] != ids[b]
  }

  /** The flag vector as constructed: `n` entries, all false. */
  function Unflagged(n: nat): seq<bool>
  {
    seq(n, _ => false)
  }

  /** Ids `first, first + 1, ..., first + count - 1`, the ids the simulator
      hands out to `count` nodes created after `first` earlier ones. */
  function SequentialIds(first: nat, count: nat): seq<NodeId>
  {
    seq(count, k => first + k)
  }

  /** The flags after writing `true` at each id of `ids`, in order. */
  function Marked(flags: seq<bool>, ids: seq<NodeId>): (r: seq<bool>)
    requires AllBelow(ids, |flags|)
    ensures |r| == |flags|
  {
    if ids == [] then flags
    else Marked(flags, ids[..|ids| - 1])[ids[|ids| - 1] := true]
  }

  /** Number of `true` entries. */
  function CountTrue(s: seq<bool>): (c: nat)
    ensures c <= |s|
  {
    if s == [] then 0
    else CountTrue(s[..|s| - 1]) + (if s[|s| - 1] then 1 else 0)
  }

  /** Marking sets an entry exactly when it was already set or its index is
      one of the marked ids; every other entry keeps its value. */
  lemma {:induction false} MarkedSetsExactlyIds(flags: seq<bool>, ids: seq<NodeId>)
    requires AllBelow(ids, |flags|)
    ensures forall j :: 0 <= j < |flags| ==> Marked(flags, ids)[j] == (flags[j] || j in ids)
  {
    if ids != [] {
      var init := ids[..|ids| - 1];
      MarkedSetsExactlyIds(flags, init);
      assert ids == init + [ids[|ids| - 1]];
    }
  }

  /** Marking the same ids a second time changes nothing: only `true` is written. */
  lemma {:induction false} MarkIdempotent(flags: seq<bool>, ids: seq<NodeId>)
    requires AllBelow(ids, |flags|)
    ensures Marked(Marked(flags, ids), ids) == Marked(flags, ids)
  {
    var once := Marked(flags, ids);
    MarkedSetsExactlyIds(flags, ids);
    MarkedSetsExactlyIds(once, ids);
  }

  /** The result depends only on which ids are marked, not on their order or repetition. */
  lemma MarkOrderIrrelevant(flags: seq<bool>, ids: seq<NodeId>, ids': seq<NodeId>)
    requires AllBelow(ids, |flags|) && AllBelow(ids', |flags|)
    requires forall j :: j in ids <==> j in ids'
    ensures Marked(flags, ids) == Marked(flags, ids')
  {
    MarkedSetsExactlyIds(flags, ids);
    MarkedSetsExactlyIds(flags, ids');
  }

  /** Setting one unset entry raises the count by exactly one. */
  lemma {:induction false} CountTrueSetOne(s: seq<bool>, x: nat)
    requires x < |s| && !s[x]
    ensures CountTrue(s[x := true]) == CountTrue(s) + 1
  {
    var t := s[x := true];
    var n := |s| - 1;
    if x == n {
      assert t[..n] == s[..n];
    } else {
      assert t[..n] == s[..n][x := true];
      CountTrueSetOne(s[..n], x);
    }
  }

  /** A vector with no entry set counts zero. */
  lemma {:induction false} CountTrueNone(s: seq<bool>)
    requires forall j :: 0 <= j < |s| ==> !s[j]
    ensures CountTrue(s) == 0
  {
    if s != [] {
      CountTrueNone(s[..|s| - 1]);
    }
  }

  /** Marking distinct ids whose entries were unset adds exactly one set entry per id. */
  lemma {:induction false} MarkDistinctCount(flags: seq<bool>, ids: seq<NodeId>)
    requires AllBelow(ids, |flags|) && Distinct(ids)
    requires forall k :: 0 <= k < |ids| ==> !flags[ids[k]]
    ensures CountTrue(Marked(flags, ids)) == CountTrue(flags) + |ids|
  {
    if ids != [] {
      var init, last := ids[..|ids| - 1], ids[|ids| - 1];
      MarkDistinctCount(flags, init);
      MarkedSetsExactlyIds(flags, init);
      assert last !in init by {
        forall k | 0 <= k < |init| ensures init[k] != last {
          assert init[k] == ids[k];
        }
      }
      CountTrueSetOne(Marked(flags, init), last);
    }
  }

  /** The scenario's setup under sequential ids: `numNodes` base nodes get
      ids `0 .. numNodes - 1`, the appended malicious nodes get the next
      `numMaliciousNodes` ids. After marking, exactly the appended nodes are
      flagged and the base nodes stay benign. */
  lemma SetupFlagsAppendedNodes(numNodes: nat, numMaliciousNodes: nat)
    ensures AllBelow(SequentialIds(numNodes, numMaliciousNodes), numNodes + numMaliciousNodes)
    ensures var flags := Marked(Unflagged(numNodes + numMaliciousNodes), SequentialIds(numNodes, numMaliciousNodes));
      && |flags| == numNodes + numMaliciousNodes
      && (forall j :: 0 <= j < numNodes ==> !flags[j])
      && (forall j :: numNodes <= j < |flags| ==> flags[j])
      && CountTrue(flags) == numMaliciousNodes
  {
    var total := numNodes + numMaliciousNodes;
    var ids := SequentialIds(numNodes, numMaliciousNodes);
    var start := Unflagged(total);
    var flags := Marked(start, ids);
    MarkedSetsExactlyIds(start, ids);
    forall j | numNodes <= j < total ensures flags[j] {
      assert ids[j - numNodes] == j;
    }
    CountTrueNone(start);
    MarkDistinctCount(start, ids);
  }

  /** `MarkMaliciousNodes`: set the flag of each of the first
      `numMaliciousNodes` nodes of the container. The caller must keep
      `Get(i)` and the vector write in range. */
  method MarkMaliciousNodes(maliciousNodes: seq<NodeId>, isMalicious: array<bool>, numMaliciousNodes: nat)
    requires numMaliciousNodes <= |maliciousNodes|
    requires AllBelow(maliciousNodes[..numMaliciousNodes], isMalicious.Length)
    modifies isMalicious
    ensures isMalicious[..] == Marked(old(isMalicious[..]), maliciousNodes[..numMaliciousNodes])
    ensures forall j :: 0 <= j < isMalicious.Length ==>
      isMalicious[j] == (old(isMalicious[j]) || j in maliciousNodes[..numMaliciousNodes])
  {
    ghost var before := isMalicious[..];
    for i := 0 to numMaliciousNodes
      invariant AllBelow(maliciousNodes[..i], isMalicious.Length)
      invariant isMalicious[..] == Marked(before, maliciousNodes[..i])
    {
      assert maliciousNodes[..i + 1][..i] == maliciousNodes[..i];
      var nodeId := maliciousNodes[i];
      isMalicious[nodeId] := true;
    }
    MarkedSetsExactlyIds(before, maliciousNodes[..numMaliciousNodes]);
  }

  /** The population and flag setup of the scenario: base nodes, then the
      appended malicious nodes whose ids the simulator assigned
      (`maliciousNodeIds`), a flag vector over the whole population, all
      false, and the marking pass. */
  method SetUpMaliciousFlags(numNodes: nat, numMaliciousNodes: nat, maliciousNodeIds: seq<NodeId>)
    returns (isMalicious: array<bool>)
    requires |maliciousNodeIds| == numMaliciousNodes
    requires AllBelow(maliciousNodeIds, numNodes + numMaliciousNodes)
    ensures fresh(isMalicious)
    ensures isMalicious[..] == Marked(Unflagged(numNodes + numMaliciousNodes), maliciousNodeIds)
    ensures forall j :: 0 <= j < isMalicious.Length ==> isMalicious[j] == (j in maliciousNodeIds)
    ensures maliciousNodeIds == SequentialIds(numNodes, numMaliciousNodes) ==>
      (forall j :: 0 <= j < isMalicious.Length ==> isMalicious[j] == (numNodes <= j))
      && CountTrue(isMalicious[..]) == numMaliciousNodes
  {
    isMalicious := new bool[numNodes + numMaliciousNodes](_ => false);
    assert isMalicious[..] == Unflagged(numNodes + numMaliciousNodes);
    assert maliciousNodeIds[..numMaliciousNodes] == maliciousNodeIds;
    MarkMaliciousNodes(maliciousNodeIds, isMalicious, numMaliciousNodes);
    SetupFlagsAppendedNodes(numNodes, numMaliciousNodes);
  }
}
