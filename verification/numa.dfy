/** The NUMA topology: how many nodes there are, which node owns each core,
    and the inverse table from nodes to their cores. The methods that build it
    in place are in `Cpu.CpuInfo`; the functions here say what they build, and
    the lemmas say why the result is a partition of the cores. */
module Numa {

  /** The number of directory entries whose name starts with `node`. */
  function CountNodeEntries(entries: seq<string>): nat {
    if entries == [] then 0
    else CountNodeEntries(entries[..|entries| - 1]) + (if "node" <= entries[|entries| - 1] then 1 else 0)
  }

  /** No more node entries than entries, and none exactly when no entry
      name starts with `node`. */
  lemma {:induction false} CountNodeEntriesBounds(entries: seq<string>)
    ensures CountNodeEntries(entries) <= |entries|
    ensures CountNodeEntries(entries) == 0 <==> forall k :: 0 <= k < |entries| ==> !("node" <= entries[k])
  {
    if entries != [] {
      var init := entries[..|entries| - 1];
      CountNodeEntriesBounds(init);
      assert forall k :: 0 <= k < |init| ==> init[k] == entries[k];
    }
  }

  /** The number of NUMA nodes: one when the node directory is absent or
      holds no node entries, otherwise the number of node entries. */
  function NumaNodeCount(nodeDirIsDirectory: bool, entries: seq<string>): (r: int)
    ensures r >= 1
    ensures !nodeDirIsDirectory ==> r == 1
    ensures nodeDirIsDirectory && CountNodeEntries(entries) > 0 ==> r == CountNodeEntries(entries)
    ensures nodeDirIsDirectory && CountNodeEntries(entries) == 0 ==> r == 1
  {
    if !nodeDirIsDirectory then 1
    else if CountNodeEntries(entries) == 0 then 1
    else CountNodeEntries(entries)
  }

  /** The first node in `[node, nodes)` whose marker exists for `core`, or 0
      when there is none. */
  function FirstMarkedNode(markers: set<(int, int)>, core: int, node: int, nodes: int): int
    decreases nodes - node
  {
    if node >= nodes then 0
    else if (core, node) in markers then node
    else FirstMarkedNode(markers, core, node + 1, nodes)
  }

  /** The node a core is assigned to: the first of the `nodes` nodes whose
      marker exists for it, or node 0. */
  function AssignedNode(markers: set<(int, int)>, core: int, nodes: int): int {
    FirstMarkedNode(markers, core, 0, nodes)
  }

  lemma {:induction false} FirstMarkedNodeSpec(markers: set<(int, int)>, core: int, node: int, nodes: int)
    requires 0 <= node
    ensures var r := FirstMarkedNode(markers, core, node, nodes);
      (exists n :: node <= n < nodes && (core, n) in markers) ==>
        node <= r < nodes && (core, r) in markers && forall m :: node <= m < r ==> (core, m) !in markers
    ensures (forall n :: node <= n < nodes ==> (core, n) !in markers) ==> FirstMarkedNode(markers, core, node, nodes) == 0
    decreases nodes - node
  {
    if node < nodes && (core, node) !in markers {
      FirstMarkedNodeSpec(markers, core, node + 1, nodes);
    }
  }

  /** A core is assigned the smallest node whose marker exists for it, or
      node 0 when none does; either way a node in range. */
  lemma AssignedNodeSpec(markers: set<(int, int)>, core: int, nodes: int)
    requires nodes >= 1
    ensures 0 <= AssignedNode(markers, core, nodes) < nodes
    ensures var r := AssignedNode(markers, core, nodes);
      (exists n :: 0 <= n < nodes && (core, n) in markers) ==>
        (core, r) in markers && forall m :: 0 <= m < r ==> (core, m) !in markers
    ensures (forall n :: 0 <= n < nodes ==> (core, n) !in markers) ==> AssignedNode(markers, core, nodes) == 0
  {
    FirstMarkedNodeSpec(markers, core, 0, nodes);
  }

  /** Every core is mapped to one of the `nodes` nodes. */
  predicate InRange(coreToNode: seq<int>, nodes: int) {
    forall c :: 0 <= c < |coreToNode| ==> 0 <= coreToNode[c] < nodes
  }

  /** The cores below `k` that `coreToNode` maps to `node`, in ascending
      order. */
  function CoresOfNode(coreToNode: seq<int>, node: int, k: nat): seq<int>
    requires k <= |coreToNode|
  {
    if k == 0 then []
    else CoresOfNode(coreToNode, node, k - 1) + (if coreToNode[k - 1] == node then [k - 1] else [])
  }

  /** `nodeToCores` lists, for each of the `nodes` nodes, its cores in
      ascending order, and `coreIdx` gives each core's position in its
      node's list. */
  predicate IsNodeToCores(coreToNode: seq<int>, nodes: int, nodeToCores: seq<seq<int>>, coreIdx: seq<int>) {
    |nodeToCores| == nodes && |coreIdx| == |coreToNode| &&
    (forall n :: 0 <= n < nodes ==> nodeToCores[n] == CoresOfNode(coreToNode, n, |coreToNode|)) &&
    (forall c :: 0 <= c < |coreToNode| ==> coreIdx[c] == |CoresOfNode(coreToNode, coreToNode[c], c)|)
  }

  /** Appending core `k` to the list of its node, and recording the length
      that list had as `k`'s position, extends the table and the index of the
      cores below `k` to those of the cores below `k + 1`. */
  lemma CoresOfNodeStep(coreToNode: seq<int>, nodeToCores: seq<seq<int>>, coreIdx: seq<int>, k: nat)
    requires k < |coreToNode| == |coreIdx| && 0 <= coreToNode[k] < |nodeToCores|
    requires forall n :: 0 <= n < |nodeToCores| ==> nodeToCores[n] == CoresOfNode(coreToNode, n, k)
    requires forall c :: 0 <= c < k ==> coreIdx[c] == |CoresOfNode(coreToNode, coreToNode[c], c)|
    ensures var node := coreToNode[k];
      var next := nodeToCores[node := nodeToCores[node] + [k]];
      forall n :: 0 <= n < |next| ==> next[n] == CoresOfNode(coreToNode, n, k + 1)
    ensures var nextIdx := coreIdx[k := |nodeToCores[coreToNode[k]]|];
      forall c :: 0 <= c < k + 1 ==> nextIdx[c] == |CoresOfNode(coreToNode, coreToNode[c], c)|
  {
  }

  /** The list of a node holds exactly its cores below `k`, in strictly
      ascending order. */
  lemma {:induction false} CoresOfNodeMembers(coreToNode: seq<int>, node: int, k: nat)
    requires k <= |coreToNode|
    ensures var r := CoresOfNode(coreToNode, node, k);
      (forall i :: 0 <= i < |r| ==> 0 <= r[i] < k && coreToNode[r[i]] == node) &&
      (forall i, j :: 0 <= i < j < |r| ==> r[i] < r[j]) &&
      (forall c :: 0 <= c < k && coreToNode[c] == node ==> c in r)
  {
    if k > 0 {
      CoresOfNodeMembers(coreToNode, node, k - 1);
    }
  }

  /** The list of a node below `j` is a prefix of its list below `k`. */
  lemma {:induction false} CoresOfNodePrefix(coreToNode: seq<int>, node: int, j: nat, k: nat)
    requires j <= k <= |coreToNode|
    ensures CoresOfNode(coreToNode, node, j) <= CoresOfNode(coreToNode, node, k)
    decreases k - j
  {
    if j < k {
      CoresOfNodePrefix(coreToNode, node, j, k - 1);
    }
  }

  /** A core sits in its node's list at the position given by the number of
      that node's cores below it. */
  lemma CoresOfNodePosition(coreToNode: seq<int>, c: nat, k: nat)
    requires c < k <= |coreToNode|
    ensures var r := CoresOfNode(coreToNode, coreToNode[c], k);
      var i := |CoresOfNode(coreToNode, coreToNode[c], c)|;
      i < |r| && r[i] == c
  {
    CoresOfNodePrefix(coreToNode, coreToNode[c], c + 1, k);
  }

  /** The inverse table is a partition of the cores with back-pointers:
      every listed core is in range and owned by the list's node (so it
      appears in no other list), every list is strictly ascending (so no core
      appears twice), and every core is found in its node's list at its
      recorded index. */
  lemma NodeToCoresPartition(coreToNode: seq<int>, nodes: int, nodeToCores: seq<seq<int>>, coreIdx: seq<int>)
    requires InRange(coreToNode, nodes)
    requires IsNodeToCores(coreToNode, nodes, nodeToCores, coreIdx)
    ensures forall n, c :: 0 <= n < nodes ==> (c in nodeToCores[n] <==> 0 <= c < |coreToNode| && coreToNode[c] == n)
    ensures forall n, i, j :: 0 <= n < nodes && 0 <= i < j < |nodeToCores[n]| ==> nodeToCores[n][i] < nodeToCores[n][j]
    ensures forall c :: 0 <= c < |coreToNode| ==>
      0 <= coreIdx[c] < |nodeToCores[coreToNode[c]]| && nodeToCores[coreToNode[c]][coreIdx[c]] == c
  {
    forall n | 0 <= n < nodes {
      CoresOfNodeMembers(coreToNode, n, |coreToNode|);
    }
    forall c | 0 <= c < |coreToNode| {
      CoresOfNodePosition(coreToNode, c, |coreToNode|);
    }
  }

  /** Without NUMA information every core maps to node 0, whose list is all
      cores in order, each at its own index. */
  lemma {:induction false} SingleNodeTopology(coreToNode: seq<int>, nodeToCores: seq<seq<int>>, coreIdx: seq<int>)
    requires forall c :: 0 <= c < |coreToNode| ==> coreToNode[c] == 0
    requires IsNodeToCores(coreToNode, 1, nodeToCores, coreIdx)
    ensures |nodeToCores| == 1
    ensures |nodeToCores[0]| == |coreToNode|
    ensures forall c :: 0 <= c < |coreToNode| ==> nodeToCores[0][c] == c && coreIdx[c] == c
  {
    forall k | 0 <= k <= |coreToNode|
      ensures |CoresOfNode(coreToNode, 0, k)| == k
    {
      AllOnNodeZero(coreToNode, k);
    }
    forall c | 0 <= c < |coreToNode|
      ensures nodeToCores[0][c] == c
    {
      CoresOfNodePosition(coreToNode, c, |coreToNode|);
    }
  }

  lemma {:induction false} AllOnNodeZero(coreToNode: seq<int>, k: nat)
    requires k <= |coreToNode|
    requires forall c :: 0 <= c < |coreToNode| ==> coreToNode[c] == 0
    ensures |CoresOfNode(coreToNode, 0, k)| == k
  {
    if k > 0 {
      AllOnNodeZero(coreToNode, k - 1);
    }
  }

  /** Four cores mapped to nodes 1, 1, 0, 0: node 0 holds cores 2 and 3,
      node 1 holds cores 0 and 1, and each core is first or second in its
      list. */
  lemma FakeNumaExample(coreToNode: seq<int>, nodeToCores: seq<seq<int>>, coreIdx: seq<int>)
    requires coreToNode == [1, 1, 0, 0]
    requires IsNodeToCores(coreToNode, 2, nodeToCores, coreIdx)
    ensures nodeToCores == [[2, 3], [0, 1]]
    ensures coreIdx == [0, 1, 0, 1]
  {
    assert CoresOfNode(coreToNode, 0, 1) == [];
    assert CoresOfNode(coreToNode, 0, 2) == [];
    assert CoresOfNode(coreToNode, 0, 3) == [2];
    assert CoresOfNode(coreToNode, 0, 4) == [2, 3];
    assert CoresOfNode(coreToNode, 1, 1) == [0];
    assert CoresOfNode(coreToNode, 1, 2) == [0, 1];
    assert CoresOfNode(coreToNode, 1, 3) == [0, 1];
    assert CoresOfNode(coreToNode, 1, 4) == [0, 1];
  }
}
