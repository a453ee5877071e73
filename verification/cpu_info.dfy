/** The process-wide hardware description: CPU features, core counts, model
    name and NUMA topology, discovered once by `Init` from the operating
    system's inventory and kept in one object. The operating-system sources
    are parameters: the lines of /proc/cpuinfo, whether the NUMA node
    directory exists and the names of its entries, the set of (core, node)
    pairs whose per-core node marker exists, the configured processor count
    and the operator's core-count setting. */
module Cpu {
  import opened Strings
  import opened CpuFlags
  import opened CpuInfoScan
  import opened Numa

  /** A vector of `s` resized to `n` elements: a kept prefix, then zeros. */
  function Resized(s: seq<int>, n: nat): (r: seq<int>)
    ensures |r| == n
  {
    if |s| >= n then s[..n] else s + seq(n - |s|, _ => 0)
  }

  class CpuInfo {
    var initialized: bool
    /** The effective features, which may be switched off and on again. */
    var hardwareFlags: Flags
    /** The features the hardware reported, fixed by `Init`. */
    var originalHardwareFlags: Flags
    /** The usable core count. */
    var numCores: int
    /** The configured core count, which numbers the cores of the topology. */
    var maxNumCores: int
    var modelName: string
    var maxNumNumaNodes: int
    /** The node of each core. */
    var coreToNumaNode: array<int>
    /** The cores of each node, in ascending order. */
    var numaNodeToCores: seq<seq<int>>
    /** The position of each core in its node's list. */
    var numaNodeCoreIdx: seq<int>

    /** The effective features are among those the hardware reported. */
    ghost predicate FlagsWithinOriginal()
      reads this`hardwareFlags, this`originalHardwareFlags
    {
      hardwareFlags <= originalHardwareFlags
    }

    /** The topology is consistent: one node per configured core, each in
        range, and the inverse table and index built from that mapping. */
    ghost predicate TopologyValid()
      reads this`coreToNumaNode, this`maxNumCores, this`maxNumNumaNodes, this`numaNodeToCores,
        this`numaNodeCoreIdx, coreToNumaNode
    {
      coreToNumaNode.Length == maxNumCores &&
      InRange(coreToNumaNode[..], maxNumNumaNodes) &&
      IsNodeToCores(coreToNumaNode[..], maxNumNumaNodes, numaNodeToCores, numaNodeCoreIdx)
    }

    /** The state before initialisation: no features, one core, an unknown
        model and no topology. */
    constructor ()
      ensures !initialized && hardwareFlags == {} && originalHardwareFlags == {}
      ensures numCores == 1 && maxNumCores == 0 && modelName == "unknown"
      ensures maxNumNumaNodes == 0 && coreToNumaNode.Length == 0
      ensures numaNodeToCores == [] && numaNodeCoreIdx == []
    {
      initialized := false;
      hardwareFlags := {};
      originalHardwareFlags := {};
      numCores := 1;
      maxNumCores := 0;
      modelName := "unknown";
      maxNumNumaNodes := 0;
      coreToNumaNode := new int[0];
      numaNodeToCores := [];
      numaNodeCoreIdx := [];
    }

    /** Scans the inventory lines, accumulating features, counting
        processors and recording the model name; derives the usable core
        count; records the configured core count; and builds the NUMA
        topology. */
    method Init(cpuinfoLines: seq<string>, numCoresFlag: int, nprocsConf: int,
                nodeDirIsDirectory: bool, nodeDirEntries: seq<string>, cpuNodeMarkers: set<(int, int)>)
      requires nprocsConf >= 0
      requires numaNodeToCores == []
      modifies this
      ensures hardwareFlags == old(hardwareFlags) + ScanFlags(cpuinfoLines)
      ensures originalHardwareFlags == hardwareFlags
      ensures modelName == ModelName(cpuinfoLines, old(modelName))
      ensures numCores == EffectiveNumCores(ProcessorCount(cpuinfoLines), numCoresFlag)
      ensures maxNumCores == nprocsConf
      ensures maxNumNumaNodes == NumaNodeCount(nodeDirIsDirectory, nodeDirEntries)
      ensures fresh(coreToNumaNode) && coreToNumaNode.Length == maxNumCores
      ensures forall c :: 0 <= c < maxNumCores ==>
        coreToNumaNode[c] == if nodeDirIsDirectory then AssignedNode(cpuNodeMarkers, c, maxNumNumaNodes) else 0
      ensures TopologyValid() && FlagsWithinOriginal() && initialized
    {
      var numCoresSeen := ScanCpuInfo(cpuinfoLines);
      originalHardwareFlags := hardwareFlags;
      if numCoresSeen > 0 {
        numCores := numCoresSeen;
      } else {
        numCores := 1;
      }
      if numCoresFlag > 0 {
        numCores := numCoresFlag;
      }
      maxNumCores := nprocsConf;
      InitNuma(nodeDirIsDirectory, nodeDirEntries, cpuNodeMarkers);
      initialized := true;
    }

    /** The scan of the inventory lines, one line at a time: the features
        of all `flags` entries are accumulated, the `processor` entries
        counted and the last `model name` entry recorded. */
    method ScanCpuInfo(cpuinfoLines: seq<string>) returns (numCoresSeen: nat)
      modifies this`hardwareFlags, this`modelName
      ensures hardwareFlags == old(hardwareFlags) + ScanFlags(cpuinfoLines)
      ensures numCoresSeen == ProcessorCount(cpuinfoLines)
      ensures modelName == ModelName(cpuinfoLines, old(modelName))
    {
      ghost var splits, flags0, name0 := Splits(cpuinfoLines), hardwareFlags, modelName;
      numCoresSeen := 0;
      var i := 0;
      while i < |cpuinfoLines|
        invariant 0 <= i <= |cpuinfoLines|
        invariant hardwareFlags == flags0 + UnionOver(splits[..i], EntryFlags)
        invariant numCoresSeen == CountNamed(splits[..i], "processor")
        invariant modelName == LastValue(splits[..i], "model name", name0)
        modifies this`hardwareFlags, this`modelName
      {
        ScanStep(cpuinfoLines, i, flags0, hardwareFlags, name0);
        numCoresSeen := ScanLine(cpuinfoLines[i], numCoresSeen);
        i := i + 1;
      }
      assert splits[..i] == splits;
    }

    /** Handles one inventory line: a `flags` entry adds the features it
        names, a `processor` entry counts one more processor, and a
        `model name` entry sets the model name; any other line changes
        nothing. */
    method ScanLine(line: string, numCoresSeen: nat) returns (numCoresNow: nat)
      modifies this`hardwareFlags, this`modelName
      ensures hardwareFlags == old(hardwareFlags) + LineFlags(line)
      ensures numCoresNow == numCoresSeen + if IsEntry(line, "processor") then 1 else 0
      ensures modelName == if IsEntry(line, "model name") then SplitLine(line).value.value else old(modelName)
    {
      numCoresNow := numCoresSeen;
      match SplitLine(line) {
        case None =>
        case Some(entry) =>
          if entry.name == "flags" {
            var parsed := ParseCpuFlags(entry.value);
            hardwareFlags := hardwareFlags + parsed;
          } else if entry.name == "cpu MHz" {
            // The clock speed feeds only the cycles-per-millisecond
            // estimate, which is not part of this model.
          } else if entry.name == "processor" {
            numCoresNow := numCoresNow + 1;
          } else if entry.name == "model name" {
            modelName := entry.value;
          }
      }
    }

    /** Determines the number of NUMA nodes and the node of every configured
        core, then builds the inverse table. Without a node directory there
        is a single node owning every core. */
    method InitNuma(nodeDirIsDirectory: bool, nodeDirEntries: seq<string>, cpuNodeMarkers: set<(int, int)>)
      requires maxNumCores >= 0
      requires numaNodeToCores == []
      modifies this`maxNumNumaNodes, this`coreToNumaNode, this`numaNodeToCores, this`numaNodeCoreIdx
      ensures maxNumNumaNodes == NumaNodeCount(nodeDirIsDirectory, nodeDirEntries)
      ensures fresh(coreToNumaNode) && coreToNumaNode.Length == maxNumCores
      ensures forall c :: 0 <= c < maxNumCores ==>
        coreToNumaNode[c] == if nodeDirIsDirectory then AssignedNode(cpuNodeMarkers, c, maxNumNumaNodes) else 0
      ensures TopologyValid()
    {
      var a := new int[maxNumCores];
      coreToNumaNode := a;
      if !nodeDirIsDirectory {
        maxNumNumaNodes := 1;
        for core := 0 to maxNumCores
          invariant forall c :: 0 <= c < core ==> a[c] == 0
          modifies a
        {
          a[core] := 0;
        }
        InitNumaNodeToCores();
        return;
      }

      maxNumNumaNodes := 0;
      for k := 0 to |nodeDirEntries|
        invariant maxNumNumaNodes == CountNodeEntries(nodeDirEntries[..k])
        modifies this`maxNumNumaNodes
      {
        assert nodeDirEntries[..k + 1][..k] == nodeDirEntries[..k];
        if "node" <= nodeDirEntries[k] {
          maxNumNumaNodes := maxNumNumaNodes + 1;
        }
      }
      assert nodeDirEntries[..|nodeDirEntries|] == nodeDirEntries;
      if maxNumNumaNodes == 0 {
        maxNumNumaNodes := 1;
      }

      for core := 0 to maxNumCores
        invariant forall c :: 0 <= c < core ==> a[c] == AssignedNode(cpuNodeMarkers, c, maxNumNumaNodes)
        modifies a
      {
        var found := false;
        var node := 0;
        while node < maxNumNumaNodes
          invariant 0 <= node <= maxNumNumaNodes
          invariant !found
          invariant FirstMarkedNode(cpuNodeMarkers, core, node, maxNumNumaNodes) == AssignedNode(cpuNodeMarkers, core, maxNumNumaNodes)
          invariant forall c :: 0 <= c < core ==> a[c] == AssignedNode(cpuNodeMarkers, c, maxNumNumaNodes)
          modifies a
        {
          if (core, node) in cpuNodeMarkers {
            a[core] := node;
            found := true;
            break;
          }
          node := node + 1;
        }
        if !found {
          a[core] := 0;
        }
      }
      forall c | 0 <= c < maxNumCores {
        AssignedNodeSpec(cpuNodeMarkers, c, maxNumNumaNodes);
      }
      InitNumaNodeToCores();
    }

    /** Replaces the node count and the node of every core with the given
        ones and rebuilds the inverse table. */
    method InitFakeNumaForTest(numaNodes: int, mapping: seq<int>)
      requires |mapping| == maxNumCores && coreToNumaNode.Length == maxNumCores
      requires numaNodes >= 0 && InRange(mapping, numaNodes)
      modifies this`maxNumNumaNodes, this`numaNodeToCores, this`numaNodeCoreIdx, coreToNumaNode
      ensures maxNumNumaNodes == numaNodes && coreToNumaNode[..] == mapping
      ensures TopologyValid()
    {
      maxNumNumaNodes := numaNodes;
      for i := 0 to maxNumCores
        invariant forall k :: 0 <= k < i ==> coreToNumaNode[k] == mapping[k]
        modifies coreToNumaNode
      {
        coreToNumaNode[i] := mapping[i];
      }
      assert coreToNumaNode[..] == mapping;
      numaNodeToCores := [];
      InitNumaNodeToCores();
    }

    /** Builds, from the node of every core, the list of cores of every node
        in ascending order and the position of every core in its list. */
    method InitNumaNodeToCores()
      requires numaNodeToCores == []
      requires coreToNumaNode.Length == maxNumCores && maxNumNumaNodes >= 0
      requires InRange(coreToNumaNode[..], maxNumNumaNodes)
      modifies this`numaNodeToCores, this`numaNodeCoreIdx
      ensures TopologyValid()
    {
      numaNodeToCores, numaNodeCoreIdx :=
        NodeToCoresOf(coreToNumaNode[..], maxNumNumaNodes, Resized(numaNodeCoreIdx, maxNumCores));
    }

    /** Switches the features of `flag` off, or back on; a feature can only
        be switched on if the hardware reported it. */
    method EnableFeature(flag: Flags, enable: bool)
      requires initialized
      requires enable ==> originalHardwareFlags * flag != {}
      modifies this`hardwareFlags
      ensures hardwareFlags == if enable then old(hardwareFlags) + flag else old(hardwareFlags) - flag
      ensures old(FlagsWithinOriginal()) && (enable ==> IsSingleBit(flag)) ==> FlagsWithinOriginal()
    {
      if enable && IsSingleBit(flag) {
        SingleBitOverlap(flag, originalHardwareFlags);
      }
      if !enable {
        hardwareFlags := hardwareFlags - flag;
      } else {
        hardwareFlags := hardwareFlags + flag;
      }
    }
  }

  /** The loop of `CpuInfo.InitNumaNodeToCores`: starting from one empty list
      per node and the index vector `coreIdx`, appends every core to the list
      of its node and records its position there. */
  method NodeToCoresOf(coreToNode: seq<int>, nodes: int, coreIdx: seq<int>)
      returns (nodeToCores: seq<seq<int>>, idx: seq<int>)
    requires nodes >= 0 && InRange(coreToNode, nodes) && |coreIdx| == |coreToNode|
    ensures IsNodeToCores(coreToNode, nodes, nodeToCores, idx)
  {
    nodeToCores := seq(nodes, _ => []);
    idx := coreIdx;
    for core := 0 to |coreToNode|
      invariant |nodeToCores| == nodes && |idx| == |coreToNode|
      invariant forall n :: 0 <= n < nodes ==> nodeToCores[n] == CoresOfNode(coreToNode, n, core)
      invariant forall c :: 0 <= c < core ==> idx[c] == |CoresOfNode(coreToNode, coreToNode[c], c)|
    {
      var node := coreToNode[core];
      CoresOfNodeStep(coreToNode, nodeToCores, idx, core);
      idx := idx[core := |nodeToCores[node]|];
      nodeToCores := nodeToCores[node := nodeToCores[node] + [core]];
    }
  }

  /** The core the caller runs on, given whether the platform offers the
      query, the raw id it reported and the configured core count: always a
      core in range, congruent to the raw id when that is not negative. */
  function GetCurrentCore(haveSchedGetcpu: bool, cpu: int, maxNumCores: int): (r: int)
    requires maxNumCores >= 1
    ensures 0 <= r < maxNumCores
    ensures !haveSchedGetcpu || cpu < 0 ==> r == 0
    ensures haveSchedGetcpu && 0 <= cpu < maxNumCores ==> r == cpu
    ensures haveSchedGetcpu && cpu >= 0 ==> r % maxNumCores == cpu % maxNumCores
  {
    if !haveSchedGetcpu then 0
    else if cpu < 0 then 0
    else if cpu >= maxNumCores then cpu % maxNumCores
    else cpu
  }

  /** Folding is idempotent: a folded id folds to itself. */
  lemma GetCurrentCoreIdempotent(cpu: int, maxNumCores: int)
    requires maxNumCores >= 1
    ensures var r := GetCurrentCore(true, cpu, maxNumCores);
      GetCurrentCore(true, r, maxNumCores) == r
  {
  }

  /** Raw id 11 with 8 configured cores is core 3; a negative id is core 0. */
  lemma GetCurrentCoreExamples()
    ensures GetCurrentCore(true, 11, 8) == 3
    ensures GetCurrentCore(true, -1, 8) == 0
    ensures GetCurrentCore(false, 5, 8) == 0
  {
  }
}
