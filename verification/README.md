# CpuInfo: CPU features, core counts and NUMA topology

This project models Impala's process-wide hardware description,
`impala::CpuInfo` in `be/src/util/cpu-info.cc`, and proves what it computes.

- **CPU features.** A bitmask of recognised instruction-set features is
  parsed from the `flags` lines of `/proc/cpuinfo`. The parser is a substring
  match against a fixed table of seven names. Features can be switched off
  and back on, and an x86_64 build requires AVX2.
- **The inventory scan.** Each line is split at its first colon into a
  trimmed name and a trimmed value. Flags are OR-ed in, `processor` lines are
  counted and the last `model name` is recorded. The usable core count
  defaults to 1 and is overridden by a positive `--num_cores` setting.
- **NUMA topology.** The node count comes from the `node*` entries of the
  node directory, with 1 as the fallback. Each configured core goes to the
  first node whose per-core marker exists, or to node 0. From that mapping
  `InitNumaNodeToCores` builds the inverse table and the index of each core
  in its node's list. The proved structure is a total map from cores to
  nodes in range, plus a partition of the cores with back-pointers.
- **Current-core folding.** The raw id reported by the OS is folded into the
  configured core range.

Modules:

- `Strings`: whitespace trimming and substring containment, as the C++ code
  uses them through boost.
- `CpuFlags`: the feature table, the flags parser and its specification
  `FlagsOf`, the support test and the minimum-requirement check.
- `CpuInfoScan`: line splitting, plus the scan's results as folds over the
  split lines: `ScanFlags`, `ProcessorCount` and `ModelName`. It also holds
  the core-count rule.
- `Numa`: the node count, the first-marker assignment, the inverse table as
  the function `CoresOfNode`, and the partition lemmas.
- `Cpu`: the class `CpuInfo`, whose fields are the static members of the C++
  class. It has the in-place methods `Init`, `InitNuma`,
  `InitNumaNodeToCores`, `InitFakeNumaForTest` and `EnableFeature`, each
  proved against the functions above. `GetCurrentCore` is a pure function.

What the OS provides is passed in as parameters:

- the lines of `/proc/cpuinfo`;
- whether `/sys/devices/system/node` is a directory, and the names of its
  entries;
- the set of `(core, node)` pairs whose `cpu<core>/node<node>` marker exists;
- the value of `get_nprocs_conf()`;
- the `--num_cores` setting;
- for `GetCurrentCore`, whether `sched_getcpu` is available and what it
  returned.

Behaviour of the code that the model keeps as written:

- **Name cut before the colon.** The name is taken as the text up to the
  colon minus one more character, because `/proc/cpuinfo` puts a tab there.
  A line such as `processor:0`, with nothing between name and colon,
  therefore names `processo` (see `CpuInfoScan.UnspacedColonTruncatesName`).
  A line that starts with its colon keeps the whole line as its name, since
  `colon - 1` wraps around.
- **Weak enable guard.** `EnableFeature` only checks that the flag overlaps
  the original features. A multi-bit flag can therefore switch on a bit the
  hardware never reported (see `CpuFlags.EnableGuardAdmitsForeignBit`). The
  effective features stay within the original ones only for single-bit flags.
- **Index for an injected mapping.** For the injected mapping `[1,1,0,0]`
  with 2 nodes the code gives `[[2,3],[0,1]]` and the index `[0,1,0,1]`:
  each core is first or second in its node's list (`Numa.FakeNumaExample`).

Feature bits are represented as the set of set bit positions of the 64-bit
mask. `|` is union, `&` is intersection and `& ~` is difference. The seven
features are distinct single bits. Which positions they occupy is fixed in
`cpu-info.h`, which is not part of this model, and no proof depends on it.

## Model

| member | source | states |
|---|---|---|
| Strings.TrimSlice | be/src/util/cpu-info.cc:135-136 | trimming removes only white space: the result is a slice of the input with only white space outside it |
| Strings.TrimEnds | be/src/util/cpu-info.cc:135-136 | a trimmed string neither starts nor ends with white space |
| Strings.TrimSurrounded | be/src/util/cpu-info.cc:135-136 | trimming white space around a text that has none at its ends gives exactly that text back |
| Strings.TrimIdempotent | be/src/util/cpu-info.cc:135-136 | trimming twice is the same as trimming once |
| Strings.JoinSpacedContains | be/src/util/cpu-info.cc:106-112 | every word of a space-separated list is contained in the list |
| Strings.ContainsTransitive | be/src/util/cpu-info.cc:112 | containment is transitive |
| Strings.MissingCharNotContained | be/src/util/cpu-info.cc:112 | a text lacking some character of a word does not contain the word |
| CpuFlags.MappingBitsDistinct | be/src/util/cpu-info.cc:94-102 | the table's flags are single bits, all recognised, and two of them overlap only if they are the same entry |
| CpuFlags.FlagsOfBits | be/src/util/cpu-info.cc:95-117 | a table entry's bit is in the parsed mask iff its name is a substring of the input, and no unrecognised bit is ever set |
| CpuFlags.FlagsUpToBits | be/src/util/cpu-info.cc:111-115 | after the first n table entries, entry j's bit is set iff j < n and its name occurs; nothing else is set |
| CpuFlags.ParseCpuFlags | be/src/util/cpu-info.cc:109-117 | the loop computes `FlagsOf(values)`: each table bit is set iff its name is a substring of the input, and only recognised bits are set |
| CpuFlags.ParseNoRecognisedFlags | be/src/util/cpu-info.cc:109-117 | `"fpu vme de"` parses to the empty mask |
| CpuFlags.LackingLettersGiveNoFlags | be/src/util/cpu-info.cc:95-117 | an input without any of the letters s, o, a, c parses to the empty mask |
| CpuFlags.NoNamesGiveNoFlags | be/src/util/cpu-info.cc:109-117 | an input containing no recognised name parses to the empty mask |
| CpuFlags.AllNamesGiveKnownFlags | be/src/util/cpu-info.cc:95-117 | an input containing every recognised name parses to all seven bits |
| CpuFlags.ParseModernFlagsLine | be/src/util/cpu-info.cc:106-117 | a modern space-separated flags list with all seven features parses to all seven bits |
| CpuFlags.Avx2ImpliesAvx | be/src/util/cpu-info.cc:99-112 | any input containing `avx2` sets both AVX2 and AVX, since `avx` is a substring of `avx2` |
| CpuFlags.EnforceCpuRequirements | be/src/util/cpu-info.cc:254-265 | an error exactly on an x86_64 build whose flags do not support AVX2, with a message naming AVX2; OK otherwise |
| CpuFlags.SingleBitOverlap | be/src/util/cpu-info.cc:294-295 | a single-bit flag that passes the overlap guard lies inside the original features |
| CpuFlags.EnableGuardAdmitsForeignBit | be/src/util/cpu-info.cc:294-295 | for any original features, a two-bit flag with one bit inside and one outside them passes the overlap guard, and switching it on leaves the original features |
| CpuInfoScan.FindColonFrom | be/src/util/cpu-info.cc:131 | finds nothing iff there is no colon from the start position on; otherwise the position of the first colon there |
| CpuInfoScan.FindColon | be/src/util/cpu-info.cc:131-132 | finds nothing iff the line has no colon; otherwise the position of its first colon |
| CpuInfoScan.SplitLine | be/src/util/cpu-info.cc:131-136 | a line yields an entry iff it contains a colon |
| CpuInfoScan.SplitLineTrimmed | be/src/util/cpu-info.cc:133-136 | both name and value of an entry are trimmed: fixed points of trimming, with no white space at either end |
| CpuInfoScan.SplitLineFields | be/src/util/cpu-info.cc:131-136 | `key sep: value` with a colon-free key splits into the trimmed key and the trimmed value, whatever the one separator character is |
| CpuInfoScan.SplitLineLeadingColon | be/src/util/cpu-info.cc:133 | a line starting with its colon keeps the whole line as its (trimmed) name |
| CpuInfoScan.UnspacedColonTruncatesName | be/src/util/cpu-info.cc:133 | `processor:0` splits into the name `processo` and the value `0`, so it is not a processor entry |
| CpuInfoScan.SplitsIndex | be/src/util/cpu-info.cc:129-136 | every line of the inventory is split on its own |
| CpuInfoScan.SplitsAppend | be/src/util/cpu-info.cc:129-136 | splitting a concatenation is concatenating the splits |
| CpuInfoScan.ScanStep | be/src/util/cpu-info.cc:129-152 | one more line adds its own features to the union, one to the processor count if it is a processor entry, and replaces the model name if it is a model-name entry |
| CpuInfoScan.UnionOverExact | be/src/util/cpu-info.cc:137-138 | an accumulated union holds every part and only bits of some part |
| CpuInfoScan.ScanFlagsUnion | be/src/util/cpu-info.cc:137-138 | the scanned features hold every line's features and only bits some line contributed |
| CpuInfoScan.FoldsAppend | be/src/util/cpu-info.cc:129-152 | the scan folds distribute over concatenation of split lines |
| CpuInfoScan.ScanAppend | be/src/util/cpu-info.cc:129-152 | scanning two blocks of lines one after the other gives the union of features, the sum of processors, and the later block's model name when it has one |
| CpuInfoScan.ColonlessLineIgnored | be/src/util/cpu-info.cc:131-132 | a line without a colon changes neither features, processor count nor model name |
| CpuInfoScan.LastValueIsLast | be/src/util/cpu-info.cc:148-149 | the recorded value is that of the last entry with the name |
| CpuInfoScan.LastValueDefault | be/src/util/cpu-info.cc:148-149 | with no entry of the name the initial value stays |
| CpuInfoScan.ModelNameIsLast | be/src/util/cpu-info.cc:148-149 | the model name is the value of the last model-name line |
| CpuInfoScan.ModelNameDefault | be/src/util/cpu-info.cc:84-149 | without a model-name line the model name keeps its earlier value (initially `unknown`) |
| CpuInfoScan.EffectiveNumCores | be/src/util/cpu-info.cc:161-166 | at least 1; the override when it is positive, else the processor count when positive, else 1 |
| CpuInfoScan.OverridePrecedence | be/src/util/cpu-info.cc:161-166 | override 16 beats 4 processors; 4 processors and no override gives 4; none of either gives 1 |
| Numa.CountNodeEntriesBounds | be/src/util/cpu-info.cc:202-206 | the node-entry count is at most the entry count, and zero iff no entry name starts with `node` |
| Numa.NumaNodeCount | be/src/util/cpu-info.cc:190-210 | at least 1; 1 without the directory or without node entries, otherwise the number of node entries |
| Numa.FirstMarkedNodeSpec | be/src/util/cpu-info.cc:216-222 | the inner search returns the smallest marked node in its range, or 0 when none is marked |
| Numa.AssignedNodeSpec | be/src/util/cpu-info.cc:214-228 | a core's node is in range, and it is the smallest marked node, or 0 when no node is marked for it |
| Numa.CoresOfNodeStep | be/src/util/cpu-info.cc:247-251 | appending a core to its node's list and recording the old length as its index extends the table and index by that core |
| Numa.CoresOfNodeMembers | be/src/util/cpu-info.cc:243-252 | a node's list holds exactly its cores below the bound, in strictly ascending order |
| Numa.CoresOfNodePrefix | be/src/util/cpu-info.cc:247-251 | a node's list grows only by appending |
| Numa.CoresOfNodePosition | be/src/util/cpu-info.cc:248-250 | a core sits in its node's list at the position the count of that node's earlier cores gives |
| Numa.NodeToCoresPartition | be/src/util/cpu-info.cc:243-252 | the lists partition the cores: a core is in a list iff it maps to that node; lists strictly ascending; every core found in its list at its recorded index |
| Numa.SingleNodeTopology | be/src/util/cpu-info.cc:190-196 | with every core on node 0 there is one list holding every core in order, each at its own index |
| Numa.AllOnNodeZero | be/src/util/cpu-info.cc:194 | with every core on node 0 the list of cores below k has k elements |
| Numa.FakeNumaExample | be/src/util/cpu-info.cc:232-252 | the injected mapping `[1,1,0,0]` with 2 nodes gives `[[2,3],[0,1]]` and index `[0,1,0,1]` |
| Cpu.CpuInfo.constructor | be/src/util/cpu-info.cc:78-88 | the state before `Init`: no features, one core, model `unknown`, no topology |
| Cpu.CpuInfo.Init | be/src/util/cpu-info.cc:119-181 | features gain the union over all `flags` lines and are recorded as the original ones; the model name is that of the last model-name line; the core count follows the default and override rules; the configured count is recorded; the node count and each core's node are as in `InitNuma`; the topology is consistent and the object initialised |
| Cpu.CpuInfo.ScanCpuInfo | be/src/util/cpu-info.cc:129-152 | the line loop computes the scan folds: features, processor count and last model name |
| Cpu.CpuInfo.ScanLine | be/src/util/cpu-info.cc:131-151 | one line adds the features of a `flags` entry, counts a `processor` entry, sets the model name from a `model name` entry, and otherwise changes nothing |
| Cpu.CpuInfo.InitNuma | be/src/util/cpu-info.cc:183-230 | the node count is `NumaNodeCount`; a fresh node array with one node per configured core; node 0 for every core without the directory, else the first marked node; a consistent topology |
| Cpu.CpuInfo.InitFakeNumaForTest | be/src/util/cpu-info.cc:232-241 | the node count and the node of each core become the injected ones, and the inverse table is rebuilt from them |
| Cpu.CpuInfo.InitNumaNodeToCores | be/src/util/cpu-info.cc:243-252 | the inverse table and the index are those of the current mapping, so the topology is consistent |
| Cpu.NodeToCoresOf | be/src/util/cpu-info.cc:245-251 | the append loop yields one list per node holding that node's cores in order, and each core's position in its list |
| Cpu.CpuInfo.EnableFeature | be/src/util/cpu-info.cc:288-297 | switching off removes exactly the flag's bits; switching on adds exactly them; effective features stay within the original ones for single-bit flags |
| Cpu.GetCurrentCore | be/src/util/cpu-info.cc:299-325 | always a core in range; 0 without `sched_getcpu` or for a negative id; an in-range id unchanged; a non-negative id folded to its residue modulo the core count |
| Cpu.GetCurrentCoreIdempotent | be/src/util/cpu-info.cc:306-321 | a folded id folds to itself |
| Cpu.GetCurrentCoreExamples | be/src/util/cpu-info.cc:299-325 | id 11 with 8 cores gives 3; id -1 gives 0; no `sched_getcpu` gives 0 |

## Left out

- Reading `/proc/cpuinfo`, probing the node directory and checking the per-core markers are file-system I/O. Their results are parameters. The `while (cpuinfo) getline` loop is taken as a sequence of lines; the empty line it may read at end of file has no colon and is ignored (`CpuInfoScan.ColonlessLineIgnored`).
- The end of the `while (cpuinfo) getline` loop is not modelled exactly. When the file does not end with a newline, the last `getline` sets only the end-of-file bit, so the loop runs once more. On that pass the read fails without clearing `line`, and the last line is processed a second time; a trailing `processor` line is then counted twice. `Cpu.CpuInfo.ScanCpuInfo` and `CpuInfoScan.ProcessorCount` see each line exactly once, which is what happens for an inventory ending with a newline, as `/proc/cpuinfo` does.
- C++ strings are bytes, but the model's strings are sequences of characters. `substr(0, colon - 1)` drops one byte, so a multi-byte character just before the colon would be cut differently than the model cuts it. The inventory is ASCII at that position.
- The clock-speed estimate (`atof`, `max_mhz`, `cycles_per_ms_`) is floating point. The `cpu MHz` entry is recognised and otherwise ignored.
- `get_nprocs_conf()` and `sched_getcpu()` are foreign calls. Their values are parameters.
- Logging is left out: the `sched_getcpu` warnings, the missing-node warnings and the `LOG_FIRST_N` rate limit.
- `GetCacheInfo` queries the platform with `sysconf`/`sysctl`.
- `DebugString` only formats text.
- `WarnIfFileNotEqual`, `VerifyPerformanceGovernor` and `VerifyTurboDisabled` are advisory file reads that only log.
- `IsSupported` and the flag constants are defined in `cpu-info.h`, which is not part of this model. They are modelled as the overlap test and seven distinct single bits.
- The static storage of the C++ class and thread safety are not modelled. The members are fields of one object.
- Integer widths are not modelled: `--num_cores` is an `int32` and the counters are C++ `int`. Counts are unbounded integers, since realistic inventories are far below the limits.
- Cpu.CpuInfo.EnableFeature: the invariant that effective features stay within the original ones is promised only for single-bit flags, because the source's guard admits multi-bit flags that break it (`CpuFlags.EnableGuardAdmitsForeignBit`).
- Cpu.CpuInfo.InitFakeNumaForTest: requires the injected nodes to be in range and the node array to have one slot per configured core. The source does not check the first condition; an out-of-range node would index past the list vector. It also relies on `InitNuma` having allocated the array.
- Cpu.GetCurrentCore: requires a configured core count of at least 1. With 0 the source would take a remainder by zero.
