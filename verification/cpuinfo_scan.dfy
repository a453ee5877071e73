/** The scan of the CPU inventory (the lines of /proc/cpuinfo): how one line
    splits into a name and a value, what a whole scan accumulates, and the
    usable core count derived from it. The scan loop itself is
    `Cpu.CpuInfo.Init`; the functions here say what it computes. */
module CpuInfoScan {
  import opened Strings
  import opened CpuFlags

  datatype Option<T> = None | Some(value: T)

  /** A `name: value` line of the inventory, both parts trimmed. */
  datatype Entry = Entry(name: string, value: string)

  /** The index of the first ':' at or after `i`, if any. */
  function FindColonFrom(line: string, i: nat): (r: Option<nat>)
    requires i <= |line|
    ensures r.None? <==> ':' !in line[i..]
    ensures r.Some? ==> i <= r.value < |line| && line[r.value] == ':' && ':' !in line[i..r.value]
    decreases |line| - i
  {
    if i == |line| then None
    else if line[i] == ':' then Some(i)
    else
      var r := FindColonFrom(line, i + 1);
      assert line[i..] == [line[i]] + line[i + 1..];
      assert r.Some? ==> line[i..r.value] == [line[i]] + line[i + 1..r.value];
      r
  }

  /** The index of the first ':' of `line`, if any. */
  function FindColon(line: string): (r: Option<nat>)
    ensures r.None? <==> ':' !in line
    ensures r.Some? ==> r.value < |line| && line[r.value] == ':' && ':' !in line[..r.value]
  {
    assert line[0..] == line;
    FindColonFrom(line, 0)
  }

  /** Splits a line at its first ':'. The name is the text before the colon
      minus its last character (the separator /proc/cpuinfo puts there), or
      the whole line when the colon comes first; the value is the text after
      the colon. Both are trimmed. A line without a colon yields nothing. */
  function SplitLine(line: string): (r: Option<Entry>)
    ensures r.None? <==> ':' !in line
  {
    match FindColon(line)
    case None => None
    case Some(colon) =>
      var name := if colon == 0 then line else line[..colon - 1];
      var value := line[colon + 1..];
      Some(Entry(Trim(name), Trim(value)))
  }

  /** Both parts of a split line are already trimmed: they neither start
      nor end with white space. */
  lemma SplitLineTrimmed(line: string)
    requires ':' in line
    ensures var e := SplitLine(line).value;
      Trim(e.name) == e.name && Trim(e.value) == e.value
    ensures var e := SplitLine(line).value;
      (e.name == [] || (!IsSpace(e.name[0]) && !IsSpace(e.name[|e.name| - 1]))) &&
      (e.value == [] || (!IsSpace(e.value[0]) && !IsSpace(e.value[|e.value| - 1])))
  {
    var colon := FindColon(line).value;
    var name := if colon == 0 then line else line[..colon - 1];
    TrimIdempotent(name);
    TrimIdempotent(line[colon + 1..]);
    TrimEnds(name);
    TrimEnds(line[colon + 1..]);
  }

  /** A colon with none before it is the first colon. */
  lemma FindColonAt(line: string, p: nat)
    requires p < |line| && line[p] == ':' && ':' !in line[..p]
    ensures FindColon(line) == Some(p)
  {
    assert ':' in line;
  }

  /** A well-formed inventory line `key sep: value` splits into the trimmed
      key and the trimmed value, whatever single separator character stands
      before the colon. */
  lemma SplitLineFields(key: string, sep: char, value: string)
    requires ':' !in key && sep != ':'
    ensures SplitLine(key + [sep] + ":" + value) == Some(Entry(Trim(key), Trim(value)))
  {
    var line := key + [sep] + ":" + value;
    assert line[..|key| + 1] == key + [sep];
    FindColonAt(line, |key| + 1);
    assert line[..|key|] == key;
    assert line[|key| + 2..] == value;
  }

  /** A line whose first character is the colon keeps the whole line,
      colon included, as its name. */
  lemma SplitLineLeadingColon(value: string)
    ensures SplitLine(":" + value) == Some(Entry(Trim(":" + value), Trim(value)))
  {
    assert (":" + value)[1..] == value;
  }

  /** Without a separator before the colon the name loses its own last
      character, so `processor:0` is not a `processor` entry. */
  lemma UnspacedColonTruncatesName(key: string, value: string)
    requires key == "processo" && value == "0"
    ensures SplitLine(key + ['r'] + ":" + value) == Some(Entry(key, value))
    ensures !IsEntry(key + ['r'] + ":" + value, "processor")
  {
    SplitLineFields(key, 'r', value);
    TrimSurrounded([], key, []);
    assert [] + key + [] == key;
    TrimSurrounded([], value, []);
    assert [] + value + [] == value;
  }

  /** Whether a split line is an entry named `name`. */
  predicate IsNamed(split: Option<Entry>, name: string) {
    split.Some? && split.value.name == name
  }

  /** Whether `line` is an entry named `name`. */
  predicate IsEntry(line: string, name: string) {
    IsNamed(SplitLine(line), name)
  }

  /** Every line of the inventory, split. */
  function Splits(lines: seq<string>): (r: seq<Option<Entry>>)
    ensures |r| == |lines|
  {
    if lines == [] then [] else Splits(lines[..|lines| - 1]) + [SplitLine(lines[|lines| - 1])]
  }

  /** The `k`-th split line is the split of the `k`-th line. */
  lemma {:induction false} SplitsAt(lines: seq<string>, k: nat)
    requires k < |lines|
    ensures Splits(lines)[k] == SplitLine(lines[k])
  {
    if k < |lines| - 1 {
      SplitsAt(lines[..|lines| - 1], k);
    }
  }

  /** Every split line is the split of its line. */
  lemma SplitsIndex(lines: seq<string>)
    ensures forall k :: 0 <= k < |lines| ==> Splits(lines)[k] == SplitLine(lines[k])
  {
    forall k | 0 <= k < |lines| {
      SplitsAt(lines, k);
    }
  }

  /** Splitting distributes over concatenation. */
  lemma SplitsAppend(a: seq<string>, b: seq<string>)
    ensures Splits(a + b) == Splits(a) + Splits(b)
  {
    SplitsIndex(a);
    SplitsIndex(b);
    SplitsIndex(a + b);
    assert forall k :: 0 <= k < |a| ==> (a + b)[k] == a[k];
    assert forall k :: |a| <= k < |a| + |b| ==> (a + b)[k] == b[k - |a|];
  }

  /** The features one split line contributes: those of its value if it is
      a `flags` entry, none otherwise. */
  function EntryFlags(split: Option<Entry>): Flags {
    if IsNamed(split, "flags") then FlagsOf(split.value.value) else {}
  }

  /** The features one line contributes. */
  function LineFlags(line: string): Flags {
    EntryFlags(SplitLine(line))
  }

  /** The union of `f` over the split lines, accumulated from the first on. */
  function UnionOver(splits: seq<Option<Entry>>, f: Option<Entry> -> Flags): Flags {
    if splits == [] then {}
    else UnionOver(splits[..|splits| - 1], f) + f(splits[|splits| - 1])
  }

  /** One more split line extends an accumulated union `acc` by that
      line's part alone. */
  lemma UnionOverStep(splits: seq<Option<Entry>>, i: nat, f: Option<Entry> -> Flags, base: Flags, acc: Flags)
    requires i < |splits| && acc == base + UnionOver(splits[..i], f)
    ensures acc + f(splits[i]) == base + UnionOver(splits[..i + 1], f)
    ensures f(splits[i]) == {} ==> acc == base + UnionOver(splits[..i + 1], f)
  {
    assert splits[..i + 1][..i] == splits[..i];
  }

  /** One more split line adds one to the count if it is named `name`, and
      replaces the last value if it is named `name`. */
  lemma NamedStep(splits: seq<Option<Entry>>, i: nat, name: string, initial: string)
    requires i < |splits|
    ensures CountNamed(splits[..i + 1], name) == CountNamed(splits[..i], name) + if IsNamed(splits[i], name) then 1 else 0
    ensures LastValue(splits[..i + 1], name, initial) ==
      if IsNamed(splits[i], name) then splits[i].value.value else LastValue(splits[..i], name, initial)
  {
    assert splits[..i + 1][..i] == splits[..i];
  }

  /** One more inventory line: the union grows by that line's features,
      the processor count by one if it is a `processor` entry, and the
      model name becomes its value if it is a `model name` entry. */
  lemma ScanStep(lines: seq<string>, i: nat, base: Flags, acc: Flags, initial: string)
    requires i < |lines| && acc == base + UnionOver(Splits(lines)[..i], EntryFlags)
    ensures acc + LineFlags(lines[i]) == base + UnionOver(Splits(lines)[..i + 1], EntryFlags)
    ensures CountNamed(Splits(lines)[..i + 1], "processor") ==
      CountNamed(Splits(lines)[..i], "processor") + if IsEntry(lines[i], "processor") then 1 else 0
    ensures LastValue(Splits(lines)[..i + 1], "model name", initial) ==
      if IsEntry(lines[i], "model name") then SplitLine(lines[i]).value.value
      else LastValue(Splits(lines)[..i], "model name", initial)
  {
    var splits := Splits(lines);
    SplitsAt(lines, i);
    UnionOverStep(splits, i, EntryFlags, base, acc);
    NamedStep(splits, i, "processor", initial);
    NamedStep(splits, i, "model name", initial);
  }

  /** The number of entries named `name`. */
  function CountNamed(splits: seq<Option<Entry>>, name: string): nat {
    if splits == [] then 0
    else CountNamed(splits[..|splits| - 1], name) + (if IsNamed(splits[|splits| - 1], name) then 1 else 0)
  }

  /** The value of the last entry named `name`, or `initial` if there is
      none. */
  function LastValue(splits: seq<Option<Entry>>, name: string, initial: string): string {
    if splits == [] then initial
    else if IsNamed(splits[|splits| - 1], name) then splits[|splits| - 1].value.value
    else LastValue(splits[..|splits| - 1], name, initial)
  }

  /** The features accumulated over the lines. */
  function ScanFlags(lines: seq<string>): Flags {
    UnionOver(Splits(lines), EntryFlags)
  }

  /** The number of `processor` entries among the lines. */
  function ProcessorCount(lines: seq<string>): nat {
    CountNamed(Splits(lines), "processor")
  }

  /** The model name after the lines: the value of the last `model name`
      entry, or `initial` if there is none. */
  function ModelName(lines: seq<string>, initial: string): string {
    LastValue(Splits(lines), "model name", initial)
  }

  /** An accumulated union is exactly the union of its parts: every split
      line's part is in it, and every bit in it comes from some line. */
  lemma {:induction false} UnionOverExact(splits: seq<Option<Entry>>, f: Option<Entry> -> Flags)
    ensures forall k :: 0 <= k < |splits| ==> f(splits[k]) <= UnionOver(splits, f)
    ensures forall b :: b in UnionOver(splits, f) ==> exists k :: 0 <= k < |splits| && b in f(splits[k])
  {
    if splits != [] {
      var init, last := splits[..|splits| - 1], splits[|splits| - 1];
      UnionOverExact(init, f);
      forall k | 0 <= k < |splits|
        ensures f(splits[k]) <= UnionOver(splits, f)
      {
        if k < |init| {
          assert splits[k] == init[k];
        }
      }
      forall b | b in UnionOver(splits, f)
        ensures exists k :: 0 <= k < |splits| && b in f(splits[k])
      {
        if b !in f(last) {
          var k :| 0 <= k < |init| && b in f(init[k]);
          assert splits[k] == init[k];
        }
      }
    }
  }

  /** The accumulated features are exactly the union of the features of the
      `flags` lines. */
  lemma ScanFlagsUnion(lines: seq<string>)
    ensures forall k :: 0 <= k < |lines| ==> LineFlags(lines[k]) <= ScanFlags(lines)
    ensures forall b :: b in ScanFlags(lines) ==> exists k :: 0 <= k < |lines| && b in LineFlags(lines[k])
  {
    UnionOverExact(Splits(lines), EntryFlags);
    SplitsIndex(lines);
    forall b | b in ScanFlags(lines)
      ensures exists k :: 0 <= k < |lines| && b in LineFlags(lines[k])
    {
      var k :| 0 <= k < |lines| && b in EntryFlags(Splits(lines)[k]);
      assert b in LineFlags(lines[k]);
    }
  }

  /** The three accumulations over two runs of split lines, one after the
      other, are those over their concatenation. */
  lemma {:induction false} FoldsAppend(a: seq<Option<Entry>>, b: seq<Option<Entry>>, initial: string)
    ensures UnionOver(a + b, EntryFlags) == UnionOver(a, EntryFlags) + UnionOver(b, EntryFlags)
    ensures CountNamed(a + b, "processor") == CountNamed(a, "processor") + CountNamed(b, "processor")
    ensures LastValue(a + b, "model name", initial) == LastValue(b, "model name", LastValue(a, "model name", initial))
  {
    if b == [] {
      assert a + b == a;
    } else {
      var b' := b[..|b| - 1];
      FoldsAppend(a, b', initial);
      assert (a + b)[..|a + b| - 1] == a + b';
      assert (a + b)[|a + b| - 1] == b[|b| - 1];
    }
  }

  /** Scanning two runs of lines one after the other is scanning their
      concatenation: features unite, processor counts add up, and the later
      run's model name wins. */
  lemma ScanAppend(a: seq<string>, b: seq<string>, initial: string)
    ensures ScanFlags(a + b) == ScanFlags(a) + ScanFlags(b)
    ensures ProcessorCount(a + b) == ProcessorCount(a) + ProcessorCount(b)
    ensures ModelName(a + b, initial) == ModelName(b, ModelName(a, initial))
  {
    SplitsAppend(a, b);
    FoldsAppend(Splits(a), Splits(b), initial);
  }

  /** A line without a colon changes nothing. */
  lemma ColonlessLineIgnored(lines: seq<string>, line: string, initial: string)
    requires ':' !in line
    ensures ScanFlags(lines + [line]) == ScanFlags(lines)
    ensures ProcessorCount(lines + [line]) == ProcessorCount(lines)
    ensures ModelName(lines + [line], initial) == ModelName(lines, initial)
  {
    SplitsAppend(lines, [line]);
    assert (Splits(lines) + Splits([line]))[..|lines|] == Splits(lines);
  }

  /** The last entry named `name` gives the value. */
  lemma {:induction false} LastValueIsLast(splits: seq<Option<Entry>>, name: string, initial: string, k: nat)
    requires k < |splits| && IsNamed(splits[k], name)
    requires forall j :: k < j < |splits| ==> !IsNamed(splits[j], name)
    ensures LastValue(splits, name, initial) == splits[k].value.value
  {
    if k < |splits| - 1 {
      var init := splits[..|splits| - 1];
      assert init[k] == splits[k];
      assert forall j :: k < j < |init| ==> init[j] == splits[j];
      LastValueIsLast(init, name, initial, k);
    }
  }

  /** Without an entry named `name` the value stays `initial`. */
  lemma {:induction false} LastValueDefault(splits: seq<Option<Entry>>, name: string, initial: string)
    requires forall j :: 0 <= j < |splits| ==> !IsNamed(splits[j], name)
    ensures LastValue(splits, name, initial) == initial
  {
    if splits != [] {
      var init := splits[..|splits| - 1];
      assert forall j :: 0 <= j < |init| ==> init[j] == splits[j];
      LastValueDefault(init, name, initial);
    }
  }

  /** The model name is the value of the last `model name` entry. */
  lemma ModelNameIsLast(lines: seq<string>, initial: string, k: nat)
    requires k < |lines| && IsEntry(lines[k], "model name")
    requires forall j :: k < j < |lines| ==> !IsEntry(lines[j], "model name")
    ensures ModelName(lines, initial) == SplitLine(lines[k]).value.value
  {
    SplitsIndex(lines);
    LastValueIsLast(Splits(lines), "model name", initial, k);
  }

  /** Without any `model name` entry the model name keeps its prior value. */
  lemma ModelNameDefault(lines: seq<string>, initial: string)
    requires forall j :: 0 <= j < |lines| ==> !IsEntry(lines[j], "model name")
    ensures ModelName(lines, initial) == initial
  {
    SplitsIndex(lines);
    LastValueDefault(Splits(lines), "model name", initial);
  }

  /** The usable core count: the number of `processor` entries, or 1 when
      there are none, replaced by the operator's setting when that is
      positive. */
  function EffectiveNumCores(processorCount: int, numCoresFlag: int): (r: int)
    ensures r >= 1
    ensures numCoresFlag > 0 ==> r == numCoresFlag
    ensures numCoresFlag <= 0 && processorCount > 0 ==> r == processorCount
    ensures numCoresFlag <= 0 && processorCount <= 0 ==> r == 1
  {
    var detected := if processorCount > 0 then processorCount else 1;
    if numCoresFlag > 0 then numCoresFlag else detected
  }

  /** The override wins over four detected cores; a zero setting keeps them. */
  lemma OverridePrecedence()
    ensures EffectiveNumCores(4, 16) == 16
    ensures EffectiveNumCores(4, 0) == 4
    ensures EffectiveNumCores(0, 0) == 1
  {
  }
}
