/** The recognised CPU instruction-set features, the parser that turns a
    `flags` value of the CPU inventory into a feature bitmask, the support test
    and the minimum-requirement check. */
module CpuFlags {
  import opened Strings

  /** A bit position of a 64-bit integer. */
  newtype Bit = b: int | 0 <= b < 64

  /** A feature bitmask, the 64-bit integer the source keeps its flags in,
      given as the set of its set bits: `|` is union, `&` intersection and
      `x & ~y` difference. */
  type Flags = set<Bit>

  // Seven distinct single-bit features. Their bit positions are fixed by a
  // header that is not part of this model; nothing below depends on which
  // bits they are, only on their being distinct single bits.
  const SSSE3: Flags := {1}
  const SSE4_1: Flags := {2}
  const SSE4_2: Flags := {3}
  const POPCNT: Flags := {4}
  const AVX: Flags := {5}
  const AVX2: Flags := {6}
  const PCLMULQDQ: Flags := {7}

  /** The union of all recognised features. */
  const KnownFlags: Flags := {1, 2, 3, 4, 5, 6, 7}

  /** The fixed, ordered table of recognised token names and their bits. */
  const FlagMappings: seq<(string, Flags)> := [
    ("ssse3", SSSE3),
    ("sse4_1", SSE4_1),
    ("sse4_2", SSE4_2),
    ("popcnt", POPCNT),
    ("avx", AVX),
    ("avx2", AVX2),
    ("pclmulqdq", PCLMULQDQ)
  ]

  predicate IsSingleBit(f: Flags) {
    |f| == 1
  }

  /** The table's bits are distinct single bits, all of them recognised. */
  lemma MappingBitsDistinct(j: int, k: int)
    requires 0 <= j < |FlagMappings| && 0 <= k < |FlagMappings|
    ensures IsSingleBit(FlagMappings[j].1)
    ensures FlagMappings[j].1 <= KnownFlags
    ensures (FlagMappings[j].1 * FlagMappings[k].1 != {}) <==> j == k
  {
  }

  /** A single-bit flag that overlaps a mask lies inside it. */
  lemma SingleBitOverlap(flag: Flags, mask: Flags)
    requires IsSingleBit(flag) && flag * mask != {}
    ensures flag <= mask
  {
    var b :| b in flag * mask;
    assert |flag - {b}| == 0;
    assert flag == {b};
  }

  /** The bits of the first `n` table entries whose name occurs in `values`,
      accumulated in table order. */
  function FlagsUpTo(values: string, n: nat): Flags
    requires n <= |FlagMappings|
  {
    if n == 0 then {}
    else FlagsUpTo(values, n - 1) +
         (if Contains(values, FlagMappings[n - 1].0) then FlagMappings[n - 1].1 else {})
  }

  /** The feature bitmask a `flags` value denotes. */
  function FlagsOf(values: string): Flags {
    FlagsUpTo(values, |FlagMappings|)
  }

  /** Entry `j`'s bit is set after `n` entries exactly when `j` is among them
      and its name occurs in `values`; no unrecognised bit is ever set. */
  lemma {:induction false} FlagsUpToBits(values: string, n: nat, j: int)
    requires n <= |FlagMappings| && 0 <= j < |FlagMappings|
    ensures (FlagMappings[j].1 <= FlagsUpTo(values, n)) <==> (j < n && Contains(values, FlagMappings[j].0))
    ensures FlagsUpTo(values, n) <= KnownFlags
  {
    if n > 0 {
      FlagsUpToBits(values, n - 1, j);
      MappingBitsDistinct(n - 1, j);
    }
  }

  /** A table entry's bit is in the parsed mask exactly when that entry's name
      occurs as a substring of the input, and no other bit is. */
  lemma FlagsOfBits(values: string)
    ensures forall j :: 0 <= j < |FlagMappings| ==>
      ((FlagMappings[j].1 <= FlagsOf(values)) <==> Contains(values, FlagMappings[j].0))
    ensures FlagsOf(values) <= KnownFlags
  {
    forall j | 0 <= j < |FlagMappings|
      ensures (FlagMappings[j].1 <= FlagsOf(values)) <==> Contains(values, FlagMappings[j].0)
    {
      FlagsUpToBits(values, |FlagMappings|, j);
    }
    FlagsUpToBits(values, |FlagMappings|, 0);
  }

  /** Parses a space-separated list of feature tokens into a feature bitmask
      by substring match against the table. */
  method ParseCpuFlags(values: string) returns (flags: Flags)
    ensures flags == FlagsOf(values)
    ensures forall j :: 0 <= j < |FlagMappings| ==>
      ((FlagMappings[j].1 <= flags) <==> Contains(values, FlagMappings[j].0))
    ensures flags <= KnownFlags
  {
    flags := {};
    for i := 0 to |FlagMappings|
      invariant flags == FlagsUpTo(values, i)
    {
      if Contains(values, FlagMappings[i].0) {
        flags := flags + FlagMappings[i].1;
      }
    }
    FlagsOfBits(values);
  }

  /** Tokens none of which contains a recognised name give the empty mask. */
  lemma ParseNoRecognisedFlags(values: string)
    requires values == "fpu vme de"
    ensures FlagsOf(values) == {}
  {
    LackingLettersGiveNoFlags(values);
  }

  /** An input without the letters `s`, `o`, `a` and `c` names no recognised
      feature, since every name has one of them. */
  lemma LackingLettersGiveNoFlags(values: string)
    requires 's' !in values && 'o' !in values && 'a' !in values && 'c' !in values
    ensures FlagsOf(values) == {}
  {
    forall j | 0 <= j < |FlagMappings|
      ensures !Contains(values, FlagMappings[j].0)
    {
      var name := FlagMappings[j].0;
      if j < 3 {
        assert name[0] == 's';
        MissingCharNotContained(values, name, 's');
      } else if j == 3 {
        assert name[1] == 'o';
        MissingCharNotContained(values, name, 'o');
      } else if j < 6 {
        assert name[0] == 'a';
        MissingCharNotContained(values, name, 'a');
      } else {
        assert name[1] == 'c';
        MissingCharNotContained(values, name, 'c');
      }
    }
    NoNamesGiveNoFlags(values);
  }

  /** An input in which none of the first `n` names occurs gets nothing from
      those `n` entries. */
  lemma {:induction false} FlagsUpToNone(values: string, n: nat)
    requires n <= |FlagMappings|
    requires forall j :: 0 <= j < n ==> !Contains(values, FlagMappings[j].0)
    ensures FlagsUpTo(values, n) == {}
  {
    if n > 0 {
      FlagsUpToNone(values, n - 1);
    }
  }

  /** An input in which no recognised name occurs gives the empty mask. */
  lemma NoNamesGiveNoFlags(values: string)
    requires forall j :: 0 <= j < |FlagMappings| ==> !Contains(values, FlagMappings[j].0)
    ensures FlagsOf(values) == {}
  {
    FlagsUpToNone(values, |FlagMappings|);
  }

  /** An input in which every recognised name occurs sets exactly the seven
      recognised bits. */
  lemma AllNamesGiveKnownFlags(values: string)
    requires forall j :: 0 <= j < |FlagMappings| ==> Contains(values, FlagMappings[j].0)
    ensures FlagsOf(values) == KnownFlags
  {
    FlagsOfBits(values);
    assert forall j :: 0 <= j < |FlagMappings| ==> FlagMappings[j].1 <= FlagsOf(values);
    assert FlagMappings[0].1 + FlagMappings[1].1 + FlagMappings[2].1 + FlagMappings[3].1 +
      FlagMappings[4].1 + FlagMappings[5].1 + FlagMappings[6].1 == KnownFlags;
  }

  /** A full modern inventory `flags` line sets exactly the seven recognised
      bits. */
  lemma ParseModernFlagsLine(words: seq<string>, values: string)
    requires words == ["fpu", "sse2", "ssse3", "sse4_1", "sse4_2", "popcnt", "pclmulqdq", "avx", "avx2"]
    requires values == JoinSpaced(words)
    ensures FlagsOf(values) == KnownFlags
  {
    JoinSpacedContains(words, 2);
    JoinSpacedContains(words, 3);
    JoinSpacedContains(words, 4);
    JoinSpacedContains(words, 5);
    JoinSpacedContains(words, 6);
    JoinSpacedContains(words, 7);
    JoinSpacedContains(words, 8);
    AllNamesGiveKnownFlags(values);
  }

  /** Substring matching: any input naming `avx2` also reports plain AVX,
      since `avx` is a substring of `avx2`. */
  lemma Avx2ImpliesAvx(values: string)
    requires Contains(values, "avx2")
    ensures AVX2 <= FlagsOf(values)
    ensures AVX <= FlagsOf(values)
  {
    ContainsAt("avx2", "avx", 0);
    ContainsTransitive(values, "avx2", "avx");
    FlagsOfBits(values);
    assert FlagMappings[4] == ("avx", AVX) && FlagMappings[5] == ("avx2", AVX2);
  }

  /** Whether the feature bitmask `hardwareFlags` supports any bit of `flag`. */
  predicate IsSupported(hardwareFlags: Flags, flag: Flags) {
    hardwareFlags * flag != {}
  }

  /** The outcome of a requirement check. */
  datatype Status = Ok | Error(message: string)

  const AvxRequirementMessage: string :=
    "This machine does not meet the minimum requirements for Impala functionality. The CPU does not support "
    + "AVX2" + " (Advanced Vector Extensions 2)."

  /** On an x86_64 build the host must support AVX2; other builds impose no
      requirement. The failure message names the missing capability. */
  function EnforceCpuRequirements(onX86_64: bool, hardwareFlags: Flags): (s: Status)
    ensures s.Error? <==> onX86_64 && !IsSupported(hardwareFlags, AVX2)
    ensures s.Error? ==> Contains(s.message, "AVX2")
  {
    if onX86_64 && !IsSupported(hardwareFlags, AVX2) then
      ContainsMiddle(
        "This machine does not meet the minimum requirements for Impala functionality. The CPU does not support ",
        "AVX2", " (Advanced Vector Extensions 2).");
      Error(AvxRequirementMessage)
    else
      Ok
  }

  /** The enable guard only asks that `flag` overlap the original features,
      so a flag with one bit the hardware reported and one it did not passes
      the guard and brings in a bit the hardware never had. */
  lemma EnableGuardAdmitsForeignBit(original: Flags, a: Bit, b: Bit)
    requires a in original && b !in original
    ensures var flag := {a, b};
      original * flag != {} && !(original + flag <= original)
  {
    assert a in original * {a, b};
    assert b in original + {a, b};
  }
}
