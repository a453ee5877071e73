/** String helpers the CPU inventory scan relies on: whitespace trimming (as
    boost::algorithm::trim does it in the C locale) and substring search (as
    boost::algorithm::contains does it). */
module Strings {

  /** The characters the C locale classifies as white space. */
  predicate IsSpace(c: char) {
    c == ' ' || c == '\t' || c == '\n' || c == '\r' || c == '\U{000B}' || c == '\U{000C}'
  }

  predicate AllSpace(s: string) {
    forall k :: 0 <= k < |s| ==> IsSpace(s[k])
  }

  /** Drops white space at both ends of `s`, first from the front, then
      from the back. */
  function Trim(s: string): string
    decreases |s|
  {
    if s != [] && IsSpace(s[0]) then Trim(s[1..])
    else if s != [] && IsSpace(s[|s| - 1]) then Trim(s[..|s| - 1])
    else s
  }

  /** `r` stands in `s` at `i`, with only white space around it. */
  predicate SurroundedAt(s: string, r: string, i: nat) {
    i + |r| <= |s| && s[i..i + |r|] == r && AllSpace(s[..i]) && AllSpace(s[i + |r|..])
  }

  /** Putting one white-space character in front moves the slice by one. */
  lemma SurroundedAtFront(s: string, r: string, j: nat)
    requires s != [] && IsSpace(s[0]) && SurroundedAt(s[1..], r, j)
    ensures SurroundedAt(s, r, j + 1)
  {
    assert forall k :: 0 <= k < |r| ==> r[k] == s[1..][j + k] == s[j + 1 + k];
    assert s[..j + 1] == [s[0]] + s[1..][..j];
    assert s[j + 1 + |r|..] == s[1..][j + |r|..];
  }

  /** Putting one white-space character behind keeps the slice in place. */
  lemma SurroundedAtBack(s: string, r: string, j: nat)
    requires s != [] && IsSpace(s[|s| - 1]) && SurroundedAt(s[..|s| - 1], r, j)
    ensures SurroundedAt(s, r, j)
  {
    var t := s[..|s| - 1];
    assert s[j..j + |r|] == t[j..j + |r|];
    assert s[..j] == t[..j];
    assert s[j + |r|..] == t[j + |r|..] + [s[|s| - 1]];
  }

  /** Trimming only removes white space: the result is the slice of `s`
      at `i`, and everything outside that slice is white space. */
  lemma {:induction false} TrimSlice(s: string) returns (i: nat)
    ensures SurroundedAt(s, Trim(s), i)
    decreases |s|
  {
    if s != [] && IsSpace(s[0]) {
      var j := TrimSlice(s[1..]);
      SurroundedAtFront(s, Trim(s), j);
      i := j + 1;
    } else if s != [] && IsSpace(s[|s| - 1]) {
      i := TrimSlice(s[..|s| - 1]);
      SurroundedAtBack(s, Trim(s), i);
    } else {
      i := 0;
      assert s[0..0 + |s|] == s;
    }
  }

  /** The result of trimming neither starts nor ends with white space. */
  lemma {:induction false} TrimEnds(s: string)
    ensures var r := Trim(s);
      r == [] || (!IsSpace(r[0]) && !IsSpace(r[|r| - 1]))
    decreases |s|
  {
    if s != [] && IsSpace(s[0]) {
      TrimEnds(s[1..]);
    } else if s != [] && IsSpace(s[|s| - 1]) {
      TrimEnds(s[..|s| - 1]);
    }
  }

  /** Trimming is exact: surrounding a text that neither starts nor ends with
      white space by white space, and trimming, gives the text back. */
  lemma {:induction false} TrimSurrounded(pre: string, text: string, post: string)
    requires AllSpace(pre) && AllSpace(post)
    requires text == [] || (!IsSpace(text[0]) && !IsSpace(text[|text| - 1]))
    ensures Trim(pre + text + post) == text
    decreases |pre| + |post|
  {
    var s := pre + text + post;
    if pre != [] {
      assert s[0] == pre[0];
      assert s[1..] == pre[1..] + text + post;
      TrimSurrounded(pre[1..], text, post);
    } else if text == [] && post != [] {
      assert s == post;
      assert s[1..] == [] + [] + post[1..];
      TrimSurrounded([], [], post[1..]);
    } else if post != [] {
      assert s[0] == text[0];
      assert s[|s| - 1] == post[|post| - 1];
      assert s[..|s| - 1] == [] + text + post[..|post| - 1];
      TrimSurrounded([], text, post[..|post| - 1]);
    } else {
      assert s == text;
    }
  }

  /** Trimming twice trims no more than trimming once. */
  lemma TrimIdempotent(s: string)
    ensures Trim(Trim(s)) == Trim(s)
  {
    var t := Trim(s);
    TrimEnds(s);
    TrimSurrounded([], t, []);
    assert [] + t + [] == t;
  }

  /** `t` occurs in `s` as a contiguous substring. */
  predicate Contains(s: string, t: string)
    decreases |s|
  {
    t <= s || (|s| > 0 && Contains(s[1..], t))
  }

  /** An occurrence of `t` at position `i` of `s` makes `s` contain `t`. */
  lemma {:induction false} ContainsAt(s: string, t: string, i: nat)
    requires i + |t| <= |s| && s[i..i + |t|] == t
    ensures Contains(s, t)
  {
    if i > 0 {
      assert s[1..][i - 1..i - 1 + |t|] == s[i..i + |t|];
      ContainsAt(s[1..], t, i - 1);
    } else {
      assert t <= s;
    }
  }

  /** A text contains whatever stands in its middle. */
  lemma ContainsMiddle(a: string, t: string, b: string)
    ensures Contains(a + t + b, t)
  {
    assert (a + t + b)[|a|..|a| + |t|] == t;
    ContainsAt(a + t + b, t, |a|);
  }

  /** The words of `words` separated by single spaces. */
  function JoinSpaced(words: seq<string>): string {
    if |words| == 0 then ""
    else if |words| == 1 then words[0]
    else words[0] + " " + JoinSpaced(words[1..])
  }

  /** Text put in front keeps what a text contains. */
  lemma {:induction false} ContainsPrefixed(p: string, s: string, t: string)
    requires Contains(s, t)
    ensures Contains(p + s, t)
    decreases |p|
  {
    if p != [] {
      ContainsPrefixed(p[1..], s, t);
      assert (p + s)[1..] == p[1..] + s;
    } else {
      assert p + s == s;
    }
  }

  /** Every word of a space-separated list occurs in it. */
  lemma {:induction false} JoinSpacedContains(words: seq<string>, k: nat)
    requires k < |words|
    ensures Contains(JoinSpaced(words), words[k])
  {
    if |words| == 1 {
      ContainsMiddle([], words[0], []);
      assert [] + words[0] + [] == words[0];
    } else if k == 0 {
      ContainsMiddle([], words[0], " " + JoinSpaced(words[1..]));
      assert [] + words[0] + (" " + JoinSpaced(words[1..])) == JoinSpaced(words);
    } else {
      JoinSpacedContains(words[1..], k - 1);
      ContainsPrefixed(words[0] + " ", JoinSpaced(words[1..]), words[k]);
    }
  }

  /** Every containment has a witness position. */
  lemma {:induction false} ContainsWitness(s: string, t: string) returns (i: nat)
    requires Contains(s, t)
    ensures i + |t| <= |s| && s[i..i + |t|] == t
    decreases |s|
  {
    if t <= s {
      i := 0;
    } else {
      var j := ContainsWitness(s[1..], t);
      assert s[1..][j..j + |t|] == s[j + 1..j + 1 + |t|];
      i := j + 1;
    }
  }

  /** Containment is transitive: what a substring of `s` contains, `s` contains. */
  lemma ContainsTransitive(s: string, t: string, u: string)
    requires Contains(s, t) && Contains(t, u)
    ensures Contains(s, u)
  {
    var i := ContainsWitness(s, t);
    var j := ContainsWitness(t, u);
    forall k | 0 <= k < |u|
      ensures s[i + j + k] == u[k]
    {
      assert u[k] == t[j + k] == s[i..i + |t|][j + k];
    }
    assert s[i + j..i + j + |u|] == u;
    ContainsAt(s, u, i + j);
  }

  /** A text that lacks some character of `t` cannot contain `t`. */
  lemma {:induction false} MissingCharNotContained(s: string, t: string, c: char)
    requires c in t && c !in s
    ensures !Contains(s, t)
    decreases |s|
  {
    if |s| > 0 {
      assert forall k :: 0 <= k < |s[1..]| ==> s[1..][k] == s[k + 1];
      MissingCharNotContained(s[1..], t, c);
    }
  }
}
