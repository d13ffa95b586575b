/** String operations the app relies on, with the semantics of the host language's library. */
module Text {
  import opened Common

  /** Java's String.trim() treats every character at or below U+0020 as space. */
  predicate IsTrimSpace(c: char) {
    c <= ' '
  }

  /** The number of space characters `s` starts with. */
  function LeadingSpaces(s: string): (n: nat)
    ensures n <= |s|
    ensures forall k :: 0 <= k < n ==> IsTrimSpace(s[k])
    ensures n < |s| ==> !IsTrimSpace(s[n])
  {
    if |s| > 0 && IsTrimSpace(s[0]) then 1 + LeadingSpaces(s[1..]) else 0
  }

  function TrimEnd(s: string): (r: string)
    ensures |r| <= |s| && r == s[..|r|]
    ensures forall i :: |r| <= i < |s| ==> IsTrimSpace(s[i])
    ensures |r| == 0 || !IsTrimSpace(r[|r| - 1])
  {
    if |s| > 0 && IsTrimSpace(s[|s| - 1]) then TrimEnd(s[..|s| - 1]) else s
  }

  /** Java's String.trim(): `s` without its leading and trailing space characters. */
  function Trim(s: string): (r: string)
    ensures LeadingSpaces(s) + |r| <= |s|
    ensures r == s[LeadingSpaces(s)..LeadingSpaces(s) + |r|]
    ensures forall k :: LeadingSpaces(s) + |r| <= k < |s| ==> IsTrimSpace(s[k])
    ensures |r| == 0 || (!IsTrimSpace(r[0]) && !IsTrimSpace(r[|r| - 1]))
  {
    TrimEnd(s[LeadingSpaces(s)..])
  }

  /** The UTF-16 code units one character takes: two beyond U+FFFF (a surrogate pair), else one. */
  function Utf16Units(c: char): nat {
    if c as int >= 0x10000 then 2 else 1
  }

  /** Java's String.length(): the number of UTF-16 code units, not of characters. */
  function Utf16Length(s: string): (n: nat)
    ensures |s| <= n <= 2 * |s|
    ensures n == |s| <==> forall i :: 0 <= i < |s| ==> s[i] as int < 0x10000
  {
    if |s| == 0 then 0
    else
      var n := Utf16Units(s[0]) + Utf16Length(s[1..]);
      assert forall i :: 1 <= i < |s| ==> s[i] == s[1..][i - 1];
      n
  }

  function LowerChar(c: char): char {
    if 'A' <= c <= 'Z' then (c as int + 32) as char else c
  }

  /** String.toLowerCase() restricted to the ASCII letters. */
  function ToLower(s: string): (r: string)
    ensures |r| == |s|
    ensures forall i :: 0 <= i < |s| ==> r[i] == LowerChar(s[i])
  {
    if |s| == 0 then "" else [LowerChar(s[0])] + ToLower(s[1..])
  }

  /** The index of the first `c` in `s`, or |s| when there is none. */
  function FirstIndex(s: string, c: char): (r: nat)
    ensures r <= |s|
    ensures forall k :: 0 <= k < r ==> s[k] != c
    ensures r < |s| ==> s[r] == c
  {
    if |s| == 0 then 0 else if s[0] == c then 0 else 1 + FirstIndex(s[1..], c)
  }

  /** The pieces of `s` between occurrences of `sep` (at least one piece, possibly empty). */
  function SplitOn(s: string, sep: char): (parts: seq<string>)
    ensures |parts| >= 1
    decreases |s|
  {
    var i := FirstIndex(s, sep);
    if i == |s| then [s] else [s[..i]] + SplitOn(s[i + 1..], sep)
  }

  lemma FirstIndexOfJoin(a: string, sep: char, b: string)
    requires sep !in a
    ensures FirstIndex(a + [sep] + b, sep) == |a|
  {
    var s := a + [sep] + b;
    assert s[|a|] == sep;
    assert forall k :: 0 <= k < |a| ==> s[k] == a[k];
  }

  /** The first `c` of a concatenation is the first one of its left part, if it has one. */
  lemma {:induction false} FirstIndexConcat(a: string, b: string, c: char)
    ensures FirstIndex(a + b, c) == if FirstIndex(a, c) < |a| then FirstIndex(a, c) else |a| + FirstIndex(b, c)
  {
    if |a| == 0 {
      assert a + b == b;
    } else if a[0] != c {
      assert (a + b)[1..] == a[1..] + b;
      FirstIndexConcat(a[1..], b, c);
    }
  }

  lemma FirstIndexAbsent(s: string, c: char)
    requires c !in s
    ensures FirstIndex(s, c) == |s|
  {
    assert forall k :: 0 <= k < |s| ==> s[k] in s;
  }

  lemma SplitOnNoSep(a: string, sep: char)
    requires sep !in a
    ensures SplitOn(a, sep) == [a]
  {
    FirstIndexAbsent(a, sep);
  }

  /** Splitting undoes one join: a piece free of `sep` comes back whole. */
  lemma SplitOnJoin(a: string, sep: char, b: string)
    requires sep !in a
    ensures SplitOn(a + [sep] + b, sep) == [a] + SplitOn(b, sep)
  {
    var s := a + [sep] + b;
    FirstIndexOfJoin(a, sep, b);
    assert s[..|a|] == a;
    assert s[|a| + 1..] == b;
  }

  /** `pat` occurs in `s` at position `i`. */
  predicate OccursAt(s: string, pat: string, i: int) {
    0 <= i && i + |pat| <= |s| && s[i..i + |pat|] == pat
  }

  ghost predicate Contains(s: string, pat: string) {
    exists i :: OccursAt(s, pat, i)
  }

  /** JavaScript's indexOf: the first position where `pat` occurs in `s`. */
  function IndexOf(s: string, pat: string): (r: Option<nat>)
    ensures r.Some? ==> OccursAt(s, pat, r.value) && forall j :: 0 <= j < r.value ==> !OccursAt(s, pat, j)
    ensures r.None? ==> !Contains(s, pat)
    decreases |s|
  {
    if |s| < |pat| then
      assert forall j :: !OccursAt(s, pat, j);
      None
    else if s[..|pat|] == pat then
      Some(0)
    else
      match IndexOf(s[1..], pat)
      case None =>
        assert forall j :: 1 <= j ==> OccursAt(s, pat, j) ==> OccursAt(s[1..], pat, j - 1);
        None
      case Some(k) =>
        assert forall j :: 1 <= j ==> OccursAt(s, pat, j) ==> OccursAt(s[1..], pat, j - 1);
        assert OccursAt(s[1..], pat, k) ==> OccursAt(s, pat, k + 1);
        Some(k + 1)
  }

  /** Concatenation of `parts` with `sep` between neighbours. */
  function Join(parts: seq<string>, sep: string): string {
    if |parts| == 0 then "" else if |parts| == 1 then parts[0] else parts[0] + sep + Join(parts[1..], sep)
  }

  /**
   * JavaScript's String.prototype.split with a non-empty string separator: cut at each
   * occurrence found scanning left to right, resuming after the occurrence.
   */
  function JsSplit(s: string, pat: string): (parts: seq<string>)
    requires |pat| > 0
    ensures |parts| >= 1
    ensures Join(parts, pat) == s
    ensures forall k :: 0 <= k < |parts| ==> !Contains(parts[k], pat)
    decreases |s|
  {
    match IndexOf(s, pat)
    case None => [s]
    case Some(i) =>
      var head := s[..i];
      var rest := JsSplit(s[i + |pat|..], pat);
      assert forall j :: OccursAt(head, pat, j) ==> OccursAt(s, pat, j);
      assert s == head + pat + s[i + |pat|..];
      [head] + rest
  }

  /** Each piece but the last, followed by the separator, has its first occurrence of the separator right after the piece. */
  predicate CutsLeftmost(parts: seq<string>, pat: string) {
    forall k :: 0 <= k < |parts| - 1 ==> IndexOf(parts[k] + pat, pat) == Some(|parts[k]|)
  }

  /** Every cut JsSplit makes is at the leftmost occurrence of the separator. */
  lemma {:induction false} JsSplitCutsLeftmost(s: string, pat: string)
    requires |pat| > 0
    ensures CutsLeftmost(JsSplit(s, pat), pat)
    decreases |s|
  {
    match IndexOf(s, pat)
    case None =>
    case Some(i) =>
      var rest := JsSplit(s[i + |pat|..], pat);
      JsSplitCutsLeftmost(s[i + |pat|..], pat);
      assert CutsLeftmost(rest, pat);
      FirstOccurrenceCut(s, pat, i);
      var head := s[..i];
      assert IndexOf(head + pat, pat) == Some(|head|);
      CutsLeftmostCons(head, rest, pat);
  }

  lemma CutsLeftmostCons(head: string, rest: seq<string>, pat: string)
    requires |rest| >= 1 && CutsLeftmost(rest, pat)
    requires IndexOf(head + pat, pat) == Some(|head|)
    ensures CutsLeftmost([head] + rest, pat)
  {
    var parts := [head] + rest;
    forall k | 0 <= k < |parts| - 1
      ensures IndexOf(parts[k] + pat, pat) == Some(|parts[k]|)
    {
      if k > 0 {
        assert parts[k] == rest[k - 1];
      }
    }
  }

  /** The text up to and including the first occurrence of `pat` has it first at the cut. */
  lemma FirstOccurrenceCut(s: string, pat: string, i: nat)
    requires IndexOf(s, pat) == Some(i)
    ensures IndexOf(s[..i] + pat, pat) == Some(i)
  {
    var t := s[..i] + pat;
    assert s[i..i + |pat|] == pat;
    assert t[i..i + |pat|] == pat;
    forall j | 0 <= j < i
      ensures !OccursAt(t, pat, j)
    {
      assert !OccursAt(s, pat, j);
      assert t[j..j + |pat|] == s[j..j + |pat|] by {
        assert forall q :: 0 <= q < i + |pat| ==> t[q] == s[q];
      }
    }
    IndexOfFirst(t, pat, i);
  }

  /** An occurrence with none before it is the one indexOf finds. */
  lemma IndexOfFirst(s: string, pat: string, i: nat)
    requires OccursAt(s, pat, i)
    requires forall j :: 0 <= j < i ==> !OccursAt(s, pat, j)
    ensures IndexOf(s, pat) == Some(i)
  {
    var r := IndexOf(s, pat);
    assert r.Some?;
    if r.value > i {
      assert false;
    }
  }
}
