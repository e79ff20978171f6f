/**
 * The string operations the turn assembler relies on: `str.lower`, the `in`
 * substring test, `str.startswith`, `str.split(d)[0]`, `str.strip` and
 * `"".join`. Case mapping and whitespace are restricted to ASCII.
 */
module Text {

  /** ASCII lower-casing of one character; every other character is kept. */
  function LowerChar(c: char): char {
    if 'A' <= c <= 'Z' then (c as int + 32) as char else c
  }

  /** `s.lower()`, character by character. */
  function ToLower(s: string): string {
    seq(|s|, i requires 0 <= i < |s| => LowerChar(s[i]))
  }

  /** Two characters that are equal once ASCII letters are lower-cased. */
  predicate SameUpToCase(a: char, b: char) {
    LowerChar(a) == LowerChar(b)
  }

  /**
   * Strings that differ only in the case of ASCII letters lower-case to the same
   * string, and only those do.
   */
  lemma ToLowerCaseBlind(s: string, t: string)
    ensures ToLower(s) == ToLower(t) <==> |s| == |t| && forall i :: 0 <= i < |s| ==> SameUpToCase(s[i], t[i])
  {
    if ToLower(s) == ToLower(t) {
      forall i | 0 <= i < |s| ensures SameUpToCase(s[i], t[i]) {
        assert ToLower(s)[i] == ToLower(t)[i];
      }
    }
  }

  /** `sub` appears in `s` starting at index `i`. */
  predicate OccursAt(s: string, sub: string, i: int) {
    0 <= i && i + |sub| <= |s| && s[i..i + |sub|] == sub
  }

  /** `s.startswith(prefix)`. */
  predicate StartsWith(s: string, prefix: string) {
    |prefix| <= |s| && s[..|prefix|] == prefix
  }

  /** `sub in s`, scanning from the left. */
  predicate Contains(s: string, sub: string)
    decreases |s|
  {
    StartsWith(s, sub) || (|s| > 0 && Contains(s[1..], sub))
  }

  /** The scan finds `sub` exactly when some index of `s` starts an occurrence. */
  lemma {:induction false} ContainsIff(s: string, sub: string)
    ensures Contains(s, sub) <==> exists i :: OccursAt(s, sub, i)
    decreases |s|
  {
    if StartsWith(s, sub) {
      assert OccursAt(s, sub, 0);
    } else if |s| == 0 {
      assert forall i :: !OccursAt(s, sub, i);
    } else {
      ContainsIff(s[1..], sub);
      if Contains(s[1..], sub) {
        var j :| OccursAt(s[1..], sub, j);
        assert s[1..][j..j + |sub|] == s[j + 1..j + 1 + |sub|];
        assert OccursAt(s, sub, j + 1);
      } else {
        forall i | 0 < i && i + |sub| <= |s| ensures !OccursAt(s, sub, i) {
          assert !OccursAt(s[1..], sub, i - 1);
          assert s[1..][i - 1..i - 1 + |sub|] == s[i..i + |sub|];
        }
      }
    }
  }

  /** A character of `sub` that `s` lacks rules out `sub in s`. */
  lemma ContainsNeedsChar(s: string, sub: string, c: char)
    requires c in sub && c !in s
    ensures !Contains(s, sub)
  {
    ContainsIff(s, sub);
  }

  /** `s.split(delim)[0]`: the text before the first occurrence of `delim`, or all of `s`. */
  function FirstSegment(s: string, delim: string): (r: string)
    requires |delim| > 0
    ensures |r| <= |s| && r == s[..|r|]
    decreases |s|
  {
    if |s| == 0 || StartsWith(s, delim) then "" else [s[0]] + FirstSegment(s[1..], delim)
  }

  lemma DropOneSlice(s: string, a: nat, b: nat)
    requires 0 < |s| && a <= b <= |s| - 1
    ensures s[1..][a..b] == s[a + 1..b + 1]
  {
    assert |s[1..][a..b]| == b - a;
    forall k | 0 <= k < b - a ensures s[1..][a..b][k] == s[a + 1..b + 1][k] {
    }
  }

  /** No `delim` starts inside the first segment ... */
  lemma {:induction false} FirstSegmentNoEarlier(s: string, delim: string)
    requires |delim| > 0
    ensures forall i :: 0 <= i < |FirstSegment(s, delim)| ==> !OccursAt(s, delim, i)
    decreases |s|
  {
    if |s| > 0 && !StartsWith(s, delim) {
      var t := FirstSegment(s[1..], delim);
      FirstSegmentNoEarlier(s[1..], delim);
      forall i | 0 < i <= |t| ensures !OccursAt(s, delim, i) {
        if i + |delim| <= |s| {
          assert !OccursAt(s[1..], delim, i - 1);
          DropOneSlice(s, i - 1, i - 1 + |delim|);
        }
      }
    }
  }

  /** ... and one starts right after it, unless the segment is all of `s`. */
  lemma {:induction false} FirstSegmentEndsAtDelim(s: string, delim: string)
    requires |delim| > 0
    ensures |FirstSegment(s, delim)| < |s| ==> OccursAt(s, delim, |FirstSegment(s, delim)|)
    decreases |s|
  {
    if |s| > 0 && StartsWith(s, delim) {
      assert s[..|delim|] == s[0..0 + |delim|];
    } else if |s| > 0 {
      var t := FirstSegment(s[1..], delim);
      FirstSegmentEndsAtDelim(s[1..], delim);
      if |t| < |s[1..]| {
        DropOneSlice(s, |t|, |t| + |delim|);
      }
    }
  }

  /** The first segment is the prefix of `s` that ends where the first `delim` begins. */
  lemma FirstSegmentSpec(s: string, delim: string)
    requires |delim| > 0
    ensures var r := FirstSegment(s, delim);
      (forall i :: 0 <= i < |r| ==> !OccursAt(s, delim, i)) &&
      (|r| < |s| ==> OccursAt(s, delim, |r|))
  {
    FirstSegmentNoEarlier(s, delim);
    FirstSegmentEndsAtDelim(s, delim);
  }

  /** The first segment ends at whichever index holds the first `delim`. */
  lemma FirstSegmentAt(s: string, delim: string, n: nat)
    requires |delim| > 0 && n < |s|
    requires OccursAt(s, delim, n)
    requires forall i :: 0 <= i < n ==> !OccursAt(s, delim, i)
    ensures FirstSegment(s, delim) == s[..n]
  {
    FirstSegmentSpec(s, delim);
    var r := FirstSegment(s, delim);
    assert |r| == n;
  }

  /** Without any `delim` in `s`, the first segment is the whole string; with one, it is shorter. */
  lemma FirstSegmentWhole(s: string, delim: string)
    requires |delim| > 0
    ensures FirstSegment(s, delim) == s <==> !Contains(s, delim)
  {
    FirstSegmentSpec(s, delim);
    ContainsIff(s, delim);
    var r := FirstSegment(s, delim);
    if Contains(s, delim) {
      var i :| OccursAt(s, delim, i);
      assert i < |s|;
      assert |r| < |s|;
    } else {
      assert r == s[..|s|] == s;
    }
  }

  /** Python's `str.isspace` restricted to ASCII: tab to carriage return, the four separators and space. */
  predicate IsSpace(c: char) {
    9 <= c as int <= 13 || 28 <= c as int <= 32
  }

  predicate AllSpace(s: string) {
    forall i :: 0 <= i < |s| ==> IsSpace(s[i])
  }

  /** The number of whitespace characters `s` begins with: all of them are, the next is not. */
  function LeadingSpaces(s: string): (n: nat)
    ensures n <= |s| && AllSpace(s[..n]) && (n < |s| ==> !IsSpace(s[n]))
  {
    if |s| > 0 && IsSpace(s[0]) then
      var n := LeadingSpaces(s[1..]);
      LeadingStep(s, n);
      n + 1
    else 0
  }

  lemma LeadingStep(s: string, n: nat)
    requires 0 < |s| && IsSpace(s[0]) && n <= |s| - 1 && AllSpace(s[1..][..n])
    ensures AllSpace(s[..n + 1]) && (n < |s| - 1 ==> s[n + 1] == s[1..][n])
  {
    var p := s[..n + 1];
    forall k | 0 < k < |p| ensures IsSpace(p[k]) {
      assert p[k] == s[1..][..n][k - 1];
    }
  }

  /** The length of `s` without its trailing whitespace: all after it is space, the last kept is not. */
  function KeptLength(s: string): (n: nat)
    ensures n <= |s| && AllSpace(s[n..]) && (n > 0 ==> !IsSpace(s[n - 1]))
  {
    if |s| > 0 && IsSpace(s[|s| - 1]) then
      var n := KeptLength(s[..|s| - 1]);
      TrailingStep(s, n);
      n
    else |s|
  }

  lemma TrailingStep(s: string, n: nat)
    requires 0 < |s| && IsSpace(s[|s| - 1]) && n <= |s| - 1 && AllSpace(s[..|s| - 1][n..])
    ensures AllSpace(s[n..]) && (n > 0 ==> s[n - 1] == s[..|s| - 1][n - 1])
  {
    forall k | 0 <= k < |s| - n - 1 ensures IsSpace(s[n..][k]) {
      assert s[n..][k] == s[..|s| - 1][n..][k];
    }
  }

  /** Leading whitespace removed. */
  function TrimStart(s: string): string {
    s[LeadingSpaces(s)..]
  }

  /** Trailing whitespace removed. */
  function TrimEnd(s: string): string {
    s[..KeptLength(s)]
  }

  /** `s.strip()`. */
  function Strip(s: string): string {
    TrimEnd(TrimStart(s))
  }

  /** The stripped text is the slice of `s` after its leading spaces, with only whitespace after it. */
  lemma {:induction false} StripSlice(s: string)
    ensures var r := Strip(s); var i := LeadingSpaces(s);
      OccursAt(s, r, i) && AllSpace(s[..i]) && AllSpace(s[i + |r|..])
  {
    var i := LeadingSpaces(s);
    SliceOfSuffix(s, i, KeptLength(s[i..]));
  }

  lemma SliceOfSuffix(s: string, i: nat, m: nat)
    requires i + m <= |s|
    ensures s[i..][..m] == s[i..i + m] && s[i..][m..] == s[i + m..]
  {
  }

  /** The stripped text neither begins nor ends with whitespace. */
  lemma StripEnds(s: string)
    ensures var r := Strip(s); r == [] || (!IsSpace(r[0]) && !IsSpace(r[|r| - 1]))
  {
    var i := LeadingSpaces(s);
    var t := s[i..];
    var m := KeptLength(t);
    if m > 0 {
      assert Strip(s)[0] == s[i];
      assert Strip(s)[m - 1] == t[m - 1];
    }
  }

  /** Stripping leaves nothing exactly when `s` is all whitespace. */
  lemma StripEmpty(s: string)
    ensures Strip(s) == [] <==> AllSpace(s)
  {
    var i := LeadingSpaces(s);
    var t := s[i..];
    if Strip(s) == [] {
      assert KeptLength(t) == 0;
      forall k | 0 <= k < |s| ensures IsSpace(s[k]) {
        assert s[k] == s[..i][k];
      }
    }
  }

  /** A string that neither begins nor ends with whitespace is left as it is. */
  lemma StripKeeps(s: string)
    requires s == [] || (!IsSpace(s[0]) && !IsSpace(s[|s| - 1]))
    ensures Strip(s) == s
  {
    assert LeadingSpaces(s) == 0;
    assert s[0..] == s;
    assert KeptLength(s) == |s|;
  }

  /** `"".join(parts)`. */
  function Concat(parts: seq<string>): string {
    if parts == [] then "" else parts[0] + Concat(parts[1..])
  }

  lemma {:induction false} ConcatAppend(a: seq<string>, b: seq<string>)
    ensures Concat(a + b) == Concat(a) + Concat(b)
  {
    if a == [] {
      assert a + b == b;
    } else {
      assert (a + b)[0] == a[0];
      assert (a + b)[1..] == a[1..] + b;
      ConcatAppend(a[1..], b);
    }
  }

  /** A prefix test only looks at the first `|p|` characters, so appending text keeps it. */
  lemma StartsWithExtend(s: string, extra: string, p: string)
    requires |p| <= |s|
    ensures StartsWith(s + extra, p) <==> StartsWith(s, p)
  {
    assert (s + extra)[..|p|] == s[..|p|];
  }
}
