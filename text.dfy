/**
 * Python string primitives the cleaner and the validator are built from:
 * the whitespace class shared by str.isspace, str.strip and the `\s` of `re`,
 * str.replace, and decimal rendering of integers.
 */
module Text {

  /** CPython's whitespace table (Py_UNICODE_ISSPACE). */
  predicate IsSpace(c: char) {
    || '\t' <= c <= '\r'
    || '\U{1C}' <= c <= ' '
    || c == '\U{85}' || c == '\U{A0}' || c == '\U{1680}'
    || '\U{2000}' <= c <= '\U{200A}'
    || c == '\U{2028}' || c == '\U{2029}' || c == '\U{202F}' || c == '\U{205F}' || c == '\U{3000}'
  }

  predicate IsDigit(c: char) {
    '0' <= c <= '9'
  }

  predicate IsAsciiLetter(c: char) {
    'a' <= c <= 'z' || 'A' <= c <= 'Z'
  }

  /** Length of the longest prefix of s whose characters all satisfy p. */
  function RunLength(s: string, p: char -> bool): (n: nat)
    ensures n <= |s|
    ensures forall i :: 0 <= i < n ==> p(s[i])
    ensures n < |s| ==> !p(s[n])
  {
    if s != [] && p(s[0]) then 1 + RunLength(s[1..], p) else 0
  }

  /** RunLength is determined by where the run ends. */
  lemma RunLengthIs(s: string, p: char -> bool, n: nat)
    requires n <= |s| && (forall i :: 0 <= i < n ==> p(s[i])) && (n < |s| ==> !p(s[n]))
    ensures RunLength(s, p) == n
  {
  }

  function DigitValue(c: char): nat
    requires IsDigit(c)
  {
    c as int - '0' as int
  }

  function LowerChar(c: char): char {
    if 'A' <= c <= 'Z' then (c as int + 32) as char else c
  }

  /** ASCII lower-casing; non-ASCII characters are left alone. */
  function Lower(s: string): (r: string)
    ensures |r| == |s|
    ensures forall i :: 0 <= i < |s| ==> r[i] == LowerChar(s[i])
  {
    seq(|s|, i requires 0 <= i < |s| => LowerChar(s[i]))
  }

  predicate AllSpace(s: string) {
    forall i :: 0 <= i < |s| ==> IsSpace(s[i])
  }

  /** str.lstrip(): the suffix left after the leading whitespace. */
  function StripLeft(s: string): (r: string)
    ensures |r| <= |s| && r == s[|s| - |r|..]
    ensures AllSpace(s[..|s| - |r|])
    ensures r == [] || !IsSpace(r[0])
  {
    if s != [] && IsSpace(s[0]) then StripLeft(s[1..]) else s
  }

  /** The first index at or after i that holds no whitespace, or |s|. */
  function SkipSpace(s: string, i: nat): (k: nat)
    requires i <= |s|
    ensures i <= k <= |s| && (k < |s| ==> !IsSpace(s[k]))
    ensures forall m :: i <= m < k ==> IsSpace(s[m])
    decreases |s| - i
  {
    if i < |s| && IsSpace(s[i]) then SkipSpace(s, i + 1) else i
  }

  /** The index just past the last non-whitespace character in s[lo..j], or lo. */
  function SkipSpaceBack(s: string, lo: nat, j: nat): (k: nat)
    requires lo <= j <= |s|
    ensures lo <= k <= j && (k > lo ==> !IsSpace(s[k - 1]))
    ensures forall m :: k <= m < j ==> IsSpace(s[m])
    decreases j
  {
    if j > lo && IsSpace(s[j - 1]) then SkipSpaceBack(s, lo, j - 1) else j
  }

  /** str.strip() with no argument: the slice between the leading and the trailing whitespace. */
  function Strip(s: string): (r: string)
    ensures r == [] || (!IsSpace(r[0]) && !IsSpace(r[|r| - 1]))
  {
    var i := SkipSpace(s, 0);
    s[i..SkipSpaceBack(s, i, |s|)]
  }

  /** Strip removes exactly the outer whitespace: the result is the slice s[i..j] with whitespace on both sides. */
  lemma StripSlice(s: string) returns (i: nat, j: nat)
    ensures i <= j <= |s| && Strip(s) == s[i..j] && AllSpace(s[..i]) && AllSpace(s[j..])
  {
    i := SkipSpace(s, 0);
    j := SkipSpaceBack(s, i, |s|);
    assert forall k :: 0 <= k < |s[..i]| ==> s[..i][k] == s[k];
    assert forall k :: 0 <= k < |s[j..]| ==> s[j..][k] == s[j + k];
  }

  /** A string without outer whitespace is its own strip. */
  lemma StripNoOuterSpace(s: string)
    requires s == [] || (!IsSpace(s[0]) && !IsSpace(s[|s| - 1]))
    ensures Strip(s) == s
  {
  }

  /** Strip is empty exactly when the string is all whitespace. */
  lemma StripEmptyIffAllSpace(s: string)
    ensures Strip(s) == [] <==> AllSpace(s)
  {
    var i, j := StripSlice(s);
    assert forall k :: 0 <= k < j - i ==> s[i..j][k] == s[i + k];
    if i == j {
      assert forall k :: 0 <= k < |s| ==> (k < i ==> s[..i][k] == s[k]) && (k >= j ==> s[j..][k - j] == s[k]);
    }
  }

  // ---------------------------------------------------------------------------
  // Decimal rendering (str() of an int, f-string `{n}`)
  // ---------------------------------------------------------------------------

  function DigitChar(d: nat): char
    requires d < 10
  {
    ('0' as int + d) as char
  }

  /** Decimal digits of n, most significant first, no leading zero. */
  function NatToString(n: nat): (r: string)
    ensures |r| >= 1 && forall i :: 0 <= i < |r| ==> IsDigit(r[i])
    ensures |r| > 1 ==> r[0] != '0'
  {
    if n < 10 then [DigitChar(n)] else NatToString(n / 10) + [DigitChar(n % 10)]
  }

  function IntToString(i: int): (r: string)
    ensures |r| >= 1
  {
    if i < 0 then "-" + NatToString(-i) else NatToString(i)
  }

  /** The value of a run of ASCII digits, most significant first. */
  function DigitsValue(s: string): nat
    requires forall i :: 0 <= i < |s| ==> IsDigit(s[i])
  {
    if s == [] then 0 else DigitsValue(s[..|s| - 1]) * 10 + DigitValue(s[|s| - 1])
  }

  /** Reading the rendered digits back gives the number. */
  lemma {:induction false} NatToStringRoundTrip(n: nat)
    ensures DigitsValue(NatToString(n)) == n
  {
    if n >= 10 {
      NatToStringRoundTrip(n / 10);
      var r := NatToString(n);
      assert r[..|r| - 1] == NatToString(n / 10);
    }
  }

  // ---------------------------------------------------------------------------
  // str.replace and chained replacement tables
  // ---------------------------------------------------------------------------

  /** str.replace(pat, rep): every non-overlapping occurrence, scanning left to right. */
  function ReplaceAll(s: string, pat: string, rep: string): string
    requires pat != []
    decreases |s|
  {
    if |s| < |pat| then s
    else if s[..|pat|] == pat then rep + ReplaceAll(s[|pat|..], pat, rep)
    else [s[0]] + ReplaceAll(s[1..], pat, rep)
  }

  /** A replacement table: (pattern, replacement) pairs in insertion order. */
  type Table = seq<(string, string)>

  predicate WellFormedTable(t: Table) {
    forall k :: 0 <= k < |t| ==> t[k].0 != []
  }

  /** Each (pattern, replacement) pair of the table applied in turn, in table order. */
  function ReplaceChain(s: string, t: Table): string
    requires WellFormedTable(t)
    decreases |t|
  {
    if t == [] then s else ReplaceChain(ReplaceAll(s, t[0].0, t[0].1), t[1..])
  }

  /** Concatenation of f over the characters of s: a per-character rewrite. */
  function Expand(s: string, f: char -> string): string {
    if s == [] then [] else f(s[0]) + Expand(s[1..], f)
  }

  lemma {:induction false} ExpandConcat(a: string, b: string, f: char -> string)
    ensures Expand(a + b, f) == Expand(a, f) + Expand(b, f)
  {
    if a == [] {
      assert a + b == b;
    } else {
      assert (a + b)[0] == a[0];
      assert (a + b)[1..] == a[1..] + b;
      ExpandConcat(a[1..], b, f);
    }
  }

  lemma {:induction false} ExpandCompose(s: string, f: char -> string, g: char -> string)
    ensures Expand(Expand(s, f), g) == Expand(s, c => Expand(f(c), g))
  {
    if s != [] {
      ExpandConcat(f(s[0]), Expand(s[1..], f), g);
      ExpandCompose(s[1..], f, g);
    }
  }

  lemma {:induction false} ExpandExtensional(s: string, f: char -> string, g: char -> string)
    requires forall c :: f(c) == g(c)
    ensures Expand(s, f) == Expand(s, g)
  {
    if s != [] {
      ExpandExtensional(s[1..], f, g);
    }
  }

  /** When every character maps to exactly one character, the rewrite keeps the length. */
  lemma {:induction false} ExpandLength(s: string, f: char -> string)
    requires forall c :: |f(c)| == 1
    ensures |Expand(s, f)| == |s|
  {
    if s != [] {
      ExpandLength(s[1..], f);
    }
  }

  /** A character absent from every image is absent from the rewrite. */
  lemma {:induction false} ExpandAvoids(s: string, f: char -> string, d: char)
    requires forall c :: d !in f(c)
    ensures d !in Expand(s, f)
  {
    if s != [] {
      ExpandAvoids(s[1..], f, d);
    }
  }

  /** Replacing a single character is a per-character rewrite. */
  lemma {:induction false} ReplaceCharIsExpand(s: string, c: char, rep: string)
    ensures ReplaceAll(s, [c], rep) == Expand(s, x => if x == c then rep else [x])
  {
    if s != [] {
      ReplaceCharIsExpand(s[1..], c, rep);
    }
  }

  predicate SingleCharKeys(t: Table) {
    forall k :: 0 <= k < |t| ==> |t[k].0| == 1
  }

  /**
   * A table whose patterns are single characters acts character by character:
   * the chain equals the rewrite that sends each character c to the chain applied to [c].
   */
  lemma {:induction false} ChainOfCharsIsExpand(s: string, t: Table)
    requires SingleCharKeys(t)
    ensures ReplaceChain(s, t) == Expand(s, c => ReplaceChain([c], t))
    decreases |t|
  {
    if t == [] {
      ExpandIdentity(s);
      ExpandExtensional(s, c => [c], c => ReplaceChain([c], t));
    } else {
      var k, v := t[0].0[0], t[0].1;
      assert t[0].0 == [k];
      var rest := t[1..];
      var step: char -> string := x => if x == k then v else [x];
      var g: char -> string := c => ReplaceChain([c], rest);
      calc {
        ReplaceChain(s, t);
        ReplaceChain(ReplaceAll(s, [k], v), rest);
        { ChainOfCharsIsExpand(ReplaceAll(s, [k], v), rest); }
        Expand(ReplaceAll(s, [k], v), g);
        { ReplaceCharIsExpand(s, k, v);
          ExpandExtensional(s, x => if x == k then v else [x], step); }
        Expand(Expand(s, step), g);
        { ExpandCompose(s, step, g); }
        Expand(s, c => Expand(step(c), g));
        { forall c ensures Expand(step(c), g) == ReplaceChain([c], t) {
            assert ReplaceAll([c], [k], v) == step(c);
            ChainOfCharsIsExpand(step(c), rest);
          }
          ExpandExtensional(s, c => Expand(step(c), g), c => ReplaceChain([c], t)); }
        Expand(s, c => ReplaceChain([c], t));
      }
    }
  }

  lemma {:induction false} ExpandIdentity(s: string)
    ensures Expand(s, c => [c]) == s
  {
    if s != [] {
      ExpandIdentity(s[1..]);
    }
  }

  // ---------------------------------------------------------------------------
  // Subsequences
  // ---------------------------------------------------------------------------

  /** a can be obtained from b by deleting characters. */
  predicate IsSubsequence(a: string, b: string)
    decreases |b|
  {
    if a == [] then true
    else if b == [] then false
    else if a[0] == b[0] then IsSubsequence(a[1..], b[1..])
    else IsSubsequence(a, b[1..])
  }

  /** Deleting a character in front keeps a subsequence a subsequence. */
  lemma {:induction false} SubsequenceDropHead(a: string, s: string)
    requires s != [] && IsSubsequence(a, s[1..])
    ensures IsSubsequence(a, s)
    decreases |s|, 0
  {
    if a != [] && a[0] == s[0] {
      SubsequenceTail(a, s[1..]);
    }
  }

  lemma {:induction false} SubsequenceTail(a: string, t: string)
    requires a != [] && IsSubsequence(a, t)
    ensures IsSubsequence(a[1..], t)
    decreases |t|, 1
  {
    if a[0] == t[0] {
      SubsequenceDropHead(a[1..], t);
    } else {
      SubsequenceTail(a, t[1..]);
      SubsequenceDropHead(a[1..], t);
    }
  }

  lemma {:induction false} SubsequenceOfSuffix(a: string, s: string, n: nat)
    requires n <= |s| && IsSubsequence(a, s[n..])
    ensures IsSubsequence(a, s)
    decreases n
  {
    if n > 0 {
      assert s[1..][n - 1..] == s[n..];
      SubsequenceOfSuffix(a, s[1..], n - 1);
      SubsequenceDropHead(a, s);
    }
  }

  /** A character missing from s is missing from every subsequence of s. */
  lemma {:induction false} SubsequenceAvoids(a: string, s: string, c: char)
    requires IsSubsequence(a, s) && c !in s
    ensures c !in a
    decreases |s|
  {
    if a != [] && s != [] {
      if a[0] == s[0] {
        SubsequenceAvoids(a[1..], s[1..], c);
      } else {
        SubsequenceAvoids(a, s[1..], c);
      }
    }
  }

  // ---------------------------------------------------------------------------
  // Tables of single-character patterns
  // ---------------------------------------------------------------------------

  /** The replacement of the first entry whose pattern is c, or c itself. */
  function Lookup(c: char, t: Table): string {
    if t == [] then [c] else if t[0].0 == [c] then t[0].1 else Lookup(c, t[1..])
  }

  /** No replacement contains the pattern of a later entry, so nothing is rewritten twice. */
  predicate NoRescan(t: Table)
    requires SingleCharKeys(t)
  {
    forall i, j :: 0 <= i < j < |t| ==> t[j].0[0] !in t[i].1
  }

  lemma {:induction false} ReplaceAllAbsent(s: string, k: char, v: string)
    requires k !in s
    ensures ReplaceAll(s, [k], v) == s
  {
    if s != [] {
      assert s[..1] == [s[0]];
      ReplaceAllAbsent(s[1..], k, v);
    }
  }

  lemma {:induction false} ReplaceChainAbsent(s: string, t: Table)
    requires SingleCharKeys(t)
    requires forall j :: 0 <= j < |t| ==> t[j].0[0] !in s
    ensures ReplaceChain(s, t) == s
    decreases |t|
  {
    if t != [] {
      assert t[0].0 == [t[0].0[0]];
      ReplaceAllAbsent(s, t[0].0[0], t[0].1);
      assert forall j :: 0 <= j < |t[1..]| ==> t[1..][j] == t[j + 1];
      ReplaceChainAbsent(s, t[1..]);
    }
  }

  /** On one character, a table without rescanning is a lookup of the first matching entry. */
  lemma {:induction false} ReplaceChainSingle(c: char, t: Table)
    requires SingleCharKeys(t) && NoRescan(t)
    ensures ReplaceChain([c], t) == Lookup(c, t)
    decreases |t|
  {
    if t != [] {
      var k := t[0].0[0];
      assert t[0].0 == [k];
      assert [c][..1] == [c];
      assert ReplaceAll([c], [k], t[0].1) == if c == k then t[0].1 else [c];
      assert forall j :: 0 <= j < |t[1..]| ==> t[1..][j] == t[j + 1];
      if c == k {
        ReplaceChainAbsent(t[0].1, t[1..]);
      } else {
        ReplaceChainSingle(c, t[1..]);
      }
    }
  }

  lemma {:induction false} LookupHit(c: char, t: Table, i: nat)
    requires i < |t| && t[i].0 == [c]
    requires forall k :: 0 <= k < i ==> t[k].0 != [c]
    ensures Lookup(c, t) == t[i].1
    decreases i
  {
    if i > 0 {
      LookupHit(c, t[1..], i - 1);
    }
  }

  lemma {:induction false} LookupMiss(c: char, t: Table)
    requires forall k :: 0 <= k < |t| ==> t[k].0 != [c]
    ensures Lookup(c, t) == [c]
    decreases |t|
  {
    if t != [] {
      LookupMiss(c, t[1..]);
    }
  }

  /** str.replace leaves s alone when pat occurs nowhere in it. */
  lemma {:induction false} ReplaceAllNoOccurrence(s: string, pat: string, rep: string)
    requires pat != []
    requires forall i :: 0 <= i < |s| ==> !(pat <= s[i..])
    ensures ReplaceAll(s, pat, rep) == s
    decreases |s|
  {
    if |s| >= |pat| {
      assert s[0..] == s;
      assert s[..|pat|] != pat;
      forall i | 0 <= i < |s[1..]| ensures !(pat <= s[1..][i..]) {
        assert s[1..][i..] == s[i + 1..];
      }
      ReplaceAllNoOccurrence(s[1..], pat, rep);
      assert [s[0]] + s[1..] == s;
    }
  }

  /** A pattern whose first character can only occur at the head of s, where the pattern does not start. */
  lemma ReplaceAllHeadOnly(s: string, pat: string, rep: string)
    requires pat != [] && s != [] && pat[0] !in s[1..] && !(pat <= s)
    ensures ReplaceAll(s, pat, rep) == s
  {
    ReplaceAllNoOccurrence(s, pat, rep);
  }

  /** The chain applies its first two pairs, then the rest of the table. */
  lemma ChainTwo(s: string, t: Table, s1: string, s2: string)
    requires WellFormedTable(t) && |t| >= 2
    requires ReplaceAll(s, t[0].0, t[0].1) == s1 && ReplaceAll(s1, t[1].0, t[1].1) == s2
    ensures ReplaceChain(s, t) == ReplaceChain(s2, t[2..])
  {
    assert t[1..][0] == t[1] && t[1..][1..] == t[2..];
  }

  /** An occurrence at the very start is replaced and the scan resumes after it. */
  lemma ReplaceAllLeading(pat: string, rest: string, rep: string)
    requires pat != []
    ensures ReplaceAll(pat + rest, pat, rep) == rep + ReplaceAll(rest, pat, rep)
  {
    var s := pat + rest;
    assert s[..|pat|] == pat && s[|pat|..] == rest;
  }

  /** A table none of whose patterns occurs anywhere in s leaves s alone. */
  lemma {:induction false} ReplaceChainNoOccurrence(s: string, t: Table)
    requires WellFormedTable(t)
    requires forall k, i :: 0 <= k < |t| && 0 <= i < |s| ==> !(t[k].0 <= s[i..])
    ensures ReplaceChain(s, t) == s
    decreases |t|
  {
    if t != [] {
      ReplaceAllNoOccurrence(s, t[0].0, t[0].1);
      assert forall k :: 0 <= k < |t[1..]| ==> t[1..][k] == t[k + 1];
      ReplaceChainNoOccurrence(s, t[1..]);
    }
  }

  /**
   * The narrower test the examples use: each pattern's first character occurs in s at most
   * at its head, and no pattern starts s, so no pattern occurs in s and the table leaves it alone.
   */
  lemma {:induction false} ReplaceChainHeadOnly(s: string, t: Table)
    requires WellFormedTable(t) && s != []
    requires forall k :: 0 <= k < |t| ==> t[k].0[0] !in s[1..] && !(t[k].0 <= s)
    ensures ReplaceChain(s, t) == s
    decreases |t|
  {
    if t != [] {
      ReplaceAllHeadOnly(s, t[0].0, t[0].1);
      assert forall k :: 0 <= k < |t[1..]| ==> t[1..][k] == t[k + 1];
      ReplaceChainHeadOnly(s, t[1..]);
    }
  }
}
