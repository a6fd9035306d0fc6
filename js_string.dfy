/**
 The JavaScript string built-ins that App.js relies on, written out over
 `seq<char>`: `indexOf`, `trim`, `replace` with a string pattern, `padStart`
 and `Number.prototype.toString` for non-negative integers.
 */
module JsString {

  /** JavaScript's `false` placeholder for "no value yet" becomes None. */
  datatype Option<+T> = None | Some(value: T)

  /** `pat` occurs in `s` starting at index `k`. */
  predicate OccursAt(s: string, pat: string, k: nat) {
    k + |pat| <= |s| && s[k..k + |pat|] == pat
  }

  /** `k` is the first index at which `pat` occurs in `s`. */
  predicate FirstOccurrence(s: string, pat: string, k: nat) {
    OccursAt(s, pat, k) && forall j: nat | j < k :: !OccursAt(s, pat, j)
  }

  predicate StartsWith(s: string, pat: string) {
    OccursAt(s, pat, 0)
  }

  predicate EndsWith(s: string, pat: string) {
    |pat| <= |s| && OccursAt(s, pat, |s| - |pat|)
  }

  /** The search of `indexOf`, from index `from` on. */
  function IndexFrom(s: string, pat: string, from: nat): (r: int)
    requires from <= |s|
    decreases |s| - from
    ensures r == -1 || from <= r <= |s|
    ensures r >= 0 ==> OccursAt(s, pat, r)
    ensures forall k: nat | from <= k && (r == -1 || k < r) :: !OccursAt(s, pat, k)
  {
    if OccursAt(s, pat, from) then from
    else if from == |s| then -1
    else IndexFrom(s, pat, from + 1)
  }

  /** `s.indexOf(pat)`: the first index of `pat` in `s`, or -1 when it does not occur. */
  function IndexOf(s: string, pat: string): (r: int)
    ensures r >= -1
    ensures r >= 0 ==> FirstOccurrence(s, pat, r)
    ensures r == -1 <==> forall k: nat :: !OccursAt(s, pat, k)
  {
    IndexFrom(s, pat, 0)
  }

  /** An occurrence at `q` is an occurrence in the suffix from `i` at `q - i`, and back. */
  lemma OccursInSuffix(s: string, pat: string, i: nat, q: nat)
    requires i <= q && i <= |s|
    ensures OccursAt(s[i..], pat, q - i) <==> OccursAt(s, pat, q)
  {
    if q + |pat| <= |s| {
      assert s[i..][q - i..q - i + |pat|] == s[q..q + |pat|];
    }
  }

  /** The suffix from where `indexOf` finds `pat` starts with `pat`. */
  lemma IndexOfStartsSuffix(s: string, pat: string, i: nat)
    requires IndexOf(s, pat) == i
    ensures i <= |s| && StartsWith(s[i..], pat)
  {
    assert s[i..][..|pat|] == s[i..i + |pat|];
  }

  /**
   `s.replace(pat, rep)` with a string `pat`: only the first occurrence is
   replaced. `rep` is taken literally, as JavaScript does for a replacement
   without `$`; the `$$`, `$&`, `` $` `` and `$'` patterns are not expanded.
   */
  function ReplaceFirstOf(s: string, pat: string, rep: string): (r: string)
    ensures (forall k: nat :: !OccursAt(s, pat, k)) ==> r == s
    ensures forall k: nat | FirstOccurrence(s, pat, k) :: r == s[..k] + rep + s[k + |pat|..]
  {
    var k := IndexOf(s, pat);
    if k == -1 then s else s[..k] + rep + s[k + |pat|..]
  }

  /**
   The characters `String.prototype.trim` removes: the WhiteSpace and
   LineTerminator code points of the ECMAScript standard (section 12.2 and
   12.3 of ECMA-262), with the space separators (category Zs) of Unicode 15.
   */
  predicate IsWhiteSpace(c: char) {
    c == '\t' || c == '\n' || c == '\U{000B}' || c == '\U{000C}' || c == '\r' || c == ' '
    || c == '\U{00A0}' || c == '\U{1680}' || ('\U{2000}' <= c <= '\U{200A}')
    || c == '\U{2028}' || c == '\U{2029}' || c == '\U{202F}' || c == '\U{205F}'
    || c == '\U{3000}' || c == '\U{FEFF}'
  }

  /** Drops the leading white space: what is left is a suffix of `s`. */
  function TrimStart(s: string): (r: string)
    ensures |r| <= |s| && r == s[|s| - |r|..]
    ensures forall i | 0 <= i < |s| - |r| :: IsWhiteSpace(s[i])
    ensures r != [] ==> !IsWhiteSpace(r[0])
  {
    if s != [] && IsWhiteSpace(s[0]) then TrimStart(s[1..]) else s
  }

  /** Drops the trailing white space: what is left is a prefix of `s`. */
  function TrimEnd(s: string): (r: string)
    ensures |r| <= |s| && r == s[..|r|]
    ensures forall i | |r| <= i < |s| :: IsWhiteSpace(s[i])
    ensures r != [] ==> !IsWhiteSpace(r[|r| - 1])
  {
    if s != [] && IsWhiteSpace(s[|s| - 1]) then TrimEnd(s[..|s| - 1]) else s
  }

  /** `r` is the slice of `s` from `a` with only white space around it. */
  predicate SliceAmidSpace(s: string, a: nat, r: string) {
    a + |r| <= |s| && r == s[a..a + |r|]
    && (forall i | 0 <= i < a :: IsWhiteSpace(s[i]))
    && (forall i | a + |r| <= i < |s| :: IsWhiteSpace(s[i]))
  }

  /** `s.trim()`: the slice of `s` left once white space is dropped at both ends. */
  function Trim(s: string): (r: string)
    ensures exists a: nat :: SliceAmidSpace(s, a, r)
    ensures r != [] ==> !IsWhiteSpace(r[0]) && !IsWhiteSpace(r[|r| - 1])
  {
    var t := TrimStart(s);
    var r := TrimEnd(t);
    SuffixThenPrefix(s, t, r);
    r
  }

  /** A prefix `r` of a suffix `t` of `s`, with white space around each, is a slice of `s` amid white space. */
  lemma SuffixThenPrefix(s: string, t: string, r: string)
    requires |t| <= |s| && t == s[|s| - |t|..] && forall i | 0 <= i < |s| - |t| :: IsWhiteSpace(s[i])
    requires |r| <= |t| && r == t[..|r|] && forall i | |r| <= i < |t| :: IsWhiteSpace(t[i])
    ensures SliceAmidSpace(s, |s| - |t|, r)
  {
    var a := |s| - |t|;
    assert r == s[a..a + |r|];
    forall i | a + |r| <= i < |s|
      ensures IsWhiteSpace(s[i])
    {
      assert s[i] == t[i - a];
    }
  }

  lemma TrimStartOfNonSpace(s: string)
    requires s != [] && !IsWhiteSpace(s[0])
    ensures TrimStart(s) == s
  {
  }

  /** Trailing white space after a part that ends in a visible character never eats into that part. */
  lemma {:induction false} TrimEndAppend(p: string, q: string)
    requires p != [] && !IsWhiteSpace(p[|p| - 1])
    ensures TrimEnd(p + q) == p + TrimEnd(q)
    decreases |q|
  {
    if q == [] {
      assert p + q == p;
    } else if IsWhiteSpace(q[|q| - 1]) {
      assert (p + q)[..|p + q| - 1] == p + q[..|q| - 1];
      TrimEndAppend(p, q[..|q| - 1]);
    } else {
      assert (p + q)[|p + q| - 1] == q[|q| - 1];
    }
  }

  /** Trimming a string that starts with a visible prefix keeps that prefix. */
  lemma TrimAfterPrefix(p: string, q: string)
    requires p != [] && !IsWhiteSpace(p[0]) && !IsWhiteSpace(p[|p| - 1])
    ensures Trim(p + q) == p + TrimEnd(q)
  {
    TrimStartOfNonSpace(p + q);
    TrimEndAppend(p, q);
  }

  /** `s.padStart(len, fill)` for a one-character `fill`. */
  function PadStart(s: string, len: nat, fill: char): (r: string)
    ensures |r| == if |s| < len then len else |s|
    ensures r[|r| - |s|..] == s
    ensures forall i | 0 <= i < |r| - |s| :: r[i] == fill
  {
    if |s| < len then seq(len - |s|, _ => fill) + s else s
  }

  predicate IsDigit(c: char) {
    '0' <= c <= '9'
  }

  function DigitChar(d: nat): (c: char)
    requires d < 10
    ensures IsDigit(c) && c as int - '0' as int == d
  {
    (d + '0' as int) as char
  }

  function DigitValue(c: char): (d: nat)
    requires IsDigit(c)
    ensures d < 10 && DigitChar(d) == c
  {
    c as int - '0' as int
  }

  /** `n.toString()` for a non-negative integer: decimal, no leading zero. */
  function NatToString(n: nat): (r: string)
    ensures |r| >= 1
    ensures forall i | 0 <= i < |r| :: IsDigit(r[i])
    ensures r[0] == '0' ==> n == 0 && r == "0"
    ensures n < 10 <==> |r| == 1
  {
    if n < 10 then [DigitChar(n)] else NatToString(n / 10) + [DigitChar(n % 10)]
  }

  /** The value of a string of decimal digits, most significant first. */
  function DecimalValue(s: string): (n: nat)
    requires forall i | 0 <= i < |s| :: IsDigit(s[i])
  {
    if s == [] then 0
    else 10 * DecimalValue(s[..|s| - 1]) + DigitValue(s[|s| - 1])
  }

  /** `toString` is undone by reading the decimal digits back. */
  lemma {:induction false} NatToStringRoundTrip(n: nat)
    ensures DecimalValue(NatToString(n)) == n
  {
    var r := NatToString(n);
    if n >= 10 {
      NatToStringRoundTrip(n / 10);
      assert r[..|r| - 1] == NatToString(n / 10);
    }
  }
}
