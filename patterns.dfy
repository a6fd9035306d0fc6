/**
 The attribute and tag regular expressions of App.js, written out by hand
 instead of through a regex engine (the third, `/^<svg/`, is the prefix test
 in `Markup.ForceSvgAttributes`):

   attribute   / ((style)|(fill)|(id))="[^"]+"/   a presentational SVG attribute
   tag         /<[^>]+>/                          one markup tag

 Each pattern has a declarative description of the strings it matches
 (`IsAttribute`, `IsTag`) and a scanner (`AttributeMatch`, `TagMatch`) that
 says how long the match starting at the front of a string is, 0 when there
 is none; lemmas show that the scanner finds exactly the one prefix in the
 language. `RemoveFirst(m, s)` is `s.replace(re, '')` and `RemoveAll(m, s)`
 is `s.replace(re_g, '')` for the pattern scanned by `m`: the leftmost match
 cut out, or every match cut out scanning left to right and resuming after
 each one.
 */
module Patterns {

  /** `t` is ` <name>="<value>"` with a non-empty value free of double quotes. */
  predicate IsAttributeNamed(t: string, name: string) {
    |t| >= |name| + 5 && t[..|name| + 3] == " " + name + "=\"" && t[|t| - 1] == '"'
    && forall i | |name| + 3 <= i < |t| - 1 :: t[i] != '"'
  }

  predicate IsAttribute(t: string) {
    IsAttributeNamed(t, "style") || IsAttributeNamed(t, "fill") || IsAttributeNamed(t, "id")
  }

  /** `t` is `<`, at least one character other than `>`, then `>`. */
  predicate IsTag(t: string) {
    |t| >= 3 && t[0] == '<' && t[|t| - 1] == '>' && forall i | 0 < i < |t| - 1 :: t[i] != '>'
  }

  /** Length of the longest prefix of `s` that does not contain `c` (the greedy `[^c]+`). */
  function RunWithout(s: string, c: char): (n: nat)
    ensures n <= |s|
    ensures forall i | 0 <= i < n :: s[i] != c
    ensures n < |s| ==> s[n] == c
  {
    if s == [] || s[0] == c then 0 else 1 + RunWithout(s[1..], c)
  }

  /** Length of the match of ` <name>="[^"]+"` at the front of `s`, or 0. */
  function NamedAttributeMatch(s: string, name: string): (n: nat)
    ensures n <= |s|
  {
    var h := |name| + 3;
    if |s| >= h && s[..h] == " " + name + "=\"" then
      var v := RunWithout(s[h..], '"');
      if v > 0 && h + v < |s| then h + v + 1 else 0
    else
      0
  }

  /** What the scanner finds is an attribute with that name. */
  lemma NamedAttributeMatchSound(s: string, name: string)
    ensures var n := NamedAttributeMatch(s, name); n > 0 ==> IsAttributeNamed(s[..n], name)
  {
    var n := NamedAttributeMatch(s, name);
    var h := |name| + 3;
    if n > 0 {
      assert s[..n][..h] == s[..h];
    }
  }

  /** A prefix of `s` that is a ` <name>="…"` attribute is exactly the one the scanner finds. */
  lemma NamedAttributeMatchUnique(s: string, name: string, j: nat)
    requires 0 < j <= |s| && IsAttributeNamed(s[..j], name)
    ensures NamedAttributeMatch(s, name) == j
  {
    var h := |name| + 3;
    assert s[..j][..h] == s[..h];
    var v := RunWithout(s[h..], '"');
    assert s[..j][j - 1] == s[j - 1];
  }

  /** Attribute names are told apart by the character after the space. */
  lemma AttributeNamesDiffer(t: string)
    ensures IsAttributeNamed(t, "style") ==> t[1] == 's'
    ensures IsAttributeNamed(t, "fill") ==> t[1] == 'f'
    ensures IsAttributeNamed(t, "id") ==> t[1] == 'i'
  {
    if IsAttributeNamed(t, "style") { assert t[..8][1] == 's'; }
    if IsAttributeNamed(t, "fill") { assert t[..7][1] == 'f'; }
    if IsAttributeNamed(t, "id") { assert t[..5][1] == 'i'; }
  }

  /** The alternation `(style)|(fill)|(id)`, tried in that order. */
  function AttributeMatch(s: string): (n: nat)
    ensures n <= |s|
  {
    var a := NamedAttributeMatch(s, "style");
    if a > 0 then a
    else
      var b := NamedAttributeMatch(s, "fill");
      if b > 0 then b else NamedAttributeMatch(s, "id")
  }

  /** What the alternation finds is an attribute. */
  lemma AttributeMatchSound(s: string)
    ensures var n := AttributeMatch(s); n > 0 ==> IsAttribute(s[..n])
  {
    NamedAttributeMatchSound(s, "style");
    NamedAttributeMatchSound(s, "fill");
    NamedAttributeMatchSound(s, "id");
  }

  /** A prefix of `s` that is an attribute is exactly the one the alternation finds. */
  lemma AttributeMatchUnique(s: string, j: nat)
    requires 0 < j <= |s| && IsAttribute(s[..j])
    ensures AttributeMatch(s) == j
  {
    var a := NamedAttributeMatch(s, "style");
    var b := NamedAttributeMatch(s, "fill");
    AttributeNamesDiffer(s[..j]);
    assert s[..j][1] == s[1];
    if a > 0 {
      AttributeNamesDiffer(s[..a]);
      assert s[..a][1] == s[1];
    }
    if b > 0 {
      AttributeNamesDiffer(s[..b]);
      assert s[..b][1] == s[1];
    }
    if IsAttributeNamed(s[..j], "style") {
      NamedAttributeMatchUnique(s, "style", j);
    } else if IsAttributeNamed(s[..j], "fill") {
      NamedAttributeMatchUnique(s, "fill", j);
    } else {
      NamedAttributeMatchUnique(s, "id", j);
    }
  }

  /** Length of the match of `<[^>]+>` at the front of `s`, or 0. */
  function TagMatch(s: string): (n: nat)
    ensures n <= |s|
  {
    if |s| >= 1 && s[0] == '<' then
      var v := RunWithout(s[1..], '>');
      if v > 0 && 1 + v < |s| then v + 2 else 0
    else
      0
  }

  /** A prefix of `s` that is a tag is exactly the one the scanner finds. */
  lemma TagMatchUnique(s: string, j: nat)
    requires 0 < j <= |s| && IsTag(s[..j])
    ensures TagMatch(s) == j
  {
    assert s[..j][0] == s[0];
    assert s[1..][j - 2] == s[..j][j - 1];
    assert forall i | 0 <= i < j - 2 :: s[1..][i] == s[..j][i + 1];
  }

  /** What the scanner finds is a tag. */
  lemma TagMatchSound(s: string)
    ensures var n := TagMatch(s); n > 0 ==> IsTag(s[..n])
  {
  }

  /** `m` says how long a match at the front of a string is, never more than the string. */
  ghost predicate IsScanner(m: string -> nat) {
    forall t {:trigger m(t)} :: m(t) <= |t|
  }

  lemma ScannersAreScanners()
    ensures IsScanner(AttributeMatch) && IsScanner(TagMatch)
  {
  }

  /** Length of the match of `m` starting at index `k` of `s`. */
  function MatchAt(m: string -> nat, s: string, k: nat): nat
    requires k <= |s|
  {
    m(s[k..])
  }

  /** The scanner `m` finds no match starting anywhere in `s` from index `i` on. */
  predicate NoMatchFrom(m: string -> nat, s: string, i: nat) {
    forall k | i <= k < |s| :: MatchAt(m, s, k) == 0
  }

  /** The scanner `m` matches nowhere in `s`. */
  predicate NoMatch(m: string -> nat, s: string) {
    NoMatchFrom(m, s, 0)
  }

  /** `k` is where the leftmost match of `m` in `s` at or after `i` starts. */
  predicate FirstMatchFrom(m: string -> nat, s: string, i: nat, k: nat) {
    i <= k < |s| && MatchAt(m, s, k) > 0 && forall j | i <= j < k :: MatchAt(m, s, j) == 0
  }

  /** `k` is where the leftmost match of `m` in `s` starts. */
  predicate FirstMatchAt(m: string -> nat, s: string, k: nat) {
    FirstMatchFrom(m, s, 0, k)
  }

  /** The scan of `replace(re, '')` from index `i`: it stops at the first match and cuts it out. */
  function RemoveFirstFrom(m: string -> nat, s: string, i: nat): string
    requires IsScanner(m) && i <= |s|
    decreases |s| - i
  {
    if i == |s| then []
    else if MatchAt(m, s, i) > 0 then s[i + MatchAt(m, s, i)..]
    else [s[i]] + RemoveFirstFrom(m, s, i + 1)
  }

  /** The scan of `replace(re_g, '')` from index `i`: each match is cut out and the scan resumes after it. */
  function RemoveAllFrom(m: string -> nat, s: string, i: nat): string
    requires IsScanner(m) && i <= |s|
    decreases |s| - i
  {
    if i == |s| then []
    else if MatchAt(m, s, i) > 0 then RemoveAllFrom(m, s, i + MatchAt(m, s, i))
    else [s[i]] + RemoveAllFrom(m, s, i + 1)
  }

  /** `s.replace(re, '')` for the pattern that `m` scans: it never lengthens `s`, and changes it exactly when the pattern matches. */
  function RemoveFirst(m: string -> nat, s: string): (r: string)
    requires IsScanner(m)
    ensures |r| <= |s|
    ensures r == s <==> NoMatch(m, s)
  {
    RemoveFirstFromChanges(m, s);
    RemoveFirstFrom(m, s, 0)
  }

  /** `s.replace(re_g, '')` for the pattern that `m` scans: it never lengthens `s`, and changes it exactly when the pattern matches. */
  function RemoveAll(m: string -> nat, s: string): (r: string)
    requires IsScanner(m)
    ensures |r| <= |s|
    ensures r == s <==> NoMatch(m, s)
  {
    RemoveAllFromChanges(m, s);
    RemoveAllFrom(m, s, 0)
  }

  lemma DropFront(s: string, i: nat)
    requires i < |s|
    ensures s[i..] == [s[i]] + s[i + 1..]
  {
  }

  /** Index `i` of `s` is index `i - j` of the suffix `s[j..]`, for matches and characters alike. */
  lemma MatchAtShift(m: string -> nat, s: string, j: nat, i: nat)
    requires j <= i <= |s|
    ensures MatchAt(m, s[j..], i - j) == MatchAt(m, s, i)
    ensures i < |s| ==> s[j..][i - j] == s[i]
  {
    assert s[j..][i - j..] == s[i..];
  }

  /** One step of the single-removal scan agrees on `s` from `i` and on `s[j..]` from `i - j`, given that the rest does. */
  lemma ShiftStepFirst(m: string -> nat, s: string, j: nat, i: nat)
    requires IsScanner(m) && j <= i < |s|
    requires MatchAt(m, s, i) == 0 ==> RemoveFirstFrom(m, s, i + 1) == RemoveFirstFrom(m, s[j..], i + 1 - j)
    ensures RemoveFirstFrom(m, s, i) == RemoveFirstFrom(m, s[j..], i - j)
  {
    MatchAtShift(m, s, j, i);
    var n := MatchAt(m, s, i);
    if n > 0 {
      assert s[j..][i - j + n..] == s[i + n..];
    }
  }

  /** A single-removal scan from index `i` of `s` is the scan of the suffix `s[j..]` from `i - j`. */
  lemma {:induction false} ScanShiftFirst(m: string -> nat, s: string, j: nat, i: nat)
    requires IsScanner(m) && j <= i <= |s|
    ensures RemoveFirstFrom(m, s, i) == RemoveFirstFrom(m, s[j..], i - j)
    decreases |s| - i
  {
    if i < |s| {
      if MatchAt(m, s, i) == 0 {
        ScanShiftFirst(m, s, j, i + 1);
      }
      ShiftStepFirst(m, s, j, i);
    }
  }

  /** One step of the global-removal scan agrees on `s` from `i` and on `s[j..]` from `i - j`, given that the rest does. */
  lemma ShiftStepAll(m: string -> nat, s: string, j: nat, i: nat)
    requires IsScanner(m) && j <= i < |s|
    requires MatchAt(m, s, i) == 0 ==> RemoveAllFrom(m, s, i + 1) == RemoveAllFrom(m, s[j..], i + 1 - j)
    requires MatchAt(m, s, i) > 0 ==> RemoveAllFrom(m, s, i + MatchAt(m, s, i)) == RemoveAllFrom(m, s[j..], i + MatchAt(m, s, i) - j)
    ensures RemoveAllFrom(m, s, i) == RemoveAllFrom(m, s[j..], i - j)
  {
    MatchAtShift(m, s, j, i);
  }

  /** A global-removal scan from index `i` of `s` is the scan of the suffix `s[j..]` from `i - j`. */
  lemma {:induction false} ScanShiftAll(m: string -> nat, s: string, j: nat, i: nat)
    requires IsScanner(m) && j <= i <= |s|
    ensures RemoveAllFrom(m, s, i) == RemoveAllFrom(m, s[j..], i - j)
    decreases |s| - i
  {
    if i < |s| {
      var n := MatchAt(m, s, i);
      if n > 0 {
        ScanShiftAll(m, s, j, i + n);
      } else {
        ScanShiftAll(m, s, j, i + 1);
      }
      ShiftStepAll(m, s, j, i);
    }
  }

  /** Where no match starts from `i` on, the single removal keeps the rest as it is. */
  lemma {:induction false} RemoveFirstFromNoMatch(m: string -> nat, s: string, i: nat)
    requires IsScanner(m) && i <= |s| && NoMatchFrom(m, s, i)
    ensures RemoveFirstFrom(m, s, i) == s[i..]
    decreases |s| - i
  {
    if i < |s| {
      RemoveFirstFromNoMatch(m, s, i + 1);
      DropFront(s, i);
    }
  }

  /** Where no match starts from `i` on, the global removal keeps the rest as it is. */
  lemma {:induction false} RemoveAllFromNoMatch(m: string -> nat, s: string, i: nat)
    requires IsScanner(m) && i <= |s| && NoMatchFrom(m, s, i)
    ensures RemoveAllFrom(m, s, i) == s[i..]
    decreases |s| - i
  {
    if i < |s| {
      RemoveAllFromNoMatch(m, s, i + 1);
      DropFront(s, i);
    }
  }

  /** The character at `i` in front of the slice after it, followed by `t`, is the slice from `i`, followed by `t`. */
  lemma ConsSlice(s: string, i: nat, k: nat, t: string)
    requires i < k <= |s|
    ensures [s[i]] + (s[i + 1..k] + t) == s[i..k] + t
  {
    assert s[i..k] == [s[i]] + s[i + 1..k];
  }

  /**
   At every index of `s` where no match starts, the character there adds no
   match when put in front of a match-free rest of the global removal.
   */
  ghost predicate ConsKeepsNoMatch(m: string -> nat, s: string)
    requires IsScanner(m)
  {
    forall j | 0 <= j < |s| && MatchAt(m, s, j) == 0 && NoMatch(m, RemoveAllFrom(m, s, j + 1)) ::
      NoMatch(m, [s[j]] + RemoveAllFrom(m, s, j + 1))
  }

  /** When kept characters add no match, what the global removal returns from `i` on holds no match. */
  lemma {:induction false} RemoveAllFromLeavesNoMatch(m: string -> nat, s: string, i: nat)
    requires IsScanner(m) && ConsKeepsNoMatch(m, s) && i <= |s|
    ensures NoMatch(m, RemoveAllFrom(m, s, i))
    decreases |s| - i
  {
    if i < |s| {
      var n := MatchAt(m, s, i);
      if n > 0 {
        RemoveAllFromLeavesNoMatch(m, s, i + n);
      } else {
        RemoveAllFromLeavesNoMatch(m, s, i + 1);
      }
    }
  }

  /** The single removal from `i` keeps what precedes the first match `k` and what follows it. */
  lemma {:induction false} RemoveFirstFromAt(m: string -> nat, s: string, i: nat, k: nat)
    requires IsScanner(m) && FirstMatchFrom(m, s, i, k)
    ensures RemoveFirstFrom(m, s, i) == s[i..k] + s[k + MatchAt(m, s, k)..]
    decreases k - i
  {
    if i < k {
      assert MatchAt(m, s, i) == 0;
      assert FirstMatchFrom(m, s, i + 1, k);
      RemoveFirstFromAt(m, s, i + 1, k);
      ConsSlice(s, i, k, s[k + MatchAt(m, s, k)..]);
    }
  }

  /** The global removal from `i` keeps what precedes the first match `k` and carries on after it. */
  lemma {:induction false} RemoveAllFromSplit(m: string -> nat, s: string, i: nat, k: nat)
    requires IsScanner(m) && FirstMatchFrom(m, s, i, k)
    ensures RemoveAllFrom(m, s, i) == s[i..k] + RemoveAllFrom(m, s, k + MatchAt(m, s, k))
    decreases k - i
  {
    var e := k + MatchAt(m, s, k);
    if i < k {
      assert MatchAt(m, s, i) == 0;
      assert FirstMatchFrom(m, s, i + 1, k);
      RemoveAllFromSplit(m, s, i + 1, k);
      SplitStep(m, s, i, k, RemoveAllFrom(m, s, e));
    } else {
      assert s[i..k] + RemoveAllFrom(m, s, e) == RemoveAllFrom(m, s, e);
    }
  }

  /** A character at which no match starts joins the kept slice in front of it. */
  lemma SplitStep(m: string -> nat, s: string, i: nat, k: nat, t: string)
    requires IsScanner(m) && i < k <= |s| && MatchAt(m, s, i) == 0
    requires RemoveAllFrom(m, s, i + 1) == s[i + 1..k] + t
    ensures RemoveAllFrom(m, s, i) == s[i..k] + t
  {
    ConsSlice(s, i, k, t);
  }

  /** Where some match starts at or after `i`, there is a leftmost one. */
  lemma {:induction false} FirstMatchExists(m: string -> nat, s: string, i: nat)
    requires i <= |s| && !NoMatchFrom(m, s, i)
    ensures exists k: nat :: FirstMatchFrom(m, s, i, k)
    decreases |s| - i
  {
    if MatchAt(m, s, i) > 0 {
      assert FirstMatchFrom(m, s, i, i);
    } else {
      assert !NoMatchFrom(m, s, i + 1);
      FirstMatchExists(m, s, i + 1);
      var k: nat :| FirstMatchFrom(m, s, i + 1, k);
      assert FirstMatchFrom(m, s, i, k);
    }
  }

  /** The single removal cuts out exactly the leftmost match and keeps everything around it. */
  lemma RemoveFirstAt(m: string -> nat, s: string, k: nat)
    requires IsScanner(m) && FirstMatchAt(m, s, k)
    ensures RemoveFirst(m, s) == s[..k] + s[k + MatchAt(m, s, k)..]
  {
    RemoveFirstFromAt(m, s, 0, k);
  }

  /** `r` is `s` unchanged when `m` matches nowhere, and otherwise `s` without its leftmost match. */
  ghost predicate RemovesAtMostLeftmost(m: string -> nat, s: string, r: string)
    requires IsScanner(m)
  {
    if NoMatch(m, s) then r == s
    else exists k: nat :: FirstMatchAt(m, s, k) && r == s[..k] + s[k + MatchAt(m, s, k)..]
  }

  /** `replace` without the `g` flag removes nothing, or exactly the leftmost match and nothing else. */
  lemma RemoveFirstRemovesAtMostOne(m: string -> nat, s: string)
    requires IsScanner(m)
    ensures RemovesAtMostLeftmost(m, s, RemoveFirst(m, s))
  {
    if !NoMatch(m, s) {
      FirstMatchExists(m, s, 0);
      var k: nat :| FirstMatchFrom(m, s, 0, k);
      RemoveFirstAt(m, s, k);
    }
  }

  /** What the global removal returns from `i` on is no longer than what is left of `s`. */
  lemma {:induction false} RemoveAllFromShorter(m: string -> nat, s: string, i: nat)
    requires IsScanner(m) && i <= |s|
    ensures |RemoveAllFrom(m, s, i)| <= |s| - i
    decreases |s| - i
  {
    if i < |s| {
      var n := MatchAt(m, s, i);
      if n > 0 {
        RemoveAllFromShorter(m, s, i + n);
      } else {
        RemoveAllFromShorter(m, s, i + 1);
      }
    }
  }

  /** The single scan changes `s` exactly when the pattern matches somewhere, and then shortens it. */
  lemma RemoveFirstFromChanges(m: string -> nat, s: string)
    requires IsScanner(m)
    ensures |RemoveFirstFrom(m, s, 0)| <= |s|
    ensures RemoveFirstFrom(m, s, 0) == s <==> NoMatch(m, s)
  {
    if NoMatch(m, s) {
      RemoveFirstFromNoMatch(m, s, 0);
    } else {
      FirstMatchExists(m, s, 0);
      var k: nat :| FirstMatchFrom(m, s, 0, k);
      RemoveFirstFromAt(m, s, 0, k);
    }
  }

  /** The global scan changes `s` exactly when the pattern matches somewhere, and then shortens it. */
  lemma RemoveAllFromChanges(m: string -> nat, s: string)
    requires IsScanner(m)
    ensures |RemoveAllFrom(m, s, 0)| <= |s|
    ensures RemoveAllFrom(m, s, 0) == s <==> NoMatch(m, s)
  {
    if NoMatch(m, s) {
      RemoveAllFromNoMatch(m, s, 0);
    } else {
      FirstMatchExists(m, s, 0);
      var k: nat :| FirstMatchFrom(m, s, 0, k);
      RemoveAllFromSplit(m, s, 0, k);
      RemoveAllFromShorter(m, s, k + MatchAt(m, s, k));
    }
  }

  /** The global removal keeps what precedes the leftmost match, drops the match, and carries on after it. */
  lemma RemoveAllSplit(m: string -> nat, s: string, k: nat)
    requires IsScanner(m) && FirstMatchAt(m, s, k)
    ensures RemoveAll(m, s) == s[..k] + RemoveAll(m, s[k + MatchAt(m, s, k)..])
  {
    var e := k + MatchAt(m, s, k);
    RemoveAllFromSplit(m, s, 0, k);
    ScanShiftAll(m, s, e, e);
  }

  /** Where the only match is the leftmost one, the global removal cuts out just that match. */
  lemma RemoveAllOneMatch(m: string -> nat, s: string, k: nat)
    requires IsScanner(m) && FirstMatchAt(m, s, k) && NoMatchFrom(m, s, k + MatchAt(m, s, k))
    ensures RemoveAll(m, s) == s[..k] + s[k + MatchAt(m, s, k)..]
  {
    RemoveAllFromSplit(m, s, 0, k);
    RemoveAllFromNoMatch(m, s, k + MatchAt(m, s, k));
  }

  /** ` fi fill="x"ll="y"`, in which cutting out ` fill="x"` joins two pieces into an attribute. */
  function JoinExampleInput(x: char, y: char): string {
    " fi fill=\"" + [x] + "\"ll=\"" + [y] + "\""
  }

  /** ` fill="y"`. */
  function JoinExampleOutput(y: char): string {
    " fill=\"" + [y] + "\""
  }

  /** A string shorter than the shortest attribute ` id="v"` holds no attribute at its front. */
  lemma ShortHasNoAttribute(t: string)
    requires |t| < 7
    ensures AttributeMatch(t) == 0
  {
  }

  /** A character that differs from ` <name>="` where that prefix would be rules out the named attribute. */
  lemma NamedAttributeMismatch(s: string, name: string, d: nat)
    requires d < |name| + 3 <= |s| && s[d] != (" " + name + "=\"")[d]
    ensures NamedAttributeMatch(s, name) == 0
  {
    assert s[..|name| + 3][d] == s[d];
  }

  /** No attribute starts in ` fi`. */
  lemma JoinExampleFront(x: char, y: char)
    ensures forall j | 0 <= j < 3 :: MatchAt(AttributeMatch, JoinExampleInput(x, y), j) == 0
  {
    var s := JoinExampleInput(x, y);
    NamedAttributeMismatch(s, "style", 1);
    NamedAttributeMismatch(s, "fill", 3);
    NamedAttributeMismatch(s, "id", 1);
    NoAttributeAtFront(s[1..]);
    NoAttributeAtFront(s[2..]);
    assert s[0..] == s;
  }

  /** ` fill="x"` is matched at index 3. */
  lemma JoinExampleMatch(x: char, y: char)
    requires x != '"'
    ensures MatchAt(AttributeMatch, JoinExampleInput(x, y), 3) == 9
  {
    var s := JoinExampleInput(x, y);
    assert s[3..][..9] == " fill=\"" + [x] + "\"";
    AttributeMatchUnique(s[3..], 9);
  }

  /** No attribute starts in `ll="y"`. */
  lemma JoinExampleTail(x: char, y: char)
    ensures NoMatchFrom(AttributeMatch, JoinExampleInput(x, y), 12)
  {
    var s := JoinExampleInput(x, y);
    forall k | 12 <= k < |s|
      ensures MatchAt(AttributeMatch, s, k) == 0
    {
      ShortHasNoAttribute(s[k..]);
    }
  }

  /** What is kept is ` fill="y"`, itself an attribute. */
  lemma JoinExampleResult(x: char, y: char)
    requires y != '"'
    ensures var s := JoinExampleInput(x, y);
      s[..3] + s[12..] == JoinExampleOutput(y) && !NoMatch(AttributeMatch, JoinExampleOutput(y))
  {
    var s := JoinExampleInput(x, y);
    var r := JoinExampleOutput(y);
    assert s[..3] + s[12..] == r;
    assert r[..9] == r;
    AttributeMatchUnique(r, 9);
    assert MatchAt(AttributeMatch, r, 0) == 9;
  }

  /**
   The global removal does not rescan what it keeps, so it can leave an
   attribute behind: cutting ` fill="x"` out of ` fi fill="x"ll="y"` joins
   ` fi` and `ll="y"` into the attribute ` fill="y"`, for any values `x`
   and `y` other than a double quote.
   */
  lemma GlobalRemovalCanJoinAttribute(x: char, y: char)
    requires x != '"' && y != '"'
    ensures IsScanner(AttributeMatch)
    ensures RemoveAll(AttributeMatch, JoinExampleInput(x, y)) == JoinExampleOutput(y)
    ensures !NoMatch(AttributeMatch, JoinExampleOutput(y))
  {
    ScannersAreScanners();
    var s := JoinExampleInput(x, y);
    JoinExampleFront(x, y);
    JoinExampleMatch(x, y);
    JoinExampleTail(x, y);
    JoinExampleResult(x, y);
    assert FirstMatchAt(AttributeMatch, s, 3);
    RemoveAllOneMatch(AttributeMatch, s, 3);
  }

  /** Characters the global removal returns all come from the part of the input it scanned. */
  lemma {:induction false} RemoveAllKeepsOnlyInputChars(m: string -> nat, s: string, i: nat, c: char)
    requires IsScanner(m) && i <= |s| && c in RemoveAllFrom(m, s, i)
    ensures c in s[i..]
    decreases |s| - i
  {
    var n := MatchAt(m, s, i);
    DropFront(s, i);
    if n > 0 {
      RemoveAllKeepsOnlyInputChars(m, s, i + n, c);
      assert s[i + n..] == s[i..][n..];
    } else if c != s[i] {
      RemoveAllKeepsOnlyInputChars(m, s, i + 1, c);
    }
  }

  /** No tag starts at a character other than `<`. */
  lemma NoTagAtFront(s: string)
    requires s != [] && s[0] != '<'
    ensures TagMatch(s) == 0
  {
  }

  /** No attribute starts at a character other than a space. */
  lemma NoAttributeAtFront(s: string)
    requires s != [] && s[0] != ' '
    ensures AttributeMatch(s) == 0
  {
    var n := AttributeMatch(s);
    AttributeMatchSound(s);
    if n > 0 {
      assert s[..n][0] == s[0];
      AttributeNamesDiffer(s[..n]);
    }
  }

  /** A character in front of a string adds no tag when it is no `<` or nothing after it can close one. */
  lemma TagFreeFront(c: char, rest: string)
    requires c != '<' || rest == [] || rest[0] == '>' || '>' !in rest
    ensures TagMatch([c] + rest) == 0
  {
    var s := [c] + rest;
    assert s[1..] == rest;
    if c == '<' && rest != [] && rest[0] != '>' {
      assert RunWithout(rest, '>') == |rest|;
    }
  }

  /** Putting such a character in front of a tag-free string leaves it tag-free. */
  lemma ConsKeepsNoTag(c: char, rest: string)
    requires NoMatch(TagMatch, rest)
    requires c != '<' || rest == [] || rest[0] == '>' || '>' !in rest
    ensures NoMatch(TagMatch, [c] + rest)
  {
    var r := [c] + rest;
    forall k | 0 <= k < |r| ensures MatchAt(TagMatch, r, k) == 0 {
      if k > 0 {
        assert r[k..] == rest[k - 1..];
        assert MatchAt(TagMatch, rest, k - 1) == 0;
      } else {
        assert r[0..] == r;
        TagFreeFront(c, rest);
      }
    }
  }

  /** The character at `i` that starts no tag, put in front of a tag-free rest of the removal, adds no tag. */
  lemma UnmatchedTagStep(s: string, i: nat)
    requires i < |s| && IsScanner(TagMatch) && MatchAt(TagMatch, s, i) == 0
    requires NoMatch(TagMatch, RemoveAllFrom(TagMatch, s, i + 1))
    ensures NoMatch(TagMatch, [s[i]] + RemoveAllFrom(TagMatch, s, i + 1))
  {
    UnmatchedOpeningStaysUnmatched(s, i);
    ConsKeepsNoTag(s[i], RemoveAllFrom(TagMatch, s, i + 1));
  }

  /** Every character the global tag removal keeps adds no tag in front of the rest. */
  lemma TagRemovalConsKeepsNoTag(s: string)
    requires IsScanner(TagMatch)
    ensures ConsKeepsNoMatch(TagMatch, s)
  {
    forall j | 0 <= j < |s| && MatchAt(TagMatch, s, j) == 0 && NoMatch(TagMatch, RemoveAllFrom(TagMatch, s, j + 1))
      ensures NoMatch(TagMatch, [s[j]] + RemoveAllFrom(TagMatch, s, j + 1))
    {
      UnmatchedTagStep(s, j);
    }
  }

  /** A `<` that begins no tag is followed, once the rest has had its tags removed, by nothing that closes one. */
  lemma UnmatchedOpeningStaysUnmatched(s: string, i: nat)
    requires i < |s| && TagMatch(s[i..]) == 0 && IsScanner(TagMatch)
    ensures var rest := RemoveAllFrom(TagMatch, s, i + 1);
      s[i] != '<' || rest == [] || rest[0] == '>' || '>' !in rest
  {
    var rest := RemoveAllFrom(TagMatch, s, i + 1);
    if s[i] == '<' && i + 1 < |s| {
      DropFront(s, i);
      assert s[i..][1..] == s[i + 1..];
      if s[i + 1] == '>' {
        // `>` starts no tag, so the removal keeps it
        NoTagAtFront(s[i + 1..]);
        assert rest[0] == '>';
      } else {
        // no `>` follows the `<` in the input, so none follows it in the result
        var v := RunWithout(s[i + 1..], '>');
        assert v == |s| - i - 1;
        assert '>' !in s[i + 1..];
        if '>' in rest { RemoveAllKeepsOnlyInputChars(TagMatch, s, i + 1, '>'); }
      }
    }
  }

  /** Every tag is gone after the global tag removal: no tag can be found anywhere in its result. */
  lemma RemoveAllTagsLeavesNoTag(s: string)
    ensures IsScanner(TagMatch)
    ensures NoMatch(TagMatch, RemoveAll(TagMatch, s))
  {
    ScannersAreScanners();
    TagRemovalConsKeepsNoTag(s);
    RemoveAllFromLeavesNoMatch(TagMatch, s, 0);
  }

  /** The greedy run in a prefix `t` of `u` is the run in `u`, cut at the end of `t`. */
  lemma {:induction false} RunWithoutOfPrefix(t: string, u: string, c: char)
    requires |t| <= |u| && t == u[..|t|]
    ensures RunWithout(t, c) == if RunWithout(u, c) < |t| then RunWithout(u, c) else |t|
    decreases |t|
  {
    if t != [] && t[0] != c {
      assert t[1..] == u[1..][..|t| - 1];
      RunWithoutOfPrefix(t[1..], u[1..], c);
    }
  }

  /** Cutting the end off a string where no tag starts creates no tag. */
  lemma NoTagInPrefix(t: string, u: string)
    requires |t| <= |u| && t == u[..|t|] && TagMatch(u) == 0
    ensures TagMatch(t) == 0
  {
    if |t| >= 1 && t[0] == '<' {
      assert t[1..] == u[1..][..|t| - 1];
      RunWithoutOfPrefix(t[1..], u[1..], '>');
    }
  }

  /** A slice `t` of a tag-free string, starting at `a`, is tag-free. */
  lemma NoTagInSlice(s: string, a: nat, t: string)
    requires a + |t| <= |s| && t == s[a..a + |t|] && NoMatch(TagMatch, s)
    ensures NoMatch(TagMatch, t)
  {
    forall k | 0 <= k < |t| ensures MatchAt(TagMatch, t, k) == 0 {
      var u := s[a + k..];
      assert MatchAt(TagMatch, s, a + k) == 0;
      assert t[k..] == u[..|t| - k];
      NoTagInPrefix(t[k..], u);
    }
  }

  /** An attribute match always ends in a double quote. */
  lemma AttributeEndsInQuote(t: string)
    requires IsAttribute(t)
    ensures |t| > 0 && t[|t| - 1] == '"'
  {
  }

  /** Text with no double quote after `x` cannot change where an attribute match in `x` ends. */
  lemma AttributeMatchIgnoresQuotelessTail(x: string, t: string)
    requires '"' !in t
    ensures AttributeMatch(x + t) == AttributeMatch(x)
  {
    var n := AttributeMatch(x + t);
    var m := AttributeMatch(x);
    AttributeMatchSound(x + t);
    AttributeMatchSound(x);
    if n > 0 {
      AttributeEndsInQuote((x + t)[..n]);
      QuoteBeforeQuotelessTail(x, t, n);
      AttributeMatchUnique(x, n);
    } else if m > 0 {
      PrefixOfAppend(x, t, m);
      AttributeMatchUnique(x + t, m);
    }
  }

  /** A prefix of `x + t` no longer than `x` is a prefix of `x`. */
  lemma PrefixOfAppend(x: string, t: string, n: nat)
    requires n <= |x|
    ensures (x + t)[..n] == x[..n]
  {
  }

  /** A prefix of `x + t` that ends in a double quote, where `t` has none, lies within `x`. */
  lemma QuoteBeforeQuotelessTail(x: string, t: string, n: nat)
    requires '"' !in t && 0 < n <= |x + t| && (x + t)[..n][n - 1] == '"'
    ensures n <= |x| && (x + t)[..n] == x[..n]
  {
    assert (x + t)[n - 1] == '"';
  }

  /** A tail in which no match starts, and which never changes a match before it. */
  ghost predicate InertTail(m: string -> nat, t: string) {
    NoMatch(m, t) && forall y {:trigger y + t} :: m(y + t) == m(y)
  }

  /** The global removal from `i` keeps an inert tail. */
  lemma {:induction false} RemoveAllFromKeepsInertTail(m: string -> nat, x: string, t: string, i: nat)
    requires IsScanner(m) && InertTail(m, t) && i <= |x|
    ensures RemoveAllFrom(m, x + t, i) == RemoveAllFrom(m, x, i) + t
    decreases |x| - i
  {
    var s := x + t;
    if i == |x| {
      forall k | |x| <= k < |s| ensures MatchAt(m, s, k) == 0 {
        assert s[k..] == t[k - |x|..];
        assert MatchAt(m, t, k - |x|) == 0;
      }
      RemoveAllFromNoMatch(m, s, i);
      assert s[i..] == t;
    } else {
      assert s[i..] == x[i..] + t;
      assert s[i] == x[i];
      var n := m(x[i..]);
      if n > 0 {
        RemoveAllFromKeepsInertTail(m, x, t, i + n);
      } else {
        RemoveAllFromKeepsInertTail(m, x, t, i + 1);
      }
    }
  }

  /** A string without double quotes holds no attribute and never changes an attribute match before it. */
  lemma QuotelessTailIsInert(t: string)
    requires '"' !in t
    ensures InertTail(AttributeMatch, t)
  {
    forall y ensures AttributeMatch(y + t) == AttributeMatch(y) {
      AttributeMatchIgnoresQuotelessTail(y, t);
    }
    forall k | 0 <= k < |t| ensures AttributeMatch(t[k..]) == 0 {
      AttributeMatchIgnoresQuotelessTail([], t[k..]);
      assert [] + t[k..] == t[k..];
    }
  }

  /** Removing every attribute leaves a tail without double quotes alone. */
  lemma RemoveAllAttributesKeepsQuotelessTail(x: string, t: string)
    requires '"' !in t
    ensures IsScanner(AttributeMatch)
    ensures RemoveAll(AttributeMatch, x + t) == RemoveAll(AttributeMatch, x) + t
  {
    ScannersAreScanners();
    QuotelessTailIsInert(t);
    RemoveAllFromKeepsInertTail(AttributeMatch, x, t, 0);
  }

  /** A head at none of whose positions a match can start. */
  ghost predicate InertHead(m: string -> nat, h: string, w: string) {
    forall i | 0 <= i < |h| :: MatchAt(m, h + w, i) == 0
  }

  /** Nothing matches at index `i < |h|` of `h + w` when the head is inert. */
  lemma InertHeadAt(m: string -> nat, h: string, w: string, i: nat)
    requires InertHead(m, h, w) && i < |h|
    ensures (h + w)[i] == h[i] && MatchAt(m, h + w, i) == 0
  {
    assert (h + w)[i..] == h[i..] + w;
  }

  /** The single removal from `i` keeps the rest of an inert head. */
  lemma {:induction false} RemoveFirstFromKeepsInertHead(m: string -> nat, h: string, w: string, i: nat)
    requires IsScanner(m) && InertHead(m, h, w) && i <= |h|
    ensures RemoveFirstFrom(m, h + w, i) == h[i..] + RemoveFirst(m, w)
    decreases |h| - i
  {
    if i == |h| {
      ScanShiftFirst(m, h + w, i, i);
      assert (h + w)[i..] == w;
    } else {
      InertHeadAt(m, h, w, i);
      RemoveFirstFromKeepsInertHead(m, h, w, i + 1);
      calc {
        RemoveFirstFrom(m, h + w, i);
        [h[i]] + RemoveFirstFrom(m, h + w, i + 1);
        [h[i]] + (h[i + 1..] + RemoveFirst(m, w));
        ([h[i]] + h[i + 1..]) + RemoveFirst(m, w);
        { DropFront(h, i); }
        h[i..] + RemoveFirst(m, w);
      }
    }
  }

  /** The global removal from `i` keeps the rest of an inert head. */
  lemma {:induction false} RemoveAllFromKeepsInertHead(m: string -> nat, h: string, w: string, i: nat)
    requires IsScanner(m) && InertHead(m, h, w) && i <= |h|
    ensures RemoveAllFrom(m, h + w, i) == h[i..] + RemoveAll(m, w)
    decreases |h| - i
  {
    if i == |h| {
      ScanShiftAll(m, h + w, i, i);
      assert (h + w)[i..] == w;
    } else {
      InertHeadAt(m, h, w, i);
      RemoveAllFromKeepsInertHead(m, h, w, i + 1);
      DropFront(h, i);
    }
  }

  /** No attribute starts inside a leading `<svg`. */
  lemma SvgOpenIsInert(w: string)
    ensures InertHead(AttributeMatch, "<svg", w)
  {
    forall i | 0 <= i < 4 ensures MatchAt(AttributeMatch, "<svg" + w, i) == 0 {
      assert ("<svg" + w)[i..] == "<svg"[i..] + w;
      NoAttributeAtFront("<svg"[i..] + w);
    }
  }

  /** Both attribute removals leave a leading `<svg` alone. */
  lemma AttributeRemovalKeepsSvgOpen(w: string)
    ensures IsScanner(AttributeMatch)
    ensures RemoveFirst(AttributeMatch, "<svg" + w) == "<svg" + RemoveFirst(AttributeMatch, w)
    ensures RemoveAll(AttributeMatch, "<svg" + w) == "<svg" + RemoveAll(AttributeMatch, w)
  {
    ScannersAreScanners();
    SvgOpenIsInert(w);
    RemoveFirstFromKeepsInertHead(AttributeMatch, "<svg", w, 0);
    RemoveAllFromKeepsInertHead(AttributeMatch, "<svg", w, 0);
  }
}
