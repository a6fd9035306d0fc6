/**
 How App.js splits the HTML snippet the server sends into an SVG icon and
 the text shown beside it. The weather arm (App.js:120-127) and the greeting
 arm (App.js:163-181) use the same building blocks differently: the weather
 icon loses only its first presentational attribute and its text is never
 stripped of tags; the greeting icon ends at the first `</svg>`, loses every
 such attribute, and its text loses tags.
 */
module Markup {
  import opened JsString
  import opened Patterns

  const SvgOpen: string := "<svg"
  const SvgClose: string := "</svg>"
  /** What the leading `<svg` is replaced with, so the icon is drawn white at 30 by 30. */
  const SvgForced: string := "<svg fill=\"#fff\" width=\"30\" height=\"30\""
  const DegreeEntity: string := "&deg;"
  const DegreeSign: string := "°"

  /** The icon, absent when JavaScript would store `false`, and the display text. */
  datatype Extracted = Extracted(icon: Option<string>, text: string)

  /** `s.replace(/^<svg/, '<svg fill="#fff" width="30" height="30"')`. */
  function ForceSvgAttributes(s: string): (r: string)
    ensures StartsWith(s, SvgOpen) ==> StartsWith(r, SvgForced) && r[|SvgForced|..] == s[|SvgOpen|..]
    ensures !StartsWith(s, SvgOpen) ==> r == s
  {
    if StartsWith(s, SvgOpen) then SvgForced + s[|SvgOpen|..] else s
  }

  /** The icon and text of a weather snippet. */
  function ExtractWeather(html: string): (e: Extracted)
    ensures e.icon.Some? <==> exists k: nat :: OccursAt(html, SvgOpen, k)
  {
    var i := IndexOf(html, SvgOpen);
    if i != -1 then
      var icon := Trim(ForceSvgAttributes(RemoveFirst(AttributeMatch, html[i..])));
      Extracted(Some(icon), ReplaceFirstOf(Trim(html[..i]), DegreeEntity, DegreeSign))
    else
      Extracted(None, ReplaceFirstOf(Trim(html), DegreeEntity, DegreeSign))
  }

  /** There is an icon for the greeting: an `<svg` with a `</svg>` somewhere after it. */
  predicate HasClosedIcon(html: string) {
    var i := IndexOf(html, SvgOpen);
    i != -1 && IndexOf(html[i..], SvgClose) != -1
  }

  /** Declaratively: some `<svg` in `html` is followed, there or later, by a `</svg>`. */
  ghost predicate SvgThenClose(html: string) {
    exists p: nat, q: nat :: p <= q && OccursAt(html, SvgOpen, p) && OccursAt(html, SvgClose, q)
  }

  /** The two `indexOf` tests of the greeting arm succeed exactly when an `<svg` is followed by a `</svg>`. */
  lemma ClosedIconIff(html: string)
    ensures HasClosedIcon(html) <==> SvgThenClose(html)
  {
    if HasClosedIcon(html) {
      ClosedIconHasPair(html);
    }
    if SvgThenClose(html) {
      PairMakesClosedIcon(html);
    }
  }

  /** The first `<svg` and the first `</svg>` after it form such a pair. */
  lemma ClosedIconHasPair(html: string)
    requires HasClosedIcon(html)
    ensures SvgThenClose(html)
  {
    var i := IndexOf(html, SvgOpen);
    var j := IndexOf(html[i..], SvgClose);
    OccursInSuffix(html, SvgClose, i, i + j);
    assert OccursAt(html, SvgOpen, i) && OccursAt(html, SvgClose, i + j);
  }

  /** Any such pair lies at or after the first `<svg`, so both searches succeed. */
  lemma PairMakesClosedIcon(html: string)
    requires SvgThenClose(html)
    ensures HasClosedIcon(html)
  {
    var p: nat, q: nat :| p <= q && OccursAt(html, SvgOpen, p) && OccursAt(html, SvgClose, q);
    var i := IndexOf(html, SvgOpen);
    assert i != -1;
    assert i <= p;
    OccursInSuffix(html, SvgClose, i, q);
  }

  /** The greeting arm once `tail` starts with `<svg` and its first `</svg>` is at `j`. */
  function GreetingOfSpan(tail: string, j: nat): Extracted
    requires j + |SvgClose| <= |tail|
  {
    var icon := Trim(ForceSvgAttributes(RemoveAll(AttributeMatch, tail[..j + |SvgClose|])));
    Extracted(Some(icon), Trim(RemoveFirst(TagMatch, tail[j + |SvgClose|..])))
  }

  /** The greeting arm without a usable icon: all tags removed from the whole snippet. */
  function PlainGreeting(html: string): Extracted {
    Extracted(None, Trim(RemoveAll(TagMatch, html)))
  }

  /** The icon and text of a greeting snippet. */
  function ExtractGreeting(html: string): (e: Extracted)
    ensures e.icon.Some? <==> SvgThenClose(html)
  {
    ClosedIconIff(html);
    var i := IndexOf(html, SvgOpen);
    if i != -1 then
      var j := IndexOf(html[i..], SvgClose);
      if j != -1 then GreetingOfSpan(html[i..], j) else PlainGreeting(html)
    else
      PlainGreeting(html)
  }
}
