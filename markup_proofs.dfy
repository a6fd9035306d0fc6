/**
 What the two extraction arms of App.js promise: where the icon comes from,
 what is removed from it and from the text, and what is kept.
 */
module MarkupProofs {
  import opened JsString
  import opened Patterns
  import opened Markup

  /** Without an `<svg` there is no weather icon, and the text is the whole snippet trimmed, its first `&deg;` made a degree sign and no tag removed. */
  lemma WeatherWithoutIcon(html: string)
    requires forall k: nat :: !OccursAt(html, SvgOpen, k)
    ensures ExtractWeather(html) == Extracted(None, ReplaceFirstOf(Trim(html), DegreeEntity, DegreeSign))
  {
  }

  /** The leading `<svg` gets the fixed attributes. */
  lemma ForceAfterOpen(r: string)
    ensures ForceSvgAttributes(SvgOpen + r) == SvgForced + r
  {
    assert StartsWith(SvgOpen + r, SvgOpen);
    assert (SvgOpen + r)[4..] == r;
  }

  /** Trimming a string that starts with the forced `<svg …` only trims its end. */
  lemma TrimForced(r: string)
    ensures Trim(SvgForced + r) == SvgForced + TrimEnd(r)
  {
    assert SvgForced[0] == '<' && SvgForced[|SvgForced| - 1] == '"';
    TrimAfterPrefix(SvgForced, r);
  }

  /**
   With the first `<svg` at `i`, the weather text is what precedes it, and
   the icon is that `<svg` with the fixed attributes forced in, followed by
   the rest of the snippet with at most its first attribute taken out and
   trailing space trimmed; the `<svg` itself is never touched.
   */
  lemma {:induction false} WeatherWithIcon(html: string, i: nat)
    requires IndexOf(html, SvgOpen) == i
    ensures i + |SvgOpen| <= |html|
    ensures ExtractWeather(html).text == ReplaceFirstOf(Trim(html[..i]), DegreeEntity, DegreeSign)
    ensures ExtractWeather(html).icon
      == Some(SvgForced + TrimEnd(RemoveFirst(AttributeMatch, html[i + |SvgOpen|..])))
  {
    var w := html[i + 4..];
    assert html[i..] == SvgOpen + w;
    AttributeRemovalKeepsSvgOpen(w);
    var r := RemoveFirst(AttributeMatch, w);
    calc {
      Trim(ForceSvgAttributes(RemoveFirst(AttributeMatch, html[i..])));
      Trim(ForceSvgAttributes(SvgOpen + r));
      { ForceAfterOpen(r); }
      Trim(SvgForced + r);
      { TrimForced(r); }
      SvgForced + TrimEnd(r);
    }
  }

  /** The weather icon starts with the forced `<svg fill="#fff" width="30" height="30"`. */
  lemma {:induction false} WeatherIconStartsForced(html: string)
    ensures ExtractWeather(html).icon.Some? ==> StartsWith(ExtractWeather(html).icon.value, SvgForced)
  {
    var i := IndexOf(html, SvgOpen);
    if i != -1 {
      WeatherWithIcon(html, i);
    }
  }

  /** The part after the weather `<svg` loses nothing, or exactly its leftmost attribute and nothing else. */
  lemma {:induction false} WeatherIconLosesAtMostOneAttribute(html: string, i: nat)
    requires IndexOf(html, SvgOpen) == i
    ensures i + |SvgOpen| <= |html| && IsScanner(AttributeMatch)
    ensures exists r :: (RemovesAtMostLeftmost(AttributeMatch, html[i + |SvgOpen|..], r)
                         && ExtractWeather(html).icon == Some(SvgForced + TrimEnd(r)))
  {
    WeatherWithIcon(html, i);
    ScannersAreScanners();
    RemoveFirstRemovesAtMostOne(AttributeMatch, html[i + 4..]);
  }

  /** `</svg>` cannot begin inside the `<svg` it follows. */
  lemma CloseAfterOpen(tail: string, j: nat)
    requires StartsWith(tail, SvgOpen) && OccursAt(tail, SvgClose, j)
    ensures j >= |SvgOpen|
  {
    assert tail[..4][0] == '<' && tail[..4][1] == 's' && tail[..4][2] == 'v' && tail[..4][3] == 'g';
    assert tail[j..j + 6][0] == '<' && tail[j..j + 6][1] == '/';
  }

  /** The global attribute removal over an `<svg … </svg>` span keeps both ends. */
  lemma AttributeRemovalKeepsSvgEnds(mid: string)
    ensures IsScanner(AttributeMatch)
    ensures RemoveAll(AttributeMatch, SvgOpen + mid + SvgClose)
      == SvgOpen + RemoveAll(AttributeMatch, mid) + SvgClose
  {
    RemoveAllAttributesKeepsQuotelessTail(SvgOpen + mid, SvgClose);
    AttributeRemovalKeepsSvgOpen(mid);
  }

  /** Forcing the attributes into `<svg` + `r` + `</svg>` and trimming gives the forced icon. */
  lemma ForceClosedIcon(r: string)
    ensures Trim(ForceSvgAttributes(SvgOpen + r + SvgClose)) == SvgForced + r + SvgClose
  {
    assert SvgOpen + r + SvgClose == SvgOpen + (r + SvgClose);
    ForceAfterOpen(r + SvgClose);
    var icon := SvgForced + r + SvgClose;
    assert SvgForced + (r + SvgClose) == icon;
    assert icon[0] == '<' && icon[|icon| - 1] == '>';
    TrimClosedIcon(icon);
  }

  /** The span `x` from a leading `<svg` through a closing `</svg>` becomes the white icon, still closed by `</svg>`. */
  lemma GreetingIconOfSpan(x: string, mid: string)
    requires x == SvgOpen + mid + SvgClose
    ensures IsScanner(AttributeMatch)
    ensures Trim(ForceSvgAttributes(RemoveAll(AttributeMatch, x)))
      == SvgForced + RemoveAll(AttributeMatch, mid) + SvgClose
  {
    AttributeRemovalKeepsSvgEnds(mid);
    ForceClosedIcon(RemoveAll(AttributeMatch, mid));
  }

  /** The span from a leading `<svg` through a `</svg>` at `j` becomes the white icon, still closed by `</svg>`. */
  lemma {:induction false} GreetingIconSpan(tail: string, j: nat)
    requires StartsWith(tail, SvgOpen) && OccursAt(tail, SvgClose, j)
    ensures |SvgOpen| <= j && IsScanner(AttributeMatch)
    ensures Trim(ForceSvgAttributes(RemoveAll(AttributeMatch, tail[..j + |SvgClose|])))
      == SvgForced + RemoveAll(AttributeMatch, tail[|SvgOpen|..j]) + SvgClose
  {
    CloseAfterOpen(tail, j);
    var mid := tail[4..j];
    assert tail[..j + 6] == SvgOpen + mid + SvgClose;
    GreetingIconOfSpan(tail[..j + 6], mid);
  }

  /** A string from `<` to `>` is left alone by trimming. */
  lemma TrimClosedIcon(icon: string)
    requires |icon| >= 1 && icon[0] == '<' && icon[|icon| - 1] == '>'
    ensures Trim(icon) == icon
  {
    TrimAfterPrefix(icon, []);
    assert icon + [] == icon;
  }

  /** The greeting is split at the span from the first `<svg` through the first `</svg>` after it. */
  lemma GreetingUnfold(html: string, i: nat, j: nat)
    requires IndexOf(html, SvgOpen) == i && IndexOf(html[i..], SvgClose) == j
    ensures j + |SvgClose| <= |html[i..]|
    ensures ExtractGreeting(html) == GreetingOfSpan(html[i..], j)
  {
  }

  /** The parts of the greeting split at a span from a leading `<svg` through a `</svg>` at `j`. */
  lemma {:induction false} GreetingSpanParts(tail: string, j: nat, e: Extracted)
    requires StartsWith(tail, SvgOpen) && IndexOf(tail, SvgClose) == j && e == GreetingOfSpan(tail, j)
    ensures |SvgOpen| <= j && IsScanner(AttributeMatch) && IsScanner(TagMatch)
    ensures e.icon == Some(SvgForced + RemoveAll(AttributeMatch, tail[|SvgOpen|..j]) + SvgClose)
    ensures e.text == Trim(RemoveFirst(TagMatch, tail[j + |SvgClose|..]))
  {
    GreetingIconSpan(tail, j);
  }

  /** The greeting icon: the span with every attribute taken out and the fixed attributes forced in. */
  lemma {:induction false} GreetingIconIs(html: string, i: nat, j: nat)
    requires IndexOf(html, SvgOpen) == i && IndexOf(html[i..], SvgClose) == j
    ensures |SvgOpen| <= j && j + |SvgClose| <= |html[i..]| && IsScanner(AttributeMatch)
    ensures ExtractGreeting(html).icon
      == Some(SvgForced + RemoveAll(AttributeMatch, html[i..][|SvgOpen|..j]) + SvgClose)
  {
    GreetingUnfold(html, i, j);
    IndexOfStartsSuffix(html, SvgOpen, i);
    GreetingSpanParts(html[i..], j, ExtractGreeting(html));
  }

  /** The greeting text: what follows the span, its first tag taken out, trimmed. */
  lemma {:induction false} GreetingTextIs(html: string, i: nat, j: nat)
    requires IndexOf(html, SvgOpen) == i && IndexOf(html[i..], SvgClose) == j
    ensures j + |SvgClose| <= |html[i..]| && IsScanner(TagMatch)
    ensures ExtractGreeting(html).text == Trim(RemoveFirst(TagMatch, html[i..][j + |SvgClose|..]))
  {
    GreetingUnfold(html, i, j);
    IndexOfStartsSuffix(html, SvgOpen, i);
    GreetingSpanParts(html[i..], j, ExtractGreeting(html));
  }

  /**
   With the first `<svg` at `i` and the first `</svg>` after it `j` further
   on, the greeting icon is the span between them with every attribute taken
   out and the fixed attributes forced in, still ending in `</svg>`; the text
   is what follows the span with its first tag taken out, trimmed.
   */
  lemma {:induction false} GreetingWithIcon(html: string, i: nat, j: nat)
    requires IndexOf(html, SvgOpen) == i && IndexOf(html[i..], SvgClose) == j
    ensures |SvgOpen| <= j && j + |SvgClose| <= |html[i..]|
    ensures IsScanner(AttributeMatch) && IsScanner(TagMatch)
    ensures ExtractGreeting(html).icon
      == Some(SvgForced + RemoveAll(AttributeMatch, html[i..][|SvgOpen|..j]) + SvgClose)
    ensures ExtractGreeting(html).text == Trim(RemoveFirst(TagMatch, html[i..][j + |SvgClose|..]))
  {
    GreetingIconIs(html, i, j);
    GreetingTextIs(html, i, j);
  }

  /** With an icon, the text after `</svg>` loses nothing, or exactly its leftmost tag and nothing else, and is trimmed. */
  lemma {:induction false} GreetingTextLosesAtMostOneTag(html: string, i: nat, j: nat)
    requires IndexOf(html, SvgOpen) == i && IndexOf(html[i..], SvgClose) == j
    ensures j + |SvgClose| <= |html[i..]| && IsScanner(TagMatch)
    ensures exists r :: (RemovesAtMostLeftmost(TagMatch, html[i..][j + |SvgClose|..], r)
                         && ExtractGreeting(html).text == Trim(r))
  {
    GreetingWithIcon(html, i, j);
    RemoveFirstRemovesAtMostOne(TagMatch, html[i..][j + |SvgClose|..]);
  }

  /** The forced `<svg …` prefix and the closing `</svg>` frame the icon. */
  lemma ForcedIconFrame(r: string)
    ensures StartsWith(SvgForced + r + SvgClose, SvgForced) && EndsWith(SvgForced + r + SvgClose, SvgClose)
  {
    var icon := SvgForced + r + SvgClose;
    assert icon[..|SvgForced|] == SvgForced;
    assert icon[|icon| - 6..] == SvgClose;
  }

  /** A greeting icon starts with the forced attributes and ends in `</svg>`. */
  lemma {:induction false} GreetingIconShape(html: string)
    requires HasClosedIcon(html)
    ensures var e := ExtractGreeting(html);
      e.icon.Some? && StartsWith(e.icon.value, SvgForced) && EndsWith(e.icon.value, SvgClose)
  {
    var i := IndexOf(html, SvgOpen);
    var j := IndexOf(html[i..], SvgClose);
    GreetingIconIs(html, i, j);
    ForcedIconFrame(RemoveAll(AttributeMatch, html[i..][|SvgOpen|..j]));
  }

  /** When the greeting has an icon, whatever precedes its `<svg` plays no part. */
  lemma {:induction false} GreetingIgnoresLead(html: string, i: nat)
    requires IndexOf(html, SvgOpen) == i && HasClosedIcon(html)
    ensures ExtractGreeting(html) == ExtractGreeting(html[i..])
  {
    var tail := html[i..];
    assert OccursAt(tail, SvgOpen, 0);
    assert IndexOf(tail, SvgOpen) == 0;
    assert tail[0..] == tail;
  }

  /** Without an `<svg … </svg>` icon, the greeting text is the whole snippet with every tag removed, trimmed, and holds no tag at all. */
  lemma {:induction false} GreetingWithoutIcon(html: string)
    requires !HasClosedIcon(html)
    ensures IsScanner(TagMatch)
    ensures ExtractGreeting(html) == Extracted(None, Trim(RemoveAll(TagMatch, html)))
    ensures NoMatch(TagMatch, ExtractGreeting(html).text)
  {
    RemoveAllTagsLeavesNoTag(html);
    TrimKeepsNoTag(RemoveAll(TagMatch, html));
  }

  /** Trimming a tag-free string leaves it tag-free. */
  lemma TrimKeepsNoTag(x: string)
    requires NoMatch(TagMatch, x)
    ensures NoMatch(TagMatch, Trim(x))
  {
    var r := Trim(x);
    var a: nat :| SliceAmidSpace(x, a, r);
    NoTagInSlice(x, a, r);
  }
}
