# Photo frame app: verified model of its update logic

The app is a React Native photo frame. It shows a photo that crossfades to the next one. A press on the photo shows or hides an overlay with:

- a clock;
- a weather line and a greeting line, each an optional SVG icon beside a short text.

Three pollers ask the server for the current photo `src`, the weather `html` and the greeting `html`. When an answer differs from the record held, a poller updates its copy of the record and publishes it.

The model covers:

- **JsString** (`js_string.dfy`): JavaScript's `indexOf`, `trim`, string `replace`, `padStart` and `toString` on non-negative integers, written over `seq<char>`.
- **Patterns** (`patterns.dfy`): the attribute and tag regular expressions of the extraction code. The third, `/^<svg/`, is the prefix test in `Markup.ForceSvgAttributes`.
  - `/ ((style)|(fill)|(id))="[^"]+"/`: a presentational attribute.
  - `/<[^>]+>/`: a tag.
  - Each has a declarative language and a prefix scanner, proved to agree with each other.
  - `replace(re, '')` is modelled as leftmost removal; `replace(re_g, '')` as left-to-right removal that resumes after each match.
- **Markup** / **MarkupProofs** (`markup.dfy`, `markup_proofs.dfy`): how a weather snippet and a greeting snippet are split into icon and text, and what that split guarantees.
- **Pollers** (`pollers.dfy`): one round of each poller as an imperative method on copied records. The photo poller's chain of rounds is a loop.
- **Crossfade** (`crossfade.dfy`): the `SwitchImage` component as a class. Its fields are the uri on top, the running flag and the opacity. A fade starts only for a new uri while no fade runs. Completion puts the captured uri on top.
- **Clock** (`clock.dfy`): the reading taken every second, and the rule that replaces the clock state only when hours or minutes change.
- **AppState** (`app_state.dfy`): the screen state the overlay reads, as a class. This covers the overlay toggle, the clock state and the second tick.

Values the JavaScript holds as `false` until first set are `None`. A request outcome is `Failed` (the request or the JSON decoding threw) or `Fetched(s)`.

## Model

| member | source | states |
|---|---|---|
| JsString.IndexOf | App.js:120 | the result is never below -1; it is the first index where the pattern occurs, and -1 exactly when it occurs nowhere |
| JsString.ReplaceFirstOf | App.js:123 | a string pattern replaces only its first occurrence; with no occurrence the string is unchanged |
| JsString.Trim | App.js:122-123 | the result is a slice of the input with only white space around it, and starts and ends with a visible character |
| JsString.TrimAfterPrefix | App.js:122 | trimming a string that starts with a visible prefix keeps the prefix and trims only the end |
| JsString.PadStart | App.js:215 | padding reaches the requested length with the fill character in front and the original at the end |
| JsString.NatToString | App.js:215 | `toString` gives at least one decimal digit, no leading zero unless the number is 0, and one digit exactly below 10 |
| JsString.NatToStringRoundTrip | App.js:215 | reading the digits of `toString(n)` back gives `n` |
| Patterns.AttributeMatch | App.js:122 | the scanner for the attribute pattern (` style=`, ` fill=` or ` id=` with a non-empty quoted value) at the front of a string never reaches past its end; AttributeMatchSound and AttributeMatchUnique state that it finds exactly the pattern's match |
| Patterns.AttributeMatchSound | App.js:122 | what the attribute scanner finds is a ` style=`, ` fill=` or ` id=` attribute with a non-empty quoted value |
| Patterns.AttributeMatchUnique | App.js:122 | any attribute at the front of a string is exactly the one the scanner finds |
| Patterns.TagMatch | App.js:173 | the scanner for `/<[^>]+>/` at the front of a string never reaches past its end; TagMatchSound and TagMatchUnique state that it finds exactly the pattern's match |
| Patterns.TagMatchSound | App.js:173 | what the tag scanner finds is `<`, one or more characters other than `>`, then `>` |
| Patterns.TagMatchUnique | App.js:173 | any tag at the front of a string is exactly the one the scanner finds |
| Patterns.RemoveFirst | App.js:122 | a non-global replace never lengthens the string, and leaves it unchanged exactly when the pattern matches nowhere in it |
| Patterns.RemoveFirstAt | App.js:122 | a non-global replace cuts out exactly the leftmost match |
| Patterns.RemoveFirstRemovesAtMostOne | App.js:122 | a non-global replace either changes nothing (no match) or cuts out the leftmost match and nothing else |
| Patterns.RemoveAll | App.js:176 | a global replace never lengthens the string, and leaves it unchanged exactly when the pattern matches nowhere in it |
| Patterns.RemoveAllSplit | App.js:172 | a global replace keeps what precedes the leftmost match, drops the match and resumes right after it |
| Patterns.RemoveAllOneMatch | App.js:172 | when nothing matches after the leftmost match, a global replace cuts out that match alone |
| Patterns.GlobalRemovalCanJoinAttribute | App.js:172 | a global attribute replace does not rescan what it keeps: ` fi fill="x"ll="y"` becomes ` fill="y"`, which still holds an attribute |
| Patterns.RemoveAllKeepsOnlyInputChars | App.js:176 | a global replace introduces no character that was not in the input |
| Patterns.RemoveAllTagsLeavesNoTag | App.js:176 | after removing every tag, no tag is left anywhere in the result |
| Patterns.NoTagInSlice | App.js:176 | a slice of a tag-free string is tag-free |
| Patterns.AttributeMatchIgnoresQuotelessTail | App.js:172 | text without a double quote after a string cannot change the attribute match at its front |
| Patterns.RemoveAllAttributesKeepsQuotelessTail | App.js:172 | removing every attribute from a string followed by quote-free text leaves that text intact |
| Patterns.AttributeRemovalKeepsSvgOpen | App.js:122 | removing the first or every attribute never touches a leading `<svg` |
| Markup.ForceSvgAttributes | App.js:122 | a leading `<svg` becomes `<svg fill="#fff" width="30" height="30"` with the rest kept; any other string is unchanged |
| Markup.ExtractWeather | App.js:120-127 | the weather snippet has an icon exactly when `<svg` occurs in it |
| Markup.ExtractGreeting | App.js:163-181 | the greeting snippet has an icon exactly when some `<svg` in it is followed, there or later, by a `</svg>` |
| Markup.ClosedIconIff | App.js:165-168 | the two `indexOf` tests of the greeting arm succeed exactly when some `<svg` is followed by a `</svg>` |
| MarkupProofs.WeatherWithoutIcon | App.js:124-126 | without `<svg` the icon is absent and the text is the whole snippet trimmed, with its first `&deg;` made `°` |
| MarkupProofs.WeatherWithIcon | App.js:120-123 | with the first `<svg` at i, the text is the part before i, trimmed, with `&deg;` made `°`; the icon is the forced `<svg …` followed by the rest with its first attribute removed, trimmed at the end |
| MarkupProofs.WeatherIconStartsForced | App.js:122 | every weather icon starts with `<svg fill="#fff" width="30" height="30"` |
| MarkupProofs.WeatherIconLosesAtMostOneAttribute | App.js:122 | the part of the weather icon after `<svg` loses nothing, or only its leftmost attribute |
| MarkupProofs.GreetingWithIcon | App.js:163-173 | with the first `<svg` at i and the first `</svg>` after it at j, the icon is that span with every attribute removed, the forced `<svg …` in front and `</svg>` at the end; the text is what follows, with its first tag removed, trimmed |
| MarkupProofs.GreetingTextLosesAtMostOneTag | App.js:173 | next to an icon, the greeting text loses nothing, or only its leftmost tag, before trimming |
| MarkupProofs.GreetingIconShape | App.js:172 | every greeting icon starts with the forced `<svg …` and ends with `</svg>` |
| MarkupProofs.GreetingIgnoresLead | App.js:163-173 | when the greeting has an icon, everything before its `<svg` is ignored |
| MarkupProofs.GreetingWithoutIcon | App.js:174-181 | without a closed icon, the icon is absent and the text is the whole snippet with every tag removed, trimmed, and holds no tag |
| MarkupProofs.TrimKeepsNoTag | App.js:176 | trimming a tag-free string leaves it tag-free |
| Pollers.PhotoRound | App.js:76-97 | a new `src` becomes `uri`, the old `uri` becomes `lastUri`, and the record is published; an equal `src` or a failure publishes nothing and passes the held record on |
| Pollers.PhotoStepConsistent | App.js:83-86 | a photo round never leaves `lastUri` equal to `uri`, and after a fetch `uri` is the `src` fetched |
| Pollers.PhotoStepsShowLatest | App.js:76-97 | after any run of rounds, `uri` is the last `src` fetched (or the starting one) and the record stays consistent |
| Pollers.PhotoRounds | App.js:76-97 | the chain of rounds, each started with the previous round's record, ends with the shown record equal to the held one and showing the latest `src` |
| Pollers.TextStepReflects | App.js:109-131 | a round keeps icon and text equal to what extraction makes of the html held; after a fetch the html held is the one fetched; a failure changes nothing |
| Pollers.WeatherRound | App.js:109-140 | a new `html` is stored with its weather icon and text and published; an equal `html` or a failure publishes nothing and passes the held record on |
| Pollers.GreetingRound | App.js:152-194 | as the weather round, with the greeting extraction |
| Pollers.InitialTextReflects | App.js:62-66 | the initial records are consistent: no html, no icon, no text, and no previous photo |
| Crossfade.SwitchImage.constructor | App.js:16-18 | the blank image is on top, no fade runs, and the opacity is 0 |
| Crossfade.SwitchImage.OnSource | App.js:20-24 | a fade starts exactly when the uri differs from the one on top and no fade runs; the fade captures the uri; otherwise nothing changes |
| Crossfade.SwitchImage.OnAnimationComplete | App.js:33-37 | at completion the captured uri goes on top, so the top image always changes; the opacity is 1 and the next fade may start |
| Crossfade.FadeOnce | App.js:20-43 | a fade to a new uri starts, no other uri can start one while it runs, and after completion the same uri starts nothing |
| Clock.Format | App.js:213-216 | hours and minutes are all digits, the minutes at least two, and the tick is on exactly in even seconds |
| Clock.FormatReadsBack | App.js:215 | the hours read back as the hour, unpadded with no leading zero; the minutes are exactly two digits and read back as the minute |
| Clock.SameShownIffSameMinute | App.js:213-218 | two readings show the same hours and minutes exactly when they fall in the same hour and minute |
| Clock.NextTimeData | App.js:217-219 | the clock state is replaced exactly when its hours or minutes differ from the reading, and then shows the reading |
| AppState.Display.constructor | App.js:57-60 | the overlay is hidden, the clock state is empty and the tick is on |
| AppState.Display.OnPress | App.js:255 | a press inverts the overlay's visibility and changes nothing else |
| AppState.Display.OnSecond | App.js:212-221 | each second the clock state is replaced only when hours or minutes change, the tick follows the seconds' parity, and the overlay stays as it is |
| AppState.PressTwice | App.js:255 | two presses leave the overlay as it was |
| AppState.TwoSeconds | App.js:212-221 | the later of two seconds replaces the clock state exactly when it falls in another hour or minute than the earlier |

## Left out

- Requests, JSON decoding, the base URL and the timers that reschedule each poller are not modelled: each round is given its outcome, and a chain of rounds is a sequence of outcomes.
- A `src` or `html` that is not a string is not modelled. A non-string `html` makes `indexOf` throw after `html` is already stored in the copy (App.js:118-120, 161-163). A non-string `src` never throws: it is compared, stored as `uri` and published like a string (App.js:83-88).
- The current time is a parameter of the clock (hours, minutes, seconds); `Date` is not part of this model.
- Crossfade: the duration and easing of the fade, and the opacity's values during it, are not modelled; only the resting values 0 and 1 are.
- Rendering, layout, fonts, the splash screen, screen orientation and the `prevSourceUri &&` render guard are not modelled. A `src` of `""` becomes the uri on top, and the guard would then hide the top image; the model does not capture that.
- The startup effect is not modelled. It starts the three pollers on mount. It starts the clock interval once the fonts are loaded and the first photo round has begun: `isImageInitialized` is set at the start of `setImage` (App.js:72), before any request, so the interval starts even if no photo ever arrives (App.js:208-212).
- AppState.Display.OnSecond: models the comparison against the clock state held. The interval callback in the source compares against the `timeData` of the first render, a stale closure, so it replaces the state every second, even when hours and minutes are unchanged. What is shown is the same either way.
- AppState.TwoSeconds: builds on the same intended comparison. In the source, both seconds would replace the clock state.
- JsString.IsWhiteSpace: uses the white space and line terminators of ECMA-262 (sections 12.2 and 12.3), with the space separators of Unicode 15; later Unicode versions are not modelled.
- Strings are sequences of Unicode scalar values, while JavaScript strings are sequences of UTF-16 code units. A lone surrogate, which JSON can carry as `\ud800`, cannot be represented. No operation of the model depends on this.
- There is no general regular-expression engine: only the three patterns the code uses are modelled. The attribute and tag patterns are hand-written scanners proved equal to their languages; `/^<svg/` is a prefix test.
