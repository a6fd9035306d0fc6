/**
 One round of each of the three pollers of App.js (`setImage`, `setWeather`,
 `setGreeting`). A round copies the record it was handed, asks the server,
 updates the copy field by field when the answer differs from what it holds,
 publishes the copy to the screen state only then, and hands the copy to the
 next round. The request itself is a parameter: the round is given its
 outcome, a failure (the request or the JSON decoding threw) or the string
 the server sent.
 */
module Pollers {
  import opened JsString
  import opened Markup

  /** What a request produced: it threw, or it gave the `src`/`html` string. */
  datatype Fetch = Failed | Fetched(value: string)

  /** The photo state `{ uri, lastUri }`; `lastUri` is `false` until the first change. */
  datatype ImageData = ImageData(uri: string, lastUri: Option<string>)

  /** The weather or greeting state `{ html, icon, text }`, each `false` until filled. */
  datatype TextBlock = TextBlock(html: Option<string>, icon: Option<string>, text: Option<string>)

  /** The transparent one-pixel PNG shown before the first photo arrives. */
  const BlankImageUri: string := "data:image/png;base64,iVBORw0KGgoAAAANSUhEUgAAAAEAAAABCAYAAAAfFcSJAAAAAXNSR0IArs4c6QAAAA1JREFUGFdjmNlR/h8ABe4CmEDzMXYAAAAASUVORK5CYII="

  const InitialImage: ImageData := ImageData(BlankImageUri, None)
  const InitialText: TextBlock := TextBlock(None, None, None)

  /** A photo record never names the same picture as both current and previous. */
  predicate ImageConsistent(d: ImageData) {
    d.lastUri.Some? ==> d.lastUri.value != d.uri
  }

  /** The photo record the next round starts from, as a value. */
  function PhotoStep(held: ImageData, outcome: Fetch): ImageData {
    if outcome.Fetched? && outcome.value != held.uri then ImageData(outcome.value, Some(held.uri))
    else held
  }

  /**
   One round of `setImage`: a `src` other than the held `uri` becomes the
   `uri`, the old `uri` becomes `lastUri`, and the new record is published;
   an equal `src` or a failure publishes nothing and passes the held record on.
   */
  method PhotoRound(held: ImageData, outcome: Fetch) returns (next: ImageData, published: Option<ImageData>)
    ensures next == PhotoStep(held, outcome)
    ensures published.Some? <==> outcome.Fetched? && outcome.value != held.uri
    ensures published.Some? ==> published.value == next && next.uri == outcome.value && next.lastUri == Some(held.uri)
    ensures published.None? ==> next == held
  {
    next := held;
    published := None;
    if outcome.Fetched? {
      var src := outcome.value;
      if held.uri != src {
        next := next.(uri := src);
        next := next.(lastUri := Some(held.uri));
        published := Some(next);
      }
    }
  }

  /** A photo round keeps the record consistent. */
  lemma PhotoStepConsistent(held: ImageData, outcome: Fetch)
    requires ImageConsistent(held)
    ensures ImageConsistent(PhotoStep(held, outcome))
    ensures outcome.Fetched? ==> PhotoStep(held, outcome).uri == outcome.value
  {
  }

  /** The `uri` the photo record has after a run of rounds: the last `src` fetched, or the one it started with. */
  function LatestSource(start: string, outcomes: seq<Fetch>): string
    decreases |outcomes|
  {
    if outcomes == [] then start
    else if outcomes[|outcomes| - 1].Fetched? then outcomes[|outcomes| - 1].value
    else LatestSource(start, outcomes[..|outcomes| - 1])
  }

  /** The record after a run of rounds, as a value. */
  function PhotoSteps(start: ImageData, outcomes: seq<Fetch>): ImageData
    decreases |outcomes|
  {
    if outcomes == [] then start
    else PhotoStep(PhotoSteps(start, outcomes[..|outcomes| - 1]), outcomes[|outcomes| - 1])
  }

  /** After any run of rounds the photo shown is the latest one fetched, and the record stays consistent. */
  lemma {:induction false} PhotoStepsShowLatest(start: ImageData, outcomes: seq<Fetch>)
    requires ImageConsistent(start)
    ensures PhotoSteps(start, outcomes).uri == LatestSource(start.uri, outcomes)
    ensures ImageConsistent(PhotoSteps(start, outcomes))
    decreases |outcomes|
  {
    if outcomes != [] {
      var before := PhotoSteps(start, outcomes[..|outcomes| - 1]);
      PhotoStepsShowLatest(start, outcomes[..|outcomes| - 1]);
      PhotoStepConsistent(before, outcomes[|outcomes| - 1]);
    }
  }

  /**
   The chain of `setImage` rounds, each rescheduled with the record the
   previous one produced, run over a list of request outcomes. What the
   screen state holds is always the record the chain holds.
   */
  method PhotoRounds(start: ImageData, outcomes: seq<Fetch>) returns (held: ImageData, shown: ImageData)
    requires ImageConsistent(start)
    ensures held == shown == PhotoSteps(start, outcomes)
    ensures held.uri == LatestSource(start.uri, outcomes)
    ensures ImageConsistent(held)
  {
    held := start;
    shown := start;
    var k := 0;
    while k < |outcomes|
      invariant 0 <= k <= |outcomes|
      invariant held == shown == PhotoSteps(start, outcomes[..k])
    {
      var published;
      held, published := PhotoRound(held, outcomes[k]);
      if published.Some? {
        shown := published.value;
      }
      assert outcomes[..k + 1][..k] == outcomes[..k];
      k := k + 1;
    }
    assert outcomes[..k] == outcomes;
    PhotoStepsShowLatest(start, outcomes);
  }

  /** The icon and text in `d` are what `extract` makes of its html, and all three are absent together. */
  predicate Reflects(d: TextBlock, extract: string -> Extracted) {
    if d.html.Some? then
      d.icon == extract(d.html.value).icon && d.text == Some(extract(d.html.value).text)
    else
      d.icon.None? && d.text.None?
  }

  /** The weather or greeting record the next round starts from, as a value. */
  function TextStep(held: TextBlock, outcome: Fetch, extract: string -> Extracted): TextBlock {
    if outcome.Fetched? && Some(outcome.value) != held.html then
      var e := extract(outcome.value);
      TextBlock(Some(outcome.value), e.icon, Some(e.text))
    else
      held
  }

  /** A round keeps icon and text in step with the html held, and afterwards the html held is the one fetched. */
  lemma TextStepReflects(held: TextBlock, outcome: Fetch, extract: string -> Extracted)
    requires Reflects(held, extract)
    ensures Reflects(TextStep(held, outcome, extract), extract)
    ensures outcome.Fetched? ==> TextStep(held, outcome, extract).html == Some(outcome.value)
    ensures outcome.Failed? ==> TextStep(held, outcome, extract) == held
  {
  }

  /**
   One round of `setWeather`: an `html` other than the held one is stored
   with the icon and text extracted from it (the weather way) and published;
   an equal `html` or a failure publishes nothing and passes the held record on.
   */
  method WeatherRound(held: TextBlock, outcome: Fetch) returns (next: TextBlock, published: Option<TextBlock>)
    ensures next == TextStep(held, outcome, ExtractWeather)
    ensures published.Some? <==> outcome.Fetched? && Some(outcome.value) != held.html
    ensures published.Some? ==> published.value == next
    ensures published.None? ==> next == held
  {
    next := held;
    published := None;
    if outcome.Fetched? {
      var html := outcome.value;
      if held.html != Some(html) {
        next := next.(html := Some(html));
        var e := ExtractWeather(html);
        next := next.(icon := e.icon);
        next := next.(text := Some(e.text));
        published := Some(next);
      }
    }
  }

  /**
   One round of `setGreeting`: as a weather round, with the icon and text
   extracted the greeting way.
   */
  method GreetingRound(held: TextBlock, outcome: Fetch) returns (next: TextBlock, published: Option<TextBlock>)
    ensures next == TextStep(held, outcome, ExtractGreeting)
    ensures published.Some? <==> outcome.Fetched? && Some(outcome.value) != held.html
    ensures published.Some? ==> published.value == next
    ensures published.None? ==> next == held
  {
    next := held;
    published := None;
    if outcome.Fetched? {
      var html := outcome.value;
      if held.html != Some(html) {
        next := next.(html := Some(html));
        var e := ExtractGreeting(html);
        next := next.(icon := e.icon);
        next := next.(text := Some(e.text));
        published := Some(next);
      }
    }
  }

  /** Both text records start out reflecting their (absent) html. */
  lemma InitialTextReflects(extract: string -> Extracted)
    ensures Reflects(InitialText, extract)
    ensures ImageConsistent(InitialImage)
  {
  }
}
