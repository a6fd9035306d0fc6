/**
 The clock of the info overlay (App.js:213-219): once a second the current
 time is turned into the hours as written by `toString`, the minutes padded
 to two digits, and a tick that is on during even seconds. The time of day
 is a parameter; the `Date` it comes from is not part of this model.
 */
module Clock {
  import opened JsString

  /** `{ hours, minutes, tick }`, the reading taken each second. */
  datatype TimeReading = TimeReading(hours: string, minutes: string, tick: bool)

  /** The clock state `{ hours, minutes }`, both `false` until the first second. */
  datatype TimeData = TimeData(hours: Option<string>, minutes: Option<string>)

  const InitialTime: TimeData := TimeData(None, None)

  /** The reading for hours `h`, minutes `m` and seconds `s`. */
  function Format(h: nat, m: nat, s: nat): (t: TimeReading)
    ensures t.tick <==> s % 2 == 0
    ensures |t.hours| >= 1 && |t.minutes| >= 2
    ensures forall i | 0 <= i < |t.hours| :: IsDigit(t.hours[i])
    ensures forall i | 0 <= i < |t.minutes| :: IsDigit(t.minutes[i])
  {
    TimeReading(NatToString(h), PadStart(NatToString(m), 2, '0'), s % 2 == 0)
  }

  /** The clock state that shows a reading. */
  function Shown(t: TimeReading): TimeData {
    TimeData(Some(t.hours), Some(t.minutes))
  }

  /** A zero in front of a string of digits does not change its value. */
  lemma {:induction false} LeadingZero(s: string)
    requires forall i | 0 <= i < |s| :: IsDigit(s[i])
    ensures DecimalValue(['0'] + s) == DecimalValue(s)
    decreases |s|
  {
    if s == [] {
      assert ['0'] + s == ['0'];
      assert ['0'][..0] == [];
    } else {
      var t := ['0'] + s;
      assert t[..|t| - 1] == ['0'] + s[..|s| - 1];
      assert t[|t| - 1] == s[|s| - 1];
      LeadingZero(s[..|s| - 1]);
    }
  }

  /**
   A reading spells its time back: the hours are written without padding and
   read as `h`, the minutes are exactly two digits and read as `m`.
   */
  lemma FormatReadsBack(h: nat, m: nat, s: nat)
    requires m < 60
    ensures DecimalValue(Format(h, m, s).hours) == h
    ensures Format(h, m, s).hours[0] == '0' ==> h == 0
    ensures h < 10 <==> |Format(h, m, s).hours| == 1
    ensures |Format(h, m, s).minutes| == 2 && DecimalValue(Format(h, m, s).minutes) == m
  {
    var t := Format(h, m, s);
    NatToStringRoundTrip(h);
    NatToStringRoundTrip(m);
    if m < 10 {
      assert t.minutes == ['0'] + NatToString(m);
      LeadingZero(NatToString(m));
    } else {
      assert |NatToString(m / 10)| == 1;
      assert t.minutes == NatToString(m);
    }
  }

  /** Two readings show the same hours and minutes exactly when they are taken in the same minute. */
  lemma SameShownIffSameMinute(h: nat, m: nat, s: nat, h': nat, m': nat, s': nat)
    requires m < 60 && m' < 60
    ensures Shown(Format(h, m, s)) == Shown(Format(h', m', s')) <==> h == h' && m == m'
  {
    FormatReadsBack(h, m, s);
    FormatReadsBack(h', m', s');
  }

  /**
   The clock state after a second: replaced by the reading when its hours or
   minutes differ from the ones held, kept otherwise; either way it then
   shows the reading.
   */
  method NextTimeData(held: TimeData, t: TimeReading) returns (next: TimeData, replaced: bool)
    ensures replaced <==> held != Shown(t)
    ensures next == Shown(t)
    ensures !replaced ==> next == held
  {
    next := held;
    replaced := false;
    if Some(t.hours) != held.hours || Some(t.minutes) != held.minutes {
      next := TimeData(Some(t.hours), Some(t.minutes));
      replaced := true;
    }
  }
}
