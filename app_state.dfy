/**
 The screen state of the `App` component that the overlay reads: whether
 the overlay is shown (toggled by a press on the photo, App.js:255), the
 clock state and the second tick (set once a second, App.js:213-221).
 */
module AppState {
  import opened Clock

  class Display {
    var isInfoVisible: bool
    var timeData: TimeData
    var secondTick: bool

    /** `useState(false)`, `useState({ hours: false, minutes: false })`, `useState(true)`. */
    constructor()
      ensures !isInfoVisible && timeData == InitialTime && secondTick
    {
      isInfoVisible := false;
      timeData := InitialTime;
      secondTick := true;
    }

    /** A press on the photo shows the overlay when hidden and hides it when shown. */
    method OnPress()
      modifies this
      ensures isInfoVisible == !old(isInfoVisible)
      ensures timeData == old(timeData) && secondTick == old(secondTick)
    {
      isInfoVisible := !isInfoVisible;
    }

    /**
     The interval callback at hours `h`, minutes `m`, seconds `s`: the clock
     state is replaced only when its hours or minutes change, the tick is set
     every second, and the overlay stays as it is.
     */
    method OnSecond(h: nat, m: nat, s: nat) returns (replaced: bool)
      modifies this
      ensures replaced <==> old(timeData) != Shown(Format(h, m, s))
      ensures timeData == Shown(Format(h, m, s))
      ensures secondTick <==> s % 2 == 0
      ensures isInfoVisible == old(isInfoVisible)
    {
      var t := Format(h, m, s);
      var next;
      next, replaced := NextTimeData(timeData, t);
      if replaced {
        timeData := next;
      }
      secondTick := t.tick;
    }
  }

  /** Two presses leave the overlay as it was. */
  method PressTwice(d: Display)
    modifies d
    ensures d.isInfoVisible == old(d.isInfoVisible)
    ensures d.timeData == old(d.timeData) && d.secondTick == old(d.secondTick)
  {
    d.OnPress();
    d.OnPress();
  }

  /**
   Two seconds in a row: the second one replaces the clock state exactly when
   it falls in another minute than the first.
   */
  method TwoSeconds(d: Display, h: nat, m: nat, s: nat, h': nat, m': nat, s': nat) returns (first: bool, second: bool)
    requires m < 60 && m' < 60
    modifies d
    ensures second <==> h != h' || m != m'
    ensures d.timeData == Shown(Format(h', m', s')) && (d.secondTick <==> s' % 2 == 0)
    ensures d.isInfoVisible == old(d.isInfoVisible)
  {
    first := d.OnSecond(h, m, s);
    second := d.OnSecond(h', m', s');
    SameShownIffSameMinute(h, m, s, h', m', s');
  }
}
