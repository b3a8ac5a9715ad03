/** The host's mutable Date object, reduced to its time value; each setter
    replaces the time value by the one the calendar computes for it. That a
    setter given an in-range value lands on it is Tokens.ApplyLands; that it
    rolls an out-of-range value over is Calendar.SettersAreTimeOf. */
module HostDate {
  import Calendar

  class JsDate {
    var time: int

    constructor (t: int)
      ensures time == t
    {
      time := t;
    }

    method SetFullYear(y: int)
      modifies this
      ensures time == Calendar.SetFullYear(old(time), y)
    {
      time := Calendar.SetFullYear(time, y);
    }

    method SetMonth(m: int)
      modifies this
      ensures time == Calendar.SetMonth(old(time), m)
    {
      time := Calendar.SetMonth(time, m);
    }

    method SetDate(d: int)
      modifies this
      ensures time == Calendar.SetDate(old(time), d)
    {
      time := Calendar.SetDate(time, d);
    }

    method SetHours(h: int)
      modifies this
      ensures time == Calendar.SetHours(old(time), h)
    {
      time := Calendar.SetHours(time, h);
    }

    method SetMinutes(m: int)
      modifies this
      ensures time == Calendar.SetMinutes(old(time), m)
    {
      time := Calendar.SetMinutes(time, m);
    }

    method SetSeconds(s: int)
      modifies this
      ensures time == Calendar.SetSeconds(old(time), s)
    {
      time := Calendar.SetSeconds(time, s);
    }

    method SetMilliseconds(ms: int)
      modifies this
      ensures time == Calendar.SetMilliseconds(old(time), ms)
    {
      time := Calendar.SetMilliseconds(time, ms);
    }
  }
}
