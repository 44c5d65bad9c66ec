/**
 * Times of day. An instant of today is the number of milliseconds since
 * today's local midnight; the page's `Date` objects are read only through
 * their difference from `now`, so this offset is all the model keeps.
 */
module ClockTime {
  import opened Wrappers
  import opened JsText

  const MS_PER_SECOND: int := 1000
  const MS_PER_MINUTE: int := 60 * MS_PER_SECOND
  const MS_PER_HOUR: int := 60 * MS_PER_MINUTE
  /** A calendar day is taken to be exactly 24 hours (no daylight-saving jumps). */
  const MS_PER_DAY: int := 24 * MS_PER_HOUR

  /**
   * `timeStringToDate`: splits `"HH:MM"` at ':' and sets today's hours and
   * minutes, with seconds and milliseconds zero. Only the first two pieces are
   * read. A missing minutes piece, or a piece `Number` cannot read, gives an
   * Invalid Date (None). Hours and minutes beyond their usual range roll over
   * as `Date.setHours` does; the instant is then the hours and minutes added
   * up, as long as it stays inside the range a `Date` can hold and the
   * numbers are exact.
   */
  function ParseTime(s: string): (t: Option<int>)
    ensures t.Some? ==> t.value >= 0 && t.value % MS_PER_MINUTE == 0
  {
    var fields := Split(s, ':');
    if |fields| < 2 then None
    else
      var hours, minutes := NumberOf(fields[0]), NumberOf(fields[1]);
      if hours.Some? && minutes.Some? then Some(hours.value * MS_PER_HOUR + minutes.value * MS_PER_MINUTE)
      else None
  }

  /** The `"HH:MM"` text the timings service sends for a time of day. */
  function FormatTime(hours: nat, minutes: nat): (r: string) {
    Padded(hours) + ":" + Padded(minutes)
  }

  /** `"HH:MM"` reads back as HH hours and MM minutes after midnight. */
  lemma ParseFormatted(hours: nat, minutes: nat)
    ensures ParseTime(FormatTime(hours, minutes)) == Some(hours * MS_PER_HOUR + minutes * MS_PER_MINUTE)
  {
    var h, m := Padded(hours), Padded(minutes);
    PaddedFacts(hours);
    PaddedFacts(minutes);
    SplitAtFirst(h, ':', m);
    SplitWithout(m, ':');
    ParseTwoPieces(h + [':'] + m, h, m, hours, minutes);
  }

  /** A two-digit `HH:MM` text parses to its hours and minutes. */
  lemma ParseTwoDigits(s: string, hours: nat, minutes: nat)
    requires hours < 100 && minutes < 100
    requires s == [DigitChar(hours / 10), DigitChar(hours % 10), ':', DigitChar(minutes / 10), DigitChar(minutes % 10)]
    ensures ParseTime(s) == Some(hours * MS_PER_HOUR + minutes * MS_PER_MINUTE)
  {
    PaddedDigits(hours);
    PaddedDigits(minutes);
    assert FormatTime(hours, minutes) == s;
    ParseFormatted(hours, minutes);
  }

  lemma ParseTwoPieces(s: string, h: string, m: string, hours: nat, minutes: nat)
    requires Split(s, ':') == [h] + [m]
    requires NumberOf(h) == Some(hours) && NumberOf(m) == Some(minutes)
    ensures ParseTime(s) == Some(hours * MS_PER_HOUR + minutes * MS_PER_MINUTE)
  {
  }

  /** Text without a ':' has no minutes piece, so it is an Invalid Date. */
  lemma ParseNeedsColon(s: string)
    requires ':' !in s
    ensures ParseTime(s) == None
  {
    SplitWithout(s, ':');
  }

  /** Pieces after the minutes, such as seconds, are ignored. */
  lemma ParseIgnoresRest(hours: string, minutes: string, rest: string)
    requires ':' !in hours && ':' !in minutes
    ensures ParseTime(hours + [':'] + minutes + [':'] + rest) == ParseTime(hours + [':'] + minutes)
  {
    var tail := minutes + [':'] + rest;
    assert hours + [':'] + minutes + [':'] + rest == hours + [':'] + tail;
    SplitAtFirst(hours, ':', tail);
    SplitAtFirst(minutes, ':', rest);
    SplitAtFirst(hours, ':', minutes);
    SplitWithout(minutes, ':');
    SameLeadingPieces(hours + [':'] + tail, hours + [':'] + minutes);
  }

  /** Only the first two pieces of the text decide the time. */
  lemma SameLeadingPieces(s: string, t: string)
    requires |Split(s, ':')| >= 2 && |Split(t, ':')| >= 2
    requires Split(s, ':')[0] == Split(t, ':')[0] && Split(s, ':')[1] == Split(t, ':')[1]
    ensures ParseTime(s) == ParseTime(t)
  {
  }
}
