/**
 * Worked cases of the selector and the countdown on a concrete day's
 * schedule: an afternoon with prayers left, an evening after isha, an entry
 * due exactly now, and two entries at the same time.
 */
module Scenarios {
  import opened Wrappers
  import opened ClockTime
  import opened NextPrayer
  import opened JsText
  import opened Display
  import opened PrayerPage

  const H: int := MS_PER_HOUR
  const M: int := MS_PER_MINUTE

  /** The parsed times of a sample day, in the order fajr, dhuhr, asr, maghrib, isha. */
  const SAMPLE_TIMES: seq<Option<int>> :=
    [Some(5 * H), Some(12 * H), Some(15 * H + 30 * M), Some(18 * H), Some(19 * H + 15 * M)]

  /** Timings of the sample day: fajr 05:00, dhuhr 12:00, asr 15:30, maghrib 18:00, isha 19:15. */
  predicate SampleDay(t: Timings) {
    ParseTime(t.fajr) == SAMPLE_TIMES[0] && ParseTime(t.dhuhr) == SAMPLE_TIMES[1] &&
    ParseTime(t.asr) == SAMPLE_TIMES[2] && ParseTime(t.maghrib) == SAMPLE_TIMES[3] &&
    ParseTime(t.isha) == SAMPLE_TIMES[4]
  }

  /** The reply texts of the sample day parse to its times. */
  lemma SampleTexts(t: Timings)
    requires t.fajr == "05:00" && t.dhuhr == "12:00" && t.asr == "15:30"
    requires t.maghrib == "18:00" && t.isha == "19:15"
    ensures SampleDay(t)
  {
    ParseTwoDigits(t.fajr, 5, 0);
    ParseTwoDigits(t.dhuhr, 12, 0);
    ParseTwoDigits(t.asr, 15, 30);
    ParseTwoDigits(t.maghrib, 18, 0);
    ParseTwoDigits(t.isha, 19, 15);
  }

  /** The fetched schedule of the sample day lists fajr and has the sample times. */
  lemma SampleSchedule(t: Timings)
    requires SampleDay(t)
    ensures FALLBACK in Names(ScheduleOf(t))
    ensures TimesOf(ScheduleOf(t)) == SAMPLE_TIMES
  {
    ScheduleNames(t);
    assert PRAYER_NAMES[0] == FALLBACK;
  }

  /** Of the sample times, asr's is the nearest one ahead of 14:00. */
  lemma AsrNearestAt14()
    ensures IsNextAmong(SAMPLE_TIMES, 14 * H, 2, 5)
  {
    assert forall j :: 0 <= j < 2 ==> !Upcoming(SAMPLE_TIMES[j], 14 * H);
  }

  /** At 14:00 asr, at 15:30, is next, and 1 h 30 min remain. */
  lemma Afternoon(t: Timings)
    requires SampleDay(t)
    ensures FALLBACK in Names(ScheduleOf(t))
    ensures Expected(ScheduleOf(t), 14 * H) == Choice("asr", Some(15 * H + 30 * M))
    ensures RemainingText(Expected(ScheduleOf(t), 14 * H).at, 14 * H) == "01:30:00"
  {
    SampleSchedule(t);
    AsrNearestAt14();
    NextOfTimes(ScheduleOf(t), SAMPLE_TIMES, 14 * H, 2);
    SampleCountdowns();
  }

  /** At 20:00 every prayer of today has passed: fajr tomorrow is next, 9 h away. */
  lemma Evening(t: Timings)
    requires SampleDay(t)
    ensures FALLBACK in Names(ScheduleOf(t))
    ensures Expected(ScheduleOf(t), 20 * H) == Choice("fajr", Some(5 * H + MS_PER_DAY))
    ensures RemainingText(Expected(ScheduleOf(t), 20 * H).at, 20 * H) == "09:00:00"
  {
    SampleSchedule(t);
    LookupFirst(ScheduleOf(t), 0);
    NoneLeft(ScheduleOf(t), SAMPLE_TIMES, 20 * H);
    FallbackOf(ScheduleOf(t), t.fajr, 5 * H);
    SampleCountdowns();
  }

  /** The time left at 14:00 before asr and at 20:00 before fajr tomorrow. */
  lemma SampleCountdowns()
    ensures CountdownText(90 * M) == "01:30:00"
    ensures CountdownText(9 * H) == "09:00:00"
  {
    Countdown(Hms(1, 30, 0), "01:30:00");
    Countdown(Hms(9, 0, 0), "09:00:00");
  }

  /** A lone fajr due at exactly `now` is not next: the scan wants a strictly positive difference. */
  lemma DueNow(s: Schedule)
    requires |s| == 1 && s[0].name == FALLBACK && ParseTime(s[0].time) == Some(5 * H)
    ensures FALLBACK in Names(s)
    ensures Expected(s, 5 * H) == Choice(FALLBACK, Some(5 * H + MS_PER_DAY))
  {
    assert Names(s)[0] == FALLBACK;
    assert TimesOf(s) == [Some(5 * H)];
    LookupFirst(s, 0);
    NoneLeft(s, [Some(5 * H)], 5 * H);
    FallbackOf(s, s[0].time, 5 * H);
  }

  /** Two prayers at the same time, both ahead: the one listed first is next. */
  lemma TieGoesToFirst(s: Schedule)
    requires |s| == 3 && s[0].name == FALLBACK
    requires ParseTime(s[0].time) == Some(5 * H)
    requires ParseTime(s[1].time) == Some(6 * H) && ParseTime(s[2].time) == Some(6 * H)
    ensures FALLBACK in Names(s)
    ensures Expected(s, 5 * H + 30 * M) == Choice(s[1].name, Some(6 * H))
  {
    assert Names(s)[0] == FALLBACK;
    assert TimesOf(s) == [Some(5 * H), Some(6 * H), Some(6 * H)];
    NextOfTimes(s, [Some(5 * H), Some(6 * H), Some(6 * H)], 5 * H + 30 * M, 1);
  }

  /** Tomorrow's fajr, once fajr's text and its parsed time are known. */
  lemma FallbackOf(s: Schedule, fajr: string, t: int)
    requires FALLBACK in Names(s)
    requires Lookup(s, FALLBACK) == Some(fajr) && ParseTime(fajr) == Some(t)
    ensures Fallback(s) == Choice(FALLBACK, Some(t + MS_PER_DAY))
  {
  }

  /** The choice, once the parsed times are known: the first nearest entry. */
  lemma NextOfTimes(s: Schedule, times: seq<Option<int>>, now: int, k: nat)
    requires FALLBACK in Names(s) && TimesOf(s) == times
    requires IsNextAmong(times, now, k, |s|)
    ensures Expected(s, now) == Choice(s[k].name, times[k])
  {
    ExpectedIsNext(s, now, k);
  }

  /** The choice, once the parsed times are known to be all behind `now`: fajr tomorrow. */
  lemma NoneLeft(s: Schedule, times: seq<Option<int>>, now: int)
    requires FALLBACK in Names(s) && TimesOf(s) == times
    requires forall j :: 0 <= j < |times| ==> !Upcoming(times[j], now)
    ensures Expected(s, now) == Fallback(s)
  {
  }

  /** The countdown text of the milliseconds that fields in their usual ranges stand for. */
  lemma Countdown(c: Hms, s: string)
    requires 0 <= c.hours < 100 && 0 <= c.minutes < 60 && 0 <= c.seconds < 60
    requires s == [DigitChar(c.hours / 10), DigitChar(c.hours % 10), ':',
                   DigitChar(c.minutes / 10), DigitChar(c.minutes % 10), ':',
                   DigitChar(c.seconds / 10), DigitChar(c.seconds % 10)]
    ensures CountdownText(Total(c)) == s
  {
    DecomposeTotal(c);
    TextDigits(c, s);
  }

  /** Each field is padded to two digits: one hour, one minute and one second. */
  lemma CountdownExamples()
    ensures CountdownText(3661000) == "01:01:01"
    ensures CountdownText(0) == "00:00:00"
    ensures CountdownText(MS_PER_DAY - MS_PER_SECOND) == "23:59:59"
  {
    Countdown(Hms(1, 1, 1), "01:01:01");
    Countdown(Hms(0, 0, 0), "00:00:00");
    Countdown(Hms(23, 59, 59), "23:59:59");
  }

  lemma CapitalizeExample()
    ensures Capitalize("fajr") == "Fajr"
    ensures Capitalize("maghrib") == "Maghrib"
  {
  }

  /** What the panel shows at 14:00 on the sample day. */
  lemma AfternoonPanel(t: Timings)
    requires SampleDay(t)
    ensures FALLBACK in Names(ScheduleOf(t))
    ensures var c := Expected(ScheduleOf(t), 14 * H);
            c.name == "asr" && Capitalize(c.name) == "Asr" &&
            Lookup(ScheduleOf(t), c.name) == Some(t.asr) && RemainingText(c.at, 14 * H) == "01:30:00"
  {
    Afternoon(t);
    ScheduleLookups(t);
  }

  /**
   * A page that loads the sample day at 14:00 shows asr with 1 h 30 min
   * left and highlights its card; a failed reload at 20:00 keeps all of it.
   */
  method LoadSampleDay(t: Timings) returns (name: string, time: string, left: string, card: Option<string>)
    requires SampleDay(t)
    ensures name == "Asr" && time == t.asr && left == "01:30:00" && card == Some("asr")
  {
    var page := new Page("", "", "");
    page.LoadPrayerTimes(Reply(200, t), 14 * H);
    assert page.prayerTimes == ScheduleOf(t);
    AfternoonPanel(t);
    page.LoadPrayerTimes(Failed, 20 * H);
    name, time, left, card := page.nextName, page.nextTime, page.remaining, page.active;
  }
}
