/**
 * The page's state: the schedule held in `prayerTimes`, what
 * `fetchPrayerTimes` keeps of a reply, and the texts `updateNextPrayer`
 * writes into the next-prayer panel.
 */
module PrayerPage {
  import opened Wrappers
  import opened ClockTime
  import opened NextPrayer
  import opened Display

  /** The `data.timings` object of an Aladhan reply; the page reads five of its members. */
  datatype Timings = Timings(
    fajr: string, sunrise: string, dhuhr: string, asr: string, sunset: string,
    maghrib: string, isha: string, imsak: string, midnight: string)

  /**
   * How the request ended: `Failed` when no JSON body arrived (an unknown
   * city, a network error, a body that is not JSON), otherwise the body's
   * `code` and its timings.
   */
  datatype Reply = Failed | Reply(code: int, timings: Timings)

  /** The keys of a fetched schedule, in the order the object literal lists them. */
  const PRAYER_NAMES: seq<string> := ["fajr", "dhuhr", "asr", "maghrib", "isha"]

  /** The object literal `fetchPrayerTimes` builds from a reply's timings. */
  function ScheduleOf(t: Timings): (s: Schedule) {
    [Entry("fajr", t.fajr), Entry("dhuhr", t.dhuhr), Entry("asr", t.asr),
     Entry("maghrib", t.maghrib), Entry("isha", t.isha)]
  }

  /**
   * `fetchPrayerTimes`: a reply whose code is 200 becomes the five prayers
   * with their times; every other outcome is caught and becomes `null`.
   */
  function FetchPrayerTimes(reply: Reply): (r: Option<Schedule>)
    ensures r.Some? <==> reply.Reply? && reply.code == 200
    ensures r.Some? ==> Names(r.value) == PRAYER_NAMES
    ensures r.Some? ==> Lookup(r.value, "fajr") == Some(reply.timings.fajr)
    ensures r.Some? ==> Lookup(r.value, "dhuhr") == Some(reply.timings.dhuhr)
    ensures r.Some? ==> Lookup(r.value, "asr") == Some(reply.timings.asr)
    ensures r.Some? ==> Lookup(r.value, "maghrib") == Some(reply.timings.maghrib)
    ensures r.Some? ==> Lookup(r.value, "isha") == Some(reply.timings.isha)
  {
    match reply
    case Failed => None
    case Reply(code, t) =>
      if code == 200 then
        ScheduleNames(t);
        ScheduleLookups(t);
        Some(ScheduleOf(t))
      else None
  }

  /** The fetched schedule has the five keys, in order. */
  lemma ScheduleNames(t: Timings)
    ensures Names(ScheduleOf(t)) == PRAYER_NAMES
  {
    var s, n := ScheduleOf(t), Names(ScheduleOf(t));
    assert n[0] == "fajr" && n[1] == "dhuhr" && n[2] == "asr" && n[3] == "maghrib" && n[4] == "isha";
  }

  /** Each of the five keys looks up the timing it was built from. */
  lemma ScheduleLookups(t: Timings)
    ensures Lookup(ScheduleOf(t), "fajr") == Some(t.fajr)
    ensures Lookup(ScheduleOf(t), "dhuhr") == Some(t.dhuhr)
    ensures Lookup(ScheduleOf(t), "asr") == Some(t.asr)
    ensures Lookup(ScheduleOf(t), "maghrib") == Some(t.maghrib)
    ensures Lookup(ScheduleOf(t), "isha") == Some(t.isha)
  {
    var s := ScheduleOf(t);
    LookupFirst(s, 0);
    LookupFirst(s, 1);
    LookupFirst(s, 2);
    LookupFirst(s, 3);
    LookupFirst(s, 4);
  }

  /** A fetched schedule always lists fajr, so the selector's fallback is defined on it. */
  lemma FetchedListsFallback(reply: Reply)
    requires FetchPrayerTimes(reply).Some?
    ensures FALLBACK in Names(FetchPrayerTimes(reply).value)
  {
    assert Names(FetchPrayerTimes(reply).value)[0] == FALLBACK;
  }

  /**
   * With every time of the schedule inside one day and `now` inside today,
   * the chosen instant is at most a day ahead, so the time-remaining text
   * always has the `HH:MM:SS` shape.
   */
  lemma RemainingFits(s: Schedule, now: int)
    requires Selectable(s, now)
    requires 0 <= now < MS_PER_DAY
    requires forall k :: 0 <= k < |s| && ParseTime(s[k].time).Some? ==> ParseTime(s[k].time).value < MS_PER_DAY
    ensures Expected(s, now).at.Some? ==> 0 < Expected(s, now).at.value - now <= MS_PER_DAY
    ensures Expected(s, now).at.Some? ==>
              var r := RemainingText(Expected(s, now).at, now);
              |r| == 8 && r[2] == ':' && r[5] == ':'
  {
    WithinADay(s, now);
    RemainingReadsBack(Expected(s, now).at, now);
  }

  lemma WithinADay(s: Schedule, now: int)
    requires Selectable(s, now)
    requires 0 <= now < MS_PER_DAY
    requires forall k :: 0 <= k < |s| && ParseTime(s[k].time).Some? ==> ParseTime(s[k].time).value < MS_PER_DAY
    ensures Expected(s, now).at.Some? ==> 0 < Expected(s, now).at.value - now <= MS_PER_DAY
  {
    ExpectedAhead(s, now);
    if AnyUpcoming(s, now) {
      var c := Expected(s, now);
      var k: nat :| IsNext(s, now, k) && c == Choice(s[k].name, TimesOf(s)[k]);
      assert TimesOf(s)[k] == ParseTime(s[k].time);
    }
  }

  class Page {
    /** The global `prayerTimes`; empty until a fetch succeeds. */
    var prayerTimes: Schedule
    /** The text of `#next-prayer-name`. */
    var nextName: string
    /** The text of `#next-prayer-time`. */
    var nextTime: string
    /** The text of `#time-remaining`. */
    var remaining: string
    /** The prayer card carrying the `active-prayer` class, if any. */
    var active: Option<string>

    /** The schedule is the initial empty object or one that a fetch produced. */
    ghost predicate Valid()
      reads this
    {
      prayerTimes == [] || Names(prayerTimes) == PRAYER_NAMES
    }

    /** The panel shows the choice the selector makes at `now` for the current schedule. */
    ghost predicate Shows(now: int)
      reads this
      requires Valid() && prayerTimes != []
    {
      assert Names(prayerTimes)[0] == FALLBACK;
      var c := Expected(prayerTimes, now);
      active == Some(c.name) &&
      nextName == Capitalize(c.name) &&
      nextTime == Lookup(prayerTimes, c.name).value &&
      remaining == RemainingText(c.at, now)
    }

    /** The page as loaded: no schedule, the panel's initial texts, no card highlighted. */
    constructor (nameText: string, timeText: string, remainingText: string)
      ensures Valid() && prayerTimes == []
      ensures nextName == nameText && nextTime == timeText && remaining == remainingText
      ensures active == None
    {
      prayerTimes := [];
      nextName, nextTime, remaining := nameText, timeText, remainingText;
      active := None;
    }

    /**
     * `updateNextPrayer` at instant `now`: nothing at all happens while the
     * schedule is empty; otherwise the panel and the highlighted card are set
     * from the selector's choice. The schedule itself is never touched.
     */
    method UpdateNextPrayer(now: int)
      requires Valid()
      modifies this
      ensures Valid() && prayerTimes == old(prayerTimes)
      ensures old(prayerTimes) == [] ==> unchanged(this)
      ensures old(prayerTimes) != [] ==> Shows(now)
    {
      if |prayerTimes| == 0 {
        return;
      }
      assert Names(prayerTimes)[0] == FALLBACK;
      var next := GetNextPrayer(prayerTimes, now);
      active := Some(next.name);
      nextName := Capitalize(next.name);
      nextTime := Lookup(prayerTimes, next.name).value;
      remaining := RemainingText(next.at, now);
    }

    /**
     * `loadPrayerTimes`: a successful fetch replaces the whole schedule and
     * refreshes the panel; a failed one (`null`) changes nothing, so the
     * previous schedule, empty or not, stays.
     */
    method LoadPrayerTimes(reply: Reply, now: int)
      requires Valid()
      modifies this
      ensures Valid()
      ensures FetchPrayerTimes(reply).None? ==> unchanged(this)
      ensures FetchPrayerTimes(reply).Some? ==>
                prayerTimes == FetchPrayerTimes(reply).value && Shows(now)
    {
      var times := FetchPrayerTimes(reply);
      if times.Some? {
        prayerTimes := times.value;
        UpdateNextPrayer(now);
      }
    }
  }
}
