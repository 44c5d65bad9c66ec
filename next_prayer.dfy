/**
 * `getNextPrayer`: a linear scan over the loaded timings that keeps the entry
 * closest in the future, falling back to tomorrow's fajr when every entry of
 * today has passed.
 */
module NextPrayer {
  import opened Wrappers
  import opened ClockTime

  /** One `name: "HH:MM"` member of the page's `prayerTimes` object. */
  datatype Entry = Entry(name: string, time: string)

  /**
   * `prayerTimes` as its entries in insertion order. `for…in` visits an
   * object's string keys in that order once integer-like keys are taken
   * first; the five prayer names are not integer-like, and object keys are
   * unique, so for a fetched schedule this is the order of the scan.
   */
  type Schedule = seq<Entry>

  /** What `getNextPrayer` returns: a prayer name and an instant, None for an Invalid Date. */
  datatype Choice = Choice(name: string, at: Option<int>)

  /** The prayer taken when nothing is left today. */
  const FALLBACK: string := "fajr"

  function Names(s: Schedule): (r: seq<string>)
    ensures |r| == |s|
    ensures forall k :: 0 <= k < |s| ==> r[k] == s[k].name
  {
    seq(|s|, k requires 0 <= k < |s| => s[k].name)
  }

  /** The position of the first entry with that name, or `|s|` when there is none. */
  function FirstIndex(s: Schedule, name: string): (k: nat)
    ensures k <= |s|
    ensures k < |s| ==> s[k].name == name
    ensures forall j :: 0 <= j < k ==> s[j].name != name
  {
    if s == [] then 0
    else if s[0].name == name then 0
    else 1 + FirstIndex(s[1..], name)
  }

  /** `prayerTimes[name]`: the time of the first entry with that name, None for `undefined`. */
  function Lookup(s: Schedule, name: string): (r: Option<string>)
    ensures r.Some? <==> name in Names(s)
    ensures r.Some? ==> exists k :: 0 <= k < |s| && s[k] == Entry(name, r.value)
  {
    var k := FirstIndex(s, name);
    if k < |s| then
      assert s[k] == Entry(name, s[k].time);
      Some(s[k].time)
    else
      assert forall j :: 0 <= j < |s| ==> Names(s)[j] != name;
      None
  }

  /** An entry whose name no earlier entry has is what a lookup of that name finds. */
  lemma LookupFirst(s: Schedule, k: nat)
    requires k < |s|
    requires forall j :: 0 <= j < k ==> s[j].name != s[k].name
    ensures Lookup(s, s[k].name) == Some(s[k].time)
  {
  }

  /** The parsed times of the entries: what `timeStringToDate` gives for each. */
  function TimesOf(s: Schedule): (times: seq<Option<int>>)
    ensures |times| == |s|
    ensures forall k :: 0 <= k < |s| ==> times[k] == ParseTime(s[k].time)
  {
    seq(|s|, k requires 0 <= k < |s| => ParseTime(s[k].time))
  }

  /** The time lies strictly after `now`: its difference is a number and `diff > 0`. */
  predicate Upcoming(t: Option<int>, now: int) {
    t.Some? && t.value - now > 0
  }

  /** `diff`, the milliseconds from `now` to an upcoming time. */
  function Offset(t: Option<int>, now: int): int
    requires Upcoming(t, now)
  {
    t.value - now
  }

  predicate AnyUpcomingAmong(times: seq<Option<int>>, now: int, n: nat)
    requires n <= |times|
  {
    exists j :: 0 <= j < n && Upcoming(times[j], now)
  }

  predicate AnyUpcoming(s: Schedule, now: int) {
    AnyUpcomingAmong(TimesOf(s), now, |s|)
  }

  /**
   * Among the first `n` times, time `k` is upcoming, no upcoming time is
   * nearer, and every upcoming time before it is strictly farther: the
   * first-seen time of least positive difference.
   */
  predicate IsNextAmong(times: seq<Option<int>>, now: int, k: nat, n: nat)
    requires n <= |times|
  {
    k < n && Upcoming(times[k], now) &&
    (forall j :: 0 <= j < n && Upcoming(times[j], now) ==> Offset(times[k], now) <= Offset(times[j], now)) &&
    (forall j :: 0 <= j < k && Upcoming(times[j], now) ==> Offset(times[k], now) < Offset(times[j], now))
  }

  predicate IsNext(s: Schedule, now: int, k: nat) {
    IsNextAmong(TimesOf(s), now, k, |s|)
  }

  /** One step of the scan: the time at position `i` replaces the best so far only when strictly nearer. */
  lemma ScanStep(times: seq<Option<int>>, now: int, best: nat, i: nat)
    requires i < |times|
    ensures !AnyUpcomingAmong(times, now, i) && Upcoming(times[i], now) ==> IsNextAmong(times, now, i, i + 1)
    ensures !AnyUpcomingAmong(times, now, i) && !Upcoming(times[i], now) ==> !AnyUpcomingAmong(times, now, i + 1)
    ensures IsNextAmong(times, now, best, i) ==>
              if Upcoming(times[i], now) && Offset(times[i], now) < Offset(times[best], now)
              then IsNextAmong(times, now, i, i + 1)
              else IsNextAmong(times, now, best, i + 1)
  {
  }

  /** Whenever some time is upcoming, a first nearest one exists. */
  lemma {:induction false} NextExists(times: seq<Option<int>>, now: int, n: nat)
    requires n <= |times| && AnyUpcomingAmong(times, now, n)
    ensures exists k :: IsNextAmong(times, now, k, n)
  {
    var last := n - 1;
    if AnyUpcomingAmong(times, now, last) {
      NextExists(times, now, last);
      var k: nat :| IsNextAmong(times, now, k, last);
      ScanStep(times, now, k, last);
    } else {
      ScanStep(times, now, 0, last);
    }
  }

  /** At most one time is the first nearest one. */
  lemma NextUnique(times: seq<Option<int>>, now: int, k1: nat, k2: nat)
    requires IsNextAmong(times, now, k1, |times|) && IsNextAmong(times, now, k2, |times|)
    ensures k1 == k2
  {
  }

  /**
   * `getNextPrayer` runs to the end: it reads `prayerTimes.fajr` only when no
   * entry is upcoming, and parsing an absent fajr (`undefined.split`) throws.
   */
  predicate Selectable(s: Schedule, now: int) {
    AnyUpcoming(s, now) || FALLBACK in Names(s)
  }

  /** Fajr's time of day tomorrow: one day after today's fajr, NaN staying NaN. */
  function Fallback(s: Schedule): (c: Choice)
    requires FALLBACK in Names(s)
    ensures c.name == FALLBACK
    ensures c.at.Some? <==> ParseTime(Lookup(s, FALLBACK).value).Some?
    ensures c.at.Some? ==> c.at.value - MS_PER_DAY == ParseTime(Lookup(s, FALLBACK).value).value
  {
    var fajr := ParseTime(Lookup(s, FALLBACK).value);
    Choice(FALLBACK, if fajr.Some? then Some(fajr.value + MS_PER_DAY) else None)
  }

  /**
   * The argmin definition of `getNextPrayer`: the first upcoming entry of
   * least difference when there is one, tomorrow's fajr otherwise.
   */
  ghost function Expected(s: Schedule, now: int): (c: Choice)
    requires Selectable(s, now)
    ensures c.name in Names(s)
    ensures AnyUpcoming(s, now) ==> exists k: nat :: IsNext(s, now, k) && c == Choice(s[k].name, TimesOf(s)[k])
    ensures AnyUpcoming(s, now) ==> c.at.Some? && c.at.value - now > 0
    ensures !AnyUpcoming(s, now) ==> c == Fallback(s)
  {
    if AnyUpcoming(s, now) then
      NextExists(TimesOf(s), now, |s|);
      var k: nat :| IsNextAmong(TimesOf(s), now, k, |s|);
      Choice(s[k].name, TimesOf(s)[k])
    else Fallback(s)
  }

  /**
   * `getNextPrayer` at instant `now`, on a schedule it can complete on. The
   * scan keeps the first entry with the least strictly positive
   * difference; `diff > 0` fails for an entry at `now` exactly and for an
   * Invalid Date, whose difference is NaN.
   */
  method GetNextPrayer(s: Schedule, now: int) returns (next: Choice)
    requires Selectable(s, now)
    ensures next == Expected(s, now)
  {
    ghost var times := TimesOf(s);
    var nextPrayer: Option<string> := None;
    var nextPrayerTime: Option<int> := None;
    var minDiff: Option<int> := None;  // None stands for Infinity
    ghost var best: nat := 0;
    for i := 0 to |s|
      invariant nextPrayer.None? <==> minDiff.None?
      invariant minDiff.None? <==> !AnyUpcomingAmong(times, now, i)
      invariant minDiff.Some? ==>
        IsNextAmong(times, now, best, i) && minDiff.value == Offset(times[best], now) &&
        nextPrayer == Some(s[best].name) && nextPrayerTime == times[best]
    {
      var prayerTime := ParseTime(s[i].time);
      assert prayerTime == times[i];
      ScanStep(times, now, best, i);
      if prayerTime.Some? {
        var diff := prayerTime.value - now;
        if diff > 0 && (minDiff.None? || diff < minDiff.value) {
          minDiff := Some(diff);
          nextPrayer := Some(s[i].name);
          nextPrayerTime := prayerTime;
          best := i;
        }
      }
    }

    if nextPrayer.None? {
      var fajr := ParseTime(Lookup(s, FALLBACK).value);
      nextPrayerTime := if fajr.Some? then Some(fajr.value + MS_PER_DAY) else None;
      next := Choice(FALLBACK, nextPrayerTime);
    } else {
      next := Choice(nextPrayer.value, nextPrayerTime);
      ExpectedIsNext(s, now, best);
    }
  }

  /** The reference definition picks the first nearest entry whenever there is one. */
  lemma ExpectedIsNext(s: Schedule, now: int, k: nat)
    requires Selectable(s, now)
    requires IsNext(s, now, k)
    ensures Expected(s, now) == Choice(s[k].name, TimesOf(s)[k])
  {
    var k': nat :| IsNext(s, now, k') && Expected(s, now) == Choice(s[k'].name, TimesOf(s)[k']);
    assert IsNext(s, now, k');
    assert IsNextAmong(TimesOf(s), now, k', |s|);
    NextUnique(TimesOf(s), now, k, k');
  }

  /**
   * The chosen instant is always ahead of `now` (for `now` within today), and
   * when nothing is left today it is at most one day ahead.
   */
  lemma ExpectedAhead(s: Schedule, now: int)
    requires Selectable(s, now)
    requires 0 <= now < MS_PER_DAY
    ensures Expected(s, now).at.Some? ==> now < Expected(s, now).at.value
    ensures !AnyUpcoming(s, now) && Expected(s, now).at.Some? ==>
              Expected(s, now).at.value <= now + MS_PER_DAY
  {
    if !AnyUpcoming(s, now) {
      var k :| 0 <= k < |s| && s[k] == Entry(FALLBACK, Lookup(s, FALLBACK).value);
      assert !Upcoming(TimesOf(s)[k], now);
    }
  }

  /**
   * An entry at `now` exactly, or before it, is never the one the scan
   * chooses: whichever entry is chosen lies strictly ahead of that entry's time.
   */
  lemma PastNeverChosen(s: Schedule, now: int, k: nat)
    requires Selectable(s, now)
    requires k < |s| && !Upcoming(ParseTime(s[k].time), now)
    ensures !IsNext(s, now, k)
    ensures AnyUpcoming(s, now) ==> Expected(s, now).at != ParseTime(s[k].time)
  {
    assert TimesOf(s)[k] == ParseTime(s[k].time);
  }

  /** The chosen instant is ahead of `now` and no later than any entry still ahead. */
  lemma NearestWins(s: Schedule, now: int, j: nat)
    requires j < |s| && Upcoming(ParseTime(s[j].time), now)
    ensures Selectable(s, now)
    ensures Expected(s, now).at.Some?
    ensures now < Expected(s, now).at.value <= ParseTime(s[j].time).value
  {
    var times := TimesOf(s);
    assert times[j] == ParseTime(s[j].time);
    assert AnyUpcomingAmong(times, now, |s|);
    NextExists(times, now, |s|);
    var k: nat :| IsNextAmong(times, now, k, |s|);
    ExpectedIsNext(s, now, k);
    NearestAmong(times, now, k, j);
  }

  lemma NearestAmong(times: seq<Option<int>>, now: int, k: nat, j: nat)
    requires IsNextAmong(times, now, k, |times|)
    requires j < |times| && Upcoming(times[j], now)
    ensures times[k].value <= times[j].value
  {
  }

  /** No entry listed before the chosen one has the same time: ties go to the first listed. */
  lemma FirstAmongEquals(s: Schedule, now: int, k: nat)
    requires IsNext(s, now, k)
    ensures forall i :: 0 <= i < k ==> ParseTime(s[i].time) != ParseTime(s[k].time)
  {
    var times := TimesOf(s);
    assert IsNextAmong(times, now, k, |s|);
    forall i | 0 <= i < k
      ensures ParseTime(s[i].time) != ParseTime(s[k].time)
    {
      assert times[i] == ParseTime(s[i].time) && times[k] == ParseTime(s[k].time);
    }
  }

  /**
   * When every entry is still ahead, the choice is the earliest time of day,
   * the first listed among equals.
   */
  lemma AllAheadPicksEarliest(s: Schedule, now: int, k: nat)
    requires forall j :: 0 <= j < |s| ==> Upcoming(ParseTime(s[j].time), now)
    requires IsNext(s, now, k)
    ensures forall j :: 0 <= j < |s| ==> ParseTime(s[k].time).value <= ParseTime(s[j].time).value
    ensures forall j :: 0 <= j < k ==> ParseTime(s[k].time).value < ParseTime(s[j].time).value
  {
    var times := TimesOf(s);
    assert forall j :: 0 <= j < |s| ==> times[j] == ParseTime(s[j].time) && Upcoming(times[j], now);
  }
}
