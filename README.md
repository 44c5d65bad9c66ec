# Next prayer and countdown of the prayer-times page

The page (`script.js`) shows the five daily prayer times of a chosen
Indonesian city. Once a second it works out which prayer comes next and how
long is left until it. This project models the logic behind that panel:

- **Parsing a time of day.** `timeStringToDate` turns an `"HH:MM"` string
  into an instant of today (`ClockTime`).
- **Choosing the next prayer.** `getNextPrayer` scans the schedule for the
  entry with the least strictly positive difference from now. The first
  entry seen wins a tie. When every entry has passed, the choice is fajr one
  day later (`NextPrayer`).
- **Formatting the countdown.** `updateNextPrayer` turns the remaining
  milliseconds into floor hours, minutes and seconds, each padded to two
  digits. It also capitalises the prayer name (`Display`).
- **The page state.** `prayerTimes` is the page's global schedule:
  - `fetchPrayerTimes` keeps five keys of the timings service's reply, or
    gives `null`.
  - `loadPrayerTimes` swaps in a fetched schedule wholesale and ignores a
    `null`.
  - `updateNextPrayer` does nothing while the schedule is empty. Otherwise
    it writes the panel texts and highlights one card.

  The class `PrayerPage.Page` models this state.

Supporting modules:

- `JsText` models the JavaScript built-ins the page uses:
  - `split` on one character;
  - `Number` applied to a string;
  - `toString` of an integer;
  - `padStart`.
- `Wrappers` holds `Option`.
- `Scenarios` works concrete days through the model.

Instants are whole milliseconds after today's local midnight. The page only
ever uses a `Date` through its difference from `now`, so this offset is all
the model keeps. An Invalid Date (the result of a piece `Number` cannot
read) is `None`.

The selector is proved against a reference definition:

- `GetNextPrayer` is a method whose loop mirrors the source's `for…in`
  scan.
- It is proved equal to the ghost function `Expected`: the first entry of
  least positive difference, or tomorrow's fajr.
- The properties of `Expected` are proved as lemmas.

The countdown text has a partner, `ParseCountdown`. The text reads back as
the difference truncated to whole seconds.

Two behaviours of the code are worth stating outright:

- **Empty schedule.** `getNextPrayer` never reports "nothing found". On a
  schedule with no entry ahead it parses `prayerTimes.fajr`
  (script.js:120-125). When fajr is missing that read gives `undefined`, and
  `timeStringToDate` throws on it. The guard at the top of
  `updateNextPrayer` (script.js:138) keeps the selector away from the empty
  schedule. The model therefore requires `Selectable` of the selector (an
  entry still ahead, or fajr listed) and models the guard in
  `Page.UpdateNextPrayer`.
- **Fallback countdown.** When no entry is strictly ahead, the choice is
  fajr's time of day moved exactly one day on (script.js:124). If fajr is due
  at `now` to the millisecond, its difference is 0, so the scan passes it
  over. The countdown then shows a full day, "24:00:00".
  `NextPrayer.ExpectedAhead` states the bound as at most one day, and
  `Scenarios.DueNow` exhibits the case where it is reached.

The schedule's representation is a sequence of `name: time` entries.
`NextPrayer.Names` lists its keys in order, `NextPrayer.TimesOf` parses each
entry's time with `ParseTime`, and `NextPrayer.Offset` is the `diff` of the
scan. Several text functions are specified by lemmas beside them:

- `JsText.IntToString` by `Display.FieldNegative`, and through
  `JsText.NatToString` by `JsText.NatToStringFacts`;
- `JsText.Padded` by `JsText.PaddedFacts` and `JsText.PaddedDigits`;
- `Display.Field` by `Display.FieldOf` and `Display.FieldNegative`;
- `Display.Text` by `Display.TextDigits`, `Display.TextRoundTrip` and
  `Display.TextShape`;
- `Display.CountdownText` by `Display.CountdownRoundTrip` and
  `Display.CountdownShape`;
- `Display.RemainingText` by `Display.RemainingReadsBack`;
- `PrayerPage.ScheduleOf` by `PrayerPage.ScheduleNames` and
  `PrayerPage.ScheduleLookups`.

## Model

| member | source | states |
|---|---|---|
| JsText.NumberOf | script.js:90 | `Number` on a piece gives a number exactly when the piece is all decimal digits; the empty piece gives 0 |
| JsText.NatToStringFacts | script.js:152 | `toString` of a natural number is one or more digits that read back as the number; one digit exactly below 10, two exactly from 10 to 99; a leading '0' only for 0 |
| JsText.Repeat | script.js:152 | the fill of `padStart` is `n` copies of the fill character |
| JsText.PadStart | script.js:152 | `padStart` leaves a text that is long enough alone and otherwise lengthens it to exactly the width |
| JsText.PadStartContents | script.js:152 | the padded text ends with the original text and every character in front of it is the fill |
| JsText.Pad2 | script.js:152 | `padStart(2, '0')` gives two characters, or the text itself when it already has two or more |
| JsText.Pad2Contents | script.js:152 | two-digit padding ends with the original text and puts only '0' in front of it |
| JsText.PaddedFacts | script.js:152 | a padded number is all digits and free of ':'; it is two characters below 100; it reads back as the number |
| JsText.PaddedDigits | script.js:152 | below 100 the padded number is exactly its tens digit then its units digit |
| JsText.Split | script.js:90 | `split` always yields at least one piece |
| JsText.SplitWithout | script.js:90 | text without the separator splits into itself alone |
| JsText.JoinSplit | script.js:90 | joining the pieces of `split` with the separator gives back the text |
| JsText.SplitAtFirst | script.js:90 | `split` cuts at the first separator and splits the rest on |
| JsText.SplitJoin | script.js:90 | separator-free pieces joined by the separator split back into the same pieces |
| ClockTime.ParseTime | script.js:89-94 | a parsed time is a non-negative whole number of minutes: seconds and milliseconds are zero |
| ClockTime.ParseFormatted | script.js:89-93 | `"HH:MM"` parses to HH hours plus MM minutes after midnight |
| ClockTime.ParseTwoDigits | script.js:89-93 | a two-digit `HH:MM` text parses to its hours and minutes |
| ClockTime.ParseNeedsColon | script.js:90-92 | a text without ':' has no minutes piece and is an Invalid Date |
| ClockTime.ParseIgnoresRest | script.js:90 | pieces after the minutes (such as seconds) do not change the parsed time |
| NextPrayer.FirstIndex | script.js:123 | the first position holding a given key, `|s|` when none does |
| NextPrayer.Lookup | script.js:123 | `prayerTimes[name]` is defined exactly when the name is a key, and is that key's time |
| NextPrayer.LookupFirst | script.js:151 | a key no earlier entry shares looks up its own time |
| NextPrayer.ScanStep | script.js:113-117 | one step of the scan: a nearer upcoming time replaces the best so far only when strictly nearer |
| NextPrayer.NextExists | script.js:108-118 | whenever some entry is upcoming, a first nearest one exists |
| NextPrayer.NextUnique | script.js:113 | the first nearest entry is unique |
| NextPrayer.Fallback | script.js:120-125 | the fallback is named fajr, at fajr's time of day plus exactly one day, NaN staying NaN |
| NextPrayer.Expected | script.js:97-134 | the choice is a listed name; with an entry upcoming it is the first nearest one, strictly ahead of now; otherwise it is the fallback |
| NextPrayer.GetNextPrayer | script.js:97-134 | the scan's result equals the reference definition `Expected` |
| NextPrayer.ExpectedIsNext | script.js:108-118 | the reference definition picks exactly the first nearest entry |
| NextPrayer.ExpectedAhead | script.js:120-125 | for `now` within today the chosen instant is after now, and the fallback is at most one day ahead |
| NextPrayer.PastNeverChosen | script.js:113 | an entry at now exactly, or before it, is never chosen |
| NextPrayer.NearestWins | script.js:108-118 | the chosen instant is ahead of now and no later than any upcoming entry |
| NextPrayer.FirstAmongEquals | script.js:113 | no entry listed before the chosen one has its time: ties go to the first listed |
| NextPrayer.AllAheadPicksEarliest | script.js:108-118 | when every entry is ahead, the choice has the least time of day, the first listed among equals |
| Display.FloorDiv | script.js:145-147 | `Math.floor(a / b)` is the greatest q with q·b ≤ a |
| Display.JsRem | script.js:146-147 | JavaScript's `%` leaves the dividend minus the divisor times the quotient truncated toward zero: the mathematical remainder for a non-negative dividend, and a remainder between −b and 0 that keeps the dividend's sign otherwise |
| Display.Decompose | script.js:145-147 | for a non-negative difference: hours are the whole hours; minutes and seconds are below 60; the fields account for the difference to within one second, never more |
| Display.DecomposeTotal | script.js:145-147 | hours, minutes below 60 and seconds below 60 are exactly what their total in milliseconds decomposes into |
| Display.FieldOf | script.js:152 | a field of a natural number is its padded text, two characters below 100, free of ':', reading back as the number |
| Display.FieldNegative | script.js:145-152 | a negative field is a minus sign then the digits of its magnitude, with no '0' put in front |
| Display.TextDigits | script.js:152 | fields below 100 render as two digits each around two colons |
| Display.CountdownRoundTrip | script.js:145-152 | the countdown text reads back as the difference truncated to whole seconds |
| Display.TextRoundTrip | script.js:152 | the text of non-negative fields reads back as the milliseconds they stand for |
| Display.CountdownShape | script.js:152 | below 100 hours the text is eight characters with ':' at positions 2 and 5 |
| Display.RemainingReadsBack | script.js:140-152 | the time-remaining text is "NaN:NaN:NaN" for an Invalid Date; for an instant not yet past it reads back as the time left truncated to whole seconds, and below 100 hours it has the `HH:MM:SS` shape |
| Display.ToUpper | script.js:150 | upper-casing maps a lower-case ASCII letter to its capital and leaves every other character alone |
| Display.Capitalize | script.js:150 | capitalising keeps the length and every character but the first, which is upper-cased as an ASCII letter |
| PrayerPage.FetchPrayerTimes | script.js:62-76 | a schedule results exactly from a reply with code 200; it has the keys fajr, dhuhr, asr, maghrib, isha in that order, each looking up the reply's timing |
| PrayerPage.ScheduleNames | script.js:63-69 | the built object has the five keys in order |
| PrayerPage.ScheduleLookups | script.js:64-68 | each key of the built object holds the timing it was copied from |
| PrayerPage.FetchedListsFallback | script.js:64 | a fetched schedule lists fajr, so the fallback is always defined on it |
| PrayerPage.WithinADay | script.js:120-125 | with times inside a day and now inside today, the chosen instant is between now and one day later |
| PrayerPage.RemainingFits | script.js:140-152 | with times inside a day and now inside today, the time-remaining text has the `HH:MM:SS` shape |
| PrayerPage.Page.constructor | script.js:30 | the page starts with an empty schedule and no card highlighted |
| PrayerPage.Page.UpdateNextPrayer | script.js:137-153 | with an empty schedule nothing changes; otherwise the panel shows the capitalised chosen name, its time text and the countdown, the chosen card is highlighted, and the schedule is kept |
| PrayerPage.Page.LoadPrayerTimes | script.js:156-163 | a successful fetch replaces the whole schedule and refreshes the panel; a failed one changes nothing |
| Scenarios.SampleTexts | script.js:89-93 | the sample day's texts parse to 05:00, 12:00, 15:30, 18:00 and 19:15 |
| Scenarios.Afternoon | script.js:108-152 | at 14:00 on the sample day asr at 15:30 is next, with "01:30:00" left |
| Scenarios.Evening | script.js:120-152 | at 20:00 on the sample day fajr tomorrow is next, with "09:00:00" left |
| Scenarios.DueNow | script.js:113 | a lone fajr due exactly now gives way to tomorrow's fajr, a full day ahead |
| Scenarios.TieGoesToFirst | script.js:113 | of two prayers at the same time, the one listed first is next |
| Scenarios.CountdownExamples | script.js:152 | 3 661 000 ms shows as "01:01:01", 0 as "00:00:00", a day less a second as "23:59:59" |
| Scenarios.CapitalizeExample | script.js:150 | "fajr" shows as "Fajr", "maghrib" as "Maghrib" |
| Scenarios.AfternoonPanel | script.js:150-152 | at 14:00 on the sample day the panel reads "Asr", asr's time text and "01:30:00" |
| Scenarios.LoadSampleDay | script.js:137-163 | loading the sample day at 14:00 shows asr and highlights its card; a failed reload keeps all of it |

## Left out

- DOM: the element lookups, `updatePrayerTimesDisplay` (script.js:80-86), which copies each time into its card, and the class toggling on the cards. The panel texts and the highlighted card are kept as fields of `Page`; the cards' texts are not.
- The request itself (script.js:50-61): building the URL from the city's coordinates and today's date, `fetch`, `response.json()` and `console.error`. The `Reply` datatype stands for what came back.
- The city coordinate table (script.js:19-27): its floating-point values are only passed on to the timings service.
- `updateDateTime` (script.js:34-47): the date and clock are locale formatting done by the host.
- `setInterval`, the `change` listener and `init` (script.js:166-178): scheduling, not logic. Overlapping loads are not modelled either.
- Calendar effects of `setDate(+1)` (script.js:124): a day is always 86 400 000 ms, with no daylight-saving change.
- The second `new Date()` (script.js:141): the model uses one `now` for the choice and the countdown. In the source they differ by a few milliseconds, and a prayer due in between would show a negative countdown.
- JsText.NumberOf: leading or trailing blanks, a sign, a decimal point, and hexadecimal or exponent forms all give NaN in the model, whereas `Number` reads some of them. The timings service sends plain digits.
- NextPrayer.GetNextPrayer: tests whether a prayer was found where the source tests `!nextPrayer`. The two differ only for a key that is the empty string, which none of the five fixed keys is.
- PrayerPage.FetchPrayerTimes: a reply with code 200 but without a `timings` object, or without one of the five timings, cannot be represented. In the source the first becomes `null` through the catch, and the second stores `undefined`.
- PrayerPage.Page.UpdateNextPrayer: always records the chosen card as highlighted. The source highlights it only when an element with that id exists, which holds for the five keys.
- NextPrayer.GetNextPrayer: requires `Selectable` (an entry still ahead, or fajr listed). On any other schedule the source throws while parsing the missing fajr entry, and the model does not represent the exception.
- NextPrayer.ExpectedAhead: bounds the fallback by one day inclusive. Fajr due at `now` exactly gives a countdown of a full day, "24:00:00".
- NextPrayer.Schedule: the entries are kept in insertion order. `for…in` puts integer-like keys first, which none of the five prayer names is, and a repeated key cannot occur in an object, so the order matters only as the tie-break among equal times.
- ClockTime.ParseTime: adds the hours and minutes without bound. A `Date` holds at most 8.64e15 ms either side of the epoch, and a `Number` is exact only up to 2^53, so huge pieces give an Invalid Date or a rounded instant in the source. The timings service sends two-digit pieces.
- Display.ToUpper: covers the ASCII letters only. JavaScript also upper-cases other letters (accented ones, Greek, Cyrillic), and 'ß' becomes "SS", two characters. Prayer names are ASCII.
- Display.Capitalize: upper-cases the first character through `Display.ToUpper`, so it has the same ASCII-only limit, and it always keeps the length. `charAt(0)` also takes half of a surrogate pair where the model takes one character. Prayer names are ASCII.
