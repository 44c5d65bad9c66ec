/**
 * The texts `updateNextPrayer` writes: the prayer name with its first letter
 * upper-cased and the time left, split into hours, minutes and seconds and
 * shown as `HH:MM:SS`.
 */
module Display {
  import opened Wrappers
  import opened JsText
  import opened ClockTime

  /** `Math.floor(a / b)` for a positive divisor: the greatest q with q * b <= a. */
  function FloorDiv(a: int, b: int): (q: int)
    requires b > 0
    ensures q * b <= a < q * b + b
  {
    a / b
  }

  /**
   * JavaScript's `a % b`: what is left of `a` after taking away `b` times the
   * quotient truncated toward zero, so the remainder takes the sign of the
   * dividend.
   */
  function JsRem(a: int, b: int): (r: int)
    requires b > 0
    ensures a - r == (if a >= 0 then a / b else -((-a) / b)) * b
    ensures a >= 0 ==> r == a % b
    ensures a < 0 ==> -b < r <= 0
  {
    if a >= 0 then a % b else -((-a) % b)
  }

  datatype Hms = Hms(hours: int, minutes: int, seconds: int)

  /** The milliseconds a countdown's fields stand for. */
  function Total(c: Hms): (ms: int) {
    c.hours * MS_PER_HOUR + c.minutes * MS_PER_MINUTE + c.seconds * MS_PER_SECOND
  }

  /**
   * The three fields of the countdown. For a non-negative difference they are
   * the whole hours, the minutes and the seconds left over, truncated: the
   * fields never account for more than the difference, nor for a second less.
   */
  function Decompose(diff: int): (c: Hms)
    ensures diff >= 0 ==> c.hours == diff / MS_PER_HOUR
    ensures diff >= 0 ==> 0 <= c.minutes < 60 && 0 <= c.seconds < 60
    ensures diff >= 0 ==> Total(c) <= diff < Total(c) + MS_PER_SECOND
  {
    var c := Hms(FloorDiv(diff, MS_PER_HOUR),
                 FloorDiv(JsRem(diff, MS_PER_HOUR), MS_PER_MINUTE),
                 FloorDiv(JsRem(diff, MS_PER_MINUTE), MS_PER_SECOND));
    if diff >= 0 then
      DecomposeBounds(diff);
      c
    else c
  }

  lemma DecomposeBounds(diff: int)
    requires diff >= 0
    ensures var h, m, s := diff / 3600000, diff % 3600000 / 60000, diff % 60000 / 1000;
            0 <= m < 60 && 0 <= s < 60 &&
            h * 3600000 + m * 60000 + s * 1000 <= diff < h * 3600000 + m * 60000 + s * 1000 + 1000
  {
    var h, r := diff / 3600000, diff % 3600000;
    var m, r2 := r / 60000, r % 60000;
    assert diff == h * 3600000 + r;
    assert r == m * 60000 + r2;
    assert diff == (h * 60 + m) * 60000 + r2;
    assert diff % 60000 == r2;
  }

  /** Fields in their usual ranges are exactly what the milliseconds they stand for decompose into. */
  lemma DecomposeTotal(c: Hms)
    requires c.hours >= 0 && 0 <= c.minutes < 60 && 0 <= c.seconds < 60
    ensures Decompose(Total(c)) == c
  {
    TotalDivisions(c.hours, c.minutes, c.seconds, Total(c));
  }

  lemma TotalDivisions(h: int, m: int, s: int, d: int)
    requires h >= 0 && 0 <= m < 60 && 0 <= s < 60
    requires d == h * 3600000 + m * 60000 + s * 1000
    ensures d / 3600000 == h && d % 3600000 / 60000 == m && d % 60000 / 1000 == s
  {
    var r := m * 60000 + s * 1000;
    assert d == h * 3600000 + r && 0 <= r < 3600000;
    assert d / 3600000 == h && d % 3600000 == r;
    assert r / 60000 == m;
    assert d == (h * 60 + m) * 60000 + s * 1000;
    assert d % 60000 == s * 1000;
  }

  /** `n.toString().padStart(2, '0')`. */
  function Field(n: int): (r: string) {
    Pad2(IntToString(n))
  }

  /** The three fields, each padded to two digits, joined by ':'. */
  function Text(c: Hms): (r: string) {
    Field(c.hours) + ":" + Field(c.minutes) + ":" + Field(c.seconds)
  }

  /** The countdown text `HH:MM:SS` for a difference in milliseconds. */
  function CountdownText(diff: int): (r: string) {
    Text(Decompose(diff))
  }

  /**
   * The time-remaining text for the chosen instant. An Invalid Date makes
   * every field NaN, which `padStart` leaves as it is.
   */
  function RemainingText(at: Option<int>, now: int): (r: string) {
    match at
    case Some(t) => CountdownText(t - now)
    case None => "NaN:NaN:NaN"
  }

  /** Reads an `H:MM:SS` text back as milliseconds. */
  function ParseCountdown(s: string): (r: Option<int>) {
    var fields := Split(s, ':');
    if |fields| != 3 then None
    else
      var h, m, sec := NumberOf(fields[0]), NumberOf(fields[1]), NumberOf(fields[2]);
      if h.Some? && m.Some? && sec.Some? then
        Some(h.value * MS_PER_HOUR + m.value * MS_PER_MINUTE + sec.value * MS_PER_SECOND)
      else None
  }

  /**
   * A negative field (a countdown past its instant) is a minus sign and the
   * digits of the magnitude: it is already two characters or more, so no
   * '0' is put in front of it.
   */
  lemma FieldNegative(n: int)
    requires n < 0
    ensures Field(n) == "-" + NatToString(-n)
    ensures IsDigits(Field(n)[1..]) && DigitsValue(Field(n)[1..]) == -n
  {
    NatToStringFacts(-n);
    assert Field(n)[1..] == NatToString(-n);
  }

  /**
   * The time-remaining text: NaN in every field for an Invalid Date; for an
   * instant not yet past, a text that reads back as the time left truncated
   * to whole seconds, and that has the `HH:MM:SS` shape below 100 hours.
   */
  lemma RemainingReadsBack(at: Option<int>, now: int)
    ensures at.None? ==> RemainingText(at, now) == "NaN:NaN:NaN"
    ensures at.Some? && at.value - now >= 0 ==>
              var diff := at.value - now;
              ParseCountdown(RemainingText(at, now)) == Some(diff - diff % MS_PER_SECOND)
    ensures at.Some? && 0 <= at.value - now < 100 * MS_PER_HOUR ==>
              var r := RemainingText(at, now);
              |r| == 8 && r[2] == ':' && r[5] == ':'
  {
    if at.Some? {
      CountdownFacts(at.value - now);
    }
  }

  lemma CountdownFacts(diff: int)
    ensures diff >= 0 ==> ParseCountdown(CountdownText(diff)) == Some(diff - diff % MS_PER_SECOND)
    ensures 0 <= diff < 100 * MS_PER_HOUR ==>
              |CountdownText(diff)| == 8 && CountdownText(diff)[2] == ':' && CountdownText(diff)[5] == ':'
  {
    if diff >= 0 {
      CountdownRoundTrip(diff);
      if diff < 100 * MS_PER_HOUR {
        CountdownShape(diff);
      }
    }
  }

  /** A field of a value below 100 is exactly two digits; one of any natural number reads back as it. */
  lemma FieldOf(n: nat)
    ensures Field(n) == Padded(n)
    ensures n < 100 ==> |Field(n)| == 2
    ensures ':' !in Field(n)
    ensures NumberOf(Field(n)) == Some(n)
  {
    PaddedFacts(n);
  }

  /** With every field below 100 the text is six digits around two colons, two per field. */
  lemma TextDigits(c: Hms, s: string)
    requires 0 <= c.hours < 100 && 0 <= c.minutes < 100 && 0 <= c.seconds < 100
    requires s == [DigitChar(c.hours / 10), DigitChar(c.hours % 10), ':',
                   DigitChar(c.minutes / 10), DigitChar(c.minutes % 10), ':',
                   DigitChar(c.seconds / 10), DigitChar(c.seconds % 10)]
    ensures Text(c) == s
  {
    FieldDigits(c.hours);
    FieldDigits(c.minutes);
    FieldDigits(c.seconds);
  }

  lemma FieldDigits(n: int)
    requires 0 <= n < 100
    ensures Field(n) == [DigitChar(n / 10), DigitChar(n % 10)]
  {
    PaddedDigits(n);
  }

  /**
   * The countdown text reads back as the difference truncated to whole
   * seconds: the text is exact up to the dropped milliseconds.
   */
  lemma CountdownRoundTrip(diff: int)
    requires diff >= 0
    ensures ParseCountdown(CountdownText(diff)) == Some(diff - diff % MS_PER_SECOND)
  {
    FieldsRoundTrip(diff, Decompose(diff));
  }

  lemma FieldsRoundTrip(diff: int, c: Hms)
    requires c.hours >= 0 && c.minutes >= 0 && c.seconds >= 0
    requires Total(c) <= diff < Total(c) + MS_PER_SECOND
    ensures ParseCountdown(Text(c)) == Some(diff - diff % MS_PER_SECOND)
  {
    TextRoundTrip(c);
    WholeSeconds(diff, c);
  }

  /** The text of non-negative fields reads back as the milliseconds they stand for. */
  lemma TextRoundTrip(c: Hms)
    requires c.hours >= 0 && c.minutes >= 0 && c.seconds >= 0
    ensures ParseCountdown(Text(c)) == Some(Total(c))
  {
    FieldOf(c.hours);
    FieldOf(c.minutes);
    FieldOf(c.seconds);
    PiecesRoundTrip(Field(c.hours), Field(c.minutes), Field(c.seconds), c.hours, c.minutes, c.seconds);
  }

  lemma PiecesRoundTrip(a: string, b: string, c: string, h: nat, m: nat, s: nat)
    requires ':' !in a && ':' !in b && ':' !in c
    requires NumberOf(a) == Some(h) && NumberOf(b) == Some(m) && NumberOf(c) == Some(s)
    ensures ParseCountdown(a + ":" + b + ":" + c) == Some(Total(Hms(h, m, s)))
  {
    var parts := [a, b, c];
    assert Join(parts, ':') == a + ":" + b + ":" + c by {
      assert parts[1..] == [b, c];
      assert parts[1..][1..] == [c];
      assert Join([b, c], ':') == b + [':'] + c;
      assert Join(parts, ':') == a + [':'] + (b + [':'] + c);
    }
    SplitJoin(parts, ':');
  }

  lemma WholeSeconds(diff: int, c: Hms)
    requires Total(c) <= diff < Total(c) + MS_PER_SECOND
    ensures Total(c) == diff - diff % MS_PER_SECOND
  {
    var w := c.hours * 3600 + c.minutes * 60 + c.seconds;
    assert Total(c) == w * 1000;
    assert diff / 1000 == w;
  }

  /**
   * Below 100 hours every field has exactly two digits, so the text is eight
   * characters with the separators at positions 2 and 5.
   */
  lemma CountdownShape(diff: int)
    requires 0 <= diff < 100 * MS_PER_HOUR
    ensures |CountdownText(diff)| == 8
    ensures CountdownText(diff)[2] == ':' && CountdownText(diff)[5] == ':'
  {
    TextShape(Decompose(diff));
  }

  lemma TextShape(c: Hms)
    requires 0 <= c.hours < 100 && 0 <= c.minutes < 100 && 0 <= c.seconds < 100
    ensures |Text(c)| == 8 && Text(c)[2] == ':' && Text(c)[5] == ':'
  {
    FieldOf(c.hours);
    FieldOf(c.minutes);
    FieldOf(c.seconds);
  }

  /** `String.prototype.toUpperCase` on one character, for the ASCII letters prayer names use. */
  function ToUpper(ch: char): (u: char)
    ensures 'a' <= ch <= 'z' ==> 'A' <= u <= 'Z' && u as int - 'A' as int == ch as int - 'a' as int
    ensures !('a' <= ch <= 'z') ==> u == ch
  {
    if 'a' <= ch <= 'z' then (ch as int - 'a' as int + 'A' as int) as char else ch
  }

  /** `name.charAt(0).toUpperCase() + name.slice(1)`: only the first character changes. */
  function Capitalize(name: string): (r: string)
    ensures |r| == |name|
    ensures forall i :: 1 <= i < |name| ==> r[i] == name[i]
    ensures name != [] ==> r[0] == ToUpper(name[0])
  {
    if name == [] then [] else [ToUpper(name[0])] + name[1..]
  }
}
