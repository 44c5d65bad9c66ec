/**
 * The few JavaScript string built-ins the page relies on, restricted to the
 * inputs it gives them: `String.prototype.split` on one separator character,
 * `Number` applied to a string, `Number.prototype.toString` on an integer and
 * `String.prototype.padStart`.
 */
module JsText {
  import opened Wrappers

  predicate IsDigit(c: char) {
    '0' <= c <= '9'
  }

  predicate IsDigits(s: string) {
    forall i :: 0 <= i < |s| ==> IsDigit(s[i])
  }

  function DigitChar(d: nat): (c: char)
    requires d < 10
    ensures IsDigit(c) && c as int - '0' as int == d
  {
    ('0' as int + d) as char
  }

  /** The value of a string of decimal digits, most significant digit first; 0 for "". */
  function DigitsValue(s: string): (v: nat)
    requires IsDigits(s)
  {
    if s == [] then 0
    else 10 * DigitsValue(s[..|s| - 1]) + (s[|s| - 1] as int - '0' as int)
  }

  /**
   * `Number(s)` for a string: the empty string converts to 0, a string of
   * decimal digits to its value, anything else to NaN (None).
   */
  function NumberOf(s: string): (r: Option<nat>)
    ensures r.Some? <==> IsDigits(s)
    ensures s == [] ==> r == Some(0)
  {
    if IsDigits(s) then Some(DigitsValue(s)) else None
  }

  /** `n.toString()` for a natural number: decimal digits without leading zeros. */
  function NatToString(n: nat): (r: string)
    decreases n
  {
    if n < 10 then [DigitChar(n)] else NatToString(n / 10) + [DigitChar(n % 10)]
  }

  /** The decimal text is digits that convert back to the number, as many as the number needs. */
  lemma {:induction false} NatToStringFacts(n: nat)
    ensures |NatToString(n)| >= 1 && IsDigits(NatToString(n))
    ensures DigitsValue(NatToString(n)) == n
    ensures |NatToString(n)| == 1 <==> n < 10
    ensures |NatToString(n)| == 2 <==> 10 <= n < 100
    ensures NatToString(n)[0] == '0' ==> n == 0
    decreases n
  {
    if n >= 10 {
      NatToStringFacts(n / 10);
      var prefix := NatToString(n / 10);
      var r := prefix + [DigitChar(n % 10)];
      assert r[..|r| - 1] == prefix;
    }
  }

  /** `i.toString()` for an integer: a minus sign before the digits of a negative one. */
  function IntToString(i: int): (r: string) {
    if i < 0 then "-" + NatToString(-i) else NatToString(i)
  }

  /** `fill` repeated `n` times. */
  function Repeat(fill: char, n: nat): (r: string)
    ensures |r| == n
    ensures forall i :: 0 <= i < n ==> r[i] == fill
  {
    if n == 0 then [] else [fill] + Repeat(fill, n - 1)
  }

  /**
   * `s.padStart(width, fill)` with a one-character fill string: a text that
   * is long enough is left alone, a shorter one gets fill characters in
   * front up to the width.
   */
  function PadStart(s: string, width: nat, fill: char): (r: string)
    ensures |r| == if |s| >= width then |s| else width
    ensures |s| >= width ==> r == s
  {
    if |s| >= width then s else Repeat(fill, width - |s|) + s
  }

  /** The padded text ends with the original text, and every character before it is the fill. */
  lemma PadStartContents(s: string, width: nat, fill: char)
    ensures var r := PadStart(s, width, fill);
            r[|r| - |s|..] == s && forall i :: 0 <= i < |r| - |s| ==> r[i] == fill
  {
    var r := PadStart(s, width, fill);
    if |s| < width {
      assert r[|r| - |s|..] == s;
    }
  }

  /** Two-digit zero padding, `s.padStart(2, '0')`. */
  function Pad2(s: string): (r: string)
    ensures |r| == if |s| >= 2 then |s| else 2
    ensures |s| >= 2 ==> r == s
  {
    PadStart(s, 2, '0')
  }

  /** Two-digit padding ends with the original text and puts only '0's in front of it. */
  lemma Pad2Contents(s: string)
    ensures var r := Pad2(s);
            r[|r| - |s|..] == s && forall i :: 0 <= i < |r| - |s| ==> r[i] == '0'
  {
    PadStartContents(s, 2, '0');
  }

  /** `n.toString().padStart(2, '0')` for a natural number. */
  function Padded(n: nat): (r: string) {
    Pad2(NatToString(n))
  }

  /**
   * A padded number is all digits, two of them below 100, and converts back
   * to the number: zero padding does not change its value.
   */
  lemma PaddedFacts(n: nat)
    ensures IsDigits(Padded(n)) && ':' !in Padded(n)
    ensures n < 100 ==> |Padded(n)| == 2
    ensures NumberOf(Padded(n)) == Some(n)
  {
    var s := NatToString(n);
    NatToStringFacts(n);
    if |s| < 2 {
      var r := Padded(n);
      assert r == "0" + s;
      assert r[..|r| - 1] == "0";
      assert r[|r| - 1] == s[0];
      assert IsDigits(r);
      assert DigitsValue("0") == 10 * DigitsValue([]) + 0;
      assert s[..0] == [];
      assert DigitsValue(s) == s[0] as int - '0' as int;
      assert DigitsValue(r) == 10 * DigitsValue("0") + (s[0] as int - '0' as int);
    }
    assert forall i :: 0 <= i < |Padded(n)| ==> IsDigit(Padded(n)[i]);
  }

  /** Below 100, the padded text is exactly the tens digit then the units digit. */
  lemma PaddedDigits(n: nat)
    requires n < 100
    ensures Padded(n) == [DigitChar(n / 10), DigitChar(n % 10)]
  {
    if n >= 10 {
      assert NatToString(n / 10) == [DigitChar(n / 10)];
    } else {
      assert DigitChar(0) == '0';
    }
  }

  /** The pieces joined back with `sep` between them: the inverse of `Split`. */
  function Join(parts: seq<string>, sep: char): (r: string)
    requires |parts| >= 1
  {
    if |parts| == 1 then parts[0] else parts[0] + [sep] + Join(parts[1..], sep)
  }

  /** `s.split(sep)`: the maximal pieces between occurrences of `sep`; there is always one. */
  function Split(s: string, sep: char): (r: seq<string>)
    ensures |r| >= 1
    decreases |s|
  {
    if s == [] then [[]]
    else
      var rest := Split(s[1..], sep);
      if s[0] == sep then [[]] + rest
      else [[s[0]] + rest[0]] + rest[1..]
  }

  /** A string without the separator is a single piece. */
  lemma {:induction false} SplitWithout(s: string, sep: char)
    requires sep !in s
    ensures Split(s, sep) == [s]
    decreases |s|
  {
    if s != [] {
      SplitWithout(s[1..], sep);
      assert [s[0]] + s[1..] == s;
    }
  }

  /** Joining the pieces back with the separator gives the original string. */
  lemma {:induction false} JoinSplit(s: string, sep: char)
    ensures Join(Split(s, sep), sep) == s
    decreases |s|
  {
    if s != [] {
      JoinSplit(s[1..], sep);
      var rest := Split(s[1..], sep);
      assert [s[0]] + s[1..] == s;
      if s[0] == sep {
        JoinEmptyFirst(rest, sep);
      } else {
        JoinConsFirst(s[0], rest, sep);
      }
    }
  }

  lemma JoinEmptyFirst(rest: seq<string>, sep: char)
    requires |rest| >= 1
    ensures Join([[]] + rest, sep) == [sep] + Join(rest, sep)
  {
    assert ([[]] + rest)[1..] == rest;
  }

  lemma JoinConsFirst(c: char, rest: seq<string>, sep: char)
    requires |rest| >= 1
    ensures Join([[c] + rest[0]] + rest[1..], sep) == [c] + Join(rest, sep)
  {
    var r := [[c] + rest[0]] + rest[1..];
    if |rest| > 1 {
      assert r[1..] == rest[1..];
      assert Join(r, sep) == [c] + (rest[0] + [sep] + Join(rest[1..], sep));
    }
  }

  /** Splitting stops at the first separator. */
  lemma {:induction false} SplitAtFirst(a: string, sep: char, b: string)
    requires sep !in a
    ensures Split(a + [sep] + b, sep) == [a] + Split(b, sep)
    decreases |a|
  {
    var s := a + [sep] + b;
    if a == [] {
      assert s[0] == sep && s[1..] == b;
    } else {
      assert s[0] == a[0] && s[1..] == a[1..] + [sep] + b;
      SplitAtFirst(a[1..], sep, b);
      assert [a[0]] + a[1..] == a;
    }
  }

  /** Splitting a join of separator-free pieces gives the pieces back. */
  lemma {:induction false} SplitJoin(parts: seq<string>, sep: char)
    requires |parts| >= 1
    requires forall i :: 0 <= i < |parts| ==> sep !in parts[i]
    ensures Split(Join(parts, sep), sep) == parts
    decreases |parts|
  {
    if |parts| == 1 {
      SplitWithout(parts[0], sep);
    } else {
      SplitJoin(parts[1..], sep);
      SplitAtFirst(parts[0], sep, Join(parts[1..], sep));
      assert [parts[0]] + parts[1..] == parts;
    }
  }
}
