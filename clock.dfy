/**
 * The clock face: `formatTime` renders a number of seconds as `H:MM:SS`
 * (one hour or more) or `MM:SS`, the way JavaScript's `toString` and
 * `padStart(2, '0')` produce it. `ParseClock` reads such a display back;
 * the two lemmas at the end prove that they are inverse to each other, so
 * the display shows every whole-second value exactly and unambiguously.
 */
module Clock {
  import opened Optional

  /** The character of a decimal digit. */
  function DigitChar(d: nat): (c: char)
    requires d < 10
    ensures '0' <= c <= '9'
    ensures c as int - '0' as int == d
  {
    ('0' as int + d) as char
  }

  function DigitValue(c: char): nat
    requires '0' <= c <= '9'
  {
    c as int - '0' as int
  }

  predicate IsDigits(text: string) {
    forall i :: 0 <= i < |text| ==> '0' <= text[i] <= '9'
  }

  /** `n.toString()` for a non-negative integer: digits only, no leading zero. */
  function Decimal(n: nat): (r: string)
    ensures IsDigits(r) && 1 <= |r|
    ensures n < 10 <==> |r| == 1
    ensures n < 100 ==> |r| <= 2
    ensures n > 0 ==> r[0] != '0'
    decreases n
  {
    if n < 10 then [DigitChar(n)] else Decimal(n / 10) + [DigitChar(n % 10)]
  }

  /** The number a string of decimal digits denotes. */
  function DigitsValue(text: string): nat
    requires IsDigits(text)
    decreases |text|
  {
    if text == [] then 0
    else DigitsValue(text[..|text| - 1]) * 10 + DigitValue(text[|text| - 1])
  }

  /** `text.padStart(2, '0')`. */
  function Pad2(text: string): (r: string)
    ensures |r| == if |text| < 2 then 2 else |text|
    ensures |text| == 0 ==> r == "00"
    ensures |text| == 1 ==> r == ['0'] + text
    ensures |text| >= 2 ==> r == text
  {
    if |text| == 0 then "00" else if |text| == 1 then "0" + text else text
  }

  /** The display for `h` hours, `m` minutes and `s` seconds. */
  function Render(h: nat, m: nat, s: nat): (r: string)
    requires m < 60 && s < 60
    ensures h == 0 <==> |r| == 5
    ensures 5 <= |r| && r[|r| - 3] == ':'
  {
    if h > 0 then Decimal(h) + ":" + Pad2(Decimal(m)) + ":" + Pad2(Decimal(s))
    else Pad2(Decimal(m)) + ":" + Pad2(Decimal(s))
  }

  /** formatTime: hours are shown only when there is at least one. */
  function FormatTime(seconds: nat): (r: string)
    ensures seconds < 3600 <==> |r| == 5
    ensures 5 <= |r| && r[|r| - 3] == ':'
  {
    ClockSplit(seconds);
    Render(seconds / 3600, (seconds % 3600) / 60, seconds % 60)
  }

  /** A minutes or seconds field: two digits, below 60. */
  predicate IsSexagesimal(text: string) {
    |text| == 2 && IsDigits(text) && DigitsValue(text) < 60
  }

  /** An hours field: digits, at least one hour, no leading zero. */
  predicate IsHours(text: string) {
    1 <= |text| && IsDigits(text) && text[0] != '0'
  }

  /** Reads `MM:SS` back into seconds. */
  function ParseMinSec(text: string): (r: Option<nat>)
    ensures r.Some? ==> |text| == 5 && r.value < 3600
  {
    if |text| == 5 && text[2] == ':' && IsSexagesimal(text[..2]) && IsSexagesimal(text[3..])
    then Some(DigitsValue(text[..2]) * 60 + DigitsValue(text[3..]))
    else None
  }

  /** Reads `H:MM:SS` (hours at least one, no leading zero) back into seconds. */
  function ParseHourMinSec(text: string): (r: Option<nat>)
    requires |text| >= 7
  {
    var k := |text| - 6;
    if text[k] == ':' && IsHours(text[..k]) && ParseMinSec(text[k + 1..]).Some?
    then Some(DigitsValue(text[..k]) * 3600 + ParseMinSec(text[k + 1..]).value)
    else None
  }

  /**
   * Reads a clock display back: `MM:SS`, or `H:MM:SS` with an hours field
   * of at least one and no leading zero. Anything else is not a display
   * `FormatTime` produces.
   */
  function ParseClock(text: string): (r: Option<nat>)
  {
    if |text| <= 6 then ParseMinSec(text) else ParseHourMinSec(text)
  }

  lemma DigitsValueSnoc(text: string, c: char)
    requires IsDigits(text) && '0' <= c <= '9'
    ensures IsDigits(text + [c])
    ensures DigitsValue(text + [c]) == DigitsValue(text) * 10 + DigitValue(c)
  {
    assert (text + [c])[..|text|] == text;
  }

  /** Reading the numeral of `n` gives `n` back. */
  lemma {:induction false} DecimalValue(n: nat)
    ensures DigitsValue(Decimal(n)) == n
    decreases n
  {
    if n >= 10 {
      DecimalValue(n / 10);
      DigitsValueSnoc(Decimal(n / 10), DigitChar(n % 10));
    }
  }

  /** A numeral without leading zero is the numeral of its value. */
  lemma {:induction false} ValueDecimal(text: string)
    requires IsDigits(text) && 1 <= |text|
    requires |text| > 1 ==> text[0] != '0'
    ensures Decimal(DigitsValue(text)) == text
    decreases |text|
  {
    if |text| == 1 {
      assert text[..0] == [];
    } else {
      var p := text[..|text| - 1];
      var c := text[|text| - 1];
      assert p[0] == text[0];
      ValueDecimal(p);
      assert DigitsValue(p) > 0;
      var v := DigitsValue(text);
      assert v / 10 == DigitsValue(p) && v % 10 == DigitValue(c);
      assert text == p + [c];
    }
  }

  /** A two-digit field of the display shows `n` for every `n < 100`. */
  lemma TwoDigits(n: nat)
    requires n < 100
    ensures |Pad2(Decimal(n))| == 2 && IsDigits(Pad2(Decimal(n)))
    ensures DigitsValue(Pad2(Decimal(n))) == n
  {
    DecimalValue(n);
    var d := Decimal(n);
    if |d| == 1 {
      assert Pad2(d) == "0" + d;
      DigitsValueSnoc("0", d[0]);
      assert "0" + d == "0" + [d[0]];
      assert DigitsValue("0") == 0 by { assert "0"[..0] == []; }
      assert DigitsValue(d) == DigitValue(d[0]) by { assert d[..0] == []; }
    }
  }

  /** Every two-digit field is the padded numeral of its value. */
  lemma TwoDigitsCanonical(text: string)
    requires |text| == 2 && IsDigits(text)
    ensures Pad2(Decimal(DigitsValue(text))) == text
  {
    var v := DigitsValue(text);
    assert text[..1] == [text[0]];
    assert [text[0]][..0] == [];
    if text[0] == '0' {
      assert DigitsValue(text[..1]) == 0;
      assert v == DigitValue(text[1]);
      assert Decimal(v) == [text[1]];
      assert text == "0" + [text[1]];
    } else {
      ValueDecimal(text);
    }
  }

  /** Division by a positive constant, pinned by its quotient and remainder. */
  lemma DivMod60(x: int, q: int, r: int)
    requires x == q * 60 + r && 0 <= r < 60
    ensures x / 60 == q && x % 60 == r
  {
  }

  lemma DivMod3600(x: int, q: int, r: int)
    requires x == q * 3600 + r && 0 <= r < 3600
    ensures x / 3600 == q && x % 3600 == r
  {
  }

  lemma ClockFields(h: nat, m: nat, s: nat)
    requires m < 60 && s < 60
    ensures (h * 3600 + m * 60 + s) / 3600 == h
    ensures ((h * 3600 + m * 60 + s) % 3600) / 60 == m
    ensures (h * 3600 + m * 60 + s) % 60 == s
  {
    var x, y := h * 3600 + m * 60 + s, m * 60 + s;
    DivMod3600(x, h, y);
    DivMod60(y, m, s);
    DivMod60(x, h * 60 + m, s);
  }

  lemma ClockSplit(seconds: nat)
    ensures seconds == (seconds / 3600) * 3600 + ((seconds % 3600) / 60) * 60 + seconds % 60
    ensures (seconds % 3600) / 60 < 60
  {
    var h, x := seconds / 3600, seconds % 3600;
    var m, s := x / 60, x % 60;
    assert x == m * 60 + s;
    DivMod60(seconds, h * 60 + m, s);
  }

  lemma ParseShort(ms: string, ss: string)
    requires IsSexagesimal(ms) && IsSexagesimal(ss)
    ensures ParseMinSec(ms + ":" + ss) == Some(DigitsValue(ms) * 60 + DigitsValue(ss))
  {
    var text := ms + ":" + ss;
    assert |text| == 5;
    assert text[..2] == ms;
    assert text[2] == ':';
    assert text[3..] == ss;
    assert IsSexagesimal(text[..2]) && IsSexagesimal(text[3..]);
  }

  lemma ParseLong(hs: string, rest: string)
    requires IsHours(hs) && ParseMinSec(rest).Some?
    ensures |hs + ":" + rest| >= 7
    ensures ParseHourMinSec(hs + ":" + rest) == Some(DigitsValue(hs) * 3600 + ParseMinSec(rest).value)
  {
    assert |rest| == 5;
    var text := hs + ":" + rest;
    var k := |hs|;
    assert |text| == k + 6;
    assert text[k] == ':';
    assert text[..k] == hs;
    assert text[k + 1..] == rest;
  }

  lemma ParseRender(h: nat, m: nat, s: nat)
    requires m < 60 && s < 60
    ensures ParseClock(Render(h, m, s)) == Some(h * 3600 + m * 60 + s)
  {
    TwoDigits(m);
    TwoDigits(s);
    var rest := Pad2(Decimal(m)) + ":" + Pad2(Decimal(s));
    ParseShort(Pad2(Decimal(m)), Pad2(Decimal(s)));
    if h > 0 {
      ParseRenderLong(h, rest, m * 60 + s);
      assert Render(h, m, s) == Decimal(h) + ":" + rest;
    } else {
      assert Render(h, m, s) == rest;
    }
  }

  /** The hour-bearing half of `ParseRender`: a positive hour count in front
      of a parsable minutes:seconds field parses to the sum. */
  lemma ParseRenderLong(h: nat, rest: string, ms: nat)
    requires h > 0 && ParseMinSec(rest) == Some(ms)
    ensures ParseClock(Decimal(h) + ":" + rest) == Some(h * 3600 + ms)
  {
    DecimalValue(h);
    ParseLong(Decimal(h), rest);
  }

  /** Every display reads back as the number of seconds it was made from. */
  lemma ParseFormat(seconds: nat)
    ensures ParseClock(FormatTime(seconds)) == Some(seconds)
  {
    var h, m, s := seconds / 3600, (seconds % 3600) / 60, seconds % 60;
    ClockSplit(seconds);
    assert FormatTime(seconds) == Render(h, m, s);
    ParseRender(h, m, s);
    assert h * 3600 + m * 60 + s == seconds;
  }

  lemma MinSecCanonical(text: string, seconds: nat)
    requires ParseMinSec(text) == Some(seconds)
    ensures seconds < 3600 && seconds / 60 < 60
    ensures Render(0, seconds / 60, seconds % 60) == text
  {
    var ms, ss := text[..2], text[3..];
    assert IsSexagesimal(ms) && IsSexagesimal(ss);
    var m, s := DigitsValue(ms), DigitsValue(ss);
    assert seconds == m * 60 + s;
    DivMod60(seconds, m, s);
    TwoDigitsCanonical(ms);
    TwoDigitsCanonical(ss);
    assert Render(0, m, s) == ms + ":" + ss;
    assert text == ms + ":" + ss;
  }

  lemma FormatFields(seconds: nat, h: nat, m: nat, s: nat)
    requires m < 60 && s < 60 && seconds == h * 3600 + m * 60 + s
    ensures FormatTime(seconds) == Render(h, m, s)
  {
    ClockFields(h, m, s);
    assert seconds / 3600 == h && (seconds % 3600) / 60 == m && seconds % 60 == s;
  }

  lemma RenderLong(h: nat, m: nat, s: nat)
    requires h > 0 && m < 60 && s < 60
    ensures Render(h, m, s) == Decimal(h) + ":" + Render(0, m, s)
  {
    var hs, pm, ps := Decimal(h), Pad2(Decimal(m)), Pad2(Decimal(s));
    assert Render(0, m, s) == pm + ":" + ps;
    assert Render(h, m, s) == hs + ":" + pm + ":" + ps;
    assert hs + ":" + pm + ":" + ps == hs + ":" + (pm + ":" + ps);
  }

  lemma LongCanonical(hs: string, rest: string, ms: nat, seconds: nat)
    requires IsHours(hs) && ParseMinSec(rest) == Some(ms)
    requires seconds == DigitsValue(hs) * 3600 + ms
    ensures FormatTime(seconds) == hs + ":" + rest
  {
    var h := DigitsValue(hs);
    MinSecCanonical(rest, ms);
    ValueDecimal(hs);
    assert h > 0;
    var m, sec := ms / 60, ms % 60;
    FormatFields(seconds, h, m, sec);
    RenderLong(h, m, sec);
  }

  lemma ShortCanonical(text: string, seconds: nat)
    requires ParseMinSec(text) == Some(seconds)
    ensures FormatTime(seconds) == text
  {
    MinSecCanonical(text, seconds);
    FormatFields(seconds, 0, seconds / 60, seconds % 60);
  }

  /** Every string `ParseClock` accepts is exactly the display of its value. */
  lemma FormatParse(text: string, seconds: nat)
    requires ParseClock(text) == Some(seconds)
    ensures FormatTime(seconds) == text
  {
    if |text| <= 6 {
      assert ParseMinSec(text) == Some(seconds);
      ShortCanonical(text, seconds);
    } else {
      var k := |text| - 6;
      var hs, rest := text[..k], text[k + 1..];
      assert IsHours(hs) && ParseMinSec(rest).Some?;
      var ms := ParseMinSec(rest).value;
      assert seconds == DigitsValue(hs) * 3600 + ms;
      LongCanonical(hs, rest, ms, seconds);
      assert text == hs + ":" + rest;
    }
  }

  /** Different remaining times never look the same on the clock face. */
  lemma FormatInjective(a: nat, b: nat)
    requires FormatTime(a) == FormatTime(b)
    ensures a == b
  {
    ParseFormat(a);
    ParseFormat(b);
  }
}
