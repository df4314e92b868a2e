/** `format_timestamp` of app/main.py: a number of seconds rendered as the SRT
    timestamp HH:MM:SS,mmm. Seconds are exact reals; Python's float `//` and `%`
    are floor division and floor modulo, and `int()` truncates toward zero. */
module Timestamp {
  import opened Text

  /** The four fields of an SRT timestamp. */
  datatype Clock = Clock(hours: int, minutes: int, seconds: int, millis: int)

  /** Python's `x // m` for m > 0. */
  function FloorDiv(x: real, m: real): (q: real)
    requires m > 0.0
    ensures q == q.Floor as real && q <= x / m < q + 1.0
  {
    (x / m).Floor as real
  }

  /** Python's `x % m` for m > 0: the remainder takes the sign of m. */
  function FloorMod(x: real, m: real): (r: real)
    requires m > 0.0
    ensures 0.0 <= r < m
    ensures x == m * FloorDiv(x, m) + r
  {
    FloorModBounds(x, m);
    x - m * FloorDiv(x, m)
  }

  lemma FloorModBounds(x: real, m: real)
    requires m > 0.0
    ensures 0.0 <= x - m * FloorDiv(x, m) < m
  {
    RemainderBounds(x, m, FloorDiv(x, m));
  }

  /** A q with q <= x / m < q + 1 leaves a remainder in [0, m). */
  lemma RemainderBounds(x: real, m: real, q: real)
    requires m > 0.0 && q <= x / m < q + 1.0
    ensures 0.0 <= x - m * q < m
  {
    var y := x / m;
    var d := y - q;
    assert x == m * y;
    assert x - m * q == m * d;
    ScaleFraction(m, d);
  }

  lemma ScaleFraction(m: real, d: real)
    requires m > 0.0 && 0.0 <= d < 1.0
    ensures 0.0 <= m * d < m
  {
    assert m - m * d == m * (1.0 - d);
  }

  /** Python's `int(x)` on a float: truncation toward zero. */
  function Trunc(x: real): (i: int)
    ensures 0.0 <= x ==> i as real <= x < i as real + 1.0
    ensures x < 0.0 ==> i as real - 1.0 < x <= i as real
  {
    if x >= 0.0 then x.Floor else -((-x).Floor)
  }

  /** Flooring s / d is flooring the whole part of s first. */
  lemma FloorOfQuotient(s: real, d: int)
    requires d > 0
    ensures (s / d as real).Floor == s.Floor / d
  {
    var f := s.Floor;
    var q, r := f / d, f % d;
    assert f == d * q + r && 0 <= r < d;
    assert (d * q) as real == (d as real) * (q as real);
    assert ((d * q + d) as real) == (d as real) * ((q + 1) as real);
    assert (d as real) * (q as real) <= s < (d as real) * ((q + 1) as real);
    assert q as real <= s / d as real < (q + 1) as real;
  }

  /** The fields `format_timestamp` computes from `seconds` (app/main.py:38-41). Every
      field but the hours lies in its clock range, the hours, minutes and seconds
      recombine to the whole seconds, and the milliseconds are the first three
      decimals of the fraction; so the fields are the mixed-radix digits of the
      whole number of milliseconds in `seconds`, for negative inputs too. */
  function Fields(seconds: real): (c: Clock)
    ensures 0 <= c.minutes < 60 && 0 <= c.seconds < 60 && 0 <= c.millis < 1000
    ensures c.hours * 3600 + c.minutes * 60 + c.seconds == seconds.Floor
    ensures c.millis == ((seconds - seconds.Floor as real) * 1000.0).Floor
    ensures ((c.hours * 60 + c.minutes) * 60 + c.seconds) * 1000 + c.millis == (seconds * 1000.0).Floor
  {
    var c := Clock(
      Trunc(FloorDiv(seconds, 3600.0)),
      Trunc(FloorDiv(FloorMod(seconds, 3600.0), 60.0)),
      Trunc(FloorMod(seconds, 60.0)),
      Trunc(FloorMod(seconds, 1.0) * 1000.0));
    FieldsOfWholeSeconds(seconds);
    WholeSecondsSplit(seconds.Floor);
    c
  }

  /** Whole seconds split into hours, minutes below 60 and seconds below 60. */
  lemma WholeSecondsSplit(f: int)
    ensures 0 <= (f % 3600) / 60 < 60 && 0 <= f % 60 < 60
    ensures (f / 3600) * 3600 + ((f % 3600) / 60) * 60 + f % 60 == f
  {
    var q, r := f / 3600, f % 3600;
    assert f == 3600 * q + r;
    var m, s := r / 60, r % 60;
    assert r == 60 * m + s;
    ModOfMultiplePlus(60 * q + m, s);
  }

  lemma ModOfMultiplePlus(k: int, s: int)
    requires 0 <= s < 60
    ensures (60 * k + s) % 60 == s
  {
  }

  lemma FieldsOfWholeSeconds(seconds: real)
    ensures
      var f := seconds.Floor;
      Trunc(FloorDiv(seconds, 3600.0)) == f / 3600
      && Trunc(FloorDiv(FloorMod(seconds, 3600.0), 60.0)) == (f % 3600) / 60
      && Trunc(FloorMod(seconds, 60.0)) == f % 60
      && Trunc(FloorMod(seconds, 1.0) * 1000.0) == ((seconds - f as real) * 1000.0).Floor
      && 0 <= ((seconds - f as real) * 1000.0).Floor < 1000
      && f * 1000 + ((seconds - f as real) * 1000.0).Floor == (seconds * 1000.0).Floor
  {
    var f := seconds.Floor;
    FloorOfQuotient(seconds, 3600);
    FloorOfQuotient(seconds, 60);
    FloorOfQuotient(seconds, 1);
    var h := f / 3600;
    var rest := seconds - 3600.0 * h as real;
    assert rest.Floor == f % 3600;
    FloorOfQuotient(rest, 60);
    assert FloorMod(seconds, 3600.0) == rest;
    assert FloorMod(seconds, 60.0) == seconds - 60.0 * (f / 60) as real;
    assert (seconds - 60.0 * (f / 60) as real).Floor == f % 60;
  }

  /** The f-string `f"{hours:02d}:{minutes:02d}:{secs:02d},{millis:03d}"`. */
  function Render(c: Clock): string {
    PadDecimal(c.hours, 2) + Tail(c)
  }

  /** A character a rendered timestamp may hold. */
  predicate IsTimestampChar(ch: char) {
    IsDigit(ch) || ch == '-' || ch == ':' || ch == ','
  }

  /** `format_timestamp(seconds)` (app/main.py:36-42). */
  function FormatTimestamp(seconds: real): string {
    Render(Fields(seconds))
  }

  /** The fields of a clock lie in their ranges (hours are unbounded). */
  predicate InRange(c: Clock) {
    0 <= c.minutes < 60 && 0 <= c.seconds < 60 && 0 <= c.millis < 1000
  }

  /** ":MM:SS,mmm", the ten characters after the hours field. */
  function Tail(c: Clock): string {
    ":" + PadDecimal(c.minutes, 2) + ":" + PadDecimal(c.seconds, 2) + "," + PadDecimal(c.millis, 3)
  }

  /** Where the pieces of hh + ":" + mm + ":" + ss + "," + ms sit, for any strings of
      the widths a rendered clock has. */
  lemma PiecesLayout(hh: string, mm: string, ss: string, ms: string)
    requires |hh| >= 2 && |mm| == 2 && |ss| == 2 && |ms| == 3
    ensures var r := hh + (":" + mm + ":" + ss + "," + ms); var n := |r|;
      n == |hh| + 10
      && r[n - 10] == ':' && r[n - 7] == ':' && r[n - 4] == ','
      && r[..n - 10] == hh && r[n - 9..n - 7] == mm && r[n - 6..n - 4] == ss && r[n - 3..] == ms
  {
    var r := hh + (":" + mm + ":" + ss + "," + ms);
    assert r[|hh|..] == ":" + mm + ":" + ss + "," + ms;
  }

  /** The characters of such a string are those of its pieces and separators. */
  lemma PiecesChars(hh: string, mm: string, ss: string, ms: string)
    requires |hh| >= 2 && |mm| == 2 && |ss| == 2 && |ms| == 3
    requires forall k :: 0 <= k < |hh| ==> IsTimestampChar(hh[k])
    requires AllDigits(mm) && AllDigits(ss) && AllDigits(ms)
    ensures var r := hh + (":" + mm + ":" + ss + "," + ms);
      (forall k :: 0 <= k < |r| ==> IsTimestampChar(r[k]))
      && (AllDigits(hh) && |hh| == 2 ==>
            |r| == 12 && r[2] == ':' && r[5] == ':' && r[8] == ','
            && forall k :: 0 <= k < 12 && k != 2 && k != 5 && k != 8 ==> IsDigit(r[k]))
  {
    var t := ":" + mm + ":" + ss + "," + ms;
    assert t == [':', mm[0], mm[1], ':', ss[0], ss[1], ',', ms[0], ms[1], ms[2]];
    var r := hh + t;
    assert forall k :: |hh| <= k < |r| ==> r[k] == t[k - |hh|];
  }

  /** A '-' followed by digits holds only timestamp characters. */
  lemma SignedChars(r: string)
    requires |r| >= 1 && r[0] == '-' && AllDigits(r[1..])
    ensures forall k :: 0 <= k < |r| ==> IsTimestampChar(r[k])
  {
    assert forall k :: 1 <= k < |r| ==> r[k] == r[1..][k - 1];
  }

  /** The hours field holds only digits and, when negative, a leading '-'. */
  lemma HoursChars(hours: int)
    ensures var hh := PadDecimal(hours, 2); forall k :: 0 <= k < |hh| ==> IsTimestampChar(hh[k])
  {
    if hours < 0 {
      SignedChars(PadDecimal(hours, 2));
    }
  }

  /** The pieces of a rendered in-range clock, with their widths. */
  lemma RenderPieces(c: Clock)
    requires InRange(c)
    ensures var hh, mm, ss, ms := PadDecimal(c.hours, 2), PadDecimal(c.minutes, 2), PadDecimal(c.seconds, 2), PadDecimal(c.millis, 3);
      Render(c) == hh + (":" + mm + ":" + ss + "," + ms)
      && |hh| >= 2 && |mm| == 2 && |ss| == 2 && |ms| == 3
      && (forall k :: 0 <= k < |hh| ==> IsTimestampChar(hh[k]))
      && AllDigits(mm) && AllDigits(ss) && AllDigits(ms)
      && (0 <= c.hours < 100 ==> |hh| == 2 && AllDigits(hh))
  {
    PadDecimalWidth(c.minutes, 2);
    PadDecimalWidth(c.seconds, 2);
    PadDecimalWidth(c.millis, 3);
    if 0 <= c.hours < 100 {
      PadDecimalWidth(c.hours, 2);
    }
    HoursChars(c.hours);
  }

  /** The shape of a rendered timestamp: ":MM:SS,mmm" at the end after an hours
      field of at least two characters, only digits, '-', ':' and ',', and, when
      short, exactly HH:MM:SS,mmm with digits in every field. */
  predicate Shaped(r: string, short: bool) {
    |r| >= 12
    && r[|r| - 10] == ':' && r[|r| - 7] == ':' && r[|r| - 4] == ','
    && (forall k :: 0 <= k < |r| ==> IsTimestampChar(r[k]))
    && (short ==>
          |r| == 12 && r[2] == ':' && r[5] == ':' && r[8] == ','
          && forall k :: 0 <= k < 12 && k != 2 && k != 5 && k != 8 ==> IsDigit(r[k]))
  }

  /** Rendering a clock whose fields are in range gives the timestamp shape, short
      when the hours are between 0 and 99. */
  lemma RenderLayout(c: Clock)
    requires InRange(c)
    ensures Shaped(Render(c), 0 <= c.hours < 100)
  {
    var hh, mm, ss, ms := PadDecimal(c.hours, 2), PadDecimal(c.minutes, 2), PadDecimal(c.seconds, 2), PadDecimal(c.millis, 3);
    RenderPieces(c);
    PiecesShape(Render(c), hh, mm, ss, ms, 0 <= c.hours < 100);
  }

  /** The text before ":MM:SS,mmm" is the hours field, however wide it is. */
  lemma RenderHours(c: Clock)
    requires InRange(c)
    ensures Render(c)[..|Render(c)| - 10] == PadDecimal(c.hours, 2)
  {
    PadDecimalWidth(c.minutes, 2);
    PadDecimalWidth(c.seconds, 2);
    PadDecimalWidth(c.millis, 3);
    HeadOf(PadDecimal(c.hours, 2), Tail(c));
  }

  lemma HeadOf(head: string, tail: string)
    requires |tail| == 10
    ensures (head + tail)[..|head + tail| - 10] == head
  {
  }

  /** RenderLayout's conclusion for any string built from pieces of a rendered
      clock's widths; short says that the hours piece is two digits. */
  lemma PiecesShape(r: string, hh: string, mm: string, ss: string, ms: string, short: bool)
    requires r == hh + (":" + mm + ":" + ss + "," + ms)
    requires |hh| >= 2 && |mm| == 2 && |ss| == 2 && |ms| == 3
    requires forall k :: 0 <= k < |hh| ==> IsTimestampChar(hh[k])
    requires AllDigits(mm) && AllDigits(ss) && AllDigits(ms)
    requires short ==> |hh| == 2 && AllDigits(hh)
    ensures Shaped(r, short)
  {
    PiecesLayout(hh, mm, ss, ms);
    PiecesChars(hh, mm, ss, ms);
  }

  /** The layout of `format_timestamp`'s output (app/main.py:42): ":MM:SS,mmm" at the
      end; `02d` is a minimum width, so the hours field is at least two characters
      and, for offsets below 100 hours, the timestamp is exactly HH:MM:SS,mmm with
      ':' at positions 2 and 5, ',' at 8 and digits elsewhere. Never a space or a
      line break. */
  lemma FormatTimestampLayout(seconds: real)
    ensures var r := FormatTimestamp(seconds);
      |r| >= 12
      && r[|r| - 10] == ':' && r[|r| - 7] == ':' && r[|r| - 4] == ','
      && (forall k :: 0 <= k < |r| ==> IsTimestampChar(r[k]))
      && (0.0 <= seconds < 360000.0 ==>
            |r| == 12 && r[2] == ':' && r[5] == ':' && r[8] == ','
            && forall k :: 0 <= k < 12 && k != 2 && k != 5 && k != 8 ==> IsDigit(r[k]))
    ensures var r := FormatTimestamp(seconds); r[..|r| - 10] == PadDecimal(Fields(seconds).hours, 2)
  {
    RenderLayout(Fields(seconds));
    RenderHours(Fields(seconds));
    FieldsHoursBelow100(seconds);
  }

  lemma FieldsHoursBelow100(seconds: real)
    ensures 0.0 <= seconds < 360000.0 ==> 0 <= Fields(seconds).hours < 100
  {
  }

  /** `f"{hours:02d}"`: two digits below 10 hours, the plain numeral from 10 hours
      on (100 hours and more widen the field, with no extra zeros), and '-' before
      the plain numeral for negative hours, whose sign counts toward the width. */
  lemma HoursPiece(h: int)
    ensures 0 <= h < 10 ==> PadDecimal(h, 2) == ['0', DigitChar(h)]
    ensures h >= 10 ==> PadDecimal(h, 2) == Decimal(h)
    ensures h < 0 ==> PadDecimal(h, 2) == "-" + Decimal(-h)
  {
    if 0 <= h < 10 {
      assert Decimal(h) == [DigitChar(h)];
      assert ZeroPad([DigitChar(h)], 2) == ['0', DigitChar(h)];
    } else if h >= 10 {
      assert Pow10(1) == 10;
    }
  }

  /** The hours field of a timestamp: the hours `format_timestamp` computes, written
      as `f"{hours:02d}"` writes them, whatever their size or sign. */
  lemma FormatTimestampHours(seconds: real)
    ensures var h, r := Fields(seconds).hours, FormatTimestamp(seconds);
      |r| >= 12
      && (0 <= h < 10 ==> r[..|r| - 10] == ['0', DigitChar(h)])
      && (h >= 10 ==> r[..|r| - 10] == Decimal(h))
      && (h < 0 ==> r[..|r| - 10] == "-" + Decimal(-h))
  {
    FormatTimestampLayout(seconds);
    HoursPiece(Fields(seconds).hours);
  }

  /** Reads a timestamp back: the hours field (an optional '-' and digits) up to the
      last ten characters, then ":MM:SS,mmm". */
  function ParseTimestamp(t: string): Option<Clock> {
    if |t| < 12 then None
    else
      var n := |t|;
      var hours := ParseInt(t[..n - 10]);
      if hours.Some? && t[n - 10] == ':' && t[n - 7] == ':' && t[n - 4] == ','
         && AllDigits(t[n - 9..n - 7]) && AllDigits(t[n - 6..n - 4]) && AllDigits(t[n - 3..])
      then Some(Clock(hours.value, DigitsValue(t[n - 9..n - 7]), DigitsValue(t[n - 6..n - 4]), DigitsValue(t[n - 3..])))
      else None
  }

  /** Reading back any string laid out like a rendered clock. */
  lemma ParsePieces(hh: string, mm: string, ss: string, ms: string)
    requires |hh| >= 2 && |mm| == 2 && |ss| == 2 && |ms| == 3
    requires ParseInt(hh).Some? && AllDigits(mm) && AllDigits(ss) && AllDigits(ms)
    ensures ParseTimestamp(hh + (":" + mm + ":" + ss + "," + ms))
         == Some(Clock(ParseInt(hh).value, DigitsValue(mm), DigitsValue(ss), DigitsValue(ms)))
  {
    PiecesLayout(hh, mm, ss, ms);
  }

  /** A rendered clock reads back as itself. */
  lemma ParseRender(c: Clock)
    requires InRange(c)
    ensures ParseTimestamp(Render(c)) == Some(c)
  {
    RenderPieces(c);
    ParsePadDecimal(c.hours, 2);
    ParsePieces(PadDecimal(c.hours, 2), PadDecimal(c.minutes, 2), PadDecimal(c.seconds, 2), PadDecimal(c.millis, 3));
  }

  /** Every timestamp reads back as the fields it was rendered from. */
  lemma ParseFormatTimestamp(seconds: real)
    ensures ParseTimestamp(FormatTimestamp(seconds)) == Some(Fields(seconds))
  {
    ParseRender(Fields(seconds));
  }

  /** In-range clocks with the same total number of milliseconds are equal. */
  lemma ClockUnique(a: Clock, b: Clock)
    requires InRange(a) && InRange(b)
    requires ((a.hours * 60 + a.minutes) * 60 + a.seconds) * 1000 + a.millis
          == ((b.hours * 60 + b.minutes) * 60 + b.seconds) * 1000 + b.millis
    ensures a == b
  {
    var ta := (a.hours * 60 + a.minutes) * 60 + a.seconds;
    var tb := (b.hours * 60 + b.minutes) * 60 + b.seconds;
    assert ta == tb && a.millis == b.millis;
    assert a.hours * 60 + a.minutes == b.hours * 60 + b.minutes && a.seconds == b.seconds;
  }

  /** The fields are fixed by the whole number of milliseconds. */
  lemma FieldsDeterminedByMillis(x: real, y: real)
    requires (x * 1000.0).Floor == (y * 1000.0).Floor
    ensures Fields(x) == Fields(y)
  {
    ClockUnique(Fields(x), Fields(y));
  }

  /** Two offsets render the same timestamp exactly when they fall in the same
      millisecond: format_timestamp truncates to whole milliseconds and loses nothing
      else. */
  lemma FormatTimestampInjective(x: real, y: real)
    ensures FormatTimestamp(x) == FormatTimestamp(y) <==> (x * 1000.0).Floor == (y * 1000.0).Floor
  {
    if FormatTimestamp(x) == FormatTimestamp(y) {
      ParseFormatTimestamp(x);
      ParseFormatTimestamp(y);
    }
    if (x * 1000.0).Floor == (y * 1000.0).Floor {
      FieldsDeterminedByMillis(x, y);
    }
  }

  /** The worked example: 3661.5 seconds is one hour, one minute, one second and
      five hundred milliseconds. */
  lemma FormatTimestampExample()
    ensures FormatTimestamp(3661.5) == "01:01:01,500"
  {
    ExampleFields();
    ExampleRender();
  }

  lemma ExampleFields()
    ensures Fields(3661.5) == Clock(1, 1, 1, 500)
  {
    var c := Fields(3661.5);
    assert 3661.5.Floor == 3661;
    assert c.hours * 3600 + c.minutes * 60 + c.seconds == 3661;
    assert c.hours == 1;
  }

  lemma ExampleRender()
    ensures Render(Clock(1, 1, 1, 500)) == "01:01:01,500"
  {
    ExampleOne();
    ExampleFiveHundred();
    RenderOfPieces(Clock(1, 1, 1, 500), "01", "01", "01", "500");
    ExampleString();
  }

  lemma ExampleString()
    ensures "01" + (":" + "01" + ":" + "01" + "," + "500") == "01:01:01,500"
  {
  }

  lemma RenderOfPieces(c: Clock, hh: string, mm: string, ss: string, ms: string)
    requires PadDecimal(c.hours, 2) == hh && PadDecimal(c.minutes, 2) == mm
    requires PadDecimal(c.seconds, 2) == ss && PadDecimal(c.millis, 3) == ms
    ensures Render(c) == hh + (":" + mm + ":" + ss + "," + ms)
  {
  }

  lemma ExampleOne()
    ensures PadDecimal(1, 2) == "01"
  {
    assert Decimal(1) == "1";
    assert ZeroPad("1", 2) == "01";
  }

  lemma ExampleFiveHundred()
    ensures PadDecimal(500, 3) == "500"
  {
    assert Decimal(5) == "5";
    assert Decimal(50) == Decimal(5) + [DigitChar(0)];
    assert Decimal(500) == Decimal(50) + [DigitChar(0)];
  }
}
