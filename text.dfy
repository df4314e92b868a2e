/** The Python string operations that the SRT serialiser of app/main.py relies on:
    integer formatting with f-strings (`f"{i}"`, `f"{n:02d}"`), `str.strip()`,
    `"\n".join(...)`, and, as their partners, the parsing and splitting that undo them. */
module Text {

  datatype Option<T> = None | Some(value: T)

  // ---------------------------------------------------------------------------
  // Decimal numerals
  // ---------------------------------------------------------------------------

  predicate IsDigit(c: char) { '0' <= c <= '9' }

  predicate AllDigits(s: string) { forall k :: 0 <= k < |s| ==> IsDigit(s[k]) }

  function DigitValue(c: char): (d: nat)
    requires IsDigit(c)
    ensures d < 10
  {
    c as int - '0' as int
  }

  function DigitChar(d: nat): (c: char)
    requires d < 10
    ensures IsDigit(c) && DigitValue(c) == d
  {
    ('0' as int + d) as char
  }

  function Pow10(k: nat): (p: nat)
    ensures p >= 1
  {
    if k == 0 then 1 else 10 * Pow10(k - 1)
  }

  lemma {:induction false} Pow10Monotone(i: nat, j: nat)
    requires i <= j
    ensures Pow10(i) <= Pow10(j)
  {
    if i < j { Pow10Monotone(i, j - 1); }
  }

  /** The value of a string of decimal digits, most significant first. */
  function DigitsValue(s: string): (v: nat)
    requires AllDigits(s)
    ensures v < Pow10(|s|)
  {
    if s == [] then 0 else DigitsValue(s[..|s| - 1]) * 10 + DigitValue(s[|s| - 1])
  }

  /** `f"{n}"` for a non-negative integer: the shortest decimal numeral of n. */
  function Decimal(n: nat): (s: string)
    ensures 1 <= |s| && AllDigits(s)
    ensures DigitsValue(s) == n
    ensures s[0] == '0' ==> n == 0
    ensures |s| > 1 ==> Pow10(|s| - 1) <= n
    decreases n
  {
    if n < 10 then [DigitChar(n)]
    else
      var high := Decimal(n / 10);
      assert (high + [DigitChar(n % 10)])[..|high|] == high;
      high + [DigitChar(n % 10)]
  }

  /** Decimal is the inverse of DigitsValue on numerals without a redundant leading zero. */
  lemma {:induction false} DecimalOfDigitsValue(s: string)
    requires AllDigits(s) && 1 <= |s| && (|s| > 1 ==> s[0] != '0')
    ensures Decimal(DigitsValue(s)) == s
    decreases |s|
  {
    var last := s[|s| - 1];
    var high := s[..|s| - 1];
    assert s == high + [last];
    if |s| == 1 {
      assert DigitChar(DigitValue(last)) == last;
    } else {
      assert high[0] == s[0];
      LeadingDigitBound(high);
      DecimalOfDigitsValue(high);
      DecimalAppend(high, last);
    }
  }

  /** Appending a digit to a shortest numeral gives the shortest numeral of the
      value ten times larger plus that digit. */
  lemma DecimalAppend(high: string, last: char)
    requires AllDigits(high) && IsDigit(last) && 1 <= DigitsValue(high)
    requires Decimal(DigitsValue(high)) == high
    ensures Decimal(DigitsValue(high + [last])) == high + [last]
  {
    var s := high + [last];
    assert s[..|s| - 1] == high;
    var v := DigitsValue(s);
    assert v == DigitsValue(high) * 10 + DigitValue(last);
    assert v / 10 == DigitsValue(high) && v % 10 == DigitValue(last);
    assert DigitChar(DigitValue(last)) == last;
  }

  /** A numeral whose first digit is not zero is at least 10^(length-1). */
  lemma {:induction false} LeadingDigitBound(s: string)
    requires AllDigits(s) && 1 <= |s| && s[0] != '0'
    ensures Pow10(|s| - 1) <= DigitsValue(s)
    decreases |s|
  {
    if |s| > 1 {
      var high := s[..|s| - 1];
      assert high[0] == s[0];
      LeadingDigitBound(high);
    } else {
      assert DigitValue(s[0]) >= 1;
    }
  }

  /** A string of zeros only has value 0. */
  lemma {:induction false} ZerosValue(z: string)
    requires forall k :: 0 <= k < |z| ==> z[k] == '0'
    ensures AllDigits(z) && DigitsValue(z) == 0
    decreases |z|
  {
    if z != [] { ZerosValue(z[..|z| - 1]); }
  }

  /** Zeros in front of a numeral do not change its value. */
  lemma {:induction false} LeadingZerosValue(z: string, s: string)
    requires forall k :: 0 <= k < |z| ==> z[k] == '0'
    requires AllDigits(s)
    ensures AllDigits(z + s) && DigitsValue(z + s) == DigitsValue(s)
    decreases |s|
  {
    ZerosValue(z);
    if s == [] {
      assert z + s == z;
    } else {
      var t := s[..|s| - 1];
      LeadingZerosValue(z, t);
      assert (z + s)[..|z + s| - 1] == z + t;
    }
  }

  /** Pads s on the left with '0' up to at least width characters. */
  function ZeroPad(s: string, width: nat): (r: string)
    ensures |r| == if |s| >= width then |s| else width
    ensures r[|r| - |s|..] == s
    ensures forall k :: 0 <= k < |r| - |s| ==> r[k] == '0'
  {
    if |s| >= width then s else seq(width - |s|, _ => '0') + s
  }

  /** `f"{n:0{width}d}"`: the decimal numeral of n, zero-filled after any sign to at
      least width characters (`0` in a format spec means fill '0', align '='). */
  function PadDecimal(n: int, width: nat): (r: string)
    ensures |r| >= width && |r| >= 1
    ensures n >= 0 ==> AllDigits(r) && DigitsValue(r) == n
    ensures n < 0 ==> 2 <= |r| && r[0] == '-' && AllDigits(r[1..]) && DigitsValue(r[1..]) == -n
    // the width is a minimum: zeros are added only up to it, never beyond
    ensures n >= 0 ==> |r| == if |Decimal(n)| >= width then |Decimal(n)| else width
    ensures n < 0 ==> |r| == if |Decimal(-n)| + 1 >= width then |Decimal(-n)| + 1 else width
    ensures n >= 0 && |Decimal(n)| >= width ==> r == Decimal(n)
    ensures n < 0 && |Decimal(-n)| + 1 >= width ==> r == "-" + Decimal(-n)
  {
    if n < 0 then
      var w := if width > 0 then width - 1 else 0;
      var r := "-" + ZeroPad(Decimal(-n), w);
      PadDecimalValue(Decimal(-n), w);
      ZeroPadFull(Decimal(-n), w);
      assert r[1..] == ZeroPad(Decimal(-n), w);
      r
    else
      PadDecimalValue(Decimal(n), width);
      ZeroPadFull(Decimal(n), width);
      ZeroPad(Decimal(n), width)
  }

  /** A string already as wide as the width is left as it is. */
  lemma ZeroPadFull(s: string, width: nat)
    ensures |s| >= width ==> ZeroPad(s, width) == s
  {
  }

  lemma PadDecimalValue(s: string, width: nat)
    requires AllDigits(s)
    ensures AllDigits(ZeroPad(s, width)) && DigitsValue(ZeroPad(s, width)) == DigitsValue(s)
  {
    var r := ZeroPad(s, width);
    var z := r[..|r| - |s|];
    assert r == z + s;
    LeadingZerosValue(z, s);
  }

  /** A value below 10^width fills exactly width characters (width >= 1). */
  lemma PadDecimalWidth(n: nat, width: nat)
    requires 1 <= width && n < Pow10(width)
    ensures |PadDecimal(n, width)| == width
  {
    var s := Decimal(n);
    assert PadDecimal(n, width) == ZeroPad(s, width);
    if |s| > width {
      Pow10Monotone(width, |s| - 1);
      assert false;
    }
  }

  /** Inverse of PadDecimal: an optional '-' followed by at least one digit. */
  function ParseInt(s: string): (r: Option<int>)
    ensures r.Some? ==> 1 <= |s|
  {
    if |s| >= 2 && s[0] == '-' && AllDigits(s[1..]) then Some(0 - DigitsValue(s[1..]))
    else if |s| >= 1 && AllDigits(s) then Some(DigitsValue(s))
    else None
  }

  lemma ParsePadDecimal(n: int, width: nat)
    ensures ParseInt(PadDecimal(n, width)) == Some(n)
  {
    var r := PadDecimal(n, width);
    if n < 0 {
      assert |r| >= 2 && r[0] == '-' && AllDigits(r[1..]);
      assert ParseInt(r) == Some(0 - DigitsValue(r[1..]));
    } else {
      assert AllDigits(r);
      assert IsDigit(r[0]);
      assert ParseInt(r) == Some(DigitsValue(r));
    }
  }

  // ---------------------------------------------------------------------------
  // str.strip()
  // ---------------------------------------------------------------------------

  /** Python's `str.isspace()` for a single character: the ASCII controls \t..\r and
      \x1c..\x1f, the space, and the Unicode separators and spaces. */
  predicate IsSpace(c: char) {
    c == ' ' || ('\t' <= c <= '\r') || ('\U{1C}' <= c <= '\U{1F}')
    || c == '\U{85}' || c == '\U{A0}' || c == '\U{1680}' || ('\U{2000}' <= c <= '\U{200A}')
    || c == '\U{2028}' || c == '\U{2029}' || c == '\U{202F}' || c == '\U{205F}' || c == '\U{3000}'
  }

  /** Removes the whitespace run at the front: a suffix of s, starting at a non-space. */
  function StripLeading(s: string): (r: string)
    ensures |r| <= |s| && r == s[|s| - |r|..]
    ensures forall k :: 0 <= k < |s| - |r| ==> IsSpace(s[k])
    ensures r == [] || !IsSpace(r[0])
  {
    if s != [] && IsSpace(s[0]) then StripLeading(s[1..]) else s
  }

  /** Removes the whitespace run at the back: a prefix of s, ending at a non-space. */
  function StripTrailing(s: string): (r: string)
    ensures |r| <= |s| && r == s[..|r|]
    ensures forall k :: |r| <= k < |s| ==> IsSpace(s[k])
    ensures r == [] || !IsSpace(r[|r| - 1])
  {
    if s != [] && IsSpace(s[|s| - 1]) then StripTrailing(s[..|s| - 1]) else s
  }

  /** r is the slice of s at i, and everything of s outside it is whitespace. */
  predicate TrimmedAt(s: string, i: int, r: string) {
    0 <= i <= |s| - |r| && r == s[i..i + |r|]
    && (forall k :: 0 <= k < i ==> IsSpace(s[k]))
    && (forall k :: i + |r| <= k < |s| ==> IsSpace(s[k]))
  }

  /** `s.strip()`: the part of s between its leading and trailing whitespace. */
  function Strip(s: string): (r: string)
    ensures exists i :: TrimmedAt(s, i, r)
    ensures r == [] || (!IsSpace(r[0]) && !IsSpace(r[|r| - 1]))
    ensures r == [] <==> forall k :: 0 <= k < |s| ==> IsSpace(s[k])
  {
    var front := StripLeading(s);
    var r := StripTrailing(front);
    var i := |s| - |front|;
    assert r == s[i..i + |r|];
    assert r != [] ==> r[0] == front[0];
    assert TrimmedAt(s, i, r);
    r
  }

  /** Stripping twice strips nothing more. */
  lemma StripIdempotent(s: string)
    ensures Strip(Strip(s)) == Strip(s)
  {
    var r := Strip(s);
    assert StripLeading(r) == r;
    assert StripTrailing(r) == r;
  }

  // ---------------------------------------------------------------------------
  // sep.join(lines) and its inverse str.split(sep)
  // ---------------------------------------------------------------------------

  /** `sep.join(lines)`. */
  function Join(lines: seq<string>, sep: string): (r: string)
    ensures |lines| == 0 ==> r == ""
    ensures |lines| >= 1 ==> |r| >= |lines[0]| && r[..|lines[0]|] == lines[0]
  {
    if |lines| == 0 then ""
    else if |lines| == 1 then lines[0]
    else lines[0] + sep + Join(lines[1..], sep)
  }

  /** Position of the first c in s. */
  function IndexOf(s: string, c: char): (k: nat)
    requires c in s
    ensures k < |s| && s[k] == c && c !in s[..k]
  {
    if s[0] == c then 0
    else
      var k := 1 + IndexOf(s[1..], c);
      assert s[..k] == [s[0]] + s[1..][..k - 1];
      k
  }

  /** IndexOf finds the first occurrence. */
  lemma {:induction false} IndexOfFirst(s: string, c: char, j: nat)
    requires j < |s| && s[j] == c && c !in s[..j]
    ensures IndexOf(s, c) == j
    decreases j
  {
    if j > 0 {
      assert s[0] == s[..j][0];
      assert s[1..][..j - 1] == s[..j][1..];
      IndexOfFirst(s[1..], c, j - 1);
    }
  }

  /** `s.split(c)`: the pieces of s between occurrences of c (always at least one). */
  function Split(s: string, c: char): (r: seq<string>)
    ensures |r| >= 1
    ensures forall k :: 0 <= k < |r| ==> c !in r[k]
    decreases |s|
  {
    if c in s then
      var k := IndexOf(s, c);
      [s[..k]] + Split(s[k + 1..], c)
    else [s]
  }

  /** Splitting a join on the separator gives back the lines, provided there is at
      least one line and none contains the separator. */
  lemma {:induction false} SplitJoin(lines: seq<string>, c: char)
    requires |lines| >= 1
    requires forall k :: 0 <= k < |lines| ==> c !in lines[k]
    ensures Split(Join(lines, [c]), c) == lines
    decreases |lines|
  {
    if |lines| == 1 {
      assert c !in Join(lines, [c]);
    } else {
      var rest := Join(lines[1..], [c]);
      assert Join(lines, [c]) == lines[0] + [c] + rest;
      SplitCons(lines[0], c, rest);
      SplitJoin(lines[1..], c);
      assert lines == [lines[0]] + lines[1..];
    }
  }

  /** A piece without c, then c, splits off as the first piece. */
  lemma SplitCons(a: string, c: char, rest: string)
    requires c !in a
    ensures Split(a + [c] + rest, c) == [a] + Split(rest, c)
  {
    var s := a + [c] + rest;
    assert s[..|a|] == a;
    IndexOfFirst(s, c, |a|);
    assert s[|a| + 1..] == rest;
  }

  /** Joining the pieces of a split with the separator gives back the string. */
  lemma {:induction false} JoinSplit(s: string, c: char)
    ensures Join(Split(s, c), [c]) == s
    decreases |s|
  {
    if c in s {
      var k := IndexOf(s, c);
      var tail := Split(s[k + 1..], c);
      JoinSplit(s[k + 1..], c);
      JoinCons(s[..k], tail, [c]);
      assert s == s[..k] + [c] + s[k + 1..];
    }
  }

  /** Joining a first line in front of one or more lines puts a separator between. */
  lemma JoinCons(first: string, tail: seq<string>, sep: string)
    requires |tail| >= 1
    ensures Join([first] + tail, sep) == first + sep + Join(tail, sep)
  {
    assert ([first] + tail)[1..] == tail;
  }
}
