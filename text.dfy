/**
 * The pieces of java.lang.String and java.util.Formatter the core relies on:
 * `%d` and `%02d` for longs, the "Xh MMm" duration text built from them,
 * String.compareTo and String.trim.
 */
module Text {
  import opened Common
  import opened Orders

  /** The character of a decimal digit. */
  function DigitChar(d: nat): (c: char)
    requires d < 10
    ensures '0' <= c <= '9'
  {
    ('0' as int + d) as char
  }

  predicate IsDigit(c: char) { '0' <= c <= '9' }

  function DigitValue(c: char): (d: nat)
    requires IsDigit(c)
    ensures d < 10 && DigitChar(d) == c
  {
    (c - '0') as nat
  }

  /** The decimal digits of `n`, without leading zeros ("0" for zero). */
  function Digits(n: nat): (s: string)
    ensures |s| >= 1 && forall i :: 0 <= i < |s| ==> IsDigit(s[i])
    ensures n < 10 <==> |s| == 1
    ensures s[0] == '0' <==> n == 0
  {
    if n < 10 then [DigitChar(n)] else Digits(n / 10) + [DigitChar(n % 10)]
  }

  predicate AllDigits(s: string) { forall i :: 0 <= i < |s| ==> IsDigit(s[i]) }

  /** The number a string of decimal digits denotes. */
  function DigitsValue(s: string): nat
    requires forall i :: 0 <= i < |s| ==> IsDigit(s[i])
  {
    if s == [] then 0 else DigitsValue(s[..|s| - 1]) * 10 + DigitValue(s[|s| - 1])
  }

  /** Reading back the digits of `n` gives `n`. */
  lemma {:induction false} DigitsRoundTrip(n: nat)
    ensures DigitsValue(Digits(n)) == n
  {
    if n >= 10 {
      DigitsRoundTrip(n / 10);
      var s := Digits(n);
      assert s[..|s| - 1] == Digits(n / 10);
    }
  }

  /** Zeros in front of a string of digits leave its value unchanged. */
  lemma {:induction false} LeadingZerosValue(z: string, s: string)
    requires forall i :: 0 <= i < |z| ==> z[i] == '0'
    requires AllDigits(s)
    ensures AllDigits(z + s) && DigitsValue(z + s) == DigitsValue(s)
  {
    if s == [] {
      if z != [] {
        LeadingZerosValue(z[..|z| - 1], []);
        assert z[..|z| - 1] + [] == z[..|z| - 1] && z + [] == z;
      }
    } else {
      LeadingZerosValue(z, s[..|s| - 1]);
      assert (z + s)[..|z + s| - 1] == z + s[..|s| - 1];
    }
  }

  function Pow10(w: nat): (p: nat)
    ensures p >= 1
  {
    if w == 0 then 1 else 10 * Pow10(w - 1)
  }

  /** A number below 10^w has at most w digits. */
  lemma {:induction false} DigitsLength(n: nat, w: nat)
    requires 1 <= w && n < Pow10(w)
    ensures |Digits(n)| <= w
  {
    if n >= 10 {
      DigitsLength(n / 10, w - 1);
    }
  }

  /** A number of at least 10^w has more than w digits. */
  lemma {:induction false} DigitsLengthAtLeast(n: nat, w: nat)
    requires n >= Pow10(w)
    ensures |Digits(n)| > w
  {
    if w > 0 {
      DigitsLengthAtLeast(n / 10, w - 1);
    }
  }

  /** `String.format("%d", n)`: an optional minus sign, then the digits. */
  function JavaDecimal(n: int): (s: string)
    ensures n >= 0 ==> AllDigits(s) && DigitsValue(s) == n && (|s| > 1 ==> s[0] != '0')
    ensures n < 0 ==> |s| >= 2 && s[0] == '-' && AllDigits(s[1..])
                      && DigitsValue(s[1..]) == -n && s[1] != '0'
  {
    if n < 0 then
      DigitsRoundTrip(-n);
      assert ("-" + Digits(-n))[1..] == Digits(-n);
      "-" + Digits(-n)
    else
      DigitsRoundTrip(n);
      Digits(n)
  }

  /** `String.format("%02d", n)`: `%d` padded with zeros to width two. */
  function ZeroPad2(n: int): (s: string)
    ensures 0 <= n < 100 ==> |s| == 2 && IsDigit(s[0]) && IsDigit(s[1])
                             && DigitValue(s[0]) * 10 + DigitValue(s[1]) == n
  {
    if 0 <= n < 10 then "0" + JavaDecimal(n)
    else if 10 <= n < 100 then
      assert Digits(n) == Digits(n / 10) + [DigitChar(n % 10)] == [DigitChar(n / 10), DigitChar(n % 10)];
      JavaDecimal(n)
    else JavaDecimal(n)
  }

  /**
   * The duration text the report and the presence mapper both build:
   * `String.format("%dh %02dm", m / 60, m % 60)` with Java's truncating operators.
   */
  function HoursMinutes(m: int): (s: string)
    ensures m >= 0 ==> s == Digits(m / 60) + "h " + ZeroPad2(m % 60) + "m"
  {
    JavaDecimal(JavaDiv(m, 60)) + "h " + ZeroPad2(JavaRem(m, 60)) + "m"
  }

  /** Eight hours read "8h 00m", sixteen hours "16h 00m", 125 minutes "2h 05m", -90 minutes "-1h -30m". */
  lemma HoursMinutesExamples()
    ensures HoursMinutes(480) == "8h 00m"
    ensures HoursMinutes(960) == "16h 00m"
    ensures HoursMinutes(125) == "2h 05m"
    ensures HoursMinutes(-90) == "-1h -30m"
  {
    assert JavaDiv(480, 60) == 8 && JavaRem(480, 60) == 0;
    assert JavaDiv(960, 60) == 16 && JavaRem(960, 60) == 0;
    assert JavaDiv(125, 60) == 2 && JavaRem(125, 60) == 5;
    assert JavaDiv(-90, 60) == -1 && JavaRem(-90, 60) == -30;
    assert Digits(16) == Digits(1) + ['6'] == "16";
    assert Digits(30) == Digits(3) + ['0'] == "30";
  }

  /** Reads "Xh MMm" (X decimal digits, MM two digits below 60) back into minutes. */
  function ParseHoursMinutes(s: string): Option<nat>
  {
    if |s| < 6 then None
    else
      var hours := s[..|s| - 5];
      var tail := s[|s| - 5..];
      if !(forall i :: 0 <= i < |hours| ==> IsDigit(hours[i])) then None
      else if tail[0] != 'h' || tail[1] != ' ' || tail[4] != 'm' then None
      else if !IsDigit(tail[2]) || !IsDigit(tail[3]) then None
      else
        var mm := DigitValue(tail[2]) * 10 + DigitValue(tail[3]);
        if mm < 60 then Some(DigitsValue(hours) * 60 + mm) else None
  }

  /** A non-negative number of minutes is recovered from its "Xh MMm" text. */
  lemma HoursMinutesRoundTrip(m: nat)
    ensures ParseHoursMinutes(HoursMinutes(m)) == Some(m)
  {
    ParseComposed(m / 60, m % 60);
  }

  lemma {:induction false} ParseComposed(h: nat, mm: nat)
    requires mm < 60
    ensures ParseHoursMinutes(Digits(h) + "h " + ZeroPad2(mm) + "m") == Some(h * 60 + mm)
  {
    var digits := Digits(h);
    var pad := ZeroPad2(mm);
    var s := digits + "h " + pad + "m";
    assert s == digits + ['h', ' ', pad[0], pad[1], 'm'];
    assert s[..|s| - 5] == digits;
    var tail := s[|s| - 5..];
    assert tail == ['h', ' ', pad[0], pad[1], 'm'];
    var v := DigitValue(tail[2]) * 10 + DigitValue(tail[3]);
    assert v == mm;
    DigitsRoundTrip(h);
    assert DigitsValue(s[..|s| - 5]) == h;
  }

  /** Two different non-negative minute counts never print the same text. */
  lemma HoursMinutesInjective(a: nat, b: nat)
    requires HoursMinutes(a) == HoursMinutes(b)
    ensures a == b
  {
    HoursMinutesRoundTrip(a);
    HoursMinutesRoundTrip(b);
  }

  /**
   * The UTF-16 code units of one character, as a Java String stores it:
   * the character itself below U+10000, otherwise its surrogate pair.
   */
  function CodeUnits(c: char): (u: seq<int>)
    ensures 1 <= |u| <= 2 && forall i :: 0 <= i < |u| ==> 0 <= u[i] < 0x10000
    ensures |u| == 2 <==> 0xD800 <= u[0] < 0xDC00
    ensures |u| == 2 ==> 0xDC00 <= u[1] < 0xE000
    ensures |u| == 1 ==> u[0] == c as int
  {
    var v := c as int;
    if v < 0x10000 then [v]
    else [0xD800 + (v - 0x10000) / 0x400, 0xDC00 + (v - 0x10000) % 0x400]
  }

  /** Different characters have different code units. */
  lemma CodeUnitsInjective(a: char, b: char)
    requires CodeUnits(a) == CodeUnits(b)
    ensures a == b
  {
    if a as int >= 0x10000 {
      var x, y := a as int - 0x10000, b as int - 0x10000;
      assert x == (x / 0x400) * 0x400 + x % 0x400;
      assert y == (y / 0x400) * 0x400 + y % 0x400;
    }
  }

  /** The UTF-16 encoding of a string. */
  function Utf16(s: string): (u: seq<int>)
    ensures |u| >= |s|
    ensures s == [] <==> u == []
    ensures s != [] ==> u == CodeUnits(s[0]) + Utf16(s[1..])
  {
    if s == [] then [] else CodeUnits(s[0]) + Utf16(s[1..])
  }

  /** Different strings have different UTF-16 encodings. */
  lemma {:induction false} Utf16Injective(a: string, b: string)
    requires Utf16(a) == Utf16(b)
    ensures a == b
  {
    if a != [] {
      var ua, ub := CodeUnits(a[0]), CodeUnits(b[0]);
      assert ua[0] == Utf16(a)[0] == ub[0];
      assert |ua| == |ub|;
      assert ua == Utf16(a)[..|ua|] == ub;
      CodeUnitsInjective(a[0], b[0]);
      assert Utf16(a[1..]) == Utf16(a)[|ua|..] == Utf16(b[1..]);
      Utf16Injective(a[1..], b[1..]);
      assert a == [a[0]] + a[1..] && b == [b[0]] + b[1..];
    }
  }

  /** Lexicographic order on code-unit sequences: the first difference decides, else the shorter one. */
  function UnitsLess(a: seq<int>, b: seq<int>): bool
  {
    if a == [] then b != []
    else if b == [] then false
    else if a[0] != b[0] then a[0] < b[0]
    else UnitsLess(a[1..], b[1..])
  }

  lemma {:induction false} UnitsLessIrreflexive(a: seq<int>)
    ensures !UnitsLess(a, a)
  {
    if a != [] { UnitsLessIrreflexive(a[1..]); }
  }

  lemma {:induction false} UnitsLessTransitive(a: seq<int>, b: seq<int>, c: seq<int>)
    requires UnitsLess(a, b) && UnitsLess(b, c)
    ensures UnitsLess(a, c)
  {
    if a != [] && b != [] && c != [] && a[0] == b[0] && b[0] == c[0] {
      UnitsLessTransitive(a[1..], b[1..], c[1..]);
    }
  }

  lemma {:induction false} UnitsLessTotal(a: seq<int>, b: seq<int>)
    requires a != b
    ensures UnitsLess(a, b) || UnitsLess(b, a)
  {
    if a != [] && b != [] && a[0] == b[0] {
      assert a == [a[0]] + a[1..] && b == [b[0]] + b[1..];
      UnitsLessTotal(a[1..], b[1..]);
    }
  }

  /**
   * `a.compareTo(b) < 0`: String.compareTo compares the UTF-16 code units;
   * the first differing unit decides, else the shorter string comes first.
   */
  function StringLess(a: string, b: string): bool
  {
    UnitsLess(Utf16(a), Utf16(b))
  }

  /** String.compareTo orders strings strictly and totally. */
  lemma StringLessIsStrictTotal()
    ensures StrictTotalOrder(StringLess)
  {
    forall a ensures !StringLess(a, a) { UnitsLessIrreflexive(Utf16(a)); }
    forall a, b, c | StringLess(a, b) && StringLess(b, c) ensures StringLess(a, c) {
      UnitsLessTransitive(Utf16(a), Utf16(b), Utf16(c));
    }
    forall a, b | a != b ensures StringLess(a, b) || StringLess(b, a) {
      if Utf16(a) == Utf16(b) { Utf16Injective(a, b); }
      UnitsLessTotal(Utf16(a), Utf16(b));
    }
  }

  /**
   * Strings of characters below U+10000 compare character by character; a character
   * above U+FFFF sorts by its high surrogate, so before U+FFFF though its code point is larger.
   */
  lemma StringLessExamples()
    ensures StringLess("Finance", "RH") && !StringLess("RH", "Finance")
    ensures StringLess("RH", "RHA") && !StringLess("RHA", "RH")
    ensures StringLess("\U{1F600}", "\U{FFFF}") && !StringLess("\U{FFFF}", "\U{1F600}")
  {
    assert Utf16("\U{1F600}") == [0xD83D, 0xDE00];
    assert Utf16("\U{FFFF}") == [0xFFFF];
    assert Utf16("RH") == ['R' as int, 'H' as int];
    assert Utf16("RHA") == ['R' as int, 'H' as int, 'A' as int];
    assert Utf16("Finance")[0] == 'F' as int;
  }

  /** The characters String.trim removes from both ends (code points up to U+0020). */
  predicate IsTrimmable(c: char) { c <= ' ' }

  function TrimStart(s: string): (r: string)
    ensures |r| <= |s| && r == s[|s| - |r|..]
    ensures r != [] ==> !IsTrimmable(r[0])
    ensures forall i :: 0 <= i < |s| - |r| ==> IsTrimmable(s[i])
  {
    if s != [] && IsTrimmable(s[0]) then TrimStart(s[1..]) else s
  }

  function TrimEnd(s: string): (r: string)
    ensures |r| <= |s| && r == s[..|r|]
    ensures r != [] ==> !IsTrimmable(r[|r| - 1])
    ensures forall i :: |r| <= i < |s| ==> IsTrimmable(s[i])
  {
    if s != [] && IsTrimmable(s[|s| - 1]) then TrimEnd(s[..|s| - 1]) else s
  }

  /** `s.trim()`. */
  function Trim(s: string): string
  {
    TrimEnd(TrimStart(s))
  }

  /** `trim()` keeps a contiguous piece of the string. */
  lemma TrimPiece(s: string)
    ensures var start := |s| - |TrimStart(s)|;
            start + |Trim(s)| <= |s| && Trim(s) == s[start..start + |Trim(s)|]
  {
    var t := TrimStart(s);
    var start := |s| - |t|;
    assert t == s[start..];
    assert Trim(s) == t[..|Trim(s)|];
  }

  /** What `trim()` drops after the piece is trimmable. */
  lemma TrimDropsTrailing(s: string)
    ensures var start := |s| - |TrimStart(s)|;
            forall i :: start + |Trim(s)| <= i < |s| ==> IsTrimmable(s[i])
  {
    var t := TrimStart(s);
    var start := |s| - |t|;
    forall i | start + |Trim(s)| <= i < |s| ensures IsTrimmable(s[i]) {
      assert s[i] == t[i - start];
    }
  }

  /**
   * `s.trim()` is the piece of `s` left after dropping the trimmable characters
   * at either end: everything before and after it is trimmable, and it starts and
   * ends with characters that are not.
   */
  lemma TrimIsInnerPiece(s: string)
    ensures var r, start := Trim(s), |s| - |TrimStart(s)|;
            && start + |r| <= |s|
            && r == s[start..start + |r|]
            && (forall i :: 0 <= i < start ==> IsTrimmable(s[i]))
            && (forall i :: start + |r| <= i < |s| ==> IsTrimmable(s[i]))
            && (r != [] ==> !IsTrimmable(r[0]) && !IsTrimmable(r[|r| - 1]))
  {
    TrimPiece(s);
    TrimDropsTrailing(s);
    var t := TrimStart(s);
    if Trim(s) != [] {
      assert Trim(s)[0] == t[0];
    }
  }

  /** `s.trim().isEmpty()` holds exactly when every character of `s` is trimmable. */
  lemma TrimEmptyIffBlank(s: string)
    ensures Trim(s) == [] <==> forall i :: 0 <= i < |s| ==> IsTrimmable(s[i])
  {
    TrimIsInnerPiece(s);
  }
}
