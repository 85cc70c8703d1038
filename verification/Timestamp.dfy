/** The timestamp text of the clock, and the clock registers it is made from. */
module Timestamp {
  import opened Wrappers
  import opened PrintfSpec
  import opened FormatSpec
  import opened Calendar

  // ---------------------------------------------------------------- fixed-width decimals

  /** The last n decimal digits of v. */
  function Fixed(v: nat, n: nat): (s: string)
    ensures |s| == n
  {
    if n == 0 then "" else Fixed(v / 10, n - 1) + [DigitChar(v % 10, false)]
  }

  lemma {:induction false} FixedZero(n: nat)
    ensures Fixed(0, n) == Repeat('0', n)
  {
    if n > 0 {
      FixedZero(n - 1);
      assert Repeat('0', n - 1) + ['0'] == Repeat('0', n);
    }
  }

  /** Digits padded with zeros to n characters. */
  lemma {:induction false} FixedIs(v: nat, n: nat, k: nat)
    requires 0 < n <= k && v < Pow(10, n)
    ensures ZerosTo(Digits(v, 10, k, false), n) == Fixed(v, n)
    decreases n
  {
    var d := [DigitChar(v % 10, false)];
    if v / 10 == 0 {
      FixedZero(n - 1);
      assert "" + d == d;
    } else {
      DivBound(v, 10, Pow(10, n - 1));
      assert n > 1;
      FixedIs(v / 10, n - 1, k - 1);
      var high := Digits(v / 10, 10, k - 1, false);
      assert ZerosTo(high + d, n) == ZerosTo(high, n - 1) + d;
    }
  }

  lemma {:induction false} FixedParse(v: nat, n: nat)
    requires v < Pow(10, n)
    ensures Parse(Fixed(v, n), 10) == v
  {
    if n > 0 {
      DivBound(v, 10, Pow(10, n - 1));
      FixedParse(v / 10, n - 1);
      ParseSnoc(Fixed(v / 10, n - 1), v % 10, 10, false);
    }
  }

  // ---------------------------------------------------------------- the order of texts

  /** Lexicographic order. */
  predicate Before(s: string, t: string) {
    if s == "" then t != "" else t != "" && (s[0] < t[0] || (s[0] == t[0] && Before(s[1..], t[1..])))
  }

  lemma {:induction false} BeforeAsym(s: string, t: string)
    requires Before(s, t)
    ensures !Before(t, s) && s != t
  {
    if s != "" && s[0] == t[0] { BeforeAsym(s[1..], t[1..]); }
  }

  lemma {:induction false} BeforeFront(s: string, t: string, x: string, y: string)
    requires |s| == |t|
    ensures Before(s, t) ==> Before(s + x, t + y)
    ensures s == t && Before(x, y) ==> Before(s + x, t + y)
  {
    if s == "" {
      assert s + x == x && t + y == y;
    } else {
      assert (s + x)[1..] == s[1..] + x && (t + y)[1..] == t[1..] + y;
      BeforeFront(s[1..], t[1..], x, y);
    }
  }

  lemma DigitOrder(a: nat, b: nat)
    requires a < b < 10
    ensures Before([DigitChar(a, false)], [DigitChar(b, false)])
  {
  }

  /** Numbers of one width are ordered like their texts. */
  lemma {:induction false} FixedOrder(v: nat, w: nat, n: nat)
    requires v < w < Pow(10, n)
    ensures Before(Fixed(v, n), Fixed(w, n))
  {
    if n > 0 {
      DivBound(w, 10, Pow(10, n - 1));
      var x, y := [DigitChar(v % 10, false)], [DigitChar(w % 10, false)];
      if v / 10 < w / 10 {
        FixedOrder(v / 10, w / 10, n - 1);
      } else {
        DigitOrder(v % 10, w % 10);
      }
      BeforeFront(Fixed(v / 10, n - 1), Fixed(w / 10, n - 1), x, y);
    }
  }

  // ---------------------------------------------------------------- the text of a timestamp

  const TIMESTAMP_FORMAT := "%04d-%02d-%02dT%02d:%02d:%02d.%03dZ"

  /** The directive for a number filled with zeros to one digit's width. */
  function ZeroDirective(w: char): string { ['%', '0', w, 'd'] }

  function WidthOf(w: char): nat
    requires '1' <= w <= '9'
  {
    w as int - '0' as int
  }

  /** How the interpreter reads such a directive. */
  lemma ZeroHead(w: char, g: string, args: seq<Arg>)
    requires '1' <= w <= '9'
    ensures TakeHead(['0', w, 'd'] + g, args) == Some(Head(NO_FLAGS.(zeropad := true), WidthOf(w), 0, ['d'] + g, args))
  {
    var f := ['0', w, 'd'] + g;
    assert f[1..] == [w, 'd'] + g;
    assert f[1..][1..] == ['d'] + g;
    assert TakeFlags(f[1..], NO_FLAGS.(zeropad := true)) == (NO_FLAGS.(zeropad := true), f[1..]);
    assert TakeFlags(f, NO_FLAGS) == (NO_FLAGS.(zeropad := true), f[1..]);
    assert TakeNumber(['d'] + g, NextDigit(0, w)) == (NextDigit(0, w), ['d'] + g);
    assert TakeNumber(f[1..], 0) == (NextDigit(0, w), ['d'] + g);
  }

  /** What it prints. */
  lemma ZeroNumber(v: nat, n: nat)
    requires v < 0x8000_0000 && 0 < n < 10
    ensures IntegerText('d', Head(NO_FLAGS.(zeropad := true), n, 0, "", []), v) == ZerosTo(Digits(v, 10, 32, false), n)
  {
    hide Digits;
    assert SignedValue(v, NumberFlags('d', NO_FLAGS.(zeropad := true))) == v;
    assert NumberDigits(v, 10, NO_FLAGS.(zeropad := true)) == Digits(v, 10, 32, false);
    assert "" + ZerosTo(Digits(v, 10, 32, false), n) == ZerosTo(Digits(v, 10, 32, false), n);
  }

  /** A zero-filled number in front of a format. */
  lemma ZeroField(w: char, v: nat, g: string, args: seq<Arg>, text: string)
    requires '1' <= w <= '9' && v < 0x8000_0000 && args != [] && args[0] == Word(v)
    requires Render(g, args[1..]) == Some(text)
    ensures Render(ZeroDirective(w) + g, args) == Some(ZerosTo(Digits(v, 10, 32, false), WidthOf(w)) + text)
  {
    hide Digits, TakeHead, IntegerText;
    var f := ZeroDirective(w) + g;
    assert f[1..] == ['0', w, 'd'] + g;
    ZeroHead(w, g, args);
    ZeroNumber(v, WidthOf(w));
    var h := Head(NO_FLAGS.(zeropad := true), WidthOf(w), 0, ['d'] + g, args);
    SameInteger(h, Head(NO_FLAGS.(zeropad := true), WidthOf(w), 0, "", []), v);
    assert h.rest[1..] == g;
    assert 'd' in "diuxXob";
  }

  lemma SameInteger(h: Head, k: Head, bits: nat)
    requires h.flags == k.flags && h.width == k.width && h.prec == k.prec
    ensures IntegerText('d', h, bits) == IntegerText('d', k, bits)
  {
  }

  lemma PlainChar(c: char, g: string, args: seq<Arg>, text: string)
    requires c != '%' && Render(g, args) == Some(text)
    ensures Render([c] + g, args) == Some([c] + text)
  {
    assert ([c] + g)[1..] == g;
  }

  /** A zero-filled number and a plain character in front of a format. */
  lemma ZeroFieldChar(w: char, v: nat, c: char, g: string, args: seq<Arg>, text: string)
    requires '1' <= w <= '9' && v < 0x8000_0000 && args != [] && args[0] == Word(v) && c != '%'
    requires Render(g, args[1..]) == Some(text)
    ensures Render(ZeroDirective(w) + [c] + g, args) == Some(ZerosTo(Digits(v, 10, 32, false), WidthOf(w)) + [c] + text)
  {
    hide Render, Digits;
    PlainChar(c, g, args[1..], text);
    ZeroField(w, v, [c] + g, args, [c] + text);
    assert ZeroDirective(w) + [c] + g == ZeroDirective(w) + ([c] + g);
    var z := ZerosTo(Digits(v, 10, 32, false), WidthOf(w));
    assert z + [c] + text == z + ([c] + text);
  }

  function StampArgs(t: Stamp): seq<Arg> {
    [Word(t.date.year), Word(t.date.month), Word(t.date.day),
     Word(t.hour), Word(t.minute), Word(t.second), Word(t.milli)]
  }

  /** A year in four digits, or in as many as it needs. */
  function YearText(y: nat): string { ZerosTo(Digits(y, 10, 32, false), 4) }

  /** YYYY-MM-DDTHH:MM:SS.mmmZ */
  function StampText(t: Stamp): string {
    YearText(t.date.year) + ['-'] + (Fixed(t.date.month, 2) + ['-'] + (Fixed(t.date.day, 2) + ['T'] +
      (Fixed(t.hour, 2) + [':'] + (Fixed(t.minute, 2) + [':'] + (Fixed(t.second, 2) + ['.'] +
        (Fixed(t.milli, 3) + ['Z']))))))
  }

  /** A date and time whose year is an int. */
  predicate Printable(t: Stamp) {
    Valid(t.date) && t.date.year < 0x8000_0000 && t.hour < 24 && t.minute < 60 && t.second < 60 && t.milli < 1000
  }

  /** One field of the timestamp. */
  lemma StampField(w: char, v: nat, c: char, g: string, args: seq<Arg>, text: string)
    requires '1' <= w <= '4' && v < Pow(10, WidthOf(w)) && c != '%'
    requires args != [] && args[0] == Word(v) && Render(g, args[1..]) == Some(text)
    ensures Render(ZeroDirective(w) + [c] + g, args) == Some(Fixed(v, WidthOf(w)) + [c] + text)
  {
    hide Render, Digits, Fixed;
    PowBound(WidthOf(w));
    FixedIs(v, WidthOf(w), 32);
    ZeroFieldChar(w, v, c, g, args, text);
  }

  lemma PowBound(n: nat)
    requires n <= 4
    ensures Pow(10, n) <= 10000
  {
    assert Pow(10, 1) == 10 && Pow(10, 2) == 100 && Pow(10, 3) == 10 * Pow(10, 2) && Pow(10, 4) == 10 * Pow(10, 3);
  }

  lemma FieldBounds(t: Stamp)
    requires Printable(t)
    ensures t.date.month < Pow(10, 2) && t.date.day < Pow(10, 2) && t.hour < Pow(10, 2)
    ensures t.minute < Pow(10, 2) && t.second < Pow(10, 2) && t.milli < Pow(10, 3)
  {
    assert Pow(10, 2) == 100 && Pow(10, 3) == 1000;
  }

  lemma FormatSplits()
    ensures TIMESTAMP_FORMAT ==
            ZeroDirective('4') + ['-'] + (ZeroDirective('2') + ['-'] + (ZeroDirective('2') + ['T'] +
              (ZeroDirective('2') + [':'] + (ZeroDirective('2') + [':'] + (ZeroDirective('2') + ['.'] +
                (ZeroDirective('3') + ['Z'] + ""))))))
  {
  }

  /** The format prints the text of the timestamp. */
  lemma StampRenders(t: Stamp)
    requires Printable(t)
    ensures Render(TIMESTAMP_FORMAT, StampArgs(t)) == Some(StampText(t))
  {
    FieldBounds(t);
    FormatSplits();
    assert t.date.year < 0x8000_0000;
    hide Render, Fixed, Pow, ZeroDirective, Printable, Digits;
    var a := StampArgs(t);
    EmptyRenders([]);
    var g6, t6 := ZeroDirective('3') + ['Z'] + "", Fixed(t.milli, 3) + ['Z'];
    StampField('3', t.milli, 'Z', "", a[6..], "");
    assert t6 + "" == t6;
    var g5, t5 := ZeroDirective('2') + ['.'] + g6, Fixed(t.second, 2) + ['.'] + t6;
    StampField('2', t.second, '.', g6, a[5..], t6);
    var g4, t4 := ZeroDirective('2') + [':'] + g5, Fixed(t.minute, 2) + [':'] + t5;
    StampField('2', t.minute, ':', g5, a[4..], t5);
    var g3, t3 := ZeroDirective('2') + [':'] + g4, Fixed(t.hour, 2) + [':'] + t4;
    StampField('2', t.hour, ':', g4, a[3..], t4);
    var g2, t2 := ZeroDirective('2') + ['T'] + g3, Fixed(t.date.day, 2) + ['T'] + t3;
    StampField('2', t.date.day, 'T', g3, a[2..], t3);
    var g1, t1 := ZeroDirective('2') + ['-'] + g2, Fixed(t.date.month, 2) + ['-'] + t2;
    StampField('2', t.date.month, '-', g2, a[1..], t2);
    ZeroFieldChar('4', t.date.year, '-', g1, a, t1);
  }

  lemma EmptyRenders(args: seq<Arg>)
    ensures Render("", args) == Some("")
  {
  }

  lemma YearFixed(y: nat)
    ensures y < 10000 ==> YearText(y) == Fixed(y, 4)
    ensures y >= 10000 ==> |YearText(y)| > 4
  {
    assert Pow(10, 4) == 10000 by {
      assert Pow(10, 2) == 100 && Pow(10, 3) == 10 * Pow(10, 2) && Pow(10, 4) == 10 * Pow(10, 3);
    }
    hide Pow;
    if y < 10000 { FixedIs(y, 4, 32); } else { DigitsLength(y, 10, 32, false, 4); }
  }

  /** The text fills a buffer of 25 characters exactly for the years up to 9999. */
  lemma StampLength(t: Stamp)
    ensures |StampText(t)| == 24 <==> t.date.year < 10000
    ensures |StampText(t)| >= 24
  {
    hide Digits, Fixed;
    YearFixed(t.date.year);
  }

  /** No text of a year beyond 9999 starts like one of a year up to 9999: it has a digit where that has a hyphen. */
  lemma LateText(s: Stamp, t: Stamp)
    requires s.date.year >= 10000 && t.date.year < 10000
    ensures StampText(s)[..24] != StampText(t)
  {
    StampLength(s);
    StampLength(t);
    YearFixed(s.date.year);
    YearFixed(t.date.year);
    YearDigits(s.date.year);
    hide YearText, Fixed;
    assert StampText(t)[4] == '-';
    assert StampText(s)[..24][4] == YearText(s.date.year)[4];
    NoDigit('-');
  }

  lemma YearDigits(y: nat)
    ensures AllDigits(YearText(y), 10, false)
  {
    hide Digits;
    DigitsAreDigits(y, 10, 32, false);
    ZerosToDigits(Digits(y, 10, 32, false), 4, 10, false);
  }

  lemma NoDigit(c: char)
    requires c < '0'
    ensures !IsDigitChar(c, 10, false)
  {
  }

  /** Reads the fields back from their places. */
  function ParseStamp(s: string): Stamp
    requires |s| == 24
  {
    Stamp(Date(Parse(s[..4], 10), Parse(s[5..7], 10), Parse(s[8..10], 10)),
          Parse(s[11..13], 10), Parse(s[14..16], 10), Parse(s[17..19], 10), Parse(s[20..23], 10))
  }

  /** A field at its place, and what follows it. */
  lemma Peel(s: string, at: nat, x: string, c: char, rest: string)
    requires at <= |s| && s[at..] == x + [c] + rest
    ensures s[at..at + |x|] == x && s[at + |x| + 1..] == rest
  {
    assert s[at..][..|x|] == x && s[at..][|x| + 1..] == rest;
  }

  /** The text gives the date and time back. */
  lemma StampParses(t: Stamp)
    requires Printable(t) && t.date.year < 10000
    ensures |StampText(t)| == 24 && ParseStamp(StampText(t)) == t
  {
    StampLength(t);
    FieldBounds(t);
    YearFixed(t.date.year);
    YearBound(t.date.year);
    hide Digits, Fixed, Parse, Pow, YearText;
    var s := StampText(t);
    var t6 := Fixed(t.milli, 3) + ['Z'];
    var t5 := Fixed(t.second, 2) + ['.'] + t6;
    var t4 := Fixed(t.minute, 2) + [':'] + t5;
    var t3 := Fixed(t.hour, 2) + [':'] + t4;
    var t2 := Fixed(t.date.day, 2) + ['T'] + t3;
    var t1 := Fixed(t.date.month, 2) + ['-'] + t2;
    assert s == s[0..];
    Peel(s, 0, Fixed(t.date.year, 4), '-', t1);
    Peel(s, 5, Fixed(t.date.month, 2), '-', t2);
    Peel(s, 8, Fixed(t.date.day, 2), 'T', t3);
    Peel(s, 11, Fixed(t.hour, 2), ':', t4);
    Peel(s, 14, Fixed(t.minute, 2), ':', t5);
    Peel(s, 17, Fixed(t.second, 2), '.', t6);
    assert t6 == Fixed(t.milli, 3) + ['Z'] + "";
    Peel(s, 20, Fixed(t.milli, 3), 'Z', "");
    FixedParse(t.date.year, 4);
    FixedParse(t.date.month, 2);
    FixedParse(t.date.day, 2);
    FixedParse(t.hour, 2);
    FixedParse(t.minute, 2);
    FixedParse(t.second, 2);
    FixedParse(t.milli, 3);
  }

  lemma YearBound(y: nat)
    ensures y < 10000 ==> y < Pow(10, 4)
  {
    assert Pow(10, 2) == 100 && Pow(10, 3) == 10 * Pow(10, 2) && Pow(10, 4) == 10 * Pow(10, 3);
  }

  // ---------------------------------------------------------------- order

  predicate DateBefore(c: Date, d: Date) {
    c.year < d.year || (c.year == d.year && (c.month < d.month || (c.month == d.month && c.day < d.day)))
  }

  predicate TimeBefore(s: Stamp, t: Stamp) {
    s.hour < t.hour || (s.hour == t.hour && (s.minute < t.minute || (s.minute == t.minute &&
      (s.second < t.second || (s.second == t.second && s.milli < t.milli)))))
  }

  lemma {:induction false} DatesOrdered(m: nat, n: nat)
    requires m < n
    ensures DateBefore(DateOf(m), DateOf(n))
  {
    DateOfDay(n - 1);
    hide Valid, DayNumber, Next, DateBefore;
    NextLater(DateOf(n - 1));
    if m < n - 1 {
      DatesOrdered(m, n - 1);
      DateBeforeTrans(DateOf(m), DateOf(n - 1), DateOf(n));
    }
  }

  lemma NextLater(d: Date)
    requires Valid(d)
    ensures DateBefore(d, Next(d))
  {
  }

  lemma DateBeforeTrans(a: Date, b: Date, c: Date)
    requires DateBefore(a, b) && DateBefore(b, c)
    ensures DateBefore(a, c)
  {
  }

  lemma FieldOrder(v: nat, w: nat, n: nat, c: char, x: string, y: string)
    requires v < Pow(10, n) && w < Pow(10, n)
    ensures v < w || (v == w && Before(x, y)) ==> Before(Fixed(v, n) + [c] + x, Fixed(w, n) + [c] + y)
  {
    hide Fixed, Pow;
    assert Fixed(v, n) + [c] + x == Fixed(v, n) + ([c] + x) && Fixed(w, n) + [c] + y == Fixed(w, n) + ([c] + y);
    if v < w { FixedOrder(v, w, n); }
    BeforeFront([c], [c], x, y);
    BeforeFront(Fixed(v, n), Fixed(w, n), [c] + x, [c] + y);
  }

  /** An earlier date or time has an earlier text. */
  lemma TextOrder(s: Stamp, t: Stamp)
    requires Printable(s) && Printable(t) && s.date.year < 10000 && t.date.year < 10000
    requires DateBefore(s.date, t.date) || (s.date == t.date && TimeBefore(s, t))
    ensures Before(StampText(s), StampText(t))
  {
    FieldBounds(s);
    FieldBounds(t);
    YearFixed(s.date.year);
    YearFixed(t.date.year);
    YearBound(s.date.year);
    YearBound(t.date.year);
    hide Fixed, Before, Pow, YearText, Printable;
    MilliOrder(s.milli, t.milli);
    var s6, t6 := Fixed(s.milli, 3) + ['Z'], Fixed(t.milli, 3) + ['Z'];
    FieldOrder(s.second, t.second, 2, '.', s6, t6);
    var s5, t5 := Fixed(s.second, 2) + ['.'] + s6, Fixed(t.second, 2) + ['.'] + t6;
    FieldOrder(s.minute, t.minute, 2, ':', s5, t5);
    var s4, t4 := Fixed(s.minute, 2) + [':'] + s5, Fixed(t.minute, 2) + [':'] + t5;
    FieldOrder(s.hour, t.hour, 2, ':', s4, t4);
    var s3, t3 := Fixed(s.hour, 2) + [':'] + s4, Fixed(t.hour, 2) + [':'] + t4;
    FieldOrder(s.date.day, t.date.day, 2, 'T', s3, t3);
    var s2, t2 := Fixed(s.date.day, 2) + ['T'] + s3, Fixed(t.date.day, 2) + ['T'] + t3;
    FieldOrder(s.date.month, t.date.month, 2, '-', s2, t2);
    var s1, t1 := Fixed(s.date.month, 2) + ['-'] + s2, Fixed(t.date.month, 2) + ['-'] + t2;
    FieldOrder(s.date.year, t.date.year, 4, '-', s1, t1);
  }

  lemma MilliOrder(v: nat, w: nat)
    requires v < Pow(10, 3) && w < Pow(10, 3)
    ensures v < w ==> Before(Fixed(v, 3) + ['Z'], Fixed(w, 3) + ['Z'])
  {
    hide Fixed, Pow;
    FieldOrder(v, w, 3, 'Z', "", "");
    assert Fixed(v, 3) + ['Z'] + "" == Fixed(v, 3) + ['Z'] && Fixed(w, 3) + ['Z'] + "" == Fixed(w, 3) + ['Z'];
  }

  /** The date and time of an instant. */
  ghost predicate IsStampOf(ms: nat, t: Stamp) { t.date == DateOf(ms / 86400000) && Splits(ms, ms / 86400000, t) }

  lemma InstantsOrdered(a: nat, b: nat, s: Stamp, t: Stamp)
    requires a < b && IsStampOf(a, s) && IsStampOf(b, t)
    ensures DateBefore(s.date, t.date) || (s.date == t.date && TimeBefore(s, t))
  {
    if a / 86400000 < b / 86400000 { DatesOrdered(a / 86400000, b / 86400000); }
  }

  /** The texts of two instants of the years up to 9999 are in lexicographic order exactly when the instants are in
      order, so no two instants have the same text. */
  lemma OrderOfTexts(a: nat, b: nat, s: Stamp, t: Stamp)
    requires IsStampOf(a, s) && IsStampOf(b, t) && s.date.year < 10000 && t.date.year < 10000
    ensures a < b <==> Before(StampText(s), StampText(t))
    ensures a == b <==> StampText(s) == StampText(t)
  {
    hide StampText, DateBefore, TimeBefore, Before, DateOf;
    DateOfDay(a / 86400000);
    DateOfDay(b / 86400000);
    if a < b {
      InstantsOrdered(a, b, s, t);
      TextOrder(s, t);
      BeforeAsym(StampText(s), StampText(t));
    } else if b < a {
      InstantsOrdered(b, a, t, s);
      TextOrder(t, s);
      BeforeAsym(StampText(t), StampText(s));
    } else {
      SameInstant(a, s, t);
      NotBeforeItself(StampText(s));
    }
  }

  lemma SameInstant(a: nat, s: Stamp, t: Stamp)
    requires IsStampOf(a, s) && IsStampOf(a, t)
    ensures s == t
  {
  }

  lemma NotBeforeItself(s: string)
    ensures !Before(s, s)
  {
    if Before(s, s) { BeforeAsym(s, s); }
  }
}
