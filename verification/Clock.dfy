/** From the clock registers to the timestamp text. */
module Clock {
  import opened Wrappers
  import opened PrintfSpec
  import opened FormatSpec
  import opened Calendar
  import opened Timestamp
  import Printf

  // ---------------------------------------------------------------- the timestamp

  /** Writes the timestamp of a millisecond count. */
  method MsToIso8601(msEpoch: nat, buf: array<char>, bufSize: nat) returns (ghost t: Stamp)
    requires msEpoch < U64 && bufSize <= buf.Length && bufSize < U64
    modifies buf
    ensures IsStampOf(msEpoch, t) && Printable(t)
    ensures Printf.Terminated(buf[..], old(buf[..]), StampText(t), bufSize)
  {
    hide StampText, Printf.Terminated, Render, Valid;
    var f := MsToFields(msEpoch);
    t := f;
    StampPrintable(msEpoch, t);
    StampRenders(t);
    var _ := Printf.Vsnprintf(buf, bufSize, TIMESTAMP_FORMAT, StampArgs(f));
  }

  /** The year of every 64-bit millisecond count is an int. */
  lemma StampPrintable(ms: nat, t: Stamp)
    requires ms < U64 && IsStampOf(ms, t)
    ensures Printable(t)
  {
    DateOfDay(ms / 86400000);
    DayNumberBounds(t.date);
  }

  /** A buffer of 25 characters holds the whole timestamp of a year up to 9999, and NUL. */
  lemma StampFits(b: seq<char>, was: seq<char>, t: Stamp)
    requires Printf.Terminated(b, was, StampText(t), 25) && t.date.year < 10000
    ensures b[..24] == StampText(t) && b[24] == NUL
  {
    StampLength(t);
    hide StampText;
  }

  // ---------------------------------------------------------------- decimal text

  /** What atoi_ makes of a text. */
  function AtoiValue(s: string): int {
    if s == "" then 0 else AtoiValue(s[..|s| - 1]) * 10 + (s[|s| - 1] as int - '0' as int)
  }

  /** Every number on the way is an int. */
  ghost predicate AtoiFits(s: string) { forall n | 0 <= n <= |s| :: -0x8000_0000 <= AtoiValue(s[..n]) < 0x8000_0000 }

  /** The string in an array, up to its NUL. */
  ghost predicate Holds(a: seq<char>, s: string) { |s| < |a| && a[..|s|] == s && a[|s|] == NUL && NUL !in s }

  method Atoi(strg: array<char>, ghost s: string) returns (res: int)
    requires Holds(strg[..], s) && AtoiFits(s)
    ensures res == AtoiValue(s)
  {
    res := 0;
    var i := 0;
    assert forall k | 0 <= k < |s| :: strg[k] == strg[..][..|s|][k] == s[k] && s[k] in s;
    while strg[i] != NUL
      invariant 0 <= i <= |s| && res == AtoiValue(s[..i])
      decreases |s| - i
    {
      assert i < |s| && s[..i + 1][..i] == s[..i];
      res := res * 10 + (strg[i] as int - '0' as int);
      i := i + 1;
    }
    assert i == |s| && s[..i] == s;
  }

  // ---------------------------------------------------------------- registers

  /** The registers of the clock, one byte each. */
  datatype Registers = Registers(century: nat, second: nat, minute: nat, hour: nat, day: nat, month: nat, year: nat)

  predicate Bytes(r: Registers) {
    r.century < 256 && r.second < 256 && r.minute < 256 && r.hour < 256 && r.day < 256 && r.month < 256 && r.year < 256
  }

  /** Two decimal digits in one byte. */
  predicate Bcd(b: nat) { b < 256 && b / 16 < 10 && b % 16 < 10 }

  function FromBcd(b: nat): nat { b / 16 * 10 + b % 16 }

  function HexText(b: nat): string { Digits(b, 16, 32, false) }

  lemma HexTextIs(b: nat)
    requires b < 256
    ensures HexText(b) == if b < 16 then [DigitChar(b, false)] else [DigitChar(b / 16, false), DigitChar(b % 16, false)]
  {
    if b < 16 {
      assert b / 16 == 0 && b % 16 == b;
      assert "" + [DigitChar(b, false)] == [DigitChar(b, false)];
    } else {
      var q := b / 16;
      assert q / 16 == 0 && q % 16 == q;
      assert Digits(q, 16, 31, false) == [DigitChar(q, false)];
    }
  }

  lemma AtoiSnoc(s: string, c: char)
    ensures AtoiValue(s + [c]) == AtoiValue(s) * 10 + (c as int - '0' as int)
  {
    assert (s + [c])[..|s|] == s;
  }

  lemma AtoiOne(c: char)
    ensures AtoiValue([c]) == c as int - '0' as int
  {
    AtoiSnoc("", c);
    assert "" + [c] == [c];
  }

  lemma AtoiTwo(c: char, d: char)
    ensures AtoiValue([c, d]) == (c as int - '0' as int) * 10 + (d as int - '0' as int)
  {
    AtoiOne(c);
    AtoiSnoc([c], d);
    assert [c] + [d] == [c, d];
  }

  /** Reading the hexadecimal text of a register as a decimal number decodes it. */
  lemma BcdText(b: nat)
    requires Bcd(b)
    ensures AtoiValue(HexText(b)) == FromBcd(b)
  {
    hide AtoiValue, HexText;
    HexTextIs(b);
    if b < 16 {
      AtoiOne(DigitChar(b, false));
    } else {
      AtoiTwo(DigitChar(b / 16, false), DigitChar(b % 16, false));
    }
  }

  /** The year is read from the texts of two registers; the second has one character if its value is below 16. */
  function YearRead(century: nat, year: nat): nat {
    if year < 16 then FromBcd(century) * 10 + FromBcd(year) else FromBcd(century) * 100 + FromBcd(year)
  }

  lemma YearText2(century: nat, year: nat)
    requires Bcd(century) && Bcd(year)
    ensures AtoiValue(HexText(century) + HexText(year)) == YearRead(century, year)
  {
    hide AtoiValue, HexText;
    BcdText(century);
    HexTextIs(year);
    var c := HexText(century);
    if year < 16 {
      AtoiSnoc(c, DigitChar(year, false));
    } else {
      var x, y := DigitChar(year / 16, false), DigitChar(year % 16, false);
      AtoiSnoc(c, x);
      AtoiSnoc(c + [x], y);
      assert c + [x, y] == c + [x] + [y];
    }
  }

  /** The year of the registers is read right exactly when its last two digits are 10 or more, or the century is 0:
      the years ending in 00 to 09 lose a digit. */
  lemma YearReadRight(century: nat, year: nat)
    requires Bcd(century) && Bcd(year)
    ensures YearRead(century, year) == FromBcd(century) * 100 + FromBcd(year) <==> year >= 16 || century == 0
  {
  }

  lemma HexHead(g: string, args: seq<Arg>)
    ensures TakeHead(['x'] + g, args) == Some(Head(NO_FLAGS, 0, 0, ['x'] + g, args))
  {
    var f := ['x'] + g;
    assert TakeFlags(f, NO_FLAGS) == (NO_FLAGS, f);
  }

  lemma HexNumber(b: nat, h: Head)
    requires b < 256 && h.flags == NO_FLAGS && h.width == 0 && h.prec == 0
    ensures IntegerText('x', h, b) == HexText(b)
  {
    hide Digits;
    assert UnsignedValue(b, NumberFlags('x', NO_FLAGS)) == b;
    assert NumberDigits(b, 16, NO_FLAGS) == HexText(b);
    assert "" + HexText(b) == HexText(b);
  }

  /** A byte in hexadecimal in front of a format. */
  lemma HexField(b: nat, g: string, args: seq<Arg>, text: string)
    requires b < 256 && args != [] && args[0] == Word(b) && Render(g, args[1..]) == Some(text)
    ensures Render(['%', 'x'] + g, args) == Some(HexText(b) + text)
  {
    hide Digits, TakeHead, IntegerText, HexText;
    var f := ['%', 'x'] + g;
    assert f[1..] == ['x'] + g;
    HexHead(g, args);
    var h := Head(NO_FLAGS, 0, 0, ['x'] + g, args);
    HexNumber(b, h);
    assert h.rest[1..] == g;
    assert 'x' in "diuxXob";
  }

  lemma OneByteText(b: nat)
    requires b < 256
    ensures Render("%x", [Word(b)]) == Some(HexText(b))
  {
    EmptyRenders([]);
    HexField(b, "", [Word(b)], "");
    assert ['%', 'x'] + "" == "%x" && HexText(b) + "" == HexText(b);
  }

  lemma TwoByteText(b: nat, c: nat)
    requires b < 256 && c < 256
    ensures Render("%x%x", [Word(b), Word(c)]) == Some(HexText(b) + HexText(c))
  {
    OneByteText(c);
    HexField(b, "%x", [Word(b), Word(c)], HexText(c));
    assert ['%', 'x'] + "%x" == "%x%x";
  }

  /** A text of at most four hexadecimal digits in a buffer of ten characters. */
  lemma ShortText(b: seq<char>, was: seq<char>, s: string)
    requires Printf.Terminated(b, was, s, 10) && |s| <= 4
    requires forall i | 0 <= i < |s| :: '0' <= s[i] <= '9' || 'a' <= s[i] <= 'f'
    ensures Holds(b, s) && AtoiFits(s)
  {
    forall n | 0 <= n <= |s| ensures -0x8000_0000 <= AtoiValue(s[..n]) < 0x8000_0000 {
      AtoiSmall(s[..n]);
    }
  }

  lemma {:induction false} AtoiSmall(s: string)
    requires |s| <= 4 && forall i | 0 <= i < |s| :: '0' <= s[i] <= '9' || 'a' <= s[i] <= 'f'
    ensures 0 <= AtoiValue(s) <= 66660
    ensures |s| <= 3 ==> AtoiValue(s) <= 6660
    ensures |s| <= 2 ==> AtoiValue(s) <= 660
    ensures |s| <= 1 ==> AtoiValue(s) <= 60
    ensures |s| == 0 ==> AtoiValue(s) == 0
  {
    if s != "" { AtoiSmall(s[..|s| - 1]); }
  }

  lemma HexChars(b: nat)
    requires b < 256
    ensures |HexText(b)| <= 2
    ensures forall i | 0 <= i < |HexText(b)| :: '0' <= HexText(b)[i] <= '9' || 'a' <= HexText(b)[i] <= 'f'
  {
    HexTextIs(b);
  }

  /** Prints a register in hexadecimal and reads it back as a decimal number. */
  method ReadByte(b: nat) returns (v: int)
    requires b < 256
    ensures v == AtoiValue(HexText(b))
  {
    hide HexText, Render, Printf.Terminated, AtoiValue;
    var buf := new char[10];
    ghost var was := buf[..];
    OneByteText(b);
    HexChars(b);
    var _ := Printf.Vsnprintf(buf, 10, "%x", [Word(b)]);
    ShortText(buf[..], was, HexText(b));
    v := Atoi(buf, HexText(b));
  }

  method ReadYear(century: nat, year: nat) returns (v: int)
    requires century < 256 && year < 256
    ensures v == AtoiValue(HexText(century) + HexText(year))
  {
    hide HexText, Render, Printf.Terminated, AtoiValue;
    var buf := new char[10];
    ghost var was := buf[..];
    TwoByteText(century, year);
    HexChars(century);
    HexChars(year);
    var _ := Printf.Vsnprintf(buf, 10, "%x%x", [Word(century), Word(year)]);
    ShortText(buf[..], was, HexText(century) + HexText(year));
    v := Atoi(buf, HexText(century) + HexText(year));
  }

  /** The registers hold a date and time in decimal digits. */
  predicate Shows(r: Registers, t: Stamp) {
    Bcd(r.century) && Bcd(r.second) && Bcd(r.minute) && Bcd(r.hour) && Bcd(r.day) && Bcd(r.month) && Bcd(r.year) &&
    t == Stamp(Date(FromBcd(r.century) * 100 + FromBcd(r.year), FromBcd(r.month), FromBcd(r.day)),
               FromBcd(r.hour), FromBcd(r.minute), FromBcd(r.second), 0)
  }

  /** The number that printing and reading make of a register. */
  function ByteRead(b: nat): int { AtoiValue(HexText(b)) }

  function TextYear(century: nat, year: nat): int { AtoiValue(HexText(century) + HexText(year)) }

  /** Seconds since 1970 from the registers; the fields are cut to the widths of the parameters. */
  method GetUnixTimestamp(r: Registers) returns (secs: nat)
    requires Bytes(r)
    ensures secs == GetUnixEpoch(ByteRead(r.second) % 256, ByteRead(r.minute) % 256, ByteRead(r.hour) % 256,
                                 ByteRead(r.day) % 256, ByteRead(r.month) % 256, TextYear(r.century, r.year) % 0x1_0000)
    ensures AllBcd(r) ==> secs == DecimalEpoch(r)
    ensures secs < U64
  {
    hide GetUnixEpoch, AtoiValue, HexText, FromBcd, YearRead, Bcd;
    var second := ReadByte(r.second);
    var minute := ReadByte(r.minute);
    var hour := ReadByte(r.hour);
    var day := ReadByte(r.day);
    var month := ReadByte(r.month);
    var year := ReadYear(r.century, r.year);
    RightByte(r.second);
    RightByte(r.minute);
    RightByte(r.hour);
    RightByte(r.day);
    RightByte(r.month);
    DecimalYear(r.century, r.year);
    secs := GetUnixEpoch(second % 256, minute % 256, hour % 256, day % 256, month % 256, year % 0x1_0000);
    EpochWord(second % 256, minute % 256, hour % 256, day % 256, month % 256, year % 0x1_0000);
  }

  /** All registers hold decimal digits. */
  predicate AllBcd(r: Registers) {
    Bcd(r.century) && Bcd(r.second) && Bcd(r.minute) && Bcd(r.hour) && Bcd(r.day) && Bcd(r.month) && Bcd(r.year)
  }

  /** The seconds of the decimal digits in the registers. */
  function DecimalEpoch(r: Registers): nat {
    GetUnixEpoch(FromBcd(r.second), FromBcd(r.minute), FromBcd(r.hour), FromBcd(r.day), FromBcd(r.month),
                 YearRead(r.century, r.year))
  }

  /** A register is decoded right exactly when it holds two decimal digits. */
  lemma RightByte(b: nat)
    requires b < 256
    ensures ByteRead(b) % 256 == FromBcd(b) <==> Bcd(b)
  {
    hide HexText, AtoiValue;
    HexTextIs(b);
    if b < 16 {
      AtoiOne(DigitChar(b, false));
    } else {
      AtoiTwo(DigitChar(b / 16, false), DigitChar(b % 16, false));
    }
  }

  lemma DecimalYear(century: nat, year: nat)
    ensures Bcd(century) && Bcd(year) ==> TextYear(century, year) % 0x1_0000 == YearRead(century, year)
  {
    if Bcd(century) && Bcd(year) { YearText2(century, year); }
  }

  lemma EpochWord(seconds: nat, minutes: nat, hours: nat, days: nat, months: nat, years: nat)
    ensures GetUnixEpoch(seconds, minutes, hours, days, months, years) < U64
  {
  }

  // ---------------------------------------------------------------- registers to text

  /** The registers hold an existing date and time. */
  predicate ShowsTime(r: Registers, t: Stamp) {
    Shows(r, t) && Valid(t.date) && t.hour < 24 && t.minute < 60 && t.second < 60
  }

  /** The registers' date and time as text: right exactly from 1970 on and for years that do not end in 00 to 09. */
  method GetFormattedTime(r: Registers, ghost t: Stamp) returns (buf: array<char>)
    requires Bytes(r)
    ensures buf.Length == 25
    ensures ShowsTime(r, t) ==> (buf[..24] == StampText(t) && buf[24] == NUL <==> t.date.year >= 1970 && r.year >= 16)
  {
    hide StampText, Printf.Terminated, GetUnixEpoch, DecimalEpoch, IsStampOf, Printable, ShowsTime;
    buf := new char[25];
    ghost var was := buf[..];
    var secs := GetUnixTimestamp(r);
    ghost var s := MsToIso8601(secs * 1000 % U64, buf, 25);
    if ShowsTime(r, t) { TextRight(r, t, secs, s, buf[..], was); }
  }

  lemma TextRight(r: Registers, t: Stamp, secs: nat, s: Stamp, b: seq<char>, was: seq<char>)
    requires ShowsTime(r, t) && (AllBcd(r) ==> secs == DecimalEpoch(r))
    requires IsStampOf(secs * 1000 % U64, s) && Printf.Terminated(b, was, StampText(s), 25) && |b| == 25
    ensures b[..24] == StampText(t) && b[24] == NUL <==> t.date.year >= 1970 && r.year >= 16
  {
    YearReadRight(r.century, r.year);
    hide StampText, GetUnixEpoch, IsStampOf, Valid;
    if t.date.year >= 1970 && r.year >= 16 {
      StampComesBack(secs, t, s);
      StampFits(b, was, t);
    } else {
      ReadBeforeEpoch(r, t, secs);
      LateStamp(secs * 1000 % U64, s);
      StampLength(s);
      LateText(s, t);
      assert b[..24] == StampText(s)[..24];
    }
  }

  /** Registers that are not read right give an instant before 1970, which wraps around. */
  lemma ReadBeforeEpoch(r: Registers, t: Stamp, secs: nat)
    requires ShowsTime(r, t) && secs == DecimalEpoch(r) && !(t.date.year >= 1970 && r.year >= 16)
    ensures secs * 1000 % U64 / 86400000 > 0x1_0000_0000
  {
    hide GetUnixEpoch, FromBcd, Leap;
    if r.year >= 16 {
      EarlyEpoch(t, secs);
    } else {
      var y := YearRead(r.century, r.year);
      BcdBound(r.century);
      BcdBound(r.year);
      MisreadEpoch(t.hour * 3600 + t.minute * 60 + t.second, t, y, secs);
    }
  }

  lemma BcdBound(b: nat)
    requires Bcd(b)
    ensures FromBcd(b) < 100 && (b < 16 ==> FromBcd(b) < 10)
  {
  }

  lemma EarlyEpoch(t: Stamp, secs: nat)
    requires ClockTime(t) && t.date.year < 1970
    requires secs == GetUnixEpoch(t.second, t.minute, t.hour, t.date.day, t.date.month, t.date.year)
    ensures secs * 1000 % U64 / 86400000 > 0x1_0000_0000
  {
    hide GetUnixEpoch, SecondsOf, ClockTime;
    EpochIs(t);
    BeforeEpoch(SecondsOf(t), secs * 1000 % U64);
  }

  lemma MisreadEpoch(time: nat, t: Stamp, y: nat, secs: nat)
    requires time == t.hour * 3600 + t.minute * 60 + t.second && time < 86400
    requires 1 <= t.date.day <= 31 && 1 <= t.date.month <= 12 && y < 1000
    requires secs == GetUnixEpoch(t.second, t.minute, t.hour, t.date.day, t.date.month, y)
    ensures secs * 1000 % U64 / 86400000 > 0x1_0000_0000
  {
    hide GetUnixEpoch, GetJdn;
    EarlyYears(t.date.day, t.date.month, y);
    EpochOf(time, t.second, t.minute, t.hour, t.date.day, t.date.month, y);
    BeforeEpoch((GetJdn(t.date.day, t.date.month, y) - 2440588) * 86400 + time, secs * 1000 % U64);
  }

  lemma LateStamp(ms: nat, s: Stamp)
    requires IsStampOf(ms, s) && ms / 86400000 > 0x1_0000_0000
    ensures s.date.year >= 10000
  {
    hide DayNumber;
    DateOfDay(ms / 86400000);
    DayNumberBounds(s.date);
  }

  lemma StampComesBack(secs: nat, t: Stamp, s: Stamp)
    requires ClockTime(t) && t.date.year >= 1970 && IsStampOf(secs * 1000 % U64, s)
    requires secs == GetUnixEpoch(t.second, t.minute, t.hour, t.date.day, t.date.month, t.date.year)
    ensures s == t
  {
    hide GetUnixEpoch, SecondsOf;
    EpochIs(t);
    FieldsReturn(t, s, secs * 1000 % U64);
  }
}
