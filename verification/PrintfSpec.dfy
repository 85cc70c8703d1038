/** What a format and its arguments print, without any bound: fields, directives, whole formats. */
module PrintfSpec {
  import opened Wrappers

  /** PRINTF_NTOA_BUFFER_SIZE: the digits, zeros and sign of a number go through 32 characters. */
  const NTOA_SIZE: nat := 32

  const NUL: char := 0 as char

  datatype Flags = Flags(zeropad: bool, left: bool, plus: bool, space: bool, hash: bool, uppercase: bool,
                         chars: bool, shorts: bool, longs: bool, precision: bool)

  /** A variable argument: a 64-bit slot, or a string. */
  datatype Arg = Word(bits: nat) | Text(text: string)

  function Repeat(c: char, n: nat): (s: string)
    ensures |s| == n && forall i | 0 <= i < n :: s[i] == c
  {
    seq(n, _ => c)
  }

  // ---------------------------------------------------------------- digits

  function DigitChar(d: nat, uppercase: bool): char
    requires d < 16
  {
    if d < 10 then ('0' as int + d) as char else ((if uppercase then 'A' else 'a') as int + d - 10) as char
  }

  /** The low n digits of v, without leading zeros, most significant first. */
  function Digits(v: nat, base: nat, n: nat, uppercase: bool): (s: string)
    requires 2 <= base <= 16
    ensures |s| <= n
    decreases n
  {
    if n == 0 then ""
    else (if v / base == 0 then "" else Digits(v / base, base, n - 1, uppercase)) + [DigitChar(v % base, uppercase)]
  }

  /** Moving the last of n digits to the digits already found. */
  lemma DigitMoves(v: nat, base: nat, n: nat, uppercase: bool, all: string, s: string)
    requires 2 <= base <= 16 && n > 0 && all == Digits(v, base, n, uppercase) + s
    ensures var t := [DigitChar(v % base, uppercase)] + s;
            if v / base == 0 || n == 1 then all == t else all == Digits(v / base, base, n - 1, uppercase) + t
  {
    hide DigitChar;
    var c := DigitChar(v % base, uppercase);
    var high := if v / base == 0 then "" else Digits(v / base, base, n - 1, uppercase);
    assert high + [c] + s == high + ([c] + s);
    if high == "" { assert high + ([c] + s) == [c] + s; }
  }

  function DigitValue(c: char): nat {
    if '0' <= c <= '9' then c as int - '0' as int
    else if 'a' <= c <= 'f' then c as int - 'a' as int + 10
    else if 'A' <= c <= 'F' then c as int - 'A' as int + 10
    else 0
  }

  /** The number that a string of digits denotes. */
  function Parse(s: string, base: nat): nat {
    if s == "" then 0 else Parse(s[..|s| - 1], base) * base + DigitValue(s[|s| - 1])
  }

  lemma DigitOfChar(d: nat, uppercase: bool)
    requires d < 16
    ensures DigitValue(DigitChar(d, uppercase)) == d && (DigitChar(d, uppercase) == '0' <==> d == 0)
  {
  }

  lemma DivBound(v: nat, base: nat, p: nat)
    requires base > 0
    ensures v < base * p <==> v / base < p
  {
    var q := v / base;
    assert v == base * q + v % base;
    if q < p {
      assert base * (q + 1) <= base * p;
    } else {
      assert base * p <= base * q;
    }
  }

  lemma ParseEmpty(base: nat)
    ensures Parse("", base) == 0
  {
  }

  lemma ParseSnoc(high: string, d: nat, base: nat, uppercase: bool)
    requires d < 16
    ensures Parse(high + [DigitChar(d, uppercase)], base) == Parse(high, base) * base + d
  {
    DigitOfChar(d, uppercase);
    assert (high + [DigitChar(d, uppercase)])[..|high|] == high;
  }

  lemma Horner(v: nat, base: nat, p: nat, bound: nat)
    requires base > 0 && p <= v / base && (p == v / base <==> v / base < bound)
    ensures (p * base + v % base == v <==> v < base * bound) && p * base + v % base <= v
  {
    var q := v / base;
    DivBound(v, base, bound);
    assert v == q * base + v % base;
    if p < q { assert (p + 1) * base <= q * base; }
  }

  lemma LastDigit(v: nat, base: nat, n: nat, uppercase: bool, high: string)
    requires 2 <= base <= 16 && n > 0 && Parse(high, base) <= v / base
    requires (Parse(high, base) == v / base <==> v / base < Pow(base, n - 1))
    ensures var p := Parse(high + [DigitChar(v % base, uppercase)], base); (p == v <==> v < Pow(base, n)) && p <= v
  {
    hide DigitChar, Parse;
    ParseSnoc(high, v % base, base, uppercase);
    Horner(v, base, Parse(high, base), Pow(base, n - 1));
  }

  /** The digits of a number denote it exactly when it fits in n digits. */
  lemma {:induction false} DigitsParse(v: nat, base: nat, n: nat, uppercase: bool)
    requires 2 <= base <= 16
    ensures Parse(Digits(v, base, n, uppercase), base) == v <==> v < Pow(base, n)
    ensures Parse(Digits(v, base, n, uppercase), base) <= v
    decreases n
  {
    ParseEmpty(base);
    hide DigitChar, DigitValue, Parse, Pow;
    PowZero(base);
    if n > 0 {
      var q := v / base;
      var high := if q == 0 then "" else Digits(q, base, n - 1, uppercase);
      PowPositive(base, n - 1);
      DigitsParse(q, base, n - 1, uppercase);
      LastDigit(v, base, n, uppercase, high);
    }
  }

  lemma PowZero(base: nat)
    ensures Pow(base, 0) == 1
  {
  }

  /** No leading zeros, and a single zero for zero. */
  lemma {:induction false} DigitsCanonical(v: nat, base: nat, n: nat, uppercase: bool)
    requires 2 <= base <= 16 && n > 0
    ensures var s := Digits(v, base, n, uppercase);
            s != "" && (v == 0 ==> s == "0") && (0 < v < Pow(base, n) ==> s[0] != '0')
    decreases n
  {
    var q := v / base;
    SmallNumber(v, base);
    if q > 0 {
      DivBound(v, base, Pow(base, n - 1));
      if n > 1 { DigitsCanonical(q, base, n - 1, uppercase); }
    } else {
      DigitOfChar(v, uppercase);
    }
  }

  /** A number below base to the k-th has at most k digits, and no other has. */
  lemma {:induction false} DigitsLength(v: nat, base: nat, n: nat, uppercase: bool, k: nat)
    requires 2 <= base <= 16 && 0 < k < n
    ensures |Digits(v, base, n, uppercase)| <= k <==> v < Pow(base, k)
    decreases k
  {
    hide DigitChar, Digits, Pow;
    BelowPow(v, base, k);
    DigitsHigh(v, base, n, uppercase);
    if k == 1 {
      PowZero(base);
      DigitsCanonical(v / base, base, n - 1, uppercase);
    } else if v / base > 0 {
      DigitsLength(v / base, base, n - 1, uppercase, k - 1);
    } else {
      PowPositive(base, k - 1);
    }
  }

  lemma BelowPow(v: nat, base: nat, k: nat)
    requires base > 0 && k > 0
    ensures v < Pow(base, k) <==> v / base < Pow(base, k - 1)
  {
    DivBound(v, base, Pow(base, k - 1));
  }

  lemma DigitsHigh(v: nat, base: nat, n: nat, uppercase: bool)
    requires 2 <= base <= 16 && n > 0
    ensures |Digits(v, base, n, uppercase)| ==
            1 + if v / base == 0 then 0 else |Digits(v / base, base, n - 1, uppercase)|
  {
    hide DigitChar;
  }

  /** One digit of the given base. */
  predicate IsDigitChar(c: char, base: nat, uppercase: bool) {
    exists d | 0 <= d < base && d < 16 :: c == DigitChar(d, uppercase)
  }

  predicate AllDigits(s: string, base: nat, uppercase: bool) {
    forall i | 0 <= i < |s| :: IsDigitChar(s[i], base, uppercase)
  }

  lemma {:induction false} DigitsAreDigits(v: nat, base: nat, n: nat, uppercase: bool)
    requires 2 <= base <= 16
    ensures AllDigits(Digits(v, base, n, uppercase), base, uppercase)
    decreases n
  {
    hide DigitChar, IsDigitChar, AllDigits, Digits;
    NoDigits(base, uppercase);
    if n > 0 {
      var high, d := SplitDigits(v, base, n, uppercase);
      if high != "" { DigitsAreDigits(v / base, base, n - 1, uppercase); }
      OneMoreDigit(high, d, base, uppercase);
    }
  }

  lemma SplitDigits(v: nat, base: nat, n: nat, uppercase: bool) returns (high: string, d: nat)
    requires 2 <= base <= 16 && n > 0
    ensures d < base && Digits(v, base, n, uppercase) == high + [DigitChar(d, uppercase)]
    ensures high == if v / base == 0 then "" else Digits(v / base, base, n - 1, uppercase)
  {
    hide DigitChar;
    d := v % base;
    high := if v / base == 0 then "" else Digits(v / base, base, n - 1, uppercase);
  }

  lemma NoDigits(base: nat, uppercase: bool)
    ensures AllDigits("", base, uppercase)
  {
  }

  lemma OneMoreDigit(s: string, d: nat, base: nat, uppercase: bool)
    requires AllDigits(s, base, uppercase) && d < base <= 16
    ensures AllDigits(s + [DigitChar(d, uppercase)], base, uppercase)
  {
    assert IsDigitChar(DigitChar(d, uppercase), base, uppercase);
    hide DigitChar, IsDigitChar;
  }

  lemma SmallNumber(v: nat, base: nat)
    requires base > 0
    ensures v / base == 0 <==> v < base
    ensures v < base ==> v % base == v
  {
    assert v == v / base * base + v % base;
    if v / base > 0 { assert v / base * base >= base; }
  }

  // ---------------------------------------------------------------- number fields

  function Min(a: nat, b: nat): nat { if a < b then a else b }

  function Max(a: nat, b: nat): nat { if a < b then b else a }

  function ZerosTo(s: string, n: nat): (r: string)
    ensures |r| == Max(|s|, n)
  {
    if |s| < n then Repeat('0', n - |s|) + s else s
  }

  function PadLeft(s: string, n: nat): (r: string)
    ensures |r| == Max(|s|, n)
  {
    if |s| < n then Repeat(' ', n - |s|) + s else s
  }

  function PadRight(s: string, n: nat): (r: string)
    ensures |r| == Max(|s|, n)
  {
    if |s| < n then s + Repeat(' ', n - |s|) else s
  }

  function Sign(negative: bool, fl: Flags): string {
    if negative then "-" else if fl.plus then "+" else if fl.space then " " else ""
  }

  /** The width that zeros are padded to: one less if a sign is to come. */
  function ZeroWidth(negative: bool, width: nat, fl: Flags): nat {
    if !fl.left && width > 0 && fl.zeropad && (negative || fl.plus || fl.space) then width - 1 else width
  }

  /** The digits with their leading zeros; a left-justified field gets none. */
  function Zeroed(digits: string, prec: nat, width: nat, fl: Flags): string {
    if fl.left then digits
    else ZerosTo(ZerosTo(digits, Min(prec, NTOA_SIZE)), if fl.zeropad then Min(width, NTOA_SIZE) else 0)
  }

  /** Drops the leading zeros that a base prefix takes the place of. */
  function MakeRoom(s: string, base: nat, prec: nat, width: nat, fl: Flags): string {
    if fl.precision || s == "" || (|s| != prec && |s| != width) then s
    else if |s| > 1 && base == 16 then s[2..] else s[1..]
  }

  /** One more character in front, if the buffer has room. */
  function Front(c: char, s: string): string { if |s| < NTOA_SIZE then [c] + s else s }

  function Prefixed(s: string, base: nat, prec: nat, width: nat, fl: Flags): string {
    if !fl.hash then s
    else
      var r := MakeRoom(s, base, prec, width, fl);
      Front('0', if base == 16 then Front(if fl.uppercase then 'X' else 'x', r)
                 else if base == 2 then Front('b', r)
                 else r)
  }

  /** Digits, zeros, base prefix and sign; the sign is lost if the buffer is full. */
  function NumberBody(digits: string, negative: bool, base: nat, prec: nat, width: nat, fl: Flags): string {
    var s := Prefixed(Zeroed(digits, prec, width, fl), base, prec, width, fl);
    if |s| < NTOA_SIZE then Sign(negative, fl) + s else s
  }

  function Padded(body: string, width: nat, fl: Flags): string {
    if fl.left then PadRight(body, width) else if fl.zeropad then body else PadLeft(body, width)
  }

  function NumberField(digits: string, negative: bool, base: nat, prec: nat, width: nat, fl: Flags): string {
    var w := ZeroWidth(negative, width, fl);
    Padded(NumberBody(digits, negative, base, prec, w, fl), w, fl)
  }

  /** The digits of a number: none for a zero with an explicit precision. */
  function NumberDigits(v: nat, base: nat, fl: Flags): (s: string)
    requires 2 <= base <= 16
    ensures |s| <= NTOA_SIZE
  {
    if fl.precision && v == 0 then "" else Digits(v, base, NTOA_SIZE, fl.uppercase)
  }

  /** A number as _ntoa_long prints it. */
  function NumberText(v: nat, negative: bool, base: nat, prec: nat, width: nat, fl: Flags): string
    requires 2 <= base <= 16
  {
    var f := if v == 0 then fl.(hash := false) else fl;
    NumberField(NumberDigits(v, base, f), negative, base, prec, width, f)
  }

  /** What a number needs without padding to a width. */
  function Bare(v: nat, negative: bool, base: nat, prec: nat, fl: Flags): string
    requires 2 <= base <= 16
  {
    NumberBody(NumberDigits(v, base, fl), negative, base, prec, 0, fl)
  }

  /** Without a base prefix, a field is as long as its width or its bare number, whichever is longer, exactly when
      the width fits the buffer or is not filled with zeros. */
  lemma FieldLength(v: nat, negative: bool, base: nat, prec: nat, width: nat, fl: Flags)
    requires 2 <= base <= 16 && !fl.hash
    ensures |NumberText(v, negative, base, prec, width, fl)| == Max(width, |Bare(v, negative, base, prec, fl)|)
            <==> width <= 32 || !fl.zeropad || fl.left
  {
    hide Digits;
  }

  lemma {:induction false} ParseZeros(n: nat, s: string, base: nat)
    ensures Parse(Repeat('0', n) + s, base) == Parse(s, base)
    decreases |s|, n
  {
    var t := Repeat('0', n) + s;
    if s != "" {
      assert t[..|t| - 1] == Repeat('0', n) + s[..|s| - 1];
      ParseZeros(n, s[..|s| - 1], base);
    } else if n > 0 {
      assert t[..|t| - 1] == Repeat('0', n - 1) + s;
      ParseZeros(n - 1, s, base);
    }
  }

  lemma ZerosToParse(s: string, n: nat, base: nat)
    ensures Parse(ZerosTo(s, n), base) == Parse(s, base)
  {
    if |s| < n { ParseZeros(n - |s|, s, base); }
  }

  /** The number buffer has room for a sign behind digits and zeros. */
  predicate SignFits(v: nat, negative: bool, base: nat, prec: nat, width: nat, fl: Flags) {
    && ((fl.precision && v == 0) || v < Pow(base, 31))
    && (fl.left || (prec < 32 && (!fl.zeropad || ZeroWidth(negative, width, fl) < 32)))
  }

  /** That is so exactly when digits and zeros together are fewer than 32. */
  lemma SignFitsIs(v: nat, negative: bool, base: nat, prec: nat, width: nat, fl: Flags)
    requires 2 <= base <= 16
    ensures SignFits(v, negative, base, prec, width, fl) <==>
            |Zeroed(NumberDigits(v, base, fl), prec, ZeroWidth(negative, width, fl), fl)| < 32
  {
    DigitsLength(v, base, 32, fl.uppercase, 31);
    hide Digits, Pow, ZeroWidth;
  }

  lemma ZerosToDigits(s: string, n: nat, base: nat, uppercase: bool)
    requires 2 <= base <= 16 && AllDigits(s, base, uppercase)
    ensures AllDigits(ZerosTo(s, n), base, uppercase)
  {
    DigitOfChar(0, uppercase);
    assert IsDigitChar('0', base, uppercase);
    hide IsDigitChar;
  }

  lemma ZeroedDigits(v: nat, base: nat, prec: nat, w: nat, fl: Flags)
    requires 2 <= base <= 16
    ensures AllDigits(Zeroed(NumberDigits(v, base, fl), prec, w, fl), base, fl.uppercase)
  {
    var digits := NumberDigits(v, base, fl);
    DigitsAreDigits(v, base, 32, fl.uppercase);
    hide IsDigitChar, Digits, ZerosTo;
    ZerosToDigits(digits, Min(prec, NTOA_SIZE), base, fl.uppercase);
    var more := if fl.zeropad then Min(w, NTOA_SIZE) else 0;
    ZerosToDigits(ZerosTo(digits, Min(prec, NTOA_SIZE)), more, base, fl.uppercase);
  }

  /** Without a base prefix, a field is spaces, sign, digits and spaces. The digits denote the number exactly when it
      is below base to the 32nd, and the sign is there exactly when the number buffer has room for it. */
  lemma FieldParses(v: nat, negative: bool, base: nat, prec: nat, width: nat, fl: Flags)
    returns (a: nat, z: string, b: nat)
    requires 2 <= base <= 16 && !fl.hash
    ensures NumberText(v, negative, base, prec, width, fl) ==
            Repeat(' ', a) + (if SignFits(v, negative, base, prec, width, fl) then Sign(negative, fl) else "") + z +
            Repeat(' ', b)
    ensures AllDigits(z, base, fl.uppercase) && (Parse(z, base) == v <==> v < Pow(base, 32))
  {
    hide *;
    var w := ZeroWidth(negative, width, fl);
    z := Zeroed(NumberDigits(v, base, fl), prec, w, fl);
    var sign := if |z| < 32 then Sign(negative, fl) else "";
    SignFitsIs(v, negative, base, prec, width, fl);
    ZeroedDigits(v, base, prec, w, fl);
    ZeroedParse(v, base, prec, w, fl);
    NumberTextParts(v, negative, base, prec, width, fl, z, sign);
    a, b := PaddedParts(sign, z, w, fl);
  }

  lemma NumberTextParts(v: nat, negative: bool, base: nat, prec: nat, width: nat, fl: Flags, z: string, sign: string)
    requires 2 <= base <= 16 && !fl.hash
    requires z == Zeroed(NumberDigits(v, base, fl), prec, ZeroWidth(negative, width, fl), fl)
    requires sign == if |z| < 32 then Sign(negative, fl) else ""
    ensures NumberText(v, negative, base, prec, width, fl) == Padded(sign + z, ZeroWidth(negative, width, fl), fl)
  {
    hide Digits, Parse, Zeroed, Padded, Pow, NumberDigits, ZeroWidth;
    assert fl.(hash := false) == fl;
    if |z| >= 32 { assert sign + z == z; }
  }

  lemma PaddedParts(s: string, z: string, w: nat, fl: Flags) returns (a: nat, b: nat)
    ensures Padded(s + z, w, fl) == Repeat(' ', a) + s + z + Repeat(' ', b)
  {
    var body := s + z;
    a := if !fl.left && !fl.zeropad && |body| < w then w - |body| else 0;
    b := if fl.left && |body| < w then w - |body| else 0;
    assert Padded(body, w, fl) == Repeat(' ', a) + body + Repeat(' ', b);
    assert Repeat(' ', a) + s + z == Repeat(' ', a) + body;
  }

  lemma ZeroedParse(v: nat, base: nat, prec: nat, w: nat, fl: Flags)
    requires 2 <= base <= 16
    ensures Parse(Zeroed(NumberDigits(v, base, fl), prec, w, fl), base) == v <==> v < Pow(base, 32)
  {
    var digits := NumberDigits(v, base, fl);
    DigitsParse(v, base, 32, fl.uppercase);
    PowPositive(base, 32);
    ParseEmpty(base);
    hide Digits, Parse, Pow;
    ZerosToParse(digits, Min(prec, NTOA_SIZE), base);
    ZerosToParse(ZerosTo(digits, Min(prec, NTOA_SIZE)), if fl.zeropad then Min(w, NTOA_SIZE) else 0, base);
  }
}
