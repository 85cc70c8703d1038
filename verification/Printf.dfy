/** The format interpreter over a bounded buffer. */
module Printf {
  import opened Wrappers
  import opened PrintfSpec
  import opened FormatSpec

  // ---------------------------------------------------------------- the sink

  /** The buffer shows what was printed, as far as maxlen lets it; behind that it is as it was. */
  ghost predicate Shows(b: seq<char>, was: seq<char>, out: string, maxlen: nat) {
    && |b| == |was| && maxlen <= |b|
    && forall i | 0 <= i < |b| :: b[i] == if i < |out| && i < maxlen then out[i] else was[i]
  }

  lemma ShowsNothing(b: seq<char>, maxlen: nat)
    requires maxlen <= |b|
    ensures Shows(b, b, "", maxlen)
  {
  }

  /** Puts one character out. */
  method OutBuffer(c: char, buffer: array<char>, idx: nat, maxlen: nat, ghost was: seq<char>, ghost out: string)
    requires Shows(buffer[..], was, out, maxlen) && idx == |out|
    modifies buffer
    ensures Shows(buffer[..], was, out + [c], maxlen)
  {
    if idx < maxlen { buffer[idx] := c; }
  }

  /** Puts n copies of a character out. */
  method OutRepeat(c: char, n: nat, buffer: array<char>, idx: nat, maxlen: nat, ghost was: seq<char>,
          ghost out: string) returns (r: nat)
    requires Shows(buffer[..], was, out, maxlen) && idx == |out|
    modifies buffer
    ensures Shows(buffer[..], was, out + Repeat(c, n), maxlen) && r == idx + n
  {
    hide Shows;
    r := idx;
    assert out + Repeat(c, 0) == out;
    for i := 0 to n
      invariant r == idx + i && Shows(buffer[..], was, out + Repeat(c, i), maxlen)
    {
      OutBuffer(c, buffer, r, maxlen, was, out + Repeat(c, i));
      assert out + Repeat(c, i) + [c] == out + Repeat(c, i + 1);
      r := r + 1;
    }
  }

  // ---------------------------------------------------------------- numbers

  /** The first len characters of the buffer, read backwards. */
  ghost predicate Backwards(buf: seq<char>, len: nat, s: string) {
    len <= |buf| && len == |s| && forall i | 0 <= i < len :: buf[i] == s[len - 1 - i]
  }

  /** Puts the number buffer out in reverse, padded with spaces. */
  method OutRev(buffer: array<char>, idx: nat, maxlen: nat, buf: array<char>, len: nat, width: nat, fl: Flags,
                ghost was: seq<char>, ghost out: string, ghost body: string) returns (r: nat)
    requires Shows(buffer[..], was, out, maxlen) && idx == |out| && buffer != buf && Backwards(buf[..], len, body)
    modifies buffer
    ensures Shows(buffer[..], was, out + Padded(body, width, fl), maxlen) && r == idx + |Padded(body, width, fl)|
  {
    r := idx;
    ghost var all := out;
    if !fl.left && !fl.zeropad && len < width {
      r := OutRepeat(' ', width - len, buffer, r, maxlen, was, out);
      all := out + Repeat(' ', width - len);
    }
    ghost var front := all;
    var n := len;
    while n > 0
      invariant 0 <= n <= len && r == |all| && all == front + body[..len - n] && Shows(buffer[..], was, all, maxlen)
    {
      n := n - 1;
      OutBuffer(buf[n], buffer, r, maxlen, was, all);
      all := all + [buf[n]];
      r := r + 1;
    }
    assert body[..len] == body;
    if fl.left && len < width {
      r := OutRepeat(' ', width - len, buffer, r, maxlen, was, all);
      all := all + Repeat(' ', width - len);
    }
    assert all == out + Padded(body, width, fl);
  }

  /** Puts a character behind those in the number buffer, if there is room: in front of what it will show. */
  method Push(c: char, buf: array<char>, len: nat, ghost s: string) returns (n: nat)
    requires buf.Length == 32 && Backwards(buf[..], len, s)
    modifies buf
    ensures Backwards(buf[..], n, Front(c, s))
  {
    n := len;
    if len < 32 {
      buf[len] := c;
      n := len + 1;
    }
  }

  /** Pads the number buffer with zeros. */
  method PushZeros(buf: array<char>, len: nat, n: nat, ghost s: string) returns (r: nat)
    requires buf.Length == 32 && Backwards(buf[..], len, s)
    modifies buf
    ensures Backwards(buf[..], r, ZerosTo(s, Min(n, NTOA_SIZE)))
  {
    r := len;
    ghost var t := s;
    while r < n && r < 32
      invariant len <= r <= Max(len, Min(n, 32)) && t == ZerosTo(s, r) && Backwards(buf[..], r, t)
    {
      r := Push('0', buf, r, t);
      assert ['0'] + t == ZerosTo(s, |t| + 1);
      t := ['0'] + t;
    }
  }

  /** Replaces leading zeros by a base prefix. */
  method PushPrefix(buf: array<char>, len: nat, base: nat, prec: nat, width: nat, fl: Flags,
          ghost s: string) returns (n: nat)
    requires buf.Length == 32 && Backwards(buf[..], len, s) && fl.hash
    modifies buf
    ensures Backwards(buf[..], n, Prefixed(s, base, prec, width, fl))
  {
    n := len;
    if !fl.precision && n > 0 && (n == prec || n == width) {
      n := n - 1;
      if n > 0 && base == 16 { n := n - 1; }
    }
    ghost var t := MakeRoom(s, base, prec, width, fl);
    assert Backwards(buf[..], n, t);
    if base == 16 && !fl.uppercase && n < 32 {
      n := Push('x', buf, n, t);
    } else if base == 16 && fl.uppercase && n < 32 {
      n := Push('X', buf, n, t);
    } else if base == 2 && n < 32 {
      n := Push('b', buf, n, t);
    }
    ghost var u :=
      if base == 16 then Front(if fl.uppercase then 'X' else 'x', t) else if base == 2 then Front('b', t) else t;
    assert Backwards(buf[..], n, u);
    n := Push('0', buf, n, u);
  }

  /** Adds zeros, base prefix, sign and padding to the digits in the number buffer, and puts them out. */
  method NtoaFormat(buffer: array<char>, idx: nat, maxlen: nat, buf: array<char>, len: nat, negative: bool, base: nat,
          prec: nat, width: nat, fl: Flags, ghost was: seq<char>, ghost out: string, ghost digits: string)
    returns (r: nat)
    requires Shows(buffer[..], was, out, maxlen) && idx == |out| && buffer != buf
    requires buf.Length == 32 && Backwards(buf[..], len, digits)
    modifies buffer, buf
    ensures Shows(buffer[..], was, out + NumberField(digits, negative, base, prec, width, fl), maxlen)
    ensures r == idx + |NumberField(digits, negative, base, prec, width, fl)|
  {
    hide Shows, Backwards, ZerosTo, Prefixed, Padded;
    var n, w := len, width;
    ghost var s := digits;
    if !fl.left {
      if w > 0 && fl.zeropad && (negative || fl.plus || fl.space) { w := w - 1; }
      n := PushZeros(buf, n, prec, s);
      s := ZerosTo(s, Min(prec, NTOA_SIZE));
      if fl.zeropad {
        n := PushZeros(buf, n, w, s);
        s := ZerosTo(s, Min(w, NTOA_SIZE));
      } else {
        ZerosToNone(s);
      }
    }
    assert w == ZeroWidth(negative, width, fl) && s == Zeroed(digits, prec, w, fl);
    if fl.hash {
      n := PushPrefix(buf, n, base, prec, w, fl, s);
    }
    PrefixedNot(s, base, prec, w, fl);
    s := Prefixed(s, base, prec, w, fl);
    n := PushSign(buf, n, negative, fl, s);
    s := NumberBody(digits, negative, base, prec, w, fl);
    r := OutRev(buffer, idx, maxlen, buf, n, w, fl, was, out, s);
  }

  lemma ZerosToNone(s: string)
    ensures ZerosTo(s, 0) == s
  {
  }

  lemma PrefixedNot(s: string, base: nat, prec: nat, width: nat, fl: Flags)
    ensures !fl.hash ==> Prefixed(s, base, prec, width, fl) == s
  {
  }

  method PushSign(buf: array<char>, len: nat, negative: bool, fl: Flags, ghost s: string) returns (n: nat)
    requires buf.Length == 32 && Backwards(buf[..], len, s)
    modifies buf
    ensures Backwards(buf[..], n, if |s| < 32 then Sign(negative, fl) + s else s)
  {
    n := len;
    if len < 32 {
      if negative {
        n := Push('-', buf, n, s);
      } else if fl.plus {
        n := Push('+', buf, n, s);
      } else if fl.space {
        n := Push(' ', buf, n, s);
      } else {
        assert "" + s == s;
      }
    }
  }

  /** Converts a number and puts it out. */
  method Ntoa(buffer: array<char>, idx: nat, maxlen: nat, v: nat, negative: bool, base: nat, prec: nat, width: nat,
          flags: Flags, ghost was: seq<char>, ghost out: string) returns (r: nat)
    requires Shows(buffer[..], was, out, maxlen) && idx == |out| && 2 <= base <= 16
    modifies buffer
    ensures Shows(buffer[..], was, out + NumberText(v, negative, base, prec, width, flags), maxlen)
    ensures r == idx + |NumberText(v, negative, base, prec, width, flags)|
  {
    hide Shows, NumberField;
    var buf := new char[32];
    var fl, len := flags, 0;
    if v == 0 { fl := fl.(hash := false); }
    if !fl.precision || v != 0 {
      len := PushDigits(buf, v, base, fl.uppercase);
    }
    r := NtoaFormat(buffer, idx, maxlen, buf, len, negative, base, prec, width, fl, was, out,
        NumberDigits(v, base, fl));
  }

  /** Writes the low 32 digits of a number into the number buffer, least significant first. */
  method PushDigits(buf: array<char>, v: nat, base: nat, uppercase: bool) returns (len: nat)
    requires buf.Length == 32 && 2 <= base <= 16
    modifies buf
    ensures Backwards(buf[..], len, Digits(v, base, NTOA_SIZE, uppercase))
  {
    hide Digits, DigitChar, Backwards;
    len := 0;
    var value: nat := v;
    ghost var s := "";
    BackwardsNothing(buf[..]);
    ghost var all := Digits(v, base, 32, uppercase);
    assert all == all + s;
    while true
      invariant 0 <= len < 32 && |s| == len && Backwards(buf[..], len, s)
      invariant all == Digits(value, base, 32 - len, uppercase) + s
      decreases 32 - len
    {
      DigitMoves(value, base, 32 - len, uppercase, all, s);
      var digit := value % base;
      len := Push(DigitChar(digit, uppercase), buf, len, s);
      s := [DigitChar(digit, uppercase)] + s;
      BackwardsLength(buf[..], len, s);
      value := value / base;
      if value == 0 || len >= 32 { return; }
    }
  }

  lemma BackwardsNothing(b: seq<char>)
    ensures Backwards(b, 0, "")
  {
  }

  lemma BackwardsLength(b: seq<char>, len: nat, s: string)
    requires Backwards(b, len, s)
    ensures len == |s|
  {
  }

  // ---------------------------------------------------------------- reading directives

  method ReadFlags(format: string, at: nat) returns (fl: Flags, i: nat)
    requires at <= |format|
    ensures at <= i <= |format| && (fl, format[i..]) == TakeFlags(format[at..], NO_FLAGS)
  {
    fl, i := NO_FLAGS, at;
    while i < |format|
      invariant at <= i <= |format| && TakeFlags(format[at..], NO_FLAGS) == TakeFlags(format[i..], fl)
      decreases |format| - i
    {
      assert format[i..][1..] == format[i + 1..];
      match format[i] {
        case '0' => fl := fl.(zeropad := true);
        case '-' => fl := fl.(left := true);
        case '+' => fl := fl.(plus := true);
        case ' ' => fl := fl.(space := true);
        case '#' => fl := fl.(hash := true);
        case _ => return;
      }
      i := i + 1;
    }
  }

  method ReadNumber(format: string, at: nat) returns (n: nat, i: nat)
    requires at <= |format|
    ensures at <= i <= |format| && (n, format[i..]) == TakeNumber(format[at..], 0)
  {
    n, i := 0, at;
    while i < |format| && IsDigit(format[i])
      invariant at <= i <= |format| && TakeNumber(format[at..], 0) == TakeNumber(format[i..], n)
    {
      assert format[i..][1..] == format[i + 1..];
      n := NextDigit(n, format[i]);
      i := i + 1;
    }
  }

  /** Reads the width, from the format or from an argument. */
  method ReadWidth(format: string, at: nat, flags: Flags, args: seq<Arg>, next: nat)
    returns (fl: Flags, width: nat, i: nat, k: nat)
    requires at <= |format| && next <= |args| && TakeWidth(format[at..], flags, args[next..]).Some?
    ensures i <= |format| && k <= |args|
    ensures Head(fl, width, 0, format[i..], args[k..]) == TakeWidth(format[at..], flags, args[next..]).value
  {
    fl, width, i, k := flags, 0, at, next;
    if i < |format| && IsDigit(format[i]) {
      width, i := ReadNumber(format, i);
    } else if i < |format| && format[i] == '*' {
      assert args[next..][0] == args[next] && args[next..][1..] == args[next + 1..];
      var w := Signed(args[k].bits, 0x8000_0000);
      if w < 0 {
        fl := fl.(left := true);
        width := -w;
      } else {
        width := w;
      }
      i, k := i + 1, k + 1;
      assert format[at..][1..] == format[i..];
    }
  }

  /** Reads the precision. */
  method ReadPrecision(format: string, at: nat, flags: Flags, width: nat, args: seq<Arg>, next: nat)
    returns (fl: Flags, prec: nat, i: nat, k: nat)
    requires at <= |format| && next <= |args| && TakePrecision(Head(flags, width, 0, format[at..], args[next..])).Some?
    ensures i <= |format| && k <= |args|
    ensures var h := Head(flags, width, 0, format[at..], args[next..]);
            Head(fl, width, prec, format[i..], args[k..]) == TakePrecision(h).value
  {
    fl, prec, i, k := flags, 0, at, next;
    if i < |format| && format[i] == '.' {
      fl := fl.(precision := true);
      i := i + 1;
      assert format[at..][1..] == format[i..];
      if i < |format| && IsDigit(format[i]) {
        prec, i := ReadNumber(format, i);
      } else if i < |format| && format[i] == '*' {
        assert args[next..][0] == args[next] && args[next..][1..] == args[next + 1..];
        var p := Signed(args[k].bits, 0x8000_0000);
        prec := if p > 0 then p else 0;
        i, k := i + 1, k + 1;
        assert format[i - 1..][1..] == format[i..];
      }
    }
  }

  /** Reads the length field. */
  method ReadLength(format: string, at: nat, flags: Flags, ghost h: Head) returns (fl: Flags, i: nat)
    requires at <= |format| && h.flags == flags && h.rest == format[at..]
    ensures i <= |format| && TakeLength(h) == h.(flags := fl, rest := format[i..])
  {
    fl, i := flags, at;
    if i < |format| {
      assert h.rest[0] == format[at] && h.rest[1..] == format[at + 1..];
      if |h.rest| > 1 { assert h.rest[1] == format[at + 1] && h.rest[2..] == format[at + 2..]; }
      match format[i]
      case 'l' =>
        fl := fl.(longs := true);
        i := i + 1;
        if i < |format| && format[i] == 'l' { i := i + 1; }
      case 'h' =>
        fl := fl.(shorts := true);
        i := i + 1;
        if i < |format| && format[i] == 'h' {
          fl := fl.(chars := true);
          i := i + 1;
        }
      case 'j' =>
        fl := fl.(longs := true);
        i := i + 1;
      case 'z' =>
        fl := fl.(longs := true);
        i := i + 1;
      case _ =>
    }
  }

  /** Reads a directive up to its specifier. */
  method ReadHead(format: string, at: nat, args: seq<Arg>, next: nat)
    returns (fl: Flags, width: nat, prec: nat, i: nat, k: nat)
    requires at <= |format| && next <= |args| && TakeHead(format[at..], args[next..]).Some?
    ensures i <= |format| && k <= |args|
    ensures Head(fl, width, prec, format[i..], args[k..]) == TakeHead(format[at..], args[next..]).value
  {
    hide TakeFlags, TakeWidth, TakePrecision, TakeLength;
    fl, i := ReadFlags(format, at);
    fl, width, i, k := ReadWidth(format, i, fl, args, next);
    fl, prec, i, k := ReadPrecision(format, i, fl, width, args, k);
    fl, i := ReadLength(format, i, fl, Head(fl, width, prec, format[i..], args[k..]));
  }

  // ---------------------------------------------------------------- converting

  method StrnlenS(s: string, maxsize: nat) returns (n: nat)
    ensures n == Min(|s|, maxsize)
  {
    n := 0;
    while n < |s| && n < maxsize
      invariant n <= Min(|s|, maxsize)
    {
      n := n + 1;
    }
  }

  /** Puts a character out, justified. */
  method OutChar(buffer: array<char>, idx: nat, maxlen: nat, c: char, width: nat, left: bool, ghost h: Head,
          ghost was: seq<char>, ghost out: string)
    returns (r: nat)
    requires Shows(buffer[..], was, out, maxlen) && idx == |out| && h.width == width && h.flags.left == left
    modifies buffer
    ensures Shows(buffer[..], was, out + Justified([c], h), maxlen) && r == idx + |Justified([c], h)|
  {
    var pad := if width > 1 then width - 1 else 0;
    r := idx;
    ghost var all := out;
    if !left {
      r := OutRepeat(' ', pad, buffer, r, maxlen, was, all);
      all := all + Repeat(' ', pad);
    }
    OutBuffer(c, buffer, r, maxlen, was, all);
    all := all + [c];
    r := r + 1;
    if left {
      r := OutRepeat(' ', pad, buffer, r, maxlen, was, all);
      all := all + Repeat(' ', pad);
    }
    assert all == out + Justified([c], h);
  }

  /** Puts a string out, cut to the precision and justified. */
  lemma CutIs(s: string, h: Head)
    ensures CutTo(s, h) == s[..if h.flags.precision && h.prec < |s| then h.prec else |s|]
  {
  }

  lemma JustifiedIs(s: string, h: Head)
    ensures var pad := Repeat(' ', if |s| < h.width then h.width - |s| else 0);
            Justified(s, h) == if h.flags.left then s + pad else pad + s
  {
  }

  method OutText(buffer: array<char>, idx: nat, maxlen: nat, s: string, width: nat, prec: nat, fl: Flags, ghost h: Head,
                 ghost was: seq<char>, ghost out: string) returns (r: nat)
    requires Shows(buffer[..], was, out, maxlen) && idx == |out| && h.width == width && h.prec == prec && h.flags == fl
    requires |s| < 0x1_0000_0000 && (!fl.precision ==> prec == 0)
    modifies buffer
    ensures Shows(buffer[..], was, out + Justified(CutTo(s, h), h), maxlen) && r == idx + |Justified(CutTo(s, h), h)|
  {
    hide Shows, Justified, CutTo;
    CutIs(s, h);
    JustifiedIs(CutTo(s, h), h);
    var l := StrnlenS(s, if prec != 0 then prec else 0xffff_ffff_ffff_ffff);
    if fl.precision { l := if l < prec then l else prec; }
    assert l == |CutTo(s, h)|;
    var pad := if l < width then width - l else 0;
    r := idx;
    ghost var all := out;
    if !fl.left {
      r := OutRepeat(' ', pad, buffer, r, maxlen, was, all);
      all := all + Repeat(' ', pad);
    }
    var i, left := 0, prec;
    ghost var front := all;
    while i < |s| && (!fl.precision || left > 0)
      invariant 0 <= i <= |s| && (fl.precision ==> left == prec - i) && i <= |CutTo(s, h)|
      invariant all == front + s[..i] && r == |all| && Shows(buffer[..], was, all, maxlen)
    {
      if fl.precision { left := left - 1; }
      OutBuffer(s[i], buffer, r, maxlen, was, all);
      all := all + [s[i]];
      r := r + 1;
      i := i + 1;
    }
    assert s[..i] == CutTo(s, h);
    if fl.left {
      r := OutRepeat(' ', pad, buffer, r, maxlen, was, all);
      all := all + Repeat(' ', pad);
    }
    assert all == out + Justified(CutTo(s, h), h);
  }

  // ---------------------------------------------------------------- the interpreter

  /** Converts one directive, whose specifier is at position i, and puts it out. */
  method OutDirective(buffer: array<char>, idx: nat, maxlen: nat, format: string, i: nat, fl: Flags, width: nat,
          prec: nat, args: seq<Arg>, next: nat, ghost was: seq<char>, ghost out: string) returns (r: nat, k: nat)
    requires Shows(buffer[..], was, out, maxlen) && idx == |out| && i <= |format| && next <= |args| && Strings(args)
    requires Convert(Head(fl, width, prec, format[i..], args[next..])).Some? && (!fl.precision ==> prec == 0)
    modifies buffer
    ensures k <= |args|
    ensures var p := Convert(Head(fl, width, prec, format[i..], args[next..])).value;
            Shows(buffer[..], was, out + p.text, maxlen) && r == idx + |p.text| && args[k..] == p.args
  {
    hide Shows, NumberText, Justified, CutTo;
    ghost var h := Head(fl, width, prec, format[i..], args[next..]);
    if next < |args| { assert args[next..][0] == args[next] && args[next..][1..] == args[next + 1..]; }
    var conv := format[i];
    k := next;
    if conv in "diuxXob" {
      r := OutInteger(buffer, idx, maxlen, conv, args[k].bits, fl, width, prec, h, was, out);
      k := k + 1;
    } else if conv == 'c' {
      r := OutChar(buffer, idx, maxlen, CharOf(args[k].bits), width, fl.left, h, was, out);
      k := k + 1;
    } else if conv == 's' {
      r := OutText(buffer, idx, maxlen, args[k].text, width, prec, fl, h, was, out);
      k := k + 1;
    } else if conv == 'p' {
      var f := fl.(zeropad := true, uppercase := true);
      r := Ntoa(buffer, idx, maxlen, args[k].bits % U64, false, 16, prec, 16, f, was, out);
      k := k + 1;
    } else {
      OutBuffer(conv, buffer, idx, maxlen, was, out);
      r := idx + 1;
    }
  }

  /** Every string argument is shorter than 4 GiB. */
  predicate Strings(args: seq<Arg>) { forall a | a in args && a.Text? :: |a.text| < 0x1_0000_0000 }

  lemma BaseBounds(conv: char)
    ensures 2 <= Base(conv) <= 16
  {
  }

  lemma IntegerTextIs(conv: char, h: Head, bits: nat, fl: Flags)
    requires fl == NumberFlags(conv, h.flags)
    ensures IntegerText(conv, h, bits) ==
            if conv == 'i' || conv == 'd' then
              var v := SignedValue(bits, fl);
              NumberText(if v > 0 then v else 0 - v, v < 0, Base(conv), h.prec, h.width, fl)
            else NumberText(UnsignedValue(bits, fl), false, Base(conv), h.prec, h.width, fl)
  {
    hide NumberText, NumberFlags, SignedValue, UnsignedValue, Base;
  }

  method OutInteger(buffer: array<char>, idx: nat, maxlen: nat, conv: char, bits: nat, flags: Flags, width: nat,
          prec: nat, ghost h: Head, ghost was: seq<char>, ghost out: string) returns (r: nat)
    requires Shows(buffer[..], was, out, maxlen) && idx == |out| && conv in "diuxXob"
    requires h.flags == flags && h.width == width && h.prec == prec
    modifies buffer
    ensures Shows(buffer[..], was, out + IntegerText(conv, h, bits), maxlen) && r == idx + |IntegerText(conv, h, bits)|
  {
    hide Shows, NumberText, SignedValue, UnsignedValue, Base, IntegerText;
    BaseBounds(conv);
    var fl := flags;
    var base := Base(conv);
    if base == 10 { fl := fl.(hash := false); }
    if conv == 'X' { fl := fl.(uppercase := true); }
    if conv != 'i' && conv != 'd' { fl := fl.(plus := false, space := false); }
    if fl.precision { fl := fl.(zeropad := false); }
    assert fl == NumberFlags(conv, flags);
    IntegerTextIs(conv, h, bits, fl);
    if conv == 'i' || conv == 'd' {
      var value := SignedValue(bits, fl);
      r := Ntoa(buffer, idx, maxlen, if value > 0 then value else 0 - value, value < 0, base, prec, width, fl, was,
          out);
    } else {
      r := Ntoa(buffer, idx, maxlen, UnsignedValue(bits, fl), false, base, prec, width, fl, was, out);
    }
  }

  /** Prints a format into a buffer of maxlen characters. The count is that of the unbounded text, as an int,
      whatever maxlen is; the buffer holds the text as far as it goes, NUL, and what it held before. */
  method Vsnprintf(buffer: array<char>, maxlen: nat, format: string, args: seq<Arg>) returns (count: int)
    requires maxlen <= buffer.Length && maxlen < U64 && Strings(args) && Render(format, args).Some?
    modifies buffer
    ensures var text := Render(format, args).value;
            count == Signed(|text|, 0x8000_0000) && Terminated(buffer[..], old(buffer[..]), text, maxlen)
  {
    hide Shows, Terminated, Render, Signed;
    ghost var text, was := Render(format, args).value, buffer[..];
    var idx, i, k := 0, 0, 0;
    ghost var out := "";
    ShowsNothing(buffer[..], maxlen);
    assert format[0..] == format && args[0..] == args && out + text == text;
    while i < |format|
      invariant i <= |format| && k <= |args| && idx == |out| && Shows(buffer[..], was, out, maxlen)
      invariant Render(format[i..], args[k..]).Some? && text == out + Render(format[i..], args[k..]).value
      decreases |format| - i
    {
      ghost var piece;
      idx, i, k, piece := OutStep(buffer, idx, maxlen, format, i, args, k, was, out);
      assert out + piece + Render(format[i..], args[k..]).value == out + (piece + Render(format[i..], args[k..]).value);
      out := out + piece;
    }
    RenderEmpty(args[k..]);
    assert format[i..] == "" && out == text;
    Terminate(buffer, idx, maxlen, was, text);
    count := Signed(idx, 0x8000_0000);
  }

  lemma RenderEmpty(args: seq<Arg>)
    ensures Render("", args) == Some("")
  {
  }

  /** Puts one plain character, or one directive, out. */
  method OutStep(buffer: array<char>, idx: nat, maxlen: nat, format: string, at: nat, args: seq<Arg>, next: nat,
                 ghost was: seq<char>, ghost out: string) returns (r: nat, i: nat, k: nat, ghost piece: string)
    requires Shows(buffer[..], was, out, maxlen) && idx == |out| && at < |format| && next <= |args| && Strings(args)
    requires Render(format[at..], args[next..]).Some?
    modifies buffer
    ensures Shows(buffer[..], was, out + piece, maxlen) && r == |out + piece| && at < i <= |format| && k <= |args|
    ensures Render(format[i..], args[k..]).Some?
    ensures Render(format[at..], args[next..]).value == piece + Render(format[i..], args[k..]).value
  {
    hide Shows, Render, TakeHead, Convert, Strings;
    i, k := at, next;
    RenderStep(format[at..], args[next..]);
    assert format[at..][1..] == format[at + 1..];
    if format[i] != '%' {
      piece := [format[i]];
      OutBuffer(format[i], buffer, idx, maxlen, was, out);
      r, i := idx + 1, i + 1;
    } else {
      ghost var h := TakeHead(format[at + 1..], args[next..]).value;
      var fl, width, prec;
      fl, width, prec, i, k := ReadHead(format, at + 1, args, next);
      piece := Convert(h).value.text;
      r, k := OutDirective(buffer, idx, maxlen, format, i, fl, width, prec, args, k, was, out);
      assert h.rest[1..] == format[i + 1..];
      i := i + 1;
    }
  }

  /** Writes the final NUL, cutting the text if it does not fit. */
  method Terminate(buffer: array<char>, idx: nat, maxlen: nat, ghost was: seq<char>, ghost text: string)
    requires Shows(buffer[..], was, text, maxlen) && idx == |text| && maxlen < U64
    modifies buffer
    ensures Terminated(buffer[..], was, text, maxlen)
  {
    var at := if idx < maxlen then idx else (maxlen + 0xffff_ffff_ffff_ffff) % U64;
    if at < maxlen { buffer[at] := NUL; }
  }

  /** The text as far as maxlen lets it, then NUL, then what was there before. */
  ghost predicate Terminated(b: seq<char>, was: seq<char>, text: string, maxlen: nat) {
    |b| == |was| && maxlen <= |b| &&
    (maxlen == 0 ==> b == was) &&
    (maxlen > 0 ==>
       var n := Min(|text|, maxlen - 1);
       b[..n] == text[..n] && b[n] == NUL && b[n + 1..] == was[n + 1..])
  }
}
