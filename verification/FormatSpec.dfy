/** What a format string prints: its directives, one after the other. */
module FormatSpec {
  import opened Wrappers
  import opened PrintfSpec

  const NO_FLAGS := Flags(false, false, false, false, false, false, false, false, false, false)

  predicate IsDigit(c: char) { '0' <= c <= '9' }

  /** A directive read up to its specifier: what is left of the format starts with it. */
  datatype Head = Head(flags: Flags, width: nat, prec: nat, rest: string, args: seq<Arg>)

  /** The text of one directive, and the arguments it leaves. */
  datatype Printed = Printed(text: string, args: seq<Arg>)

  // ---------------------------------------------------------------- reading a directive

  function TakeFlags(f: string, fl: Flags): (r: (Flags, string))
    ensures |r.1| <= |f|
  {
    if f == "" then (fl, f)
    else match f[0]
      case '0' => TakeFlags(f[1..], fl.(zeropad := true))
      case '-' => TakeFlags(f[1..], fl.(left := true))
      case '+' => TakeFlags(f[1..], fl.(plus := true))
      case ' ' => TakeFlags(f[1..], fl.(space := true))
      case '#' => TakeFlags(f[1..], fl.(hash := true))
      case _ => (fl, f)
  }

  /** One more decimal digit, on 32-bit words. */
  function NextDigit(n: nat, c: char): nat
    requires IsDigit(c)
  {
    (n * 10 + (c as int - '0' as int)) % 0x1_0000_0000
  }

  function TakeNumber(f: string, n: nat): (r: (nat, string))
    ensures |r.1| <= |f|
  {
    if f == "" || !IsDigit(f[0]) then (n, f) else TakeNumber(f[1..], NextDigit(n, f[0]))
  }

  /** The low bits of a slot as a signed number; half is 2 to the width minus 1. */
  function Signed(bits: nat, half: nat): int
    requires half > 0
  {
    var x := bits % (2 * half);
    if x < half then x else x - 2 * half
  }

  /** Reads an int argument. */
  predicate HasWord(args: seq<Arg>) { args != [] && args[0].Word? }

  function TakeWidth(f: string, fl: Flags, args: seq<Arg>): (r: Option<Head>)
    ensures r.Some? ==> |r.value.rest| <= |f| && r.value.prec == 0
  {
    if f != "" && IsDigit(f[0]) then
      var n := TakeNumber(f, 0);
      Some(Head(fl, n.0, 0, n.1, args))
    else if f != "" && f[0] == '*' then
      if !HasWord(args) then None
      else
        var w := Signed(args[0].bits, 0x8000_0000);
        Some(if w < 0 then Head(fl.(left := true), -w, 0, f[1..], args[1..]) else Head(fl, w, 0, f[1..], args[1..]))
    else Some(Head(fl, 0, 0, f, args))
  }

  function TakePrecision(h: Head): (r: Option<Head>)
    ensures r.Some? ==> |r.value.rest| <= |h.rest|
    ensures r.Some? && h.prec == 0 && !r.value.flags.precision ==> r.value.prec == 0
  {
    if h.rest == "" || h.rest[0] != '.' then Some(h)
    else
      var fl, f := h.flags.(precision := true), h.rest[1..];
      if f != "" && IsDigit(f[0]) then
        var n := TakeNumber(f, 0);
        Some(Head(fl, h.width, n.0, n.1, h.args))
      else if f != "" && f[0] == '*' then
        if !HasWord(h.args) then None
        else
          var p := Signed(h.args[0].bits, 0x8000_0000);
          Some(Head(fl, h.width, if p > 0 then p else 0, f[1..], h.args[1..]))
      else Some(Head(fl, h.width, 0, f, h.args))
  }

  function LengthFlags(c: char, twice: bool, fl: Flags): Flags {
    match c
    case 'l' => fl.(longs := true)
    case 'h' => if twice then fl.(shorts := true, chars := true) else fl.(shorts := true)
    case 'j' => fl.(longs := true)
    case 'z' => fl.(longs := true)
    case _ => fl
  }

  function TakeLength(h: Head): (r: Head)
    ensures |r.rest| <= |h.rest| && r.prec == h.prec && r.flags.precision == h.flags.precision
  {
    if h.rest == "" then h
    else h.(flags := LengthFlags(h.rest[0], Twice(h.rest), h.flags), rest := LengthTail(h.rest))
  }

  /** The length letter is doubled. */
  predicate Twice(f: string) { |f| > 1 && (f[0] == 'l' || f[0] == 'h') && f[1] == f[0] }

  function LengthTail(f: string): (r: string)
    requires f != ""
    ensures |r| <= |f|
  {
    if Twice(f) then f[2..] else if f[0] == 'l' || f[0] == 'h' || f[0] == 'j' || f[0] == 'z' then f[1..] else f
  }

  /** A directive, from behind its percent sign up to its specifier. */
  function TakeHead(f: string, args: seq<Arg>): (r: Option<Head>)
    ensures r.Some? ==> |r.value.rest| <= |f| && (!r.value.flags.precision ==> r.value.prec == 0)
  {
    var fl := TakeFlags(f, NO_FLAGS);
    match TakeWidth(fl.1, fl.0, args)
    case None => None
    case Some(h) =>
      match TakePrecision(h)
      case None => None
      case Some(k) => Some(TakeLength(k))
  }

  // ---------------------------------------------------------------- converting

  function Base(conv: char): nat {
    if conv == 'x' || conv == 'X' then 16 else if conv == 'o' then 8 else if conv == 'b' then 2 else 10
  }

  /** The flags that matter for a number. */
  function NumberFlags(conv: char, fl: Flags): Flags {
    var signed := conv == 'i' || conv == 'd';
    fl.(hash := fl.hash && Base(conv) != 10, uppercase := fl.uppercase || conv == 'X', plus := fl.plus && signed,
        space := fl.space && signed, zeropad := fl.zeropad && !fl.precision)
  }

  function SignedValue(bits: nat, fl: Flags): int {
    if fl.longs then Signed(bits, 0x8000_0000_0000_0000)
    else if fl.chars then Signed(bits, 0x80)
    else if fl.shorts then Signed(bits, 0x8000)
    else Signed(bits, 0x8000_0000)
  }

  function UnsignedValue(bits: nat, fl: Flags): nat {
    if fl.longs then bits % U64
    else if fl.chars then bits % 0x100
    else if fl.shorts then bits % 0x1_0000
    else bits % 0x1_0000_0000
  }

  function Abs(v: int): nat { if v < 0 then -v else v }

  function IntegerText(conv: char, h: Head, bits: nat): string {
    var fl := NumberFlags(conv, h.flags);
    if conv == 'i' || conv == 'd' then
      var v := SignedValue(bits, fl);
      NumberText(Abs(v), v < 0, Base(conv), h.prec, h.width, fl)
    else NumberText(UnsignedValue(bits, fl), false, Base(conv), h.prec, h.width, fl)
  }

  function Justified(s: string, h: Head): string { if h.flags.left then PadRight(s, h.width) else PadLeft(s, h.width) }

  function CharOf(bits: nat): char { (bits % 0x100) as char }

  function CutTo(s: string, h: Head): string { if h.flags.precision && h.prec < |s| then s[..h.prec] else s }

  function PointerFlags(fl: Flags): Flags { fl.(zeropad := true, uppercase := true) }

  /** What a directive prints; None stands for arguments that do not fit, or a format that breaks off. */
  function Convert(h: Head): (r: Option<Printed>)
    ensures h.rest == "" ==> r == None
  {
    if h.rest == "" then None
    else
      var conv := h.rest[0];
      if conv in "diuxXob" then
        if !HasWord(h.args) then None else Some(Printed(IntegerText(conv, h, h.args[0].bits), h.args[1..]))
      else if conv == 'c' then
        if !HasWord(h.args) then None else Some(Printed(Justified([CharOf(h.args[0].bits)], h), h.args[1..]))
      else if conv == 's' then
        if h.args == [] || h.args[0].Word? then None
        else Some(Printed(Justified(CutTo(h.args[0].text, h), h), h.args[1..]))
      else if conv == 'p' then
        if !HasWord(h.args) then None
        else
          var address := h.args[0].bits % U64;
          Some(Printed(NumberText(address, false, 16, h.prec, 16, PointerFlags(h.flags)), h.args[1..]))
      else Some(Printed([conv], h.args))
  }

  // ---------------------------------------------------------------- whole formats

  /** What a format prints; None if its arguments do not fit or its last directive is incomplete. */
  function Render(f: string, args: seq<Arg>): Option<string>
    decreases |f|
  {
    if f == "" then Some("")
    else if f[0] != '%' then
      match Render(f[1..], args)
      case None => None
      case Some(s) => Some([f[0]] + s)
    else match TakeHead(f[1..], args)
      case None => None
      case Some(h) =>
        match Convert(h)
        case None => None
        case Some(p) =>
          match Render(h.rest[1..], p.args)
          case None => None
          case Some(s) => Some(p.text + s)
  }

  /** One plain character, or one directive, at the front of a format. */
  lemma RenderStep(f: string, args: seq<Arg>)
    requires f != "" && Render(f, args).Some?
    ensures f[0] != '%' ==> Render(f[1..], args).Some? && Render(f, args).value == [f[0]] + Render(f[1..], args).value
    ensures f[0] == '%' ==>
              TakeHead(f[1..], args).Some? && var h := TakeHead(f[1..], args).value;
              Convert(h).Some? && var p := Convert(h).value;
              Render(h.rest[1..], p.args).Some? && Render(f, args).value == p.text + Render(h.rest[1..], p.args).value
  {
    hide TakeHead, Convert;
  }

  // ---------------------------------------------------------------- formats one after the other

  /** The arguments that a format leaves. */
  function Remaining(f: string, args: seq<Arg>): seq<Arg>
    decreases |f|
  {
    if f == "" then args
    else if f[0] != '%' then Remaining(f[1..], args)
    else match TakeHead(f[1..], args)
      case None => args
      case Some(h) =>
        match Convert(h)
        case None => args
        case Some(p) => Remaining(h.rest[1..], p.args)
  }

  lemma {:induction false} FlagsBefore(f: string, g: string, fl: Flags)
    requires TakeFlags(f, fl).1 != ""
    ensures TakeFlags(f + g, fl) == (TakeFlags(f, fl).0, TakeFlags(f, fl).1 + g)
  {
    assert (f + g)[1..] == f[1..] + g;
    match f[0]
    case '0' => FlagsBefore(f[1..], g, fl.(zeropad := true));
    case '-' => FlagsBefore(f[1..], g, fl.(left := true));
    case '+' => FlagsBefore(f[1..], g, fl.(plus := true));
    case ' ' => FlagsBefore(f[1..], g, fl.(space := true));
    case '#' => FlagsBefore(f[1..], g, fl.(hash := true));
    case _ =>
  }

  lemma {:induction false} NumberBefore(f: string, g: string, n: nat)
    requires TakeNumber(f, n).1 != ""
    ensures TakeNumber(f + g, n) == (TakeNumber(f, n).0, TakeNumber(f, n).1 + g)
  {
    assert (f + g)[1..] == f[1..] + g;
    if IsDigit(f[0]) { NumberBefore(f[1..], g, NextDigit(n, f[0])); }
  }

  /** A head with more format behind it. */
  function Longer(h: Head, g: string): Head { h.(rest := h.rest + g) }

  lemma WidthBefore(f: string, g: string, fl: Flags, args: seq<Arg>)
    requires TakeWidth(f, fl, args).Some? && TakeWidth(f, fl, args).value.rest != ""
    ensures TakeWidth(f + g, fl, args) == Some(Longer(TakeWidth(f, fl, args).value, g))
  {
    assert f != "" && (f + g)[1..] == f[1..] + g;
    if IsDigit(f[0]) { NumberBefore(f, g, 0); }
  }

  lemma PrecisionBefore(h: Head, g: string)
    requires TakePrecision(h).Some? && TakePrecision(h).value.rest != ""
    ensures TakePrecision(Longer(h, g)) == Some(Longer(TakePrecision(h).value, g))
  {
    assert h.rest != "" && (h.rest + g)[1..] == h.rest[1..] + g;
    if h.rest[0] == '.' {
      var f := h.rest[1..];
      assert f != "" ==> (f + g)[1..] == f[1..] + g;
      if f != "" && IsDigit(f[0]) { NumberBefore(f, g, 0); }
    }
  }

  lemma LengthBefore(h: Head, g: string)
    requires TakeLength(h).rest != ""
    ensures TakeLength(Longer(h, g)) == Longer(TakeLength(h), g)
  {
    hide LengthFlags, LengthTail, Twice;
    TailBefore(h.rest, g);
    assert (h.rest + g)[0] == h.rest[0];
  }

  lemma TailBefore(f: string, g: string)
    requires f != "" && LengthTail(f) != ""
    ensures Twice(f + g) == Twice(f) && LengthTail(f + g) == LengthTail(f) + g
  {
    assert (f + g)[0] == f[0] && (f + g)[1..] == f[1..] + g;
    if |f| > 1 { assert (f + g)[1] == f[1] && (f + g)[2..] == f[2..] + g; }
  }

  /** A complete directive does not look past its specifier. */
  lemma HeadBefore(f: string, g: string, args: seq<Arg>)
    requires TakeHead(f, args).Some? && TakeHead(f, args).value.rest != ""
    ensures TakeHead(f + g, args) == Some(Longer(TakeHead(f, args).value, g))
  {
    hide TakeFlags, TakeWidth, TakePrecision, TakeLength;
    var fl := TakeFlags(f, NO_FLAGS);
    FlagsBefore(f, g, NO_FLAGS);
    var h := TakeWidth(fl.1, fl.0, args).value;
    WidthBefore(fl.1, g, fl.0, args);
    PrecisionBefore(h, g);
    LengthBefore(TakePrecision(h).value, g);
  }

  lemma ConvertBefore(h: Head, g: string)
    requires h.rest != ""
    ensures Convert(Longer(h, g)) == Convert(h)
  {
    hide NumberText;
    assert (h.rest + g)[0] == h.rest[0];
  }

  lemma Grouped(a: string, b: string, c: string)
    ensures a + b + c == a + (b + c)
  {
  }

  /** A complete format prints the same whatever follows it, and what follows prints with the arguments it leaves. */
  lemma {:induction false} FormatsCompose(f: string, g: string, args: seq<Arg>)
    requires Render(f, args).Some?
    ensures Render(f + g, args) ==
            match Render(g, Remaining(f, args))
            case None => None
            case Some(s) => Some(Render(f, args).value + s)
    decreases |f|
  {
    hide TakeHead, Convert;
    if f == "" {
      assert f + g == g;
      if Render(g, args).Some? { assert "" + Render(g, args).value == Render(g, args).value; }
    } else if f[0] != '%' {
      assert (f + g)[1..] == f[1..] + g;
      FormatsCompose(f[1..], g, args);
      if Render(g, Remaining(f, args)).Some? {
        Grouped([f[0]], Render(f[1..], args).value, Render(g, Remaining(f, args)).value);
      }
    } else {
      assert (f + g)[1..] == f[1..] + g;
      var h := TakeHead(f[1..], args).value;
      HeadBefore(f[1..], g, args);
      ConvertBefore(h, g);
      assert (h.rest + g)[1..] == h.rest[1..] + g;
      var p := Convert(h).value;
      FormatsCompose(h.rest[1..], g, p.args);
      if Render(g, Remaining(f, args)).Some? {
        Grouped(p.text, Render(h.rest[1..], p.args).value, Render(g, Remaining(f, args)).value);
      }
    }
  }
}
