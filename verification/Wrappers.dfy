/** A value that may be absent: the C code's NULL results. */
module Wrappers {
  /** 2 to the 64th, where size_t and pointers wrap around. */
  const U64: nat := 0x1_0000_0000_0000_0000

  datatype Option<+T> = None | Some(value: T)

  lemma FitsWord(x: nat)
    requires x < U64
    ensures x % U64 == x
  {
  }

  /** Whole wrap-arounds do not matter. */
  lemma AddWords(x: int, k: int)
    ensures (x + k * U64) % U64 == x % U64
  {
    var q, r := x / 0x1_0000_0000_0000_0000, x % 0x1_0000_0000_0000_0000;
    assert x + k * 0x1_0000_0000_0000_0000 == (q + k) * 0x1_0000_0000_0000_0000 + r;
  }

  /** Wrapping around early does not matter. */
  lemma AddWrapped(a: int, b: int)
    ensures (a % U64 + b) % U64 == (a + b) % U64
  {
    AddWords(a % U64 + b, a / U64);
  }

  function Pow(base: nat, n: nat): nat { if n == 0 then 1 else base * Pow(base, n - 1) }

  lemma {:induction false} PowPositive(base: nat, n: nat)
    requires base > 0
    ensures Pow(base, n) > 0
  {
    if n > 0 { PowPositive(base, n - 1); }
  }
}
