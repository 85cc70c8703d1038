/** The Mersenne Twister: a circular buffer of 624 words against the unbounded recurrence it computes. */
module Random {

  const UMASK: bv32 := 0x8000_0000
  const LMASK: bv32 := 0x7fff_ffff

  // ---------------------------------------------------------------- the recurrence

  /** Next word of the seeding sequence. */
  function SeedStep(x: bv32, i: nat): bv32
    requires i < 624
  {
    1812433253 * (x ^ (x >> 30)) + i as bv32
  }

  /** The word that follows from those 624, 623 and 227 places before it. */
  function Twist(far: bv32, next: bv32, mid: bv32): bv32 {
    var x := (far & UMASK) | (next & LMASK);
    mid ^ (x >> 1) ^ if x & 1 != 0 then 0x9908_b0df else 0
  }

  /** Term i of the sequence. */
  function Term(seed: bv32, i: nat): bv32 {
    if i == 0 then seed
    else if i < 624 then SeedStep(Term(seed, i - 1), i)
    else Twist(Term(seed, i - 624), Term(seed, i - 623), Term(seed, i - 227))
  }

  // ---------------------------------------------------------------- tempering

  function Mix11(x: bv32): bv32 { x ^ (x >> 11) }

  function Mix7(x: bv32): bv32 { x ^ ((x << 7) & 0x9d2c_5680) }

  function Mix15(x: bv32): bv32 { x ^ ((x << 15) & 0xefc6_0000) }

  function Mix18(x: bv32): bv32 { x ^ (x >> 18) }

  function Temper(x: bv32): bv32 { Mix18(Mix15(Mix7(Mix11(x)))) }

  function Unmix11(y: bv32): bv32 { y ^ (y >> 11) ^ (y >> 22) }

  /** Undoes Mix7, seven more bits with each step. */
  function Unmix7(y: bv32): bv32 {
    var a := y ^ ((y << 7) & 0x9d2c_5680);
    var b := y ^ ((a << 7) & 0x9d2c_5680);
    var c := y ^ ((b << 7) & 0x9d2c_5680);
    y ^ ((c << 7) & 0x9d2c_5680)
  }

  function Untemper(w: bv32): bv32 { Unmix11(Unmix7(Mix15(Mix18(w)))) }

  lemma Bits11(x: bv32)
    ensures Unmix11(x ^ (x >> 11)) == x && Mix11(x ^ (x >> 11) ^ (x >> 22)) == x
  {
  }

  lemma Mix11Inverse(x: bv32)
    ensures Unmix11(Mix11(x)) == x && Mix11(Unmix11(x)) == x
  {
    assert Mix11(x) == x ^ (x >> 11) && Unmix11(x) == x ^ (x >> 11) ^ (x >> 22);
    hide Mix11, Unmix11;
    Bits11(x);
  }

  lemma Bits7(x: bv32)
    ensures Unmix7(x ^ ((x << 7) & 0x9d2c_5680)) == x
    ensures var a := x ^ ((x << 7) & 0x9d2c_5680);
            var b := x ^ ((a << 7) & 0x9d2c_5680);
            var c := x ^ ((b << 7) & 0x9d2c_5680);
            Mix7(x ^ ((c << 7) & 0x9d2c_5680)) == x
  {
  }

  lemma Words7(x: bv32)
    ensures Mix7(x) == x ^ ((x << 7) & 0x9d2c_5680)
    ensures var a := x ^ ((x << 7) & 0x9d2c_5680);
            var b := x ^ ((a << 7) & 0x9d2c_5680);
            var c := x ^ ((b << 7) & 0x9d2c_5680);
            Unmix7(x) == x ^ ((c << 7) & 0x9d2c_5680)
  {
  }

  lemma Mix7Inverse(x: bv32)
    ensures Unmix7(Mix7(x)) == x && Mix7(Unmix7(x)) == x
  {
    hide Mix7, Unmix7;
    Words7(x);
    Bits7(x);
  }

  lemma Bits15(x: bv32)
    ensures Mix15(x ^ ((x << 15) & 0xefc6_0000)) == x
  {
  }

  lemma Mix15Inverse(x: bv32)
    ensures Mix15(Mix15(x)) == x
  {
    assert Mix15(x) == x ^ ((x << 15) & 0xefc6_0000);
    hide Mix15;
    Bits15(x);
  }

  lemma Bits18(x: bv32)
    ensures Mix18(x ^ (x >> 18)) == x
  {
  }

  lemma Mix18Inverse(x: bv32)
    ensures Mix18(Mix18(x)) == x
  {
    assert Mix18(x) == x ^ (x >> 18);
    hide Mix18;
    Bits18(x);
  }

  /** Tempering is a bijection on 32-bit words. */
  lemma TemperBijective(x: bv32)
    ensures Untemper(Temper(x)) == x && Temper(Untemper(x)) == x
  {
    hide Mix11, Mix7, Mix15, Mix18, Unmix11, Unmix7;
    Mix11Inverse(x);
    Mix7Inverse(Mix11(x));
    Mix15Inverse(Mix7(Mix11(x)));
    Mix18Inverse(Mix15(Mix7(Mix11(x))));
    Mix18Inverse(x);
    Mix15Inverse(Mix18(x));
    Mix7Inverse(Mix15(Mix18(x)));
    Mix11Inverse(Unmix7(Mix15(Mix18(x))));
  }

  // ---------------------------------------------------------------- the generator

  /** Place p of the buffer holds the newest term whose index is p modulo 624, of those before term t + 624. */
  ghost predicate Holds(state: seq<bv32>, seed: bv32, t: nat) {
    |state| == 624 && forall i {:trigger Term(seed, i)} | t <= i < t + 624 :: state[i % 624] == Term(seed, i)
  }

  lemma SeedTerms(seed: bv32)
    ensures Term(seed, 0) == seed
    ensures forall i | 1 <= i < 624 :: Term(seed, i) == SeedStep(Term(seed, i - 1), i)
  {
    hide SeedStep, Twist;
  }

  /** The three words read from the buffer make the next term. */
  lemma TwistTerm(state: seq<bv32>, seed: bv32, t: nat)
    requires Holds(state, seed, t)
    ensures Term(seed, t + 624) == Twist(state[t % 624], state[(t + 1) % 624], state[(t + 397) % 624])
  {
    hide SeedStep, Twist;
  }

  /** The circular indices of the code. */
  lemma Circular(t: nat)
    ensures var k := t % 624;
            (t + 1) % 624 == (if k - 623 < 0 then k + 1 else k - 623) &&
            (t + 397) % 624 == (if k - 227 < 0 then k + 397 else k - 227) &&
            (t + 1) % 624 == if k + 1 >= 624 then 0 else k + 1
  {
    var q, k := t / 624, t % 624;
    Remainder(t + 1, if k < 623 then q else q + 1, if k < 623 then k + 1 else k - 623);
    Remainder(t + 397, if k < 227 then q else q + 1, if k < 227 then k + 397 else k - 227);
  }

  lemma Remainder(t: nat, q: nat, r: nat)
    requires t == 624 * q + r && r < 624
    ensures t % 624 == r
  {
  }

  /** The oldest term is overwritten by the newest. */
  lemma HoldsNext(state: seq<bv32>, state2: seq<bv32>, seed: bv32, t: nat)
    requires Holds(state, seed, t) && state2 == state[t % 624 := Term(seed, t + 624)]
    ensures Holds(state2, seed, t + 1)
  {
    hide Term;
    assert (t + 624) % 624 == t % 624;
  }

  // ---------------------------------------------------------------- what the outputs determine

  function Output(seed: bv32, t: nat): bv32 { Temper(Term(seed, 624 + t)) }

  /** Any 624 outputs in a row determine every later output. */
  lemma {:induction false} OutputsDetermineRest(a: bv32, b: bv32, s: nat, t: nat)
    requires (forall i | s <= i < s + 624 :: Output(a, i) == Output(b, i)) && t >= s
    ensures Term(a, 624 + t) == Term(b, 624 + t) && Output(a, t) == Output(b, t)
    decreases t
  {
    if t < s + 624 {
      hide *;
      SameTerm(a, b, t);
    } else {
      OutputsDetermineRest(a, b, s, t - 624);
      OutputsDetermineRest(a, b, s, t - 623);
      OutputsDetermineRest(a, b, s, t - 227);
      hide SeedStep, Twist, Temper;
    }
  }

  lemma SameTerm(a: bv32, b: bv32, t: nat)
    requires Output(a, t) == Output(b, t)
    ensures Term(a, 624 + t) == Term(b, 624 + t)
  {
    hide Term, Temper, Untemper;
    TemperBijective(Term(a, 624 + t));
    TemperBijective(Term(b, 624 + t));
  }

  class MersenneTwister {
    const stateArray: array<bv32>
    var stateIndex: int
    ghost var seed: bv32
    ghost var calls: nat

    constructor ()
      ensures stateArray.Length == 624 && fresh(stateArray)
    {
      stateArray := new bv32[624];
      stateIndex, seed, calls := 0, 0, 0;
    }

    /** The buffer is the last 624 terms, and the index is where the oldest of them is. */
    ghost predicate Valid()
      reads this, stateArray
    {
      stateArray.Length == 624 && Holds(stateArray[..], seed, calls) && stateIndex == calls % 624
    }

    method SetupRandom(s: bv32)
      requires stateArray.Length == 624
      modifies this, stateArray
      ensures Valid() && seed == s && calls == 0
    {
      hide SeedStep, Twist, Term;
      SeedTerms(s);
      var x := s;
      stateArray[0] := s;
      for i := 1 to 624
        invariant x == Term(s, i - 1) && forall k | 0 <= k < i :: stateArray[k] == Term(s, k)
      {
        x := SeedStep(x, i);
        stateArray[i] := x;
      }
      stateIndex, seed, calls := 0, s, 0;
    }

    /** Call number t returns the tempering of term 624 + t, and the index stays inside the buffer. */
    method RandomUint32() returns (z: bv32)
      requires Valid()
      modifies this, stateArray
      ensures Valid() && seed == old(seed) && calls == old(calls) + 1
      ensures z == Temper(Term(seed, 624 + old(calls)))
      ensures 0 <= stateIndex < 624
    {
      hide SeedStep, Twist, Term, Temper, Holds;
      ghost var t, was := calls, stateArray[..];
      var k := stateIndex;
      var j := k - 623;
      if j < 0 { j := j + 624; }
      var j2 := k - 227;
      if j2 < 0 { j2 := j2 + 624; }
      Circular(t);
      var x := Twist(stateArray[k], stateArray[j], stateArray[j2]);
      TwistTerm(was, seed, t);
      stateArray[k] := x;
      HoldsNext(was, stateArray[..], seed, t);
      k := k + 1;
      if k >= 624 { k := 0; }
      stateIndex := k;
      calls := t + 1;
      z := Temper(x);
    }
  }
}
