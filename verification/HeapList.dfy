/** The heap in memory: block headers and the free list threaded through the bytes of the heap itself. */
module HeapList {
  import opened Wrappers
  import opened HeapBlocks

  type Byte = b: int | 0 <= b < 256

  // ---------------------------------------------------------------- 64-bit words in bytes

  /** The n low bytes of w, least significant first. */
  function Encode(w: nat, n: nat): (s: seq<Byte>)
    ensures |s| == n
  {
    if n == 0 then [] else [w % 256] + Encode(w / 256, n - 1)
  }

  function Decode(s: seq<Byte>): nat {
    if s == [] then 0 else s[0] + 256 * Decode(s[1..])
  }

  lemma {:induction false} DecodeEncode(w: nat, n: nat)
    requires w < Pow(256, n)
    ensures Decode(Encode(w, n)) == w
  {
    if n > 0 {
      assert Encode(w, n)[1..] == Encode(w / 256, n - 1);
      DecodeEncode(w / 256, n - 1);
    }
  }

  lemma EncodeStep(w: nat, n: nat)
    requires n > 0
    ensures Encode(w, n)[0] == w % 256 && Encode(w, n)[1..] == Encode(w / 256, n - 1)
  {
  }

  /** The 64-bit word at offset o. */
  function Word(m: seq<Byte>, o: nat): nat
    requires o + 8 <= |m|
  {
    Decode(m[o..o + 8])
  }

  lemma {:induction false} DecodeBound(s: seq<Byte>)
    ensures Decode(s) < Pow(256, |s|)
  {
    if s != [] { DecodeBound(s[1..]); }
  }

  lemma WordPow()
    ensures Pow(256, 8) == U64
  {
    assert Pow(256, 4) == 0x1_0000_0000;
  }

  lemma WordBound(m: seq<Byte>, o: nat)
    requires o + 8 <= |m|
    ensures Word(m, o) < U64
  {
    WordPow();
    DecodeBound(m[o..o + 8]);
  }

  /** m2 is m with the word at offset o set to w. */
  ghost predicate WordWritten(m: seq<Byte>, m2: seq<Byte>, o: nat, w: nat) {
    && |m2| == |m| && o + 8 <= |m| && Word(m2, o) == w
    && forall x | 0 <= x < |m| && !(o <= x < o + 8) :: m2[x] == m[x]
  }

  lemma WriteBytes(m: seq<Byte>, m2: seq<Byte>, o: nat, w: nat)
    requires |m2| == |m| && o + 8 <= |m| && w < U64
    requires m2[o..o + 8] == Encode(w, 8) && forall x | 0 <= x < |m| && !(o <= x < o + 8) :: m2[x] == m[x]
    ensures WordWritten(m, m2, o, w)
  {
    WordPow();
    DecodeEncode(w, 8);
  }

  /** Memory outside [o, o + n) is the same. */
  ghost predicate SameOutside(m: seq<Byte>, m2: seq<Byte>, o: nat, n: nat) {
    |m2| == |m| && forall x | 0 <= x < |m| && !(o <= x < o + n) :: m2[x] == m[x]
  }

  lemma WordUntouched(m: seq<Byte>, m2: seq<Byte>, o: nat, n: nat, p: nat)
    requires SameOutside(m, m2, o, n) && p + 8 <= |m| && (p + 8 <= o || o + n <= p)
    ensures Word(m2, p) == Word(m, p)
  {
    assert m2[p..p + 8] == m[p..p + 8];
  }

  lemma CopiedSlice(m: seq<Byte>, m2: seq<Byte>, d: nat, s: nat, n: nat)
    requires |m2| == |m| && d + n <= |m| && s + n <= |m| && forall x | d <= x < d + n :: m2[x] == m[x - d + s]
    ensures m2[d..d + n] == m[s..s + n]
  {
    var a, b := m2[d..d + n], m[s..s + n];
    forall k | 0 <= k < n ensures a[k] == b[k] {
      assert m2[d + k] == m[d + k - d + s];
    }
  }

  // ---------------------------------------------------------------- the free list

  /** Address of the first free block, or the given address if there is none. */
  function NextOr(bs: seq<Block>, tail: nat): nat {
    if bs == [] then tail else if bs[0].free then bs[0].addr else NextOr(bs[1..], tail)
  }

  /** No block of the stretch is free. */
  predicate AllLive(bs: seq<Block>) { forall i | 0 <= i < |bs| :: !bs[i].free }

  /** prev is the address of the last free block of the stretch, or 0 if there is none. */
  ghost predicate IsLastFree(bs: seq<Block>, prev: nat) {
    if prev == 0 then AllLive(bs)
    else exists i :: 0 <= i < |bs| && bs[i].free && bs[i].addr == prev && AllLive(bs[i + 1..])
  }

  predicate InMemory(m: seq<Byte>, base: nat, b: Block) { base <= b.addr && b.addr - base + HEADER <= |m| }

  /** Block b has its header in place: its size, and if it is free the address of the next free block. */
  predicate HeaderOk(m: seq<Byte>, base: nat, b: Block, next: nat) {
    InMemory(m, base, b) && Word(m, b.addr - base) == b.size && (b.free ==> Word(m, b.addr - base + 8) == next)
  }

  /** A stretch of blocks with their headers in place, the free ones linked, the last one to tail. */
  predicate Linked(m: seq<Byte>, base: nat, bs: seq<Block>, tail: nat) {
    bs == [] || (HeaderOk(m, base, bs[0], NextOr(bs[1..], tail)) && Linked(m, base, bs[1..], tail))
  }

  lemma {:induction false} NextOrConcat(a: seq<Block>, b: seq<Block>, tail: nat)
    ensures NextOr(a + b, tail) == NextOr(a, NextOr(b, tail))
  {
    if a == [] {
      assert a + b == b;
    } else {
      assert (a + b)[1..] == a[1..] + b;
      NextOrConcat(a[1..], b, tail);
    }
  }

  lemma {:induction false} LinkedConcat(m: seq<Byte>, base: nat, a: seq<Block>, b: seq<Block>, tail: nat)
    ensures Linked(m, base, a + b, tail) <==> Linked(m, base, a, NextOr(b, tail)) && Linked(m, base, b, tail)
  {
    if a == [] {
      assert a + b == b;
    } else {
      assert (a + b)[1..] == a[1..] + b;
      NextOrConcat(a[1..], b, tail);
      LinkedConcat(m, base, a[1..], b, tail);
    }
  }

  /** Headers depend on nothing but their own 16 bytes. */
  lemma {:induction false} LinkedUntouched(m: seq<Byte>, m2: seq<Byte>, base: nat, bs: seq<Block>, tail: nat, o: nat,
          n: nat)
    requires Linked(m, base, bs, tail) && SameOutside(m, m2, o, n)
    requires forall b | b in bs :: b.addr + HEADER <= base + o || base + o + n <= b.addr
    ensures Linked(m2, base, bs, tail)
  {
    if bs != [] {
      var p := bs[0].addr - base;
      assert bs[0] in bs;
      WordUntouched(m, m2, o, n, p);
      WordUntouched(m, m2, o, n, p + 8);
      LinkedUntouched(m, m2, base, bs[1..], tail, o, n);
    }
  }

  /** Blocks in address order, each with room for a header, none at address 0. */
  ghost predicate Spaced(a: seq<Block>) {
    && (forall i | 0 <= i < |a| :: a[i].addr > 0)
    && (forall i, j | 0 <= i < j < |a| :: a[i].addr + HEADER <= a[j].addr)
  }

  lemma {:induction false} NextOrAllLive(bs: seq<Block>, tail: nat)
    requires AllLive(bs)
    ensures NextOr(bs, tail) == tail
  {
    if bs != [] { NextOrAllLive(bs[1..], tail); }
  }

  lemma {:induction false} LinkedAllLive(m: seq<Byte>, base: nat, bs: seq<Block>, tail: nat, tail2: nat)
    requires AllLive(bs) && Linked(m, base, bs, tail)
    ensures Linked(m, base, bs, tail2)
  {
    if bs != [] { LinkedAllLive(m, base, bs[1..], tail, tail2); }
  }

  /** One block at the end of a stretch. */
  lemma LinkedSnoc(m: seq<Byte>, base: nat, a: seq<Block>, x: Block, tail: nat)
    ensures Linked(m, base, a + [x], tail) <==>
            Linked(m, base, a, if x.free then x.addr else tail) && HeaderOk(m, base, x, tail)
  {
    LinkedConcat(m, base, a, [x], tail);
    assert [x][1..] == [];
    assert NextOr([x], tail) == if x.free then x.addr else tail;
  }

  lemma HeaderUntouched(m: seq<Byte>, m2: seq<Byte>, base: nat, b: Block, next: nat, o: nat, n: nat)
    requires HeaderOk(m, base, b, next) && SameOutside(m, m2, o, n)
    requires b.addr + HEADER <= base + o || base + o + n <= b.addr
    ensures HeaderOk(m2, base, b, next)
  {
    WordUntouched(m, m2, o, n, b.addr - base);
    WordUntouched(m, m2, o, n, b.addr - base + 8);
  }

  /** Writing the next field of a free block. */
  lemma NextWritten(m: seq<Byte>, m2: seq<Byte>, base: nat, b: Block, next: nat, next2: nat)
    requires HeaderOk(m, base, b, next) && WordWritten(m, m2, b.addr - base + 8, next2)
    ensures HeaderOk(m2, base, b, next2)
  {
    WordUntouched(m, m2, b.addr - base + 8, 8, b.addr - base);
  }

  lemma SpacedAround(a: seq<Block>, x: Block, b: seq<Block>)
    requires Spaced(a + [x] + b)
    ensures forall y | y in a :: y.addr + HEADER <= x.addr
    ensures forall y | y in b :: x.addr + HEADER <= y.addr
  {
    var s := a + [x] + b;
    assert s[|a|] == x;
    assert forall i | 0 <= i < |a| :: s[i] == a[i];
    assert forall i | 0 <= i < |b| :: s[|a| + 1 + i] == b[i];
  }

  /** Writing the next field of the last free block of a stretch makes the whole stretch lead to the new target. */
  lemma RedirectBlock(m: seq<Byte>, m2: seq<Byte>, base: nat, a: seq<Block>, x: Block, b: seq<Block>, tail: nat,
          tail2: nat)
    requires Spaced(a + [x] + b) && x.free && AllLive(b) && Linked(m, base, a + [x] + b, tail)
    requires base <= x.addr && WordWritten(m, m2, x.addr - base + 8, tail2)
    ensures Linked(m2, base, a + [x] + b, tail2)
  {
    SpacedAround(a, x, b);
    LinkedConcat(m, base, a + [x], b, tail);
    NextOrAllLive(b, tail);
    LinkedSnoc(m, base, a, x, tail);
    LinkedUntouched(m, m2, base, a, x.addr, x.addr - base + 8, 8);
    NextWritten(m, m2, base, x, tail, tail2);
    LinkedSnoc(m2, base, a, x, tail2);
    LinkedUntouched(m, m2, base, b, tail, x.addr - base + 8, 8);
    LinkedAllLive(m2, base, b, tail, tail2);
    NextOrAllLive(b, tail2);
    LinkedConcat(m2, base, a + [x], b, tail2);
  }

  lemma NextOrThrough(a: seq<Block>, x: Block, b: seq<Block>, tail: nat)
    requires x.free
    ensures NextOr(a + [x] + b, tail) == NextOr(a, x.addr)
  {
    NextOrConcat(a + [x], b, tail);
    NextOrConcat(a, [x], NextOr(b, tail));
  }

  lemma SplitAt(a: seq<Block>, i: nat)
    requires i < |a|
    ensures a == a[..i] + [a[i]] + a[i + 1..]
  {
  }

  lemma RedirectParts(m: seq<Byte>, m2: seq<Byte>, base: nat, a: seq<Block>, x: Block, b: seq<Block>, tail: nat,
          tail2: nat)
    requires Spaced(a + [x] + b) && x.free && AllLive(b) && Linked(m, base, a + [x] + b, tail)
    requires base <= x.addr && WordWritten(m, m2, x.addr - base + 8, tail2)
    ensures Linked(m2, base, a + [x] + b, tail2) && NextOr(a + [x] + b, tail2) == NextOr(a + [x] + b, tail)
  {
    RedirectBlock(m, m2, base, a, x, b, tail, tail2);
    NextOrThrough(a, x, b, tail);
    NextOrThrough(a, x, b, tail2);
  }

  lemma RedirectAt(m: seq<Byte>, m2: seq<Byte>, base: nat, a: seq<Block>, i: nat, tail: nat, tail2: nat)
    requires Spaced(a) && Linked(m, base, a, tail) && i < |a| && a[i].free && AllLive(a[i + 1..])
    requires base <= a[i].addr && WordWritten(m, m2, a[i].addr - base + 8, tail2)
    ensures Linked(m2, base, a, tail2) && NextOr(a, tail2) == NextOr(a, tail)
  {
    var p, x, q := a[..i], a[i], a[i + 1..];
    SplitAt(a, i);
    RedirectParts(m, m2, base, p, x, q, tail, tail2);
  }

  /** The link out of a stretch now goes to tail2: through the list head if no block of the stretch is free,
      through the next field of its last free block otherwise. */
  ghost predicate Redirected(m: seq<Byte>, m2: seq<Byte>, base: nat, head: nat, head2: nat, prev: nat, tail2: nat) {
    if prev == 0 then m2 == m && head2 == tail2
    else base <= prev && WordWritten(m, m2, prev - base + 8, tail2) && head2 == head
  }

  /** Redirecting the link out of a stretch, seen from the list head. */
  lemma RedirectStretch(m: seq<Byte>, m2: seq<Byte>, base: nat, a: seq<Block>, head: nat, head2: nat, prev: nat,
          tail: nat, tail2: nat)
    requires Spaced(a) && Linked(m, base, a, tail) && head == NextOr(a, tail)
    requires IsLastFree(a, prev) && Redirected(m, m2, base, head, head2, prev, tail2)
    ensures Linked(m2, base, a, tail2) && head2 == NextOr(a, tail2)
  {
    hide Linked, NextOr;
    if prev == 0 {
      LinkedAllLive(m, base, a, tail, tail2);
      NextOrAllLive(a, tail2);
    } else {
      var i :| 0 <= i < |a| && a[i].free && a[i].addr == prev && AllLive(a[i + 1..]);
      RedirectAt(m, m2, base, a, i, tail, tail2);
    }
  }
}
