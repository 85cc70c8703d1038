/** What the word writes of the allocator do to the free list in memory. */
module HeapSurgery {
  import opened Wrappers
  import opened HeapBlocks
  import opened HeapList

  /** The blocks bs are in memory, and head starts their free list. */
  predicate Listed(m: seq<Byte>, base: nat, bs: seq<Block>, head: nat) {
    Linked(m, base, bs, 0) && head == NextOr(bs, 0)
  }

  /** The blocks tile [base, hi) and are listed; free blocks may touch. */
  ghost predicate TiledOk(m: seq<Byte>, base: nat, hi: nat, head: nat, bs: seq<Block>) {
    && base > 0 && base <= hi <= base + |m| <= U64 && head < U64
    && Tiles(bs, base, hi) && Aligned(bs) && Listed(m, base, bs, head)
  }

  /** The heap [base, base + size) is well formed, and its free list is threaded through its memory. */
  ghost predicate HeapOk(m: seq<Byte>, base: nat, size: nat, head: nat, bs: seq<Block>) {
    TiledOk(m, base, base + size, head, bs) && Coalesced(bs) && base % 16 == 0 && size % 16 == 0
  }

  lemma ListedParts(m: seq<Byte>, base: nat, a: seq<Block>, mid: seq<Block>, c: seq<Block>, head: nat)
    ensures var n := NextOr(c, 0);
            Listed(m, base, a + mid + c, head) <==>
            && Linked(m, base, a, NextOr(mid, n)) && Linked(m, base, mid, n) && Linked(m, base, c, 0)
            && head == NextOr(a, NextOr(mid, n))
  {
    LinkedConcat(m, base, a + mid, c, 0);
    LinkedConcat(m, base, a, mid, NextOr(c, 0));
    NextOrConcat(a + mid, c, 0);
    NextOrConcat(a, mid, NextOr(c, 0));
  }

  lemma OneBlock(m: seq<Byte>, base: nat, b: Block, tail: nat)
    ensures Linked(m, base, [b], tail) <==> HeaderOk(m, base, b, tail)
    ensures NextOr([b], tail) == if b.free then b.addr else tail
  {
    assert [b][1..] == [];
    assert NextOr([], tail) == tail;
  }

  lemma TwoBlocks(m: seq<Byte>, base: nat, b: Block, c: Block, tail: nat)
    ensures Linked(m, base, [b, c], tail) <==>
            HeaderOk(m, base, b, if c.free then c.addr else tail) && HeaderOk(m, base, c, tail)
    ensures NextOr([b, c], tail) == if b.free then b.addr else if c.free then c.addr else tail
  {
    assert [b, c][1..] == [c];
    OneBlock(m, base, c, tail);
  }

  /** The stretch before the write area ends before it. */
  ghost predicate Before(a: seq<Block>, addr: nat) { forall b | b in a :: b.addr + HEADER <= addr }

  lemma LastFreeBefore(a: seq<Block>, prev: nat, addr: nat)
    requires IsLastFree(a, prev) && Before(a, addr)
    ensures prev == 0 || prev + HEADER <= addr
  {
    if prev != 0 {
      var i :| 0 <= i < |a| && a[i].free && a[i].addr == prev && AllLive(a[i + 1..]);
      assert a[i] in a;
    }
  }

  /** The last free block before block k. */
  lemma LastFreeIndex(bs: seq<Block>, k: nat, prev: nat) returns (i: nat)
    requires k <= |bs| && IsLastFree(bs[..k], prev) && prev != 0
    ensures i < k && bs[i].free && bs[i].addr == prev && forall j | i < j < k :: !bs[j].free
  {
    i :| 0 <= i < k && bs[..k][i].free && bs[..k][i].addr == prev && AllLive(bs[..k][i + 1..]);
    forall j | i < j < k ensures !bs[j].free {
      assert bs[j] == bs[..k][i + 1..][j - i - 1];
    }
  }

  /** A redirected link leaves every stretch behind it alone. */
  lemma RedirectKeepsRest(m: seq<Byte>, m2: seq<Byte>, base: nat, head: nat, head2: nat, prev: nat, t: nat,
          bs: seq<Block>, tail: nat)
    requires Redirected(m, m2, base, head, head2, prev, t) && Linked(m, base, bs, tail)
    requires prev != 0 ==> forall b | b in bs :: prev + HEADER <= b.addr
    ensures Linked(m2, base, bs, tail)
  {
    if prev != 0 { LinkedUntouched(m, m2, base, bs, tail, prev - base + 8, 8); }
  }

  /** Redirecting the link into the middle of the list. */
  lemma Relink(m1: seq<Byte>, m2: seq<Byte>, base: nat, a: seq<Block>, rest: seq<Block>, addr: nat, head: nat,
          head2: nat, prev: nat, t: nat)
    requires Linked(m1, base, a, t) && head == NextOr(a, t) && Linked(m1, base, rest, 0) && Spaced(a)
    requires Before(a, addr) && forall b | b in rest :: addr <= b.addr
    requires IsLastFree(a, prev) && Redirected(m1, m2, base, head, head2, prev, NextOr(rest, 0))
    ensures Listed(m2, base, a + rest, head2)
  {
    LastFreeBefore(a, prev, addr);
    RedirectStretch(m1, m2, base, a, head, head2, prev, t, NextOr(rest, 0));
    RedirectKeepsRest(m1, m2, base, head, head2, prev, NextOr(rest, 0), rest, 0);
    LinkedConcat(m2, base, a, rest, 0);
    NextOrConcat(a, rest, 0);
  }

  /** Writing inside [addr, addr + n), which holds the old middle, and redirecting the link before it, replaces
      the middle of the list. */
  lemma ReplaceMiddle(m: seq<Byte>, m1: seq<Byte>, m2: seq<Byte>, base: nat, a: seq<Block>, mid: seq<Block>,
          mid2: seq<Block>, c: seq<Block>, addr: nat, n: nat, head: nat, head2: nat, prev: nat)
    requires Listed(m, base, a + mid + c, head) && Spaced(a) && base <= addr
    requires SameOutside(m, m1, addr - base, n) && Before(a, addr) && (forall b | b in c :: addr + n <= b.addr)
    requires Linked(m1, base, mid2, NextOr(c, 0)) && forall b | b in mid2 :: addr <= b.addr
    requires IsLastFree(a, prev) && Redirected(m1, m2, base, head, head2, prev, NextOr(mid2, NextOr(c, 0)))
    ensures Listed(m2, base, a + mid2 + c, head2)
  {
    var t := NextOr(mid, NextOr(c, 0));
    ListedParts(m, base, a, mid, c, head);
    LinkedUntouched(m, m1, base, a, t, addr - base, n);
    LinkedUntouched(m, m1, base, c, 0, addr - base, n);
    LinkedConcat(m1, base, mid2, c, 0);
    NextOrConcat(mid2, c, 0);
    Relink(m1, m2, base, a, mid2 + c, addr, head, head2, prev, t);
    Regroup(a, mid2, c);
  }

  lemma Regroup(a: seq<Block>, b: seq<Block>, c: seq<Block>)
    ensures a + b + c == a + (b + c)
  {
  }

  /** Writing inside [addr, addr + n) without changing where the middle starts in the list. */
  lemma RewriteMiddle(m: seq<Byte>, m1: seq<Byte>, base: nat, a: seq<Block>, mid: seq<Block>, mid2: seq<Block>,
          c: seq<Block>, addr: nat, n: nat, head: nat)
    requires Listed(m, base, a + mid + c, head) && base <= addr
    requires SameOutside(m, m1, addr - base, n) && Before(a, addr) && (forall b | b in c :: addr + n <= b.addr)
    requires Linked(m1, base, mid2, NextOr(c, 0)) && NextOr(mid2, NextOr(c, 0)) == NextOr(mid, NextOr(c, 0))
    ensures Listed(m1, base, a + mid2 + c, head)
  {
    var tail := NextOr(c, 0);
    ListedParts(m, base, a, mid, c, head);
    LinkedUntouched(m, m1, base, a, NextOr(mid, tail), addr - base, n);
    LinkedUntouched(m, m1, base, c, 0, addr - base, n);
    ListedParts(m1, base, a, mid2, c, head);
  }

  // ---------------------------------------------------------------- the list around one block

  /** The neighbourhood of block k in a tiling. */
  lemma Around(bs: seq<Block>, lo: nat, hi: nat, k: nat)
    requires Tiles(bs, lo, hi) && Aligned(bs) && lo > 0 && k < |bs|
    ensures bs[k].size >= HEADER && lo <= bs[k].addr && EndOf(bs[k]) <= hi
    ensures Spaced(bs[..k]) && Before(bs[..k], bs[k].addr)
    ensures forall b | b in bs[k + 1..] :: EndOf(bs[k]) <= b.addr
  {
    TilesOrder(bs, lo, hi);
    forall i | 0 <= i < |bs| ensures bs[i].size >= HEADER { assert bs[i] in bs; }
  }

  lemma SplitList(bs: seq<Block>, k: nat)
    requires k < |bs|
    ensures bs == bs[..k] + [bs[k]] + bs[k + 1..]
  {
  }

  /** Block k seen from the list. */
  lemma BlockListed(m: seq<Byte>, base: nat, bs: seq<Block>, head: nat, k: nat)
    requires Listed(m, base, bs, head) && k < |bs|
    ensures HeaderOk(m, base, bs[k], NextOr(bs[k + 1..], 0))
  {
    SplitList(bs, k);
    ListedParts(m, base, bs[..k], [bs[k]], bs[k + 1..], head);
    OneBlock(m, base, bs[k], NextOr(bs[k + 1..], 0));
  }

  lemma NextBehindLive(bs: seq<Block>, k: nat)
    requires k < |bs| && !bs[k].free
    ensures NextOr(bs[k..], 0) == NextOr(bs[k + 1..], 0)
  {
    assert bs[k..][1..] == bs[k + 1..];
  }

  /** What follows the stretch before block k: read from the list head or from the last free block before k. */
  lemma FollowLink(m: seq<Byte>, base: nat, bs: seq<Block>, lo: nat, hi: nat, head: nat, k: nat, prev: nat)
    requires Tiles(bs, lo, hi) && Aligned(bs) && lo > 0 && Listed(m, base, bs, head) && k <= |bs|
    requires IsLastFree(bs[..k], prev)
    ensures prev == 0 ==> head == NextOr(bs[k..], 0)
    ensures prev != 0 ==> base <= prev && prev - base + HEADER <= |m| && Word(m, prev - base + 8) == NextOr(bs[k..], 0)
  {
    assert bs == bs[..k] + bs[k..];
    NextOrConcat(bs[..k], bs[k..], 0);
    if prev == 0 {
      NextOrAllLive(bs[..k], NextOr(bs[k..], 0));
    } else {
      var i := LastFreeIndex(bs, k, prev);
      BlockListed(m, base, bs, head, i);
      assert bs[i + 1..] == bs[i + 1..k] + bs[k..];
      NextOrConcat(bs[i + 1..k], bs[k..], 0);
      NextOrAllLive(bs[i + 1..k], NextOr(bs[k..], 0));
    }
  }

  /** Inserting live block k into the free list. */
  lemma InsertListed(m: seq<Byte>, m1: seq<Byte>, m2: seq<Byte>, base: nat, bs: seq<Block>, lo: nat, hi: nat, k: nat,
          head: nat, head2: nat, prev: nat)
    requires Tiles(bs, lo, hi) && Aligned(bs) && lo > 0 && Listed(m, base, bs, head) && k < |bs| && base <= lo
    requires base <= bs[k].addr && SameOutside(m, m1, bs[k].addr - base, HEADER)
    requires HeaderOk(m1, base, bs[k].(free := true), NextOr(bs[k + 1..], 0))
    requires IsLastFree(bs[..k], prev) && Redirected(m1, m2, base, head, head2, prev, bs[k].addr)
    ensures Listed(m2, base, bs[k := bs[k].(free := true)], head2)
  {
    hide Linked, NextOr;
    var b, tail := bs[k], NextOr(bs[k + 1..], 0);
    var b2 := b.(free := true);
    Around(bs, lo, hi, k);
    SplitList(bs, k);
    OneBlock(m1, base, b2, tail);
    ReplaceMiddle(m, m1, m2, base, bs[..k], [b], [b2], bs[k + 1..], b.addr, HEADER, head, head2, prev);
    assert bs[k := b2] == bs[..k] + [b2] + bs[k + 1..];
  }

  /** Cutting a free block in two and handing out the first part. */
  lemma CutListed(m: seq<Byte>, m1: seq<Byte>, m2: seq<Byte>, base: nat, bs: seq<Block>, lo: nat, hi: nat, k: nat,
          total: nat, head: nat, head2: nat, prev: nat)
    requires Tiles(bs, lo, hi) && Aligned(bs) && lo > 0 && Listed(m, base, bs, head) && k < |bs| && base <= lo
    requires bs[k].free && HEADER <= total && bs[k].size >= total + MIN_ALLOC
    requires base <= bs[k].addr && SameOutside(m, m1, bs[k].addr - base, total + HEADER)
    requires HeaderOk(m1, base, Block(bs[k].addr, total, false), 0)
    requires HeaderOk(m1, base, Block(bs[k].addr + total, bs[k].size - total, true), NextOr(bs[k + 1..], 0))
    requires IsLastFree(bs[..k], prev) && Redirected(m1, m2, base, head, head2, prev, bs[k].addr + total)
    ensures Listed(m2, base, Carve(bs, k, total), head2)
  {
    hide Linked, NextOr, Redirected, HeaderOk, SameOutside, IsLastFree, Tiles;
    Around(bs, lo, hi, k);
    SplitList(bs, k);
    CutParts(m, m1, m2, base, bs[..k], bs[k], bs[k + 1..], total, head, head2, prev);
  }

  lemma CutParts(m: seq<Byte>, m1: seq<Byte>, m2: seq<Byte>, base: nat, a: seq<Block>, b: Block, c: seq<Block>,
          total: nat, head: nat, head2: nat, prev: nat)
    requires Listed(m, base, a + [b] + c, head) && Spaced(a) && Before(a, b.addr)
    requires forall x | x in c :: EndOf(b) <= x.addr
    requires b.free && HEADER <= total && b.size >= total + MIN_ALLOC
    requires base <= b.addr && SameOutside(m, m1, b.addr - base, total + HEADER)
    requires HeaderOk(m1, base, Block(b.addr, total, false), 0)
    requires HeaderOk(m1, base, Block(b.addr + total, b.size - total, true), NextOr(c, 0))
    requires IsLastFree(a, prev) && Redirected(m1, m2, base, head, head2, prev, b.addr + total)
    ensures Listed(m2, base, a + [Block(b.addr, total, false), Block(b.addr + total, b.size - total, true)] + c, head2)
  {
    var x, y := Block(b.addr, total, false), Block(b.addr + total, b.size - total, true);
    TwoBlocks(m1, base, x, y, NextOr(c, 0));
    ReplaceMiddle(m, m1, m2, base, a, [b], [x, y], c, b.addr, total + HEADER, head, head2, prev);
  }

  /** Handing out a free block whole: only the link before it changes. */
  lemma TakeListed(m: seq<Byte>, m2: seq<Byte>, base: nat, bs: seq<Block>, lo: nat, hi: nat, k: nat, total: nat,
          head: nat, head2: nat, prev: nat)
    requires Tiles(bs, lo, hi) && Aligned(bs) && lo > 0 && Listed(m, base, bs, head) && k < |bs| && base <= lo
    requires Fits(bs[k], total) && bs[k].size < total + MIN_ALLOC
    requires IsLastFree(bs[..k], prev) && Redirected(m, m2, base, head, head2, prev, NextOr(bs[k + 1..], 0))
    ensures Listed(m2, base, Carve(bs, k, total), head2)
  {
    hide Linked, NextOr;
    var b, tail := bs[k], NextOr(bs[k + 1..], 0);
    var b2 := b.(free := false);
    Around(bs, lo, hi, k);
    SplitList(bs, k);
    BlockListed(m, base, bs, head, k);
    OneBlock(m, base, b2, tail);
    ReplaceMiddle(m, m, m2, base, bs[..k], [b], [b2], bs[k + 1..], b.addr, HEADER, head, head2, prev);
    assert Carve(bs, k, total) == bs[..k] + [b2] + bs[k + 1..];
  }

  /** Joining two touching free blocks: the first gets both sizes and the second's link. */
  lemma MergeListed(m: seq<Byte>, m1: seq<Byte>, base: nat, bs: seq<Block>, lo: nat, hi: nat, k: nat, head: nat)
    requires Tiles(bs, lo, hi) && Aligned(bs) && lo > 0 && Listed(m, base, bs, head) && k + 1 < |bs| && base <= lo
    requires bs[k].free && bs[k + 1].free && base <= bs[k].addr && SameOutside(m, m1, bs[k].addr - base, HEADER)
    requires HeaderOk(m1, base, Block(bs[k].addr, bs[k].size + bs[k + 1].size, true), NextOr(bs[k + 2..], 0))
    ensures Listed(m1, base, Merge(bs, k), head)
  {
    var b, c, tail := bs[k], bs[k + 1], NextOr(bs[k + 2..], 0);
    var b2 := Block(b.addr, b.size + c.size, true);
    Around(bs, lo, hi, k);
    assert bs == bs[..k] + [b, c] + bs[k + 2..];
    assert bs[k + 1..][1..] == bs[k + 2..];
    OneBlock(m1, base, b2, tail);
    TwoBlocks(m, base, b, c, tail);
    RewriteMiddle(m, m1, base, bs[..k], [b, c], [b2], bs[k + 2..], b.addr, HEADER, head);
  }

  /** The test for a free neighbour above: the next free block starts where block k ends. */
  lemma NextTouches(bs: seq<Block>, lo: nat, hi: nat, k: nat)
    requires Tiles(bs, lo, hi) && lo > 0 && k < |bs|
    ensures var n := NextOr(bs[k + 1..], 0);
            n != 0 && EndOf(bs[k]) == n <==> k + 1 < |bs| && bs[k + 1].free
    ensures k + 1 < |bs| && bs[k + 1].free ==> NextOr(bs[k + 1..], 0) == bs[k + 1].addr
  {
    TilesOrder(bs, lo, hi);
    if k + 1 < |bs| {
      Touching(bs, lo, hi, k);
      if !bs[k + 1].free {
        assert bs[k + 1..][1..] == bs[k + 2..];
        NextOrInside(bs, lo, hi, k + 2);
      }
    }
  }

  lemma {:induction false} NextOrInside(bs: seq<Block>, lo: nat, hi: nat, k: nat)
    requires Tiles(bs, lo, hi) && k <= |bs|
    ensures NextOr(bs[k..], 0) != 0 ==> exists i :: k <= i < |bs| && bs[i].free && bs[i].addr == NextOr(bs[k..], 0)
    decreases |bs| - k
  {
    if k < |bs| {
      assert bs[k..][1..] == bs[k + 1..];
      NextOrInside(bs, lo, hi, k + 1);
    }
  }

  /** The test for a free neighbour below: the last free block before block k ends where block k starts. */
  lemma PreviousTouches(m: seq<Byte>, base: nat, bs: seq<Block>, lo: nat, hi: nat, head: nat, k: nat, prev: nat)
    requires Tiles(bs, lo, hi) && Aligned(bs) && lo > 0 && Listed(m, base, bs, head) && k < |bs|
    requires IsLastFree(bs[..k], prev)
    ensures prev != 0 ==> base <= prev && prev - base + HEADER <= |m|
    ensures prev != 0 && prev + Word(m, prev - base) == bs[k].addr <==> k > 0 && bs[k - 1].free
    ensures k > 0 && bs[k - 1].free ==> prev == bs[k - 1].addr
  {
    if prev == 0 {
      assert k > 0 ==> !bs[..k][k - 1].free;
    } else {
      var i := LastFreeIndex(bs, k, prev);
      BlockListed(m, base, bs, head, i);
      TilesOrder(bs, lo, hi);
      Touching(bs, lo, hi, i);
    }
  }

  // ---------------------------------------------------------------- walking the list

  /** The first free block from index k on, which is where the list leads. */
  lemma {:induction false} NextFreeIndex(bs: seq<Block>, k: nat) returns (j: nat)
    requires k <= |bs|
    ensures k <= j <= |bs| && (forall i | k <= i < j :: !bs[i].free) && (j < |bs| ==> bs[j].free)
    ensures NextOr(bs[k..], 0) == if j < |bs| then bs[j].addr else 0
    decreases |bs| - k
  {
    if k == |bs| || bs[k].free {
      j := k;
    } else {
      assert bs[k..][1..] == bs[k + 1..];
      j := NextFreeIndex(bs, k + 1);
    }
  }

  lemma LastFreeFirst(bs: seq<Block>, j: nat)
    requires j <= |bs| && forall i | 0 <= i < j :: !bs[i].free
    ensures IsLastFree(bs[..j], 0)
  {
  }

  lemma LastFreeNext(bs: seq<Block>, k: nat, j: nat)
    requires k < j <= |bs| && bs[k].free && bs[k].addr > 0 && forall i | k < i < j :: !bs[i].free
    ensures IsLastFree(bs[..j], bs[k].addr)
  {
    assert bs[..j][k] == bs[k];
    assert AllLive(bs[..j][k + 1..]);
  }

  /** A search stands at free block k, or at the end: cur is its address, prev that of the free block before it. */
  ghost predicate Cursor(bs: seq<Block>, k: nat, prev: nat, cur: nat) {
    k <= |bs| && IsLastFree(bs[..k], prev) &&
    if k < |bs| then bs[k].free && cur == bs[k].addr && cur != 0 else cur == 0
  }

  lemma CursorStart(bs: seq<Block>) returns (k: nat)
    requires forall b | b in bs :: b.addr > 0
    ensures Cursor(bs, k, 0, NextOr(bs, 0)) && forall i | 0 <= i < k :: !bs[i].free
  {
    k := NextFreeIndex(bs, 0);
    assert bs[0..] == bs;
    LastFreeFirst(bs, k);
  }

  lemma CursorStep(bs: seq<Block>, k: nat, prev: nat, cur: nat) returns (j: nat)
    requires (forall b | b in bs :: b.addr > 0) && Cursor(bs, k, prev, cur) && cur != 0
    ensures Cursor(bs, j, cur, NextOr(bs[k + 1..], 0)) && k < j && forall i | k < i < j :: !bs[i].free
  {
    j := NextFreeIndex(bs, k + 1);
    LastFreeNext(bs, k, j);
  }

  lemma AddressesPositive(bs: seq<Block>, lo: nat, hi: nat)
    requires Tiles(bs, lo, hi) && lo > 0
    ensures forall b | b in bs :: b.addr > 0
  {
    TilesOrder(bs, lo, hi);
  }

  /** A search for a live block's place stops behind the last free block below it. */
  lemma CursorPlace(bs: seq<Block>, lo: nat, hi: nat, k: nat, prev: nat, cur: nat, q: nat)
    requires Tiles(bs, lo, hi) && Cursor(bs, k, prev, cur) && q < |bs| && !bs[q].free
    requires (cur != 0 ==> bs[q].addr <= cur) && forall i | 0 <= i < k && bs[i].free :: bs[i].addr < bs[q].addr
    ensures IsLastFree(bs[..q], prev)
  {
    TilesOrder(bs, lo, hi);
    if k <= q { assert false; }
    LastFreeShrink(bs, q, k, prev);
  }

  lemma LastFreeShrink(bs: seq<Block>, q: nat, k: nat, prev: nat)
    requires q <= k <= |bs| && IsLastFree(bs[..k], prev) && forall i | q <= i < k :: !bs[i].free
    ensures IsLastFree(bs[..q], prev)
  {
    if prev == 0 {
      forall i | 0 <= i < q ensures !bs[..q][i].free { assert !bs[..k][i].free; }
    } else {
      var i := LastFreeIndex(bs, k, prev);
      LastFreeNext(bs, i, q);
    }
  }

  lemma BlocksBelow(bs: seq<Block>, lo: nat, hi: nat)
    requires Tiles(bs, lo, hi) && Aligned(bs) && lo > 0
    ensures forall b | b in bs :: b.addr + HEADER <= hi
  {
    forall b | b in bs ensures b.addr + HEADER <= hi {
      var i :| 0 <= i < |bs| && bs[i] == b;
      Around(bs, lo, hi, i);
    }
  }

  /** The header of a new top region is put in place. */
  lemma AppendListed(m: seq<Byte>, m1: seq<Byte>, base: nat, bs: seq<Block>, hi: nat, head: nat, bytes: nat)
    requires Listed(m, base, bs, head) && base <= hi && forall b | b in bs :: b.addr + HEADER <= hi
    requires SameOutside(m, m1, hi - base, HEADER) && HeaderOk(m1, base, Block(hi, bytes, true), 0)
    ensures Listed(m1, base, bs + [Block(hi, bytes, false)], head)
  {
    var top := Block(hi, bytes, false);
    LinkedUntouched(m, m1, base, bs, 0, hi - base, HEADER);
    OneBlock(m1, base, top, 0);
    LinkedConcat(m1, base, bs, [top], 0);
    NextOrConcat(bs, [top], 0);
  }

  // ---------------------------------------------------------------- payloads

  /** The bytes a client may use behind a live block. */
  function Payload(m: seq<Byte>, base: nat, b: Block): seq<Byte> {
    if base <= b.addr && HEADER <= b.size && EndOf(b) - base <= |m|
    then m[b.addr + HEADER - base..EndOf(b) - base]
    else []
  }

  ghost predicate KeepsPayloads(m: seq<Byte>, m2: seq<Byte>, base: nat, live: set<Block>) {
    forall b | b in live :: Payload(m2, base, b) == Payload(m, base, b)
  }

  lemma PayloadsSame(m: seq<Byte>, base: nat, live: set<Block>)
    ensures KeepsPayloads(m, m, base, live)
  {
  }

  lemma KeepsPayloadsTrans(m: seq<Byte>, m1: seq<Byte>, m2: seq<Byte>, base: nat, live: set<Block>)
    requires KeepsPayloads(m, m1, base, live) && KeepsPayloads(m1, m2, base, live)
    ensures KeepsPayloads(m, m2, base, live)
  {
  }

  lemma KeepsPayloadsFewer(m: seq<Byte>, m2: seq<Byte>, base: nat, live: set<Block>, fewer: set<Block>)
    requires KeepsPayloads(m, m2, base, live) && fewer <= live
    ensures KeepsPayloads(m, m2, base, fewer)
  {
  }

  lemma PayloadUntouched(m: seq<Byte>, m2: seq<Byte>, base: nat, b: Block, o: nat, n: nat)
    requires SameOutside(m, m2, o, n) && (EndOf(b) <= base + o || base + o + n <= b.addr + HEADER)
    ensures Payload(m2, base, b) == Payload(m, base, b)
  {
  }

  /** Writing inside a free block, or inside the header of a live one, touches no payload. */
  lemma PayloadsKept(m: seq<Byte>, m2: seq<Byte>, base: nat, bs: seq<Block>, lo: nat, hi: nat, i: nat, o: nat, n: nat)
    requires Tiles(bs, lo, hi) && i < |bs| && SameOutside(m, m2, o, n)
    requires bs[i].addr <= base + o && base + o + n <= if bs[i].free then EndOf(bs[i]) else bs[i].addr + HEADER
    ensures KeepsPayloads(m, m2, base, Live(bs))
  {
    TilesOrder(bs, lo, hi);
    forall b | b in Live(bs) ensures Payload(m2, base, b) == Payload(m, base, b) {
      var j :| 0 <= j < |bs| && bs[j] == b;
      PayloadUntouched(m, m2, base, b, o, n);
    }
  }

  /** Clients writing to payloads never disturb the list. */
  lemma ClientWritesKeepList(m: seq<Byte>, m2: seq<Byte>, base: nat, bs: seq<Block>, lo: nat, hi: nat, head: nat,
          b: Block)
    requires Tiles(bs, lo, hi) && Aligned(bs) && Listed(m, base, bs, head) && b in Live(bs)
    requires b.size >= HEADER && base <= b.addr && SameOutside(m, m2, b.addr + HEADER - base, b.size - HEADER)
    ensures Listed(m2, base, bs, head)
  {
    TilesOrder(bs, lo, hi);
    var j :| 0 <= j < |bs| && bs[j] == b;
    forall c | c in bs ensures c.addr + HEADER <= b.addr + HEADER || EndOf(b) <= c.addr {
      var i :| 0 <= i < |bs| && bs[i] == c;
    }
    LinkedUntouched(m, m2, base, bs, 0, b.addr + HEADER - base, b.size - HEADER);
  }

  /** A redirected link lies in the header of a free block. */
  lemma RedirectKeepsPayloads(m: seq<Byte>, m2: seq<Byte>, base: nat, bs: seq<Block>, lo: nat, hi: nat, k: nat,
          head: nat, head2: nat, prev: nat, t: nat)
    requires Tiles(bs, lo, hi) && Aligned(bs) && lo > 0 && k <= |bs| && IsLastFree(bs[..k], prev)
    requires Redirected(m, m2, base, head, head2, prev, t)
    ensures KeepsPayloads(m, m2, base, Live(bs))
  {
    if prev != 0 {
      var i := LastFreeIndex(bs, k, prev);
      Around(bs, lo, hi, i);
      PayloadsKept(m, m2, base, bs, lo, hi, i, prev - base + 8, 8);
    }
  }

  /** Writing inside block k (inside its header, if it is live) and redirecting the link before it. */
  lemma StepKeepsPayloads(m: seq<Byte>, m1: seq<Byte>, m2: seq<Byte>, base: nat, bs: seq<Block>, lo: nat, hi: nat,
          k: nat, n: nat, head: nat, head2: nat, prev: nat, t: nat)
    requires Tiles(bs, lo, hi) && Aligned(bs) && lo > 0 && k < |bs| && IsLastFree(bs[..k], prev)
    requires base <= bs[k].addr && SameOutside(m, m1, bs[k].addr - base, n)
    requires n <= if bs[k].free then bs[k].size else HEADER
    requires Redirected(m1, m2, base, head, head2, prev, t)
    ensures KeepsPayloads(m, m2, base, Live(bs))
  {
    PayloadsKept(m, m1, base, bs, lo, hi, k, bs[k].addr - base, n);
    RedirectKeepsPayloads(m1, m2, base, bs, lo, hi, k, head, head2, prev, t);
  }

  /** Cutting a block keeps the list and every payload. */
  lemma CutDone(m: seq<Byte>, m1: seq<Byte>, m2: seq<Byte>, base: nat, bs: seq<Block>, lo: nat, hi: nat, k: nat,
          total: nat, head: nat, head2: nat, prev: nat)
    requires Tiles(bs, lo, hi) && Aligned(bs) && lo > 0 && Listed(m, base, bs, head) && k < |bs| && base <= lo
    requires bs[k].free && HEADER <= total && bs[k].size >= total + MIN_ALLOC
    requires base <= bs[k].addr && SameOutside(m, m1, bs[k].addr - base, total + HEADER)
    requires HeaderOk(m1, base, Block(bs[k].addr, total, false), 0)
    requires HeaderOk(m1, base, Block(bs[k].addr + total, bs[k].size - total, true), NextOr(bs[k + 1..], 0))
    requires IsLastFree(bs[..k], prev) && Redirected(m1, m2, base, head, head2, prev, bs[k].addr + total)
    ensures Listed(m2, base, Carve(bs, k, total), head2) && KeepsPayloads(m, m2, base, Live(bs))
  {
    CutListed(m, m1, m2, base, bs, lo, hi, k, total, head, head2, prev);
    StepKeepsPayloads(m, m1, m2, base, bs, lo, hi, k, total + HEADER, head, head2, prev, bs[k].addr + total);
  }

  /** Where a block and its header lie, and what the header says. */
  lemma BlockFacts(m: seq<Byte>, base: nat, bs: seq<Block>, hi: nat, head: nat, k: nat)
    requires Tiles(bs, base, hi) && Aligned(bs) && base > 0 && Listed(m, base, bs, head) && k < |bs|
    ensures base <= bs[k].addr && HEADER <= bs[k].size && EndOf(bs[k]) <= hi
    ensures HeaderOk(m, base, bs[k], NextOr(bs[k + 1..], 0))
  {
    Around(bs, base, hi, k);
    BlockListed(m, base, bs, head, k);
  }

  /** The last free block before block k lies in memory. */
  lemma LastFreeInMemory(m: seq<Byte>, base: nat, bs: seq<Block>, hi: nat, head: nat, k: nat, prev: nat)
    requires Tiles(bs, base, hi) && Aligned(bs) && base > 0 && Listed(m, base, bs, head) && k <= |bs|
    requires IsLastFree(bs[..k], prev)
    ensures prev != 0 ==> base <= prev && prev - base + HEADER <= |m|
  {
    FollowLink(m, base, bs, base, hi, head, k, prev);
  }

  /** Writing above every block touches no payload. */
  lemma AboveKeepsPayloads(m: seq<Byte>, m2: seq<Byte>, base: nat, bs: seq<Block>, lo: nat, hi: nat, n: nat)
    requires Tiles(bs, lo, hi) && base <= hi && SameOutside(m, m2, hi - base, n)
    ensures KeepsPayloads(m, m2, base, Live(bs))
  {
    TilesOrder(bs, lo, hi);
    forall b | b in Live(bs) ensures Payload(m2, base, b) == Payload(m, base, b) {
      var j :| 0 <= j < |bs| && bs[j] == b;
      PayloadUntouched(m, m2, base, b, hi - base, n);
    }
  }

  /** With an empty free list the new region is the only free block. */
  lemma FirstFreeBlock(m: seq<Byte>, base: nat, bs: seq<Block>, hi: nat, bytes: nat)
    requires Tiles(bs, base, hi) && Aligned(bs) && base > 0 && bytes > 0 && bytes % 16 == 0 && hi % 16 == 0
    requires Listed(m, base, bs + [Block(hi, bytes, false)], 0) && HeaderOk(m, base, Block(hi, bytes, true), 0)
    ensures Listed(m, base, Extend(bs, hi, bytes), hi)
  {
    hide Linked, Extend;
    var all := bs + [Block(hi, bytes, false)];
    TopTiles(bs, base, hi, bytes);
    TilesOrder(all, base, hi + bytes);
    NoFreeBlock(all, 0);
    LastFreeFirst(all, |bs|);
    assert all[|bs|] == Block(hi, bytes, false) && all[|bs| + 1..] == [];
    InsertListed(m, m, m, base, all, base, hi + bytes, |bs|, 0, hi, 0);
    ExtendAllLive(bs, hi, bytes);
  }

  /** An empty list has no free block. */
  lemma NoFreeBlock(bs: seq<Block>, head: nat)
    requires (forall b | b in bs :: b.addr > 0) && head == 0 == NextOr(bs, 0)
    ensures AllLive(bs)
  {
    var k := NextFreeIndex(bs, 0);
    assert bs[0..] == bs;
  }

  lemma ExtendAllLive(bs: seq<Block>, hi: nat, bytes: nat)
    requires AllLive(bs + [Block(hi, bytes, false)])
    ensures Extend(bs, hi, bytes) == (bs + [Block(hi, bytes, false)])[|bs| := Block(hi, bytes, true)]
  {
    var all := bs + [Block(hi, bytes, false)];
    if bs != [] { assert !all[|bs| - 1].free; }
  }

  /** A client write inside the payload of one live block: the list and every other payload stay. */
  lemma ClientWrite(m: seq<Byte>, m2: seq<Byte>, base: nat, size: nat, head: nat, bs: seq<Block>, b: Block, n: nat)
    requires HeapOk(m, base, size, head, bs) && b in Live(bs) && HEADER + n <= b.size
    requires base <= b.addr && SameOutside(m, m2, b.addr + HEADER - base, n)
    ensures HeapOk(m2, base, size, head, bs) && KeepsPayloads(m, m2, base, Live(bs) - {b})
  {
    var j :| 0 <= j < |bs| && bs[j] == b;
    Around(bs, base, base + size, j);
    SameOutsideWider(m, m2, b.addr + HEADER - base, n, b.size - HEADER);
    ClientWritesKeepList(m, m2, base, bs, base, base + size, head, b);
    TilesOrder(bs, base, base + size);
    forall c | c in Live(bs) - {b} ensures Payload(m2, base, c) == Payload(m, base, c) {
      var i :| 0 <= i < |bs| && bs[i] == c;
      PayloadUntouched(m, m2, base, c, b.addr + HEADER - base, n);
    }
  }

  lemma SameOutsideWider(m: seq<Byte>, m2: seq<Byte>, o: nat, n: nat, n2: nat)
    requires SameOutside(m, m2, o, n) && n <= n2
    ensures SameOutside(m, m2, o, n2)
  {
  }

  /** After copying the payload bytes of b to the front of the payload of c. */
  lemma PayloadCopied(m: seq<Byte>, m2: seq<Byte>, base: nat, b: Block, c: Block, n: nat)
    requires base <= b.addr && base <= c.addr && EndOf(b) - base <= |m| && EndOf(c) - base <= |m| && |m2| == |m|
    requires b.size == HEADER + n && HEADER + n <= c.size
    requires var to, from := c.addr + HEADER - base, b.addr + HEADER - base; m2[to..to + n] == m[from..from + n]
    ensures n <= |Payload(m2, base, c)| && Payload(m2, base, c)[..n] == Payload(m, base, b)
  {
    var o := c.addr + HEADER - base;
    PrefixOfSlice(m2, o, EndOf(c) - base, n);
  }

  lemma PrefixOfSlice(m: seq<Byte>, o: nat, e: nat, n: nat)
    requires o + n <= e <= |m|
    ensures m[o..e][..n] == m[o..o + n]
  {
  }

  /** A block c appears, the payload of b is copied to its front, and b goes. */
  lemma MoveDone(m0: seq<Byte>, m1: seq<Byte>, m2: seq<Byte>, m3: seq<Byte>, base: nat, live0: set<Block>,
          live1: set<Block>, b: Block, c: Block, n: nat)
    requires b in live0 && c in live1 && c != b && c !in live0 && live1 - {c} == live0
    requires KeepsPayloads(m0, m1, base, live0) && KeepsPayloads(m1, m2, base, live1 - {c})
    requires KeepsPayloads(m2, m3, base, live1 - {b})
    requires n <= |Payload(m2, base, c)| && Payload(m2, base, c)[..n] == Payload(m1, base, b)
    ensures live1 - {b} == live0 - {b} + {c} && KeepsPayloads(m0, m3, base, live0 - {b})
    ensures Payload(m0, base, b) <= Payload(m3, base, c)
  {
  }
}
