/** The kernel heap as a tiling: a sequence of free and live blocks in address order. First-fit
    allocation, release with coalescing on both sides, growth at the top, and whole runs of them. */
module HeapBlocks {
  import opened Wrappers

  datatype Block = Block(addr: nat, size: nat, free: bool)

  // HEAP_ALIGNMENT is 16 and PAGE_SIZE is 4096 throughout.
  const HEADER: nat := 16      // ALIGN_UP_HEAP(sizeof(size_t))
  const MIN_ALLOC: nat := 16   // sizeof(struct heap_free_block)

  // ---------------------------------------------------------------- the invariant

  function EndOf(b: Block): nat { b.addr + b.size }

  /** The blocks cover [lo, hi) without gaps or overlaps. */
  predicate Tiles(bs: seq<Block>, lo: nat, hi: nat) {
    if bs == [] then lo == hi
    else bs[0].addr == lo && bs[0].size > 0 && Tiles(bs[1..], EndOf(bs[0]), hi)
  }

  /** Every block starts and ends on a 16-byte boundary. */
  ghost predicate Aligned(bs: seq<Block>) { forall b | b in bs :: b.addr % 16 == 0 && b.size % 16 == 0 }

  /** No two free blocks touch. */
  ghost predicate Coalesced(bs: seq<Block>) { forall i | 0 < i < |bs| :: !(bs[i - 1].free && bs[i].free) }

  ghost predicate WellFormed(bs: seq<Block>, lo: nat, hi: nat) { Tiles(bs, lo, hi) && Aligned(bs) && Coalesced(bs) }

  // ---------------------------------------------------------------- tilings

  lemma {:induction false} TilesConcat(a: seq<Block>, b: seq<Block>, lo: nat, mid: nat, hi: nat)
    requires Tiles(a, lo, mid) && Tiles(b, mid, hi)
    ensures Tiles(a + b, lo, hi)
  {
    if a == [] {
      assert a + b == b;
    } else {
      assert (a + b)[1..] == a[1..] + b;
      TilesConcat(a[1..], b, EndOf(a[0]), mid, hi);
    }
  }

  /** A tiling splits at any index. */
  lemma {:induction false} TilesSplit(bs: seq<Block>, lo: nat, hi: nat, k: nat) returns (mid: nat)
    requires Tiles(bs, lo, hi) && k <= |bs|
    ensures Tiles(bs[..k], lo, mid) && Tiles(bs[k..], mid, hi)
    ensures k < |bs| ==> mid == bs[k].addr
    ensures k == |bs| ==> mid == hi
    ensures k > 0 ==> mid == EndOf(bs[k - 1])
  {
    if k == 0 {
      mid := lo;
      assert bs[0..] == bs;
    } else {
      mid := TilesSplit(bs[1..], EndOf(bs[0]), hi, k - 1);
      assert bs[..k][1..] == bs[1..][..k - 1];
      assert bs[1..][k - 1..] == bs[k..];
    }
  }

  /** Blocks of a tiling lie in order, inside the bounds, each of positive size. */
  lemma {:induction false} TilesOrder(bs: seq<Block>, lo: nat, hi: nat)
    requires Tiles(bs, lo, hi)
    ensures lo <= hi
    ensures forall i | 0 <= i < |bs| :: lo <= bs[i].addr && bs[i].size > 0 && EndOf(bs[i]) <= hi
    ensures forall i, j | 0 <= i < j < |bs| :: EndOf(bs[i]) <= bs[j].addr
  {
    if bs != [] { TilesOrder(bs[1..], EndOf(bs[0]), hi); }
  }

  // ---------------------------------------------------------------- sizes

  function SumSizes(bs: seq<Block>, free: bool): nat {
    if bs == [] then 0 else (if bs[0].free == free then bs[0].size else 0) + SumSizes(bs[1..], free)
  }

  /** Free and live bytes add up to the heap. */
  lemma {:induction false} BytesConserved(bs: seq<Block>, lo: nat, hi: nat)
    requires Tiles(bs, lo, hi)
    ensures SumSizes(bs, true) + SumSizes(bs, false) == hi - lo
  {
    if bs != [] { BytesConserved(bs[1..], EndOf(bs[0]), hi); }
  }

  // ---------------------------------------------------------------- live blocks determine the heap

  function Live(bs: seq<Block>): set<Block> { set b | b in bs && !b.free }

  /** Two well-formed heaps over the same region with the same live blocks are the same heap, so the free list
      carries no history. */
  lemma {:induction false} LiveDetermines(bs: seq<Block>, cs: seq<Block>, lo: nat, hi: nat)
    requires WellFormed(bs, lo, hi) && WellFormed(cs, lo, hi) && Live(bs) == Live(cs)
    ensures bs == cs
  {
    TilesOrder(bs, lo, hi);
    TilesOrder(cs, lo, hi);
    if bs == [] || cs == [] { return; }
    FirstBlockSame(bs, cs, lo, hi);
    assert WellFormed(bs[1..], EndOf(bs[0]), hi) && WellFormed(cs[1..], EndOf(bs[0]), hi);
    forall b ensures b in Live(bs[1..]) <==> b in Live(cs[1..]) {
      RestLive(bs, lo, hi, b);
      RestLive(cs, lo, hi, b);
    }
    LiveDetermines(bs[1..], cs[1..], EndOf(bs[0]), hi);
  }

  lemma RestLive(bs: seq<Block>, lo: nat, hi: nat, b: Block)
    requires Tiles(bs, lo, hi) && bs != []
    ensures b in Live(bs[1..]) <==> b in Live(bs) && b != bs[0]
  {
    TilesOrder(bs, lo, hi);
    if b in bs && b != bs[0] {
      var i :| 0 <= i < |bs| && bs[i] == b;
      assert bs[1..][i - 1] == b;
    }
    if b in bs[1..] {
      var i :| 0 <= i < |bs| - 1 && bs[1..][i] == b;
      assert bs[i + 1] == b;
    }
  }

  lemma FirstBlockSame(bs: seq<Block>, cs: seq<Block>, lo: nat, hi: nat)
    requires WellFormed(bs, lo, hi) && WellFormed(cs, lo, hi) && Live(bs) == Live(cs)
    requires bs != [] && cs != []
    ensures bs[0] == cs[0]
  {
    TilesOrder(bs, lo, hi);
    TilesOrder(cs, lo, hi);
    if !bs[0].free {
      var _ := LiveAt(bs, cs, 0);
    } else if !cs[0].free {
      var _ := LiveAt(cs, bs, 0);
    } else {
      FreeFirst(bs, cs, lo, hi);
      FreeFirst(cs, bs, lo, hi);
    }
  }

  /** A live block of one heap is a block of the other. */
  lemma LiveAt(bs: seq<Block>, cs: seq<Block>, i: nat) returns (j: nat)
    requires Live(bs) == Live(cs) && i < |bs| && !bs[i].free
    ensures j < |cs| && cs[j] == bs[i]
  {
    assert bs[i] in Live(cs);
    j :| j < |cs| && cs[j] == bs[i];
  }

  lemma FreeFirst(bs: seq<Block>, cs: seq<Block>, lo: nat, hi: nat)
    requires WellFormed(bs, lo, hi) && WellFormed(cs, lo, hi) && Live(bs) == Live(cs)
    requires bs != [] && cs != [] && bs[0].free && cs[0].free
    ensures cs[0].size <= bs[0].size
  {
    TilesOrder(cs, lo, hi);
    assert Tiles(bs[1..], EndOf(bs[0]), hi);
    if |bs| > 1 {
      assert bs[1..][0] == bs[1];
      var j := LiveAt(bs, cs, 1);
      assert j > 0;
    }
  }

  // ---------------------------------------------------------------- request sizes

  /** ALIGN_UP_HEAP on size_t, which wraps around. */
  function AlignUp(n: nat): nat { (n + 15) % U64 / 16 * 16 }

  /** Bytes taken from the heap for a request of n bytes. */
  function Total(n: nat): (t: nat)
    ensures t % 16 == 0 && t >= MIN_ALLOC
  {
    var t := (AlignUp(n) + HEADER) % U64;
    if t < MIN_ALLOC then MIN_ALLOC else t
  }

  /** The block behind a pointer holds the n bytes asked for exactly when the size arithmetic does not wrap. */
  lemma TotalHoldsRequest(n: nat)
    requires 0 < n < U64
    ensures Total(n) >= HEADER + n <==> n <= U64 - 32
    ensures n <= U64 - 32 ==> Total(n) < HEADER + n + 16
  {
  }

  /** The overflow test of kcalloc is exact. */
  lemma MulOverflows(num: nat, size: nat)
    requires size > 0
    ensures num > (U64 - 1) / size <==> num * size >= U64
  {
    var q := (U64 - 1) / size;
    if num <= q {
      assert num * size <= q * size;
    } else {
      assert num * size >= (q + 1) * size;
    }
  }

  // ---------------------------------------------------------------- operations

  predicate Fits(b: Block, total: nat) { b.free && b.size >= total }

  /** The first free block that is large enough, or the number of blocks. */
  function FirstFit(bs: seq<Block>, total: nat): (k: nat)
    ensures k <= |bs|
    ensures k < |bs| ==> Fits(bs[k], total)
    ensures forall i | 0 <= i < k :: !Fits(bs[i], total)
  {
    if bs == [] || Fits(bs[0], total) then 0 else 1 + FirstFit(bs[1..], total)
  }

  lemma {:induction false} FirstFitIs(bs: seq<Block>, total: nat, k: nat)
    requires k <= |bs| && (forall i | 0 <= i < k :: !Fits(bs[i], total)) && (k < |bs| ==> Fits(bs[k], total))
    ensures FirstFit(bs, total) == k
  {
    if k > 0 { FirstFitIs(bs[1..], total, k - 1); }
  }

  /** The blocks that block b is cut into: what is left over beyond a minimal block stays free. */
  function Cut(b: Block, total: nat): seq<Block>
    requires Fits(b, total)
  {
    if b.size >= total + MIN_ALLOC
    then [Block(b.addr, total, false), Block(b.addr + total, b.size - total, true)]
    else [Block(b.addr, b.size, false)]
  }

  /** Block k is cut, and its first part becomes live. */
  function Carve(bs: seq<Block>, k: nat, total: nat): seq<Block>
    requires k < |bs| && Fits(bs[k], total)
  {
    bs[..k] + Cut(bs[k], total) + bs[k + 1..]
  }

  /** Blocks k and k + 1 become one free block. */
  function Merge(bs: seq<Block>, k: nat): seq<Block>
    requires k + 1 < |bs|
  {
    bs[..k] + [Block(bs[k].addr, bs[k].size + bs[k + 1].size, true)] + bs[k + 2..]
  }

  function MergeNext(bs: seq<Block>, k: nat): seq<Block>
    requires k < |bs|
  {
    if k + 1 < |bs| && bs[k + 1].free then Merge(bs, k) else bs
  }

  function MergePrevious(bs: seq<Block>, k: nat): seq<Block>
    requires k < |bs|
  {
    if k > 0 && bs[k - 1].free then Merge(bs, k - 1) else bs
  }

  /** Joining with the next block leaves the block where it was. */
  lemma MergeNextAt(bs: seq<Block>, k: nat)
    requires k < |bs| && bs[k].free
    ensures var c := MergeNext(bs, k);
            k < |c| && c[..k] == bs[..k] && c[k].addr == bs[k].addr && c[k].free &&
            c[k + 1..] == if k + 1 < |bs| && bs[k + 1].free then bs[k + 2..] else bs[k + 1..]
  {
  }

  lemma MergePreviousAt(bs: seq<Block>, k: nat)
    requires k < |bs|
    ensures var r, i := MergePrevious(bs, k), if k > 0 && bs[k - 1].free then k - 1 else k;
            i < |r| && r[..i] == bs[..i] && r[i + 1..] == bs[k + 1..]
  {
  }

  /** Block k becomes free and is joined with free neighbours on both sides. */
  function Release(bs: seq<Block>, k: nat): seq<Block>
    requires k < |bs|
  {
    MergePrevious(MergeNext(bs[k := bs[k].(free := true)], k), k)
  }

  /** A new region of the given size appears at the top, address hi. */
  function Extend(bs: seq<Block>, hi: nat, bytes: nat): seq<Block> {
    Release(bs + [Block(hi, bytes, false)], |bs|)
  }

  // ---------------------------------------------------------------- what operations keep

  lemma LiveConcat(a: seq<Block>, b: seq<Block>)
    ensures Live(a + b) == Live(a) + Live(b)
  {
  }

  /** bs with blocks [i, j) replaced. */
  function Spliced(bs: seq<Block>, i: nat, j: nat, mid: seq<Block>): seq<Block>
    requires i <= j <= |bs|
  {
    bs[..i] + mid + bs[j..]
  }

  lemma SlicesApart(bs: seq<Block>, lo: nat, hi: nat, i: nat, j: nat, b: Block)
    requires Tiles(bs, lo, hi) && i < j <= |bs| && b in bs[i..j]
    ensures b !in bs[..i] && b !in bs[j..]
  {
    TilesOrder(bs, lo, hi);
    var n :| i <= n < j && bs[n] == b;
  }

  lemma LiveSpliced(bs: seq<Block>, lo: nat, hi: nat, i: nat, j: nat, mid: seq<Block>)
    requires Tiles(bs, lo, hi) && i < j <= |bs|
    ensures Live(Spliced(bs, i, j, mid)) == Live(bs) - Live(bs[i..j]) + Live(mid)
  {
    assert bs == bs[..i] + bs[i..j] + bs[j..];
    forall b ensures b in Live(Spliced(bs, i, j, mid)) <==> b in Live(bs) - Live(bs[i..j]) + Live(mid) {
      if b in bs[i..j] { SlicesApart(bs, lo, hi, i, j, b); }
    }
  }

  lemma TilesSpliced(bs: seq<Block>, lo: nat, hi: nat, i: nat, j: nat, mid: seq<Block>)
    requires Tiles(bs, lo, hi) && i < j <= |bs| && Tiles(mid, bs[i].addr, EndOf(bs[j - 1]))
    ensures Tiles(Spliced(bs, i, j, mid), lo, hi)
  {
    var p := TilesSplit(bs, lo, hi, i);
    var q := TilesSplit(bs, lo, hi, j);
    TilesConcat(bs[..i], mid, lo, p, q);
    TilesConcat(bs[..i] + mid, bs[j..], lo, q, hi);
  }

  /** Replacing blocks [i, j) of a tiling by another tiling of the same stretch. */
  lemma Splice(bs: seq<Block>, lo: nat, hi: nat, i: nat, j: nat, mid: seq<Block>)
    requires Tiles(bs, lo, hi) && Aligned(bs) && i < j <= |bs|
    requires Tiles(mid, bs[i].addr, EndOf(bs[j - 1])) && Aligned(mid)
    ensures Tiles(Spliced(bs, i, j, mid), lo, hi) && Aligned(Spliced(bs, i, j, mid))
    ensures Live(Spliced(bs, i, j, mid)) == Live(bs) - Live(bs[i..j]) + Live(mid)
  {
    TilesSpliced(bs, lo, hi, i, j, mid);
    LiveSpliced(bs, lo, hi, i, j, mid);
  }

  lemma TilesOne(b: Block)
    requires b.size > 0
    ensures Tiles([b], b.addr, EndOf(b))
  {
    assert [b][1..] == [];
  }

  lemma TilesTwo(b: Block, c: Block)
    requires b.size > 0 && c.size > 0 && c.addr == EndOf(b)
    ensures Tiles([b, c], b.addr, EndOf(c))
  {
    assert [b, c][1..] == [c];
    TilesOne(c);
  }

  lemma CutSpec(b: Block, total: nat)
    requires Fits(b, total) && total > 0 && total % 16 == 0 && b.addr % 16 == 0 && b.size % 16 == 0
    ensures Tiles(Cut(b, total), b.addr, EndOf(b)) && Aligned(Cut(b, total))
    ensures Cut(b, total)[0] == Block(b.addr, total, false) && Live(Cut(b, total)) == {Block(b.addr, total, false)}
  {
    hide Tiles;
    if b.size >= total + MIN_ALLOC {
      AlignedSum(b.addr, total);
      AlignedRest(b.size, total);
      TilesTwo(Block(b.addr, total, false), Block(b.addr + total, b.size - total, true));
    } else {
      ExactFit(b.size, total);
      TilesOne(Block(b.addr, b.size, false));
    }
  }

  lemma AlignedRest(a: nat, b: nat)
    requires a % 16 == 0 && b % 16 == 0 && b <= a
    ensures (a - b) % 16 == 0
  {
  }

  /** Sizes are multiples of 16, so a block that is not worth cutting fits exactly. */
  lemma ExactFit(size: nat, total: nat)
    requires size % 16 == 0 && total % 16 == 0 && total <= size < total + MIN_ALLOC
    ensures size == total
  {
  }

  /** Allocation adds exactly one live block, of exactly the computed size, at the place of the first fit. */
  lemma CarveSpec(bs: seq<Block>, lo: nat, hi: nat, k: nat, total: nat)
    requires WellFormed(bs, lo, hi) && k < |bs| && Fits(bs[k], total) && total % 16 == 0 && total > 0
    ensures WellFormed(Carve(bs, k, total), lo, hi)
    ensures Live(Carve(bs, k, total)) == Live(bs) + {Block(bs[k].addr, total, false)}
    ensures forall b | b in Live(bs) :: b.addr != bs[k].addr
    ensures Carve(bs, k, total)[k] == Block(bs[k].addr, total, false)
  {
    hide Tiles, Coalesced;
    var b := bs[k];
    assert b in bs;
    CutSpec(b, total);
    assert bs[k..k + 1] == [b];
    Splice(bs, lo, hi, k, k + 1, Cut(b, total));
    assert Carve(bs, k, total) == Spliced(bs, k, k + 1, Cut(b, total));
    CarveCoalesced(bs, k, total);
    forall c | c in Live(bs) ensures c.addr != b.addr {
      TilesOrder(bs, lo, hi);
    }
  }

  lemma CarveCoalesced(bs: seq<Block>, k: nat, total: nat)
    requires Coalesced(bs) && k < |bs| && Fits(bs[k], total)
    ensures Coalesced(Carve(bs, k, total))
  {
  }

  lemma ReleaseCoalesced(bs: seq<Block>, k: nat)
    requires Coalesced(bs) && k < |bs| && !bs[k].free
    ensures Coalesced(Release(bs, k))
  {
    var b1 := bs[k := bs[k].(free := true)];
    var b2, r := MergeNext(b1, k), Release(bs, k);
    MergeNextAt(b1, k);
    MergePreviousAt(b2, k);
    hide Merge, MergeNext, MergePrevious;
    assert b2[..k] == bs[..k] && (k > 0 ==> b2[k - 1] == bs[k - 1]);
    var i := if k > 0 && bs[k - 1].free then k - 1 else k;
    var j := if k + 1 < |bs| && bs[k + 1].free then k + 2 else k + 1;
    assert r[..i] == bs[..i] && r[i + 1..] == bs[j..];
    CoalescedAround(bs, i, r, j);
  }

  /** One block takes the place of a stretch between live blocks. */
  lemma CoalescedAround(bs: seq<Block>, i: nat, r: seq<Block>, j: nat)
    requires Coalesced(bs) && i < j <= |bs| && i < |r| && r[..i] == bs[..i] && r[i + 1..] == bs[j..]
    requires (i > 0 ==> !bs[i - 1].free) && (j < |bs| ==> !bs[j].free)
    ensures Coalesced(r)
  {
    forall x | 0 < x < |r| ensures !(r[x - 1].free && r[x].free) {
      if x <= i {
        assert r[x - 1] == r[..i][x - 1] && (x < i ==> r[x] == r[..i][x]);
      } else {
        assert r[x] == r[i + 1..][x - i - 1] && (x > i + 1 ==> r[x - 1] == r[i + 1..][x - i - 2]);
      }
    }
  }

  /** Joining two touching free blocks. */
  lemma MergeSpec(bs: seq<Block>, lo: nat, hi: nat, k: nat)
    requires Tiles(bs, lo, hi) && Aligned(bs) && k + 1 < |bs| && bs[k].free && bs[k + 1].free
    ensures Tiles(Merge(bs, k), lo, hi) && Aligned(Merge(bs, k)) && Live(Merge(bs, k)) == Live(bs)
  {
    var b, c := bs[k], bs[k + 1];
    assert b in bs && c in bs;
    Touching(bs, lo, hi, k);
    TilesOne(Block(b.addr, b.size + c.size, true));
    assert bs[k..k + 2] == [b, c];
    Splice(bs, lo, hi, k, k + 2, [Block(b.addr, b.size + c.size, true)]);
  }

  lemma Touching(bs: seq<Block>, lo: nat, hi: nat, k: nat)
    requires Tiles(bs, lo, hi) && k + 1 < |bs|
    ensures bs[k + 1].addr == EndOf(bs[k]) && bs[k].size > 0 && bs[k + 1].size > 0
  {
    TilesOrder(bs, lo, hi);
    var _ := TilesSplit(bs, lo, hi, k + 1);
  }

  lemma FreeBlock(bs: seq<Block>, lo: nat, hi: nat, k: nat)
    requires Tiles(bs, lo, hi) && Aligned(bs) && k < |bs| && !bs[k].free
    ensures var b1 := bs[k := bs[k].(free := true)];
            Tiles(b1, lo, hi) && Aligned(b1) && Live(b1) == Live(bs) - {bs[k]}
  {
    var b := bs[k];
    assert b in bs;
    TilesOrder(bs, lo, hi);
    TilesOne(b.(free := true));
    assert bs[k..k + 1] == [b];
    Splice(bs, lo, hi, k, k + 1, [b.(free := true)]);
    assert bs[k := b.(free := true)] == Spliced(bs, k, k + 1, [b.(free := true)]);
  }

  lemma ReleaseTiles(bs: seq<Block>, lo: nat, hi: nat, k: nat)
    requires Tiles(bs, lo, hi) && Aligned(bs) && k < |bs| && !bs[k].free
    ensures Tiles(Release(bs, k), lo, hi) && Aligned(Release(bs, k))
    ensures Live(Release(bs, k)) == Live(bs) - {bs[k]}
  {
    var b1 := bs[k := bs[k].(free := true)];
    FreeBlock(bs, lo, hi, k);
    var b2 := MergeNext(b1, k);
    if k + 1 < |b1| && b1[k + 1].free { MergeSpec(b1, lo, hi, k); }
    if k > 0 && b2[k - 1].free { MergeSpec(b2, lo, hi, k - 1); }
  }

  /** Release of a live block removes exactly that block from the live ones and leaves no touching free blocks. */
  lemma ReleaseSpec(bs: seq<Block>, lo: nat, hi: nat, k: nat)
    requires WellFormed(bs, lo, hi) && k < |bs| && !bs[k].free
    ensures WellFormed(Release(bs, k), lo, hi)
    ensures Live(Release(bs, k)) == Live(bs) - {bs[k]}
  {
    ReleaseTiles(bs, lo, hi, k);
    ReleaseCoalesced(bs, k);
  }

  lemma AlignedSum(a: nat, b: nat)
    requires a % 16 == 0 && b % 16 == 0
    ensures (a + b) % 16 == 0
  {
  }

  lemma TopTiles(bs: seq<Block>, lo: nat, hi: nat, bytes: nat)
    requires Tiles(bs, lo, hi) && Aligned(bs) && bytes > 0 && bytes % 16 == 0 && hi % 16 == 0
    ensures Tiles(bs + [Block(hi, bytes, false)], lo, hi + bytes) && Aligned(bs + [Block(hi, bytes, false)])
    ensures Live(bs + [Block(hi, bytes, false)]) == Live(bs) + {Block(hi, bytes, false)}
  {
    TilesOne(Block(hi, bytes, false));
    TilesConcat(bs, [Block(hi, bytes, false)], lo, hi, hi + bytes);
    LiveConcat(bs, [Block(hi, bytes, false)]);
  }

  /** Growth keeps the live blocks and covers the larger region. */
  lemma ExtendSpec(bs: seq<Block>, lo: nat, hi: nat, bytes: nat)
    requires WellFormed(bs, lo, hi) && bytes > 0 && bytes % 16 == 0 && hi % 16 == 0
    ensures WellFormed(Extend(bs, hi, bytes), lo, hi + bytes)
    ensures Live(Extend(bs, hi, bytes)) == Live(bs)
  {
    var top := Block(hi, bytes, false);
    TopTiles(bs, lo, hi, bytes);
    TilesOrder(bs, lo, hi);
    ReleaseSpec(bs + [top], lo, hi + bytes, |bs|);
  }
}
