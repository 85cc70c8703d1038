/** Whole runs of the heap: what any sequence of growth, allocation and release keeps. */
module HeapRuns {
  import opened HeapBlocks

  /** The heap region [lo, hi) and its blocks. */
  datatype Heap = Heap(blocks: seq<Block>, lo: nat, hi: nat)

  /** One step: the region grows, a request is served from the free list, the block at an address is released. */
  datatype Op = GrowOp(pages: nat) | AllocOp(total: nat) | FreeOp(addr: nat)

  ghost predicate Good(h: Heap) {
    WellFormed(h.blocks, h.lo, h.hi) && h.lo % 16 == 0 && h.hi % 16 == 0
  }

  /** Index of the live block at an address, or the number of blocks. */
  function IndexOf(bs: seq<Block>, addr: nat): (k: nat)
    ensures k <= |bs|
    ensures k < |bs| ==> bs[k].addr == addr && !bs[k].free
    ensures k == |bs| ==> forall b | b in bs :: b.addr != addr || b.free
  {
    if bs == [] || (bs[0].addr == addr && !bs[0].free) then 0 else 1 + IndexOf(bs[1..], addr)
  }

  function Apply(h: Heap, op: Op): Heap {
    match op
    case GrowOp(pages) =>
      if pages == 0 then h else Heap(Extend(h.blocks, h.hi, pages * 4096), h.lo, h.hi + pages * 4096)
    case AllocOp(total) =>
      var k := FirstFit(h.blocks, total);
      if k < |h.blocks| then h.(blocks := Carve(h.blocks, k, total)) else h
    case FreeOp(addr) =>
      var k := IndexOf(h.blocks, addr);
      if k < |h.blocks| then h.(blocks := Release(h.blocks, k)) else h
  }

  function ApplyAll(h: Heap, ops: seq<Op>): Heap
    decreases |ops|
  {
    if ops == [] then h else ApplyAll(Apply(h, ops[0]), ops[1..])
  }

  /** Requests reach the free list rounded up to the heap's alignment. */
  predicate OpOk(op: Op) { op.AllocOp? ==> op.total % 16 == 0 && op.total > 0 }

  /** What one step does to the live blocks. */
  function LiveAfter(h: Heap, op: Op): set<Block> {
    match op
    case GrowOp(_) => Live(h.blocks)
    case AllocOp(total) =>
      var k := FirstFit(h.blocks, total);
      if k < |h.blocks| then Live(h.blocks) + {Block(h.blocks[k].addr, total, false)} else Live(h.blocks)
    case FreeOp(addr) => set b | b in Live(h.blocks) && b.addr != addr
  }

  lemma LiveAddressesDiffer(h: Heap, k: nat, b: Block)
    requires Good(h) && k < |h.blocks| && !h.blocks[k].free && b in Live(h.blocks) && b.addr == h.blocks[k].addr
    ensures b == h.blocks[k]
  {
    TilesOrder(h.blocks, h.lo, h.hi);
  }

  lemma GrowState(bs: seq<Block>, lo: nat, size: nat, pages: nat, bs2: seq<Block>, size2: nat)
    requires pages > 0 && bs2 == Extend(bs, lo + size, pages * 4096) && size2 == size + pages * 4096
    ensures Heap(bs2, lo, lo + size2) == Apply(Heap(bs, lo, lo + size), GrowOp(pages))
  {
  }

  lemma GrowKeeps(h: Heap, pages: nat)
    requires Good(h) && pages > 0
    ensures Good(Apply(h, GrowOp(pages))) && Live(Apply(h, GrowOp(pages)).blocks) == Live(h.blocks)
  {
    PagesAligned(h.hi, pages);
    ExtendSpec(h.blocks, h.lo, h.hi, pages * 4096);
  }

  lemma PagesAligned(hi: nat, pages: nat)
    requires hi % 16 == 0
    ensures (hi + pages * 4096) % 16 == 0 && pages * 4096 % 16 == 0
  {
    var q, r := hi / 16, pages * 256;
    assert hi == 16 * q && pages * 4096 == 16 * r && hi + pages * 4096 == 16 * (q + r);
  }

  lemma AllocKeeps(h: Heap, total: nat)
    requires Good(h) && total % 16 == 0 && total > 0
    ensures Good(Apply(h, AllocOp(total))) && Live(Apply(h, AllocOp(total)).blocks) == LiveAfter(h, AllocOp(total))
  {
    var k := FirstFit(h.blocks, total);
    if k < |h.blocks| { CarveSpec(h.blocks, h.lo, h.hi, k, total); }
  }

  lemma FreeKeeps(h: Heap, addr: nat)
    requires Good(h)
    ensures Good(Apply(h, FreeOp(addr))) && Live(Apply(h, FreeOp(addr)).blocks) == LiveAfter(h, FreeOp(addr))
  {
    var k := IndexOf(h.blocks, addr);
    if k < |h.blocks| {
      ReleaseSpec(h.blocks, h.lo, h.hi, k);
      forall b | b in Live(h.blocks) && b.addr == addr ensures b == h.blocks[k] {
        LiveAddressesDiffer(h, k, b);
      }
    }
  }

  /** Every step keeps the heap well formed and changes the live blocks as the step says. */
  lemma StepKeeps(h: Heap, op: Op)
    requires Good(h) && OpOk(op)
    ensures Good(Apply(h, op)) && Apply(h, op).lo == h.lo
    ensures Live(Apply(h, op).blocks) == LiveAfter(h, op)
  {
    match op
    case GrowOp(pages) =>
      if pages > 0 { GrowKeeps(h, pages); }
    case AllocOp(total) => AllocKeeps(h, total);
    case FreeOp(addr) => FreeKeeps(h, addr);
  }

  /** Every run keeps the heap well formed: free and live blocks tile the region in 16-byte units and no two
      free blocks touch. */
  lemma {:induction false} RunKeeps(h: Heap, ops: seq<Op>)
    requires Good(h) && forall op | op in ops :: OpOk(op)
    ensures Good(ApplyAll(h, ops)) && ApplyAll(h, ops).lo == h.lo
    decreases |ops|
  {
    if ops != [] {
      StepKeeps(h, ops[0]);
      RunKeeps(Apply(h, ops[0]), ops[1..]);
    }
  }

  /** A run adds nothing to and loses nothing from the region: free bytes and live bytes make up the whole heap. */
  lemma RunConservesBytes(h: Heap, ops: seq<Op>)
    requires Good(h) && forall op | op in ops :: OpOk(op)
    ensures var e := ApplyAll(h, ops); SumSizes(e.blocks, true) + SumSizes(e.blocks, false) == e.hi - e.lo
  {
    RunKeeps(h, ops);
    var e := ApplyAll(h, ops);
    BytesConserved(e.blocks, e.lo, e.hi);
  }

  /** After any run that leaves no live block, one free block covers the whole heap. */
  lemma RunDefragments(h: Heap, ops: seq<Op>)
    requires Good(h) && forall op | op in ops :: OpOk(op)
    requires Live(ApplyAll(h, ops).blocks) == {} && ApplyAll(h, ops).lo < ApplyAll(h, ops).hi
    ensures var e := ApplyAll(h, ops); e.blocks == [Block(e.lo, e.hi - e.lo, true)]
  {
    hide ApplyAll, Good;
    RunKeeps(h, ops);
    NothingLive(ApplyAll(h, ops));
  }

  lemma NothingLive(h: Heap)
    requires Good(h) && Live(h.blocks) == {} && h.lo < h.hi
    ensures h.blocks == [Block(h.lo, h.hi - h.lo, true)]
  {
    var one := Block(h.lo, h.hi - h.lo, true);
    TilesOne(one);
    assert Live([one]) == {};
    LiveDetermines(h.blocks, [one], h.lo, h.hi);
  }

  /** Two runs over the same region that leave the same live blocks leave the same heap, whatever the order of
      their requests. */
  lemma RunsAgree(h: Heap, ops: seq<Op>, ops2: seq<Op>)
    requires Good(h) && (forall op | op in ops :: OpOk(op)) && (forall op | op in ops2 :: OpOk(op))
    requires Live(ApplyAll(h, ops).blocks) == Live(ApplyAll(h, ops2).blocks)
    requires ApplyAll(h, ops).hi == ApplyAll(h, ops2).hi
    ensures ApplyAll(h, ops) == ApplyAll(h, ops2)
  {
    RunKeeps(h, ops);
    RunKeeps(h, ops2);
    LiveDetermines(ApplyAll(h, ops).blocks, ApplyAll(h, ops2).blocks, h.lo, ApplyAll(h, ops).hi);
  }

  /** Releasing what was just allocated restores the heap exactly. */
  lemma FreeUndoesAlloc(h: Heap, total: nat)
    requires Good(h) && total % 16 == 0 && total > 0 && FirstFit(h.blocks, total) < |h.blocks|
    ensures Apply(Apply(h, AllocOp(total)), FreeOp(h.blocks[FirstFit(h.blocks, total)].addr)) == h
  {
    var k := FirstFit(h.blocks, total);
    var a := h.blocks[k].addr;
    CarveSpec(h.blocks, h.lo, h.hi, k, total);
    StepKeeps(h, AllocOp(total));
    var h1 := Apply(h, AllocOp(total));
    StepKeeps(h1, FreeOp(a));
    var h2 := Apply(h1, FreeOp(a));
    assert Live(h2.blocks) == Live(h.blocks);
    assert h1.blocks[k] in h1.blocks;
    LiveDetermines(h2.blocks, h.blocks, h.lo, h.hi);
  }

  // ---------------------------------------------------------------- the retry loop

  /** Size of the free block that ends at the top of the heap. */
  function TopFree(bs: seq<Block>): nat {
    if bs != [] && bs[|bs| - 1].free then bs[|bs| - 1].size else 0
  }

  predicate NoFit(bs: seq<Block>, total: nat) { forall b | b in bs :: !Fits(b, total) }

  lemma NoFirstFit(bs: seq<Block>, total: nat)
    requires FirstFit(bs, total) == |bs|
    ensures NoFit(bs, total)
  {
  }

  /** All blocks of g but the last are blocks of h. */
  predicate SameBelowTop(h: Heap, g: Heap) {
    g.blocks != [] && g.blocks[..|g.blocks| - 1] <= h.blocks
  }

  lemma SameBelowTopTrans(h: Heap, g: Heap, f: Heap)
    requires SameBelowTop(h, g) && SameBelowTop(g, f) && |f.blocks| <= |g.blocks|
    ensures SameBelowTop(h, f)
  {
  }

  /** Growth merges into the free block at the top and leaves every other block alone. */
  lemma GrowRaisesTop(h: Heap, pages: nat)
    requires Good(h) && pages > 0
    ensures var g := Apply(h, GrowOp(pages));
            TopFree(g.blocks) == TopFree(h.blocks) + pages * 4096 && SameBelowTop(h, g) &&
            (TopFree(h.blocks) > 0 ==> |g.blocks| == |h.blocks|)
  {
  }

  function Grown(h: Heap, gs: seq<nat>): Heap {
    if gs == [] then h else Apply(Grown(h, gs[..|gs| - 1]), GrowOp(gs[|gs| - 1]))
  }

  /** The grow steps of one request: before each of them the request did not fit. */
  ghost predicate Retries(h: Heap, gs: seq<nat>, total: nat) {
    gs != [] ==>
      var n := |gs| - 1;
      Retries(h, gs[..n], total) && gs[n] in {1, 16} && NoFit(Grown(h, gs[..n]).blocks, total)
  }

  lemma NoGrowth(h: Heap, total: nat)
    ensures Retries(h, [], total) && Grown(h, []) == h
  {
  }

  lemma {:induction false} GrownKeeps(h: Heap, gs: seq<nat>)
    requires Good(h)
    ensures Good(Grown(h, gs)) && Grown(h, gs).lo == h.lo && Live(Grown(h, gs).blocks) == Live(h.blocks)
  {
    if gs != [] {
      GrownKeeps(h, gs[..|gs| - 1]);
      StepKeeps(Grown(h, gs[..|gs| - 1]), GrowOp(gs[|gs| - 1]));
    }
  }

  lemma {:induction false} RetriesRaiseTop(h: Heap, gs: seq<nat>, total: nat)
    requires Good(h) && Retries(h, gs, total)
    ensures TopFree(Grown(h, gs).blocks) >= TopFree(h.blocks) + |gs| * 4096
    ensures gs != [] ==> NoFit(h.blocks, total) && SameBelowTop(h, Grown(h, gs))
  {
    if gs != [] {
      hide Apply, Good, TopFree, SameBelowTop, NoFit;
      var n := |gs| - 1;
      var g := Grown(h, gs[..n]);
      RetriesRaiseTop(h, gs[..n], total);
      GrownKeeps(h, gs[..n]);
      GrowRaisesTop(g, gs[n]);
      if n > 0 { SameBelowTopTrans(h, g, Apply(g, GrowOp(gs[n]))); }
    }
  }

  /** One more retry. */
  lemma RetryStep(h: Heap, gs: seq<nat>, total: nat, pages: nat)
    requires Good(h) && Retries(h, gs, total) && NoFit(Grown(h, gs).blocks, total) && pages in {1, 16}
    ensures Retries(h, gs + [pages], total) && Grown(h, gs + [pages]) == Apply(Grown(h, gs), GrowOp(pages))
    ensures TopFree(Grown(h, gs + [pages]).blocks) > TopFree(Grown(h, gs).blocks)
    ensures Live(Grown(h, gs).blocks) == Live(h.blocks) && Live(Grown(h, gs + [pages]).blocks) == Live(h.blocks)
  {
    assert (gs + [pages])[..|gs|] == gs;
    GrownKeeps(h, gs);
    GrownKeeps(h, gs + [pages]);
    GrowRaisesTop(Grown(h, gs), pages);
  }

  /** The number of times one request grows the heap is bounded by the bytes missing at the top: each grow but the
      last leaves a top block that is still too small. */
  lemma RetriesBounded(h: Heap, gs: seq<nat>, total: nat)
    requires Good(h) && Retries(h, gs, total) && gs != [] && total > 0
    ensures TopFree(h.blocks) + (|gs| - 1) * 4096 < total
  {
    var n := |gs| - 1;
    RetriesRaiseTop(h, gs[..n], total);
    TopDoesNotFit(Grown(h, gs[..n]).blocks, total);
  }

  lemma TopDoesNotFit(bs: seq<Block>, total: nat)
    requires NoFit(bs, total) && total > 0
    ensures TopFree(bs) < total
  {
    if bs != [] { assert bs[|bs| - 1] in bs; }
  }

  /** A request that had to grow is served from the block at the top of the heap. */
  lemma GrownRequestAtTop(h: Heap, gs: seq<nat>, total: nat, k: nat)
    requires Good(h) && Retries(h, gs, total) && gs != []
    requires k < |Grown(h, gs).blocks| && Fits(Grown(h, gs).blocks[k], total)
    ensures k == |Grown(h, gs).blocks| - 1
  {
    RetriesRaiseTop(h, gs, total);
    NoFitBelowTop(h, Grown(h, gs), total);
  }

  lemma NoFitBelowTop(h: Heap, g: Heap, total: nat)
    requires SameBelowTop(h, g) && NoFit(h.blocks, total)
    ensures forall i | 0 <= i < |g.blocks| - 1 :: !Fits(g.blocks[i], total)
  {
    forall i | 0 <= i < |g.blocks| - 1 ensures !Fits(g.blocks[i], total) {
      assert g.blocks[..|g.blocks| - 1][i] == h.blocks[i];
      assert h.blocks[i] in h.blocks;
    }
  }
}
