/** kmalloc and friends on the bytes of the heap, growing through the page tables. */
module KernelHeap {
  import opened Wrappers
  import opened HeapBlocks
  import opened HeapList
  import opened HeapSurgery
  import opened HeapRuns
  import opened HeapGrowth
  import PT = PageTable
  import Tree = PageTree
  import Vmm

  /** How an attempt to grow the heap ends. */
  datatype GrowResult = Grew | NoMemory | Panic

  /** How an allocation ends; after Halted the kernel has panicked. */
  datatype AllocResult = Pointer(addr: nat) | Null | Halted

  lemma HeapOkGood(m: seq<Byte>, base: nat, size: nat, head: nat, bs: seq<Block>)
    requires HeapOk(m, base, size, head, bs)
    ensures Good(Heap(bs, base, base + size))
  {
    AlignedSum(base, size);
  }

  lemma BlockInHeap(m: seq<Byte>, base: nat, size: nat, head: nat, bs: seq<Block>, b: Block)
    requires HeapOk(m, base, size, head, bs) && b in bs
    ensures base <= b.addr && EndOf(b) <= base + |m| && b.addr % 16 == 0
  {
    var j :| 0 <= j < |bs| && bs[j] == b;
    Around(bs, base, base + size, j);
  }

  lemma LiveHeader(m: seq<Byte>, base: nat, size: nat, head: nat, bs: seq<Block>, b: Block)
    requires HeapOk(m, base, size, head, bs) && b in bs
    ensures base <= b.addr && EndOf(b) <= base + |m| && HEADER <= b.size && Word(m, b.addr - base) == b.size
  {
    var j :| 0 <= j < |bs| && bs[j] == b;
    BlockFacts(m, base, bs, base + size, head, j);
  }

  /** What the bounds, the header and the address of block k let kfree see. */
  lemma LiveAtIndex(m: seq<Byte>, base: nat, size: nat, head: nat, bs: seq<Block>, k: nat)
    requires HeapOk(m, base, size, head, bs)
    ensures base + size <= base + |m|
    ensures k < |bs| ==> base <= bs[k].addr && EndOf(bs[k]) <= base + size && HEADER <= bs[k].size
    ensures k < |bs| ==> bs[k].addr % 16 == 0 && Word(m, bs[k].addr - base) == bs[k].size
  {
    if k < |bs| {
      assert bs[k] in bs;
      BlockFacts(m, base, bs, base + size, head, k);
    }
  }

  lemma BlocksApart(m: seq<Byte>, base: nat, size: nat, head: nat, bs: seq<Block>, b: Block, c: Block)
    requires HeapOk(m, base, size, head, bs) && b in bs && c in bs && b.addr != c.addr
    ensures EndOf(b) <= c.addr || EndOf(c) <= b.addr
  {
    TilesOrder(bs, base, base + size);
    var i :| 0 <= i < |bs| && bs[i] == b;
    var j :| 0 <= j < |bs| && bs[j] == c;
  }

  /** A live block is found at its address. */
  lemma LiveIndex(h: Heap, b: Block)
    requires Good(h) && b in Live(h.blocks)
    ensures IndexOf(h.blocks, b.addr) < |h.blocks| && forall c | c in Live(h.blocks) && c.addr == b.addr :: c == b
  {
    TilesOrder(h.blocks, h.lo, h.hi);
  }

  lemma EmptyHeap(m: seq<Byte>, base: nat)
    requires 0 < base && base + |m| <= U64 && base % 4096 == 0
    ensures HeapOk(m, base, 0, 0, [])
  {
  }

  /** Releasing a new top region leaves the live blocks as they were. */
  lemma TopLive(bs: seq<Block>, base: nat, a: nat, bytes: nat)
    requires Tiles(bs, base, a) && Aligned(bs) && bytes > 0 && bytes % 16 == 0 && a % 16 == 0
    ensures Live(Extend(bs, a, bytes)) == Live(bs)
  {
    var top := Block(a, bytes, false);
    hide Tiles, Aligned, Release;
    TopTiles(bs, base, a, bytes);
    ReleaseTiles(bs + [top], base, a + bytes, |bs|);
    TilesOrder(bs, base, a);
  }

  /** Growing an empty heap leaves one free block. */
  lemma FirstRegion(base: nat, bytes: nat)
    ensures Extend([], base, bytes) == [Block(base, bytes, true)]
  {
  }

  class KHeap {
    const base: nat             // heap_start
    const mem: array<Byte>      // the bytes from heap_start up, as far as the heap can ever grow
    var size: nat               // heap_size
    var head: nat               // free_list_head, 0 for NULL
    ghost var blocks: seq<Block>
    const pm: Vmm.PageMap       // kernel_pagemap

    constructor (pm: Vmm.PageMap, base: nat, capacity: nat)
      requires 0 < base && base + capacity <= U64 && base % 4096 == 0
      ensures this.pm == pm && this.base == base && mem.Length == capacity && fresh(mem)
      ensures size == 0 && blocks == [] && ListOk()
    {
      hide HeapOk;
      this.pm := pm;
      this.base := base;
      mem := new Byte[capacity];
      size, head, blocks := 0, 0, [];
      new;
      EmptyHeap(mem[..], base);
    }

    /** The heap is well formed and its free list is threaded through its memory. */
    ghost predicate ListOk()
      reads this, mem
    {
      HeapOk(mem[..], base, size, head, blocks)
    }

    ghost function State(): Heap
      reads this
    {
      Heap(blocks, base, base + size)
    }

    // -------------------------------------------------------------- words

    method ReadWord(a: nat) returns (w: nat)
      requires base <= a && a - base + 8 <= mem.Length
      ensures w == Word(mem[..], a - base) && w < U64
    {
      var o := a - base;
      w := 0;
      for i := 8 downto 0
        invariant w == Decode(mem[o + i..o + 8])
      {
        w := mem[o + i] + 256 * w;
        assert mem[o + i..o + 8][1..] == mem[o + i + 1..o + 8];
      }
      assert mem[..][o..o + 8] == mem[o..o + 8];
      WordBound(mem[..], o);
    }

    method WriteWord(a: nat, w: nat)
      requires base <= a && a - base + 8 <= mem.Length && w < U64
      modifies mem
      ensures WordWritten(old(mem[..]), mem[..], a - base, w)
    {
      var o, v := a - base, w;
      ghost var target := Encode(w, 8);
      for i := 0 to 8
        invariant forall k | 0 <= k < i :: mem[o + k] == target[k]
        invariant target[i..] == Encode(v, 8 - i)
        invariant forall x | 0 <= x < mem.Length && !(o <= x < o + i) :: mem[x] == old(mem[x])
      {
        EncodeStep(v, 8 - i);
        assert target[i] == target[i..][0] && target[i + 1..] == target[i..][1..];
        mem[o + i] := v % 256;
        v := v / 256;
      }
      assert mem[..][o..o + 8] == target;
      WriteBytes(old(mem[..]), mem[..], o, w);
    }

    /** Writes the header of a free block. */
    method WriteHeader(a: nat, bytes: nat, next: nat)
      requires base <= a && a - base + HEADER <= mem.Length && bytes < U64 && next < U64
      modifies mem
      ensures SameOutside(old(mem[..]), mem[..], a - base, HEADER)
      ensures HeaderOk(mem[..], base, Block(a, bytes, true), next)
    {
      WriteWord(a, bytes);
      ghost var m := mem[..];
      WriteWord(a + 8, next);
      WordUntouched(m, mem[..], a - base + 8, 8, a - base);
    }

    /** The link behind prev, or the list head. */
    method ReadLink(prev: nat) returns (next: nat)
      requires head < U64 && (prev != 0 ==> base <= prev && prev - base + HEADER <= mem.Length)
      ensures next == (if prev == 0 then head else Word(mem[..], prev - base + 8)) && next < U64
    {
      next := head;
      if prev != 0 { next := ReadWord(prev + 8); }
    }

    /** Points the list head or the previous block at a block. */
    method SetLink(prev: nat, target: nat)
      requires prev != 0 ==> base <= prev && prev - base + HEADER <= mem.Length
      requires target < U64
      modifies mem, this`head
      ensures Redirected(old(mem[..]), mem[..], base, old(head), head, prev, target)
    {
      if prev == 0 {
        head := target;
      } else {
        WriteWord(prev + 8, target);
      }
    }

    // -------------------------------------------------------------- inserting and joining blocks

    /** Between the steps of one operation: the blocks tile [base, hi) and are listed, but free blocks may touch. */
    ghost predicate Tiled(hi: nat)
      reads this, mem
    {
      TiledOk(mem[..], base, hi, head, blocks)
    }

    /** Live block k becomes free and enters the list behind prev. */
    method InsertBlock(a: nat, bytes: nat, prev: nat, ghost k: nat, ghost hi: nat)
      requires Tiled(hi) && k < |blocks| && blocks[k] == Block(a, bytes, false) && IsLastFree(blocks[..k], prev)
      modifies mem, this`head, this`blocks
      ensures Tiled(hi) && blocks == old(blocks)[k := Block(a, bytes, true)]
      ensures KeepsPayloads(old(mem[..]), mem[..], base, Live(blocks))
    {
      hide Linked, NextOr, KeepsPayloads, Live, IsLastFree;
      ghost var m := mem[..];
      Around(blocks, base, hi, k);
      FollowLink(m, base, blocks, base, hi, head, k, prev);
      NextBehindLive(blocks, k);
      var next := ReadLink(prev);
      WriteHeader(a, bytes, next);
      ghost var m1 := mem[..];
      SetLink(prev, a);
      InsertListed(m, m1, mem[..], base, blocks, base, hi, k, old(head), head, prev);
      StepKeepsPayloads(m, m1, mem[..], base, blocks, base, hi, k, HEADER, old(head), head, prev, a);
      FreeBlock(blocks, base, hi, k);
      ghost var live := Live(blocks);
      blocks := blocks[k := Block(a, bytes, true)];
      KeepsPayloadsFewer(m, mem[..], base, live, Live(blocks));
    }

    /** Joins two touching free blocks. */
    method MergeBlocks(x: nat, y: nat, ghost k: nat, ghost hi: nat)
      requires Tiled(hi) && k + 1 < |blocks| && blocks[k].free && blocks[k + 1].free
      requires x == blocks[k].addr && y == blocks[k + 1].addr
      modifies mem, this`blocks
      ensures Tiled(hi) && blocks == Merge(old(blocks), k) && Live(blocks) == Live(old(blocks))
      ensures KeepsPayloads(old(mem[..]), mem[..], base, Live(blocks))
    {
      hide Linked, NextOr, Merge, KeepsPayloads, Live, Tiles, Aligned;
      ghost var m := mem[..];
      Around(blocks, base, hi, k);
      Around(blocks, base, hi, k + 1);
      BlockListed(m, base, blocks, head, k);
      BlockListed(m, base, blocks, head, k + 1);
      var bytes := ReadWord(x);
      var more := ReadWord(y);
      var next := ReadWord(y + 8);
      WriteHeader(x, bytes + more, next);
      MergeListed(m, mem[..], base, blocks, base, hi, k, head);
      PayloadsKept(m, mem[..], base, blocks, base, hi, k, x - base, HEADER);
      MergeSpec(blocks, base, hi, k);
      blocks := Merge(blocks, k);
    }

    /** Joins free block k with a free block behind it. */
    method CoalesceNext(a: nat, ghost k: nat, ghost hi: nat)
      requires Tiled(hi) && k < |blocks| && blocks[k].free && a == blocks[k].addr
      modifies mem, this`blocks
      ensures Tiled(hi) && blocks == MergeNext(old(blocks), k) && Live(blocks) == Live(old(blocks))
      ensures KeepsPayloads(old(mem[..]), mem[..], base, Live(blocks))
    {
      Around(blocks, base, hi, k);
      BlockListed(mem[..], base, blocks, head, k);
      NextTouches(blocks, base, hi, k);
      var next := ReadWord(a + 8);
      var bytes := ReadWord(a);
      if next != 0 && a + bytes == next { MergeBlocks(a, next, k, hi); }
    }

    /** Joins free block k with a free block before it. */
    method CoalescePrevious(a: nat, prev: nat, ghost k: nat, ghost hi: nat)
      requires Tiled(hi) && k < |blocks| && blocks[k].free && a == blocks[k].addr && IsLastFree(blocks[..k], prev)
      modifies mem, this`blocks
      ensures Tiled(hi) && blocks == MergePrevious(old(blocks), k) && Live(blocks) == Live(old(blocks))
      ensures KeepsPayloads(old(mem[..]), mem[..], base, Live(blocks))
    {
      PreviousTouches(mem[..], base, blocks, base, hi, head, k, prev);
      if prev != 0 {
        var before := ReadWord(prev);
        if prev + before == a { MergeBlocks(prev, a, k - 1, hi); }
      }
    }

    /** Frees live block k: inserts it behind prev and joins it with its free neighbours. */
    method ReleaseBlock(a: nat, bytes: nat, prev: nat, ghost k: nat, ghost hi: nat)
      requires Tiled(hi) && k < |blocks| && blocks[k] == Block(a, bytes, false) && IsLastFree(blocks[..k], prev)
      modifies mem, this`head, this`blocks
      ensures Tiled(hi) && blocks == Release(old(blocks), k)
      ensures KeepsPayloads(old(mem[..]), mem[..], base, Live(blocks))
    {
      hide TiledOk, MergeNext, MergePrevious, IsLastFree, KeepsPayloads, Live;
      ghost var m := mem[..];
      InsertBlock(a, bytes, prev, k, hi);
      ghost var m1, live := mem[..], Live(blocks);
      assert blocks[..k] == old(blocks)[..k];
      MergeNextAt(blocks, k);
      CoalesceNext(a, k, hi);
      ghost var m2 := mem[..];
      CoalescePrevious(a, prev, k, hi);
      KeepsPayloadsTrans(m, m1, m2, base, live);
      KeepsPayloadsTrans(m, m2, mem[..], base, live);
    }

    // -------------------------------------------------------------- searching the list

    /** First fit. */
    method FindFit(total: nat, ghost hi: nat) returns (prev: nat, cur: nat, ghost k: nat)
      requires Tiled(hi)
      ensures k == FirstFit(blocks, total) && IsLastFree(blocks[..k], prev)
      ensures cur == if k < |blocks| then blocks[k].addr else 0
    {
      hide Linked, NextOr;
      AddressesPositive(blocks, base, hi);
      prev, cur := 0, head;
      k := CursorStart(blocks);
      while cur != 0
        invariant Cursor(blocks, k, prev, cur)
        invariant forall i | 0 <= i < k :: !Fits(blocks[i], total)
        decreases |blocks| - k
      {
        BlockListed(mem[..], base, blocks, head, k);
        var bytes := ReadWord(cur);
        if bytes >= total {
          FirstFitIs(blocks, total, k);
          return;
        }
        ghost var j := CursorStep(blocks, k, prev, cur);
        prev := cur;
        cur := ReadWord(cur + 8);
        k := j;
      }
      FirstFitIs(blocks, total, k);
    }

    /** The last free block below address a, which is that of live block q. */
    method FindPlace(a: nat, ghost q: nat, ghost hi: nat) returns (prev: nat)
      requires Tiled(hi) && q < |blocks| && !blocks[q].free && blocks[q].addr == a
      ensures IsLastFree(blocks[..q], prev)
    {
      AddressesPositive(blocks, base, hi);
      var cur: nat := head;
      prev := 0;
      ghost var k: nat := CursorStart(blocks);
      while cur != 0 && cur < a
        invariant Cursor(blocks, k, prev, cur)
        invariant forall i | 0 <= i < k && blocks[i].free :: blocks[i].addr < a
        decreases |blocks| - k
      {
        BlockListed(mem[..], base, blocks, head, k);
        ghost var j := CursorStep(blocks, k, prev, cur);
        prev := cur;
        cur := ReadWord(cur + 8);
        k := j;
      }
      CursorPlace(blocks, base, hi, k, prev, cur, q);
    }

    // -------------------------------------------------------------- carving

    /** Writes the headers of a block cut in two: the live part, and the free rest behind it. */
    method CutHeaders(cur: nat, total: nat, bytes: nat, next: nat)
      requires base <= cur && HEADER <= total <= bytes < U64 && cur - base + total + HEADER <= mem.Length && next < U64
      modifies mem
      ensures SameOutside(old(mem[..]), mem[..], cur - base, total + HEADER)
      ensures HeaderOk(mem[..], base, Block(cur, total, false), 0)
      ensures HeaderOk(mem[..], base, Block(cur + total, bytes - total, true), next)
    {
      WriteHeader(cur + total, bytes - total, next);
      ghost var m := mem[..];
      WriteWord(cur, total);
      HeaderUntouched(m, mem[..], base, Block(cur + total, bytes - total, true), next, cur - base, 8);
    }

    /** Hands out the first total bytes of free block k, which has room for another block behind them. */
    method CutBlock(cur: nat, total: nat, prev: nat, ghost k: nat, ghost hi: nat)
      requires Tiled(hi) && k < |blocks| && blocks[k].free && blocks[k].size >= total + MIN_ALLOC
      requires cur == blocks[k].addr
      requires total % 16 == 0 && total > 0 && IsLastFree(blocks[..k], prev)
      modifies mem, this`head
      ensures Listed(mem[..], base, Carve(blocks, k, total), head) && head < U64
      ensures KeepsPayloads(old(mem[..]), mem[..], base, Live(blocks))
    {
      hide Linked, Carve, KeepsPayloads, Tiles, Aligned, NextOr, Live, IsLastFree, SameOutside, Redirected;
      ghost var m := mem[..];
      BlockFacts(m, base, blocks, hi, head, k);
      LastFreeInMemory(m, base, blocks, hi, head, k, prev);
      var bytes := ReadWord(cur);
      var next := ReadWord(cur + 8);
      CutHeaders(cur, total, bytes, next);
      ghost var m1 := mem[..];
      SetLink(prev, cur + total);
      CutDone(m, m1, mem[..], base, blocks, base, hi, k, total, old(head), head, prev);
    }

    /** Hands out free block k whole. */
    method TakeBlock(cur: nat, total: nat, prev: nat, ghost k: nat, ghost hi: nat)
      requires Tiled(hi) && k < |blocks| && Fits(blocks[k], total) && blocks[k].size < total + MIN_ALLOC
      requires cur == blocks[k].addr
      requires IsLastFree(blocks[..k], prev)
      modifies mem, this`head
      ensures Listed(mem[..], base, Carve(blocks, k, total), head) && head < U64
      ensures KeepsPayloads(old(mem[..]), mem[..], base, Live(blocks))
    {
      ghost var m := mem[..];
      Around(blocks, base, hi, k);
      BlockListed(m, base, blocks, head, k);
      var next := ReadWord(cur + 8);
      SetLink(prev, next);
      TakeListed(m, mem[..], base, blocks, base, hi, k, total, old(head), head, prev);
      RedirectKeepsPayloads(m, mem[..], base, blocks, base, hi, k, old(head), head, prev, next);
    }

    /** Serves a request of total bytes from free block k. */
    method CarveBlock(cur: nat, total: nat, prev: nat, ghost k: nat, ghost hi: nat)
      requires Tiled(hi) && k < |blocks| && Fits(blocks[k], total) && cur == blocks[k].addr
      requires total % 16 == 0 && total > 0 && IsLastFree(blocks[..k], prev)
      modifies mem, this`head, this`blocks
      ensures head < U64 && Listed(mem[..], base, blocks, head) && blocks == Carve(old(blocks), k, total)
      ensures KeepsPayloads(old(mem[..]), mem[..], base, Live(old(blocks)))
    {
      BlockListed(mem[..], base, blocks, head, k);
      var bytes := ReadWord(cur);
      if bytes >= total + MIN_ALLOC {
        CutBlock(cur, total, prev, k, hi);
      } else {
        TakeBlock(cur, total, prev, k, hi);
      }
      blocks := Carve(blocks, k, total);
    }

    // -------------------------------------------------------------- growing

    /** Puts the header of a new top region in place. */
    method PlaceRegion(bytes: nat, ghost hi: nat)
      requires Tiled(hi) && hi == base + size && hi % 16 == 0
      requires bytes > 0 && bytes % 16 == 0 && hi + bytes <= base + mem.Length
      modifies mem, this`blocks
      ensures Tiled(hi + bytes) && blocks == old(blocks) + [Block(hi, bytes, false)]
      ensures HeaderOk(mem[..], base, Block(hi, bytes, true), 0)
      ensures KeepsPayloads(old(mem[..]), mem[..], base, Live(old(blocks)))
    {
      ghost var m := mem[..];
      BlocksBelow(blocks, base, hi);
      TopTiles(blocks, base, hi, bytes);
      WriteHeader(base + size, bytes, 0);
      AppendListed(m, mem[..], base, blocks, hi, head, bytes);
      AboveKeepsPayloads(m, mem[..], base, blocks, base, hi, HEADER);
      blocks := blocks + [Block(hi, bytes, false)];
    }

    /** Enters the top region into the list. */
    method ReleaseRegion(a: nat, bytes: nat, ghost bs: seq<Block>)
      requires Tiled(a + bytes) && Tiles(bs, base, a) && Aligned(bs) && blocks == bs + [Block(a, bytes, false)]
      requires bytes > 0 && bytes % 16 == 0 && a % 16 == 0 && HeaderOk(mem[..], base, Block(a, bytes, true), 0)
      modifies mem, this`head, this`blocks
      ensures Listed(mem[..], base, blocks, head) && head < U64 && blocks == Extend(bs, a, bytes)
      ensures KeepsPayloads(old(mem[..]), mem[..], base, Live(bs))
    {
      if head == 0 {
        FirstFreeBlock(mem[..], base, bs, a, bytes);
        head := a;
        blocks := Extend(bs, a, bytes);
      } else {
        TopLive(bs, base, a, bytes);
        hide TiledOk, KeepsPayloads, Release, Live;
        var prev := FindPlace(a, |bs|, a + bytes);
        ReleaseBlock(a, bytes, prev, |bs|, a + bytes);
      }
    }

    /** A new region of the given size appears at the top and is released into the list. */
    method AddRegion(bytes: nat)
      requires ListOk() && bytes > 0 && bytes % 16 == 0 && size + bytes <= mem.Length
      modifies mem, this`head, this`size, this`blocks
      ensures ListOk() && size == old(size) + bytes
      ensures blocks == Extend(old(blocks), old(base + size), bytes)
      ensures KeepsPayloads(old(mem[..]), mem[..], base, Live(old(blocks)))
    {
      hide Extend, Tiles, Aligned, Coalesced, Listed, KeepsPayloads, Live, HeaderOk;
      ghost var bs := blocks;
      var a := base + size;
      ExtendSpec(bs, base, a, bytes);
      AlignedSum(size, bytes);
      ghost var m := mem[..];
      PlaceRegion(bytes, a);
      ghost var m1 := mem[..];
      ReleaseRegion(a, bytes, bs);
      KeepsPayloadsTrans(m, m1, mem[..], base, Live(bs));
      ghost var after := blocks;
      size := size + bytes;
      assert blocks == after;
    }

    /** The page tables are in order, and the heap can only grow by frames that are still free. */
    ghost predicate PagesOk()
      reads this, pm, pm.ram.Values
    {
      Separate() && pm.Valid() && size + |pm.free| * 4096 <= mem.Length && (base + size) % 4096 == 0
    }

    /** The heap's bytes are not the memory of the page tables. */
    ghost predicate Separate() { forall p | p in pm.ram :: pm.ram[p] as object != mem as object }

    ghost predicate Valid()
      reads this, mem, pm, pm.ram.Values
    {
      ListOk() && PagesOk()
    }

    /** Maps one heap page to a fresh frame. */
    method MapFreshPage(v: nat) returns (r: GrowResult, ghost p: PT.Frame)
      requires pm.Valid()
      modifies pm`free, pm`tables, pm`mem, pm`refusals, pm.ram.Values
      ensures pm.Valid()
      ensures r == Grew ==> PageAdded(old(pm.mem), old(pm.free), pm.mem, pm.free, pm.topLevel, v, p)
      ensures r == NoMemory ==> pm.free == old(pm.free) && Tree.SameWalks(old(pm.mem), pm.mem, pm.topLevel)
      ensures pm.refusals == old(pm.refusals) + if r == Grew then 0 else 1
    {
      p := PT.Frame(0);
      var frame := pm.AllocateData();
      if frame == None { return NoMemory, p; }
      p := frame.value;
      var ok := pm.MapPage(v, frame.value.addr, HEAP_FLAGS);
      r := if ok then Grew else Panic;
    }

    /** Backs the pages above the heap with fresh frames. */
    method MapRegion(v: nat, pages: nat) returns (r: GrowResult, ghost frames: seq<PT.Frame>)
      requires pm.Valid() && v % 4096 == 0 && pages < 0x1_0000_0000
      modifies pm`free, pm`tables, pm`mem, pm`refusals, pm.ram.Values
      ensures pm.Valid()
      ensures r != Panic ==> Backed(old(pm.mem), old(pm.free), pm.mem, pm.free, pm.topLevel, v, frames)
      ensures r != Panic ==> |pm.free| + |frames| <= |old(pm.free)|
      ensures r == Grew ==> |frames| == pages
      ensures pm.refusals == old(pm.refusals) + if r == Grew then 0 else 1
    {
      ghost var m0, free0 := pm.mem, pm.free;
      frames := [];
      BackedNone(m0, free0, pm.topLevel, v);
      hide Vmm.PageMap.Valid, Backed, PageAdded;
      for i := 0 to pages
        invariant pm.Valid() && |frames| == i && |pm.free| + i <= |free0| && pm.refusals == old(pm.refusals)
        invariant Backed(m0, free0, pm.mem, pm.free, pm.topLevel, v, frames)
      {
        ghost var m1, free1 := pm.mem, pm.free;
        ghost var p;
        r, p := MapFreshPage(PT.PageAddr(v, i));
        if r == Panic { return; }
        if r == NoMemory {
          BackedStays(m0, free0, m1, free1, pm.mem, pm.topLevel, v, frames);
          return;
        }
        BackedGrows(m0, free0, m1, free1, pm.mem, pm.free, pm.topLevel, v, frames, i, p);
        frames := frames + [p];
      }
      r := Grew;
    }

    /** Grows the heap at the top. On failure the heap is as it was, even if some pages were already mapped. */
    method HeapGrowPages(pages: nat) returns (r: GrowResult, ghost frames: seq<PT.Frame>)
      requires Valid() && pages < 0x1_0000_0000
      modifies mem, this`head, this`size, this`blocks, pm`free, pm`tables, pm`mem, pm`refusals, pm.ram.Values
      ensures r != Panic ==> Valid()
      ensures r != Grew ==> ListOk() && blocks == old(blocks) && size == old(size)
      ensures r != Grew ==> mem[..] == old(mem[..]) && head == old(head)
      ensures pages == 0 ==> r == NoMemory
      ensures pages > 0 ==> pm.refusals == old(pm.refusals) + if r == Grew then 0 else 1
      ensures r == Grew ==> size == old(size) + pages * 4096
      ensures r == Grew ==> blocks == Extend(old(blocks), old(base + size), pages * 4096)
      ensures r == Grew ==> KeepsPayloads(old(mem[..]), mem[..], base, Live(old(blocks)))
      ensures r == Grew ==> |frames| == pages
      ensures r == Grew ==>
                Backed(old(pm.mem), old(pm.free), pm.mem, pm.free, pm.topLevel, old(base + size), frames)
    {
      hide Vmm.PageMap.Valid, TiledOk, Backed, Extend;
      frames := [];
      if pages == 0 { return NoMemory, frames; }
      assert Separate();
      r, frames := MapRegion(base + size, pages);
      assert ListOk();
      if r != Grew { return; }
      ghost var m, free := pm.mem, pm.free;
      PagesAligned(size, pages);
      AddRegion(pages * 4096);
      assert pm.mem == m && pm.free == free && pm.Valid();
    }

    /** Grows the heap by sixteen pages, or failing that by one. */
    method GrowForRequest() returns (r: GrowResult, ghost pages: nat)
      requires Valid()
      modifies mem, this`head, this`size, this`blocks, pm`free, pm`tables, pm`mem, pm`refusals, pm.ram.Values
      ensures r != Panic ==> Valid()
      ensures r == NoMemory ==> State() == old(State()) && mem[..] == old(mem[..])
      ensures r == Grew ==> pages in {1, 16} && State() == Apply(old(State()), GrowOp(pages))
      ensures pm.refusals >= old(pm.refusals) && (r != Grew ==> pm.refusals > old(pm.refusals))
      ensures r == Grew ==> KeepsPayloads(old(mem[..]), mem[..], base, Live(old(blocks)))
    {
      hide Vmm.PageMap.Valid, TiledOk, Backed, Extend;
      ghost var bs, n, frames := blocks, size, [];
      pages := 16;
      r, frames := HeapGrowPages(16);
      if r == NoMemory {
        pages := 1;
        r, frames := HeapGrowPages(1);
      }
      if r == Grew { GrowState(bs, base, n, pages, blocks, size); }
    }

    // -------------------------------------------------------------- kmalloc

    /** Serves a request from the free list, if a block fits; 0 stands for none. */
    method AllocateFit(total: nat) returns (cur: nat)
      requires ListOk() && total % 16 == 0 && total > 0
      modifies mem, this`head, this`blocks
      ensures ListOk() && State() == Apply(old(State()), AllocOp(total))
      ensures KeepsPayloads(old(mem[..]), mem[..], base, Live(old(blocks)))
      ensures cur == 0 ==> State() == old(State())
      ensures var k := FirstFit(old(blocks), total);
              if cur == 0 then k == |old(blocks)| else k < |old(blocks)| && cur == old(blocks)[k].addr
    {
      ghost var hi := base + size;
      ghost var k;
      var prev;
      AddressesPositive(blocks, base, hi);
      prev, cur, k := FindFit(total, hi);
      if cur != 0 {
        CarveSpec(blocks, base, hi, k, total);
        CarveBlock(cur, total, prev, k, hi);
      }
    }

    /** Allocates n bytes behind a 16-byte header: first fit, growing the heap as long as nothing fits. gs are the
        sizes, in pages, by which it grew. It fails only if the frame allocator has refused a frame. */
    method Kmalloc(n: nat) returns (r: AllocResult, ghost gs: seq<nat>)
      requires Valid() && n < U64
      modifies mem, this`head, this`size, this`blocks, pm`free, pm`tables, pm`mem, pm`refusals, pm.ram.Values
      ensures r != Halted ==> Valid() && Retries(old(State()), gs, Total(n))
      ensures r != Halted ==> KeepsPayloads(old(mem[..]), mem[..], base, Live(old(blocks)))
      ensures n == 0 ==> r == Null && gs == [] && mem[..] == old(mem[..]) && blocks == old(blocks)
      ensures r == Null ==> State() == Grown(old(State()), gs) && (n > 0 ==> NoFit(blocks, Total(n)))
      ensures n > 0 && !r.Pointer? ==> pm.refusals > old(pm.refusals)
      ensures r.Pointer? ==>
                var h := Grown(old(State()), gs);
                var k := FirstFit(h.blocks, Total(n));
                k < |h.blocks| && r.addr == h.blocks[k].addr + HEADER && State() == Apply(h, AllocOp(Total(n)))
    {
      hide Vmm.PageMap.Valid, TiledOk, Backed, Extend, Apply, Retries, Total, KeepsPayloads, NoFit, TopFree, Grown;
      gs := [];
      var total := Total(n);
      ghost var h0 := State();
      ghost var live0, m0 := Live(blocks), mem[..];
      PayloadsSame(m0, base, live0);
      NoGrowth(h0, total);
      if n == 0 { return Null, gs; }
      HeapOkGood(mem[..], base, size, head, blocks);
      while true
        invariant Valid() && State() == Grown(h0, gs) && Retries(h0, gs, total)
        invariant Live(blocks) == live0 && KeepsPayloads(m0, mem[..], base, live0) && pm.refusals >= old(pm.refusals)
        decreases if TopFree(blocks) < total then total - TopFree(blocks) else 0
      {
        ghost var m1 := mem[..];
        var cur := AllocateFit(total);
        KeepsPayloadsTrans(m0, m1, mem[..], base, live0);
        if cur != 0 { return Pointer(cur + HEADER), gs; }
        ghost var m2 := mem[..];
        NoFirstFit(blocks, total);
        TopDoesNotFit(blocks, total);
        var grown;
        ghost var pages;
        grown, pages := GrowForRequest();
        if grown == Panic { return Halted, gs; }
        if grown == NoMemory { return Null, gs; }
        KeepsPayloadsTrans(m0, m2, mem[..], base, live0);
        RetryStep(h0, gs, total, pages);
        gs := gs + [pages];
      }
    }

    // -------------------------------------------------------------- kfree

    /** The block address behind a pointer, computed on size_t. */
    function BlockStart(ptr: nat): nat { (ptr + U64 - HEADER) % U64 }

    /** What callers may pass: NULL, a pointer to a live block, or a pointer that the checks catch. */
    ghost predicate FreeArg(ptr: nat)
      reads this
    {
      var a := BlockStart(ptr);
      ptr == 0 || a < base || base + size <= a || IndexOf(blocks, a) < |blocks| ||
      (a % 16 != 0 && a + 8 <= base + mem.Length)
    }

    /** Frees the block behind ptr; false stands for a panic, which leaves the heap as it was. */
    method Kfree(ptr: nat) returns (ok: bool)
      requires ListOk() && ptr < U64 && FreeArg(ptr)
      modifies mem, this`head, this`blocks
      ensures ListOk() && KeepsPayloads(old(mem[..]), mem[..], base, Live(blocks))
      ensures ok <==> ptr == 0 || old(IndexOf(blocks, BlockStart(ptr)) < |blocks|)
      ensures State() == if ptr != 0 && ok then Apply(old(State()), FreeOp(BlockStart(ptr))) else old(State())
    {
      hide TiledOk, Release, KeepsPayloads;
      PayloadsSame(mem[..], base, Live(blocks));
      if ptr == 0 { return true; }
      var a := BlockStart(ptr);
      ghost var k := IndexOf(blocks, a);
      LiveAtIndex(mem[..], base, size, head, blocks, k);
      if a < base || a >= base + size { return false; }
      var bytes := ReadWord(a);
      if bytes < MIN_ALLOC { return false; }
      if a % 16 != 0 { return false; }
      ReleaseLive(a, bytes, k);
      return true;
    }

    /** Frees live block k. */
    method ReleaseLive(a: nat, bytes: nat, ghost k: nat)
      requires ListOk() && k < |blocks| && blocks[k] == Block(a, bytes, false)
      modifies mem, this`head, this`blocks
      ensures ListOk() && blocks == Release(old(blocks), k)
      ensures KeepsPayloads(old(mem[..]), mem[..], base, Live(blocks))
    {
      hide Release, KeepsPayloads;
      ghost var hi := base + size;
      ReleaseSpec(blocks, base, hi, k);
      var prev := FindPlace(a, k, hi);
      ReleaseBlock(a, bytes, prev, k, hi);
    }

    // -------------------------------------------------------------- kcalloc

    method Memset0(a: nat, n: nat)
      requires base <= a && a - base + n <= mem.Length
      modifies mem
      ensures SameOutside(old(mem[..]), mem[..], a - base, n)
      ensures forall x | a - base <= x < a - base + n :: mem[x] == 0
    {
      var o := a - base;
      for i := 0 to n
        invariant forall x | o <= x < o + i :: mem[x] == 0
        invariant forall x | 0 <= x < mem.Length && !(o <= x < o + i) :: mem[x] == old(mem[x])
      {
        mem[o + i] := 0;
      }
    }

    /** The new live block behind a pointer that kmalloc returned. */
    lemma FreshBlock(h: Heap, total: nat, addr: nat)
      requires Good(h) && total % 16 == 0 && total > 0
      requires var k := FirstFit(h.blocks, total); k < |h.blocks| && addr == h.blocks[k].addr
      ensures Block(addr, total, false) in Live(Apply(h, AllocOp(total)).blocks)
      ensures Live(Apply(h, AllocOp(total)).blocks) - {Block(addr, total, false)} == Live(h.blocks)
      ensures forall b | b in Live(h.blocks) :: b.addr != addr
    {
      CarveSpec(h.blocks, h.lo, h.hi, FirstFit(h.blocks, total), total);
    }

    /** kmalloc, told by its effect on the live blocks: one more, large enough, and the others untouched. */
    method KmallocBlock(n: nat) returns (r: AllocResult)
      requires Valid() && n < U64
      modifies mem, this`head, this`size, this`blocks, pm`free, pm`tables, pm`mem, pm`refusals, pm.ram.Values
      ensures r != Halted ==> Valid() && KeepsPayloads(old(mem[..]), mem[..], base, Live(old(blocks)))
      ensures r == Null ==> Live(blocks) == Live(old(blocks))
      ensures n == 0 ==> r == Null && mem[..] == old(mem[..]) && blocks == old(blocks)
      ensures n > 0 && !r.Pointer? ==> pm.refusals > old(pm.refusals)
      ensures r.Pointer? ==>
                n > 0 && r.addr >= base + HEADER && r.addr % 16 == 0 &&
                var b := Block(r.addr - HEADER, Total(n), false);
                b in Live(blocks) && Live(blocks) - {b} == Live(old(blocks)) &&
                forall c | c in Live(old(blocks)) :: c.addr != b.addr
    {
      hide Vmm.PageMap.Valid, HeapOk, TiledOk, Apply, Grown, Retries, NoFit, Total, FirstFit, KeepsPayloads;
      ghost var h := State();
      HeapOkGood(mem[..], base, size, head, blocks);
      ghost var gs;
      r, gs := Kmalloc(n);
      GrownKeeps(h, gs);
      if r.Pointer? {
        FreshBlock(Grown(h, gs), Total(n), r.addr - HEADER);
        BlockInHeap(mem[..], base, size, head, blocks, Block(r.addr - HEADER, Total(n), false));
      }
    }

    /** Allocates num * size bytes, all zero. */
    method Kcalloc(num: nat, size': nat) returns (r: AllocResult)
      requires Valid() && num < U64 && size' < U64
      requires num * size' <= U64 - 32 || num * size' >= U64
      modifies mem, this`head, this`size, this`blocks, pm`free, pm`tables, pm`mem, pm`refusals, pm.ram.Values
      ensures r != Halted ==> Valid() && KeepsPayloads(old(mem[..]), mem[..], base, Live(old(blocks)))
      ensures num * size' == 0 || num * size' >= U64 ==> r == Null && mem[..] == old(mem[..]) && blocks == old(blocks)
      ensures r == Null ==> Live(blocks) == Live(old(blocks))
      ensures 0 < num * size' < U64 && !r.Pointer? ==> pm.refusals > old(pm.refusals)
      ensures r.Pointer? ==>
                r.addr >= base + HEADER && var b := Block(r.addr - HEADER, Total(num * size'), false);
                b in Live(blocks) && Live(blocks) - {b} == Live(old(blocks)) &&
                num * size' <= |Payload(mem[..], base, b)| &&
                forall x | 0 <= x < num * size' :: Payload(mem[..], base, b)[x] == 0
    {
      hide Vmm.PageMap.Valid;
      if size' != 0 { MulOverflows(num, size'); }
      if size' != 0 && num > (U64 - 1) / size' { return Null; }
      var total := num * size';
      r := KmallocBlock(total);
      if r.Pointer? {
        TotalHoldsRequest(total);
        ghost var m, b := mem[..], Block(r.addr - HEADER, Total(total), false);
        BlockInHeap(m, base, size, head, blocks, b);
        Memset0(r.addr, total);
        ClientWrite(m, mem[..], base, size, head, blocks, b, total);
      }
    }

    // -------------------------------------------------------------- krealloc

    method Memcpy(dst: nat, src: nat, n: nat)
      requires base <= dst && dst - base + n <= mem.Length && base <= src && src - base + n <= mem.Length
      requires dst + n <= src || src + n <= dst
      modifies mem
      ensures SameOutside(old(mem[..]), mem[..], dst - base, n)
      ensures mem[..][dst - base..dst - base + n] == old(mem[..])[src - base..src - base + n]
    {
      var d, s := dst - base, src - base;
      for i := 0 to n
        invariant forall x | d <= x < d + i :: mem[x] == old(mem[..])[x - d + s]
        invariant forall x | 0 <= x < mem.Length && !(d <= x < d + i) :: mem[x] == old(mem[x])
      {
        mem[d + i] := mem[s + i];
      }
      CopiedSlice(old(mem[..]), mem[..], d, s, n);
    }

    /** kfree of a live block, told by its effect on the live blocks. */
    method KfreeBlock(ptr: nat, ghost b: Block)
      requires ListOk() && HEADER <= ptr < U64 && b in Live(blocks) && b.addr == ptr - HEADER
      modifies mem, this`head, this`blocks
      ensures ListOk() && Live(blocks) == Live(old(blocks)) - {b}
      ensures KeepsPayloads(old(mem[..]), mem[..], base, Live(blocks))
    {
      hide TiledOk, Apply, KeepsPayloads;
      HeapOkGood(mem[..], base, size, head, blocks);
      LiveIndex(State(), b);
      FreeKeeps(State(), b.addr);
      var _ := Kfree(ptr);
    }

    /** Copies the payload of b to the front of that of c, a different live block. */
    method CopyPayload(ghost b: Block, ghost c: Block, dst: nat, src: nat, n: nat)
      requires ListOk() && b in Live(blocks) && c in Live(blocks) && b.addr != c.addr
      requires HEADER <= b.size && n == b.size - HEADER && HEADER + n <= c.size && dst == c.addr + HEADER
      requires src == b.addr + HEADER
      modifies mem
      ensures ListOk() && KeepsPayloads(old(mem[..]), mem[..], base, Live(blocks) - {c})
      ensures n <= |Payload(mem[..], base, c)| && Payload(mem[..], base, c)[..n] == old(Payload(mem[..], base, b))
    {
      hide TiledOk, KeepsPayloads, Payload;
      ghost var m := mem[..];
      BlockInHeap(m, base, size, head, blocks, b);
      BlockInHeap(m, base, size, head, blocks, c);
      BlocksApart(m, base, size, head, blocks, b, c);
      Memcpy(dst, src, n);
      ClientWrite(m, mem[..], base, size, head, blocks, c, n);
      PayloadCopied(m, mem[..], base, b, c, n);
    }

    /** Moves the payload of live block b to a larger block. */
    method MoveBlock(ptr: nat, n: nat, oldPayload: nat, ghost b: Block) returns (r: AllocResult)
      requires Valid() && 0 < n <= U64 - 32 && HEADER <= ptr < U64 && b in Live(blocks) && b.addr == ptr - HEADER
      requires b.size == HEADER + oldPayload && oldPayload < n
      modifies mem, this`head, this`size, this`blocks, pm`free, pm`tables, pm`mem, pm`refusals, pm.ram.Values
      ensures r != Halted ==> Valid()
      ensures !r.Pointer? ==> pm.refusals > old(pm.refusals)
      ensures r == Null ==> Live(blocks) == Live(old(blocks))
      ensures r == Null ==> KeepsPayloads(old(mem[..]), mem[..], base, Live(blocks))
      ensures r.Pointer? ==>
                r.addr >= base + HEADER &&
                var c := Block(r.addr - HEADER, Total(n), false);
                Live(blocks) == Live(old(blocks)) - {b} + {c} &&
                KeepsPayloads(old(mem[..]), mem[..], base, Live(old(blocks)) - {b}) &&
                old(Payload(mem[..], base, b)) <= Payload(mem[..], base, c)
    {
      hide Vmm.PageMap.Valid, TiledOk, Total, KeepsPayloads, Payload;
      ghost var m0, live0 := mem[..], Live(blocks);
      LiveHeader(m0, base, size, head, blocks, b);
      r := KmallocBlock(n);
      ghost var m1, live1 := mem[..], Live(blocks);
      if !r.Pointer? { return; }
      TotalHoldsRequest(n);
      ghost var c := Block(r.addr - HEADER, Total(n), false);
      CopyPayload(b, c, r.addr, ptr, oldPayload);
      ghost var m2 := mem[..];
      KfreeBlock(ptr, b);
      MoveDone(m0, m1, m2, mem[..], base, live0, live1, b, c, oldPayload);
    }

    /** Resizes the block behind ptr; the old payload is a prefix of the new one. */
    method Krealloc(ptr: nat, n: nat, ghost b: Block) returns (r: AllocResult)
      requires Valid() && n <= U64 - 32 && ptr < U64
      requires ptr != 0 ==> ptr >= HEADER && b in Live(blocks) && b.addr == ptr - HEADER
      modifies mem, this`head, this`size, this`blocks, pm`free, pm`tables, pm`mem, pm`refusals, pm.ram.Values
      ensures r != Halted ==> Valid()
      ensures r == Null ==> Live(blocks) == (if ptr != 0 && n == 0 then Live(old(blocks)) - {b} else Live(old(blocks)))
      ensures r == Null ==> KeepsPayloads(old(mem[..]), mem[..], base, Live(blocks))
      ensures r.Pointer? ==> n > 0 && r.addr >= base + HEADER
      ensures n > 0 && !r.Pointer? ==> pm.refusals > old(pm.refusals)
      ensures r.Pointer? && ptr != 0 && n <= b.size - HEADER ==>
                r.addr == ptr && blocks == old(blocks) && mem[..] == old(mem[..])
      ensures r.Pointer? && (ptr == 0 || n > b.size - HEADER) ==>
                var c := Block(r.addr - HEADER, Total(n), false);
                var kept := if ptr == 0 then Live(old(blocks)) else Live(old(blocks)) - {b};
                Live(blocks) == kept + {c} && KeepsPayloads(old(mem[..]), mem[..], base, kept) &&
                (ptr != 0 ==> old(Payload(mem[..], base, b)) <= Payload(mem[..], base, c))
      ensures ptr != 0 && 0 < n <= b.size - HEADER ==> r == Pointer(ptr)
    {
      hide Vmm.PageMap.Valid, TiledOk, Total, KeepsPayloads, Payload;
      PayloadsSame(mem[..], base, Live(blocks));
      if ptr == 0 {
        r := KmallocBlock(n);
        return;
      }
      LiveHeader(mem[..], base, size, head, blocks, b);
      if n == 0 {
        KfreeBlock(ptr, b);
        return Null;
      }
      var oldTotal := ReadWord(ptr - HEADER);
      var oldPayload := if oldTotal >= HEADER then oldTotal - HEADER else 0;
      if n <= oldPayload { return Pointer(ptr); }
      r := MoveBlock(ptr, n, oldPayload, b);
    }

    // -------------------------------------------------------------- setup

    /** Gives the empty heap its first 256 pages, one free block; false stands for a panic. */
    method SetupHeap() returns (ok: bool)
      requires Valid() && size == 0 && blocks == []
      modifies mem, this`head, this`size, this`blocks, pm`free, pm`tables, pm`mem, pm`refusals, pm.ram.Values
      ensures ok ==> Valid() && size == 256 * 4096 && blocks == [Block(base, size, true)]
      ensures pm.refusals == old(pm.refusals) + if ok then 0 else 1
    {
      hide Vmm.PageMap.Valid, Backed, PageAdded;
      ghost var frames;
      var r;
      r, frames := HeapGrowPages(256);
      if r != Grew { return false; }
      FirstRegion(base, size);
      WriteSetupHeader();
      return true;
    }

    /** Writes the header of the one block of a fresh heap. */
    method WriteSetupHeader()
      requires ListOk() && size > HEADER && blocks == [Block(base, size, true)]
      modifies mem, this`head
      ensures ListOk()
    {
      head := base;
      WriteHeader(base, size, 0);
      OneBlock(mem[..], base, Block(base, size, true), 0);
    }
  }
}
