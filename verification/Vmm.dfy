/** The virtual memory manager: page tables held in physical frames and changed entry by entry,
    with a frame allocator that may run dry or refuse at any time. */
module Vmm {
  import opened Wrappers
  import opened PageTable
  import opened PageTree
  import opened PageCanon
  import opened PageRuns

  class PageMap {
    const ram: map<Frame, array<bv64>>  // physical memory, seen through the higher-half mapping
    var topLevel: Frame                 // the frame of pagemap->top_level
    var free: set<Frame>                // frames the allocator can still hand out
    ghost var tables: Tables
    ghost var mem: Mem                  // ram, decoded
    ghost var refusals: nat             // how often the allocator has handed out nothing

    /** Physical memory of the given frames, all cleared and all free; no table yet. */
    constructor (frames: set<Frame>)
      requires Frame(0) !in frames && forall p | p in frames :: IsFrame(p.addr)
      ensures FramesOk() && tables == map[] && free == frames && ram.Keys == frames && refusals == 0
      ensures fresh(ram.Values)
    {
      var all: map<Frame, array<bv64>> := map[];
      var left := frames;
      while left != {}
        invariant left <= frames && all.Keys == frames - left
        invariant forall p | p in all :: fresh(all[p]) && all[p].Length == 512
        invariant forall p, i | p in all && 0 <= i < 512 :: all[p][i] == 0
        invariant forall p, q | p in all && q in all && p != q :: all[p] != all[q]
      {
        var p :| p in left;
        var words := new bv64[512](_ => 0);
        all := all[p := words];
        left := left - {p};
      }
      ram, free, topLevel := all, frames, Frame(0);
      tables, refusals := map[], 0;
      mem := map p | p in frames :: seq(512, _ => Zero);
      new;
      forall p, q ensures Apart(p, q) {
      }
    }

    ghost predicate Apart(p: Frame, q: Frame) { p in ram && q in ram && p != q ==> ram[p] != ram[q] }

    /** Frames are page-aligned, do not overlap, and hold 512 words each, which mem decodes. */
    ghost predicate RamOk()
      reads this`mem, ram.Values
    {
      && (forall p | p in ram :: IsFrame(p.addr) && ram[p].Length == 512)
      && (forall p, q {:trigger Apart(p, q)} :: Apart(p, q))
      && mem.Keys == ram.Keys
      && (forall p | p in mem :: |mem[p]| == 512)
      && (forall p, i {:trigger ram[p][i]} | p in ram && 0 <= i < 512 :: mem[p][i] == Decode(ram[p][i]))
    }

    /** The frames that hold tables or are free. */
    ghost function Pool(): set<Frame>
      reads this`free, this`tables
    {
      free + tables.Keys
    }

    ghost predicate FramesOk()
      reads this`mem, this`free, this`tables, ram.Values
    {
      && RamOk()
      && (forall p | p in free :: p in ram && p !in tables)
      && (forall p | p in tables :: p in ram)
      && Frame(0) !in free && Frame(0) !in tables
    }

    ghost predicate Valid()
      reads this, ram.Values
    {
      FramesOk() && Shape(mem, topLevel, tables)
    }

    // -------------------------------------------------------------- memory accesses

    /** Writes one entry. */
    method WriteEntry(t: Frame, i: nat, e: bv64)
      requires RamOk() && t in ram && i < 512
      modifies this`mem, ram[t]
      ensures RamOk() && EntryWritten(old(mem), mem, t, i, Decode(e))
    {
      hide IsFrame, Decode;
      forall q | q in ram && q != t ensures ram[q] != ram[t] { assert Apart(q, t); }
      ram[t][i] := e;
      mem := mem[t := mem[t][i := Decode(e)]];
    }

    /** Clears one frame. */
    method Memset0(t: Frame)
      requires RamOk() && t in ram
      modifies this`mem, ram[t]
      ensures RamOk() && FrameWritten(old(mem), mem, t) && IsEmpty(mem, t)
    {
      for i := 0 to 512
        invariant RamOk() && FrameWritten(old(mem), mem, t)
        invariant forall k | 0 <= k < i :: At(mem, t, k) == Zero
      {
        WriteEntry(t, i, 0);
      }
    }

    /** Points an entry at a frame and clears the frame. */
    method HangTable(t: Frame, i: nat, p: Frame, flags: bv64)
      requires RamOk() && t in ram && p in ram && p != t && i < 512 && TableFlagsOk(flags)
      modifies this`mem, ram[t], ram[p]
      ensures RamOk() && Hung(old(mem), mem, t, i, p, TableWord(p, flags))
    {
      TableEntry(p, flags);
      WriteEntry(t, i, TableWord(p, flags));
      Memset0(p);
    }

    method IsTableEmpty(t: Frame) returns (empty: bool)
      requires RamOk() && t in ram
      ensures empty <==> IsEmpty(mem, t)
    {
      for i := 0 to 512
        invariant forall k | 0 <= k < i :: At(mem, t, k) == Zero
      {
        if ram[t][i] != 0 {
          assert At(mem, t, i) != Zero;
          return false;
        }
      }
      return true;
    }

    /** The table an entry points at, if it is present. */
    method GetNextLevel(t: Frame, i: nat) returns (r: Option<Frame>)
      requires RamOk() && t in ram && i < 512
      ensures r == if At(mem, t, i).Ref? then Some(At(mem, t, i).frame) else None
    {
      var entry := ram[t][i];
      if Present(entry) { return Some(Frame(PteGetAddr(entry))); }
      return None;
    }

    // -------------------------------------------------------------- the frame allocator

    /** Hands out a zeroed frame, or fails. */
    method PpAlloc() returns (r: Option<Frame>)
      requires FramesOk()
      modifies this`free, this`mem, this`refusals, ram.Values
      ensures FramesOk() && SameFrames(old(mem), mem)
      ensures r == None ==> free == old(free) && mem == old(mem)
      ensures refusals == old(refusals) + if r == None then 1 else 0
      ensures r.Some? ==>
                var p := r.value;
                p in old(free) && free == old(free) - {p} &&
                FrameWritten(old(mem), mem, p) && IsEmpty(mem, p)
    {
      var refused: bool := *;
      if free == {} || refused {
        refusals := refusals + 1;
        return None;
      }
      var p :| p in free;
      free := free - {p};
      Memset0(p);
      return Some(p);
    }

    /** Hands out a frame that holds no table; the page tables do not notice. */
    method AllocateData() returns (r: Option<Frame>)
      requires Valid()
      modifies this`free, this`mem, this`refusals, ram.Values
      ensures Valid() && SameWalks(old(mem), mem, topLevel)
      ensures if r == None then free == old(free) else r.value in old(free) && free == old(free) - {r.value}
      ensures refusals == old(refusals) + if r == None then 1 else 0
    {
      r := PpAlloc();
      OnlyTablesMatter(old(mem), mem, topLevel, tables);
    }

    /** Takes a frame back. */
    method PpFree(p: Frame)
      requires FramesOk() && p in ram && p != Frame(0) && p !in free && p !in tables
      modifies this`free
      ensures FramesOk() && free == old(free) + {p}
    {
      free := free + {p};
    }

    // -------------------------------------------------------------- going down a level

    /** Hangs a fresh, zeroed frame from an entry. */
    method AllocateNextLevel(t: Frame, i: nat, pteFlags: bv64) returns (r: Option<Frame>)
      requires FramesOk() && t in tables && tables[t].level > 1 && i < 512 && TableFlagsOk(pteFlags)
      modifies this`free, this`tables, this`mem, this`refusals, ram.Values
      ensures FramesOk() && Pool() == old(Pool())
      ensures r == None ==> tables == old(tables) && mem == old(mem)
      ensures refusals == old(refusals) + if r == None then 1 else 0
      ensures r.Some? ==>
                var p := r.value;
                p in mem && p !in old(tables) && tables == old(tables)[p := Link(old(tables)[t].level - 1, t, i)] &&
                Hung(old(mem), mem, t, i, p, TableWord(p, pteFlags))
    {
      hide Hung, FrameWritten, TableFlagsOk;
      ghost var m := mem;
      r := PpAlloc();
      if r.Some? {
        ghost var m1 := mem;
        LinkTable(t, i, r.value, pteFlags);
        HungFresh(m, m1, mem, t, i, r.value, TableWord(r.value, pteFlags));
      }
    }

    /** Hangs frame p, which is neither free nor a table, from an entry. */
    method LinkTable(t: Frame, i: nat, p: Frame, pteFlags: bv64)
      requires FramesOk() && t in tables && tables[t].level > 1 && i < 512 && TableFlagsOk(pteFlags)
      requires p in ram && p !in free && p !in tables && p != Frame(0)
      modifies this`tables, this`mem, ram.Values
      ensures FramesOk() && tables == old(tables)[p := Link(old(tables)[t].level - 1, t, i)]
      ensures Hung(old(mem), mem, t, i, p, TableWord(p, pteFlags))
    {
      hide Hung, TableFlagsOk;
      ghost var was := tables;
      HangTable(t, i, p, pteFlags);
      tables := was[p := Link(was[t].level - 1, t, i)];
    }

    /** The table below entry i, hung there first if the entry is empty. */
    method GetOrAllocateNextLevel(t: Frame, i: nat, flags: bv64) returns (r: Option<Frame>)
      requires Valid() && t in tables && tables[t].level > 1 && i < 512 && TableFlagsOk(flags)
      modifies this`free, this`tables, this`mem, this`refusals, ram.Values
      ensures Valid() && Pool() == old(Pool())
      ensures r == None ==> tables == old(tables) && mem == old(mem)
      ensures refusals == old(refusals) + if r == None then 1 else 0
      ensures r.Some? ==> Reached(old(mem), old(tables), mem, tables, topLevel, t, i, r.value, flags)
    {
      ghost var m, was := mem, tables;
      if At(m, t, i) != Zero { FollowReaches(m, topLevel, tables, t, i, flags); }
      r := GetNextLevel(t, i);
      if r.Some? { return; }
      r := AllocateNextLevel(t, i, flags);
      if r.Some? { HangReaches(m, mem, topLevel, was, t, i, r.value, flags); }
    }

    /** Writes the leaf entry for v. */
    method WriteLeaf(pt: Frame, v: nat, e: bv64)
      requires Valid() && TableAt(mem, topLevel, v, 1) == Some(pt) && !Decode(e).Junk?
      modifies this`mem, ram.Values
      ensures Valid() && EntryWritten(old(mem), mem, pt, Index(v, 1), Decode(e))
    {
      ghost var m := mem;
      WalkStaysInTree(mem, topLevel, tables, v, 1);
      WriteEntry(pt, Index(v, 1), e);
      LeafWriteTranslates(m, mem, topLevel, tables, v, Decode(e));
    }

    // -------------------------------------------------------------- map_page

    /** One step of the walk down for v, started in state (m0, t0). */
    method Descend(t: Frame, v: nat, level: nat, flags: bv64, ghost m0: Mem,
            ghost t0: Tables) returns (r: Option<Frame>)
      requires Valid() && 2 <= level <= 4 && TableFlagsOk(flags) && OpenFlags(flags)
      requires Descended(m0, t0, mem, tables, topLevel, v, level, t)
      modifies this`free, this`tables, this`mem, this`refusals, ram.Values
      ensures Valid() && Pool() == old(Pool()) && SameWalks(m0, mem, topLevel) && (Open(m0, t0) ==> Open(mem, tables))
      ensures r.Some? ==> Descended(m0, t0, mem, tables, topLevel, v, level - 1, r.value)
      ensures refusals == old(refusals) + if r == None then 1 else 0
    {
      ghost var m1, t1 := mem, tables;
      r := GetOrAllocateNextLevel(t, Index(v, level), flags);
      if r.Some? { DescendStep(m0, t0, m1, t1, mem, tables, topLevel, v, level, t, r.value, flags); }
    }

    /** The walk down starts at the root. */
    lemma AtRoot(virt: nat)
      requires Valid()
      ensures Descended(mem, tables, mem, tables, topLevel, virt, 4, topLevel) && topLevel in tables
    {
      DescendStart(mem, topLevel, tables, virt);
    }

    /** The leaf table for virt, hanging the missing tables on the way down. */
    method LeafTable(virt: nat, flags: bv64) returns (r: Option<Frame>)
      requires Valid()
      modifies this`free, this`tables, this`mem, this`refusals, ram.Values
      ensures Valid() && Pool() == old(Pool()) && SameWalks(old(mem), mem, topLevel)
      ensures old(Open(mem, tables)) ==> Open(mem, tables)
      ensures r.Some? ==> Descended(old(mem), old(tables), mem, tables, topLevel, virt, 1, r.value)
      ensures r.Some? ==> topLevel in old(tables)
      ensures refusals == old(refusals) + if r == None then 1 else 0
    {
      hide Valid, Descended, AllocFlags, Open, OpenFlags, TableFlagsOk, SameWalks;
      ghost var m0, t0 := mem, tables;
      AtRoot(virt);
      var allocFlags := AllocFlags(flags);
      AllocFlagsOk(flags);
      AllocFlagsOpen(flags);
      var pdpt := Descend(topLevel, virt, 4, allocFlags, m0, t0);
      if pdpt == None { return None; }
      var pd := Descend(pdpt.value, virt, 3, allocFlags, m0, t0);
      if pd == None { return None; }
      r := Descend(pd.value, virt, 2, allocFlags, m0, t0);
    }

    /** Writes the leaf entry that the walk down has reached. */
    method MapLeaf(pt: Frame, v: nat, e: bv64, ghost m0: Mem, ghost t0: Tables)
      requires Valid() && topLevel in t0 && Decode(e).Ref? && Descended(m0, t0, mem, tables, topLevel, v, 1, pt)
      modifies this`mem, ram.Values
      ensures Valid() && Mapped(m0, t0, mem, tables, topLevel, v, Decode(e)) && (Open(m0, t0) ==> Open(mem, tables))
      ensures t0.Keys <= tables.Keys && free !! tables.Keys
    {
      ghost var m := mem;
      WriteLeaf(pt, v, e);
      DescendThenWrite(m0, t0, m, mem, tables, topLevel, v, pt, Decode(e));
    }

    /** Maps the page of virt. It fails only if the allocator refuses a frame, and then no translation changes. */
    method MapPage(virt: nat, phys: bv64, flags: bv64) returns (ok: bool)
      requires Valid()
      modifies this`free, this`tables, this`mem, this`refusals, ram.Values
      ensures Valid() && Pool() == old(Pool())
      ensures old(Open(mem, tables)) ==> Open(mem, tables)
      ensures ok ==> Mapped(old(mem), old(tables), mem, tables, topLevel, virt, Decode(LeafEntry(phys, flags)))
      ensures ok ==> free <= old(free)
      ensures !ok ==> SameWalks(old(mem), mem, topLevel)
      ensures refusals == old(refusals) + if ok then 0 else 1
    {
      hide Valid, Descended, Mapped, Open, SameWalks, Decode, LeafEntry;
      var v := virt / 4096 * 4096;
      var pt := LeafTable(v, flags);
      if pt == None { return false; }
      LeafPresent(phys, flags);
      MapLeaf(pt.value, v, LeafEntry(phys, flags), old(mem), old(tables));
      MappedPage(old(mem), old(tables), mem, tables, topLevel, v, virt, Decode(LeafEntry(phys, flags)));
      return true;
    }

    // -------------------------------------------------------------- unmap_page

    /** Unlinks the empty table c from its parent, then gives its frame back. */
    method PruneTable(parent: Frame, i: nat, c: Frame)
      requires Valid() && c in tables && c != topLevel && IsEmpty(mem, c)
      requires parent == tables[c].parent && i == tables[c].slot
      modifies this`free, this`tables, this`mem, ram.Values
      ensures Valid() && Pool() == old(Pool()) && tables == old(tables) - {c} && free == old(free) + {c}
      ensures EntryWritten(old(mem), mem, parent, i, Zero)
    {
      ghost var m := mem;
      assert LinkOk(mem, tables, c);
      WriteEntry(parent, i, 0);
      PruneShape(m, mem, topLevel, tables, c);
      tables := tables - {c};
      PpFree(c);
    }

    /** Gives back the table of the given level on the walk for virt if it is empty; a PDPT of the upper half stays. */
    method ReclaimTable(virt: nat, level: nat, chain: seq<Frame>) returns (gone: bool)
      requires Valid() && 1 <= level <= 3 && OnPath(tables, topLevel, chain, virt, level)
      modifies this`free, this`tables, this`mem, ram.Values
      ensures Valid() && Pool() == old(Pool()) && Trimmed(old(mem), old(tables), mem, tables, topLevel)
      ensures if gone then tables == old(tables) - {chain[level - 1]} else mem == old(mem) && tables == old(tables)
      ensures var was := NoEmptyTablesBut(old(mem), topLevel, old(tables), chain[level - 1]);
              was ==>
                if gone then NoEmptyTablesBut(mem, topLevel, tables, chain[level])
                else NoEmptyTables(mem, topLevel, tables)
    {
      ghost var m, was := mem, tables;
      assert Hangs(was, topLevel, chain, virt, level);
      var c := chain[level - 1];
      var empty := IsTableEmpty(c);
      if !empty || (level == 3 && Index(virt, 4) >= 256) { return false; }
      PruneTable(chain[level], Index(virt, level + 1), c);
      PruneTrims(m, mem, topLevel, was, c);
      return true;
    }

    /** Gives back the table of the given level on the walk for virt if it is empty, and then the tables above
        it that this leaves empty. */
    method Reclaim(virt: nat, level: nat, chain: seq<Frame>)
      requires Valid() && 1 <= level <= 3 && OnPath(tables, topLevel, chain, virt, level)
      modifies this`free, this`tables, this`mem, ram.Values
      ensures Valid() && Pool() == old(Pool()) && Trimmed(old(mem), old(tables), mem, tables, topLevel)
      ensures NoEmptyTablesBut(old(mem), topLevel, old(tables), chain[level - 1]) ==>
                NoEmptyTables(mem, topLevel, tables)
      decreases 4 - level
    {
      ghost var m, was := mem, tables;
      var gone := ReclaimTable(virt, level, chain);
      if gone && level < 3 {
        PathAbove(was, topLevel, chain, virt, level);
        hide Valid, Trimmed, NoEmptyTables, NoEmptyTablesBut, OnPath;
        ghost var m1, t1 := mem, tables;
        Reclaim(virt, level + 1, chain);
        TrimTrim(m, was, m1, t1, mem, tables, topLevel);
      }
    }

    /** The tables on the walk for virt, leaf table first, if there is a leaf table. */
    method FindTables(virt: nat) returns (chain: seq<Frame>)
      requires Valid()
      ensures if chain == [] then TableAt(mem, topLevel, virt, 1) == None
              else OnPath(tables, topLevel, chain, virt, 1) && TableAt(mem, topLevel, virt, 1) == Some(chain[0])
    {
      var pdpt := GetNextLevel(topLevel, Index(virt, 4));
      if pdpt == None { return []; }
      assert TableAt(mem, topLevel, virt, 3) == pdpt;
      WalkStaysInTree(mem, topLevel, tables, virt, 3);
      var pd := GetNextLevel(pdpt.value, Index(virt, 3));
      if pd == None { return []; }
      assert TableAt(mem, topLevel, virt, 2) == pd;
      WalkStaysInTree(mem, topLevel, tables, virt, 2);
      var pt := GetNextLevel(pd.value, Index(virt, 2));
      if pt == None { return []; }
      WalkIsPath(mem, topLevel, tables, virt, pdpt.value, pd.value, pt.value);
      return [pt.value, pd.value, pdpt.value, topLevel];
    }

    /** Clears the leaf entry of a mapped page, and gives back every table that this leaves empty. */
    method UnmapMapped(virt: nat, chain: seq<Frame>)
      requires Valid() && OnPath(tables, topLevel, chain, virt, 1) && TableAt(mem, topLevel, virt, 1) == Some(chain[0])
      modifies this`free, this`tables, this`mem, ram.Values
      ensures Valid() && Pool() == old(Pool()) && Unmapped(old(mem), old(tables), mem, tables, topLevel, virt)
    {
      WriteLeaf(chain[0], virt, 0);
      ghost var m := mem;
      ClearLeaf(old(mem), m, topLevel, tables, virt, chain[0]);
      Reclaim(virt, 1, chain);
      ClearThenTrim(old(mem), old(tables), m, mem, tables, topLevel, virt);
    }

    /** Unmaps the page of virt; nothing happens if it is not mapped. */
    method UnmapPage(virt: nat) returns (ok: bool)
      requires Valid()
      modifies this`free, this`tables, this`mem, ram.Values
      ensures Valid() && Pool() == old(Pool())
      ensures ok <==> virt % PAGE_SIZE == 0
      ensures if !ok || old(Walk(mem, topLevel, virt)) == None then mem == old(mem) && tables == old(tables)
              else Unmapped(old(mem), old(tables), mem, tables, topLevel, virt)
    {
      if virt % PAGE_SIZE != 0 { return false; }
      var chain := FindTables(virt);
      if chain == [] { return true; }
      assert Hangs(tables, topLevel, chain, virt, 1);
      var present := GetNextLevel(chain[0], Index(virt, 1));
      if present.Some? { UnmapMapped(virt, chain); }
      return true;
    }

    /** Map then unmap of an unmapped page: the same tables, with the same entries, and the same free frames. */
    method MapThenUnmap(virt: nat, phys: bv64, flags: bv64) returns (ok: bool)
      requires Valid() && Canon(mem, topLevel, tables) && virt % PAGE_SIZE == 0 && Walk(mem, topLevel, virt) == None
      modifies this`free, this`tables, this`mem, this`refusals, ram.Values
      ensures Valid()
      ensures ok ==> tables == old(tables) && free == old(free)
      ensures ok ==> forall t, j | t in tables && 0 <= j < 512 :: At(mem, t, j) == At(old(mem), t, j)
    {
      ghost var a := State(mem, tables);
      ok := MapPage(virt, phys, flags);
      if ok {
        ghost var b := State(mem, tables);
        var _ := UnmapPage(virt);
        MapThenUnmapRestores(a, b, State(mem, tables), topLevel, virt, Decode(LeafEntry(phys, flags)));
        assert free == Pool() - tables.Keys;
      }
    }
  }
}
