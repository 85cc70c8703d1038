/** The kernel's address space as setup_vmm builds it. */
module AddressSpace {
  import opened Wrappers
  import opened PageTable
  import opened PageTree
  import opened PageCanon
  import PageRuns
  import MemMap
  import Vmm

  // ---------------------------------------------------------------- layouts

  /** Leaf entries by page number. */
  type Layout = map<nat, Entry>

  /** Exactly the pages of the layout are mapped, each by its entry. */
  ghost predicate Translates(m: Mem, root: Frame, l: Layout) {
    forall w :: Walk(m, root, w) == if PageOf(w) in l then Some(l[PageOf(w)]) else None
  }

  lemma MapAdds(m: Mem, tables: Tables, m2: Mem, tables2: Tables, root: Frame, l: Layout, v: nat, e: Entry)
    requires Translates(m, root, l) && Mapped(m, tables, m2, tables2, root, v, e)
    ensures Translates(m2, root, l[PageOf(v) := e])
  {
    var l2 := l[PageOf(v) := e];
    forall w ensures Walk(m2, root, w) == if PageOf(w) in l2 then Some(l2[PageOf(w)]) else None {
      if PageOf(w) == PageOf(v) { WalkOfPage(m2, root, w, v); }
    }
  }

  /** The kernel executable as the linker and the bootloader place it. */
  datatype Kernel = Kernel(virtualBase: nat, physicalBase: nat, bssEnd: nat, textStart: nat, textEnd: nat,
                           rodataStart: nat, rodataEnd: nat)

  datatype Framebuffer = Framebuffer(address: nat, pitch: nat, height: nat)

  /** Access rights of the pages of a range. */
  datatype Rights = KernelRights(kernel: Kernel) | Fixed(flags: bv64)

  function KernelFlags(k: Kernel, v: nat): bv64 {
    if k.textStart <= v < k.textEnd then 1
    else if k.rodataStart <= v < k.rodataEnd then 0x8000_0000_0000_0001
    else 0x8000_0000_0000_0003
  }

  /** No page of the kernel is both writable and executable, wherever it lies. */
  lemma WriteXorExecute(k: Kernel, v: nat, phys: bv64)
    ensures var e := LeafEntry(phys, KernelFlags(k, v));
            Present(e) && (e & PTE_WRITABLE != 0 ==> e & PTE_NX != 0)
    ensures KernelFlags(k, v) & PTE_NX == 0 <==> k.textStart <= v < k.textEnd
    ensures PlainFlags(KernelFlags(k, v))
  {
  }

  function FlagsOf(r: Rights, v: nat): bv64 {
    match r
    case KernelRights(k) => KernelFlags(k, v)
    case Fixed(flags) => flags
  }

  function Leaf(phys: nat, flags: bv64): Entry { Decode(LeafEntry((phys % U64) as bv64, flags)) }

  /** The layout with n pages from virt on mapped to the memory from phys on. */
  function AddPages(l: Layout, virt: nat, phys: nat, n: nat, r: Rights): Layout {
    if n == 0 then l
    else
      var v := PageAddr(virt, n - 1);
      AddPages(l, virt, phys, n - 1, r)[PageOf(v) := Leaf(PageAddr(phys, n - 1), FlagsOf(r, v))]
  }

  /** ALIGN_UP to pages, on 64-bit words. */
  function AlignUp(a: nat): nat { (a + 4095) % U64 / 4096 * 4096 }

  function KernelPages(k: Kernel): nat {
    var end := AlignUp(k.bssEnd);
    if k.virtualBase < end then (end - k.virtualBase + 4095) / 4096 else 0
  }

  function ChunkPages(c: MemMap.Chunk): nat {
    if AlignUp(c.base) < AlignUp(c.bounds) then (AlignUp(c.bounds) - AlignUp(c.base)) / 4096 else 0
  }

  /** Pages of the framebuffer; the byte count is 32 bits wide. */
  function FramebufferPages(fb: Framebuffer): nat { (fb.pitch * fb.height + 4095) % 0x1_0000_0000 / 4096 }

  /** The window of one chunk in the higher half. */
  function AddChunk(l: Layout, c: MemMap.Chunk, hhdm: nat): Layout {
    AddPages(l, AlignUp(c.base) + hhdm, AlignUp(c.base), ChunkPages(c), Fixed(3))
  }

  function AddChunks(l: Layout, cs: seq<MemMap.Chunk>, hhdm: nat): Layout {
    if cs == [] then l else AddChunk(AddChunks(l, cs[..|cs| - 1], hhdm), cs[|cs| - 1], hhdm)
  }

  /** Kernel and higher-half windows. */
  function KernelLayout(k: Kernel, cs: seq<MemMap.Chunk>, hhdm: nat): Layout {
    AddChunks(AddPages(map[], k.virtualBase, k.physicalBase, KernelPages(k), KernelRights(k)), cs, hhdm)
  }

  function AddFramebuffer(l: Layout, fb: Framebuffer, hhdm: nat): Layout {
    AddPages(l, fb.address, (fb.address - hhdm) % U64, FramebufferPages(fb), Fixed(0x93))
  }

  // ---------------------------------------------------------------- building it

  /** Maps one page; on failure no translation changes. */
  method MapOne(pm: Vmm.PageMap, v: nat, phys: nat, flags: bv64, ghost l: Layout) returns (ok: bool)
    requires pm.Valid() && Translates(pm.mem, pm.topLevel, l)
    modifies pm`free, pm`tables, pm`mem, pm`refusals, pm.ram.Values
    ensures pm.Valid() && Translates(pm.mem, pm.topLevel, if ok then l[PageOf(v) := Leaf(phys, flags)] else l)
    ensures pm.refusals == old(pm.refusals) + if ok then 0 else 1
    ensures old(Open(pm.mem, pm.tables)) ==> Open(pm.mem, pm.tables)
    ensures ok && old(Canon(pm.mem, pm.topLevel, pm.tables)) ==> Canon(pm.mem, pm.topLevel, pm.tables)
  {
    hide Vmm.PageMap.Valid, Translates, Mapped, SameWalks, PageOf, LeafEntry, Decode, Canon, Open;
    ghost var m, tables := pm.mem, pm.tables;
    ok := pm.MapPage(v, (phys % U64) as bv64, flags);
    if ok {
      MapAdds(m, tables, pm.mem, pm.tables, pm.topLevel, l, v, Leaf(phys, flags));
      MappedCanon(pm, m, tables, v, Leaf(phys, flags));
    } else {
      SameTranslates(m, pm.mem, pm.topLevel, l);
    }
  }

  lemma MappedCanon(pm: Vmm.PageMap, m: Mem, tables: Tables, v: nat, e: Entry)
    requires pm.Valid() && Mapped(m, tables, pm.mem, pm.tables, pm.topLevel, v, e)
    ensures Canon(m, pm.topLevel, tables) ==> Canon(pm.mem, pm.topLevel, pm.tables)
  {
  }

  /** Maps n pages; false stands for a panic. */
  method MapPages(pm: Vmm.PageMap, virt: nat, phys: nat, n: nat, r: Rights, ghost l: Layout) returns (ok: bool)
    requires pm.Valid() && Translates(pm.mem, pm.topLevel, l)
    modifies pm`free, pm`tables, pm`mem, pm`refusals, pm.ram.Values
    ensures pm.Valid()
    ensures ok ==> Translates(pm.mem, pm.topLevel, AddPages(l, virt, phys, n, r))
    ensures pm.refusals == old(pm.refusals) + if ok then 0 else 1
    ensures old(Open(pm.mem, pm.tables)) ==> Open(pm.mem, pm.tables)
    ensures ok && old(Canon(pm.mem, pm.topLevel, pm.tables)) ==> Canon(pm.mem, pm.topLevel, pm.tables)
  {
    hide Vmm.PageMap.Valid, Translates, Canon, Leaf, PageOf, FlagsOf, Open;
    for i := 0 to n
      invariant pm.Valid() && Translates(pm.mem, pm.topLevel, AddPages(l, virt, phys, i, r))
      invariant pm.refusals == old(pm.refusals)
      invariant old(Open(pm.mem, pm.tables)) ==> Open(pm.mem, pm.tables)
      invariant old(Canon(pm.mem, pm.topLevel, pm.tables)) ==> Canon(pm.mem, pm.topLevel, pm.tables)
    {
      var v := PageAddr(virt, i);
      var mapped := MapOne(pm, v, PageAddr(phys, i), FlagsOf(r, v), AddPages(l, virt, phys, i, r));
      if !mapped { return false; }
    }
    return true;
  }

  lemma ValidShape(pm: Vmm.PageMap)
    requires pm.Valid()
    ensures Shape(pm.mem, pm.topLevel, pm.tables)
  {
  }

  lemma NoWindow(l: Layout, c: MemMap.Chunk, hhdm: nat)
    requires ChunkPages(c) == 0
    ensures AddChunk(l, c, hhdm) == l
  {
  }

  /** Maps the windows of all chunks. */
  method MapChunks(pm: Vmm.PageMap, cs: seq<MemMap.Chunk>, hhdm: nat, ghost l: Layout) returns (ok: bool)
    requires pm.Valid() && Translates(pm.mem, pm.topLevel, l)
    modifies pm`free, pm`tables, pm`mem, pm`refusals, pm.ram.Values
    ensures pm.Valid()
    ensures ok ==> Translates(pm.mem, pm.topLevel, AddChunks(l, cs, hhdm))
    ensures pm.refusals == old(pm.refusals) + if ok then 0 else 1
    ensures old(Open(pm.mem, pm.tables)) ==> Open(pm.mem, pm.tables)
    ensures ok && old(Canon(pm.mem, pm.topLevel, pm.tables)) ==> Canon(pm.mem, pm.topLevel, pm.tables)
  {
    hide Vmm.PageMap.Valid, Translates, Canon, AlignUp, AddPages, Open;
    for i := 0 to |cs|
      invariant pm.Valid() && Translates(pm.mem, pm.topLevel, AddChunks(l, cs[..i], hhdm))
      invariant pm.refusals == old(pm.refusals)
      invariant old(Open(pm.mem, pm.tables)) ==> Open(pm.mem, pm.tables)
      invariant old(Canon(pm.mem, pm.topLevel, pm.tables)) ==> Canon(pm.mem, pm.topLevel, pm.tables)
    {
      ghost var was := AddChunks(l, cs[..i], hhdm);
      assert cs[..i + 1][..i] == cs[..i];
      var mapBase, mapTop := AlignUp(cs[i].base), AlignUp(cs[i].bounds);
      if mapTop <= mapBase {
        NoWindow(was, cs[i], hhdm);
        continue;
      }
      var mapped := MapPages(pm, mapBase + hhdm, mapBase, (mapTop - mapBase) / 4096, Fixed(PTE_PRESENT | PTE_WRITABLE),
          was);
      if !mapped { return false; }
    }
    assert cs[..|cs|] == cs;
    return true;
  }

  /** Page p is one of n pages from virt on. */
  ghost predicate Among(virt: nat, n: nat, p: nat) { exists j :: 0 <= j < n && p == PageOf(PageAddr(virt, j)) }

  /** Both layouts agree outside n pages from virt on. */
  ghost predicate SameElsewhere(l: Layout, l2: Layout, virt: nat, n: nat) {
    forall p | !Among(virt, n, p) :: (p in l2 <==> p in l) && (p in l ==> l2[p] == l[p])
  }

  lemma SameElsewhereStep(l: Layout, l2: Layout, virt: nat, n: nat, e: Entry)
    requires SameElsewhere(l, l2, virt, n)
    ensures SameElsewhere(l, l2[PageOf(PageAddr(virt, n)) := e], virt, n + 1) && SameElsewhere(l, l2, virt, n + 1)
  {
    forall p | !Among(virt, n + 1, p) ensures !Among(virt, n, p) && p != PageOf(PageAddr(virt, n)) {
    }
  }

  /** Maps the framebuffer. A page that cannot be mapped is passed over without notice; drawn says that there was
      none, and got is the layout that comes of it. */
  method MapFramebuffer(pm: Vmm.PageMap, fb: Framebuffer, hhdm: nat, ghost l: Layout)
    returns (ghost got: Layout, ghost drawn: bool)
    requires pm.Valid() && Translates(pm.mem, pm.topLevel, l)
    modifies pm`free, pm`tables, pm`mem, pm`refusals, pm.ram.Values
    ensures pm.Valid() && Translates(pm.mem, pm.topLevel, got)
    ensures SameElsewhere(l, got, fb.address, FramebufferPages(fb))
    ensures drawn ==> got == AddFramebuffer(l, fb, hhdm)
    ensures drawn <==> pm.refusals == old(pm.refusals)
    ensures pm.refusals >= old(pm.refusals)
    ensures old(Open(pm.mem, pm.tables)) ==> Open(pm.mem, pm.tables)
    ensures drawn && old(Canon(pm.mem, pm.topLevel, pm.tables)) ==> Canon(pm.mem, pm.topLevel, pm.tables)
  {
    hide Vmm.PageMap.Valid, Translates, SameElsewhere, Leaf, PageOf, Canon, Open;
    var virt, phys, pages := fb.address, (fb.address - hhdm) % U64, FramebufferPages(fb);
    got, drawn := l, true;
    SameElsewhereStart(l, virt);
    for i := 0 to pages
      invariant pm.Valid() && Translates(pm.mem, pm.topLevel, got) && SameElsewhere(l, got, virt, i)
      invariant drawn ==> got == AddPages(l, virt, phys, i, Fixed(0x93))
      invariant pm.refusals >= old(pm.refusals) && (drawn <==> pm.refusals == old(pm.refusals))
      invariant old(Open(pm.mem, pm.tables)) ==> Open(pm.mem, pm.tables)
      invariant drawn && old(Canon(pm.mem, pm.topLevel, pm.tables)) ==> Canon(pm.mem, pm.topLevel, pm.tables)
    {
      var mapped := MapOne(pm, PageAddr(virt, i), PageAddr(phys, i), 0x93, got);
      SameElsewhereStep(l, got, virt, i, Leaf(PageAddr(phys, i), 0x93));
      if mapped {
        got := got[PageOf(PageAddr(virt, i)) := Leaf(PageAddr(phys, i), 0x93)];
      } else {
        drawn := false;
      }
    }
  }

  lemma SameElsewhereStart(l: Layout, virt: nat)
    ensures SameElsewhere(l, l, virt, 0)
  {
  }

  lemma SameTranslates(m: Mem, m2: Mem, root: Frame, l: Layout)
    requires Translates(m, root, l) && SameWalks(m, m2, root)
    ensures Translates(m2, root, l)
  {
  }

  /** Every table but the root is a PDPT of the upper half. */
  ghost predicate OnlyUpperHalf(root: Frame, tables: Tables) { forall t | t in tables :: Kept(root, t, tables[t]) }

  lemma EmptyRoot(m: Mem, root: Frame)
    requires InRam(m, root) && IsEmpty(m, root)
    ensures var tables: Tables := map[root := Link(4, root, 0)];
            Shape(m, root, tables) && OnlyUpperHalf(root, tables) && Translates(m, root, map[]) && Open(m, tables)
  {
    var tables: Tables := map[root := Link(4, root, 0)];
    forall t, i | t in tables && 0 <= i < 512 ensures EntryOk(m, tables, t, i) {
      assert At(m, root, i) == Zero;
    }
    EmptyUnrestricted();
    forall w ensures Walk(m, root, w) == None {
      assert TableAt(m, root, w, 4) == Some(root);
      assert At(m, root, Index(w, 4)) == Zero;
      assert TableAt(m, root, w, 3) == None;
      assert TableAt(m, root, w, 2) == None;
    }
  }

  /** One more PDPT. */
  lemma UpperHalfStep(m: Mem, tables: Tables, m2: Mem, tables2: Tables, root: Frame, i: nat, c: Frame, full: bool)
    requires Shape(m, root, tables) && OnlyUpperHalf(root, tables) && 256 <= i < 512
    requires Reached(m, tables, m2, tables2, root, root, i, c, 0)
    requires full ==> forall k | 256 <= k < i :: At(m, root, k) != Zero
    ensures OnlyUpperHalf(root, tables2) && (full ==> forall k | 256 <= k < i + 1 :: At(m2, root, k) != Zero)
    ensures Open(m, tables) ==> Open(m2, tables2)
  {
    AllocFlagsOpen(0);
    hide Open, OpenFlags;
    if At(m, root, i) == Zero {
      forall t | t in tables2 ensures Kept(root, t, tables2[t]) {
        if t != c { assert t in tables; }
      }
    }
  }

  /** Allocates the root table, with nothing in it. */
  method NewRoot(pm: Vmm.PageMap) returns (ok: bool)
    requires pm.FramesOk() && pm.tables == map[]
    modifies pm`topLevel, pm`free, pm`tables, pm`mem, pm`refusals, pm.ram.Values
    ensures pm.refusals == old(pm.refusals) + if ok then 0 else 1
    ensures ok ==> pm.Valid() && pm.tables == map[pm.topLevel := Link(4, pm.topLevel, 0)]
    ensures ok ==> Translates(pm.mem, pm.topLevel, map[]) && OnlyUpperHalf(pm.topLevel, pm.tables)
    ensures ok ==> Open(pm.mem, pm.tables)
  {
    var root := pm.PpAlloc();
    if root == None { return false; }
    pm.Memset0(root.value);
    pm.topLevel := root.value;
    pm.tables := map[root.value := Link(4, root.value, 0)];
    EmptyRoot(pm.mem, pm.topLevel);
    return true;
  }

  /** Allocates the root table and the PDPTs of the upper half. A PDPT that cannot be allocated is passed over; full
      says that there was none. */
  method SetupRoot(pm: Vmm.PageMap) returns (ok: bool, ghost full: bool)
    requires pm.FramesOk() && pm.tables == map[]
    modifies pm`topLevel, pm`free, pm`tables, pm`mem, pm`refusals, pm.ram.Values
    ensures ok ==> pm.Valid() && Translates(pm.mem, pm.topLevel, map[]) && Open(pm.mem, pm.tables)
    ensures ok && full ==> PageRuns.Fresh(PageRuns.State(pm.mem, pm.tables), pm.topLevel)
    ensures ok && full <==> pm.refusals == old(pm.refusals)
    ensures pm.refusals >= old(pm.refusals)
  {
    hide Vmm.PageMap.Valid, Reached, OnlyUpperHalf, Translates, Open;
    full := true;
    ok := NewRoot(pm);
    if !ok { return; }
    ghost var root := pm.topLevel;
    for i := 256 to 512
      invariant pm.Valid() && pm.topLevel == root && pm.topLevel in pm.tables && pm.tables[pm.topLevel].level == 4
      invariant Translates(pm.mem, pm.topLevel, map[]) && OnlyUpperHalf(pm.topLevel, pm.tables)
      invariant Open(pm.mem, pm.tables)
      invariant full ==> forall k | 256 <= k < i :: At(pm.mem, pm.topLevel, k) != Zero
      invariant pm.refusals >= old(pm.refusals) && (full <==> pm.refusals == old(pm.refusals))
    {
      ghost var m, tables := pm.mem, pm.tables;
      ValidShape(pm);
      var c := pm.GetOrAllocateNextLevel(pm.topLevel, i, 0);
      ValidShape(pm);
      if c.Some? {
        UpperHalfStep(m, tables, pm.mem, pm.tables, pm.topLevel, i, c.value, full);
        ReachedSame(m, tables, pm.mem, pm.tables, pm.topLevel, pm.topLevel, i, c.value);
        SameTranslates(m, pm.mem, pm.topLevel, map[]);
      } else {
        full := false;
      }
    }
    ValidShape(pm);
    FreshRoot(pm.mem, pm.topLevel, pm.tables, full);
  }

  lemma ReachedSame(m: Mem, tables: Tables, m2: Mem, tables2: Tables, root: Frame, t: Frame, i: nat, c: Frame)
    requires t in tables && Reached(m, tables, m2, tables2, root, t, i, c, 0)
    ensures SameWalks(m, m2, root)
  {
  }

  lemma FreshRoot(m: Mem, root: Frame, tables: Tables, full: bool)
    requires Shape(m, root, tables) && OnlyUpperHalf(root, tables) && Translates(m, root, map[]) && Open(m, tables)
    requires full ==> forall k | 256 <= k < 512 :: At(m, root, k) != Zero
    ensures full ==> PageRuns.Fresh(PageRuns.State(m, tables), root)
  {
    var none: Layout := map[];
    forall v ensures Walk(m, root, v) == None {
      assert PageOf(v) !in none;
    }
  }

  /** Builds the kernel's address space; false stands for a panic. */
  method SetupVmm(pm: Vmm.PageMap, k: Kernel, cs: seq<MemMap.Chunk>, hhdm: nat, fb: Framebuffer)
    returns (ok: bool, ghost got: Layout, ghost full: bool, ghost drawn: bool)
    requires pm.FramesOk() && pm.tables == map[]
    modifies pm`topLevel, pm`free, pm`tables, pm`mem, pm`refusals, pm.ram.Values
    ensures ok ==> pm.Valid() && Translates(pm.mem, pm.topLevel, got) && Open(pm.mem, pm.tables)
    ensures ok ==> SameElsewhere(KernelLayout(k, cs, hhdm), got, fb.address, FramebufferPages(fb))
    ensures ok && drawn ==> got == AddFramebuffer(KernelLayout(k, cs, hhdm), fb, hhdm)
    ensures ok && full && drawn ==> Canon(pm.mem, pm.topLevel, pm.tables)
    ensures ok && full && drawn <==> pm.refusals == old(pm.refusals)
  {
    hide Vmm.PageMap.Valid, Translates, Canon, SameElsewhere, Open;
    got, drawn := map[], true;
    ok, full := SetupRoot(pm);
    if !ok { return; }
    ok := MapPages(pm, k.virtualBase, k.physicalBase, KernelPages(k), KernelRights(k), map[]);
    if !ok { return; }
    ok := MapChunks(pm, cs, hhdm, AddPages(map[], k.virtualBase, k.physicalBase, KernelPages(k), KernelRights(k)));
    if !ok { return; }
    got, drawn := MapFramebuffer(pm, fb, hhdm, KernelLayout(k, cs, hhdm));
  }

  // ---------------------------------------------------------------- what the layout says

  /** A range of pages of the upper half. */
  predicate UpperRange(virt: nat, n: nat) {
    virt % 4096 == 0 && U64 - 0x8000_0000_0000 <= virt && PageAddr(virt, n) <= U64
  }

  predicate RangesApart(v: nat, n: nat, w: nat, k: nat) { PageAddr(v, n) <= w || PageAddr(w, k) <= v }

  /** Different pages of the upper half have different numbers. */
  lemma UpperPages(v: nat, w: nat)
    requires U64 - 0x8000_0000_0000 <= v < U64 && U64 - 0x8000_0000_0000 <= w < U64
    requires v % 4096 == 0 && w % 4096 == 0 && v != w
    ensures PageOf(v) != PageOf(w)
  {
    if PageOf(v) == PageOf(w) { CanonicalPage(v, w); }
  }

  /** A page of an upper range is an aligned upper-half address inside the range. */
  lemma InRange(v: nat, n: nat, j: nat)
    requires UpperRange(v, n) && j < n
    ensures var a := PageAddr(v, j); v <= a && a + 4096 <= PageAddr(v, n) && a % 4096 == 0
    ensures U64 - 0x8000_0000_0000 <= v && PageAddr(v, n) <= U64
  {
  }

  lemma NotAmong(v: nat, n: nat, w: nat, k: nat, j: nat)
    requires UpperRange(v, n) && UpperRange(w, k) && RangesApart(v, n, w, k) && j < n
    ensures !Among(w, k, PageOf(PageAddr(v, j)))
  {
    hide PageOf, UpperRange, PageAddr;
    InRange(v, n, j);
    forall i | 0 <= i < k ensures PageOf(PageAddr(v, j)) != PageOf(PageAddr(w, i)) {
      InRange(w, k, i);
      UpperPages(PageAddr(v, j), PageAddr(w, i));
    }
  }

  lemma {:induction false} AddPagesElsewhere(l: Layout, virt: nat, phys: nat, n: nat, r: Rights, p: nat)
    requires !Among(virt, n, p)
    ensures var l2 := AddPages(l, virt, phys, n, r); (p in l2 <==> p in l) && (p in l ==> l2[p] == l[p])
  {
    if n > 0 {
      assert !Among(virt, n - 1, p);
      assert p != PageOf(PageAddr(virt, n - 1));
      AddPagesElsewhere(l, virt, phys, n - 1, r, p);
    }
  }

  lemma {:induction false} AddPagesAt(l: Layout, virt: nat, phys: nat, n: nat, r: Rights, j: nat)
    requires UpperRange(virt, n) && j < n
    ensures var l2 := AddPages(l, virt, phys, n, r);
            var p := PageOf(PageAddr(virt, j));
            p in l2 && l2[p] == Leaf(PageAddr(phys, j), FlagsOf(r, PageAddr(virt, j)))
  {
    hide Leaf, PageOf, FlagsOf, UpperRange, PageAddr;
    if j < n - 1 {
      ShorterRange(virt, n);
      AddPagesAt(l, virt, phys, n - 1, r, j);
      RangePages(virt, n, j, n - 1);
    }
  }

  lemma ShorterRange(virt: nat, n: nat)
    requires UpperRange(virt, n) && n > 0
    ensures UpperRange(virt, n - 1)
  {
  }

  lemma RangePages(virt: nat, n: nat, i: nat, j: nat)
    requires UpperRange(virt, n) && i < j < n
    ensures PageOf(PageAddr(virt, i)) != PageOf(PageAddr(virt, j))
  {
    assert PageAddr(virt, i) / 4096 == virt / 4096 + i && PageAddr(virt, j) / 4096 == virt / 4096 + j;
    assert j - i < 0x10_0000_0000;
  }

  function WindowStart(c: MemMap.Chunk, hhdm: nat): nat { AlignUp(c.base) + hhdm }

  /** The windows of the chunks lie in the upper half, away from a given range. */
  ghost predicate WindowsApart(cs: seq<MemMap.Chunk>, hhdm: nat, v: nat, n: nat) {
    forall c | c in cs ::
      UpperRange(WindowStart(c, hhdm), ChunkPages(c)) && RangesApart(v, n, WindowStart(c, hhdm), ChunkPages(c))
  }

  lemma {:induction false} AddChunksElsewhere(l: Layout, cs: seq<MemMap.Chunk>, hhdm: nat, v: nat, n: nat, j: nat)
    requires UpperRange(v, n) && j < n && WindowsApart(cs, hhdm, v, n)
    ensures var l2 := AddChunks(l, cs, hhdm);
            var p := PageOf(PageAddr(v, j));
            (p in l2 <==> p in l) && (p in l ==> l2[p] == l[p])
  {
    if cs != [] {
      var c := cs[|cs| - 1];
      assert c in cs;
      AddChunksElsewhere(l, cs[..|cs| - 1], hhdm, v, n, j);
      NotAmong(v, n, WindowStart(c, hhdm), ChunkPages(c), j);
      AddPagesElsewhere(AddChunks(l, cs[..|cs| - 1], hhdm), WindowStart(c, hhdm), AlignUp(c.base), ChunkPages(c),
          Fixed(3), PageOf(PageAddr(v, j)));
    }
  }

  /** Kernel, windows and framebuffer lie apart in the upper half. */
  ghost predicate LayoutApart(k: Kernel, cs: seq<MemMap.Chunk>, hhdm: nat, fb: Framebuffer) {
    && UpperRange(k.virtualBase, KernelPages(k)) && UpperRange(fb.address, FramebufferPages(fb))
    && RangesApart(k.virtualBase, KernelPages(k), fb.address, FramebufferPages(fb))
    && WindowsApart(cs, hhdm, k.virtualBase, KernelPages(k)) && WindowsApart(cs, hhdm, fb.address, FramebufferPages(fb))
  }

  /** Every kernel page maps to its place in the loaded executable, with the rights of its section. */
  lemma KernelMapped(m: Mem, root: Frame, k: Kernel, cs: seq<MemMap.Chunk>, hhdm: nat, fb: Framebuffer, got: Layout,
          j: nat)
    requires Translates(m, root, got) && SameElsewhere(KernelLayout(k, cs, hhdm), got, fb.address, FramebufferPages(fb))
    requires LayoutApart(k, cs, hhdm, fb) && j < KernelPages(k)
    ensures var v := PageAddr(k.virtualBase, j);
            Walk(m, root, v) == Some(Leaf(v - k.virtualBase + k.physicalBase, KernelFlags(k, v)))
  {
    hide Leaf, AddPages, AddChunks, KernelPages, ChunkPages, AlignUp, FramebufferPages, PageOf, UpperRange, RangesApart,
         WindowsApart, KernelFlags, Among;
    AddPagesAt(map[], k.virtualBase, k.physicalBase, KernelPages(k), KernelRights(k), j);
    AddChunksElsewhere(AddPages(map[], k.virtualBase, k.physicalBase, KernelPages(k), KernelRights(k)), cs, hhdm,
        k.virtualBase, KernelPages(k), j);
    NotAmong(k.virtualBase, KernelPages(k), fb.address, FramebufferPages(fb), j);
  }

  /** No kernel page can be both written and executed, taking every level of the tables into account. */
  lemma KernelProtected(m: Mem, root: Frame, tables: Tables, k: Kernel, cs: seq<MemMap.Chunk>, hhdm: nat,
          fb: Framebuffer, got: Layout, j: nat)
    requires Shape(m, root, tables) && Open(m, tables)
    requires Translates(m, root, got) && SameElsewhere(KernelLayout(k, cs, hhdm), got, fb.address, FramebufferPages(fb))
    requires LayoutApart(k, cs, hhdm, fb) && j < KernelPages(k)
    ensures var v := PageAddr(k.virtualBase, j);
            !(PageRuns.MayWrite(m, root, v, 4) && PageRuns.MayExecute(m, root, v, 4))
  {
    var v := PageAddr(k.virtualBase, j);
    var phys: nat := v - k.virtualBase + k.physicalBase;
    hide *;
    KernelMapped(m, root, k, cs, hhdm, fb, got, j);
    PageRuns.RightsOfLeaf(m, root, tables, v, 4);
    LeafProtected(k, v, phys);
  }

  lemma LeafProtected(k: Kernel, v: nat, phys: nat)
    ensures var e := Leaf(phys, KernelFlags(k, v)); e.Ref? && (e.raw & PTE_WRITABLE != 0 ==> e.raw & PTE_NX != 0)
  {
    hide KernelFlags, LeafEntry;
    WriteXorExecute(k, v, (phys % U64) as bv64);
    PresentDecodes(LeafEntry((phys % U64) as bv64, KernelFlags(k, v)));
  }

  /** What a leaf entry for a physical page holds. */
  lemma LeafHolds(phys: nat, flags: bv64)
    requires IsFrame((phys % U64) as bv64) && PlainFlags(flags)
    ensures var e := Leaf(phys, flags);
            e.Ref? && e.frame == Frame((phys % U64) as bv64) && PteGetFlags(e.raw) == flags | PTE_PRESENT
  {
    LeafPresent((phys % U64) as bv64, flags);
    LeafFields((phys % U64) as bv64, flags);
  }

  predicate UpperWindow(c: MemMap.Chunk, hhdm: nat) { UpperRange(WindowStart(c, hhdm), ChunkPages(c)) }

  predicate WindowsApartPair(c: MemMap.Chunk, d: MemMap.Chunk, hhdm: nat) {
    RangesApart(WindowStart(c, hhdm), ChunkPages(c), WindowStart(d, hhdm), ChunkPages(d))
  }

  /** The windows of the chunks lie in the upper half and do not overlap. */
  ghost predicate WindowsDisjoint(cs: seq<MemMap.Chunk>, hhdm: nat) {
    && (forall i {:trigger UpperWindow(cs[i], hhdm)} | 0 <= i < |cs| :: UpperWindow(cs[i], hhdm))
    && (forall i, j {:trigger WindowsApartPair(cs[i], cs[j], hhdm)} | 0 <= i < j < |cs| ::
          WindowsApartPair(cs[i], cs[j], hhdm))
  }

  lemma WindowsOfPrefix(cs: seq<MemMap.Chunk>, hhdm: nat)
    requires WindowsDisjoint(cs, hhdm) && cs != []
    ensures WindowsDisjoint(cs[..|cs| - 1], hhdm)
  {
    hide UpperWindow, WindowsApartPair;
    var ds := cs[..|cs| - 1];
    forall i | 0 <= i < |ds| ensures UpperWindow(ds[i], hhdm) { assert UpperWindow(cs[i], hhdm); }
    forall i, j | 0 <= i < j < |ds| ensures WindowsApartPair(ds[i], ds[j], hhdm) {
      assert WindowsApartPair(cs[i], cs[j], hhdm);
    }
  }

  lemma {:induction false} AddChunksAt(l: Layout, cs: seq<MemMap.Chunk>, hhdm: nat, i: nat, j: nat)
    requires i < |cs| && j < ChunkPages(cs[i])
    requires WindowsDisjoint(cs, hhdm)
    ensures var l2 := AddChunks(l, cs, hhdm);
            var p := PageOf(PageAddr(WindowStart(cs[i], hhdm), j));
            p in l2 && l2[p] == Leaf(PageAddr(AlignUp(cs[i].base), j), 3)
  {
    var c := cs[|cs| - 1];
    var before := AddChunks(l, cs[..|cs| - 1], hhdm);
    assert UpperWindow(c, hhdm) && UpperWindow(cs[i], hhdm);
    hide AlignUp, ChunkPages, Leaf, PageOf, AddChunk;
    if i == |cs| - 1 {
      NewWindow(before, c, hhdm, j);
    } else {
      WindowsOfPrefix(cs, hhdm);
      assert WindowsApartPair(cs[i], c, hhdm);
      hide WindowsDisjoint, WindowsApartPair, UpperWindow;
      AddChunksAt(l, cs[..|cs| - 1], hhdm, i, j);
      OldWindow(before, cs[i], c, hhdm, j);
    }
  }

  lemma NewWindow(l: Layout, c: MemMap.Chunk, hhdm: nat, j: nat)
    requires UpperWindow(c, hhdm) && j < ChunkPages(c)
    ensures var p := PageOf(PageAddr(WindowStart(c, hhdm), j));
            p in AddChunk(l, c, hhdm) && AddChunk(l, c, hhdm)[p] == Leaf(PageAddr(AlignUp(c.base), j), 3)
  {
    hide AlignUp, ChunkPages, Leaf, PageOf;
    AddPagesAt(l, WindowStart(c, hhdm), AlignUp(c.base), ChunkPages(c), Fixed(3), j);
  }

  lemma OldWindow(l: Layout, d: MemMap.Chunk, c: MemMap.Chunk, hhdm: nat, j: nat)
    requires UpperWindow(c, hhdm) && UpperWindow(d, hhdm) && WindowsApartPair(d, c, hhdm) && j < ChunkPages(d)
    ensures var p := PageOf(PageAddr(WindowStart(d, hhdm), j));
            var l2 := AddChunk(l, c, hhdm);
            (p in l2 <==> p in l) && (p in l ==> l2[p] == l[p])
  {
    hide AlignUp, ChunkPages, Leaf, PageOf;
    NotAmong(WindowStart(d, hhdm), ChunkPages(d), WindowStart(c, hhdm), ChunkPages(c), j);
    AddPagesElsewhere(l, WindowStart(c, hhdm), AlignUp(c.base), ChunkPages(c), Fixed(3),
        PageOf(PageAddr(WindowStart(d, hhdm), j)));
  }

  /** The windows of maximal runs never overlap. */
  lemma MaximalWindowsApart(cs: seq<MemMap.Chunk>, hhdm: nat)
    requires MemMap.Maximal(cs) && hhdm % 4096 == 0 && U64 - 0x8000_0000_0000 <= hhdm
    requires forall c | c in cs :: c.bounds <= U64 - hhdm - 4096
    ensures WindowsDisjoint(cs, hhdm)
  {
    hide MemMap.InChunk;
    forall i | 0 <= i < |cs| ensures UpperWindow(cs[i], hhdm) {
      assert cs[i] in cs;
      WindowEnd(cs[i], hhdm);
    }
    forall i, j | 0 <= i < j < |cs| ensures WindowsApartPair(cs[i], cs[j], hhdm) {
      assert cs[i] in cs && cs[j] in cs;
      WindowEnd(cs[i], hhdm);
      WindowEnd(cs[j], hhdm);
      AlignUpOrder(cs[i].bounds, cs[j].base);
    }
  }

  lemma AlignUpOrder(a: nat, b: nat)
    requires a <= b <= U64 - 4096
    ensures AlignUp(a) <= AlignUp(b) && a <= AlignUp(a) < a + 4096
  {
    assert (a + 4095) % U64 == a + 4095 && (b + 4095) % U64 == b + 4095;
  }

  lemma WindowEnd(c: MemMap.Chunk, hhdm: nat)
    requires c.base < c.bounds <= U64 - hhdm - 4096 && hhdm % 4096 == 0 && U64 - 0x8000_0000_0000 <= hhdm <= U64
    ensures PageAddr(AlignUp(c.base), ChunkPages(c)) == AlignUp(c.bounds) && UpperWindow(c, hhdm)
  {
    AlignUpOrder(c.base, c.bounds);
    AlignUpOrder(c.bounds, c.bounds);
    var x, y := AlignUp(c.base) / 4096, AlignUp(c.bounds) / 4096;
    assert AlignUp(c.base) == x * 4096 && AlignUp(c.bounds) == y * 4096;
    hide AlignUp;
    assert x <= y && ChunkPages(c) == y - x;
    var h := hhdm / 4096;
    assert WindowStart(c, hhdm) == (x + h) * 4096;
  }

  /** Every page of usable memory maps at its higher-half address, present and writable: the page at a physical
      address p that the boot map reports as usable is found at p + hhdm. */
  lemma FreeMemoryMapped(m: Mem, root: Frame, k: Kernel, es: seq<MemMap.Entry>, hhdm: nat, fb: Framebuffer,
          got: Layout, p: nat)
    requires MemMap.Sorted(es)
    requires var cs := MemMap.Chunks(es);
             LayoutApart(k, cs, hhdm, fb) && (forall c | c in cs :: c.bounds <= U64 - hhdm - 4096) &&
             SameElsewhere(KernelLayout(k, cs, hhdm), got, fb.address, FramebufferPages(fb))
    requires hhdm % 4096 == 0 && U64 - 0x8000_0000_0000 <= hhdm && Translates(m, root, got)
    requires p % 4096 == 0 && MemMap.Usable(es, p)
    ensures Walk(m, root, p + hhdm) == Some(Leaf(p, 3))
  {
    hide *;
    var i, j := FindWindow(es, hhdm, p);
    ChunkMapped(m, root, k, MemMap.Chunks(es), hhdm, fb, got, i, j);
  }

  /** The window, and the page in it, of a usable page. */
  lemma FindWindow(es: seq<MemMap.Entry>, hhdm: nat, p: nat) returns (i: nat, j: nat)
    requires MemMap.Sorted(es) && p % 4096 == 0 && MemMap.Usable(es, p)
    requires hhdm % 4096 == 0 && U64 - 0x8000_0000_0000 <= hhdm
    requires forall c | c in MemMap.Chunks(es) :: c.bounds <= U64 - hhdm - 4096
    ensures var cs := MemMap.Chunks(es);
            WindowsDisjoint(cs, hhdm) && i < |cs| && j < ChunkPages(cs[i]) &&
            PageAddr(AlignUp(cs[i].base), j) == p && PageAddr(WindowStart(cs[i], hhdm), j) == p + hhdm
  {
    var cs := MemMap.Chunks(es);
    MemMap.ChunksAreMaximalRuns(es);
    assert MemMap.Covered(cs, p);
    i :| 0 <= i < |cs| && MemMap.InChunk(cs[i], p);
    assert cs[i] in cs;
    hide MemMap.Chunks, MemMap.Sorted, MemMap.Usable, MemMap.Covered, AlignUp, ChunkPages;
    MaximalWindowsApart(cs, hhdm);
    j := PageInChunk(cs[i], hhdm, p);
  }

  /** Every page of every window maps to its page of the chunk. */
  lemma ChunkMapped(m: Mem, root: Frame, k: Kernel, cs: seq<MemMap.Chunk>, hhdm: nat, fb: Framebuffer, got: Layout,
          i: nat, j: nat)
    requires Translates(m, root, got) && SameElsewhere(KernelLayout(k, cs, hhdm), got, fb.address, FramebufferPages(fb))
    requires LayoutApart(k, cs, hhdm, fb) && WindowsDisjoint(cs, hhdm) && i < |cs| && j < ChunkPages(cs[i])
    ensures Walk(m, root, PageAddr(WindowStart(cs[i], hhdm), j)) == Some(Leaf(PageAddr(AlignUp(cs[i].base), j), 3))
  {
    hide Leaf, AddPages, AddChunks, KernelPages, ChunkPages, AlignUp, FramebufferPages, PageOf, KernelFlags, Among;
    assert cs[i] in cs && UpperWindow(cs[i], hhdm);
    AddChunksAt(AddPages(map[], k.virtualBase, k.physicalBase, KernelPages(k), KernelRights(k)), cs, hhdm, i, j);
    NotAmong(WindowStart(cs[i], hhdm), ChunkPages(cs[i]), fb.address, FramebufferPages(fb), j);
  }

  /** The page of the window in which an aligned address of the chunk lies. */
  lemma PageInChunk(c: MemMap.Chunk, hhdm: nat, p: nat) returns (j: nat)
    requires c.bounds <= U64 - hhdm - 4096 && hhdm % 4096 == 0 && U64 - 0x8000_0000_0000 <= hhdm <= U64
    requires MemMap.InChunk(c, p) && p % 4096 == 0
    ensures j < ChunkPages(c) && PageAddr(AlignUp(c.base), j) == p && PageAddr(WindowStart(c, hhdm), j) == p + hhdm
    ensures UpperWindow(c, hhdm)
  {
    WindowEnd(c, hhdm);
    AlignUpOrder(c.base, c.bounds);
    AlignUpOrder(c.bounds, c.bounds);
    j := (p - AlignUp(c.base)) / 4096;
  }
}
