/** The pages behind a new heap region. */
module HeapGrowth {
  import opened Wrappers
  import opened PageTable
  import opened PageTree

  /** PRESENT | WRITABLE | NX. */
  const HEAP_FLAGS: bv64 := 0x8000_0000_0000_0003

  /** The leaf entry of a heap page in the given frame. */
  function HeapLeaf(p: Frame): Entry { Decode(LeafEntry(p.addr, HEAP_FLAGS)) }

  function PageAt(v: nat, j: nat): nat { PageOf(PageAddr(v, j)) }

  /** What the hardware finds for page j of a region. */
  function WalkAt(m: Mem, root: Frame, v: nat, j: nat): Option<Entry> { Walk(m, root, PageAddr(v, j)) }

  predicate Distinct(frames: seq<Frame>) { forall i, j | 0 <= i < j < |frames| :: frames[i] != frames[j] }

  /** The frames are different and have been taken from the free ones. */
  ghost predicate Taken(frames: seq<Frame>, was: set<Frame>, free: set<Frame>) {
    && Distinct(frames) && free <= was && |free| + |frames| <= |was|
    && forall i | 0 <= i < |frames| :: frames[i] in was && frames[i] !in free
  }

  lemma TakeOne(frames: seq<Frame>, was: set<Frame>, free: set<Frame>, p: Frame, free2: set<Frame>)
    requires Taken(frames, was, free) && p in free && free2 <= free - {p}
    ensures Taken(frames + [p], was, free2)
  {
    SubsetSize(free2, free - {p});
  }

  /** The page of v translates to e now, and every other page as before. */
  ghost predicate PageSet(m: Mem, m2: Mem, root: Frame, v: nat, e: Entry) {
    Walk(m2, root, v) == Some(e) && forall w | PageOf(w) != PageOf(v) :: Walk(m2, root, w) == Walk(m, root, w)
  }

  /** The pages from v on translate to the given frames, one each; nothing else has changed since m0. */
  ghost predicate RegionMapped(m0: Mem, m: Mem, root: Frame, v: nat, frames: seq<Frame>) {
    && (forall j | 0 <= j < |frames| :: WalkAt(m, root, v, j) == Some(HeapLeaf(frames[j])))
    && (forall w | (forall j | 0 <= j < |frames| :: PageOf(w) != PageAt(v, j)) :: Walk(m, root, w) == Walk(m0, root, w))
  }

  lemma PagesDiffer(v: nat, i: nat, j: nat)
    requires v % PAGE_SIZE == 0 && i < j < 0x10_0000_0000
    ensures PageAt(v, i) != PageAt(v, j)
  {
    assert (v + i * 4096) / 4096 == v / 4096 + i;
    assert (v + j * 4096) / 4096 == v / 4096 + j;
  }

  /** One more page. */
  lemma RegionGrows(m0: Mem, m1: Mem, m3: Mem, root: Frame, v: nat, frames: seq<Frame>, p: Frame)
    requires RegionMapped(m0, m1, root, v, frames) && PageSet(m1, m3, root, PageAddr(v, |frames|), HeapLeaf(p))
    requires v % PAGE_SIZE == 0 && |frames| + 1 < 0x10_0000_0000
    ensures RegionMapped(m0, m3, root, v, frames + [p])
  {
    var all := frames + [p];
    forall j | 0 <= j < |all| ensures WalkAt(m3, root, v, j) == Some(HeapLeaf(all[j])) {
      if j < |frames| {
        PagesDiffer(v, j, |frames|);
        assert WalkAt(m1, root, v, j) == Some(HeapLeaf(frames[j]));
      }
    }
    forall w | forall j | 0 <= j < |all| :: PageOf(w) != PageAt(v, j)
      ensures Walk(m3, root, w) == Walk(m0, root, w)
    {
      assert PageOf(w) != PageAt(v, |frames|);
      assert forall j | 0 <= j < |frames| :: PageOf(w) != PageAt(v, j);
    }
  }

  /** A step that changes no translation keeps the region. */
  lemma RegionStays(m0: Mem, m1: Mem, m2: Mem, root: Frame, v: nat, frames: seq<Frame>)
    requires RegionMapped(m0, m1, root, v, frames) && SameWalks(m1, m2, root)
    ensures RegionMapped(m0, m2, root, v, frames)
  {
  }

  /** The pages from v on are backed by the given frames, taken since memory m0 with free frames was. */
  ghost predicate Backed(m0: Mem, was: set<Frame>, m: Mem, free: set<Frame>, root: Frame, v: nat, frames: seq<Frame>) {
    Taken(frames, was, free) && RegionMapped(m0, m, root, v, frames)
  }

  /** What one step of growing does: a fresh frame for one more page, or nothing. */
  ghost predicate PageAdded(m: Mem, free: set<Frame>, m2: Mem, free2: set<Frame>, root: Frame, v: nat, p: Frame) {
    p in free && free2 <= free - {p} && PageSet(m, m2, root, v, HeapLeaf(p))
  }

  lemma BackedNone(m: Mem, free: set<Frame>, root: Frame, v: nat)
    ensures Backed(m, free, m, free, root, v, [])
  {
  }

  lemma BackedGrows(m0: Mem, was: set<Frame>, m: Mem, free: set<Frame>, m2: Mem, free2: set<Frame>, root: Frame,
          v: nat, frames: seq<Frame>, n: nat, p: Frame)
    requires Backed(m0, was, m, free, root, v, frames) && n == |frames|
    requires PageAdded(m, free, m2, free2, root, PageAddr(v, n), p)
    requires v % PAGE_SIZE == 0 && |frames| + 1 < 0x10_0000_0000
    ensures Backed(m0, was, m2, free2, root, v, frames + [p]) && |free2| + |frames| + 1 <= |was|
  {
    TakeOne(frames, was, free, p, free2);
    RegionGrows(m0, m, m2, root, v, frames, p);
  }

  lemma BackedStays(m0: Mem, was: set<Frame>, m: Mem, free: set<Frame>, m2: Mem, root: Frame, v: nat,
          frames: seq<Frame>)
    requires Backed(m0, was, m, free, root, v, frames) && SameWalks(m, m2, root)
    ensures Backed(m0, was, m2, free, root, v, frames)
  {
    RegionStays(m0, m, m2, root, v, frames);
  }

  /** A heap page is writable, not executable, and lies in its frame. */
  lemma HeapLeafFields(p: Frame)
    requires IsFrame(p.addr)
    ensures HeapLeaf(p).Ref? && HeapLeaf(p).frame == p
    ensures PteGetFlags(HeapLeaf(p).raw) == PTE_PRESENT | PTE_WRITABLE | PTE_NX
  {
    LeafPresent(p.addr, 0x8000_0000_0000_0003);
    LeafFields(p.addr, 0x8000_0000_0000_0003);
  }

  lemma SubsetSize(a: set<Frame>, b: set<Frame>)
    requires a <= b
    ensures |a| <= |b|
  {
    var rest := b - a;
    assert b == a + rest;
  }
}
