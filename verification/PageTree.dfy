/** The tree of page tables in physical memory: its shape, the 4-level walk, and the effect of
    linking an empty table, unlinking an empty table and writing a leaf entry. */
module PageTree {
  import opened Wrappers
  import opened PageTable

  /** A page-table entry as the walk sees it: all zeros, not present but not zero, or a reference to a frame. */
  datatype Entry = Zero | Junk | Ref(frame: Frame, raw: bv64)

  function Decode(e: bv64): Entry {
    if e == 0 then Zero else if Present(e) then Ref(Frame(PteGetAddr(e)), e) else Junk
  }

  /** The flags of a new table entry: those asked for, or PRESENT | WRITABLE. */
  function TableFlags(flags: bv64): bv64 { if flags == 0 then 3 else flags }

  /** Flags fit for a table entry. */
  predicate TableFlagsOk(flags: bv64) { PlainFlags(flags) && (flags == 0 || Present(flags)) }

  lemma PresentDecodes(e: bv64)
    requires Present(e)
    ensures Decode(e) == Ref(Frame(PteGetAddr(e)), e)
  {
  }

  lemma EntryDecodes(phys: bv64, flags: bv64)
    requires IsFrame(phys) && PlainFlags(flags) && Present(flags)
    ensures Decode(phys | flags) == Ref(Frame(phys), phys | flags)
  {
    EntryFields(phys, flags);
    PresentDecodes(phys | flags);
  }

  lemma TableFlagsPresent(flags: bv64)
    requires TableFlagsOk(flags)
    ensures PlainFlags(TableFlags(flags)) && Present(TableFlags(flags))
  {
  }

  /** The entry that points at table p. */
  function TableWord(p: Frame, flags: bv64): bv64 { p.addr | TableFlags(flags) }

  /** A new table entry is present and leads to the new frame. */
  lemma TableEntry(p: Frame, flags: bv64)
    requires IsFrame(p.addr) && TableFlagsOk(flags)
    ensures Decode(TableWord(p, flags)) == Ref(p, TableWord(p, flags))
  {
    TableFlagsPresent(flags);
    EntryDecodes(p.addr, TableFlags(flags));
  }

  /** Intermediate tables are writable, and reachable from user mode if the page is. */
  function AllocFlags(flags: bv64): bv64 { if flags & 4 != 0 then 7 else 3 }

  lemma AllocFlagsOk(flags: bv64)
    ensures TableFlagsOk(AllocFlags(flags))
  {
  }

  /** An entry that takes no rights away from the pages below it: writable and executable. */
  predicate Unrestricted(e: Entry) { e.Ref? ==> e.raw & PTE_WRITABLE != 0 && e.raw & PTE_NX == 0 }

  /** Flags for such an entry. */
  predicate OpenFlags(flags: bv64) { TableFlags(flags) & PTE_WRITABLE != 0 && TableFlags(flags) & PTE_NX == 0 }

  lemma AllocFlagsOpen(flags: bv64)
    ensures OpenFlags(AllocFlags(flags)) && OpenFlags(0)
  {
  }

  lemma TableWordOpen(p: Frame, flags: bv64)
    requires IsFrame(p.addr) && OpenFlags(flags)
    ensures Unrestricted(Ref(p, TableWord(p, flags)))
  {
    WordOpen(p.addr, TableFlags(flags));
  }

  lemma WordOpen(p: bv64, f: bv64)
    requires IsFrame(p) && f & PTE_WRITABLE != 0 && f & PTE_NX == 0
    ensures (p | f) & PTE_WRITABLE != 0 && (p | f) & PTE_NX == 0
  {
  }

  /** A leaf entry is present. */
  lemma LeafPresent(phys: bv64, flags: bv64)
    ensures Decode(LeafEntry(phys, flags)).Ref?
  {
  }

  /** Where a table hangs: its level, and the entry of its parent that points at it. */
  datatype Link = Link(level: nat, parent: Frame, slot: nat)

  type Tables = map<Frame, Link>

  /** Physical memory as the walk sees it, frame by frame. */
  type Mem = map<Frame, seq<Entry>>

  predicate InRam(m: Mem, t: Frame) { t in m && |m[t]| == 512 }

  /** Both memories have the same frames, all of full size. */
  ghost predicate SameFrames(m: Mem, m2: Mem) {
    m.Keys == m2.Keys && forall t | t in m :: |m[t]| == |m2[t]| == 512
  }

  /** Entry i of the table in frame t. */
  function At(m: Mem, t: Frame, i: nat): Entry {
    if InRam(m, t) && i < 512 then m[t][i] else Zero
  }

  predicate IsEmpty(m: Mem, t: Frame) { forall i | 0 <= i < 512 :: At(m, t, i) == Zero }

  // ---------------------------------------------------------------- the walk

  /** The table of the given level on the walk for v. */
  function TableAt(m: Mem, root: Frame, v: nat, level: nat): Option<Frame>
    requires 1 <= level <= 4
    decreases 4 - level
  {
    if level == 4 then Some(root)
    else match TableAt(m, root, v, level + 1)
      case None => None
      case Some(t) =>
        var e := At(m, t, Index(v, level + 1));
        if e.Ref? then Some(e.frame) else None
  }

  /** The leaf entry the hardware finds for v. */
  function Walk(m: Mem, root: Frame, v: nat): Option<Entry> {
    match TableAt(m, root, v, 1)
    case None => None
    case Some(t) =>
      var e := At(m, t, Index(v, 1));
      if e.Ref? then Some(e) else None
  }

  /** Both memories translate every address alike. */
  ghost predicate SameWalks(m: Mem, m2: Mem, root: Frame) { forall v :: Walk(m2, root, v) == Walk(m, root, v) }

  // ---------------------------------------------------------------- the shape

  /** Entry i of table t is zero or present, and above the leaves leads to a table that hangs exactly there. */
  predicate EntryOk(m: Mem, tables: Tables, t: Frame, i: nat)
    requires t in tables
  {
    var e := At(m, t, i);
    e == Zero ||
    (e.Ref? && (tables[t].level > 1 ==>
       e.frame in tables && tables[e.frame] == Link(tables[t].level - 1, t, i)))
  }

  /** Table t is pointed at by the entry it hangs from. */
  predicate LinkOk(m: Mem, tables: Tables, t: Frame)
    requires t in tables
  {
    var l := tables[t];
    l.parent in tables && l.level + 1 == tables[l.parent].level && l.slot < 512 &&
    At(m, l.parent, l.slot).Ref? && At(m, l.parent, l.slot).frame == t
  }

  /** The tables form a tree of distinct frames under the root; every entry is zero or present. */
  ghost predicate Shape(m: Mem, root: Frame, tables: Tables) {
    && root in tables && tables[root].level == 4
    && (forall t | t in tables :: InRam(m, t) && 1 <= tables[t].level <= 4)
    && (forall t, i {:trigger EntryOk(m, tables, t, i)} | t in tables && 0 <= i < 512 :: EntryOk(m, tables, t, i))
    && (forall t {:trigger LinkOk(m, tables, t)} | t in tables && t != root :: LinkOk(m, tables, t))
  }

  /** A table that the kernel keeps even when it is empty: the root and the PDPTs of the upper half. */
  predicate Kept(root: Frame, t: Frame, l: Link) { t == root || (l.level == 3 && l.slot >= 256) }

  /** No table is empty except the ones the kernel keeps. */
  ghost predicate NoEmptyTables(m: Mem, root: Frame, tables: Tables) {
    forall t | t in tables && !Kept(root, t, tables[t]) :: !IsEmpty(m, t)
  }

  /** No table but c is empty except the ones the kernel keeps. */
  ghost predicate NoEmptyTablesBut(m: Mem, root: Frame, tables: Tables, c: Frame) {
    forall t | t in tables && t != c && !Kept(root, t, tables[t]) :: !IsEmpty(m, t)
  }

  /** No entry above the leaves takes rights away. */
  ghost predicate Open(m: Mem, tables: Tables) {
    forall t, i {:trigger At(m, t, i)} | t in tables && tables[t].level > 1 && 0 <= i < 512 :: Unrestricted(At(m, t, i))
  }

  /** All 256 PDPTs of the upper half are linked. */
  ghost predicate UpperHalf(m: Mem, root: Frame) { forall i | 256 <= i < 512 :: At(m, root, i) != Zero }

  /** A walk visits tables of the tree, each hanging from the one before it. */
  lemma {:induction false} WalkStaysInTree(m: Mem, root: Frame, tables: Tables, v: nat, level: nat)
    requires Shape(m, root, tables) && 1 <= level <= 4
    ensures TableAt(m, root, v, level).Some? ==>
              var t := TableAt(m, root, v, level).value;
              t in tables && tables[t].level == level &&
              (level < 4 ==> TableAt(m, root, v, level + 1) == Some(tables[t].parent) &&
                             tables[t].slot == Index(v, level + 1))
    decreases 4 - level
  {
    if level < 4 {
      WalkStaysInTree(m, root, tables, v, level + 1);
      if TableAt(m, root, v, level).Some? {
        var t := TableAt(m, root, v, level + 1).value;
        assert EntryOk(m, tables, t, Index(v, level + 1));
      }
    }
  }

  /** Two walks that meet in a table took the same indices to get there. */
  lemma {:induction false} WalksMeet(m: Mem, root: Frame, tables: Tables, v: nat, w: nat, level: nat)
    requires Shape(m, root, tables) && 1 <= level <= 4
    requires TableAt(m, root, v, level).Some? && TableAt(m, root, v, level) == TableAt(m, root, w, level)
    ensures forall k | level < k <= 4 :: Index(v, k) == Index(w, k)
    decreases 4 - level
  {
    if level < 4 {
      WalkStaysInTree(m, root, tables, v, level);
      WalkStaysInTree(m, root, tables, w, level);
      WalksMeet(m, root, tables, v, w, level + 1);
    }
  }

  /** State a is state c with some tables and entries taken away. */
  ghost predicate Within(a: Mem, ta: Tables, c: Mem, tc: Tables) {
    && (forall t | t in ta :: t in tc && tc[t] == ta[t])
    && (forall t, j | t in ta && 0 <= j < 512 :: At(a, t, j) == Zero || At(a, t, j) == At(c, t, j))
  }

  // ---------------------------------------------------------------- writes

  /** The tree and the translations depend on the contents of its tables only. */
  lemma {:induction false} OnlyTablesMatter(m: Mem, m2: Mem, root: Frame, tables: Tables)
    requires Shape(m, root, tables) && SameFrames(m, m2)
    requires forall t, i | t in tables && 0 <= i < 512 :: At(m2, t, i) == At(m, t, i)
    ensures Shape(m2, root, tables)
    ensures SameWalks(m, m2, root)
    ensures forall v, l | 1 <= l <= 4 :: TableAt(m2, root, v, l) == TableAt(m, root, v, l)
  {
    forall t | t in tables && t != root
      ensures LinkOk(m2, tables, t)
    {
      assert LinkOk(m, tables, t);
    }
    forall t, i | t in tables && 0 <= i < 512 ensures EntryOk(m2, tables, t, i) {
      assert EntryOk(m, tables, t, i);
    }
    forall v, l | 1 <= l <= 4 ensures TableAt(m2, root, v, l) == TableAt(m, root, v, l) {
      OnlyTablesMatterWalk(m, m2, root, tables, v, l);
    }
    forall v ensures Walk(m2, root, v) == Walk(m, root, v) {
      assert TableAt(m2, root, v, 1) == TableAt(m, root, v, 1);
      WalkStaysInTree(m, root, tables, v, 1);
    }
  }

  lemma {:induction false} OnlyTablesMatterWalk(m: Mem, m2: Mem, root: Frame, tables: Tables, v: nat, level: nat)
    requires Shape(m, root, tables) && 1 <= level <= 4
    requires forall t, i | t in tables && 0 <= i < 512 :: At(m2, t, i) == At(m, t, i)
    ensures TableAt(m2, root, v, level) == TableAt(m, root, v, level)
    decreases 4 - level
  {
    if level < 4 {
      OnlyTablesMatterWalk(m, m2, root, tables, v, level + 1);
      WalkStaysInTree(m, root, tables, v, level + 1);
    }
  }

  /** m2 is m with the contents of frame p changed. */
  ghost predicate FrameWritten(m: Mem, m2: Mem, p: Frame) {
    SameFrames(m, m2) && forall u: Frame, j: nat | u != p :: At(m2, u, j) == At(m, u, j)
  }

  /** m2 is m with entry i of table t changed to e. */
  ghost predicate EntryWritten(m: Mem, m2: Mem, t: Frame, i: nat, e: Entry) {
    SameFrames(m, m2) && At(m2, t, i) == e &&
    forall u: Frame, j: nat | !(u == t && j == i) :: At(m2, u, j) == At(m, u, j)
  }

  /** m2 is m with entry i of table t pointing at the cleared frame p. */
  ghost predicate Hung(m: Mem, m2: Mem, t: Frame, i: nat, p: Frame, raw: bv64) {
    SameFrames(m, m2) && At(m2, t, i) == Ref(p, raw) && IsEmpty(m2, p) &&
    forall u: Frame, j: nat | u != p && !(u == t && j == i) :: At(m2, u, j) == At(m, u, j)
  }

  /** What the new table's frame held before does not matter. */
  lemma HungFresh(m: Mem, m1: Mem, m2: Mem, t: Frame, i: nat, p: Frame, raw: bv64)
    requires FrameWritten(m, m1, p) && Hung(m1, m2, t, i, p, raw)
    ensures Hung(m, m2, t, i, p, raw)
  {
  }

  /** m2 holds the same entries as m in all the given tables, except possibly entry i of table t. */
  ghost predicate SameBut(m: Mem, m2: Mem, tables: Tables, t: Frame, i: nat) {
    forall u, j | u in tables && 0 <= j < 512 && !(u == t && j == i) :: At(m2, u, j) == At(m, u, j)
  }

  /** m2 is m with the empty table p hung from entry i of table t. */
  ghost predicate Grafted(m: Mem, m2: Mem, tables: Tables, t: Frame, i: nat, p: Frame) {
    && SameFrames(m, m2) && t in tables && tables[t].level > 1 && i < 512
    && p !in tables && InRam(m, p)
    && At(m, t, i) == Zero && At(m2, t, i).Ref? && At(m2, t, i).frame == p
    && SameBut(m, m2, tables, t, i) && IsEmpty(m2, p)
  }

  /** Hanging an empty table changes no table on any walk, except to reach the new table. */
  lemma {:induction false} GraftWalks(m: Mem, m2: Mem, root: Frame, tables: Tables, t: Frame, i: nat, p: Frame, v: nat,
          level: nat)
    requires Shape(m, root, tables) && Grafted(m, m2, tables, t, i, p) && 1 <= level <= 4
    ensures TableAt(m2, root, v, level) == TableAt(m, root, v, level) ||
            (TableAt(m, root, v, level) == None && TableAt(m2, root, v, level) == Some(p))
    decreases 4 - level
  {
    if level < 4 {
      GraftWalks(m, m2, root, tables, t, i, p, v, level + 1);
      WalkStaysInTree(m, root, tables, v, level + 1);
      if TableAt(m2, root, v, level + 1).Some? {
        var u, j := TableAt(m2, root, v, level + 1).value, Index(v, level + 1);
        if u == p {
          assert At(m2, p, j) == Zero;
        } else if u != t || j != i {
          assert At(m2, u, j) == At(m, u, j);
        }
      }
    }
  }

  /** Hanging an empty table, or taking it off again, changes no translation. */
  lemma GraftKeepsTranslation(m: Mem, m2: Mem, root: Frame, tables: Tables, t: Frame, i: nat, p: Frame)
    requires Shape(m, root, tables) && Grafted(m, m2, tables, t, i, p)
    ensures SameWalks(m, m2, root)
  {
    forall v ensures Walk(m2, root, v) == Walk(m, root, v) {
      GraftWalks(m, m2, root, tables, t, i, p, v, 1);
      WalkStaysInTree(m, root, tables, v, 1);
    }
  }

  lemma GraftShape(m: Mem, m2: Mem, root: Frame, tables: Tables, t: Frame, i: nat, p: Frame)
    requires Shape(m, root, tables) && Grafted(m, m2, tables, t, i, p)
    ensures Shape(m2, root, tables[p := Link(tables[t].level - 1, t, i)])
  {
    var tables2 := tables[p := Link(tables[t].level - 1, t, i)];
    forall u, j | u in tables2 && 0 <= j < 512
      ensures EntryOk(m2, tables2, u, j)
    {
      if u == p {
        assert At(m2, p, j) == Zero;
      } else {
        assert EntryOk(m, tables, u, j);
      }
    }
    forall u | u in tables2 && u != root
      ensures LinkOk(m2, tables2, u)
    {
      if u != p { assert LinkOk(m, tables, u); }
    }
  }

  /** Taking an empty table off the tree leaves a tree. */
  lemma PruneShape(m: Mem, m2: Mem, root: Frame, tables: Tables, p: Frame)
    requires Shape(m, root, tables) && p in tables && p != root && IsEmpty(m, p) && SameFrames(m, m2)
    requires At(m2, tables[p].parent, tables[p].slot) == Zero
    requires SameBut(m, m2, tables, tables[p].parent, tables[p].slot)
    ensures Shape(m2, root, tables - {p}) && tables[p].parent in tables - {p}
    ensures Grafted(m2, m, tables - {p}, tables[p].parent, tables[p].slot, p)
  {
    var tables2 := tables - {p};
    var l := tables[p];
    assert LinkOk(m, tables, p);
    assert EntryOk(m, tables, l.parent, l.slot);
    forall u, j | u in tables2 && 0 <= j < 512
      ensures EntryOk(m2, tables2, u, j)
    {
      assert EntryOk(m, tables, u, j);
    }
    forall u | u in tables2 && u != root
      ensures LinkOk(m2, tables2, u)
    {
      assert LinkOk(m, tables, u);
    }
  }

  /** A write of an entry of a leaf table keeps the tree and every table on every walk. */
  lemma {:induction false} LeafWrite(m: Mem, m2: Mem, root: Frame, tables: Tables, t: Frame, i: nat)
    requires Shape(m, root, tables) && t in tables && tables[t].level == 1 && i < 512 && SameFrames(m, m2)
    requires SameBut(m, m2, tables, t, i) && !At(m2, t, i).Junk?
    ensures Shape(m2, root, tables)
    ensures forall v, level | 1 <= level <= 4 :: TableAt(m2, root, v, level) == TableAt(m, root, v, level)
  {
    forall u, j | u in tables && 0 <= j < 512 ensures EntryOk(m2, tables, u, j) {
      assert EntryOk(m, tables, u, j);
    }
    forall u | u in tables && u != root ensures LinkOk(m2, tables, u) {
      assert LinkOk(m, tables, u);
    }
    forall v, level | 1 <= level <= 4 ensures TableAt(m2, root, v, level) == TableAt(m, root, v, level) {
      LeafWriteWalk(m, m2, root, tables, t, i, v, level);
    }
  }

  lemma {:induction false} LeafWriteWalk(m: Mem, m2: Mem, root: Frame, tables: Tables, t: Frame, i: nat, v: nat,
          level: nat)
    requires Shape(m, root, tables) && t in tables && tables[t].level == 1 && 1 <= level <= 4
    requires SameBut(m, m2, tables, t, i)
    ensures TableAt(m2, root, v, level) == TableAt(m, root, v, level)
    decreases 4 - level
  {
    if level < 4 {
      LeafWriteWalk(m, m2, root, tables, t, i, v, level + 1);
      WalkStaysInTree(m, root, tables, v, level + 1);
    }
  }

  /** m2 is m with one entry written in the leaf table on the walk for v. */
  ghost predicate LeafWritten(m: Mem, m2: Mem, root: Frame, tables: Tables, v: nat, e: Entry) {
    && SameFrames(m, m2) && !e.Junk? && TableAt(m, root, v, 1).Some?
    && var t := TableAt(m, root, v, 1).value;
       SameBut(m, m2, tables, t, Index(v, 1)) && At(m2, t, Index(v, 1)) == e
  }

  lemma LeafWriteElsewhere(m: Mem, m2: Mem, root: Frame, tables: Tables, v: nat, e: Entry, w: nat)
    requires Shape(m, root, tables) && LeafWritten(m, m2, root, tables, v, e)
    requires PageOf(w) != PageOf(v) && TableAt(m2, root, w, 1) == TableAt(m, root, w, 1)
    ensures Walk(m2, root, w) == Walk(m, root, w)
  {
    WalkStaysInTree(m, root, tables, w, 1);
    if TableAt(m, root, w, 1) == TableAt(m, root, v, 1) && Index(w, 1) == Index(v, 1) {
      WalksMeet(m, root, tables, v, w, 1);
      assert Index(v, 2) == Index(w, 2) && Index(v, 3) == Index(w, 3) && Index(v, 4) == Index(w, 4);
      IndicesDeterminePage(v, w);
      assert false;
    }
  }

  /** Writing the leaf entry on the walk for v changes the translation of v's page and of no other. */
  lemma LeafWriteTranslates(m: Mem, m2: Mem, root: Frame, tables: Tables, v: nat, e: Entry)
    requires Shape(m, root, tables) && LeafWritten(m, m2, root, tables, v, e)
    ensures Shape(m2, root, tables)
    ensures Walk(m2, root, v) == if e.Ref? then Some(e) else None
    ensures forall w | PageOf(w) != PageOf(v) :: Walk(m2, root, w) == Walk(m, root, w)
  {
    var t := TableAt(m, root, v, 1).value;
    WalkStaysInTree(m, root, tables, v, 1);
    LeafWrite(m, m2, root, tables, t, Index(v, 1));
    assert TableAt(m2, root, v, 1) == Some(t);
    forall w | PageOf(w) != PageOf(v) ensures Walk(m2, root, w) == Walk(m, root, w) {
      assert TableAt(m2, root, w, 1) == TableAt(m, root, w, 1);
      LeafWriteElsewhere(m, m2, root, tables, v, e, w);
    }
  }

  /** The translation of an address depends on its page alone. */
  lemma WalkOfPage(m: Mem, root: Frame, v: nat, w: nat)
    requires PageOf(v) == PageOf(w)
    ensures Walk(m, root, v) == Walk(m, root, w)
  {
    IndicesDeterminePage(v, w);
    assert TableAt(m, root, v, 3) == TableAt(m, root, w, 3);
    assert TableAt(m, root, v, 2) == TableAt(m, root, w, 2);
  }

  /** Entry i of table t leads to table c, and no translation has changed since state (m, tables); an empty
      entry was given a new table and nothing else was touched. */
  ghost predicate Reached(m: Mem, tables: Tables, m2: Mem, tables2: Tables, root: Frame, t: Frame, i: nat, c: Frame,
          flags: bv64)
    requires t in tables
  {
    && Shape(m2, root, tables2) && Within(m, tables, m2, tables2) && SameWalks(m, m2, root)
    && c in tables2 && tables2[c] == Link(tables[t].level - 1, t, i)
    && At(m2, t, i).Ref? && At(m2, t, i).frame == c
    && (At(m, t, i) == Zero ==> At(m2, t, i).raw == TableWord(c, flags) && tables2.Keys == tables.Keys + {c})
    && (At(m, t, i) != Zero ==> m2 == m && tables2 == tables)
    && (NoEmptyTablesBut(m, root, tables, t) ==> NoEmptyTablesBut(m2, root, tables2, c))
    && (OpenFlags(flags) && Open(m, tables) ==> Open(m2, tables2))
  }

  /** A present entry is followed as it is. */
  lemma FollowReaches(m: Mem, root: Frame, tables: Tables, t: Frame, i: nat, flags: bv64)
    requires Shape(m, root, tables) && t in tables && tables[t].level > 1 && i < 512 && At(m, t, i) != Zero
    ensures At(m, t, i).Ref? && Reached(m, tables, m, tables, root, t, i, At(m, t, i).frame, flags)
  {
    assert EntryOk(m, tables, t, i);
  }

  /** Hanging a free frame from an empty entry grafts an empty table: the tree stays a tree, and every
      translation stays what it was. */
  lemma HangReaches(m: Mem, m2: Mem, root: Frame, tables: Tables, t: Frame, i: nat, p: Frame, flags: bv64)
    requires Shape(m, root, tables) && t in tables && tables[t].level > 1 && i < 512 && At(m, t, i) == Zero
    requires p !in tables && p in m && IsFrame(p.addr) && Hung(m, m2, t, i, p, TableWord(p, flags))
    ensures Reached(m, tables, m2, tables[p := Link(tables[t].level - 1, t, i)], root, t, i, p, flags)
  {
    assert Grafted(m, m2, tables, t, i, p);
    GraftShape(m, m2, root, tables, t, i, p);
    GraftKeepsTranslation(m, m2, root, tables, t, i, p);
    if OpenFlags(flags) && Open(m, tables) { HangKeepsOpen(m, m2, tables, t, i, p, flags); }
  }

  lemma HangKeepsOpen(m: Mem, m2: Mem, tables: Tables, t: Frame, i: nat, p: Frame, flags: bv64)
    requires Open(m, tables) && t in tables && tables[t].level > 1 && i < 512 && p !in tables
    requires IsFrame(p.addr) && OpenFlags(flags) && Hung(m, m2, t, i, p, TableWord(p, flags))
    ensures Open(m2, tables[p := Link(tables[t].level - 1, t, i)])
  {
    TableWordOpen(p, flags);
    hide Unrestricted, OpenFlags, TableWord, TableFlags;
    EmptyUnrestricted();
    var tables2 := tables[p := Link(tables[t].level - 1, t, i)];
    forall u, j | u in tables2 && tables2[u].level > 1 && 0 <= j < 512 ensures Unrestricted(At(m2, u, j)) {
      if u == p {
        assert At(m2, p, j) == Zero;
      } else if u != t || j != i {
        assert At(m2, u, j) == At(m, u, j);
      }
    }
  }

  lemma EmptyUnrestricted()
    ensures Unrestricted(Zero)
  {
  }

  /** Taking tables and entries away restricts nothing. */
  lemma WithinOpen(a: Mem, ta: Tables, c: Mem, tc: Tables)
    requires Within(a, ta, c, tc) && Open(c, tc)
    ensures Open(a, ta)
  {
    EmptyUnrestricted();
    hide Unrestricted;
    forall t, i | t in ta && ta[t].level > 1 && 0 <= i < 512 ensures Unrestricted(At(a, t, i)) {
      assert At(a, t, i) == Zero || At(a, t, i) == At(c, t, i);
    }
  }

  lemma {:induction false} WithinWalks(a: Mem, ta: Tables, c: Mem, tc: Tables, root: Frame, v: nat, level: nat)
    requires Shape(a, root, ta) && Within(a, ta, c, tc) && 1 <= level <= 4
    ensures TableAt(a, root, v, level).Some? ==> TableAt(c, root, v, level) == TableAt(a, root, v, level)
    decreases 4 - level
  {
    if level < 4 {
      WithinWalks(a, ta, c, tc, root, v, level + 1);
      WalkStaysInTree(a, root, ta, v, level + 1);
    }
  }

  /** Since state (m0, t0) tables have only been hung, and the walk for v now reaches table c. */
  ghost predicate Descended(m0: Mem, t0: Tables, m: Mem, tables: Tables, root: Frame, v: nat, level: nat, c: Frame)
    requires 1 <= level <= 4
  {
    && Within(m0, t0, m, tables)
    && SameWalks(m0, m, root)
    && TableAt(m, root, v, level) == Some(c) && c in tables && tables[c].level == level
    && (NoEmptyTables(m0, root, t0) ==> NoEmptyTablesBut(m, root, tables, c))
    && (Open(m0, t0) ==> Open(m, tables))
  }

  lemma DescendStart(m: Mem, root: Frame, tables: Tables, v: nat)
    requires Shape(m, root, tables)
    ensures Descended(m, tables, m, tables, root, v, 4, root)
  {
  }

  /** One level further down. */
  lemma DescendStep(m0: Mem, t0: Tables, m1: Mem, t1: Tables, m2: Mem, t2: Tables, root: Frame, v: nat, level: nat,
          t: Frame, c: Frame, flags: bv64)
    requires 2 <= level <= 4 && Shape(m1, root, t1) && Descended(m0, t0, m1, t1, root, v, level, t)
    requires Reached(m1, t1, m2, t2, root, t, Index(v, level), c, flags) && OpenFlags(flags)
    ensures Descended(m0, t0, m2, t2, root, v, level - 1, c)
  {
    WithinWalks(m1, t1, m2, t2, root, v, level);
  }

  /** What a successful map_page does: the page of v translates to e, every other page as before, no table
      disappears, and a canonical tree stays canonical. */
  ghost predicate Mapped(m: Mem, tables: Tables, m2: Mem, tables2: Tables, root: Frame, v: nat, e: Entry) {
    && Walk(m2, root, v) == Some(e)
    && (forall w | PageOf(w) != PageOf(v) :: Walk(m2, root, w) == Walk(m, root, w))
    && tables.Keys <= tables2.Keys
    && (Walk(m, root, v) == None ==> Within(m, tables, m2, tables2))
    && (NoEmptyTables(m, root, tables) ==> NoEmptyTables(m2, root, tables2))
    && (UpperHalf(m, root) ==> UpperHalf(m2, root))
    && (Open(m, tables) ==> Open(m2, tables2))
  }

  lemma LeafKeepsOpen(m: Mem, m2: Mem, tables: Tables, pt: Frame, i: nat, e: Entry)
    requires Open(m, tables) && pt in tables && tables[pt].level == 1 && EntryWritten(m, m2, pt, i, e)
    ensures Open(m2, tables)
  {
    hide Unrestricted;
    forall t, j | t in tables && tables[t].level > 1 && 0 <= j < 512 ensures Unrestricted(At(m2, t, j)) {
      assert At(m2, t, j) == At(m, t, j);
    }
  }

  /** Reaching the leaf table and writing the entry makes a mapping. */
  lemma DescendThenWrite(m0: Mem, t0: Tables, m1: Mem, m2: Mem, tables: Tables, root: Frame, v: nat, pt: Frame,
          e: Entry)
    requires Shape(m1, root, tables) && Descended(m0, t0, m1, tables, root, v, 1, pt) && root in t0
    requires EntryWritten(m1, m2, pt, Index(v, 1), e) && e.Ref?
    ensures Mapped(m0, t0, m2, tables, root, v, e)
  {
    assert LeafWritten(m1, m2, root, tables, v, e);
    LeafWriteTranslates(m1, m2, root, tables, v, e);
    assert EntryOk(m1, tables, pt, Index(v, 1));
    if UpperHalf(m0, root) {
      forall i | 256 <= i < 512 ensures At(m2, root, i) != Zero {
        assert At(m0, root, i) != Zero;
      }
    }
    if Open(m1, tables) { LeafKeepsOpen(m1, m2, tables, pt, Index(v, 1), e); }
  }

  /** A mapping of one address of a page is a mapping of them all. */
  lemma MappedPage(m: Mem, tables: Tables, m2: Mem, tables2: Tables, root: Frame, v: nat, w: nat, e: Entry)
    requires Mapped(m, tables, m2, tables2, root, v, e) && v / PAGE_SIZE == w / PAGE_SIZE
    ensures Mapped(m, tables, m2, tables2, root, w, e)
  {
    WalkOfPage(m, root, v, w);
    WalkOfPage(m2, root, v, w);
  }

  // ---------------------------------------------------------------- unmapping

  /** What unmap_page does to a mapped page: its translation disappears and no other, tables and entries only
      go away, the PDPTs of the upper half stay, and no table is left empty that was not kept empty. */
  ghost predicate Unmapped(m: Mem, tables: Tables, m2: Mem, tables2: Tables, root: Frame, v: nat) {
    && Cleared(m, tables, m2, tables2, root, v)
    && (NoEmptyTables(m, root, tables) ==> NoEmptyTables(m2, root, tables2))
  }

  /** The leaf entry for v is gone since state (m0, t0), and perhaps tables above it. */
  ghost predicate Cleared(m0: Mem, t0: Tables, m: Mem, tables: Tables, root: Frame, v: nat) {
    && Walk(m, root, v) == None
    && (forall w | PageOf(w) != PageOf(v) :: Walk(m, root, w) == Walk(m0, root, w))
    && Within(m, tables, m0, t0)
    && (forall i | 256 <= i < 512 :: At(m, root, i) == At(m0, root, i))
    && (forall t | t in t0 && Kept(root, t, t0[t]) :: t in tables)
  }

  /** Clearing the leaf entry. */
  lemma ClearLeaf(m: Mem, m2: Mem, root: Frame, tables: Tables, v: nat, pt: Frame)
    requires Shape(m, root, tables) && TableAt(m, root, v, 1) == Some(pt) && EntryWritten(m, m2, pt, Index(v, 1), Zero)
    ensures Shape(m2, root, tables) && Cleared(m, tables, m2, tables, root, v)
    ensures NoEmptyTables(m, root, tables) ==> NoEmptyTablesBut(m2, root, tables, pt)
    ensures forall l | 1 <= l <= 4 :: TableAt(m2, root, v, l) == TableAt(m, root, v, l)
  {
    WalkStaysInTree(m, root, tables, v, 1);
    assert LeafWritten(m, m2, root, tables, v, Zero);
    LeafWriteTranslates(m, m2, root, tables, v, Zero);
    LeafWrite(m, m2, root, tables, pt, Index(v, 1));
  }

  /** Empty tables have been taken off: no translation changed, and no PDPT of the upper half went. */
  ghost predicate Trimmed(m: Mem, tables: Tables, m2: Mem, tables2: Tables, root: Frame) {
    && SameWalks(m, m2, root)
    && Within(m2, tables2, m, tables)
    && (forall i | 256 <= i < 512 :: At(m2, root, i) == At(m, root, i))
    && (forall t | t in tables && Kept(root, t, tables[t]) :: t in tables2)
  }

  /** Taking one empty table off the tree. */
  lemma PruneTrims(m: Mem, m2: Mem, root: Frame, tables: Tables, c: Frame)
    requires Shape(m, root, tables) && c in tables && !Kept(root, c, tables[c]) && IsEmpty(m, c)
    requires EntryWritten(m, m2, tables[c].parent, tables[c].slot, Zero)
    ensures Trimmed(m, tables, m2, tables - {c}, root)
    ensures NoEmptyTablesBut(m, root, tables, c) ==> NoEmptyTablesBut(m2, root, tables - {c}, tables[c].parent)
  {
    var l := tables[c];
    assert LinkOk(m, tables, c);
    PruneShape(m, m2, root, tables, c);
    GraftKeepsTranslation(m2, m, root, tables - {c}, l.parent, l.slot, c);
  }

  lemma TrimTrim(m: Mem, t: Tables, m1: Mem, t1: Tables, m2: Mem, t2: Tables, root: Frame)
    requires Trimmed(m, t, m1, t1, root) && Trimmed(m1, t1, m2, t2, root)
    ensures Trimmed(m, t, m2, t2, root)
  {
  }

  lemma ClearThenTrim(m: Mem, t: Tables, m1: Mem, m2: Mem, t2: Tables, root: Frame, v: nat)
    requires Cleared(m, t, m1, t, root, v) && Trimmed(m1, t, m2, t2, root)
    ensures Cleared(m, t, m2, t2, root, v)
  {
  }

  /** chain[k - 1] is a table of level k that hangs from chain[k], where the walk for v goes. */
  predicate Hangs(tables: Tables, root: Frame, chain: seq<Frame>, v: nat, k: nat)
    requires |chain| == 4 && 1 <= k <= 3
  {
    chain[k - 1] in tables && chain[k - 1] != root && tables[chain[k - 1]] == Link(k, chain[k], Index(v, k + 1))
  }

  /** The tables on the walk for v from the given level up to the root. */
  predicate OnPath(tables: Tables, root: Frame, chain: seq<Frame>, v: nat, level: nat)
    requires level >= 1
  {
    |chain| == 4 && chain[3] == root && forall k | level <= k <= 3 :: Hangs(tables, root, chain, v, k)
  }

  /** Above a table of the path that is taken away, the path is left. */
  lemma PathAbove(tables: Tables, root: Frame, chain: seq<Frame>, v: nat, level: nat)
    requires 1 <= level < 3 && OnPath(tables, root, chain, v, level)
    ensures OnPath(tables - {chain[level - 1]}, root, chain, v, level + 1)
  {
    var left := tables - {chain[level - 1]};
    assert Hangs(tables, root, chain, v, level);
    forall k | level < k <= 3 ensures Hangs(left, root, chain, v, k) {
      assert Hangs(tables, root, chain, v, k);
    }
  }

  /** A complete walk is such a path. */
  lemma WalkIsPath(m: Mem, root: Frame, tables: Tables, v: nat, pdpt: Frame, pd: Frame, pt: Frame)
    requires Shape(m, root, tables)
    requires TableAt(m, root, v, 3) == Some(pdpt) && TableAt(m, root, v, 2) == Some(pd)
    requires TableAt(m, root, v, 1) == Some(pt)
    ensures OnPath(tables, root, [pt, pd, pdpt, root], v, 1)
  {
    WalkStaysInTree(m, root, tables, v, 3);
    WalkStaysInTree(m, root, tables, v, 2);
    WalkStaysInTree(m, root, tables, v, 1);
  }
}
