/** A page-table tree without empty tables is determined by what it translates. */
module PageCanon {
  import opened Wrappers
  import opened PageTable
  import opened PageTree

  /** Bytes covered by one entry of a table of the given level. */
  function Span(level: nat): (s: nat)
    requires 1 <= level <= 4
    ensures s > 0
  {
    match level
    case 4 => 0x80_0000_0000
    case 3 => 0x4000_0000
    case 2 => 0x20_0000
    case _ => 0x1000
  }

  /** v with its index at one level replaced. */
  function SetIndex(v: nat, level: nat, j: nat): nat
    requires 1 <= level <= 4
  {
    v / (512 * Span(level)) * (512 * Span(level)) + j * Span(level)
  }

  lemma LastOf512(t: nat, q: nat, j: nat)
    requires t == q * 512 + j && j < 512
    ensures t % 512 == j
  {
  }

  lemma SetIndexIs(v: nat, level: nat, j: nat)
    requires 1 <= level <= 4 && j < 512
    ensures Index(SetIndex(v, level, j), level) == j
    ensures forall k | level < k <= 4 :: Index(SetIndex(v, level, j), k) == Index(v, k)
  {
    var w, s := SetIndex(v, level, j), Span(level);
    LastOf512(w / s, v / (512 * s), j);
    assert w / (512 * s) == v / (512 * s);
    forall k | level < k <= 4 ensures Index(w, k) == Index(v, k) {
      IndexFromBlock(v, w, level, k);
    }
  }

  lemma IndexFromBlock(v: nat, w: nat, level: nat, k: nat)
    requires 1 <= level < k <= 4 && w / (512 * Span(level)) == v / (512 * Span(level))
    ensures Index(w, k) == Index(v, k)
  {
    var b := 512 * Span(level);
    match (level, k)
    case (1, 3) => assert v / Span(3) == v / b / 512 && w / Span(3) == w / b / 512;
    case (1, 4) => assert v / Span(4) == v / b / 512 / 512 && w / Span(4) == w / b / 512 / 512;
    case (2, 4) => assert v / Span(4) == v / b / 512 && w / Span(4) == w / b / 512;
    case _ =>
  }

  /** The table reached depends only on the indices above it. */
  lemma {:induction false} TableAtIndices(m: Mem, root: Frame, v: nat, w: nat, level: nat)
    requires 1 <= level <= 4 && forall k | level < k <= 4 :: Index(v, k) == Index(w, k)
    ensures TableAt(m, root, v, level) == TableAt(m, root, w, level)
    decreases 4 - level
  {
    if level < 4 { TableAtIndices(m, root, v, w, level + 1); }
  }

  /** Every table of the tree is on the walk of some address, with any chosen index into it. */
  lemma {:induction false} PathTo(m: Mem, root: Frame, tables: Tables, t: Frame, j: nat) returns (v: nat)
    requires Shape(m, root, tables) && t in tables && j < 512
    ensures TableAt(m, root, v, tables[t].level) == Some(t) && Index(v, tables[t].level) == j
    decreases 4 - tables[t].level
  {
    var l := tables[t].level;
    if t == root {
      v := SetIndex(0, 4, j);
      SetIndexIs(0, 4, j);
    } else {
      assert LinkOk(m, tables, t);
      var u := PathTo(m, root, tables, tables[t].parent, tables[t].slot);
      assert TableAt(m, root, u, l) == Some(t);
      v := SetIndex(u, l, j);
      SetIndexIs(u, l, j);
      TableAtIndices(m, root, u, v, l);
    }
  }

  /** Below every table that is not kept empty some page is mapped. */
  lemma {:induction false} MappedBelow(m: Mem, root: Frame, tables: Tables, t: Frame, u: nat) returns (v: nat)
    requires Shape(m, root, tables) && NoEmptyTables(m, root, tables)
    requires t in tables && !Kept(root, t, tables[t]) && TableAt(m, root, u, tables[t].level) == Some(t)
    ensures TableAt(m, root, v, tables[t].level) == Some(t) && Walk(m, root, v).Some?
    decreases tables[t].level
  {
    var l := tables[t].level;
    var j: nat :| j < 512 && At(m, t, j) != Zero;
    assert EntryOk(m, tables, t, j);
    v := SetIndex(u, l, j);
    SetIndexIs(u, l, j);
    TableAtIndices(m, root, u, v, l);
    if l > 1 {
      WalkStaysInTree(m, root, tables, u, l);
      assert l < 4;
      var c := At(m, t, j).frame;
      assert TableAt(m, root, v, l - 1) == Some(c);
      v := MappedBelow(m, root, tables, c, v);
      WalkStaysInTree(m, root, tables, v, l - 1);
    }
  }

  /** Without mapped pages only the root and the PDPTs of the upper half are left. */
  lemma NothingMappedNothingHeld(m: Mem, root: Frame, tables: Tables)
    requires Shape(m, root, tables) && NoEmptyTables(m, root, tables)
    requires forall v :: Walk(m, root, v) == None
    ensures forall t | t in tables :: Kept(root, t, tables[t])
  {
    forall t | t in tables ensures Kept(root, t, tables[t]) {
      if !Kept(root, t, tables[t]) {
        var u := PathTo(m, root, tables, t, 0);
        var v := MappedBelow(m, root, tables, t, u);
        assert false;
      }
    }
  }

  /** The conditions kept by every successful map and every unmap. */
  ghost predicate Canon(m: Mem, root: Frame, tables: Tables) {
    Shape(m, root, tables) && NoEmptyTables(m, root, tables) && UpperHalf(m, root) && Open(m, tables)
  }

  lemma RootIsTop(m: Mem, root: Frame, tables: Tables, t: Frame)
    requires Shape(m, root, tables) && t in tables && tables[t].level == 4
    ensures t == root
  {
    assert t == root || LinkOk(m, tables, t);
  }

  lemma SubstateTables(a: Mem, ta: Tables, b: Mem, tb: Tables, c: Mem, tc: Tables, root: Frame, t: Frame)
    requires Canon(a, root, ta) && Canon(b, root, tb) && Within(a, ta, c, tc) && Within(b, tb, c, tc)
    requires forall v :: Walk(a, root, v) == Walk(b, root, v)
    requires t in ta
    ensures t in tb
  {
    var l := ta[t];
    if t == root {
    } else if Kept(root, t, l) {
      assert LinkOk(a, ta, t) && ta[l.parent].level == 4;
      RootIsTop(a, root, ta, l.parent);
      assert At(b, root, l.slot) != Zero;
      assert EntryOk(b, tb, root, l.slot);
      assert At(c, root, l.slot) == At(a, root, l.slot);
    } else {
      var u := PathTo(a, root, ta, t, 0);
      var v := MappedBelow(a, root, ta, t, u);
      assert Walk(b, root, v).Some?;
      WalkReaches(b, root, v, l.level);
      WalkStaysInTree(b, root, tb, v, l.level);
      WithinWalks(a, ta, c, tc, root, v, l.level);
      WithinWalks(b, tb, c, tc, root, v, l.level);
    }
  }

  lemma {:induction false} WalkReaches(m: Mem, root: Frame, v: nat, level: nat)
    requires Walk(m, root, v).Some? && 1 <= level <= 4
    ensures TableAt(m, root, v, level).Some?
    decreases level
  {
    if level > 1 { WalkReaches(m, root, v, level - 1); }
  }

  lemma SubstateEntries(a: Mem, ta: Tables, b: Mem, tb: Tables, c: Mem, tc: Tables, root: Frame, t: Frame, j: nat)
    requires Canon(a, root, ta) && Canon(b, root, tb) && Within(a, ta, c, tc) && Within(b, tb, c, tc)
    requires forall v :: Walk(a, root, v) == Walk(b, root, v)
    requires ta == tb && t in ta && j < 512 && At(a, t, j) != Zero
    ensures At(b, t, j) == At(a, t, j)
  {
    assert EntryOk(a, ta, t, j);
    if ta[t].level > 1 {
      assert LinkOk(b, tb, At(a, t, j).frame);
    } else {
      var v := PathTo(a, root, ta, t, j);
      assert Walk(a, root, v) == Walk(b, root, v);
      WithinWalks(a, ta, c, tc, root, v, 1);
      WithinWalks(b, tb, c, tc, root, v, 1);
    }
  }

  /** Two canonical trees carved from one tree that translate alike are the same tree, frame by frame
      and entry by entry. */
  lemma SameTranslationSameTree(a: Mem, ta: Tables, b: Mem, tb: Tables, c: Mem, tc: Tables, root: Frame)
    requires Canon(a, root, ta) && Canon(b, root, tb) && Within(a, ta, c, tc) && Within(b, tb, c, tc)
    requires forall v :: Walk(a, root, v) == Walk(b, root, v)
    ensures ta == tb
    ensures forall t, j | t in ta && 0 <= j < 512 :: At(a, t, j) == At(b, t, j)
  {
    forall t ensures t in ta <==> t in tb {
      if t in ta { SubstateTables(a, ta, b, tb, c, tc, root, t); }
      if t in tb { SubstateTables(b, tb, a, ta, c, tc, root, t); }
    }
    assert ta == tb;
    forall t, j | t in ta && 0 <= j < 512 ensures At(a, t, j) == At(b, t, j) {
      if At(a, t, j) != Zero { SubstateEntries(a, ta, b, tb, c, tc, root, t, j); }
      if At(b, t, j) != Zero { SubstateEntries(b, tb, a, ta, c, tc, root, t, j); }
    }
  }
}
