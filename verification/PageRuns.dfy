/** Whole runs of map_page and unmap_page: the page table behaves like a map from pages to entries,
    and holds no more tables than the mapped pages need. */
module PageRuns {
  import opened Wrappers
  import opened PageTable
  import opened PageTree
  import opened PageCanon

  datatype State = State(mem: Mem, tables: Tables)

  datatype Op = MapOp(v: nat, e: Entry) | UnmapOp(v: nat)

  /** One successful call. */
  ghost predicate Step(a: State, b: State, root: Frame, op: Op) {
    Shape(b.mem, root, b.tables) &&
    match op
    case MapOp(v, e) => Mapped(a.mem, a.tables, b.mem, b.tables, root, v, e)
    case UnmapOp(v) =>
      if Walk(a.mem, root, v) == None then b == a
      else Unmapped(a.mem, a.tables, b.mem, b.tables, root, v)
  }

  ghost predicate Run(states: seq<State>, root: Frame, ops: seq<Op>) {
    |states| == |ops| + 1 && forall i | 0 <= i < |ops| :: Step(states[i], states[i + 1], root, ops[i])
  }

  /** What the last operation on a page leaves there. */
  function Final(ops: seq<Op>, page: nat): Option<Entry> {
    if ops == [] then None
    else
      var op := ops[|ops| - 1];
      if PageOf(op.v) != page then Final(ops[..|ops| - 1], page)
      else if op.MapOp? then Some(op.e) else None
  }

  ghost predicate Fresh(s: State, root: Frame) {
    Canon(s.mem, root, s.tables) && forall v :: Walk(s.mem, root, v) == None
  }

  lemma StepTranslates(a: State, b: State, root: Frame, op: Op, w: nat)
    requires Step(a, b, root, op)
    ensures Walk(b.mem, root, w) ==
            if PageOf(w) != PageOf(op.v) then Walk(a.mem, root, w) else if op.MapOp? then Some(op.e) else None
  {
    if PageOf(w) == PageOf(op.v) {
      WalkOfPage(b.mem, root, w, op.v);
    }
  }

  lemma StepKeepsCanon(a: State, b: State, root: Frame, op: Op)
    requires Step(a, b, root, op) && Canon(a.mem, root, a.tables)
    ensures Canon(b.mem, root, b.tables)
  {
    if op.UnmapOp? && b != a {
      WithinOpen(b.mem, b.tables, a.mem, a.tables);
      forall i | 256 <= i < 512 ensures At(b.mem, root, i) != Zero {
        assert At(a.mem, root, i) != Zero;
      }
    }
  }

  /** After any run from a fresh page table, every address translates to what the last operation on its page
      left there, and the tree is still canonical. */
  lemma {:induction false} RunRefinesMap(states: seq<State>, root: Frame, ops: seq<Op>)
    requires Run(states, root, ops) && Fresh(states[0], root)
    ensures Canon(states[|ops|].mem, root, states[|ops|].tables)
    ensures forall w :: Walk(states[|ops|].mem, root, w) == Final(ops, PageOf(w))
  {
    if ops != [] {
      var n := |ops| - 1;
      RunRefinesMap(states[..n + 1], root, ops[..n]);
      StepKeepsCanon(states[n], states[n + 1], root, ops[n]);
      forall w ensures Walk(states[n + 1].mem, root, w) == Final(ops, PageOf(w)) {
        StepTranslates(states[n], states[n + 1], root, ops[n], w);
      }
    }
  }

  /** A run that ends with nothing mapped has given every table back but the root and the upper-half PDPTs. */
  lemma RunGivesBackTables(states: seq<State>, root: Frame, ops: seq<Op>)
    requires Run(states, root, ops) && Fresh(states[0], root)
    requires forall w :: Final(ops, PageOf(w)) == None
    ensures var s := states[|ops|]; forall t | t in s.tables :: Kept(root, t, s.tables[t])
  {
    RunRefinesMap(states, root, ops);
    var s := states[|ops|];
    forall w ensures Walk(s.mem, root, w) == None {
      assert Walk(s.mem, root, w) == Final(ops, PageOf(w));
    }
    NothingMappedNothingHeld(s.mem, root, s.tables);
  }

  /** Mapping an unmapped page and unmapping it again restores the tree exactly: the same tables in the same
      frames with the same entries. */
  lemma MapThenUnmapRestores(a: State, b: State, c: State, root: Frame, v: nat, e: Entry)
    requires Canon(a.mem, root, a.tables) && Walk(a.mem, root, v) == None
    requires Step(a, b, root, MapOp(v, e)) && Step(b, c, root, UnmapOp(v))
    ensures c.tables == a.tables
    ensures forall t, j | t in a.tables && 0 <= j < 512 :: At(c.mem, t, j) == At(a.mem, t, j)
  {
    StepKeepsCanon(a, b, root, MapOp(v, e));
    StepKeepsCanon(b, c, root, UnmapOp(v));
    forall w ensures Walk(a.mem, root, w) == Walk(c.mem, root, w) {
      StepTranslates(a, b, root, MapOp(v, e), w);
      StepTranslates(b, c, root, UnmapOp(v), w);
      if PageOf(w) == PageOf(v) { WalkOfPage(a.mem, root, w, v); }
    }
    SameTranslationSameTree(a.mem, a.tables, c.mem, c.tables, b.mem, b.tables, root);
  }

  // ---------------------------------------------------------------- effective rights

  /** Every entry on the walk for v, from the given level down to the leaf, allows writing. */
  predicate MayWrite(m: Mem, root: Frame, v: nat, level: nat)
    requires 1 <= level <= 4
  {
    match TableAt(m, root, v, level)
    case None => false
    case Some(t) =>
      var e := At(m, t, Index(v, level));
      e.Ref? && e.raw & PTE_WRITABLE != 0 && (level == 1 || MayWrite(m, root, v, level - 1))
  }

  /** ...and no entry on it forbids execution. */
  predicate MayExecute(m: Mem, root: Frame, v: nat, level: nat)
    requires 1 <= level <= 4
  {
    match TableAt(m, root, v, level)
    case None => false
    case Some(t) =>
      var e := At(m, t, Index(v, level));
      e.Ref? && e.raw & PTE_NX == 0 && (level == 1 || MayExecute(m, root, v, level - 1))
  }

  /** The rights of a page are those of its leaf entry. */
  lemma {:induction false} RightsOfLeaf(m: Mem, root: Frame, tables: Tables, v: nat, level: nat)
    requires Shape(m, root, tables) && Open(m, tables) && 1 <= level <= 4 && Walk(m, root, v).Some?
    ensures var e := Walk(m, root, v).value;
            && (MayWrite(m, root, v, level) <==> e.raw & PTE_WRITABLE != 0)
            && (MayExecute(m, root, v, level) <==> e.raw & PTE_NX == 0)
  {
    WalkReaches(m, root, v, level);
    WalkStaysInTree(m, root, tables, v, level);
    if level > 1 {
      RightsOfLeaf(m, root, tables, v, level - 1);
      WalkReaches(m, root, v, level - 1);
      assert Unrestricted(At(m, TableAt(m, root, v, level).value, Index(v, level)));
    }
  }
}
