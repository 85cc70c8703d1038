/** The boot memory map, reduced to maximal runs of usable memory. */
module MemMap {
  import opened Wrappers

  const MAX_CHUNKS: nat := 128

  datatype Entry = Entry(base: nat, length: nat, kind: nat)

  datatype Chunk = Chunk(base: nat, bounds: nat)

  /** Usable, ACPI reclaimable or bootloader reclaimable; the type is cut to an int. */
  predicate IsMemoryFree(kind: nat) {
    var t := kind % 0x1_0000_0000;
    t == 0 || t == 2 || t == 5
  }

  /** The entry ends inside the address space and is not empty. */
  predicate Proper(e: Entry) { e.length > 0 && e.base + e.length < U64 }

  /** In address order, without overlaps. */
  ghost predicate Sorted(es: seq<Entry>) {
    (forall e | e in es :: Proper(e)) && forall i, j | 0 <= i < j < |es| :: es[i].base + es[i].length <= es[j].base
  }

  function Bounds(e: Entry): nat { (e.base + e.length) % U64 }

  /** One more entry: it extends the last chunk if it starts where that ends. */
  function AddEntry(cs: seq<Chunk>, e: Entry): seq<Chunk> {
    if !IsMemoryFree(e.kind) then cs
    else if cs != [] && cs[|cs| - 1].bounds == e.base then cs[|cs| - 1 := Chunk(cs[|cs| - 1].base, Bounds(e))]
    else cs + [Chunk(e.base, Bounds(e))]
  }

  function Chunks(es: seq<Entry>): seq<Chunk> {
    if es == [] then [] else AddEntry(Chunks(es[..|es| - 1]), es[|es| - 1])
  }

  function FreeBytes(es: seq<Entry>): nat {
    if es == [] then 0
    else FreeBytes(es[..|es| - 1]) + if IsMemoryFree(es[|es| - 1].kind) then es[|es| - 1].length else 0
  }

  lemma {:induction false} ChunksGrow(es: seq<Entry>, n: nat)
    requires n <= |es|
    ensures |Chunks(es[..n])| <= |Chunks(es)|
  {
    if n < |es| {
      assert es[..|es| - 1][..n] == es[..n];
      ChunksGrow(es[..|es| - 1], n);
    } else {
      assert es[..n] == es;
    }
  }

  /** Reads the boot map into the chunk table. */
  method GetMemoryDescriptor(entries: seq<Entry>, freeChunks: array<Chunk>) returns (length: nat, chunkCount: nat)
    requires freeChunks.Length == MAX_CHUNKS && |Chunks(entries)| <= MAX_CHUNKS
    modifies freeChunks
    ensures chunkCount <= MAX_CHUNKS && freeChunks[..chunkCount] == Chunks(entries)
    ensures length == FreeBytes(entries) % U64
  {
    var foundChunks: nat := 0;
    length := 0;
    for i := 0 to |entries|
      invariant foundChunks <= MAX_CHUNKS && freeChunks[..foundChunks] == Chunks(entries[..i])
      invariant length == FreeBytes(entries[..i]) % U64
    {
      ghost var cs := Chunks(entries[..i]);
      assert entries[..i + 1][..i] == entries[..i];
      ChunksGrow(entries, i + 1);
      var e := entries[i];
      AddWrapped(FreeBytes(entries[..i]), e.length);
      if IsMemoryFree(e.kind) {
        length := (length + e.length) % U64;
        if foundChunks > 0 && freeChunks[foundChunks - 1].bounds == e.base {
          freeChunks[foundChunks - 1] := freeChunks[foundChunks - 1].(bounds := Bounds(e));
        } else {
          freeChunks[foundChunks] := Chunk(e.base, Bounds(e));
          foundChunks := foundChunks + 1;
        }
      }
      assert freeChunks[..foundChunks] == AddEntry(cs, e);
    }
    assert entries[..|entries|] == entries;
    chunkCount := foundChunks;
  }

  // ---------------------------------------------------------------- what the chunks are

  predicate InChunk(c: Chunk, a: nat) { c.base <= a < c.bounds }

  ghost predicate Covered(cs: seq<Chunk>, a: nat) { exists i :: 0 <= i < |cs| && InChunk(cs[i], a) }

  predicate InEntry(e: Entry, a: nat) { e.base <= a < e.base + e.length }

  ghost predicate Usable(es: seq<Entry>, a: nat) {
    exists i :: 0 <= i < |es| && IsMemoryFree(es[i].kind) && InEntry(es[i], a)
  }

  /** Non-empty intervals in order, with a gap between any two: the maximal runs of the addresses they cover. */
  ghost predicate Maximal(cs: seq<Chunk>) {
    && (forall i | 0 <= i < |cs| :: cs[i].base < cs[i].bounds)
    && forall i, j | 0 <= i < j < |cs| :: cs[i].bounds < cs[j].base
  }

  function ChunkBytes(cs: seq<Chunk>): int {
    if cs == [] then 0 else ChunkBytes(cs[..|cs| - 1]) + cs[|cs| - 1].bounds - cs[|cs| - 1].base
  }

  /** For a sorted boot map the chunks are exactly the maximal runs of its usable addresses, and their sizes add up
      to the usable bytes. */
  lemma {:induction false} ChunksAreMaximalRuns(es: seq<Entry>)
    requires Sorted(es)
    ensures Maximal(Chunks(es)) && ChunkBytes(Chunks(es)) == FreeBytes(es)
    ensures forall a :: Covered(Chunks(es), a) <==> Usable(es, a)
    ensures forall i | 0 <= i < |Chunks(es)| && es != [] ::
              Chunks(es)[i].bounds <= es[|es| - 1].base + es[|es| - 1].length
  {
    if es != [] {
      var n := |es| - 1;
      ChunksAreMaximalRuns(es[..n]);
      assert es[n] in es;
      AddRun(es, Chunks(es[..n]));
    }
  }

  lemma AddRun(es: seq<Entry>, cs: seq<Chunk>)
    requires Sorted(es) && es != []
    requires Maximal(cs) && forall i | 0 <= i < |cs| :: cs[i].bounds <= es[|es| - 1].base
    requires ChunkBytes(cs) == FreeBytes(es[..|es| - 1])
    requires forall a :: Covered(cs, a) <==> Usable(es[..|es| - 1], a)
    ensures var c2 := AddEntry(cs, es[|es| - 1]);
            Maximal(c2) && ChunkBytes(c2) == FreeBytes(es) && (forall a :: Covered(c2, a) <==> Usable(es, a)) &&
            forall i | 0 <= i < |c2| :: c2[i].bounds <= es[|es| - 1].base + es[|es| - 1].length
  {
    var e := es[|es| - 1];
    assert e in es && Proper(e);
    AddMaximal(cs, e);
    AddBytes(cs, e);
    AddCoverage(es, cs);
    hide Covered, Usable, AddEntry, Bounds, IsMemoryFree;
  }

  lemma AddCoverage(es: seq<Entry>, cs: seq<Chunk>)
    requires es != [] && Maximal(cs) && Proper(es[|es| - 1])
    requires forall i | 0 <= i < |cs| :: cs[i].bounds <= es[|es| - 1].base
    requires forall a :: Covered(cs, a) <==> Usable(es[..|es| - 1], a)
    ensures forall a :: Covered(AddEntry(cs, es[|es| - 1]), a) <==> Usable(es, a)
  {
    var e := es[|es| - 1];
    forall a ensures Covered(AddEntry(cs, e), a) <==> Usable(es, a) {
      AddCovers(cs, e, a);
      LastUsable(es, a);
    }
  }

  lemma AddMaximal(cs: seq<Chunk>, e: Entry)
    requires Maximal(cs) && Proper(e) && forall i | 0 <= i < |cs| :: cs[i].bounds <= e.base
    ensures var c2 := AddEntry(cs, e);
            Maximal(c2) && forall i | 0 <= i < |c2| :: c2[i].bounds <= e.base + e.length
  {
    BoundsIs(e);
    hide Bounds, IsMemoryFree, Proper;
  }

  lemma AddBytes(cs: seq<Chunk>, e: Entry)
    requires Proper(e)
    ensures ChunkBytes(AddEntry(cs, e)) == ChunkBytes(cs) + if IsMemoryFree(e.kind) then e.length else 0
  {
    BoundsIs(e);
    hide Bounds, IsMemoryFree, Proper;
    var c2 := AddEntry(cs, e);
    if IsMemoryFree(e.kind) {
      if cs != [] && cs[|cs| - 1].bounds == e.base {
        assert c2[..|c2| - 1] == cs[..|cs| - 1];
      } else {
        assert c2[..|c2| - 1] == cs;
      }
    }
  }

  lemma BoundsIs(e: Entry)
    requires Proper(e)
    ensures Bounds(e) == e.base + e.length > e.base
  {
  }

  lemma LastUsable(es: seq<Entry>, a: nat)
    requires es != []
    ensures Usable(es, a) <==>
            Usable(es[..|es| - 1], a) || (IsMemoryFree(es[|es| - 1].kind) && InEntry(es[|es| - 1], a))
  {
    var n := |es| - 1;
    if Usable(es[..n], a) {
      var i :| 0 <= i < n && IsMemoryFree(es[..n][i].kind) && InEntry(es[..n][i], a);
      assert InEntry(es[i], a);
    }
    if Usable(es, a) {
      var i :| 0 <= i <= n && IsMemoryFree(es[i].kind) && InEntry(es[i], a);
      if i < n { assert InEntry(es[..n][i], a); }
    }
  }

  lemma AddCovers(cs: seq<Chunk>, e: Entry, a: nat)
    requires Maximal(cs) && Proper(e) && forall i | 0 <= i < |cs| :: cs[i].bounds <= e.base
    ensures Covered(AddEntry(cs, e), a) <==> Covered(cs, a) || (IsMemoryFree(e.kind) && InEntry(e, a))
  {
    var c2 := AddEntry(cs, e);
    if Covered(cs, a) {
      var i :| 0 <= i < |cs| && InChunk(cs[i], a);
      assert InChunk(c2[i], a);
    }
    if IsMemoryFree(e.kind) && InEntry(e, a) { assert InChunk(c2[|c2| - 1], a); }
    if Covered(c2, a) {
      var i :| 0 <= i < |c2| && InChunk(c2[i], a);
      if i < |cs| && !InChunk(cs[i], a) { assert InEntry(e, a); }
    }
  }

  /** Maximal runs are determined by the addresses they cover. */
  lemma {:induction false} MaximalRunsUnique(cs: seq<Chunk>, ds: seq<Chunk>)
    requires Maximal(cs) && Maximal(ds) && forall a :: Covered(cs, a) <==> Covered(ds, a)
    ensures cs == ds
  {
    if cs != [] { FirstCovered(cs); }
    if ds != [] { FirstCovered(ds); }
    if cs != [] && ds != [] {
      FirstRun(cs, ds);
      FirstRun(ds, cs);
      forall a ensures Covered(cs[1..], a) <==> Covered(ds[1..], a) {
        RestCovered(cs, a);
        RestCovered(ds, a);
      }
      MaximalRunsUnique(cs[1..], ds[1..]);
    }
  }

  lemma FirstRun(cs: seq<Chunk>, ds: seq<Chunk>)
    requires Maximal(cs) && Maximal(ds) && cs != [] && ds != [] && forall a :: Covered(cs, a) <==> Covered(ds, a)
    ensures cs[0].base >= ds[0].base && (cs[0].base == ds[0].base ==> cs[0].bounds >= ds[0].bounds)
  {
    FirstCovered(cs);
    GapAbove(cs);
    assert !Covered(ds, cs[0].bounds);
    assert !InChunk(ds[0], cs[0].bounds);
  }

  lemma FirstCovered(cs: seq<Chunk>)
    requires Maximal(cs) && cs != []
    ensures Covered(cs, cs[0].base) && forall a: nat | a < cs[0].base :: !Covered(cs, a)
  {
    assert InChunk(cs[0], cs[0].base);
  }

  lemma GapAbove(cs: seq<Chunk>)
    requires Maximal(cs) && cs != []
    ensures !Covered(cs, cs[0].bounds)
  {
  }

  lemma RestCovered(cs: seq<Chunk>, a: nat)
    requires Maximal(cs) && cs != []
    ensures Covered(cs[1..], a) <==> Covered(cs, a) && a >= cs[0].bounds
  {
    if Covered(cs[1..], a) {
      var i :| 0 <= i < |cs| - 1 && InChunk(cs[1..][i], a);
      assert InChunk(cs[i + 1], a);
    }
    if Covered(cs, a) && a >= cs[0].bounds {
      var i :| 0 <= i < |cs| && InChunk(cs[i], a);
      assert InChunk(cs[1..][i - 1], a);
    }
  }
}
