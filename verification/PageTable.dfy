/** Page-table entries and page-table indices: what is encoded in 64-bit words and addresses. */
module PageTable {
  import opened Wrappers

  /** A physical frame, by the address of its first byte. */
  datatype Frame = Frame(addr: bv64)

  const PTE_PRESENT: bv64 := 1
  const PTE_WRITABLE: bv64 := 2
  const PTE_NX: bv64 := 0x8000_0000_0000_0000

  const PAGE_SIZE: nat := 4096

  // ---------------------------------------------------------------- entries

  /** The address field, bits 12 to 51. */
  function PteGetAddr(e: bv64): bv64 { e & 0x000f_ffff_ffff_f000 }

  function PteGetFlags(e: bv64): bv64 { e & 0xfff0_0000_0000_0fff }

  predicate Present(e: bv64) { e & 1 == 1 }

  /** Flags that leave the address field of an entry alone. */
  predicate PlainFlags(flags: bv64) { flags & 0x000f_ffff_ffff_f000 == 0 }

  /** A page-aligned physical address that fits the address field of an entry. */
  predicate IsFrame(p: bv64) { p & 0x000f_ffff_ffff_f000 == p }

  /** The leaf entry that mapping a page writes. */
  function LeafEntry(phys: bv64, flags: bv64): bv64 { (phys & 0xffff_ffff_ffff_f000) | flags | 1 }

  /** Address and flags are recovered from an entry exactly. */
  lemma EntryFields(phys: bv64, flags: bv64)
    requires IsFrame(phys) && PlainFlags(flags)
    ensures PteGetAddr(phys | flags) == phys && PteGetFlags(phys | flags) == flags
    ensures Present(flags) ==> Present(phys | flags)
  {
  }

  /** The leaf entry holds the frame and the flags asked for, plus PRESENT. */
  lemma LeafFields(phys: bv64, flags: bv64)
    requires IsFrame(phys) && PlainFlags(flags)
    ensures PteGetAddr(LeafEntry(phys, flags)) == phys
    ensures PteGetFlags(LeafEntry(phys, flags)) == flags | PTE_PRESENT
  {
  }

  // ---------------------------------------------------------------- indices

  /** Index into the table of the given level (4 is the PML4, 1 the leaf page table). */
  function Index(v: nat, level: nat): (i: nat)
    requires 1 <= level <= 4
    ensures i < 512
  {
    match level
    case 4 => v / 0x80_0000_0000 % 512
    case 3 => v / 0x4000_0000 % 512
    case 2 => v / 0x20_0000 % 512
    case _ => v / 0x1000 % 512
  }

  /** The 36-bit page number that the four indices spell out. */
  function PageOf(v: nat): nat { v / 4096 % 0x10_0000_0000 }

  /** The address of page j of a region. */
  function PageAddr(base: nat, j: nat): nat { base + j * 4096 }

  /** Bits 63..47 are all equal. */
  predicate Canonical(v: nat) { v < 0x8000_0000_0000 || U64 - 0x8000_0000_0000 <= v < U64 }

  lemma SplitPage4(x: nat)
    ensures x % 0x10_0000_0000 == x / 512 % 0x800_0000 * 512 + x % 512
  {
  }

  lemma SplitPage3(x: nat)
    ensures x % 0x800_0000 == x / 512 % 0x4_0000 * 512 + x % 512
  {
  }

  lemma SplitPage2(x: nat)
    ensures x % 0x4_0000 == x / 512 % 512 * 512 + x % 512
  {
  }

  lemma PageOfIndices(v: nat)
    ensures PageOf(v) == ((Index(v, 4) * 512 + Index(v, 3)) * 512 + Index(v, 2)) * 512 + Index(v, 1)
  {
    var x := v / 4096;
    SplitPage4(x);
    SplitPage3(x / 512);
    SplitPage2(x / 512 / 512);
    assert v / 0x20_0000 == x / 512;
    assert v / 0x4000_0000 == x / 512 / 512;
    assert v / 0x80_0000_0000 == x / 512 / 512 / 512;
  }

  predicate SameIndices(v: nat, w: nat) {
    Index(v, 1) == Index(w, 1) && Index(v, 2) == Index(w, 2) && Index(v, 3) == Index(w, 3) && Index(v, 4) == Index(w, 4)
  }

  /** Four equal indices mean one page; two canonical addresses of one page agree up to the page offset. */
  lemma IndicesDeterminePage(v: nat, w: nat)
    ensures SameIndices(v, w) <==> PageOf(v) == PageOf(w)
  {
    PageOfIndices(v);
    PageOfIndices(w);
    hide PageOf, Index;
  }

  lemma CanonicalPage(v: nat, w: nat)
    requires Canonical(v) && Canonical(w) && PageOf(v) == PageOf(w)
    ensures v / 4096 == w / 4096
  {
  }
}
