/** The physical page allocator: a bitmap with counters, and a table of memory segments searched from
    where the last search stopped. */
module PhysPages {
  import opened Wrappers

  const MAX_PAGES: nat := 1048576

  // ---------------------------------------------------------------- bits of the bitmap

  predicate Bit(b: bv8, k: nat)
    requires k < 8
  {
    (b >> k) & 1 == 1
  }

  function WithBit(b: bv8, k: nat): bv8
    requires k < 8
  {
    b | (1 << k)
  }

  function WithoutBit(b: bv8, k: nat): bv8
    requires k < 8
  {
    b & !(1 << k)
  }

  /** The value of one bit. */
  function Mask(k: nat): bv8
    requires k < 8
  {
    match k
    case 0 => 1
    case 1 => 2
    case 2 => 4
    case 3 => 8
    case 4 => 16
    case 5 => 32
    case 6 => 64
    case _ => 128
  }

  lemma ShiftedOne(k: nat)
    requires k < 8
    ensures (1 as bv8) << k == Mask(k)
  {
  }

  lemma BitIsMask(b: bv8, k: nat)
    requires k < 8
    ensures Bit(b, k) <==> b & Mask(k) != 0
  {
  }

  lemma MasksDiffer(k: nat, i: nat)
    requires k < 8 && i < 8
    ensures Mask(k) & Mask(i) == if i == k then Mask(i) else 0
    ensures Mask(i) != 0
  {
  }

  lemma OrMask(b: bv8, m: bv8, n: bv8)
    ensures (b | m) & n != 0 <==> b & n != 0 || m & n != 0
  {
  }

  lemma AndMask(b: bv8, m: bv8, n: bv8)
    ensures m & n == 0 ==> (b & !m) & n == b & n
    ensures m & n == n ==> (b & !m) & n == 0
  {
  }

  lemma NoBit(k: nat)
    requires k < 8
    ensures !Bit(0, k)
  {
  }

  lemma WithBitIs(b: bv8, k: nat, i: nat)
    requires k < 8 && i < 8
    ensures Bit(WithBit(b, k), i) <==> i == k || Bit(b, i)
  {
    hide Bit, Mask;
    ShiftedOne(k);
    BitIsMask(b, i);
    BitIsMask(WithBit(b, k), i);
    MasksDiffer(k, i);
    OrMask(b, Mask(k), Mask(i));
  }

  lemma WithoutBitIs(b: bv8, k: nat, i: nat)
    requires k < 8 && i < 8
    ensures Bit(WithoutBit(b, k), i) <==> i != k && Bit(b, i)
  {
    hide Bit, Mask;
    ShiftedOne(k);
    BitIsMask(b, i);
    BitIsMask(WithoutBit(b, k), i);
    MasksDiffer(k, i);
    AndMask(b, Mask(k), Mask(i));
  }

  // ---------------------------------------------------------------- segments

  /** Pages start.. to end.. are the physical pages from address offset on. */
  datatype Segment = Segment(offset: nat, start: nat, end: nat)

  /** The test of page_to_ptr: the first page of a segment is not found. */
  predicate HoldsPage(s: Segment, page: nat) { s.start < page < s.end }

  function PageAddress(s: Segment, page: nat): nat {
    (s.offset + (page - s.start) * 4096) % U64
  }

  /** Bytes of a segment, on 64-bit words. */
  function SegmentSize(s: Segment): nat { (s.end - s.start) * 4096 % U64 }

  /** The test of ptr_to_page. */
  predicate HoldsAddress(s: Segment, p: nat) { s.offset < p < (s.offset + SegmentSize(s)) % U64 }

  function AddressPage(s: Segment, p: nat): nat
    requires s.offset <= p
  {
    (s.start + (p - s.offset) / 4096) % U64
  }

  /** The first segment from index j on that holds a page, looking at the table in order. */
  function ScanPage(segments: seq<Segment>, page: nat): Option<Segment> {
    if segments == [] then None
    else if HoldsPage(segments[0], page) then Some(segments[0])
    else ScanPage(segments[1..], page)
  }

  function ScanAddress(segments: seq<Segment>, p: nat): Option<Segment> {
    if segments == [] then None
    else if HoldsAddress(segments[0], p) then Some(segments[0])
    else ScanAddress(segments[1..], p)
  }

  /** No page index lies inside two segments. */
  ghost predicate PagesApart(segments: seq<Segment>) {
    forall i, j, page | 0 <= i < |segments| && 0 <= j < |segments| ::
      HoldsPage(segments[i], page) && HoldsPage(segments[j], page) ==> i == j
  }

  ghost predicate AddressesApart(segments: seq<Segment>) {
    forall i, j, p | 0 <= i < |segments| && 0 <= j < |segments| ::
      HoldsAddress(segments[i], p) && HoldsAddress(segments[j], p) ==> i == j
  }

  lemma {:induction false} ScanPageFinds(segments: seq<Segment>, page: nat)
    ensures match ScanPage(segments, page)
            case None => forall j | 0 <= j < |segments| :: !HoldsPage(segments[j], page)
            case Some(s) => s in segments && HoldsPage(s, page)
  {
    if segments != [] { ScanPageFinds(segments[1..], page); }
  }

  lemma {:induction false} ScanAddressFinds(segments: seq<Segment>, p: nat)
    ensures match ScanAddress(segments, p)
            case None => forall j | 0 <= j < |segments| :: !HoldsAddress(segments[j], p)
            case Some(s) => s in segments && HoldsAddress(s, p)
  {
    if segments != [] { ScanAddressFinds(segments[1..], p); }
  }

  /** Among segments that do not overlap, any segment that holds the page is the one the plain scan finds. */
  lemma AnyPageHit(segments: seq<Segment>, page: nat, j: nat)
    requires PagesApart(segments) && j < |segments| && HoldsPage(segments[j], page)
    ensures ScanPage(segments, page) == Some(segments[j])
  {
    ScanPageFinds(segments, page);
    var s := ScanPage(segments, page).value;
    var i :| 0 <= i < |segments| && segments[i] == s;
  }

  lemma AnyAddressHit(segments: seq<Segment>, p: nat, j: nat)
    requires AddressesApart(segments) && j < |segments| && HoldsAddress(segments[j], p)
    ensures ScanAddress(segments, p) == Some(segments[j])
  {
    ScanAddressFinds(segments, p);
    var s := ScanAddress(segments, p).value;
    var i :| 0 <= i < |segments| && segments[i] == s;
  }

  /** A segment as the boot memory map yields it: page-aligned, inside the address space. */
  predicate Sane(s: Segment) {
    s.offset % 4096 == 0 && s.start <= s.end <= 0x1_0000_0000 && s.offset + (s.end - s.start) * 4096 < U64
  }

  /** On the interior of a segment, page to address and back. */
  lemma PageThereAndBack(s: Segment, page: nat)
    requires Sane(s) && HoldsPage(s, page)
    ensures HoldsAddress(s, PageAddress(s, page)) && PageAddress(s, page) % 4096 == 0
    ensures AddressPage(s, PageAddress(s, page)) == page
  {
    var n := page - s.start;
    FitsWord(s.offset + n * 4096);
    FitsWord((s.end - s.start) * 4096);
    FitsWord(s.offset + (s.end - s.start) * 4096);
    FitsWord(page);
    assert s.offset == 4096 * (s.offset / 4096);
    assert (s.offset + n * 4096) % 4096 == 0 by { assert s.offset + n * 4096 == 4096 * (s.offset / 4096 + n); }
  }

  /** Address to page and back. */
  lemma AddressThereAndBack(s: Segment, p: nat)
    requires Sane(s) && HoldsAddress(s, p) && p % 4096 == 0
    ensures HoldsPage(s, AddressPage(s, p)) && PageAddress(s, AddressPage(s, p)) == p
  {
    var n := (p - s.offset) / 4096;
    assert p == s.offset + n * 4096;
    FitsWord((s.end - s.start) * 4096);
    FitsWord(s.offset + (s.end - s.start) * 4096);
    FitsWord(s.start + n);
    FitsWord(p);
  }

  function PageLocated(segments: seq<Segment>, page: nat): Option<nat> {
    match ScanPage(segments, page)
    case None => None
    case Some(s) => Some(PageAddress(s, page))
  }

  function AddressLocated(segments: seq<Segment>, p: nat): Option<nat> {
    match ScanAddress(segments, p)
    case None => None
    case Some(s) => if s.offset <= p then Some(AddressPage(s, p)) else None
  }

  /** On a table of segments that do not overlap, the lookups are inverse to each other. */
  lemma LocatedInverse(segments: seq<Segment>, page: nat)
    requires PagesApart(segments) && AddressesApart(segments) && forall s | s in segments :: Sane(s)
    requires PageLocated(segments, page).Some?
    ensures var p := PageLocated(segments, page).value;
            p > 0 && p % 4096 == 0 && AddressLocated(segments, p) == Some(page)
  {
    ScanPageFinds(segments, page);
    var s := ScanPage(segments, page).value;
    PageThereAndBack(s, page);
    var j :| 0 <= j < |segments| && segments[j] == s;
    AnyAddressHit(segments, PageAddress(s, page), j);
  }

  /** ...in both directions. */
  lemma LocatedInverseAddress(segments: seq<Segment>, p: nat)
    requires PagesApart(segments) && AddressesApart(segments) && forall s | s in segments :: Sane(s)
    requires AddressLocated(segments, p).Some? && p % 4096 == 0
    ensures PageLocated(segments, AddressLocated(segments, p).value) == Some(p)
  {
    ScanAddressFinds(segments, p);
    var s := ScanAddress(segments, p).value;
    AddressThereAndBack(s, p);
    var j :| 0 <= j < |segments| && segments[j] == s;
    AnyPageHit(segments, AddressPage(s, p), j);
  }

  // ---------------------------------------------------------------- runs

  /** The counters and the pages whose bit is set, at one moment. */
  datatype Books = Books(free: nat, used: nat, taken: set<nat>)

  datatype Event = HandedOut(page: nat) | GivenBack(page: nat) | Nothing

  /** Counting up and down on 64-bit words. */
  function Up(x: nat): nat { (x + 1) % U64 }

  function Down(x: nat): nat { (x + U64 - 1) % U64 }

  /** One call: a free page is taken, a taken page comes back, or nothing changes. The counters wrap around. */
  ghost predicate Step(a: Books, e: Event, b: Books) {
    match e
    case HandedOut(page) =>
      page !in a.taken && b == Books(Down(a.free), Up(a.used), a.taken + {page})
    case GivenBack(page) =>
      page in a.taken && b == Books(Up(a.free), Down(a.used), a.taken - {page})
    case Nothing => b == a
  }

  ghost predicate Run(states: seq<Books>, events: seq<Event>) {
    |states| == |events| + 1 && forall i | 0 <= i < |events| :: Step(states[i], events[i], states[i + 1])
  }

  /** No page is handed out twice without being given back in between. */
  lemma {:induction false} NoDoubleHandOut(states: seq<Books>, events: seq<Event>, a: nat, b: nat)
    requires Run(states, events) && a < b < |events| && events[a].HandedOut? && events[b] == events[a]
    ensures exists i :: a < i < b && events[i] == GivenBack(events[a].page)
  {
    var page := events[a].page;
    assert Step(states[a], events[a], states[a + 1]) && Step(states[b], events[b], states[b + 1]);
    var i := Lost(states, events, page, a + 1, b);
  }

  lemma {:induction false} Lost(states: seq<Books>, events: seq<Event>, page: nat, a: nat, b: nat) returns (i: nat)
    requires Run(states, events) && a <= b < |events| && page in states[a].taken && page !in states[b].taken
    ensures a <= i < b && events[i] == GivenBack(page)
    decreases b - a
  {
    assert Step(states[a], events[a], states[a + 1]);
    if page !in states[a + 1].taken { return a; }
    i := Lost(states, events, page, a + 1, b);
  }

  function WordSum(x: int, y: int): nat { (x + y) % U64 }

  /** Free and used pages add up to the same number, and used pages exceed the set bits of the bitmap by the same
      number, both on 64-bit words. */
  ghost predicate Balanced(a: Books, b: Books) {
    WordSum(b.free, b.used) == WordSum(a.free, a.used) && WordSum(b.used, -|b.taken|) == WordSum(a.used, -|a.taken|)
  }

  lemma StepBalances(a: Books, e: Event, b: Books)
    requires Step(a, e, b)
    ensures Balanced(a, b)
  {
    hide Up, Down, WordSum;
    match e
    case HandedOut(page) =>
      OneMoved(a.free, a.used);
      OneMore(a.used, |a.taken|);
    case GivenBack(page) =>
      OneMoved(a.used, a.free);
      OneLess(a.used, |a.taken|);
    case Nothing =>
  }

  lemma OneMoved(x: nat, y: nat)
    ensures WordSum(Down(x), Up(y)) == WordSum(Up(y), Down(x)) == WordSum(x, y) == WordSum(y, x)
  {
    AddWrapped(x + U64 - 1, Up(y));
    AddWrapped(y + 1, x + U64 - 1);
    AddWords(x + y, 1);
  }

  lemma OneMore(x: nat, n: int)
    ensures WordSum(Up(x), -(n + 1)) == WordSum(x, -n)
  {
    AddWrapped(x + 1, -(n + 1));
  }

  lemma OneLess(x: nat, n: int)
    ensures WordSum(Down(x), -(n - 1)) == WordSum(x, -n)
  {
    AddWrapped(x + U64 - 1, -(n - 1));
    AddWords(x - n, 1);
  }

  /** Over every run both sums stay what they were. */
  lemma {:induction false} RunKeepsAccounts(states: seq<Books>, events: seq<Event>)
    requires Run(states, events)
    ensures Balanced(states[0], states[|events|])
  {
    if events != [] {
      var n := |events| - 1;
      RunKeepsAccounts(states[..n + 1], events[..n]);
      StepBalances(states[n], events[n], states[n + 1]);
    }
  }

  // ---------------------------------------------------------------- the allocator

  class PageAllocator {
    const pageBitmap: array<bv8>          // one bit per page, set if used, and the byte behind
    const pageMappings: array<Segment>
    const chunkCount: nat
    const physicalBase: nat               // where the kernel executable starts
    var lastUsedMapping: nat
    var lastPageUsed: nat
    var freePages: nat
    var usedPages: nat
    ghost var taken: set<nat>             // the pages whose bit is set

    /** The allocator with an empty bitmap, over the given segments. */
    constructor (segments: seq<Segment>, physicalBase: nat, freePages: nat)
      requires |segments| <= 30 && forall s | s in segments :: s.start <= s.end
      ensures Valid() && fresh(pageBitmap) && fresh(pageMappings) && Segments() == segments
      ensures this.physicalBase == physicalBase && lastPageUsed == 1 && Now() == Books(freePages, 0, {})
    {
      pageBitmap := new bv8[131073](_ => 0);
      pageMappings := new Segment[32](
        i requires 0 <= i => if i < |segments| then segments[i] else Segment(0, 0, 0));
      chunkCount := |segments|;
      this.physicalBase, this.freePages := physicalBase, freePages;
      lastUsedMapping, lastPageUsed, usedPages, taken := 0, 1, 0, {};
      new;
      forall i | 0 <= i <= MAX_PAGES ensures !PageBit(i) { NoBit(i % 8); }
    }

    predicate PageBit(i: nat)
      reads pageBitmap
      requires i / 8 < pageBitmap.Length
    {
      Bit(pageBitmap[i / 8], i % 8)
    }

    /** The bitmap has a byte behind its last page, since the guards let index MAX_PAGES through; the table has two
        entries behind its last segment, since the search runs into them, and these are all zero. */
    ghost predicate Valid()
      reads this, pageBitmap, pageMappings
    {
      && pageBitmap.Length == 131073
      && (forall i {:trigger PageBit(i)} | 0 <= i <= MAX_PAGES :: i in taken <==> PageBit(i))
      && (forall i | i in taken :: i <= MAX_PAGES)
      && pageMappings.Length == 32 && chunkCount <= 30 && lastUsedMapping <= chunkCount + 1
      && (forall j | chunkCount <= j < 32 :: pageMappings[j] == Segment(0, 0, 0))
      && (forall j | 0 <= j < 32 :: pageMappings[j].start <= pageMappings[j].end)
    }

    ghost function Segments(): seq<Segment>
      reads pageMappings
      requires chunkCount <= pageMappings.Length
    {
      pageMappings[..chunkCount]
    }

    ghost function Now(): Books
      reads this
    {
      Books(freePages, usedPages, taken)
    }

    // -------------------------------------------------------------- the bitmap

    method PageFree(pageIndex: nat) returns (free: bool)
      requires Valid() && pageIndex <= MAX_PAGES
      ensures free <==> pageIndex !in taken
    {
      free := !PageBit(pageIndex);
    }

    /** Marks a page, and moves one page between the counters, which wrap around at 64 bits. */
    method SetPage(pageIndex: nat, free: bool)
      requires Valid() && pageIndex <= MAX_PAGES
      modifies pageBitmap, this`taken, this`lastPageUsed, this`freePages, this`usedPages
      ensures Valid() && taken == if free then old(taken) - {pageIndex} else old(taken) + {pageIndex}
      ensures lastPageUsed == if free then old(lastPageUsed) else pageIndex
      ensures freePages == if free then Up(old(freePages)) else Down(old(freePages))
      ensures usedPages == if free then Down(old(usedPages)) else Up(old(usedPages))
    {
      var byte, bit := pageIndex / 8, pageIndex % 8;
      ghost var was := pageBitmap[byte];
      if free {
        pageBitmap[byte] := WithoutBit(pageBitmap[byte], bit);
        freePages := Up(freePages);
        usedPages := Down(usedPages);
        taken := taken - {pageIndex};
      } else {
        pageBitmap[byte] := WithBit(pageBitmap[byte], bit);
        lastPageUsed := pageIndex;
        freePages := Down(freePages);
        usedPages := Up(usedPages);
        taken := taken + {pageIndex};
      }
      forall i | 0 <= i <= MAX_PAGES ensures i in taken <==> PageBit(i) {
        assert i in old(taken) <==> old(PageBit(i));
        if i / 8 == byte {
          WithBitIs(was, bit, i % 8);
          WithoutBitIs(was, bit, i % 8);
        }
      }
    }

    /** The page behind the last one used, which is tried first. */
    function Candidate(last: nat): nat {
      if last >= physicalBase / 4096 || last >= MAX_PAGES then 2 else last + 1
    }

    /** The page to take: the candidate if it is free, or else the lowest free page. */
    ghost predicate IsNext(page: nat, last: nat, taken: set<nat>) {
      && 1 <= page <= MAX_PAGES && page !in taken
      && (page == Candidate(last) || (Candidate(last) in taken && forall i | 1 <= i < page :: i in taken))
    }

    ghost predicate NoneFree(taken: set<nat>) { forall i | 1 <= i <= MAX_PAGES :: i in taken }

    /** A free page, found whenever there is one: the page behind the last one used, or else the lowest. None stands
        for a panic. */
    method GetFreePage() returns (r: Option<nat>)
      requires Valid()
      modifies this`lastPageUsed
      ensures Valid()
      ensures match r
              case Some(page) => IsNext(page, old(lastPageUsed), taken) && lastPageUsed == page
              case None => NoneFree(taken)
    {
      if lastPageUsed >= physicalBase / 4096 { lastPageUsed := 1; }
      if lastPageUsed >= MAX_PAGES { lastPageUsed := 1; }
      lastPageUsed := lastPageUsed + 1;
      var free := PageFree(lastPageUsed);
      if free { return Some(lastPageUsed); }
      for i := 1 to MAX_PAGES + 1
        invariant Valid() && forall k | 1 <= k < i :: k in taken
      {
        free := PageFree(i);
        if free {
          lastPageUsed := i;
          return Some(i);
        }
      }
      return None;
    }

    // -------------------------------------------------------------- the segment table

    ghost predicate NowhereHeld(page: nat)
      reads pageMappings
      requires chunkCount <= pageMappings.Length
    {
      forall j | 0 <= j < chunkCount :: !HoldsPage(pageMappings[j], page)
    }

    ghost predicate NowhereReached(p: nat)
      reads pageMappings
      requires chunkCount <= pageMappings.Length
    {
      forall j | 0 <= j < chunkCount :: !HoldsAddress(pageMappings[j], p)
    }

    /** The address of a page: that of a segment that holds it, wherever the search starts. */
    method PageToPtr(pageIndex: nat) returns (r: Option<nat>)
      requires Valid()
      modifies this`lastUsedMapping
      ensures Valid()
      ensures r == None <==> pageIndex > MAX_PAGES || NowhereHeld(pageIndex)
      ensures r.Some? ==>
                exists j :: 0 <= j < chunkCount && HoldsPage(pageMappings[j], pageIndex) &&
                            r.value == PageAddress(pageMappings[j], pageIndex)
      ensures pageIndex <= MAX_PAGES && PagesApart(Segments()) ==> r == PageLocated(Segments(), pageIndex)
    {
      if pageIndex > MAX_PAGES { return None; }
      var wrapped := false;
      while true
        invariant Valid()
        invariant wrapped ==> forall j | 0 <= j < lastUsedMapping :: !HoldsPage(pageMappings[j], pageIndex)
        decreases !wrapped, chunkCount + 1 - lastUsedMapping
      {
        var mapping := pageMappings[lastUsedMapping];
        if HoldsPage(mapping, pageIndex) {
          assert Segments()[lastUsedMapping] == mapping;
          if PagesApart(Segments()) { AnyPageHit(Segments(), pageIndex, lastUsedMapping); }
          return Some(PageAddress(mapping, pageIndex));
        } else if lastUsedMapping <= chunkCount {
          lastUsedMapping := lastUsedMapping + 1;
        } else if !wrapped {
          lastUsedMapping := 0;
          wrapped := true;
        } else {
          ScanPageFinds(Segments(), pageIndex);
          return None;
        }
      }
    }

    /** The page at an address: that of a segment that holds it, wherever the search starts. */
    method PtrToPage(p: nat) returns (r: Option<nat>)
      requires Valid()
      modifies this`lastUsedMapping
      ensures Valid()
      ensures r == None <==> p == 0 || p % 4096 != 0 || NowhereReached(p)
      ensures r.Some? ==> exists j :: 0 <= j < chunkCount && HoldsAddress(pageMappings[j], p) &&
                                      r.value == AddressPage(pageMappings[j], p)
      ensures p != 0 && p % 4096 == 0 && AddressesApart(Segments()) ==> r == AddressLocated(Segments(), p)
    {
      if p == 0 { return None; }
      if p % 4096 != 0 { return None; }
      var wrapped := false;
      while true
        invariant Valid()
        invariant wrapped ==> forall j | 0 <= j < lastUsedMapping :: !HoldsAddress(pageMappings[j], p)
        decreases !wrapped, chunkCount + 1 - lastUsedMapping
      {
        var mapping := pageMappings[lastUsedMapping];
        if HoldsAddress(mapping, p) {
          assert Segments()[lastUsedMapping] == mapping;
          if AddressesApart(Segments()) { AnyAddressHit(Segments(), p, lastUsedMapping); }
          return Some(AddressPage(mapping, p));
        } else if lastUsedMapping <= chunkCount {
          lastUsedMapping := lastUsedMapping + 1;
        } else if !wrapped {
          lastUsedMapping := 0;
          wrapped := true;
        } else {
          ScanAddressFinds(Segments(), p);
          return None;
        }
      }
    }

    // -------------------------------------------------------------- allocation

    /** Takes a page by its index. A page that no segment holds is marked used although no pointer comes back. */
    method PpAllocAt(pageIndex: nat) returns (r: Option<nat>)
      requires Valid()
      modifies pageBitmap, this`taken, this`lastPageUsed, this`freePages, this`usedPages, this`lastUsedMapping
      ensures Valid()
      ensures var open := pageIndex < physicalBase && pageIndex <= MAX_PAGES && pageIndex !in old(taken);
              Step(old(Now()), if open then HandedOut(pageIndex) else Nothing, Now()) &&
              (r == None <==> !open || NowhereHeld(pageIndex))
      ensures r.Some? && PagesApart(Segments()) ==> r == PageLocated(Segments(), pageIndex)
    {
      if pageIndex >= physicalBase { return None; }
      if pageIndex > MAX_PAGES { return None; }
      var free := PageFree(pageIndex);
      if !free { return None; }
      SetPage(pageIndex, false);
      r := PageToPtr(pageIndex);
    }

    /** Takes the next free page, unless it lies behind the kernel's address, which is taken for a page index. */
    method PpAlloc() returns (r: Option<nat>, ghost page: nat)
      requires Valid()
      modifies pageBitmap, this`taken, this`lastPageUsed, this`freePages, this`usedPages, this`lastUsedMapping
      ensures Valid()
      ensures if NoneFree(old(taken)) then r == None && Step(old(Now()), Nothing, Now())
              else
                && IsNext(page, old(lastPageUsed), old(taken))
                && Step(old(Now()), if page < physicalBase then HandedOut(page) else Nothing, Now())
                && (r == None <==> page >= physicalBase || NowhereHeld(page))
      ensures r.Some? && PagesApart(Segments()) ==> r == PageLocated(Segments(), page)
    {
      page := 0;
      var index := GetFreePage();
      if index == None { return None, page; }
      page := index.value;
      r := PpAllocAt(index.value);
    }

    /** Gives a page back by its index; a free page or an index outside the bitmap changes nothing. */
    method PpFreeAt(pageIndex: nat)
      requires Valid()
      modifies pageBitmap, this`taken, this`lastPageUsed, this`freePages, this`usedPages
      ensures Valid() && Step(old(Now()), if pageIndex in old(taken) then GivenBack(pageIndex) else Nothing, Now())
    {
      if pageIndex > MAX_PAGES { return; }
      var free := PageFree(pageIndex);
      if free { return; }
      SetPage(pageIndex, true);
    }

    /** Gives back the page at an address. Nothing changes for NULL, a misaligned address, an address in no segment,
        or a free page. */
    method PpFree(p: nat) returns (ghost page: Option<nat>)
      requires Valid()
      modifies pageBitmap, this`taken, this`lastPageUsed, this`freePages, this`usedPages, this`lastUsedMapping
      ensures Valid()
      ensures page == None <==> p == 0 || p % 4096 != 0 || NowhereReached(p)
      ensures page.Some? ==> exists j :: 0 <= j < chunkCount && HoldsAddress(pageMappings[j], p) &&
                                         page.value == AddressPage(pageMappings[j], p)
      ensures p != 0 && p % 4096 == 0 && AddressesApart(Segments()) ==> page == AddressLocated(Segments(), p)
      ensures Step(old(Now()), if page.Some? && page.value in old(taken) then GivenBack(page.value) else Nothing, Now())
    {
      var pageIndex := PtrToPage(p);
      page := pageIndex;
      PpFreeAt(if pageIndex == None then U64 - 1 else pageIndex.value);
    }

    /** Among segments that do not overlap, giving back what was just handed out restores bitmap and counters. */
    method AllocThenFree() returns (r: Option<nat>)
      requires Valid() && freePages < U64 && usedPages < U64
      requires PagesApart(Segments()) && AddressesApart(Segments()) && forall s | s in Segments() :: Sane(s)
      modifies pageBitmap, this`taken, this`lastPageUsed, this`freePages, this`usedPages, this`lastUsedMapping
      ensures Valid() && (r.Some? ==> Now() == old(Now()))
    {
      ghost var page, back;
      r, page := PpAlloc();
      if r.Some? {
        ghost var between := Now();
        LocatedInverse(Segments(), page);
        back := PpFree(r.value);
        UndoneStep(old(Now()), between, page, Now());
      }
    }
  }

  lemma UndoneStep(a: Books, between: Books, page: nat, b: Books)
    requires a.free < U64 && a.used < U64 && Step(a, HandedOut(page), between) && Step(between, GivenBack(page), b)
    ensures b == a
  {
  }
}
