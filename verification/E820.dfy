/** The firmware's E820 memory map (section 15.1 of the ACPI 6 specification)
    and what the physical allocator reads out of it. */
module E820 {
  import opened Machine

  const USABLE: int := 1

  datatype Entry = Entry(base: DoubleWord, length: DoubleWord, kind: Word)

  /** The 64-bit sum, which wraps. */
  function RegionEnd(e: Entry): (r: DoubleWord) {
    (e.base + e.length) % 0x1_0000_0000_0000_0000
  }

  predicate Counts(e: Entry) {
    e.kind == USABLE && e.base < TWO_32
  }

  /** The bounds handed to the page loop: the end is clamped to 4 GiB and then
      truncated to 32 bits, so an end of 4 GiB becomes 0. */
  function LowAddress(e: Entry): (r: Word)
    requires Counts(e)
  {
    e.base
  }

  function HighAddress(e: Entry): (r: Word)
    requires Counts(e)
  {
    Min(RegionEnd(e), TWO_32) % TWO_32
  }

  function LowPage(e: Entry): (r: int)
    requires Counts(e)
  {
    AlignUp32(LowAddress(e), PAGE_SIZE) / PAGE_SIZE
  }

  function HighPage(e: Entry): (r: int)
    requires Counts(e)
  {
    HighAddress(e) / PAGE_SIZE
  }

  function EntryPages(e: Entry): (r: set<int>) {
    if Counts(e) then Pages(LowPage(e), HighPage(e)) else {}
  }

  function EntryPageCount(e: Entry): (r: nat) {
    if Counts(e) && HighPage(e) > LowPage(e) then HighPage(e) - LowPage(e) else 0
  }

  /** All pages the map offers, and the kernel's (double counting) page total. */
  function MapPages(es: seq<Entry>): (r: set<int>) {
    if |es| == 0 then {} else MapPages(es[..|es| - 1]) + EntryPages(es[|es| - 1])
  }

  function MapPageCount(es: seq<Entry>): (r: nat) {
    if |es| == 0 then 0 else MapPageCount(es[..|es| - 1]) + EntryPageCount(es[|es| - 1])
  }

  function HighestEnd(es: seq<Entry>): (r: DoubleWord)
    ensures forall e :: e in es ==> RegionEnd(e) <= r
  {
    if |es| == 0 then 0
    else
      var e := es[|es| - 1];
      var h := HighestEnd(es[..|es| - 1]);
      assert forall x :: x in es ==> x in es[..|es| - 1] || x == e;
      if RegionEnd(e) > h then RegionEnd(e) else h
  }

  function TrackedPages(es: seq<Entry>): (r: nat)
    ensures r <= TOTAL_FRAMES
  {
    Min(HighestEnd(es), TWO_32) / PAGE_SIZE
  }

  lemma {:induction false} InMapPages(es: seq<Entry>, p: int)
    ensures p in MapPages(es) <==> exists e :: e in es && p in EntryPages(e)
  {
    if |es| > 0 {
      InMapPages(es[..|es| - 1], p);
      var last := es[|es| - 1];
      assert forall e :: e in es <==> e in es[..|es| - 1] || e == last;
    }
  }

  /** Regions may overlap, so the number of offered pages is at most the total
      the kernel reports. */
  lemma {:induction false} PageCountBounds(es: seq<Entry>)
    ensures |MapPages(es)| <= MapPageCount(es)
    ensures MapPageCount(es) <= |es| * TOTAL_FRAMES
  {
    if |es| > 0 {
      var front, e := es[..|es| - 1], es[|es| - 1];
      PageCountBounds(front);
      EntryPageCounts(e);
      UnionSize(MapPages(front), EntryPages(e));
    }
  }

  lemma EntryPageCounts(e: Entry)
    ensures |EntryPages(e)| == EntryPageCount(e) <= TOTAL_FRAMES
  {
    if Counts(e) && LowPage(e) < HighPage(e) {
      PagesSize(LowPage(e), HighPage(e));
    } else {
      assert EntryPages(e) == {};
    }
  }

  lemma UnionSize<T>(a: set<T>, b: set<T>)
    ensures |a + b| <= |a| + |b|
  {
    assert a + b == a + (b - a);
    SubsetSize(b - a, b);
  }

  // ---- What the firmware's table says ----

  /** Page p lies wholly inside the region, in unbounded arithmetic. */
  predicate WhollyInside(e: Entry, p: int) {
    e.base <= p * PAGE_SIZE && (p + 1) * PAGE_SIZE <= e.base + e.length
  }

  predicate NoWrap(e: Entry) {
    e.base + e.length < TWO_64
  }

  /** The kernel's arithmetic is exact for a usable region based below 4 GiB when
      exactly one of two bad things does not happen: the region reaches 4 GiB
      (its end truncates to 0 and it is dropped), or its base lies in the last
      page (rounding up wraps and page 0 becomes its start). When both happen the
      two errors cancel. A region that wraps in 64 bits loses all its pages
      below 4 GiB, so it must have none, and its wrapped end must offer none. */
  predicate Faithful(e: Entry) {
    Counts(e) ==>
      if NoWrap(e) then e.base <= 0xFFFF_F000 <==> e.base + e.length < TWO_32
      else e.base > 0xFFFF_F000 && RegionEnd(e) < PAGE_SIZE
  }

  lemma PageBounds(e: Entry)
    requires Counts(e)
    ensures LowPage(e) == if e.base <= 0xFFFF_F000 then (e.base + 4095) / 4096 else 0
    ensures NoWrap(e) ==>
              && RegionEnd(e) == e.base + e.length
              && HighPage(e) == if e.base + e.length < TWO_32 then (e.base + e.length) / 4096 else 0
    ensures !NoWrap(e) ==> RegionEnd(e) == e.base + e.length - TWO_64 < e.base && HighPage(e) == RegionEnd(e) / 4096
  {
    RoundUpPage(e.base);
    if NoWrap(e) {
      assert RegionEnd(e) == e.base + e.length;
    } else {
      assert RegionEnd(e) == e.base + e.length - TWO_64;
    }
  }

  lemma EntryPagesExactIffFaithful(e: Entry)
    requires e.kind == USABLE
    ensures Faithful(e) <==>
            forall p :: 0 <= p < TOTAL_FRAMES ==> (p in EntryPages(e) <==> WhollyInside(e, p))
  {
    if Counts(e) {
      PageBounds(e);
      if !Faithful(e) {
        if e.base > 0xFFFF_F000 {
          assert 0 in EntryPages(e) && !WhollyInside(e, 0);
        } else {
          assert 0xF_FFFF !in EntryPages(e) && WhollyInside(e, 0xF_FFFF);
        }
      }
    }
  }

  /** The memory from 1 MiB up to 4 GiB as one region: none of it is offered. */
  lemma UpToFourGiBIsDropped()
    ensures var e := Entry(0x10_0000, 0xFFF0_0000, USABLE);
            && EntryPages(e) == {}
            && forall p :: 0x100 <= p < TOTAL_FRAMES ==> WhollyInside(e, p)
  {
    PageBounds(Entry(0x10_0000, 0xFFF0_0000, USABLE));
  }

  /** The pages that the kernel takes from an entry, in terms of what the entry
      says: past 4 GiB it reads the end as 0, and in the last page below it reads
      the base as 0. */
  predicate Offers(e: Entry, p: int) {
    && Counts(e)
    && (e.base <= p * PAGE_SIZE || (e.base > 0xFFFF_F000 && 0 <= p))
    && (p + 1) * PAGE_SIZE <= if NoWrap(e) && e.base + e.length >= TWO_32 then 0 else RegionEnd(e)
  }

  lemma EntryPagesOffered(e: Entry, p: int)
    requires e.kind == USABLE && 0 <= p < TOTAL_FRAMES
    ensures p in EntryPages(e) <==> Offers(e, p)
  {
    hide LowPage;
    hide HighPage;
    hide RegionEnd;
    if Counts(e) {
      PageBounds(e);
    }
  }

  lemma FaithfulOffers(e: Entry, p: int)
    requires e.kind == USABLE && 0 <= p < TOTAL_FRAMES && Faithful(e)
    ensures Offers(e, p) <==> WhollyInside(e, p)
  {
    hide Faithful;
    hide EntryPages;
    hide Offers;
    EntryPagesOffered(e, p);
    EntryPagesExactIffFaithful(e);
  }

  lemma OfferedIsTracked(es: seq<Entry>, e: Entry, p: int)
    requires e in es && 0 <= p < TOTAL_FRAMES && Offers(e, p)
    ensures p < TrackedPages(es)
  {
    assert RegionEnd(e) <= HighestEnd(es);
  }

  /** For every map the offered pages are those that some usable region offers;
      for maps of faithful entries these are the pages wholly inside one. */
  lemma MapPagesExact(es: seq<Entry>, p: int)
    requires 0 <= p < TOTAL_FRAMES
    ensures p in MapPages(es) <==> exists e :: e in es && e.kind == USABLE && Offers(e, p)
    ensures (forall e :: e in es ==> Faithful(e)) ==>
              (p in MapPages(es) <==> exists e :: e in es && e.kind == USABLE && WhollyInside(e, p))
    ensures p in MapPages(es) ==> p < TrackedPages(es)
  {
    hide Offers;
    hide WhollyInside;
    hide Faithful;
    hide EntryPages;
    hide TrackedPages;
    InMapPages(es, p);
    forall e | e in es && e.kind == USABLE
      ensures p in EntryPages(e) <==> Offers(e, p)
      ensures Faithful(e) ==> (Offers(e, p) <==> WhollyInside(e, p))
    {
      EntryPagesOffered(e, p);
      if Faithful(e) {
        FaithfulOffers(e, p);
      }
    }
    if p in MapPages(es) {
      var e :| e in es && p in EntryPages(e);
      OnlyUsable(e, p);
      OfferedIsTracked(es, e, p);
    }
  }

  lemma OnlyUsable(e: Entry, p: int)
    requires p in EntryPages(e)
    ensures e.kind == USABLE
  {
  }

  /** The highest end is that of some entry. */
  lemma {:induction false} HighestReached(es: seq<Entry>)
    ensures |es| == 0 ==> HighestEnd(es) == 0
    ensures |es| > 0 ==> exists e :: e in es && RegionEnd(e) == HighestEnd(es)
  {
    if |es| > 0 {
      var front, last := es[..|es| - 1], es[|es| - 1];
      HighestReached(front);
      if HighestEnd(es) == RegionEnd(last) {
        assert last in es;
      } else {
        var e :| e in front && RegionEnd(e) == HighestEnd(front);
        assert e in es;
      }
    }
  }

  /** A page is tracked exactly when some entry, usable or not, ends behind it. */
  lemma TrackedMeaning(es: seq<Entry>, p: int)
    requires 0 <= p < 0x10_0000
    ensures p < TrackedPages(es) <==>
            exists e :: e in es && 4096 * (p + 1) <= (e.base + e.length) % 0x1_0000_0000_0000_0000
  {
    HighestReached(es);
    if p < TrackedPages(es) {
      var e :| e in es && RegionEnd(e) == HighestEnd(es);
      assert 4096 * (p + 1) <= RegionEnd(e);
    }
    if e :| e in es && 4096 * (p + 1) <= (e.base + e.length) % 0x1_0000_0000_0000_0000 {
      assert RegionEnd(e) <= HighestEnd(es);
    }
  }

  /** Regions that share no page are counted exactly. */
  lemma {:induction false} DisjointRegionsCount(es: seq<Entry>)
    requires forall i, j :: 0 <= i < j < |es| ==> EntryPages(es[i]) !! EntryPages(es[j])
    ensures MapPageCount(es) == |MapPages(es)|
  {
    hide EntryPages;
    if |es| > 0 {
      var front, last := es[..|es| - 1], es[|es| - 1];
      forall i, j | 0 <= i < j < |front|
        ensures EntryPages(front[i]) !! EntryPages(front[j])
      {
        assert EntryPages(es[i]) !! EntryPages(es[j]);
      }
      DisjointRegionsCount(front);
      EntryPageCounts(last);
      forall p | p in MapPages(front)
        ensures p !in EntryPages(last)
      {
        InMapPages(front, p);
        var e :| e in front && p in EntryPages(e);
        var i :| 0 <= i < |front| && front[i] == e;
        assert EntryPages(es[i]) !! EntryPages(es[|es| - 1]);
      }
      assert MapPages(front) !! EntryPages(last);
    }
  }
}
