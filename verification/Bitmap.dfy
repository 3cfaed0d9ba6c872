/** The allocator's bitmap: bit `page % 32` of word `page / 32` is set when the
    page is in use. */
module Bitmap {
  predicate Bit(w: bv32, i: bv5) {
    (w >> i) & 1 == 1
  }

  lemma SetBit(w: bv32, i: bv5, j: bv5)
    ensures Bit(w | (1 << i), j) == (i == j || Bit(w, j))
  {
  }

  lemma ClearBit(w: bv32, i: bv5, j: bv5)
    ensures Bit(w & !(1 << i), j) == (i != j && Bit(w, j))
  {
  }

  lemma AllOnes(i: bv5)
    ensures Bit(0xFFFF_FFFF, i)
  {
  }

  ghost predicate SameBits(w: bv32, v: bv32) {
    forall i: bv5 :: Bit(w, i) == Bit(v, i)
  }

  lemma SameByte0(w: bv32, v: bv32)
    requires SameBits(w, v)
    ensures w & 0xFF == v & 0xFF
  {
    assert Bit(w, 0) == Bit(v, 0) && Bit(w, 1) == Bit(v, 1) && Bit(w, 2) == Bit(v, 2) && Bit(w, 3) == Bit(v, 3);
    assert Bit(w, 4) == Bit(v, 4) && Bit(w, 5) == Bit(v, 5) && Bit(w, 6) == Bit(v, 6) && Bit(w, 7) == Bit(v, 7);
  }

  lemma SameByte1(w: bv32, v: bv32)
    requires SameBits(w, v)
    ensures w & 0xFF00 == v & 0xFF00
  {
    assert Bit(w, 8) == Bit(v, 8) && Bit(w, 9) == Bit(v, 9) && Bit(w, 10) == Bit(v, 10) && Bit(w, 11) == Bit(v, 11);
    assert Bit(w, 12) == Bit(v, 12) && Bit(w, 13) == Bit(v, 13) && Bit(w, 14) == Bit(v, 14) && Bit(w, 15) == Bit(v, 15);
  }

  lemma SameByte2(w: bv32, v: bv32)
    requires SameBits(w, v)
    ensures w & 0xFF_0000 == v & 0xFF_0000
  {
    assert Bit(w, 16) == Bit(v, 16) && Bit(w, 17) == Bit(v, 17) && Bit(w, 18) == Bit(v, 18) && Bit(w, 19) == Bit(v, 19);
    assert Bit(w, 20) == Bit(v, 20) && Bit(w, 21) == Bit(v, 21) && Bit(w, 22) == Bit(v, 22) && Bit(w, 23) == Bit(v, 23);
  }

  lemma SameByte3(w: bv32, v: bv32)
    requires SameBits(w, v)
    ensures w & 0xFF00_0000 == v & 0xFF00_0000
  {
    assert Bit(w, 24) == Bit(v, 24) && Bit(w, 25) == Bit(v, 25) && Bit(w, 26) == Bit(v, 26) && Bit(w, 27) == Bit(v, 27);
    assert Bit(w, 28) == Bit(v, 28) && Bit(w, 29) == Bit(v, 29) && Bit(w, 30) == Bit(v, 30) && Bit(w, 31) == Bit(v, 31);
  }

  /** A word is determined by its 32 bits. */
  lemma BitsDetermineWord(w: bv32, v: bv32)
    requires SameBits(w, v)
    ensures w == v
  {
    SameByte0(w, v);
    SameByte1(w, v);
    SameByte2(w, v);
    SameByte3(w, v);
  }

  function Index(page: nat): bv5 {
    (page % 32) as bv5
  }

  lemma IndexRoundTrip(k: nat)
    requires k < 32
    ensures (k as bv5) as int == k
  {
  }

  lemma SamePage(p: nat, q: nat)
    requires p / 32 == q / 32
    ensures Index(p) == Index(q) <==> p == q
  {
    IndexRoundTrip(p % 32);
    IndexRoundTrip(q % 32);
  }

  predicate Used(words: seq<bv32>, page: nat)
    requires page < 32 * |words|
  {
    Bit(words[page / 32], Index(page))
  }

  function Mark(words: seq<bv32>, page: nat): (r: seq<bv32>)
    requires page < 32 * |words|
  {
    words[page / 32 := words[page / 32] | (1 << Index(page))]
  }

  function Unmark(words: seq<bv32>, page: nat): (r: seq<bv32>)
    requires page < 32 * |words|
  {
    words[page / 32 := words[page / 32] & !(1 << Index(page))]
  }

  lemma UsedAfterMark(words: seq<bv32>, page: nat, p: nat)
    requires page < 32 * |words| && p < 32 * |words|
    ensures Used(Mark(words, page), p) == (p == page || Used(words, p))
  {
    if p / 32 == page / 32 {
      SetBit(words[page / 32], Index(page), Index(p));
      SamePage(p, page);
    }
  }

  lemma UsedAfterUnmark(words: seq<bv32>, page: nat, p: nat)
    requires page < 32 * |words| && p < 32 * |words|
    ensures Used(Unmark(words, page), p) == (p != page && Used(words, p))
  {
    if p / 32 == page / 32 {
      ClearBit(words[page / 32], Index(page), Index(p));
      SamePage(p, page);
    }
  }

  /** The bitmap refines the set of free pages: exactly the pages in `free` have
      a clear bit, so every padding bit past `total` is set. */
  predicate Refines(words: seq<bv32>, total: nat, free: set<int>) {
    && total <= 32 * |words|
    && (forall p :: 0 <= p < 32 * |words| ==> (Used(words, p) <==> p !in free))
    && (forall p :: p in free ==> 0 <= p < total)
  }

  lemma MarkRefines(words: seq<bv32>, total: nat, free: set<int>, page: nat)
    requires Refines(words, total, free) && page < total
    ensures Refines(Mark(words, page), total, free - {page})
  {
    forall p | 0 <= p < 32 * |words|
      ensures Used(Mark(words, page), p) <==> p !in free - {page}
    {
      UsedAfterMark(words, page, p);
    }
  }

  lemma UnmarkRefines(words: seq<bv32>, total: nat, free: set<int>, page: nat)
    requires Refines(words, total, free) && page < total
    ensures Refines(Unmark(words, page), total, free + {page})
  {
    forall p | 0 <= p < 32 * |words|
      ensures Used(Unmark(words, page), p) <==> p !in free + {page}
    {
      UsedAfterUnmark(words, page, p);
    }
  }

  lemma AllUsedRefines(words: seq<bv32>, total: nat)
    requires total <= 32 * |words|
    requires forall i :: 0 <= i < |words| ==> words[i] == 0xFFFF_FFFF
    ensures Refines(words, total, {})
  {
    forall p | 0 <= p < 32 * |words|
      ensures Used(words, p)
    {
      AllOnes(Index(p));
    }
  }

  /** The refinement is exact: a free set determines every word of the bitmap. */
  lemma FreeSetDeterminesWords(a: seq<bv32>, b: seq<bv32>, total: nat, free: set<int>)
    requires |a| == |b|
    requires Refines(a, total, free) && Refines(b, total, free)
    ensures a == b
  {
    forall k | 0 <= k < |a|
      ensures a[k] == b[k]
    {
      forall i: bv5
        ensures Bit(a[k], i) == Bit(b[k], i)
      {
        var p := 32 * k + i as int;
        BitRoundTrip(i);
        assert p / 32 == k && p % 32 == i as int;
        assert Used(a, p) == Used(b, p);
      }
      BitsDetermineWord(a[k], b[k]);
    }
  }

  lemma BitRoundTrip(i: bv5)
    ensures 0 <= i as int < 32 && (i as int) as bv5 == i
  {
  }
}
