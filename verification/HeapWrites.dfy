/** The header writes of the heap, as updates of its flat memory, and the
    block list they leave behind. */
module HeapWrites {
  import opened Machine
  import opened KernelSpace
  import opened HeapBlocks

  type Words = seq<Word>

  function WriteHeader(flat: Words, b: Block, next: Word): (r: Words)
    requires b.End() <= |flat| && b.Bytes() < TWO_32
    ensures |r| == |flat|
  {
    flat[b.pos := b.Bytes()][b.pos + 1 := if b.free then 1 else 0][b.pos + 2 := next]
  }

  /** Words of used payloads: what the kernel's clients have stored. */
  predicate PayloadsKept(flat: Words, flat': Words, bs: seq<Block>) {
    && |flat| <= |flat'|
    && forall b :: b in bs && !b.free ==>
         forall k :: b.pos + HEADER_WORDS <= k < b.End() && k < |flat| ==> flat'[k] == flat[k]
  }

  /** Distinct blocks do not overlap. */
  lemma Separate(bs: seq<Block>, lo: nat, hi: nat, i: nat, j: nat)
    requires Tiled(bs, lo, hi) && i < |bs| && j < |bs|
    ensures i < j ==> bs[i].End() <= bs[j].pos
    ensures j < i ==> bs[j].End() <= bs[i].pos
    ensures bs[i].End() <= hi && bs[j].End() <= hi
  {
    TiledBounds(bs, lo, hi, i);
    TiledBounds(bs, lo, hi, j);
    if i < j {
      TiledOrder(bs, lo, hi, i, j);
    } else if j < i {
      TiledOrder(bs, lo, hi, j, i);
    }
  }

  /** What a list walk reads at block i. */
  lemma HeaderFields(flat: Words, bs: seq<Block>, head: int, lo: nat, hi: nat, i: nat)
    requires Linked(flat, bs, head) && Tiled(bs, lo, hi) && hi <= |flat| && i < |bs|
    ensures bs[i].pos + 2 < bs[i].End() <= hi
    ensures flat[bs[i].pos] == bs[i].Bytes()
    ensures flat[bs[i].pos + 1] == if bs[i].free then 1 else 0
    ensures flat[bs[i].pos + 2] == NextAddress(bs, i)
  {
    TiledBounds(bs, lo, hi, i);
    assert HeaderAt(flat, bs, i);
  }

  /** Only words of block i changed. */
  predicate OnlyBlockChanged(flat: Words, flat': Words, b: Block) {
    && |flat'| == |flat|
    && forall k :: 0 <= k < |flat| && !(b.pos <= k < b.End()) ==> flat'[k] == flat[k]
  }

  lemma OtherHeaderKept(flat: Words, flat': Words, bs: seq<Block>, head: int, lo: nat, hi: nat, i: nat, j: nat)
    requires Linked(flat, bs, head) && Tiled(bs, lo, hi) && i < |bs| && j < |bs| && j != i
    requires OnlyBlockChanged(flat, flat', bs[i])
    ensures Header(flat', bs[j], NextAddress(bs, j))
  {
    Separate(bs, lo, hi, i, j);
    assert HeaderAt(flat, bs, j);
    HeaderFrame(flat, flat', bs[j], NextAddress(bs, j));
  }

  lemma FreeBlockChanged(flat: Words, flat': Words, bs: seq<Block>, lo: nat, hi: nat, i: nat)
    requires Tiled(bs, lo, hi) && i < |bs| && bs[i].free
    requires OnlyBlockChanged(flat, flat', bs[i])
    ensures PayloadsKept(flat, flat', bs)
  {
    forall b | b in bs && !b.free
      ensures forall k :: b.pos + HEADER_WORDS <= k < b.End() && k < |flat| ==> flat'[k] == flat[k]
    {
      var j :| 0 <= j < |bs| && bs[j] == b;
      Separate(bs, lo, hi, i, j);
    }
  }

  /** Later changes inside one block of the list that was not in use before
      leave the older payloads alone. */
  lemma PayloadsKeptThrough(fs: Words, ft: Words, fu: Words, before: seq<Block>, after: seq<Block>, hi: nat, i: nat)
    requires PayloadsKept(fs, ft, before) && Tiled(after, 0, hi) && i < |after|
    requires OnlyBlockChanged(ft, fu, after[i])
    requires forall b :: b in before && !b.free ==> b in after && b != after[i]
    ensures PayloadsKept(fs, fu, before)
  {
    forall b | b in before && !b.free
      ensures forall k :: b.pos + HEADER_WORDS <= k < b.End() && k < |fs| ==> fu[k] == fs[k]
    {
      var j :| 0 <= j < |after| && after[j] == b;
      Separate(after, 0, hi, i, j);
    }
  }

  // ---- Marking a block used ----

  lemma MarkUsedLinked(flat: Words, bs: seq<Block>, head: int, lo: nat, hi: nat, i: nat)
    requires Linked(flat, bs, head) && Tiled(bs, lo, hi) && hi <= |flat| && i < |bs| && bs[i].free
    ensures bs[i].pos + 1 < |flat|
    ensures var flat' := flat[bs[i].pos + 1 := 0];
            Linked(flat', MarkUsed(bs, i), head) && PayloadsKept(flat, flat', bs)
  {
    assert HeaderAt(flat, bs, i);
    var flat' := flat[bs[i].pos + 1 := 0];
    var r := MarkUsed(bs, i);
    forall j | 0 <= j < |r|
      ensures HeaderAt(flat', r, j)
    {
      assert NextAddress(r, j) == NextAddress(bs, j);
      if j != i {
        OtherHeaderKept(flat, flat', bs, head, lo, hi, i, j);
      }
    }
    FreeBlockChanged(flat, flat', bs, lo, hi, i);
  }

  // ---- Splitting ----

  /** The new header first, then the size and next field of the old one. */
  function SplitWrites(flat: Words, b: Block, size: nat, next: Word): (r: Words)
    requires size % 4 == 0 && Splits(b, size) && b.End() <= |flat| && b.Bytes() < TWO_32
    requires Halves(b, size)[1].Address() < TWO_32
    ensures |r| == |flat|
  {
    var h := Halves(b, size);
    WriteHeader(flat, h[1], next)[b.pos := size][b.pos + 2 := h[1].Address()]
  }

  lemma SplitWritesAt(flat: Words, b: Block, size: nat, next: Word)
    requires size % 4 == 0 && Splits(b, size) && Header(flat, b, next) && b.free && b.Bytes() < TWO_32
    requires Halves(b, size)[1].Address() < TWO_32
    ensures var h := Halves(b, size);
            var flat' := SplitWrites(flat, b, size, next);
            && OnlyBlockChanged(flat, flat', b)
            && Header(flat', h[0], h[1].Address())
            && Header(flat', h[1], next)
  {
  }

  lemma SplitLinked(flat: Words, bs: seq<Block>, head: int, lo: nat, hi: nat, i: nat, size: nat)
    requires Linked(flat, bs, head) && Tiled(bs, lo, hi) && hi <= |flat| && i < |bs|
    requires size % 4 == 0 && Splits(bs[i], size) && bs[i].free
    requires WordAddress(hi) < TWO_32
    ensures NextAddress(bs, i) < TWO_32 && bs[i].End() <= hi && Halves(bs[i], size)[1].Address() < TWO_32
    ensures var flat' := SplitWrites(flat, bs[i], size, NextAddress(bs, i));
            Linked(flat', Split(bs, i, size), head) && PayloadsKept(flat, flat', bs)
  {
    TiledBounds(bs, lo, hi, i);
    if i + 1 < |bs| {
      TiledBounds(bs, lo, hi, i + 1);
    }
    assert HeaderAt(flat, bs, i);
    SplitWritesAt(flat, bs[i], size, NextAddress(bs, i));
    var flat' := SplitWrites(flat, bs[i], size, NextAddress(bs, i));
    var r := Split(bs, i, size);
    forall j | 0 <= j < |r|
      ensures HeaderAt(flat', r, j)
    {
      SplitHeader(flat, flat', bs, head, lo, hi, i, size, j);
    }
    FreeBlockChanged(flat, flat', bs, lo, hi, i);
  }

  lemma SplitHeader(flat: Words, flat': Words, bs: seq<Block>, head: int, lo: nat, hi: nat, i: nat, size: nat, j: nat)
    requires Linked(flat, bs, head) && Tiled(bs, lo, hi) && i < |bs|
    requires size % 4 == 0 && Splits(bs[i], size)
    requires OnlyBlockChanged(flat, flat', bs[i])
    requires Header(flat', Halves(bs[i], size)[0], Halves(bs[i], size)[1].Address())
    requires Header(flat', Halves(bs[i], size)[1], NextAddress(bs, i))
    requires j < |Split(bs, i, size)|
    ensures Header(flat', Split(bs, i, size)[j], NextAddress(Split(bs, i, size), j))
  {
    hide Header;
    hide Linked;
    hide Tiled;
    hide OnlyBlockChanged;
    var r := Split(bs, i, size);
    if j < i {
      OtherHeaderKept(flat, flat', bs, head, lo, hi, i, j);
      assert r[j] == bs[j] && NextAddress(r, j) == NextAddress(bs, j);
    } else if j > i + 1 {
      OtherHeaderKept(flat, flat', bs, head, lo, hi, i, j - 1);
      assert r[j] == bs[j - 1] && NextAddress(r, j) == NextAddress(bs, j - 1);
    } else if j == i {
      assert r[j] == Halves(bs[i], size)[0] && r[j + 1] == Halves(bs[i], size)[1];
    } else {
      assert r[j] == Halves(bs[i], size)[1] && NextAddress(r, j) == NextAddress(bs, i);
    }
  }

  // ---- Appending a region ----

  function Region(lo: nat, hi: nat): (b: Block)
    requires lo + HEADER_WORDS <= hi
  {
    Block(lo, hi - lo - HEADER_WORDS, true)
  }

  /** A new region's header, then the link from the last block to it. */
  function AppendWrites(flat: Words, bs: seq<Block>, region: Block): (r: Words)
    requires region.End() <= |flat| && region.Bytes() < TWO_32 && region.Address() < TWO_32
    requires |bs| > 0 ==> bs[|bs| - 1].End() <= |flat|
    ensures |r| == |flat|
  {
    var flat1 := WriteHeader(flat, region, 0);
    if |bs| == 0 then flat1 else flat1[bs[|bs| - 1].pos + 2 := region.Address()]
  }

  lemma AppendTiled(bs: seq<Block>, lo: nat, hi: nat)
    requires Tiled(bs, 0, lo) && lo + HEADER_WORDS <= hi
    ensures Tiled(bs + [Region(lo, hi)], 0, hi)
  {
    var bs' := bs + [Region(lo, hi)];
    forall i | 0 <= i < |bs'| - 1
      ensures Adjacent(bs', i)
    {
      if i < |bs| - 1 {
        assert Adjacent(bs, i);
      }
    }
  }

  lemma AppendWritesAt(flat: Words, bs: seq<Block>, head: int, lo: nat, hi: nat, k: nat)
    requires Tiled(bs, 0, lo) && lo + HEADER_WORDS <= hi <= |flat| && k < lo
    requires WordAddress(hi) < TWO_32
    ensures |bs| > 0 ==> bs[|bs| - 1].End() <= lo
    ensures AppendWrites(flat, bs, Region(lo, hi))[k] ==
            if |bs| > 0 && k == bs[|bs| - 1].pos + 2 then WordAddress(lo) else flat[k]
  {
  }

  lemma AppendLinked(flat: Words, bs: seq<Block>, head: int, lo: nat, hi: nat)
    requires Linked(flat, bs, head) && Tiled(bs, 0, lo) && lo + HEADER_WORDS <= hi <= |flat|
    requires WordAddress(hi) < TWO_32
    ensures |bs| > 0 ==> bs[|bs| - 1].End() <= lo
    ensures var region := Region(lo, hi);
            var flat' := AppendWrites(flat, bs, region);
            && Linked(flat', bs + [region], if |bs| == 0 then region.Address() else head)
            && PayloadsKept(flat, flat', bs)
  {
    var region := Region(lo, hi);
    var flat' := AppendWrites(flat, bs, region);
    var bs' := bs + [region];
    forall j | 0 <= j < |bs'|
      ensures HeaderAt(flat', bs', j)
    {
      if j < |bs| {
        AppendHeader(flat, bs, head, lo, hi, j);
        assert bs'[j] == bs[j];
      }
    }
    forall b | b in bs && !b.free
      ensures forall k :: b.pos + HEADER_WORDS <= k < b.End() && k < |flat| ==> flat'[k] == flat[k]
    {
      var j :| 0 <= j < |bs| && bs[j] == b;
      AppendPayload(flat, bs, head, lo, hi, j);
    }
  }

  lemma AppendHeader(flat: Words, bs: seq<Block>, head: int, lo: nat, hi: nat, j: nat)
    requires Linked(flat, bs, head) && Tiled(bs, 0, lo) && lo + HEADER_WORDS <= hi <= |flat|
    requires WordAddress(hi) < TWO_32 && j < |bs|
    ensures bs[|bs| - 1].End() <= lo
    ensures Header(AppendWrites(flat, bs, Region(lo, hi)), bs[j], NextAddress(bs + [Region(lo, hi)], j))
  {
    Separate(bs, 0, lo, |bs| - 1, j);
    assert HeaderAt(flat, bs, j);
    AppendWritesAt(flat, bs, head, lo, hi, bs[j].pos);
    AppendWritesAt(flat, bs, head, lo, hi, bs[j].pos + 1);
    AppendWritesAt(flat, bs, head, lo, hi, bs[j].pos + 2);
  }

  lemma AppendPayload(flat: Words, bs: seq<Block>, head: int, lo: nat, hi: nat, j: nat)
    requires Tiled(bs, 0, lo) && lo + HEADER_WORDS <= hi <= |flat|
    requires WordAddress(hi) < TWO_32 && j < |bs|
    ensures bs[|bs| - 1].End() <= lo
    ensures forall k :: bs[j].pos + HEADER_WORDS <= k < bs[j].End() && k < |flat| ==>
              AppendWrites(flat, bs, Region(lo, hi))[k] == flat[k]
  {
    Separate(bs, 0, lo, |bs| - 1, j);
    forall k | bs[j].pos + HEADER_WORDS <= k < bs[j].End() && k < |flat|
      ensures AppendWrites(flat, bs, Region(lo, hi))[k] == flat[k]
    {
      AppendWritesAt(flat, bs, head, lo, hi, k);
    }
  }

  // ---- Client stores ----

  /** A store inside a payload disturbs no header and no other block. */
  lemma PayloadStoreLinked(flat: Words, bs: seq<Block>, head: int, lo: nat, hi: nat, i: nat, k: nat, x: Word)
    requires Linked(flat, bs, head) && Tiled(bs, lo, hi) && hi <= |flat| && i < |bs|
    requires bs[i].pos + HEADER_WORDS <= k < bs[i].End()
    ensures k < |flat|
    ensures Linked(flat[k := x], bs, head)
    ensures OnlyBlockChanged(flat, flat[k := x], bs[i])
  {
    TiledBounds(bs, lo, hi, i);
    var flat' := flat[k := x];
    forall j | 0 <= j < |bs|
      ensures HeaderAt(flat', bs, j)
    {
      if j != i {
        OtherHeaderKept(flat, flat', bs, head, lo, hi, i, j);
      } else {
        assert HeaderAt(flat, bs, i);
      }
    }
  }
}
