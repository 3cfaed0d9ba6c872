/** The heap's block list: what the headers in memory say, first fit and
    splitting. Positions and lengths count 4-byte words from HEAP_START; a
    block is a 3-word header (size, free flag, next) and its payload. */
module HeapBlocks {
  import opened Machine
  import opened KernelSpace

  const HEADER_BYTES: int := 12
  const HEADER_WORDS: int := 3
  const MIN_SPLIT: int := 16

  /** The request size kmalloc works with. Sizes above 0xFFFFFFF0 wrap to 0. */
  function RoundUp(size: Word): (r: Word)
    ensures r % DEFAULT_ALIGNMENT == 0 && r % 4 == 0
    ensures if size <= 0xFFFF_FFF0 then size <= r < size + DEFAULT_ALIGNMENT else r == 0
  {
    AlignUp32(size, DEFAULT_ALIGNMENT)
  }

  lemma RoundUpTwice(size: Word)
    ensures RoundUp(RoundUp(size)) == RoundUp(size)
  {
    hide RoundUp;
    var r, m := RoundUp(size), RoundUp(size) / DEFAULT_ALIGNMENT;
    assert r == DEFAULT_ALIGNMENT * m && r <= 0xFFFF_FFF0;
    var n := RoundUp(r) / DEFAULT_ALIGNMENT;
    assert RoundUp(r) == DEFAULT_ALIGNMENT * n;
  }

  datatype Block = Block(pos: nat, len: nat, free: bool) {
    /** Where the header is. */
    function Address(): (a: int) {
      WordAddress(pos)
    }

    /** What kmalloc returns. */
    function Payload(): (a: int) {
      WordAddress(pos + HEADER_WORDS)
    }

    function Bytes(): (n: int) {
      4 * len
    }

    function End(): (e: nat) {
      pos + HEADER_WORDS + len
    }
  }

  /** The blocks cover [lo, hi) in order, with no gap and no overlap. */
  predicate Tiled(bs: seq<Block>, lo: nat, hi: nat) {
    && (|bs| == 0 ==> lo == hi)
    && (|bs| > 0 ==> bs[0].pos == lo && bs[|bs| - 1].End() == hi)
    && (forall i :: 0 <= i < |bs| - 1 ==> Adjacent(bs, i))
  }

  predicate Adjacent(bs: seq<Block>, i: int)
    requires 0 <= i < |bs| - 1
  {
    bs[i + 1].pos == bs[i].End()
  }

  lemma {:induction false} TiledOrder(bs: seq<Block>, lo: nat, hi: nat, i: nat, j: nat)
    requires Tiled(bs, lo, hi) && i < j < |bs|
    ensures bs[i].End() <= bs[j].pos
    decreases j
  {
    if i < j - 1 {
      TiledOrder(bs, lo, hi, i, j - 1);
    }
    assert Adjacent(bs, j - 1);
  }

  lemma {:induction false} TiledBounds(bs: seq<Block>, lo: nat, hi: nat, i: nat)
    requires Tiled(bs, lo, hi) && i < |bs|
    ensures lo <= bs[i].pos && bs[i].End() <= hi
  {
    if i > 0 {
      TiledOrder(bs, lo, hi, 0, i);
    }
    if i < |bs| - 1 {
      TiledOrder(bs, lo, hi, i, |bs| - 1);
    }
  }

  // ---- Regions ----

  /** Every growth appends a region of whole pages; `regions` holds where they
      start. Block i is the last of its region. */
  predicate LastOfRegion(bs: seq<Block>, regions: set<nat>, i: nat)
    requires i < |bs|
  {
    i == |bs| - 1 || bs[i + 1].pos in regions
  }

  predicate InsideRegion(b: Block) {
    !b.free && b.len % 4 == 0
  }

  predicate PageBoundary(pos: nat) {
    pos % PAGE_ENTRIES == 0
  }

  predicate NotCut(bs: seq<Block>, regions: set<nat>, i: nat)
    requires i < |bs|
  {
    forall r :: r in regions ==> r <= bs[i].pos || bs[i].End() <= r
  }

  /** Regions start at page boundaries and are never cut in the middle of a
      block. Only the last block of a region can be free, and only its size can
      be other than a multiple of 16 bytes. */
  predicate Regioned(bs: seq<Block>, regions: set<nat>) {
    && (forall r :: r in regions ==> PageBoundary(r))
    && (|bs| > 0 ==> bs[0].pos in regions)
    && (forall i :: 0 <= i < |bs| ==> NotCut(bs, regions, i))
    && (forall i :: 0 <= i < |bs| && !LastOfRegion(bs, regions, i) ==> InsideRegion(bs[i]))
  }

  /** How many blocks of its region come before block i. */
  function Rank(bs: seq<Block>, regions: set<nat>, i: nat): (k: nat)
    requires i < |bs|
  {
    if i == 0 || bs[i].pos in regions then 0 else 1 + Rank(bs, regions, i - 1)
  }

  /** Where the k-th block of a region starts, modulo 4 words. */
  function RankOffset(k: nat): (m: nat) {
    3 * k % 4
  }

  lemma {:induction false} RankPosition(bs: seq<Block>, regions: set<nat>, lo: nat, hi: nat, i: nat)
    requires Tiled(bs, lo, hi) && Regioned(bs, regions) && i < |bs|
    ensures bs[i].pos % 4 == RankOffset(Rank(bs, regions, i))
  {
    hide RankOffset;
    hide PageBoundary;
    hide InsideRegion;
    if i == 0 || bs[i].pos in regions {
      assert PageBoundary(bs[i].pos);
      BoundaryOffset(bs[i].pos);
    } else {
      RankPosition(bs, regions, lo, hi, i - 1);
      assert Adjacent(bs, i - 1);
      assert !LastOfRegion(bs, regions, i - 1);
      StepOffset(bs[i - 1], Rank(bs, regions, i - 1));
    }
  }

  lemma BoundaryOffset(pos: nat)
    requires PageBoundary(pos)
    ensures pos % 4 == RankOffset(0)
  {
    var q := pos / PAGE_ENTRIES;
    assert pos == 4 * (256 * q) + 0;
    FourModulo(256 * q, 0, pos);
  }

  lemma StepOffset(b: Block, k: nat)
    requires b.pos % 4 == RankOffset(k) && InsideRegion(b)
    ensures b.End() % 4 == RankOffset(k + 1)
  {
    var m, q, n := b.pos / 4, 3 * k / 4, b.len / 4;
    assert b.pos == 4 * m + (3 * k - 4 * q) && b.len == 4 * n;
    FourModulo(m - q + n, 3 * (k + 1), b.End());
  }

  lemma FourModulo(z: int, x: int, y: int)
    requires y == 4 * z + x
    ensures y % 4 == x % 4
  {
  }

  /** Address p belongs to the k-th block of a region (from 0): it lies at
      12 * (k + 1) modulo 16, so it is 16-aligned for every fourth block and
      8-aligned for every second one. */
  predicate ByRank(p: int, k: nat) {
    && p % 4 == 0
    && p % 16 == 12 * (k + 1) % 16
    && (p % 16 == 0 <==> k % 4 == 3)
    && (p % 8 == 0 <==> k % 2 == 1)
  }

  lemma PayloadByRank(bs: seq<Block>, regions: set<nat>, lo: nat, hi: nat, i: nat)
    requires Tiled(bs, lo, hi) && Regioned(bs, regions) && i < |bs|
    ensures ByRank(bs[i].Payload(), Rank(bs, regions, i))
  {
    hide ByRank;
    hide RankOffset;
    RankPosition(bs, regions, lo, hi, i);
    OffsetToAddress(bs[i].pos, Rank(bs, regions, i));
  }

  lemma OffsetToAddress(pos: nat, k: nat)
    requires pos % 4 == RankOffset(k)
    ensures ByRank(WordAddress(pos + HEADER_WORDS), k)
  {
    hide RankOffset;
    var m, r, o := k / 4, k % 4, pos % 4;
    RankShift(m, r, k);
    var p, x := WordAddress(pos + HEADER_WORDS), 4 * o + 12;
    assert p == 16 * (HEAP_START / 16 + pos / 4) + x;
    SixteenShift(HEAP_START / 16 + pos / 4, x, p);
    RankCases(r);
  }

  /** Counting four blocks on changes nothing. */
  lemma RankShift(m: nat, r: nat, k: nat)
    requires k == 4 * m + r
    ensures RankOffset(k) == RankOffset(r)
    ensures 12 * (k + 1) % 16 == 12 * (r + 1) % 16
    ensures k % 2 == r % 2
  {
    assert 3 * k == 4 * (3 * m) + 3 * r;
    FourModulo(3 * m, 3 * r, 3 * k);
    assert 12 * (k + 1) == 16 * (3 * m) + 12 * (r + 1);
    SixteenModulo(3 * m, 12 * (r + 1), 12 * (k + 1));
    assert k == 2 * (2 * m) + r;
    TwoModulo(2 * m, r, k);
  }

  lemma SixteenShift(z: int, x: int, y: int)
    requires y == 16 * z + x
    ensures y % 16 == x % 16 && y % 8 == x % 8 && y % 4 == x % 4
  {
    SixteenModulo(z, x, y);
    assert y == 8 * (2 * z) + x;
    EightModulo(2 * z, x, y);
    assert y == 4 * (4 * z) + x;
    FourModulo(4 * z, x, y);
  }

  lemma TwoModulo(z: int, x: int, y: int)
    requires y == 2 * z + x
    ensures y % 2 == x % 2
  {
  }

  lemma SixteenModulo(z: int, x: int, y: int)
    requires y == 16 * z + x
    ensures y % 16 == x % 16
  {
  }

  lemma EightModulo(z: int, x: int, y: int)
    requires y == 8 * z + x
    ensures y % 8 == x % 8
  {
  }

  lemma RankCases(r: nat)
    requires r < 4
    ensures ByRank(4 * RankOffset(r) + 12, r)
  {
    assert r == 0 || r == 1 || r == 2 || r == 3;
  }

  /** Taking a block keeps the regions as they are. */
  lemma TakeRegioned(bs: seq<Block>, regions: set<nat>, lo: nat, hi: nat, i: nat, size: nat)
    requires Tiled(bs, lo, hi) && Regioned(bs, regions) && i < |bs| && bs[i].free
    requires size % 4 == 0 && size / 4 % 4 == 0
    ensures Regioned(Take(bs, i, size), regions)
  {
    hide PageBoundary;
    hide NotCut;
    hide LastOfRegion;
    hide InsideRegion;
    var r := Take(bs, i, size);
    assert r[0].pos == bs[0].pos;
    forall j | 0 <= j < |r|
      ensures NotCut(r, regions, j)
      ensures !LastOfRegion(r, regions, j) ==> InsideRegion(r[j])
    {
      TakenBlockRegioned(bs, regions, i, size, j);
    }
  }

  lemma TakenBlockRegioned(bs: seq<Block>, regions: set<nat>, i: nat, size: nat, j: nat)
    requires Regioned(bs, regions) && i < |bs| && bs[i].free
    requires size % 4 == 0 && size / 4 % 4 == 0 && j < |Take(bs, i, size)|
    ensures NotCut(Take(bs, i, size), regions, j)
    ensures !LastOfRegion(Take(bs, i, size), regions, j) ==> InsideRegion(Take(bs, i, size)[j])
  {
    hide PageBoundary;
    hide Take;
    var r, split := Take(bs, i, size), Splits(bs[i], size);
    hide Splits;
    TakenElement(bs, i, size, j);
    if j + 1 < |r| {
      TakenElement(bs, i, size, j + 1);
    }
    var from := if j <= i || !split then j else j - 1;
    assert NotCut(bs, regions, from);
    assert LastOfRegion(bs, regions, i);
    if j < i {
      assert LastOfRegion(r, regions, j) <==> LastOfRegion(bs, regions, j);
    } else if !split || j > i {
      assert LastOfRegion(r, regions, j) <==> LastOfRegion(bs, regions, from);
    }
  }

  /** The list after an allocation, block by block. */
  lemma TakenElement(bs: seq<Block>, i: nat, size: nat, j: nat)
    requires i < |bs| && size % 4 == 0 && j < |Take(bs, i, size)|
    ensures |Take(bs, i, size)| == |bs| + if Splits(bs[i], size) then 1 else 0
    ensures Take(bs, i, size)[j] ==
            if j < i then bs[j]
            else if j == i then Block(bs[i].pos, if Splits(bs[i], size) then size / 4 else bs[i].len, false)
            else if !Splits(bs[i], size) then bs[j]
            else if j == i + 1 then Block(bs[i].pos + HEADER_WORDS + size / 4, bs[i].len - size / 4 - HEADER_WORDS, true)
            else bs[j - 1]
    ensures Splits(bs[i], size) ==> size / 4 + HEADER_WORDS <= bs[i].len
  {
  }

  /** A growth adds a region of one free block. */
  lemma AppendRegioned(bs: seq<Block>, regions: set<nat>, lo: nat, b: Block)
    requires Tiled(bs, 0, lo) && Regioned(bs, regions) && PageBoundary(lo) && b.pos == lo
    requires forall r :: r in regions ==> r <= lo
    ensures Regioned(bs + [b], regions + {lo})
  {
    hide PageBoundary;
    var bs' := bs + [b];
    forall j | 0 <= j < |bs'|
      ensures NotCut(bs', regions + {lo}, j)
      ensures !LastOfRegion(bs', regions + {lo}, j) ==> InsideRegion(bs'[j])
    {
      if j < |bs| {
        TiledBounds(bs, 0, lo, j);
        assert NotCut(bs, regions, j);
        assert !LastOfRegion(bs', regions + {lo}, j) ==> !LastOfRegion(bs, regions, j);
      }
    }
  }

  // ---- Headers in memory ----

  function NextAddress(bs: seq<Block>, i: nat): (a: int)
    requires i < |bs|
  {
    if i + 1 < |bs| then bs[i + 1].Address() else 0
  }

  predicate Header(flat: seq<Word>, b: Block, next: int) {
    && b.End() <= |flat|
    && flat[b.pos] == b.Bytes()
    && flat[b.pos + 1] == (if b.free then 1 else 0)
    && flat[b.pos + 2] == next
  }

  /** Following `next` from `head` visits exactly these blocks, in this order. */
  predicate Linked(flat: seq<Word>, bs: seq<Block>, head: int) {
    && head == (if |bs| == 0 then 0 else bs[0].Address())
    && forall i :: 0 <= i < |bs| ==> HeaderAt(flat, bs, i)
  }

  predicate HeaderAt(flat: seq<Word>, bs: seq<Block>, i: nat)
    requires i < |bs|
  {
    Header(flat, bs[i], NextAddress(bs, i))
  }

  /** A header keeps saying the same as long as its three words do. */
  lemma HeaderFrame(flat: seq<Word>, flat': seq<Word>, b: Block, next: int)
    requires Header(flat, b, next) && b.End() <= |flat'|
    requires flat'[b.pos] == flat[b.pos] && flat'[b.pos + 1] == flat[b.pos + 1] && flat'[b.pos + 2] == flat[b.pos + 2]
    ensures Header(flat', b, next)
  {
  }

  // ---- Accounting ----

  function UsedBytes(bs: seq<Block>): (n: nat) {
    if |bs| == 0 then 0 else (if bs[0].free then 0 else bs[0].Bytes()) + UsedBytes(bs[1..])
  }

  function FreeBytes(bs: seq<Block>): (n: nat) {
    if |bs| == 0 then 0 else (if bs[0].free then bs[0].Bytes() else 0) + FreeBytes(bs[1..])
  }

  /** Every committed byte is used, free or header. */
  lemma {:induction false} BytesAccounted(bs: seq<Block>, lo: nat, hi: nat)
    requires Tiled(bs, lo, hi)
    ensures lo <= hi && UsedBytes(bs) + FreeBytes(bs) + HEADER_BYTES * |bs| == 4 * (hi - lo)
  {
    if |bs| > 0 {
      var rest := bs[1..];
      if |rest| > 0 {
        assert Adjacent(bs, 0);
      }
      forall i | 0 <= i < |rest| - 1
        ensures Adjacent(rest, i)
      {
        assert Adjacent(bs, i + 1);
      }
      BytesAccounted(rest, bs[0].End(), hi);
    }
  }

  // ---- First fit ----

  predicate Fits(b: Block, size: int) {
    b.free && b.Bytes() >= size
  }

  /** The index of the first block that fits, or |bs|. */
  function FirstFit(bs: seq<Block>, size: int): (i: nat)
    ensures i <= |bs|
    ensures i < |bs| ==> Fits(bs[i], size)
    ensures forall j :: 0 <= j < i ==> !Fits(bs[j], size)
  {
    if |bs| == 0 then 0
    else if Fits(bs[0], size) then 0
    else
      var k := FirstFit(bs[1..], size);
      assert forall j :: 1 <= j < k + 1 ==> bs[j] == bs[1..][j - 1];
      1 + k
  }

  lemma FirstFitUnique(bs: seq<Block>, size: int, i: nat)
    requires i <= |bs| && (i < |bs| ==> Fits(bs[i], size))
    requires forall j :: 0 <= j < i ==> !Fits(bs[j], size)
    ensures FirstFit(bs, size) == i
  {
  }

  // ---- Splitting and taking ----

  /** Whether enough is left over for a block of its own. */
  predicate Splits(b: Block, size: int) {
    b.Bytes() > size + HEADER_BYTES + MIN_SPLIT
  }

  function Halves(b: Block, size: nat): (r: seq<Block>)
    requires size % 4 == 0 && Splits(b, size)
  {
    [b.(len := size / 4),
     Block(b.pos + HEADER_WORDS + size / 4, b.len - size / 4 - HEADER_WORDS, true)]
  }

  function Split(bs: seq<Block>, i: nat, size: nat): (r: seq<Block>)
    requires i < |bs| && size % 4 == 0
  {
    if Splits(bs[i], size) then bs[..i] + Halves(bs[i], size) + bs[i + 1..] else bs
  }

  function MarkUsed(bs: seq<Block>, i: nat): (r: seq<Block>)
    requires i < |bs|
  {
    bs[i := bs[i].(free := false)]
  }

  function Take(bs: seq<Block>, i: nat, size: nat): (r: seq<Block>)
    requires i < |bs| && size % 4 == 0
  {
    MarkUsed(Split(bs, i, size), i)
  }

  lemma SplitTiles(bs: seq<Block>, lo: nat, hi: nat, i: nat, size: nat)
    requires Tiled(bs, lo, hi) && i < |bs| && size % 4 == 0
    ensures Tiled(Split(bs, i, size), lo, hi)
    ensures |Split(bs, i, size)| > i
  {
    if Splits(bs[i], size) {
      var r := Split(bs, i, size);
      var h := Halves(bs[i], size);
      assert r[i] == h[0] && r[i + 1] == h[1] && h[1].End() == bs[i].End();
      forall k | 0 <= k < |r| - 1
        ensures Adjacent(r, k)
      {
        if k < i {
          assert Adjacent(bs, k);
        } else if k > i {
          assert r[k + 1] == bs[k];
          assert Adjacent(bs, k - 1);
        }
      }
    }
  }

  lemma SplitKeepsUsed(bs: seq<Block>, i: nat, size: nat)
    requires i < |bs| && size % 4 == 0 && bs[i].free
    ensures var r := Split(bs, i, size);
            && i < |r| && r[i].free && r[i].pos == bs[i].pos
            && forall b :: b in bs && !b.free ==> b in r
  {
    var r := Split(bs, i, size);
    forall b | b in bs && !b.free
      ensures b in r
    {
      var k :| 0 <= k < |bs| && bs[k] == b;
      assert r[if k < i || !Splits(bs[i], size) then k else k + 1] == b;
    }
  }

  lemma MarkKeepsUsed(bs: seq<Block>, i: nat)
    requires i < |bs| && bs[i].free
    ensures forall b :: b in bs && !b.free ==> b in MarkUsed(bs, i)
  {
    forall b | b in bs && !b.free
      ensures b in MarkUsed(bs, i)
    {
      var k :| 0 <= k < |bs| && bs[k] == b;
      assert MarkUsed(bs, i)[k] == b;
    }
  }

  lemma MarkTiles(bs: seq<Block>, lo: nat, hi: nat, i: nat)
    requires Tiled(bs, lo, hi) && i < |bs|
    ensures Tiled(MarkUsed(bs, i), lo, hi)
  {
    var r := MarkUsed(bs, i);
    forall k | 0 <= k < |r| - 1
      ensures Adjacent(r, k)
    {
      assert Adjacent(bs, k);
    }
  }

  /** What an allocation does to the list: the chosen block becomes a used one
      at the same place, big enough and at most 28 bytes too big, and every
      block that was in use stays exactly as it was. */
  lemma TakeMeaning(bs: seq<Block>, i: nat, size: nat)
    requires i < |bs| && size % 4 == 0 && Fits(bs[i], size)
    ensures var r := Take(bs, i, size);
            && i < |r| && !r[i].free && r[i].pos == bs[i].pos
            && size <= r[i].Bytes() <= size + HEADER_BYTES + MIN_SPLIT
            && (forall b :: b in bs && !b.free ==> b in r)
            && (forall b :: b in r && !b.free ==> b in bs || b == r[i])
  {
    SplitKeepsUsed(bs, i, size);
    MarkKeepsUsed(Split(bs, i, size), i);
    var s, r := Split(bs, i, size), Take(bs, i, size);
    forall b | b in r && !b.free
      ensures b in bs || b == r[i]
    {
      var k :| 0 <= k < |r| && r[k] == b;
      if k != i {
        assert s[k] == b;
        if Splits(bs[i], size) && k > i {
          assert k > i + 1;
          assert s[k] == bs[k - 1];
        } else {
          assert s[k] == bs[k];
        }
      }
    }
  }

  /** Exactly when an allocation splits, and into what: up to 28 bytes are left
      with the block; more become a free block of their own behind it. */
  lemma TakeExactly(bs: seq<Block>, i: nat, size: nat)
    requires i < |bs| && size % 4 == 0 && bs[i].free && bs[i].Bytes() >= size
    ensures bs[i].Bytes() <= size + 28 ==> Take(bs, i, size) == bs[i := Block(bs[i].pos, bs[i].len, false)]
    ensures bs[i].Bytes() > size + 28 ==>
              var used, rest := Block(bs[i].pos, size / 4, false),
                                Block(bs[i].pos + 3 + size / 4, bs[i].len - 3 - size / 4, true);
              && Take(bs, i, size) == bs[..i] + [used, rest] + bs[i + 1..]
              && used.Bytes() == size && rest.Bytes() == bs[i].Bytes() - size - 12 > 16
  {
    if bs[i].Bytes() > size + 28 {
      assert (bs[..i] + Halves(bs[i], size) + bs[i + 1..])[i := Block(bs[i].pos, size / 4, false)] ==
             bs[..i] + [Block(bs[i].pos, size / 4, false), Halves(bs[i], size)[1]] + bs[i + 1..];
    }
  }

  lemma {:induction false} BytesOfConcat(a: seq<Block>, b: seq<Block>)
    ensures UsedBytes(a + b) == UsedBytes(a) + UsedBytes(b)
    ensures FreeBytes(a + b) == FreeBytes(a) + FreeBytes(b)
  {
    if |a| == 0 {
      assert a + b == b;
    } else {
      assert (a + b)[1..] == a[1..] + b;
      BytesOfConcat(a[1..], b);
    }
  }

  lemma BytesOfOne(b: Block)
    ensures UsedBytes([b]) == if b.free then 0 else 4 * b.len
    ensures FreeBytes([b]) == if b.free then 4 * b.len else 0
  {
  }

  lemma BytesAround(bs: seq<Block>, i: nat)
    requires i < |bs|
    ensures UsedBytes(bs) == UsedBytes(bs[..i]) + UsedBytes([bs[i]]) + UsedBytes(bs[i + 1..])
    ensures FreeBytes(bs) == FreeBytes(bs[..i]) + FreeBytes([bs[i]]) + FreeBytes(bs[i + 1..])
  {
    assert bs == bs[..i] + [bs[i]] + bs[i + 1..];
    BytesOfConcat(bs[..i] + [bs[i]], bs[i + 1..]);
    BytesOfConcat(bs[..i], [bs[i]]);
  }

  /** The counters after an allocation: what the block holds has moved from free
      to used, and a split costs 12 free bytes for the new header. */
  lemma TakeAccounts(bs: seq<Block>, i: nat, size: nat)
    requires i < |bs| && size % 4 == 0 && bs[i].free && bs[i].Bytes() >= size
    ensures var taken := if bs[i].Bytes() <= size + 28 then bs[i].Bytes() else size;
            var header := if bs[i].Bytes() <= size + 28 then 0 else 12;
            && UsedBytes(Take(bs, i, size)) == UsedBytes(bs) + taken
            && FreeBytes(Take(bs, i, size)) == FreeBytes(bs) - taken - header
  {
    hide Take;
    hide UsedBytes;
    hide FreeBytes;
    TakeExactly(bs, i, size);
    BytesAround(bs, i);
    BytesOfOne(bs[i]);
    var r, front, back := Take(bs, i, size), bs[..i], bs[i + 1..];
    if bs[i].Bytes() <= size + 28 {
      BytesAround(r, i);
      BytesOfOne(r[i]);
      assert r[..i] == front && r[i + 1..] == back;
    } else {
      var used, rest := r[i], r[i + 1];
      assert r == front + [used] + ([rest] + back);
      BytesOfConcat(front + [used], [rest] + back);
      BytesOfConcat(front, [used]);
      BytesOfConcat([rest], back);
      BytesOfOne(used);
      BytesOfOne(rest);
    }
  }

  /** And after a growth: one more region, all of it free but its header. */
  lemma AppendAccounts(bs: seq<Block>, b: Block)
    requires b.free
    ensures UsedBytes(bs + [b]) == UsedBytes(bs) && FreeBytes(bs + [b]) == FreeBytes(bs) + 4 * b.len
  {
    BytesOfConcat(bs, [b]);
    BytesOfOne(b);
  }
}
