/** The bit expressions of the C source, each equal to the arithmetic function
    that stands for it in the model. */
module BitForms {
  import opened Machine
  import opened WordBits
  import opened PageTables

  /** `(x + mask) & ~mask` for any mask, one below an alignment or not. */
  function MaskUp(x: Word, mask: Word): (r: Word) {
    BitAnd(Add32(x, mask), BitNot(mask))
  }

  /** For a power of two it rounds up. */
  lemma MaskUpIsAlignUp(x: Word, k: nat)
    requires k < 32
    ensures 0 <= Pow2(k) - 1 < TWO_32 && MaskUp(x, Pow2(k) - 1) == AlignUp32(x, Pow2(k))
  {
    hide Value;
    MaskWord(k);
    NotMaskIsAlignDown(Of(Add32(x, Pow2(k) - 1)), k);
  }

  /** For any other mask it stays between x and x + mask, or falls below x if and
      only if the addition wraps. */
  lemma MaskUpBounds(x: Word, mask: Word)
    ensures x + mask < TWO_32 ==> x <= MaskUp(x, mask) <= x + mask
    ensures x + mask >= TWO_32 ==> MaskUp(x, mask) < x
  {
    hide Value;
    AndSplit(Of(Add32(x, mask)), Of(mask));
  }

  /** And it keeps a word-aligned address word-aligned. */
  lemma MaskUpWord(x: Word, mask: Word)
    requires x % 4 == 0
    ensures MaskUp(x, mask) % 4 == 0
  {
    hide BitAnd;
    hide BitNot;
    SumModFour(x, mask);
    LowBits(Add32(x, mask), mask);
  }

  lemma SumModFour(x: Word, mask: Word)
    requires x % 4 == 0
    ensures Add32(x, mask) % 4 == mask % 4
  {
    var q, m, r := x / 4, mask / 4, mask % 4;
    var z := if x + mask < TWO_32 then q + m else q + m - 0x4000_0000;
    assert Add32(x, mask) == 4 * z + r;
    assert 0 <= r < 4;
  }

  /** What is left is at most the complement of the mask. */
  lemma MaskUpCeiling(x: Word, mask: Word)
    ensures MaskUp(x, mask) <= 0xFFFF_FFFF - mask
  {
    hide Value;
    var m, ones := Of(mask), Mask(32, 32);
    AndSplit(ones, m);
    OnesValue(32);
    WordRange();
    assert And(ones, m) == m && And(ones, Not(m)) == Not(m);
    AndSplit(Of(Add32(x, mask)), Not(m));
  }

  /** Bits that agree with the mask are cleared. */
  lemma LowBits(y: Word, mask: Word)
    requires y % 4 == mask % 4
    ensures BitAnd(y, BitNot(mask)) % 4 == 0
  {
    hide Value;
    var a, m := Of(y), Of(mask);
    var r := And(a, Not(m));
    LowPair(a);
    LowPair(m);
    LowPair(r);
  }

  /** The two lowest bits of a number are its remainder modulo 4. */
  lemma LowPair(a: Bits)
    requires |a| > 1
    ensures Value(a) % 4 == (if a[0] then 1 else 0) + 2 * (if a[1] then 1 else 0)
  {
    var low, z := (if a[0] then 1 else 0) + 2 * (if a[1] then 1 else 0), Value(a[1..][1..]);
    assert Value(a[1..]) == (if a[1] then 1 else 0) + 2 * z;
    assert Value(a) == 4 * z + low;
    FourTimes(z, low);
  }

  lemma FourTimes(z: int, low: int)
    requires 0 <= low < 4
    ensures (4 * z + low) % 4 == low
  {
  }

  /** The constants that appear as masks. */
  lemma Masks()
    ensures Of(0xFFF) == Mask(32, 12) && Of(0x3FF) == Mask(32, 10) && Of(1) == Mask(32, 1)
    ensures Of(0xFFFF_F000) == Not(Mask(32, 12))
  {
    hide Value;
    Powers();
    MaskWord(12);
    MaskWord(10);
    assert Pow2(1) == 2;
    MaskWord(1);
    var a := Mask(32, 12);
    AndSplit(Mask(32, 32), a);
    OnesValue(32);
    WordRange();
    assert And(Mask(32, 32), a) == a && And(Mask(32, 32), Not(a)) == Not(a);
    BitsOfValue(Not(a));
    assert ToWord(Not(a)) == 0xFFFF_F000;
  }

  /** `addr & 0xFFFFF000` */
  lemma PageBase(x: Word)
    ensures BitAnd(x, 0xFFFF_F000) == AlignDown(x, PAGE_SIZE) == FrameOf(x) * PAGE_SIZE
  {
    hide Value;
    Masks();
    PageMasks(Of(x));
  }

  /** `pde & PAGE_PRESENT` */
  lemma PresentBit(entry: Word)
    ensures Present(entry) <==> BitAnd(entry, PAGE_PRESENT) != 0
  {
    hide Value;
    Masks();
    PageMasks(Of(entry));
  }

  /** `phys | (flags & 0xFFF) | PAGE_PRESENT` for a page-aligned address. */
  lemma EntryBits(frame: int, flags: Word)
    requires 0 <= frame < TOTAL_FRAMES
    ensures Entry(frame, flags) == BitOr(BitOr(frame * PAGE_SIZE, BitAnd(flags, 0xFFF)), PAGE_PRESENT)
  {
    hide BitOr;
    hide BitAnd;
    assert AlignDown(frame * PAGE_SIZE, PAGE_SIZE) == frame * PAGE_SIZE;
    BaseAndFlags(frame * PAGE_SIZE, flags);
    OrOneWord(frame * PAGE_SIZE + flags % PAGE_SIZE);
    EntryParity(frame, flags);
  }

  lemma BaseAndFlags(p: Word, flags: Word)
    requires AlignDown(p, PAGE_SIZE) == p
    ensures BitOr(p, BitAnd(flags, 0xFFF)) == p + flags % PAGE_SIZE
  {
    hide Value;
    hide AlignDown;
    Masks();
    PageMasks(Of(p));
    assert Of(p) == And(Of(p), Not(Mask(32, 12))) by {
      assert ToWord(And(Of(p), Not(Mask(32, 12)))) == p;
    }
    EntryArithmetic(Of(p), Of(flags));
  }

  lemma OrOneWord(x: Word)
    ensures BitOr(x, 1) == if x % 2 == 1 then x else x + 1
  {
    hide Value;
    Masks();
    OrOne(Of(x));
  }

  lemma EntryParity(frame: int, flags: Word)
    requires 0 <= frame
    ensures (frame * PAGE_SIZE + flags % PAGE_SIZE) % 2 == flags % PAGE_SIZE % 2
  {
  }

  /** A new table is writable, and open to user mode exactly when the mapping asks
      for that bit; the flags are put together by `&` and `|`. */
  lemma TableFlagBits(flags: Word)
    ensures TableFlags(flags) == if BitAnd(flags, PAGE_USER) != 0 then BitOr(PAGE_WRITABLE, PAGE_USER) else PAGE_WRITABLE
  {
    hide Value;
    assert Pow2(1) == 2 && Pow2(2) == 4;
    AndBit(flags, 2);
    OneBitValue(1, true);
    OneBitValue(2, true);
    BitsOfValue(OneBit(1, true));
    BitsOfValue(OneBit(2, true));
    assert Of(PAGE_WRITABLE) == OneBit(1, true) by {
      assert ToWord(OneBit(1, true)) == PAGE_WRITABLE;
    }
    assert Of(PAGE_USER) == OneBit(2, true) by {
      assert ToWord(OneBit(2, true)) == PAGE_USER;
    }
    OrIsAdd(OneBit(1, true), OneBit(2, true));
  }

  /** `virt >> 22` and `(virt >> 12) & 0x3FF` */
  lemma IndexBits(v: Word)
    ensures BitShift(v, 22) == v / PAGE_SIZE / PAGE_ENTRIES
    ensures BitAnd(BitShift(v, 12), 0x3FF) == v / PAGE_SIZE % PAGE_ENTRIES
  {
    hide Value;
    Masks();
    TableIndices(Of(v));
  }

  /** `(pte & 0xFFFFF000) | (virt & 0xFFF)`: what a successful walk returns. */
  lemma TranslationBits(w: Memory, v: Word, entry: Word)
    requires Reachable(w) && PageFrame(w, v / PAGE_SIZE) == Some(FrameOf(entry))
    ensures Translate(w, v) == BitOr(BitAnd(entry, 0xFFFF_F000), BitAnd(v, 0xFFF))
  {
    hide Value;
    Masks();
    EntryArithmetic(Of(entry), Of(v));
  }

  /** `value & ~mask` in the allocators' rounding helpers. */
  lemma PageRounding(x: Word)
    ensures MaskUp(x, 0xFFF) == AlignUp32(x, PAGE_SIZE)
    ensures BitAnd(x, BitNot(0xFFF)) == AlignDown(x, PAGE_SIZE)
  {
    hide Value;
    Masks();
    Powers();
    MaskUpIsAlignUp(x, 12);
    PageMasks(Of(x));
  }
}
