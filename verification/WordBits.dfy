/** The masks and shifts of the C source, bit by bit, against the arithmetic
    the rest of the model is written in. A word is its bits, lowest first. */
module WordBits {
  import opened Machine

  type Bits = seq<bool>

  function Value(a: Bits): (r: nat) {
    if |a| == 0 then 0 else (if a[0] then 1 else 0) + 2 * Value(a[1..])
  }

  lemma ValueUnfold(a: Bits)
    requires |a| > 0
    ensures Value(a) == (if a[0] then 1 else 0) + 2 * Value(a[1..])
    ensures Value(a) % 2 == if a[0] then 1 else 0
  {
    Parity(if a[0] then 1 else 0, Value(a[1..]));
  }

  lemma Parity(bit: nat, x: nat)
    requires bit < 2
    ensures (bit + 2 * x) % 2 == bit
  {
  }

  function And(a: Bits, b: Bits): (r: Bits)
    requires |a| == |b|
  {
    seq(|a|, i requires 0 <= i < |a| => a[i] && b[i])
  }

  function Or(a: Bits, b: Bits): (r: Bits)
    requires |a| == |b|
  {
    seq(|a|, i requires 0 <= i < |a| => a[i] || b[i])
  }

  function Not(a: Bits): (r: Bits) {
    seq(|a|, i requires 0 <= i < |a| => !a[i])
  }

  /** 2^k - 1: ones in the low k positions. */
  function Mask(n: nat, k: nat): (r: Bits) {
    seq(n, i => i < k)
  }

  function Zeros(n: nat): (r: Bits) {
    seq(n, i => false)
  }

  function ShiftRight(a: Bits, k: nat): (r: Bits)
    requires k <= |a|
  {
    a[k..] + Zeros(k)
  }

  lemma {:induction false} ValueOfZeros(n: nat)
    ensures Value(Zeros(n)) == 0
  {
    if n > 0 {
      assert Zeros(n)[1..] == Zeros(n - 1);
      ValueOfZeros(n - 1);
    }
  }

  /** Positional notation: the low part plus 2^|low| times the high part. */
  lemma {:induction false} ValueOfConcat(low: Bits, high: Bits)
    ensures Value(low + high) == Value(low) + Pow2(|low|) * Value(high)
    ensures Value(low) < Pow2(|low|)
  {
    if |low| == 0 {
      assert low + high == high;
    } else {
      assert (low + high)[1..] == low[1..] + high;
      ValueOfConcat(low[1..], high);
      Regroup(if low[0] then 1 else 0, Value(low[1..]), Pow2(|low| - 1), Value(high));
    }
  }

  lemma Regroup(bit: int, low: int, p: int, high: int)
    ensures bit + 2 * (low + p * high) == (bit + 2 * low) + (2 * p) * high
  {
  }

  lemma ValueOfPadded(a: Bits, n: nat)
    ensures Value(a + Zeros(n)) == Value(a) < Pow2(|a|)
  {
    ValueOfConcat(a, Zeros(n));
    ValueOfZeros(n);
  }

  lemma ValueOfShifted(k: nat, high: Bits)
    ensures Value(Zeros(k) + high) == Pow2(k) * Value(high)
  {
    ValueOfConcat(Zeros(k), high);
    ValueOfZeros(k);
  }

  lemma SplitQuotient(a: Bits, k: nat)
    requires k <= |a|
    ensures Value(a) % Pow2(k) == Value(a[..k]) && Value(a) / Pow2(k) == Value(a[k..])
  {
    assert a == a[..k] + a[k..];
    ValueOfConcat(a[..k], a[k..]);
    QuotientUnique(Value(a), Pow2(k), Value(a[k..]), Value(a[..k]));
  }

  lemma QuotientUnique(x: nat, m: nat, d: nat, r: nat)
    requires 0 < m && r < m && x == m * d + r
    ensures x % m == r && x / m == d
  {
    var e := x / m;
    assert x == m * e + x % m;
    if e < d {
      MulMonotone(m, e + 1, d);
    } else if d < e {
      MulMonotone(m, d + 1, e);
    }
  }

  /** `x & (2^k - 1)` is the remainder. */
  lemma MaskIsMod(a: Bits, k: nat)
    requires k <= |a|
    ensures Value(And(a, Mask(|a|, k))) == Value(a) % Pow2(k)
  {
    assert And(a, Mask(|a|, k)) == a[..k] + Zeros(|a| - k);
    ValueOfPadded(a[..k], |a| - k);
    SplitQuotient(a, k);
  }

  /** `x & ~(2^k - 1)` rounds down to a multiple of 2^k. */
  lemma NotMaskIsAlignDown(a: Bits, k: nat)
    requires k <= |a|
    ensures Value(And(a, Not(Mask(|a|, k)))) == AlignDown(Value(a), Pow2(k))
  {
    assert And(a, Not(Mask(|a|, k))) == Zeros(k) + a[k..];
    ValueOfShifted(k, a[k..]);
    assert a == a[..k] + a[k..];
    ValueOfConcat(a[..k], a[k..]);
    SplitQuotient(a, k);
  }

  /** `x >> k` divides by 2^k. */
  lemma ShiftIsDiv(a: Bits, k: nat)
    requires k <= |a|
    ensures Value(ShiftRight(a, k)) == Value(a) / Pow2(k)
  {
    ValueOfPadded(a[k..], k);
    SplitQuotient(a, k);
  }

  /** `x | y` adds words that share no bit. */
  lemma {:induction false} OrIsAdd(a: Bits, b: Bits)
    requires |a| == |b| && forall i :: 0 <= i < |a| ==> !(a[i] && b[i])
    ensures Value(Or(a, b)) == Value(a) + Value(b)
  {
    if |a| > 0 {
      assert Or(a, b)[1..] == Or(a[1..], b[1..]);
      OrIsAdd(a[1..], b[1..]);
    }
  }

  lemma Powers()
    ensures Pow2(10) == PAGE_ENTRIES && Pow2(12) == PAGE_SIZE && Pow2(22) == 0x40_0000
  {
    assert Pow2(5) == 32;
    assert Pow2(10) == 1024;
    assert Pow2(12) == 4096;
    assert Pow2(17) == 0x2_0000;
  }

  /** The page and flag masks of paging.c on an address or an entry. */
  lemma PageMasks(a: Bits)
    requires |a| == 32
    ensures Value(And(a, Not(Mask(32, 12)))) == AlignDown(Value(a), PAGE_SIZE)
    ensures Value(And(a, Mask(32, 12))) == Value(a) % PAGE_SIZE
    ensures Value(And(a, Mask(32, 1))) == Value(a) % 2
  {
    Powers();
    NotMaskIsAlignDown(a, 12);
    MaskIsMod(a, 12);
    MaskIsMod(a, 1);
  }

  /** `v >> 22` and `(v >> 12) & 0x3FF`: the two table indices. */
  lemma TableIndices(a: Bits)
    requires |a| == 32
    ensures Value(ShiftRight(a, 22)) == Value(a) / PAGE_SIZE / PAGE_ENTRIES
    ensures Value(And(ShiftRight(a, 12), Mask(32, 10))) == Value(a) / PAGE_SIZE % PAGE_ENTRIES
  {
    Powers();
    ShiftIsDiv(a, 22);
    ShiftIsDiv(a, 12);
    MaskIsMod(ShiftRight(a, 12), 10);
  }

  /** `(p & ~0xFFF) | (flags & 0xFFF)`: the frame base plus the flag bits. */
  lemma EntryArithmetic(p: Bits, flags: Bits)
    requires |p| == |flags| == 32
    ensures Value(Or(And(p, Not(Mask(32, 12))), And(flags, Mask(32, 12)))) ==
            AlignDown(Value(p), PAGE_SIZE) + Value(flags) % PAGE_SIZE
  {
    PageMasks(p);
    PageMasks(flags);
    OrIsAdd(And(p, Not(Mask(32, 12))), And(flags, Mask(32, 12)));
  }

  /** `x | 1` sets the lowest bit. */
  lemma OrOne(a: Bits)
    requires |a| > 0
    ensures Value(Or(a, Mask(|a|, 1))) == if Value(a) % 2 == 1 then Value(a) else Value(a) + 1
  {
    var r := Or(a, Mask(|a|, 1));
    assert r[1..] == a[1..];
    ValueUnfold(r);
    ValueUnfold(a);
  }

  // ---- Words ----

  /** The n lowest bits of a number. */
  function BitsOf(x: nat, n: nat): (b: Bits)
    ensures |b| == n
  {
    if n == 0 then [] else [x % 2 == 1] + BitsOf(x / 2, n - 1)
  }

  lemma {:induction false} ValueOfBits(x: nat, n: nat)
    requires x < Pow2(n)
    ensures Value(BitsOf(x, n)) == x
  {
    if n > 0 {
      ValueOfBits(x / 2, n - 1);
      assert BitsOf(x, n)[1..] == BitsOf(x / 2, n - 1);
    }
  }

  lemma {:induction false} BitsOfValue(a: Bits)
    ensures BitsOf(Value(a), |a|) == a && Value(a) < Pow2(|a|)
  {
    if |a| > 0 {
      ValueUnfold(a);
      BitsOfValue(a[1..]);
    }
  }

  lemma WordRange()
    ensures Pow2(32) == TWO_32
  {
    Powers();
    assert Pow2(27) == 0x800_0000;
  }

  /** The bits of a word. */
  function Of(x: Word): (b: Bits)
    ensures |b| == 32 && Value(b) == x
  {
    WordRange();
    ValueOfBits(x, 32);
    BitsOf(x, 32)
  }

  function ToWord(a: Bits): (x: Word)
    requires |a| == 32
    ensures Of(x) == a
  {
    WordRange();
    BitsOfValue(a);
    Value(a)
  }

  /** `x & y` */
  function BitAnd(x: Word, y: Word): (r: Word) {
    ToWord(And(Of(x), Of(y)))
  }

  /** `x | y` */
  function BitOr(x: Word, y: Word): (r: Word) {
    ToWord(Or(Of(x), Of(y)))
  }

  /** `~x` */
  function BitNot(x: Word): (r: Word) {
    ToWord(Not(Of(x)))
  }

  /** `x >> k` */
  function BitShift(x: Word, k: nat): (r: Word)
    requires k <= 32
  {
    ToWord(ShiftRight(Of(x), k))
  }

  lemma MaskWord(k: nat)
    requires k < 32
    ensures 0 <= Pow2(k) - 1 < TWO_32 && Of(Pow2(k) - 1) == Mask(32, k)
  {
    var m := Mask(32, k);
    assert m == Mask(k, k) + Zeros(32 - k);
    ValueOfPadded(Mask(k, k), 32 - k);
    OnesValue(k);
    WordRange();
    BitsOfValue(m);
  }

  lemma {:induction false} OnesValue(k: nat)
    ensures Value(Mask(k, k)) == Pow2(k) - 1
  {
    if k > 0 {
      assert Mask(k, k)[1..] == Mask(k - 1, k - 1);
      OnesValue(k - 1);
    }
  }

  /** A word splits into the bits inside and outside a mask. */
  lemma {:induction false} AndSplit(a: Bits, m: Bits)
    requires |a| == |m|
    ensures Value(And(a, m)) + Value(And(a, Not(m))) == Value(a)
    ensures Value(And(a, m)) <= Value(m)
  {
    if |a| > 0 {
      assert And(a, m)[1..] == And(a[1..], m[1..]);
      assert And(a, Not(m))[1..] == And(a[1..], Not(m[1..]));
      AndSplit(a[1..], m[1..]);
    }
  }

  /** One bit of a number. */
  lemma BitMeaning(a: Bits, k: nat)
    requires k < |a|
    ensures a[k] <==> Value(a) / Pow2(k) % 2 == 1
  {
    SplitQuotient(a, k);
    ValueUnfold(a[k..]);
  }

  function OneBit(k: nat, bit: bool): (e: Bits)
    requires k < 32
    ensures |e| == 32
  {
    Zeros(k) + ([bit] + Zeros(31 - k))
  }

  lemma OneBitValue(k: nat, bit: bool)
    requires k < 32
    ensures Value(OneBit(k, bit)) == if bit then Pow2(k) else 0
  {
    ValueOfShifted(k, [bit] + Zeros(31 - k));
    ValueOfPadded([bit], 31 - k);
    assert Value([bit]) == if bit then 1 else 0;
  }

  /** `x & 2^k` is not 0 exactly when bit k is set. */
  lemma AndBit(x: Word, k: nat)
    requires k < 32 && Pow2(k) < TWO_32
    ensures BitAnd(x, Pow2(k)) != 0 <==> x / Pow2(k) % 2 == 1
  {
    hide Value;
    hide Pow2;
    hide BitsOf;
    var a, e := Of(x), OneBit(k, true);
    OneBitValue(k, true);
    OneBitValue(k, a[k]);
    BitsOfValue(e);
    assert Of(Pow2(k)) == e by {
      assert ToWord(e) == Pow2(k);
    }
    BitMeaning(a, k);
    assert And(a, e) == OneBit(k, a[k]);
  }
}
