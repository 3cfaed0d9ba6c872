/** The 32-bit machine the kernel runs on: word-sized values, page constants and
    the unsigned arithmetic of C on them. Bit masks of the source are written as
    arithmetic here; module WordBits proves the two forms equal. */
module Machine {
  const TWO_32: int := 0x1_0000_0000
  const TWO_64: int := 0x1_0000_0000_0000_0000
  const PAGE_SIZE: int := 4096
  const PAGE_ENTRIES: int := 1024
  const TOTAL_FRAMES: int := 0x10_0000
  const KERNEL_VIRT_BASE: int := 0xC000_0000
  const DEFAULT_ALIGNMENT: int := 16

  type Word = x: int | 0 <= x < 0x1_0000_0000
  type DoubleWord = x: int | 0 <= x < 0x1_0000_0000_0000_0000

  datatype Option<+T> = None | Some(value: T)

  /** Unsigned 32-bit addition, which wraps. */
  function Add32(x: Word, y: Word): (r: Word)
    ensures r == (x + y) % 0x1_0000_0000
  {
    if x + y < 0x1_0000_0000 then x + y else x + y - 0x1_0000_0000
  }

  /** PHYS_TO_VIRT: where the kernel expects to find physical memory. */
  function PhysToVirt(p: Word): (v: Word) {
    Add32(p, KERNEL_VIRT_BASE)
  }

  /** VIRT_TO_PHYS undoes it. */
  function VirtToPhys(v: Word): (p: Word)
    ensures PhysToVirt(p) == v
  {
    Add32(v, TWO_32 - KERNEL_VIRT_BASE)
  }

  function AlignDown(x: int, alignment: int): (r: int)
    requires 0 < alignment
  {
    x - x % alignment
  }

  /** `(x + mask) & ~mask`, with the addition wrapping at 32 bits. */
  function AlignUp32(x: Word, alignment: int): (r: int)
    requires 0 < alignment <= 0x1_0000_0000
  {
    AlignDown(Add32(x, alignment - 1), alignment)
  }

  /** 2 to the power k. */
  function Pow2(k: nat): (r: int)
    ensures 1 <= r
  {
    if k == 0 then 1 else 2 * Pow2(k - 1)
  }

  ghost predicate PowerOfTwo(x: int) {
    exists k: nat :: k < 32 && x == Pow2(k)
  }

  lemma AlignDownMultiple(x: int, alignment: int)
    requires 0 < alignment
    ensures AlignDown(x, alignment) % alignment == 0
    ensures x - alignment < AlignDown(x, alignment) <= x
  {
    var q := x / alignment;
    assert x == alignment * q + x % alignment;
    MultipleMod(q, alignment);
  }

  lemma MultipleMod(q: int, m: int)
    requires 0 < m
    ensures (m * q) % m == 0
  {
    NoRemainder(m, q, (m * q) / m, (m * q) % m);
  }

  lemma NoRemainder(m: int, q: int, d: int, r: int)
    requires 0 <= r < m && m * q == m * d + r
    ensures r == 0
  {
    if d < q {
      MulMonotone(m, d + 1, q);
    } else if q < d {
      MulMonotone(m, q + 1, d);
    }
  }

  lemma MulMonotone(m: int, a: int, b: int)
    requires 0 < m && a <= b
    ensures m * a <= m * b
  {
  }

  /** Rounding up either wraps below the value or lands on the next multiple. */
  lemma AlignUpBounds(x: Word, alignment: int)
    requires 0 < alignment <= 0x1_0000_0000
    ensures AlignUp32(x, alignment) % alignment == 0
    ensures x + alignment <= 0x1_0000_0000 ==> x <= AlignUp32(x, alignment) < x + alignment
    ensures x + alignment > 0x1_0000_0000 ==> AlignUp32(x, alignment) < x
  {
    AlignDownMultiple(Add32(x, alignment - 1), alignment);
  }

  function Min(a: int, b: int): int {
    if a <= b then a else b
  }

  function Max(a: int, b: int): int {
    if a >= b then a else b
  }

  lemma RoundUpPage(x: Word)
    ensures AlignUp32(x, 4096) / 4096 == if x <= 0xFFFF_F000 then (x + 4095) / 4096 else 0
    ensures AlignUp32(x, 4096) % 4096 == 0
  {
  }

  /** Page numbers lo, lo + 1, ..., hi - 1. */
  function Pages(lo: int, hi: int): (r: set<int>)
    ensures forall p :: p in r <==> lo <= p < hi
    decreases hi - lo
  {
    if lo < hi then Pages(lo, hi - 1) + {hi - 1} else {}
  }

  lemma {:induction false} PagesSize(lo: int, hi: int)
    requires lo <= hi
    ensures |Pages(lo, hi)| == hi - lo
    decreases hi - lo
  {
    if lo < hi {
      PagesSize(lo, hi - 1);
      assert hi - 1 !in Pages(lo, hi - 1);
    }
  }

  lemma SubsetSize<T>(a: set<T>, b: set<T>)
    requires a <= b
    ensures |a| <= |b|
  {
    RemoveSize(b, a);
  }

  lemma RemoveSize<T>(a: set<T>, b: set<T>)
    requires b <= a
    ensures |a - b| + |b| == |a|
  {
    assert a == (a - b) + b;
  }
}
