/** The four bytes of a little-endian word. */
module WordBytes {
  import opened Machine

  /** Byte k of a word, lowest first. */
  function ByteOf(x: Word, k: nat): (b: int)
    ensures 0 <= b < 0x100
  {
    if k == 0 then x % 0x100 else ByteOf(x / 0x100, k - 1)
  }

  function FromBytes(b0: int, b1: int, b2: int, b3: int): (x: Word)
    requires 0 <= b0 < 0x100 && 0 <= b1 < 0x100 && 0 <= b2 < 0x100 && 0 <= b3 < 0x100
  {
    b0 + 0x100 * (b1 + 0x100 * (b2 + 0x100 * b3))
  }

  lemma ByteStep(b: int, rest: int, k: nat)
    requires 0 <= b < 0x100 && 0 <= rest && b + 0x100 * rest < TWO_32
    ensures ByteOf(b + 0x100 * rest, k) == if k == 0 then b else ByteOf(rest, k - 1)
  {
    assert (b + 0x100 * rest) / 0x100 == rest;
  }

  lemma WordOfBytes(b0: int, b1: int, b2: int, b3: int)
    requires 0 <= b0 < 0x100 && 0 <= b1 < 0x100 && 0 <= b2 < 0x100 && 0 <= b3 < 0x100
    ensures var x := FromBytes(b0, b1, b2, b3);
            ByteOf(x, 0) == b0 && ByteOf(x, 1) == b1 && ByteOf(x, 2) == b2 && ByteOf(x, 3) == b3
  {
    var x2 := b2 + 0x100 * b3;
    var x1 := b1 + 0x100 * x2;
    ByteStep(b0, x1, 0);
    ByteStep(b0, x1, 1);
    ByteStep(b0, x1, 2);
    ByteStep(b0, x1, 3);
    ByteStep(b1, x2, 0);
    ByteStep(b1, x2, 1);
    ByteStep(b1, x2, 2);
    ByteStep(b2, b3, 0);
    ByteStep(b2, b3, 1);
  }

  /** The word with byte k cleared. */
  function WithoutByte(x: Word, k: int): (y: Word)
    requires 0 <= k < 4
  {
    FromBytes(if k == 0 then 0 else ByteOf(x, 0), if k == 1 then 0 else ByteOf(x, 1),
              if k == 2 then 0 else ByteOf(x, 2), if k == 3 then 0 else ByteOf(x, 3))
  }

  lemma WithoutByteAt(x: Word, k: int, j: int)
    requires 0 <= k < 4 && 0 <= j < 4
    ensures ByteOf(WithoutByte(x, k), j) == if j == k then 0 else ByteOf(x, j)
  {
    WordOfBytes(if k == 0 then 0 else ByteOf(x, 0), if k == 1 then 0 else ByteOf(x, 1),
                if k == 2 then 0 else ByteOf(x, 2), if k == 3 then 0 else ByteOf(x, 3));
  }

  /** Byte n of an array of words. */
  function ByteAt(flat: seq<Word>, n: int): (b: int)
    requires 0 <= n < 4 * |flat|
  {
    ByteOf(flat[n / 4], n % 4)
  }

  predicate ZeroBytes(flat: seq<Word>, from: nat, count: nat)
    requires from + count <= 4 * |flat|
  {
    forall n :: from <= n < from + count ==> ByteAt(flat, n) == 0
  }

  /** Clearing one byte clears that byte and no other. */
  lemma ClearByte(flat: seq<Word>, n: nat)
    requires n < 4 * |flat|
    ensures var flat' := flat[n / 4 := WithoutByte(flat[n / 4], n % 4)];
            forall m :: 0 <= m < 4 * |flat| ==> ByteAt(flat', m) == if m == n then 0 else ByteAt(flat, m)
  {
    var flat' := flat[n / 4 := WithoutByte(flat[n / 4], n % 4)];
    forall m | 0 <= m < 4 * |flat|
      ensures ByteAt(flat', m) == if m == n then 0 else ByteAt(flat, m)
    {
      if m / 4 == n / 4 {
        WithoutByteAt(flat[n / 4], n % 4, m % 4);
      }
    }
  }

  lemma ByteSteps(x: Word, k: nat)
    requires k > 0
    ensures ByteOf(x, k) == ByteOf(x / 0x100, k - 1)
  {
  }

  /** The bytes of a word are its base-256 digits. */
  lemma BytesAreDigits(x: Word)
    ensures ByteOf(x, 0) == x % 256 && ByteOf(x, 1) == x / 256 % 256
    ensures ByteOf(x, 2) == x / 256 / 256 % 256 && ByteOf(x, 3) == x / 256 / 256 / 256 % 256
  {
    ByteSteps(x, 1);
    ByteSteps(x, 2);
    ByteSteps(x, 3);
    ByteSteps(x / 256, 1);
    ByteSteps(x / 256, 2);
    ByteSteps(x / 256 / 256, 1);
  }

  /** And the word is its four bytes. */
  lemma BytesOfWord(x: Word)
    ensures x == FromBytes(ByteOf(x, 0), ByteOf(x, 1), ByteOf(x, 2), ByteOf(x, 3))
  {
    BytesAreDigits(x);
    hide ByteOf;
    TopByte(x);
    FourDigits(x, x / 256, x / 256 / 256, x / 256 / 256 / 256);
  }

  lemma TopByte(x: Word)
    ensures x / 256 / 256 / 256 < 256
  {
  }

  lemma FourDigits(x: nat, y: nat, z: nat, u: nat)
    requires y == x / 256 && z == y / 256 && u == z / 256 && u < 256
    ensures x == x % 256 + 256 * (y % 256 + 256 * (z % 256 + 256 * (u % 256)))
  {
  }

  /** Exactly the bytes at .. at + count - 1 have been cleared. */
  predicate ClearedBytes(flat: seq<Word>, flat': seq<Word>, at: int, count: int) {
    && |flat'| == |flat|
    && forall n :: 0 <= n < 4 * |flat| ==> ByteAt(flat', n) == if at <= n < at + count then 0 else ByteAt(flat, n)
  }

  lemma NoneCleared(flat: seq<Word>, at: int)
    ensures ClearedBytes(flat, flat, at, 0)
  {
  }

  lemma OneMoreCleared(flat: seq<Word>, flat': seq<Word>, at: int, count: nat)
    requires ClearedBytes(flat, flat', at, count) && 0 <= at && at + count < 4 * |flat|
    ensures var n := at + count;
            ClearedBytes(flat, flat'[n / 4 := WithoutByte(flat'[n / 4], n % 4)], at, count + 1)
  {
    hide ByteAt;
    ClearByte(flat', at + count);
  }

  /** Cleared words are 0, and the others keep their values. */
  lemma ClearedWord(flat: seq<Word>, flat': seq<Word>, at: int, count: int, i: int)
    requires ClearedBytes(flat, flat', at, count) && 0 <= i < |flat|
    ensures at <= 4 * i && 4 * i + 4 <= at + count ==> flat'[i] == 0
    ensures 4 * i + 4 <= at || at + count <= 4 * i ==> flat'[i] == flat[i]
  {
    hide ByteOf;
    BytesOfWord(flat[i]);
    BytesOfWord(flat'[i]);
    assert ByteAt(flat', 4 * i) == ByteOf(flat'[i], 0) && ByteAt(flat, 4 * i) == ByteOf(flat[i], 0);
    assert ByteAt(flat', 4 * i + 1) == ByteOf(flat'[i], 1) && ByteAt(flat, 4 * i + 1) == ByteOf(flat[i], 1);
    assert ByteAt(flat', 4 * i + 2) == ByteOf(flat'[i], 2) && ByteAt(flat, 4 * i + 2) == ByteOf(flat[i], 2);
    assert ByteAt(flat', 4 * i + 3) == ByteOf(flat'[i], 3) && ByteAt(flat, 4 * i + 3) == ByteOf(flat[i], 3);
  }

  lemma ZeroWord(flat: seq<Word>, from: nat, count: nat, i: nat)
    requires from + count <= 4 * |flat| && ZeroBytes(flat, from, count)
    requires from <= 4 * i && 4 * i + 4 <= from + count
    ensures flat[i] == 0
  {
    hide ByteOf;
    BytesOfWord(flat[i]);
    assert ByteAt(flat, 4 * i) == ByteOf(flat[i], 0) && ByteAt(flat, 4 * i + 1) == ByteOf(flat[i], 1);
    assert ByteAt(flat, 4 * i + 2) == ByteOf(flat[i], 2) && ByteAt(flat, 4 * i + 3) == ByteOf(flat[i], 3);
  }

  lemma NoBytes(flat: seq<Word>, from: nat)
    requires from <= 4 * |flat|
    ensures ZeroBytes(flat, from, 0)
  {
  }

  lemma OneMoreZero(flat: seq<Word>, from: nat, n: nat)
    requires from + n < 4 * |flat| && ZeroBytes(flat, from, n)
    ensures ZeroBytes(flat[(from + n) / 4 := WithoutByte(flat[(from + n) / 4], (from + n) % 4)], from, n + 1)
  {
    ClearByte(flat, from + n);
  }
}
