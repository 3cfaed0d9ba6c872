/** Decimal text: printing 64-bit values, parsing 32-bit ones and byte sizes. */
module Decimal {
  import opened Machine
  import opened CStrings
  import opened Sequences

  function DigitChar(d: int): (c: char)
    requires 0 <= d < 10
  {
    ('0' as int + d) as char
  }

  predicate IsDigit(c: char) {
    '0' <= c <= '9'
  }

  function DigitOf(c: char): (d: int)
    requires IsDigit(c)
  {
    c as int - '0' as int
  }

  /** The decimal text of a number. */
  function Text(n: nat): (s: string)
    ensures |s| > 0
  {
    if n < 10 then [DigitChar(n)] else Text(n / 10) + [DigitChar(n % 10)]
  }

  predicate AllDigits(s: string) {
    forall i :: 0 <= i < |s| ==> IsDigit(s[i])
  }

  /** The number that a row of digits denotes. */
  function Value(s: string): (n: nat)
    requires AllDigits(s)
  {
    if |s| == 0 then 0 else 10 * Value(s[..|s| - 1]) + DigitOf(s[|s| - 1])
  }

  predicate Canonical(s: string) {
    |s| > 0 && AllDigits(s) && (|s| > 1 ==> s[0] != '0')
  }

  lemma {:induction false} TextIsCanonical(n: nat)
    ensures Canonical(Text(n)) && Value(Text(n)) == n
    ensures n > 0 ==> Text(n)[0] != '0'
  {
    if n >= 10 {
      TextIsCanonical(n / 10);
      assert Text(n)[..|Text(n)| - 1] == Text(n / 10);
    } else {
      assert Text(n)[..0] == "";
    }
  }

  lemma {:induction false} PositiveValue(s: string)
    requires AllDigits(s) && |s| > 0 && s[0] != '0'
    ensures Value(s) > 0
  {
    if |s| > 1 {
      PositiveValue(s[..|s| - 1]);
    }
  }

  lemma TextStep(v: nat, d: nat)
    requires v > 0 && d < 10
    ensures Text(10 * v + d) == Text(v) + [DigitChar(d)]
  {
    assert (10 * v + d) / 10 == v && (10 * v + d) % 10 == d;
  }

  /** One digit more is ten times the number plus the digit: this and the ten
      one-digit texts are all there is to printing a number. */
  lemma PrintedDigit(n: nat, d: nat)
    requires d < 10
    ensures Text(d) == ["0123456789"[d]]
    ensures n > 0 ==> Text(10 * n + d) == Text(n) + ["0123456789"[d]]
  {
    DigitLiteral(d);
    if n > 0 {
      TextStep(n, d);
    }
  }

  lemma DigitLiteral(d: nat)
    requires d < 10
    ensures DigitChar(d) == "0123456789"[d]
  {
    assert d == 0 || d == 1 || d == 2 || d == 3 || d == 4 || d == 5 || d == 6 || d == 7 || d == 8 || d == 9;
  }

  /** No other characters are digits. */
  lemma DigitsAre(c: char)
    ensures IsDigit(c) <==> c in "0123456789"
    ensures forall d :: 0 <= d < 10 ==> IsDigit("0123456789"[d]) && DigitOf("0123456789"[d]) == d
  {
    if IsDigit(c) {
      DigitLiteral(DigitOf(c));
    }
  }

  /** And to reading one. */
  lemma ReadDigit(s: string, d: nat)
    requires AllDigits(s) && d < 10
    ensures Value("") == 0
    ensures AllDigits(s + ["0123456789"[d]]) && Value(s + ["0123456789"[d]]) == 10 * Value(s) + d
  {
    DigitLiteral(d);
    var t := s + ["0123456789"[d]];
    assert t[..|s|] == s;
    LastDigit(s, "0123456789"[d]);
  }

  lemma LastDigit(front: string, last: char)
    requires AllDigits(front + [last])
    ensures IsDigit(last) && AllDigits(front)
    ensures Value(front + [last]) == 10 * Value(front) + DigitOf(last) && DigitChar(DigitOf(last)) == last
  {
    var s := front + [last];
    assert s[..|s| - 1] == front && s[|front|] == last;
    assert forall i :: 0 <= i < |front| ==> front[i] == s[i];
  }

  /** Canonical text is the only canonical text of its value. */
  lemma {:induction false} CanonicalUnique(s: string)
    requires Canonical(s)
    ensures Text(Value(s)) == s
  {
    hide Value;
    var front, last := s[..|s| - 1], s[|s| - 1];
    assert s == front + [last];
    LastDigit(front, last);
    if |s| == 1 {
      NoDigits(front);
    } else {
      PositiveValue(front);
      CanonicalUnique(front);
      hide Text;
      TextStep(Value(front), DigitOf(last));
    }
  }

  lemma NoDigits(s: string)
    requires |s| == 0
    ensures Value(s) == 0
  {
  }

  function Pow10(k: nat): (p: nat)
    ensures p > 0
  {
    if k == 0 then 1 else 10 * Pow10(k - 1)
  }

  lemma {:induction false} TextLength(n: nat, k: nat)
    requires k > 0 && n < Pow10(k)
    ensures |Text(n)| <= k
  {
    if n >= 10 {
      assert k > 1;
      TextLength(n / 10, k - 1);
    }
  }

  lemma Text64(n: DoubleWord)
    ensures |Text(n)| <= 20
  {
    assert Pow10(5) == 100000;
    assert Pow10(10) == 100000 * Pow10(5);
    assert Pow10(15) == 100000 * Pow10(10);
    assert Pow10(20) == 100000 * Pow10(15);
    TextLength(n, 20);
  }

  // ---- Printing ----

  /** The digits in reverse order, least significant first. */
  method Digits(buffer: array<char>, value: DoubleWord) returns (count: nat)
    requires buffer.Length == 21
    modifies buffer
    ensures count == |Text(value)| <= 20
    ensures buffer[..count] == Reversed(Text(value))
  {
    Text64(value);
    count := 0;
    if value == 0 {
      buffer[0] := DigitChar(0);
      assert Text(0) == [DigitChar(0)] == buffer[..1];
      return 1;
    }
    var rest: nat := value;
    ghost var text := Text(value);
    while rest > 0
      invariant rest > 0 ==> |text| == |Text(rest)| + count && text[..|text| - count] == Text(rest)
      invariant rest == 0 ==> count == |text|
      invariant count <= |text|
      invariant forall i :: 0 <= i < count ==> buffer[i] == text[|text| - 1 - i]
      decreases rest
    {
      ghost var shown := text[..|text| - count];
      assert shown[|shown| - 1] == text[|text| - 1 - count];
      buffer[count] := DigitChar(rest % 10);
      if rest >= 10 {
        assert shown[..|shown| - 1] == Text(rest / 10) == text[..|text| - (count + 1)];
      }
      rest := rest / 10;
      count := count + 1;
    }
    assert count == |text| && text == Text(value);
    assert forall i :: 0 <= i < count ==> buffer[..count][i] == Reversed(text)[i];
  }

  method ReverseInPlace(buffer: array<char>, count: nat)
    requires count <= buffer.Length
    modifies buffer
    ensures buffer[..count] == Reversed(old(buffer[..count]))
  {
    for j := 0 to count / 2
      invariant forall k :: 0 <= k < j ==> buffer[k] == old(buffer[count - 1 - k]) && buffer[count - 1 - k] == old(buffer[k])
      invariant forall k :: j <= k < count - j ==> buffer[k] == old(buffer[k])
    {
      var temp := buffer[j];
      buffer[j] := buffer[count - 1 - j];
      buffer[count - 1 - j] := temp;
    }
  }

  /** str_append: copy a string to position pos and terminate it there. */
  method Append(dest: array<char>, pos: nat, src: seq<char>, ghost t: string) returns (end: nat)
    requires Holds(src, t) && pos + |t| < dest.Length
    modifies dest
    ensures end == pos + |t|
    ensures dest[..end] == old(dest[..pos]) + t && dest[end] == NUL
    ensures dest[end + 1..] == old(dest[end + 1..])
  {
    end := pos;
    var i := 0;
    HoldsAt(src, t, 0);
    while src[i] != NUL
      invariant i <= |t| && end == pos + i && (src[i] == NUL <==> i == |t|)
      invariant forall k :: 0 <= k < pos ==> dest[k] == old(dest[k])
      invariant forall k :: 0 <= k < i ==> dest[pos + k] == t[k]
      invariant forall k :: end <= k < dest.Length ==> dest[k] == old(dest[k])
      decreases |t| - i
    {
      HoldsAt(src, t, i);
      dest[end] := src[i];
      end := end + 1;
      i := i + 1;
      HoldsAt(src, t, i);
    }
    dest[end] := NUL;
    assert forall k :: pos <= k < end ==> dest[k] == t[k - pos];
  }

  /** str_append_uint64: the 21-byte buffer always suffices. */
  method AppendUint64(dest: array<char>, pos: nat, value: DoubleWord) returns (end: nat)
    requires pos + |Text(value)| < dest.Length
    modifies dest
    ensures end == pos + |Text(value)|
    ensures dest[..end] == old(dest[..pos]) + Text(value) && dest[end] == NUL
    ensures dest[end + 1..] == old(dest[end + 1..])
  {
    hide Text;
    hide Reversed;
    var buffer := new char[21];
    var count := Digits(buffer, value);
    ReverseInPlace(buffer, count);
    DoubleReversal(Text(value));
    buffer[count] := NUL;
    TextIsCanonical(value);
    DigitsNotNul(Text(value));
    assert buffer[..][..count] == buffer[..count] == Text(value);
    end := Append(dest, pos, buffer[..], Text(value));
  }

  lemma DoubleReversal(s: string)
    ensures Reversed(Reversed(s)) == s
  {
  }

  lemma DigitsNotNul(s: string)
    requires AllDigits(s)
    ensures NUL !in s
  {
  }

  // ---- Parsing ----

  /** How many digits s starts with. */
  function DigitRun(s: string): (n: nat)
    ensures n <= |s| && AllDigits(s[..n]) && (n < |s| ==> !IsDigit(s[n]))
  {
    if |s| == 0 || !IsDigit(s[0]) then 0
    else
      var k := DigitRun(s[1..]);
      assert s[..k + 1] == [s[0]] + s[1..][..k];
      1 + k
  }

  lemma {:induction false} DigitRunIs(s: string, n: nat)
    requires n <= |s| && AllDigits(s[..n]) && (n < |s| ==> !IsDigit(s[n]))
    ensures DigitRun(s) == n
  {
    if n > 0 {
      assert IsDigit(s[..n][0]);
      assert s[1..][..n - 1] == s[..n][1..];
      DigitRunIs(s[1..], n - 1);
    }
  }

  lemma AppendDigit(s: string, n: nat)
    requires n < |s| && AllDigits(s[..n]) && IsDigit(s[n])
    ensures AllDigits(s[..n + 1]) && Value(s[..n + 1]) == 10 * Value(s[..n]) + DigitOf(s[n])
  {
    assert s[..n + 1] == s[..n] + [s[n]];
    assert s[..n + 1][..n] == s[..n];
  }

  /** parse_uint: the leading digits, in wrapping 32-bit arithmetic. */
  method ParseUint(memory: seq<char>, ghost t: string) returns (value: Word, next: nat, ok: bool)
    requires Holds(memory, t)
    ensures next == DigitRun(t) && ok == (next > 0)
    ensures value == Value(t[..next]) % TWO_32
  {
    value, next, ok := 0, 0, false;
    HoldsAt(memory, t, 0);
    while IsDigit(memory[next])
      invariant next <= |t| && AllDigits(t[..next]) && ok == (next > 0)
      invariant memory[next] == if next < |t| then t[next] else NUL
      invariant value == Value(t[..next]) % TWO_32
      decreases |t| - next
    {
      ok := true;
      AppendDigit(t, next);
      WrapStep(Value(t[..next]), DigitOf(t[next]));
      value := (value * 10 + DigitOf(memory[next])) % TWO_32;
      next := next + 1;
      HoldsAt(memory, t, next);
    }
    DigitRunIs(t, next);
  }

  lemma WrapStep(x: nat, d: nat)
    ensures (x % TWO_32 * 10 + d) % TWO_32 == (10 * x + d) % TWO_32
  {
    var q := x / TWO_32;
    assert 10 * x + d == TWO_32 * (10 * q) + (x % TWO_32 * 10 + d);
    AddMultiple(x % TWO_32 * 10 + d, 10 * q);
  }

  lemma {:induction false} AddMultiple(r: nat, k: nat)
    ensures (TWO_32 * k + r) % TWO_32 == r % TWO_32
  {
    if k > 0 {
      AddMultiple(r, k - 1);
    }
  }

  /** Parsing printed text followed by anything but a digit gives the number
      modulo 2^32, so exactly the number when it fits. */
  lemma PrintThenParse(n: nat, rest: string)
    requires |rest| > 0 ==> !IsDigit(rest[0])
    ensures var t := Text(n) + rest;
            DigitRun(t) == |Text(n)| > 0 && Value(t[..DigitRun(t)]) == n
  {
    TextIsCanonical(n);
    var t := Text(n) + rest;
    assert t[..|Text(n)|] == Text(n);
    DigitRunIs(t, |Text(n)|);
  }

  // ---- Byte sizes ----

  const KB: int := 1024
  const MB: int := 1024 * 1024
  const GB: int := 1024 * 1024 * 1024

  /** A size in some unit: the tenth is shown when the remainder reaches a tenth
      of the unit, itself rounded down. */
  function ScaledText(bytes: nat, unit: int, suffix: string): (s: string)
    requires unit > 0
  {
    Number(bytes / unit, ShowsTenth(bytes, unit), TenthDigit(bytes, unit)) + suffix
  }

  function Number(whole: nat, shown: bool, tenth: nat): (s: string) {
    Text(whole) + (if shown then "." + Text(tenth) else "")
  }

  predicate ShowsTenth(bytes: nat, unit: int)
    requires unit > 0
  {
    bytes % unit >= unit / 10
  }

  function TenthDigit(bytes: nat, unit: int): (d: nat)
    requires unit > 0
  {
    bytes % unit * 10 / unit
  }

  /** The largest unit that the size reaches decides. */
  function SizeText(bytes: nat): (s: string) {
    if bytes >= GB then ScaledText(bytes, GB, " GB")
    else if bytes >= MB then ScaledText(bytes, MB, " MB")
    else if bytes >= KB then ScaledText(bytes, KB, " KB")
    else Text(bytes) + " B"
  }

  /** The text shows exactly the tenths of the unit, rounded down: whole part
      and decimal digit are those of floor(10 * bytes / unit). The digit is left
      out only when it is 0, and a 0 is printed for exactly one remainder. */
  lemma ScaledTextMeaning(bytes: nat, unit: int)
    requires unit == KB || unit == MB || unit == GB
    ensures var tenths := 10 * bytes / unit;
            && bytes / unit == tenths / 10 && TenthDigit(bytes, unit) == tenths % 10
            && (!ShowsTenth(bytes, unit) ==> tenths % 10 == 0)
            && (ShowsTenth(bytes, unit) && tenths % 10 == 0 <==> bytes % unit == unit / 10)
  {
    if unit == KB {
      TenthsOfKilobytes(bytes);
    } else if unit == MB {
      TenthsOfMegabytes(bytes);
    } else {
      TenthsOfGigabytes(bytes);
    }
  }

  /** The text itself: digits of tenths of the largest unit reached, and its name. */
  lemma SizeTextMeaning(bytes: nat)
    ensures bytes < 0x400 ==> SizeText(bytes) == Text(bytes) + " B"
    ensures 0x400 <= bytes < 0x10_0000 ==>
              var tenths := 10 * bytes / 0x400;
              SizeText(bytes) ==
              Text(tenths / 10) + (if bytes % 0x400 >= 102 then "." + Text(tenths % 10) else "") + " KB"
    ensures 0x10_0000 <= bytes < 0x4000_0000 ==>
              var tenths := 10 * bytes / 0x10_0000;
              SizeText(bytes) ==
              Text(tenths / 10) + (if bytes % 0x10_0000 >= 104857 then "." + Text(tenths % 10) else "") + " MB"
    ensures 0x4000_0000 <= bytes ==>
              var tenths := 10 * bytes / 0x4000_0000;
              SizeText(bytes) ==
              Text(tenths / 10) + (if bytes % 0x4000_0000 >= 107374182 then "." + Text(tenths % 10) else "") + " GB"
  {
    ScaledTextMeaning(bytes, KB);
    ScaledTextMeaning(bytes, MB);
    ScaledTextMeaning(bytes, GB);
    hide Text;
    hide TenthDigit;
  }

  lemma TenthsOfKilobytes(bytes: nat)
    ensures 10 * bytes / KB == 10 * (bytes / KB) + bytes % KB * 10 / KB
    ensures bytes % KB * 10 / KB == 0 <==> bytes % KB <= KB / 10
  {
  }

  lemma TenthsOfMegabytes(bytes: nat)
    ensures 10 * bytes / MB == 10 * (bytes / MB) + bytes % MB * 10 / MB
    ensures bytes % MB * 10 / MB == 0 <==> bytes % MB <= MB / 10
  {
  }

  lemma TenthsOfGigabytes(bytes: nat)
    ensures 10 * bytes / GB == 10 * (bytes / GB) + bytes % GB * 10 / GB
    ensures bytes % GB * 10 / GB == 0 <==> bytes % GB <= GB / 10
  {
  }

  /** Append a text literal. */
  method AppendText(dest: array<char>, pos: nat, t: string) returns (end: nat)
    requires NUL !in t && pos + |t| < dest.Length
    modifies dest
    ensures end == pos + |t| && dest[..end] == old(dest[..pos]) + t && dest[end] == NUL
  {
    end := Append(dest, pos, t + [NUL], t);
  }

  /** Whole part, then a point and the tenth if it is shown. */
  method AppendNumber(out: array<char>, whole: DoubleWord, shown: bool, tenth: DoubleWord) returns (pos: nat)
    requires |Number(whole, shown, tenth)| < out.Length
    modifies out
    ensures pos < out.Length && out[..pos] == Number(whole, shown, tenth)
  {
    hide Text;
    pos := AppendUint64(out, 0, whole);
    assert out[..pos] == Text(whole);
    if shown {
      pos := AppendText(out, pos, ".");
      pos := AppendUint64(out, pos, tenth);
      assert out[..pos] == (Text(whole) + ".") + Text(tenth) == Text(whole) + ("." + Text(tenth));
    } else {
      assert out[..pos] == Text(whole) + "";
    }
  }

  /** One branch of format_bytes: the number, then the unit. */
  method AppendScaled(out: array<char>, bytes: DoubleWord, unit: int, suffix: string)
    requires unit == KB || unit == MB || unit == GB
    requires NUL !in suffix && |ScaledText(bytes, unit, suffix)| < out.Length
    modifies out
    ensures Holds(out[..], ScaledText(bytes, unit, suffix))
  {
    var whole, rem := bytes / unit, bytes % unit;
    var tenth := rem * 10 / unit;
    ghost var number := Number(whole, ShowsTenth(bytes, unit), TenthDigit(bytes, unit));
    hide Text, Number;
    ScaledTextNotNul(bytes, unit, suffix);
    var pos := AppendNumber(out, whole, rem >= unit / 10, tenth);
    assert out[..pos] == number;
    FinishText(out, pos, number, suffix);
  }

  method FinishText(out: array<char>, pos: nat, ghost number: string, suffix: string)
    requires pos < out.Length && out[..pos] == number
    requires NUL !in number + suffix && |number + suffix| < out.Length
    modifies out
    ensures Holds(out[..], number + suffix)
  {
    assert forall c :: c in suffix ==> c in number + suffix;
    var end := AppendText(out, pos, suffix);
    out[end] := NUL;
    assert out[..end] == number + suffix;
  }

  /** format_bytes */
  method FormatBytes(bytes: DoubleWord, out: array<char>)
    requires |SizeText(bytes)| < out.Length
    modifies out
    ensures Holds(out[..], SizeText(bytes))
  {
    if bytes < KB {
      TextIsCanonical(bytes);
      DigitsNotNul(Text(bytes));
      var pos := AppendUint64(out, 0, bytes);
      assert out[..pos] == Text(bytes);
      pos := AppendText(out, pos, " B");
      out[pos] := NUL;
      assert out[..pos] == Text(bytes) + " B";
    } else if bytes < MB {
      AppendScaled(out, bytes, KB, " KB");
    } else if bytes < GB {
      AppendScaled(out, bytes, MB, " MB");
    } else {
      AppendScaled(out, bytes, GB, " GB");
    }
  }

  lemma ScaledTextNotNul(bytes: nat, unit: int, suffix: string)
    requires unit > 0 && NUL !in suffix
    ensures NUL !in ScaledText(bytes, unit, suffix)
  {
    TextIsCanonical(bytes / unit);
    DigitsNotNul(Text(bytes / unit));
    TextIsCanonical(bytes % unit * 10 / unit);
    DigitsNotNul(Text(bytes % unit * 10 / unit));
  }
}
