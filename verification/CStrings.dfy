/** NUL-terminated strings in memory. */
module CStrings {
  const NUL: char := '\0'

  /** The memory holds string t: its characters, then the terminator. */
  predicate Holds(s: seq<char>, t: string) {
    && |t| < |s|
    && s[..|t|] == t
    && s[|t|] == NUL
    && NUL !in t
  }

  lemma HoldsAt(s: seq<char>, t: string, i: nat)
    requires Holds(s, t) && i <= |t|
    ensures s[i] == (if i < |t| then t[i] else NUL)
    ensures s[i] == NUL <==> i == |t|
  {
    if i < |t| {
      assert s[i] == s[..|t|][i];
      assert t[i] in t;
    }
  }

  /** Memory holds at most one string. */
  lemma HoldsUnique(s: seq<char>, t: string, u: string)
    requires Holds(s, t) && Holds(s, u)
    ensures t == u
  {
    assert forall i :: 0 <= i < |t| ==> s[i] == s[..|t|][i] && s[i] in t;
    assert forall i :: 0 <= i < |u| ==> s[i] == s[..|u|][i] && s[i] in u;
  }

  method Strlen(s: seq<char>, ghost t: string) returns (n: nat)
    requires Holds(s, t)
    ensures n == |t|
  {
    n := 0;
    HoldsAt(s, t, 0);
    while s[n] != NUL
      invariant n <= |t| && (s[n] == NUL <==> n == |t|)
      decreases |t| - n
    {
      n := n + 1;
      HoldsAt(s, t, n);
    }
  }

  /** The index of the first difference, or the common length. */
  function Difference(a: string, b: string): (i: nat)
    ensures i <= |a| && i <= |b| && a[..i] == b[..i]
    ensures i < |a| && i < |b| ==> a[i] != b[i]
  {
    if |a| == 0 || |b| == 0 || a[0] != b[0] then 0
    else
      var k := Difference(a[1..], b[1..]);
      assert a[..k + 1] == [a[0]] + a[1..][..k] && b[..k + 1] == [b[0]] + b[1..][..k];
      1 + k
  }

  method Strcmp(a: seq<char>, b: seq<char>, ghost ta: string, ghost tb: string) returns (r: int)
    requires Holds(a, ta) && Holds(b, tb)
    ensures var d := Difference(ta, tb);
            r == (if d < |ta| then ta[d] as int else 0) - (if d < |tb| then tb[d] as int else 0)
    ensures r == 0 <==> ta == tb
  {
    var i := 0;
    HoldsAt(a, ta, 0);
    HoldsAt(b, tb, 0);
    while a[i] != NUL && b[i] != NUL
      invariant i <= |ta| && i <= |tb| && ta[..i] == tb[..i]
      invariant a[i] == (if i < |ta| then ta[i] else NUL) && (a[i] == NUL <==> i == |ta|)
      invariant b[i] == (if i < |tb| then tb[i] else NUL) && (b[i] == NUL <==> i == |tb|)
      decreases |ta| - i
    {
      if a[i] != b[i] {
        DifferenceIs(ta, tb, i);
        return a[i] as int - b[i] as int;
      }
      i := i + 1;
      HoldsAt(a, ta, i);
      HoldsAt(b, tb, i);
    }
    DifferenceIs(ta, tb, i);
    assert ta == ta[..|ta|] && tb == tb[..|tb|];
    r := a[i] as int - b[i] as int;
  }

  lemma {:induction false} DifferenceIs(a: string, b: string, i: nat)
    requires i <= |a| && i <= |b| && a[..i] == b[..i]
    requires i < |a| && i < |b| ==> a[i] != b[i]
    ensures Difference(a, b) == i
  {
    if i > 0 {
      assert a[0] == a[..i][0] == b[0];
      assert a[1..][..i - 1] == a[..i][1..] == b[..i][1..] == b[1..][..i - 1];
      DifferenceIs(a[1..], b[1..], i - 1);
    }
  }

  /** Copy with terminator; the rest of the destination stays. */
  method Strcpy(dst: array<char>, src: array<char>, ghost t: string)
    requires Holds(src[..], t) && |t| < dst.Length && dst != src
    modifies dst
    ensures Holds(dst[..], t)
    ensures forall k :: |t| < k < dst.Length ==> dst[k] == old(dst[k])
  {
    var i := 0;
    HoldsAt(src[..], t, 0);
    while src[i] != NUL
      invariant i <= |t| && src[..] == old(src[..]) && (src[i] == NUL <==> i == |t|)
      invariant forall k :: 0 <= k < i ==> dst[k] == t[k]
      invariant forall k :: i < k < dst.Length ==> dst[k] == old(dst[k])
      decreases |t| - i
    {
      HoldsAt(src[..], t, i);
      dst[i] := src[i];
      i := i + 1;
      HoldsAt(src[..], t, i);
    }
    dst[i] := NUL;
  }
}
