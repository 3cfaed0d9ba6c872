/** Splitting a command line in place into NUL-terminated arguments. */
module Tokenizer {
  import opened CStrings

  const QUOTE: char := '"'

  predicate Blank(c: char) {
    c == ' ' || c == '\t'
  }

  function BlankRun(s: string): (n: nat)
    ensures n <= |s| && (forall i :: 0 <= i < n ==> Blank(s[i])) && (n < |s| ==> !Blank(s[n]))
  {
    if |s| > 0 && Blank(s[0]) then 1 + BlankRun(s[1..]) else 0
  }

  function SkipBlanks(s: string): (r: string)
    ensures |r| <= |s|
    ensures |r| > 0 ==> !Blank(r[0])
  {
    s[BlankRun(s)..]
  }

  function UntilQuote(s: string): (n: nat)
    ensures n <= |s| && (forall i :: 0 <= i < n ==> s[i] != QUOTE) && (n < |s| ==> s[n] == QUOTE)
  {
    if |s| == 0 || s[0] == QUOTE then 0 else 1 + UntilQuote(s[1..])
  }

  function UntilBlank(s: string): (n: nat)
    ensures n <= |s| && (forall i :: 0 <= i < n ==> !Blank(s[i])) && (n < |s| ==> Blank(s[n]))
  {
    if |s| == 0 || Blank(s[0]) then 0 else 1 + UntilBlank(s[1..])
  }

  /** What follows the delimiter at n, if there is one. */
  function After(s: string, n: nat): (r: string)
    requires n <= |s|
    ensures |r| <= |s| - n && (n < |s| ==> |r| < |s|)
  {
    if n < |s| then s[n + 1..] else ""
  }

  /** The arguments of a line: a quoted argument ends at the next quote, any
      other at the next blank. */
  function Split(s: string, max: nat): (r: seq<string>)
    ensures |r| <= max
    decreases max
  {
    var rest := SkipBlanks(s);
    if |rest| == 0 || max == 0 then []
    else if rest[0] == QUOTE then
      var body := rest[1..];
      var n := UntilQuote(body);
      [body[..n]] + Split(After(body, n), max - 1)
    else
      var n := UntilBlank(rest);
      [rest[..n]] + Split(After(rest, n), max - 1)
  }

  lemma {:induction false} BlankRunAll(s: string)
    ensures BlankRun(s) == |s| <==> forall c :: c in s ==> Blank(c)
  {
    if |s| > 0 {
      assert s == [s[0]] + s[1..];
      BlankRunAll(s[1..]);
    }
  }

  /** A line has no arguments exactly when it is blank throughout. */
  lemma NoArgumentsIffBlank(s: string, max: nat)
    requires max > 0
    ensures |Split(s, max)| == 0 <==> forall c :: c in s ==> Blank(c)
  {
    BlankRunAll(s);
  }

  // ---- Round trip ----

  predicate QuoteFree(x: string) {
    QUOTE !in x
  }

  /** Each argument in double quotes, separated by single spaces. */
  function Render(args: seq<string>): (s: string) {
    if |args| == 0 then ""
    else if |args| == 1 then Quoted(args[0])
    else Quoted(args[0]) + " " + Render(args[1..])
  }

  function Quoted(x: string): (s: string) {
    [QUOTE] + x + [QUOTE]
  }

  function Tail(args: seq<string>): (s: string)
    requires |args| > 0
  {
    if |args| == 1 then "" else " " + Render(args[1..])
  }

  lemma RenderShape(args: seq<string>)
    requires |args| > 0
    ensures Render(args) == Quoted(args[0]) + Tail(args)
    ensures |Render(args)| > 0 && Render(args)[0] == QUOTE
    ensures Render(args)[1..] == args[0] + [QUOTE] + Tail(args)
  {
    RenderParts(args);
    hide Render;
    hide Tail;
    QuotedShape(args[0], Tail(args));
  }

  lemma RenderParts(args: seq<string>)
    requires |args| > 0
    ensures Render(args) == Quoted(args[0]) + Tail(args)
  {
    hide Quoted;
    if |args| > 1 {
      Regroup(Quoted(args[0]), " ", Render(args[1..]));
    }
  }

  lemma Regroup(a: string, b: string, c: string)
    ensures a + b + c == a + (b + c)
  {
  }

  lemma QuotedShape(x: string, t: string)
    ensures Quoted(x) + t == [QUOTE] + (x + [QUOTE] + t)
    ensures ([QUOTE] + (x + [QUOTE] + t))[1..] == x + [QUOTE] + t
  {
  }

  lemma {:induction false} UntilQuoteOfConcat(x: string, y: string)
    ensures UntilQuote(x + [QUOTE] + y) <= |x|
    ensures UntilQuote(x + [QUOTE] + y) == |x| <==> QuoteFree(x)
  {
    var s := x + [QUOTE] + y;
    var n := UntilQuote(s);
    assert s[|x|] == QUOTE;
    assert forall i :: 0 <= i < |x| ==> s[i] == x[i];
    if n < |x| {
      assert x[n] == QUOTE;
    }
  }

  /** The first argument and the rest of the line after it. */
  lemma SplitFirst(s: string, rest: string, max: nat, token: string, rest': string)
    requires rest == SkipBlanks(s) && |rest| > 0 && max > 0
    requires var body := if rest[0] == QUOTE then rest[1..] else rest;
             var n := if rest[0] == QUOTE then UntilQuote(body) else UntilBlank(body);
             token == body[..n] && rest' == After(body, n)
    ensures Split(s, max) == [token] + Split(rest', max - 1)
  {
  }

  /** Splitting a line of quoted arguments gives them back, empty ones
      included, exactly when none of them contains a quote. */
  lemma {:induction false} SplitRender(args: seq<string>, max: nat)
    requires |args| <= max
    ensures Split(Render(args), max) == args <==> forall x :: x in args ==> QuoteFree(x)
  {
    hide Split;
    hide Render;
    hide SkipBlanks;
    if |args| == 0 {
      NothingRendered(args, max);
    } else {
      AllQuoteFree(args);
      if QuoteFree(args[0]) {
        SplitRender(args[1..], max - 1);
        var rest := Split(Render(args[1..]), max - 1);
        FirstArgument(args, max);
        SameTail(args, rest);
        assert Split(Render(args), max) == args <==> rest == args[1..];
      } else {
        FirstArgumentBroken(args, max);
      }
    }
  }

  lemma NothingRendered(args: seq<string>, max: nat)
    requires |args| == 0
    ensures Split(Render(args), max) == args
  {
    assert Render(args) == "";
    assert SkipBlanks("") == "";
  }

  lemma AllQuoteFree(args: seq<string>)
    requires |args| > 0
    ensures (forall x :: x in args ==> QuoteFree(x)) <==> QuoteFree(args[0]) && forall x :: x in args[1..] ==> QuoteFree(x)
  {
    assert args == [args[0]] + args[1..];
  }

  lemma SameTail(args: seq<string>, rest: seq<string>)
    requires |args| > 0
    ensures [args[0]] + rest == args <==> rest == args[1..]
  {
    assert args == [args[0]] + args[1..];
    assert ([args[0]] + rest)[1..] == rest;
  }

  lemma BodyParts(x: string, y: string)
    ensures (x + [QUOTE] + y)[..|x|] == x && (x + [QUOTE] + y)[|x| + 1..] == y
  {
  }

  lemma FirstArgument(args: seq<string>, max: nat)
    requires |args| > 0 && max > 0 && QuoteFree(args[0])
    ensures Split(Render(args), max) == [args[0]] + Split(Render(args[1..]), max - 1)
  {
    hide Split;
    hide Render;
    hide UntilQuote;
    RenderShape(args);
    var line, body := Render(args), args[0] + [QUOTE] + Tail(args);
    assert line[1..] == body && SkipBlanks(line) == line;
    UntilQuoteOfConcat(args[0], Tail(args));
    BodyParts(args[0], Tail(args));
    assert After(body, |args[0]|) == Tail(args);
    SplitFirst(line, line, max, args[0], Tail(args));
    SplitTail(args, max - 1);
  }

  lemma FirstArgumentBroken(args: seq<string>, max: nat)
    requires |args| > 0 && max > 0 && !QuoteFree(args[0])
    ensures Split(Render(args), max) != args
  {
    hide Split;
    hide Render;
    hide UntilQuote;
    RenderShape(args);
    var line, body := Render(args), args[0] + [QUOTE] + Tail(args);
    assert line[1..] == body && SkipBlanks(line) == line;
    UntilQuoteOfConcat(args[0], Tail(args));
    var n := UntilQuote(body);
    SplitFirst(line, line, max, body[..n], After(body, n));
    assert |Split(line, max)[0]| < |args[0]|;
  }

  lemma SplitTail(args: seq<string>, max: nat)
    requires |args| > 0
    ensures Split(Tail(args), max) == Split(Render(args[1..]), max)
  {
    if |args| > 1 {
      var t := Tail(args);
      assert t[1..] == Render(args[1..]);
      assert BlankRun(t) == 1 + BlankRun(t[1..]);
      assert SkipBlanks(t) == SkipBlanks(t[1..]);
    } else {
      assert Render(args[1..]) == "";
    }
  }

  // ---- Words and quoted arguments ----

  /** An argument as it stands in a line: a bare word or one in double quotes. */
  datatype Item = Word(text: string) | InQuotes(text: string) {
    /** How it is written. */
    function Written(): (s: string) {
      if Word? then text else "\"" + text + "\""
    }

    /** A word is not empty, holds no blank and starts with no quote; a quoted
        argument holds no quote. */
    predicate Ok() {
      if Word? then |text| > 0 && text[0] != '"' && ' ' !in text && '\t' !in text else '"' !in text
    }
  }

  predicate Gap(s: string) {
    forall i :: 0 <= i < |s| ==> s[i] == ' ' || s[i] == '\t'
  }

  /** The items with gap k before item k, and the last gap after them all. */
  function Line(items: seq<Item>, gaps: seq<string>): (s: string)
    requires |gaps| == |items| + 1
  {
    if |items| == 0 then gaps[0] else gaps[0] + items[0].Written() + Line(items[1..], gaps[1..])
  }

  /** All gaps are blank, and a word is followed by one that is not empty, unless
      it is the last item. */
  predicate Spaced(items: seq<Item>, gaps: seq<string>)
    requires |gaps| == |items| + 1
  {
    && (forall k :: 0 <= k < |gaps| ==> Gap(gaps[k]))
    && (forall k :: 0 <= k < |items| ==> items[k].Ok())
    && (forall k :: 0 <= k < |items| - 1 && items[k].Word? ==> |gaps[k + 1]| > 0)
  }

  function Texts(items: seq<Item>): (r: seq<string>)
    ensures |r| == |items|
  {
    if |items| == 0 then [] else [items[0].text] + Texts(items[1..])
  }

  lemma TextsAre(items: seq<Item>, k: nat)
    requires k < |items|
    ensures Texts(items)[k] == items[k].text
  {
    if k > 0 {
      TextsAre(items[1..], k - 1);
    }
  }

  /** A line of bare words and quoted arguments, mixed in any way and spaced by
      any runs of spaces and tabs, splits into exactly their texts, the first
      `max` of them. */
  lemma {:induction false} SplitLine(items: seq<Item>, gaps: seq<string>, max: nat)
    requires |gaps| == |items| + 1 && Spaced(items, gaps)
    ensures Split(Line(items, gaps), max) == Texts(items)[..if max < |items| then max else |items|]
    decreases |items|
  {
    hide Split;
    hide Gap;
    if |items| == 0 || max == 0 {
      NoItems(items, gaps, max);
    } else {
      SpacedTail(items, gaps);
      SplitLine(items[1..], gaps[1..], max - 1);
      assert |items| > 1 && items[0].Word? ==> |gaps[1]| > 0 && Gap(gaps[1]);
      SplitItem(gaps[0], items[0], gaps[1..], items[1..], max);
    }
  }

  /** In particular: bare words separated by non-empty runs of blanks. */
  lemma SplitWords(words: seq<string>, gaps: seq<string>, max: nat)
    requires |gaps| == |words| + 1 && |words| <= max
    requires forall k :: 0 <= k < |gaps| ==> Gap(gaps[k]) && (0 < k < |words| ==> |gaps[k]| > 0)
    requires forall k :: 0 <= k < |words| ==> Word(words[k]).Ok()
    ensures Split(Line(seq(|words|, k requires 0 <= k < |words| => Word(words[k])), gaps), max) == words
  {
    hide Split;
    hide Gap;
    hide Line;
    var items := seq(|words|, k requires 0 <= k < |words| => Word(words[k]));
    SplitLine(items, gaps, max);
    forall k | 0 <= k < |words|
      ensures Texts(items)[k] == words[k]
    {
      TextsAre(items, k);
    }
  }

  lemma NoItems(items: seq<Item>, gaps: seq<string>, max: nat)
    requires |gaps| == |items| + 1 && Gap(gaps[0]) && (|items| == 0 || max == 0)
    ensures Split(Line(items, gaps), max) == []
  {
    if |items| == 0 {
      BlankRunAll(gaps[0]);
    }
  }

  lemma SpacedTail(items: seq<Item>, gaps: seq<string>)
    requires |gaps| == |items| + 1 && Spaced(items, gaps) && |items| > 0
    ensures Spaced(items[1..], gaps[1..]) && Gap(gaps[0]) && items[0].Ok()
    ensures |items| > 1 && items[0].Word? ==> |gaps[1]| > 0 && Gap(gaps[1])
    ensures |items| == 1 ==> Gap(gaps[1])
  {
    hide Gap;
  }

  /** The first item of a line, and the splitting of the rest. */
  lemma SplitItem(gap: string, item: Item, gaps: seq<string>, items: seq<Item>, max: nat)
    requires Gap(gap) && item.Ok() && |gaps| == |items| + 1 && max > 0 && Gap(gaps[0])
    requires |items| > 0 && item.Word? ==> |gaps[0]| > 0
    ensures Split(gap + item.Written() + Line(items, gaps), max) == [item.text] + Split(Line(items, gaps), max - 1)
  {
    hide Split;
    hide Line;
    hide Gap;
    var rest := Line(items, gaps);
    if item.Word? {
      RestStartsBlank(gaps, items);
      FirstWord(gap, item.text, rest, max);
    } else {
      FirstQuoted(gap, item.text, rest, max);
      assert item.Written() + rest == "\"" + item.text + "\"" + rest;
      assert gap + item.Written() + rest == gap + (item.Written() + rest);
    }
  }

  lemma FirstWord(gap: string, word: string, rest: string, max: nat)
    requires Gap(gap) && Word(word).Ok() && (|rest| > 0 ==> Blank(rest[0])) && max > 0
    ensures Split(gap + word + rest, max) == [word] + Split(rest, max - 1)
  {
    hide Split;
    hide UntilBlank;
    var line, from := gap + word + rest, word + rest;
    assert line == gap + from && from[0] == word[0];
    WordEnds(word, rest);
    SkipGap(gap, from);
    hide SkipBlanks;
    SplitFirst(line, from, max, word, After(from, |word|));
    if |rest| > 0 {
      assert from[|word| + 1..] == rest[1..];
      BlankFirst(rest, max - 1);
    }
  }

  lemma FirstQuoted(gap: string, x: string, rest: string, max: nat)
    requires Gap(gap) && '"' !in x && max > 0
    ensures Split(gap + ("\"" + x + "\"" + rest), max) == [x] + Split(rest, max - 1)
  {
    hide Split;
    hide UntilQuote;
    var from := "\"" + x + "\"" + rest;
    SkipGap(gap, from);
    hide SkipBlanks;
    assert from[1..] == x + [QUOTE] + rest;
    UntilQuoteOfConcat(x, rest);
    BodyParts(x, rest);
    SplitFirst(gap + from, from, max, x, rest);
  }

  lemma RestStartsBlank(gaps: seq<string>, items: seq<Item>)
    requires |gaps| == |items| + 1 && Gap(gaps[0]) && (|items| > 0 ==> |gaps[0]| > 0)
    ensures |Line(items, gaps)| > 0 ==> Blank(Line(items, gaps)[0])
  {
    if |Line(items, gaps)| > 0 {
      assert Line(items, gaps)[0] == gaps[0][0];
    }
  }

  lemma {:induction false} SkipGap(gap: string, s: string)
    requires Gap(gap) && |s| > 0 && !Blank(s[0])
    ensures SkipBlanks(gap + s) == s
    decreases |gap|
  {
    if |gap| == 0 {
      assert gap + s == s;
    } else {
      assert (gap + s)[1..] == gap[1..] + s;
      SkipGap(gap[1..], s);
      BlankSkipped(gap + s);
    }
  }

  lemma BlankSkipped(s: string)
    requires |s| > 0 && Blank(s[0])
    ensures SkipBlanks(s) == SkipBlanks(s[1..])
  {
    assert BlankRun(s) == 1 + BlankRun(s[1..]);
  }

  lemma BlankFirst(s: string, max: nat)
    requires |s| > 0 && Blank(s[0])
    ensures Split(s[1..], max) == Split(s, max)
  {
    BlankSkipped(s);
  }

  lemma WordEnds(word: string, rest: string)
    requires ' ' !in word && '\t' !in word && (|rest| > 0 ==> Blank(rest[0]))
    ensures UntilBlank(word + rest) == |word|
    ensures (word + rest)[..|word|] == word
  {
    var s := word + rest;
    forall i | 0 <= i < |word|
      ensures !Blank(s[i])
    {
      assert s[i] == word[i] && word[i] in word;
    }
    UntilBlankIs(s, |word|);
  }

  lemma UntilBlankIs(s: string, n: nat)
    requires n <= |s| && (forall i :: 0 <= i < n ==> !Blank(s[i])) && (n < |s| ==> Blank(s[n]))
    ensures UntilBlank(s) == n
  {
  }

  lemma UntilQuoteIs(s: string, n: nat)
    requires n <= |s| && (forall i :: 0 <= i < n ==> s[i] != QUOTE) && (n < |s| ==> s[n] == QUOTE)
    ensures UntilQuote(s) == n
  {
  }

  /** A quote that nothing closes takes the rest of the line. */
  lemma SplitOpenQuote(gap: string, x: string, max: nat)
    requires Gap(gap) && '"' !in x && max > 0
    ensures Split(gap + ("\"" + x), max) == [x]
  {
    hide Split;
    hide UntilQuote;
    var from := "\"" + x;
    SkipGap(gap, from);
    hide SkipBlanks;
    assert from[1..] == x && x[..|x|] == x;
    forall i | 0 <= i < |x|
      ensures x[i] != QUOTE
    {
      assert x[i] in x;
    }
    UntilQuoteIs(x, |x|);
    SplitFirst(gap + from, from, max, x, "");
    NoItems([], [""], max - 1);
  }

  // ---- The tokenizer in place ----

  /** Memory changed only by turning delimiters into terminators. */
  predicate OnlyDelimitersErased(before: seq<char>, after: seq<char>) {
    && |before| == |after|
    && forall i :: 0 <= i < |before| ==>
         after[i] == before[i] || (after[i] == NUL && (Blank(before[i]) || before[i] == QUOTE))
  }

  /** The arguments found so far lie one after the other, each terminated,
      before position `limit`. */
  predicate Placed(memory: seq<char>, starts: seq<nat>, tokens: seq<string>, limit: nat) {
    && |starts| == |tokens|
    && (forall k :: 0 <= k < |starts| ==> PlacedAt(memory, starts[k], tokens[k], limit))
    && (forall j, k :: 0 <= j < k < |starts| ==> starts[j] + |tokens[j]| < starts[k])
  }

  predicate PlacedAt(memory: seq<char>, start: nat, token: string, limit: nat) {
    start + |token| < limit <= |memory| && Holds(memory[start..], token)
  }

  /** From p on memory still holds the rest of the line. */
  predicate Remaining(before: seq<char>, memory: seq<char>, t: string, p: nat) {
    && p <= |t| < |memory|
    && Holds(before, t)
    && OnlyDelimitersErased(before, memory)
    && memory[p..] == before[p..]
  }

  lemma RemainingAt(before: seq<char>, memory: seq<char>, t: string, p: nat, i: nat)
    requires Remaining(before, memory, t, p) && p <= i <= |t|
    ensures memory[i] == (if i < |t| then t[i] else NUL)
    ensures memory[i] == NUL <==> i == |t|
  {
    HoldsAt(before, t, i);
    assert memory[i] == memory[p..][i - p] && before[i] == before[p..][i - p];
  }

  /** The first non-blank position. */
  method SkipFrom(input: array<char>, p: nat, ghost before: seq<char>, ghost t: string) returns (q: nat)
    requires Remaining(before, input[..], t, p)
    ensures p <= q <= |t| && t[q..] == SkipBlanks(t[p..])
  {
    q := p;
    RemainingAt(before, input[..], t, p, q);
    while Blank(input[q])
      invariant p <= q <= |t| && q + BlankRun(t[q..]) == p + BlankRun(t[p..])
      invariant input[q] == if q < |t| then t[q] else NUL
      decreases |t| - q
    {
      assert t[q..][0] == t[q] && t[q..][1..] == t[q + 1..];
      q := q + 1;
      RemainingAt(before, input[..], t, p, q);
    }
    assert q < |t| ==> t[q..][0] == t[q];
    assert t[p..][q - p..] == t[q..];
  }

  /** The end of a quoted argument that starts at p. */
  method QuoteEnd(input: array<char>, p: nat, ghost before: seq<char>, ghost t: string) returns (e: nat)
    requires Remaining(before, input[..], t, p)
    ensures e == p + UntilQuote(t[p..])
  {
    e := p;
    RemainingAt(before, input[..], t, p, e);
    while input[e] != NUL && input[e] != QUOTE
      invariant p <= e <= |t| && e + UntilQuote(t[e..]) == p + UntilQuote(t[p..])
      invariant input[e] == (if e < |t| then t[e] else NUL) && (input[e] == NUL <==> e == |t|)
      decreases |t| - e
    {
      assert t[e..][0] == t[e] && t[e..][1..] == t[e + 1..];
      e := e + 1;
      RemainingAt(before, input[..], t, p, e);
    }
    assert e < |t| ==> t[e..][0] == t[e];
  }

  /** The end of an unquoted argument that starts at p. */
  method WordEnd(input: array<char>, p: nat, ghost before: seq<char>, ghost t: string) returns (e: nat)
    requires Remaining(before, input[..], t, p)
    ensures e == p + UntilBlank(t[p..])
  {
    e := p;
    RemainingAt(before, input[..], t, p, e);
    while input[e] != NUL && !Blank(input[e])
      invariant p <= e <= |t| && e + UntilBlank(t[e..]) == p + UntilBlank(t[p..])
      invariant input[e] == (if e < |t| then t[e] else NUL) && (input[e] == NUL <==> e == |t|)
      decreases |t| - e
    {
      assert t[e..][0] == t[e] && t[e..][1..] == t[e + 1..];
      e := e + 1;
      RemainingAt(before, input[..], t, p, e);
    }
    assert e < |t| ==> t[e..][0] == t[e];
  }

  /** Terminating a new argument at e keeps the earlier ones. */
  lemma PlaceNext(memory: seq<char>, starts: seq<nat>, tokens: seq<string>, limit: nat,
                  start: nat, token: string, e: nat, limit': nat)
    requires Placed(memory, starts, tokens, limit) && limit <= start
    requires e == start + |token| < limit' <= |memory|
    requires memory[start..e] == token && NUL !in token
    ensures Placed(memory[e := NUL], starts + [start], tokens + [token], limit')
  {
    var m, ss, ts := memory[e := NUL], starts + [start], tokens + [token];
    forall k | 0 <= k < |ss|
      ensures PlacedAt(m, ss[k], ts[k], limit')
    {
      if k < |starts| {
        assert PlacedAt(memory, starts[k], tokens[k], limit);
        assert m[starts[k]..][..|tokens[k]|] == memory[starts[k]..][..|tokens[k]|];
      } else {
        assert m[start..][..|token|] == memory[start..e];
      }
    }
    forall j, k | 0 <= j < k < |ss|
      ensures ss[j] + |ts[j]| < ss[k]
    {
      if k == |starts| {
        assert PlacedAt(memory, starts[j], tokens[j], limit);
      }
    }
  }

  /** One argument of the splitter, by positions in the line. */
  lemma SplitAt(t: string, p: nat, q: nat, start: nat, e: nat, max: nat)
    requires p <= q < |t| && t[q..] == SkipBlanks(t[p..]) && max > 0
    requires if t[q] == QUOTE then start == q + 1 && e == start + UntilQuote(t[start..])
             else start == q && e == start + UntilBlank(t[start..])
    ensures start <= e <= |t|
    ensures e < |t| ==> t[e] == QUOTE || Blank(t[e])
    ensures Split(t[p..], max) == [t[start..e]] + Split(if e < |t| then t[e + 1..] else "", max - 1)
  {
    hide Split;
    hide UntilQuote;
    hide UntilBlank;
    hide SkipBlanks;
    Suffixes(t, q, start, e);
    SplitFirst(t[p..], t[q..], max, t[start..e], if e < |t| then t[e + 1..] else "");
  }

  lemma Suffixes(t: string, q: nat, start: nat, e: nat)
    requires q < |t| && q <= start <= q + 1 && start <= e <= |t|
    ensures t[q..][0] == t[q]
    ensures t[start..] == if start == q then t[q..] else t[q..][1..]
    ensures t[start..][..e - start] == t[start..e]
    ensures e < |t| ==> t[start..][e - start] == t[e]
    ensures After(t[start..], e - start) == if e < |t| then t[e + 1..] else ""
  {
  }

  lemma NoTerminatorInside(t: string, start: nat, e: nat)
    requires NUL !in t && start <= e <= |t|
    ensures NUL !in t[start..e]
  {
  }

  lemma MemorySlice(before: seq<char>, memory: seq<char>, t: string, p: nat, start: nat, e: nat)
    requires Remaining(before, memory, t, p) && p <= start <= e <= |t|
    ensures memory[start..e] == t[start..e] && NUL !in t[start..e]
  {
    NoTerminatorInside(t, start, e);
    forall i | start <= i < e
      ensures memory[i] == t[i]
    {
      RemainingAt(before, memory, t, p, i);
    }
  }

  /** A terminator written over a delimiter leaves the rest of the line behind it. */
  lemma EraseDelimiter(before: seq<char>, memory: seq<char>, t: string, q: nat, e: nat)
    requires Remaining(before, memory, t, q) && q <= e < |t|
    requires t[e] == QUOTE || Blank(t[e])
    ensures Remaining(before, memory[e := NUL], t, e + 1)
  {
    HoldsAt(before, t, e);
    assert memory[e..] == memory[q..][e - q..] && before[e..] == before[q..][e - q..];
    assert memory[e := NUL][e + 1..] == memory[e..][1..];
  }

  lemma SuffixRemains(before: seq<char>, memory: seq<char>, t: string, p: nat, q: nat)
    requires Remaining(before, memory, t, p) && p <= q <= |t|
    ensures Remaining(before, memory, t, q)
  {
    assert memory[q..] == memory[p..][q - p..] && before[q..] == before[p..][q - p..];
  }

  /** Where the argument at the first non-blank position q starts and ends. */
  method FindArgument(input: array<char>, p: nat, q: nat, max: nat, ghost before: seq<char>, ghost t: string)
    returns (start: nat, e: nat, ghost token: string)
    requires Remaining(before, input[..], t, q)
    requires p <= q < |t| && t[q..] == SkipBlanks(t[p..]) && max > 0
    ensures q <= start <= e <= |t| && token == t[start..e] == input[start..e] && NUL !in token
    ensures e < |t| ==> t[e] == QUOTE || Blank(t[e])
    ensures Split(t[p..], max) == [token] + Split(if e < |t| then t[e + 1..] else "", max - 1)
  {
    RemainingAt(before, input[..], t, q, q);
    if input[q] == QUOTE {
      start := q + 1;
      SuffixRemains(before, input[..], t, q, start);
      e := QuoteEnd(input, start, before, t);
    } else {
      start := q;
      e := WordEnd(input, q, before, t);
    }
    SplitAt(t, p, q, start, e, max);
    MemorySlice(before, input[..], t, q, start, e);
    token := t[start..e];
    assert input[start..e] == input[..][start..e];
  }

  /** Overwrite the delimiter at e, unless e is the end of the line, and step over it. */
  method Terminate(input: array<char>, e: nat, q: nat, ghost before: seq<char>, ghost t: string) returns (p: nat)
    requires Remaining(before, input[..], t, q) && q <= e <= |t|
    requires e < |t| ==> t[e] == QUOTE || Blank(t[e])
    modifies input
    ensures p == if e < |t| then e + 1 else e
    ensures input[..] == old(input[..])[e := NUL]
    ensures Remaining(before, input[..], t, p)
    ensures input[p] == NUL <==> p == |t|
  {
    RemainingAt(before, input[..], t, q, e);
    p := e;
    if input[e] != NUL {
      EraseDelimiter(before, input[..], t, q, e);
      input[e] := NUL;
      assert input[..] == old(input[..])[e := NUL];
      p := e + 1;
    } else {
      SuffixRemains(before, input[..], t, q, e);
      assert input[..] == old(input[..])[e := NUL];
    }
    RemainingAt(before, input[..], t, p, p);
  }

  /** One round of the tokenizer: nothing when the line or the room for
      arguments is used up, else the next argument is placed and terminated. */
  method Round(input: array<char>, argv: array<nat>, argc: nat, maxArgs: nat, p: nat,
               ghost before: seq<char>, ghost t: string, ghost tokens: seq<string>, ghost limit: nat)
    returns (more: bool, p': nat, ghost token: string, ghost limit': nat)
    requires Remaining(before, input[..], t, p) && argc == |tokens| <= maxArgs <= argv.Length && p < |t|
    requires limit <= p && Placed(input[..], argv[..argc], tokens, limit)
    requires input as object != argv as object
    modifies input, argv
    ensures !more ==> input[..] == old(input[..]) && argv[..] == old(argv[..]) && Split(t[p..], maxArgs - argc) == []
    ensures more ==>
              && argc < maxArgs && p < p' <= |t| && limit' <= |t| + 1 && (limit' <= p' || p' == |t|)
              && Remaining(before, input[..], t, p') && (input[p'] == NUL <==> p' == |t|)
              && Placed(input[..], argv[..argc + 1], tokens + [token], limit')
              && argv[argc + 1..] == old(argv[argc + 1..])
              && Split(t[p..], maxArgs - argc) == [token] + Split(t[p'..], maxArgs - argc - 1)
  {
    hide Split;
    hide SkipBlanks;
    hide Placed;
    hide OnlyDelimitersErased;
    var q := SkipFrom(input, p, before, t);
    SuffixRemains(before, input[..], t, p, q);
    RemainingAt(before, input[..], t, q, q);
    if input[q] == NUL || argc >= maxArgs {
      NothingSplit(t[p..], maxArgs - argc);
      return false, p, "", limit;
    }
    var start, e;
    start, e, token := FindArgument(input, p, q, maxArgs - argc, before, t);
    PlaceNext(input[..], argv[..argc], tokens, limit, start, token, e, e + 1);
    argv[argc] := start;
    assert argv[..argc + 1] == old(argv[..argc]) + [start];
    p' := Terminate(input, e, q, before, t);
    assert t[p'..] == if e < |t| then t[e + 1..] else "";
    more, limit' := true, e + 1;
  }

  /** shell_tokenize: memory past the terminator is neither read nor written,
      only delimiters are overwritten, and the arguments are those of Split. */
  method Tokenize(input: array<char>, argv: array<nat>, maxArgs: nat, ghost t: string) returns (argc: nat)
    requires Holds(input[..], t) && maxArgs <= argv.Length
    requires input as object != argv as object
    modifies input, argv
    ensures argc == |Split(t, maxArgs)| <= maxArgs
    ensures Placed(input[..], argv[..argc], Split(t, maxArgs), |t| + 1)
    ensures OnlyDelimitersErased(old(input[..]), input[..])
    ensures input[|t|..] == old(input[|t|..])
    ensures argv[argc..] == old(argv[argc..])
  {
    hide Split;
    hide SkipBlanks;
    hide Placed;
    hide Remaining;
    hide Holds;
    argc := 0;
    var p := 0;
    ghost var before, tokens: seq<string>, limit: nat := input[..], [], 0;
    Begin(input[..], t);
    assert t[0..] == t && argv[..0] == [];
    while input[p] != NUL
      invariant p <= |t| < input.Length && Remaining(before, input[..], t, p)
      invariant input[p] == NUL <==> p == |t|
      invariant argc == |tokens| <= maxArgs && limit <= |t| + 1
      invariant limit <= p || p == |t|
      invariant Placed(input[..], argv[..argc], tokens, limit)
      invariant argv[argc..] == old(argv[argc..])
      invariant Split(t, maxArgs) == tokens + Split(t[p..], maxArgs - argc)
      decreases |t| - p
    {
      ghost var unused, s := argv[argc..], t[p..];
      var more, p': nat;
      ghost var token, limit': nat;
      more, p', token, limit' := Round(input, argv, argc, maxArgs, p, before, t, tokens, limit);
      if !more {
        break;
      }
      assert argv[argc + 1..] == unused[1..];
      AppendToken(t, maxArgs, tokens, s, maxArgs - argc, token, t[p'..]);
      argc, p := argc + 1, p';
      tokens, limit := tokens + [token], limit';
    }
    if p == |t| {
      NothingSplit(t[p..], maxArgs - argc);
    }
    assert Split(t, maxArgs) == tokens;
    PlacedLonger(input[..], argv[..argc], tokens, limit, |t| + 1);
    RemainingEnd(before, input[..], t, p);
  }

  lemma RemainingEnd(before: seq<char>, memory: seq<char>, t: string, p: nat)
    requires Remaining(before, memory, t, p)
    ensures |t| < |memory| == |before| && memory[|t|..] == before[|t|..] && OnlyDelimitersErased(before, memory)
  {
    assert memory[|t|..] == memory[p..][|t| - p..];
    assert before[|t|..] == before[p..][|t| - p..];
  }

  lemma Begin(memory: seq<char>, t: string)
    requires Holds(memory, t)
    ensures |t| < |memory|
    ensures Remaining(memory, memory, t, 0) && Placed(memory, [], [], 0)
    ensures memory[0] == NUL <==> |t| == 0
  {
    HoldsAt(memory, t, 0);
  }

  lemma AppendToken(t: string, maxArgs: nat, tokens: seq<string>, s: string, max: nat, token: string, rest: string)
    requires max > 0 && Split(t, maxArgs) == tokens + Split(s, max)
    requires Split(s, max) == [token] + Split(rest, max - 1)
    ensures Split(t, maxArgs) == (tokens + [token]) + Split(rest, max - 1)
  {
  }

  lemma NothingSplit(s: string, max: nat)
    requires |SkipBlanks(s)| == 0 || max == 0
    ensures Split(s, max) == []
  {
  }

  lemma PlacedLonger(memory: seq<char>, starts: seq<nat>, tokens: seq<string>, limit: nat, limit': nat)
    requires Placed(memory, starts, tokens, limit) && limit <= limit' <= |memory|
    ensures Placed(memory, starts, tokens, limit')
  {
    forall k | 0 <= k < |starts|
      ensures PlacedAt(memory, starts[k], tokens[k], limit')
    {
      assert PlacedAt(memory, starts[k], tokens[k], limit);
    }
  }
}
