/** The shell's line editor and history as pure values: a zipper, a bounded
    newest-first history, and the view that Up and Down move. */
module LineSpec {
  import opened Sequences

  const BUFFER_SIZE: int := 128
  const HISTORY_SIZE: int := 16

  /** The text before and after the cursor. */
  datatype Line = Line(left: string, right: string)

  const EMPTY: Line := Line("", "")

  function Text(l: Line): (t: string) {
    l.left + l.right
  }

  predicate Full(l: Line) {
    |l.left| + |l.right| >= BUFFER_SIZE - 1
  }

  function Insert(l: Line, c: char): (r: Line) {
    if Full(l) then EMPTY else Line(l.left + [c], l.right)
  }

  function Backspace(l: Line): (r: Line) {
    if |l.left| == 0 then l else Line(l.left[..|l.left| - 1], l.right)
  }

  function DeleteForward(l: Line): (r: Line) {
    if |l.right| == 0 then l else Line(l.left, l.right[1..])
  }

  function MoveLeft(l: Line): (r: Line) {
    if |l.left| == 0 then l
    else Line(l.left[..|l.left| - 1], [l.left[|l.left| - 1]] + l.right)
  }

  function MoveRight(l: Line): (r: Line) {
    if |l.right| == 0 then l else Line(l.left + [l.right[0]], l.right[1..])
  }

  function MoveHome(l: Line): (r: Line) {
    Line("", l.left + l.right)
  }

  function MoveEnd(l: Line): (r: Line) {
    Line(l.left + l.right, "")
  }

  /** Below the limit a typed character is undone by backspace; at the limit
      typing throws the line away, so it is undone only if nothing is lost. */
  lemma InsertBackspace(l: Line, c: char)
    ensures Backspace(Insert(l, c)) == l <==> !Full(l)
  {
    if !Full(l) {
      assert (l.left + [c])[..|l.left|] == l.left;
    }
  }

  /** No cursor movement changes the text. */
  lemma MovesKeepText(l: Line)
    ensures Text(MoveLeft(l)) == Text(MoveRight(l)) == Text(MoveHome(l)) == Text(MoveEnd(l)) == Text(l)
  {
    if |l.left| > 0 {
      assert l.left == l.left[..|l.left| - 1] + [l.left[|l.left| - 1]];
    }
    if |l.right| > 0 {
      assert l.right == [l.right[0]] + l.right[1..];
    }
  }

  /** Left and right undo each other. */
  lemma LeftRightInverse(l: Line)
    ensures |l.left| > 0 ==> MoveRight(MoveLeft(l)) == l
    ensures |l.right| > 0 ==> MoveLeft(MoveRight(l)) == l
  {
    if |l.left| > 0 {
      assert ([l.left[|l.left| - 1]] + l.right)[1..] == l.right;
    }
    if |l.right| > 0 {
      assert (l.left + [l.right[0]])[..|l.left|] == l.left;
    }
  }

  /** Deleting forward is stepping over the character and backspacing. */
  lemma DeleteIsRightBackspace(l: Line)
    ensures |l.right| > 0 ==> DeleteForward(l) == Backspace(MoveRight(l))
  {
    if |l.right| > 0 {
      assert (l.left + [l.right[0]])[..|l.left|] == l.left;
    }
  }

  // ---- History ----

  function Truncate(h: seq<string>): (r: seq<string>) {
    if |h| > HISTORY_SIZE then h[..HISTORY_SIZE] else h
  }

  /** Newest first; empty lines and repeats of the newest line are dropped. */
  function AddLine(h: seq<string>, line: string): (r: seq<string>) {
    if |line| == 0 || (|h| > 0 && h[0] == line) then h else Truncate([line] + h)
  }

  /** The history after entering lines in order. */
  function Entered(lines: seq<string>): (h: seq<string>) {
    if |lines| == 0 then []
    else AddLine(Entered(lines[..|lines| - 1]), lines[|lines| - 1])
  }

  function NonEmpty(lines: seq<string>): (r: seq<string>) {
    if |lines| == 0 then []
    else
      var front, last := NonEmpty(lines[..|lines| - 1]), lines[|lines| - 1];
      if |last| == 0 then front else front + [last]
  }

  /** The lines that differ from their predecessor. */
  function Changes(lines: seq<string>): (r: seq<string>) {
    if |lines| == 0 then []
    else
      var k := |lines| - 1;
      if k > 0 && lines[k] == lines[k - 1] then Changes(lines[..k]) else Changes(lines[..k]) + [lines[k]]
  }

  lemma {:induction false} LastChange(lines: seq<string>)
    requires |lines| > 0
    ensures |Changes(lines)| > 0 && Changes(lines)[|Changes(lines)| - 1] == lines[|lines| - 1]
  {
    var k := |lines| - 1;
    if k > 0 && lines[k] == lines[k - 1] {
      LastChange(lines[..k]);
    }
  }

  lemma ChangesOfAppend(lines: seq<string>, last: string)
    ensures Changes(lines + [last]) ==
            if |lines| > 0 && lines[|lines| - 1] == last then Changes(lines) else Changes(lines) + [last]
  {
    assert (lines + [last])[..|lines|] == lines;
  }

  lemma ReversedOfAppend(lines: seq<string>, last: string)
    ensures Reversed(lines + [last]) == [last] + Reversed(lines)
  {
    assert (lines + [last])[..|lines|] == lines;
  }

  /** Truncating early loses nothing. */
  lemma TruncateTwice(h: seq<string>, line: string)
    ensures Truncate([line] + Truncate(h)) == Truncate([line] + h)
    ensures |Truncate(h)| > 0 <==> |h| > 0
    ensures |h| > 0 ==> Truncate(h)[0] == h[0]
  {
  }

  /** The bounded history is the newest 16 of all lines entered, without empty
      lines and without consecutive repeats. */
  lemma {:induction false} HistoryMeaning(lines: seq<string>)
    ensures Entered(lines) == Truncate(Reversed(Changes(NonEmpty(lines))))
  {
    if |lines| > 0 {
      HistoryMeaning(lines[..|lines| - 1]);
      HistoryStep(NonEmpty(lines[..|lines| - 1]), lines[|lines| - 1]);
    }
  }

  lemma HistoryStep(kept: seq<string>, last: string)
    ensures AddLine(Truncate(Reversed(Changes(kept))), last) ==
            Truncate(Reversed(Changes(if |last| == 0 then kept else kept + [last])))
  {
    hide Changes;
    hide Reversed;
    hide Truncate;
    var changes := Changes(kept);
    ChangesOfAppend(kept, last);
    ReversedOfAppend(changes, last);
    TruncateTwice(Reversed(changes), last);
    if |kept| > 0 {
      LastChange(kept);
    } else {
      NoChanges(kept);
    }
  }

  lemma NoChanges(lines: seq<string>)
    requires |lines| == 0
    ensures Changes(lines) == []
  {
  }

  // ---- Keys ----

  datatype Key =
    | Char(c: char) | BackspaceKey | DeleteKey
    | LeftKey | RightKey | HomeKey | EndKey
    | Up | Down | Enter

  /** `view` is the history entry on display, -1 for none; `saved` is the line
      that was being typed when the view left -1. */
  datatype Shell = Shell(line: Line, history: seq<string>, view: int, saved: Line)

  predicate ViewOk(s: Shell) {
    -1 <= s.view < |s.history| && |s.history| <= HISTORY_SIZE
  }

  function LoadEntry(s: Shell, k: int): (r: Shell)
    requires 0 <= k < |s.history|
  {
    s.(view := k, line := Line(s.history[k], ""))
  }

  function PressUp(s: Shell): (r: Shell)
    requires ViewOk(s)
  {
    if |s.history| == 0 then s
    else if s.view == -1 then LoadEntry(s.(saved := s.line), 0)
    else if s.view < |s.history| - 1 then LoadEntry(s, s.view + 1)
    else s
  }

  function PressDown(s: Shell): (r: Shell)
    requires ViewOk(s)
  {
    if |s.history| == 0 || s.view == -1 then s
    else if s.view > 0 then LoadEntry(s, s.view - 1)
    else s.(view := -1, line := s.saved)
  }

  function Press(s: Shell, key: Key): (r: Shell)
    requires ViewOk(s)
    ensures ViewOk(r)
  {
    match key
    case Char(c) => s.(view := -1, line := Insert(s.line, c))
    case BackspaceKey => s.(view := -1, line := Backspace(s.line))
    case DeleteKey => s.(line := DeleteForward(s.line))
    case LeftKey => s.(line := MoveLeft(s.line))
    case RightKey => s.(line := MoveRight(s.line))
    case HomeKey => s.(line := MoveHome(s.line))
    case EndKey => s.(line := MoveEnd(s.line))
    case Up => PressUp(s)
    case Down => PressDown(s)
    case Enter => Shell(EMPTY, AddLine(s.history, Text(s.line)), -1, EMPTY)
  }

  function Presses(s: Shell, keys: seq<Key>): (r: Shell)
    requires ViewOk(s)
    ensures ViewOk(r)
    decreases |keys|
  {
    if |keys| == 0 then s else Presses(Press(s, keys[0]), keys[1..])
  }

  /** The lines that the keys submit. */
  function Submitted(s: Shell, keys: seq<Key>): (lines: seq<string>)
    requires ViewOk(s)
    decreases |keys|
  {
    if |keys| == 0 then []
    else (if keys[0].Enter? then [Text(s.line)] else []) + Submitted(Press(s, keys[0]), keys[1..])
  }

  /** Whatever keys are pressed, the history is that of the submitted lines:
      browsing, editing history entries and overlong lines leave no trace in it. */
  lemma {:induction false} HistoryOverRun(s: Shell, lines: seq<string>, keys: seq<Key>)
    requires ViewOk(s) && s.history == Entered(lines)
    ensures Presses(s, keys).history == Entered(lines + Submitted(s, keys))
    decreases |keys|
  {
    hide AddLine;
    hide Text;
    if |keys| == 0 {
      assert lines + [] == lines;
    } else {
      var now := if keys[0].Enter? then lines + [Text(s.line)] else lines;
      if keys[0].Enter? {
        assert now[..|lines|] == lines;
      }
      HistoryOverRun(Press(s, keys[0]), now, keys[1..]);
      assert now + Submitted(Press(s, keys[0]), keys[1..]) == lines + Submitted(s, keys);
    }
  }

  /** Keys that neither type, erase backwards nor submit. */
  predicate Navigation(key: Key) {
    !key.Char? && !key.BackspaceKey? && !key.Enter?
  }

  /** The view counter alone: Up and Down move it between -1 and the oldest entry. */
  function Counter(view: int, entries: nat, keys: seq<Key>): (r: int)
    decreases |keys|
  {
    if |keys| == 0 then view
    else
      var next :=
        if keys[0].Up? && view + 1 < entries then view + 1
        else if keys[0].Down? && view > -1 then view - 1
        else view;
      Counter(next, entries, keys[1..])
  }

  lemma {:induction false} ViewIsSaturatingCounter(s: Shell, keys: seq<Key>)
    requires ViewOk(s) && forall k :: k in keys ==> Navigation(k)
    ensures Presses(s, keys).view == Counter(s.view, |s.history|, keys)
    ensures Presses(s, keys).history == s.history
    decreases |keys|
  {
    if |keys| > 0 {
      assert Navigation(keys[0]);
      assert forall k :: k in keys[1..] ==> k in keys;
      ViewIsSaturatingCounter(Press(s, keys[0]), keys[1..]);
    }
  }

  /** An Up or Down that changes the view to a history entry loads that entry. */
  lemma MovingLoadsEntry(s: Shell, key: Key)
    requires ViewOk(s) && (key.Up? || key.Down?)
    requires Press(s, key).view != s.view && Press(s, key).view >= 0
    ensures Press(s, key).line == Line(s.history[Press(s, key).view], "")
  {
  }

  /** The view stays on the history after each of the keys. */
  predicate StaysInHistory(s: Shell, keys: seq<Key>)
    requires ViewOk(s)
    decreases |keys|
  {
    s.view >= 0 && (|keys| > 0 ==> StaysInHistory(Press(s, keys[0]), keys[1..]))
  }

  lemma {:induction false} SavedWhileInHistory(s: Shell, keys: seq<Key>)
    requires ViewOk(s) && StaysInHistory(s, keys)
    requires forall k :: k in keys ==> Navigation(k)
    ensures Presses(s, keys).saved == s.saved && Presses(s, keys).view >= 0
    decreases |keys|
  {
    if |keys| > 0 {
      assert Navigation(keys[0]);
      assert forall k :: k in keys[1..] ==> k in keys;
      SavedWhileInHistory(Press(s, keys[0]), keys[1..]);
    }
  }

  /** Browsing and coming back restores the line and the cursor as they were at
      the Up that left the line, however the entries were edited or browsed. */
  lemma DraftRestored(s: Shell, keys: seq<Key>)
    requires ViewOk(s) && s.view == -1 && |s.history| > 0
    requires forall k :: k in keys ==> Navigation(k)
    requires StaysInHistory(Press(s, Up), keys)
    requires Press(Presses(Press(s, Up), keys), Down).view == -1
    ensures Press(Presses(Press(s, Up), keys), Down).line == s.line
  {
    SavedWhileInHistory(Press(s, Up), keys);
  }

  // ---- Each key, on the text and the cursor ----

  /** Typing puts the character at the cursor and steps over it. With 127
      characters there is no room, and the line is lost. */
  lemma TypingLaw(s: Shell, c: char, t: string, k: int)
    requires ViewOk(s) && s.line.left + s.line.right == t && |s.line.left| == k
    ensures var r := Press(s, Char(c));
            && (|t| < 127 ==> r.line.left + r.line.right == t[..k] + [c] + t[k..] && |r.line.left| == k + 1)
            && (|t| >= 127 ==> r.line.left == "" && r.line.right == "")
            && r.view == -1 && r.history == s.history && r.saved == s.saved
  {
  }

  /** Backspace removes the character before the cursor, Delete the one at it. */
  lemma ErasingLaw(s: Shell, t: string, k: int)
    requires ViewOk(s) && s.line.left + s.line.right == t && |s.line.left| == k
    ensures var r := Press(s, BackspaceKey);
            && (k > 0 ==> r.line.left + r.line.right == t[..k - 1] + t[k..] && |r.line.left| == k - 1)
            && (k == 0 ==> r.line == s.line)
            && r.view == -1 && r.history == s.history && r.saved == s.saved
    ensures var r := Press(s, DeleteKey);
            && (k < |t| ==> r.line.left + r.line.right == t[..k] + t[k + 1..] && |r.line.left| == k)
            && (k == |t| ==> r.line == s.line)
            && r.view == s.view && r.history == s.history && r.saved == s.saved
  {
    assert t[..k] == s.line.left && t[k..] == s.line.right;
    if k > 0 {
      assert s.line.left[..k - 1] == t[..k - 1];
    }
    if k < |t| {
      assert s.line.right[1..] == t[k + 1..];
    }
  }

  /** The cursor keys keep the text and set the cursor. */
  lemma MovingLaw(s: Shell, key: Key, t: string, k: int)
    requires ViewOk(s) && s.line.left + s.line.right == t && |s.line.left| == k
    requires key.LeftKey? || key.RightKey? || key.HomeKey? || key.EndKey?
    ensures var r := Press(s, key);
            && r.line.left + r.line.right == t
            && |r.line.left| == (if key.LeftKey? then (if k > 0 then k - 1 else 0)
                                 else if key.RightKey? then (if k < |t| then k + 1 else |t|)
                                 else if key.HomeKey? then 0
                                 else |t|)
            && r.view == s.view && r.history == s.history && r.saved == s.saved
  {
    MovesKeepText(s.line);
  }

  /** Enter leaves an empty line, no view and nothing saved, and remembers the
      text unless it is empty or repeats the newest entry; sixteen are kept. */
  lemma EnterLaw(s: Shell, t: string)
    requires ViewOk(s) && s.line.left + s.line.right == t
    ensures var r := Press(s, Enter);
            && r.line == Line("", "") && r.view == -1 && r.saved == Line("", "")
            && (t == "" || (|s.history| > 0 && s.history[0] == t) ==> r.history == s.history)
            && (t != "" && (|s.history| == 0 || s.history[0] != t) ==>
                  && |r.history| == (if |s.history| < 16 then |s.history| + 1 else 16)
                  && r.history[0] == t
                  && forall k :: 1 <= k < |r.history| ==> r.history[k] == s.history[k - 1])
  {
  }

  /** Up, in all cases: nothing without a history or at its oldest entry; else the
      next older entry with the cursor at its end, and the line that was being
      typed is saved when the view leaves it. */
  lemma UpLaw(s: Shell)
    requires ViewOk(s)
    ensures |s.history| == 0 || s.view == |s.history| - 1 ==> Press(s, Up) == s
    ensures |s.history| > 0 && s.view < |s.history| - 1 ==>
              var r := Press(s, Up);
              && r.view == s.view + 1 && r.history == s.history
              && r.line.left == s.history[s.view + 1] && r.line.right == ""
              && r.saved == if s.view == -1 then s.line else s.saved
  {
  }

  /** Down, in all cases: nothing without a history or outside it; else the next
      newer entry with the cursor at its end, or the saved line. */
  lemma DownLaw(s: Shell)
    requires ViewOk(s)
    ensures |s.history| == 0 || s.view == -1 ==> Press(s, Down) == s
    ensures s.view >= 0 ==>
              var r := Press(s, Down);
              && r.view == s.view - 1 && r.history == s.history && r.saved == s.saved
              && (s.view > 0 ==> r.line.left == s.history[s.view - 1] && r.line.right == "")
              && (s.view == 0 ==> r.line == s.saved)
  {
  }
}
