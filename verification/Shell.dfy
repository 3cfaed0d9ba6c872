/** The shell's line buffer, history ring and saved line, edited in place. */
module Shell {
  import opened CStrings
  import opened LineSpec
  import opened Machine
  import CommandTable
  import Tokenizer

  const MAX_ARGS: int := 16
  const BACKSPACE: char := 8 as char

  /** The slot k entries before the newest. */
  function Slot(next: int, k: int): (r: int)
    requires 0 <= next < HISTORY_SIZE && 0 <= k < HISTORY_SIZE
    ensures 0 <= r < HISTORY_SIZE
  {
    (next - 1 - k + HISTORY_SIZE) % HISTORY_SIZE
  }

  /** The slot of each entry holds its text. */
  ghost predicate RingHolds(ring: seq<array<char>>, next: nat, entries: seq<string>)
    reads ring
  {
    && |ring| == HISTORY_SIZE && next < HISTORY_SIZE && |entries| <= HISTORY_SIZE
    && forall k :: 0 <= k < |entries| ==> EntryAt(ring, next, entries, k)
  }

  ghost predicate EntryAt(ring: seq<array<char>>, next: nat, entries: seq<string>, k: int)
    requires |ring| == HISTORY_SIZE && next < HISTORY_SIZE && 0 <= k < |entries| <= HISTORY_SIZE
    reads ring
  {
    Holds(ring[Slot(next, k)][..], entries[k]) && |entries[k]| <= BUFFER_SIZE - 1
  }

  class Editor {
    const buffer: array<char>
    const saved: array<char>
    const ring: seq<array<char>>
    var length: nat
    var cursor: nat
    var count: nat
    var next: nat
    var view: int
    var savedLength: nat
    var savedCursor: nat
    ghost var text: string
    ghost var savedText: string
    ghost var entries: seq<string>  // newest first

    /** Eighteen separate buffers of 128 characters. */
    ghost predicate Separate()
      reads this
    {
      && buffer.Length == BUFFER_SIZE && saved.Length == BUFFER_SIZE && buffer != saved
      && |ring| == HISTORY_SIZE
      && (forall i :: 0 <= i < HISTORY_SIZE ==> ring[i].Length == BUFFER_SIZE && ring[i] != buffer && ring[i] != saved)
      && (forall i, j :: 0 <= i < j < HISTORY_SIZE ==> ring[i] != ring[j])
    }

    /** Storage that is none of the editor's. */
    ghost predicate Apart(o: object)
      reads this
    {
      o != buffer && o != saved && forall i :: 0 <= i < |ring| ==> o != ring[i]
    }

    ghost predicate LineOk()
      reads this, buffer
    {
      Holds(buffer[..], text) && length == |text| <= BUFFER_SIZE - 1 && cursor <= length
    }

    ghost predicate SavedOk()
      reads this, saved
    {
      Holds(saved[..], savedText) && savedLength == |savedText| <= BUFFER_SIZE - 1 && savedCursor <= savedLength
    }

    ghost predicate RingOk()
      reads this, ring
    {
      && count == |entries| <= HISTORY_SIZE && next < HISTORY_SIZE
      && RingHolds(ring, next, entries)
    }

    ghost predicate Valid()
      reads this, buffer, saved, ring
    {
      Separate() && LineOk() && SavedOk() && RingOk() && -1 <= view < count
    }

    ghost function State(): (s: LineSpec.Shell)
      requires cursor <= |text| && savedCursor <= |savedText|
      reads this
    {
      Shell(Line(text[..cursor], text[cursor..]), entries, view, Line(savedText[..savedCursor], savedText[savedCursor..]))
    }

    /** shell_init */
    constructor (buffer: array<char>, saved: array<char>, ring: seq<array<char>>)
      requires buffer.Length == BUFFER_SIZE && saved.Length == BUFFER_SIZE && buffer != saved
      requires |ring| == HISTORY_SIZE
      requires forall i :: 0 <= i < HISTORY_SIZE ==> ring[i].Length == BUFFER_SIZE && ring[i] != buffer && ring[i] != saved
      requires forall i, j :: 0 <= i < j < HISTORY_SIZE ==> ring[i] != ring[j]
      modifies buffer, saved
      ensures Valid() && State() == LineSpec.Shell.Shell(EMPTY, [], -1, EMPTY)
      ensures this.buffer == buffer && this.saved == saved && this.ring == ring
    {
      this.buffer := buffer;
      this.saved := saved;
      this.ring := ring;
      length, cursor, count, next, view := 0, 0, 0, 0, -1;
      savedLength, savedCursor := 0, 0;
      text, savedText, entries := "", "", [];
      new;
      buffer[0] := NUL;
      saved[0] := NUL;
    }

    // ---- Editing ----

    /** shell_insert_char */
    method InsertChar(c: char)
      requires Valid() && c != NUL
      modifies this, buffer
      ensures Valid()
      ensures State() == old(State()).(line := Insert(old(State()).line, c),
                                       view := if Full(old(State()).line) then -1 else old(view))
      ensures old(length) < 127 ==>
                && text == old(text)[..old(cursor)] + [c] + old(text)[old(cursor)..]
                && cursor == old(cursor) + 1 && length == old(length) + 1
      ensures old(length) >= 127 ==> text == "" && cursor == 0 && length == 0
    {
      if length >= BUFFER_SIZE - 1 {
        length, cursor := 0, 0;
        buffer[0] := NUL;
        view := -1;
        text := "";
        assert text[..cursor] == "" && text[cursor..] == "";
        return;
      }
      ghost var t := text;
      OpenGap(c);
      length := length + 1;
      cursor := cursor + 1;
      text := t[..cursor - 1] + [c] + t[cursor - 1..];
      TextAround(t, cursor - 1, c);
    }

    /** Shift the tail and its terminator one to the right and fill the gap. */
    method OpenGap(c: char)
      requires Separate() && LineOk() && length < BUFFER_SIZE - 1 && c != NUL
      modifies buffer
      ensures Holds(buffer[..], text[..cursor] + [c] + text[cursor..])
    {
      assert forall k :: 0 <= k < length ==> buffer[k] == buffer[..length][k];
      var i := length + 1;
      while i > cursor
        invariant cursor <= i <= length + 1
        invariant forall k :: 0 <= k < i ==> buffer[k] == old(buffer[k])
        invariant forall k :: i < k <= length + 1 ==> buffer[k] == old(buffer[k - 1])
      {
        buffer[i] := buffer[i - 1];
        i := i - 1;
      }
      buffer[cursor] := c;
      ghost var r := text[..cursor] + [c] + text[cursor..];
      assert forall k :: 0 <= k < |r| ==> buffer[..][k] == r[k];
    }

    /** Shift everything after position `at`, with the terminator, one to the left. */
    method CloseGap(at: nat)
      requires Separate() && LineOk() && at < length
      modifies buffer
      ensures Holds(buffer[..], text[..at] + text[at + 1..])
    {
      ghost var t := text;
      assert forall k :: 0 <= k < length ==> buffer[k] == buffer[..length][k];
      var i := at;
      while i < length
        invariant at <= i <= length
        invariant forall k :: 0 <= k < at ==> buffer[k] == t[k]
        invariant forall k :: at <= k < i ==> buffer[k] == if k + 1 < length then t[k + 1] else NUL
        invariant forall k :: i <= k <= length ==> buffer[k] == if k < length then t[k] else NUL
      {
        buffer[i] := buffer[i + 1];
        i := i + 1;
      }
      ghost var r := t[..at] + t[at + 1..];
      assert forall k :: 0 <= k < |r| ==> buffer[..][k] == r[k];
    }

    /** shell_backspace */
    method Backspace()
      requires Valid()
      modifies this, buffer
      ensures Valid() && State() == old(State()).(line := LineSpec.Backspace(old(State()).line))
      ensures old(cursor) > 0 ==>
                text == old(text)[..old(cursor) - 1] + old(text)[old(cursor)..] && cursor == old(cursor) - 1
      ensures old(cursor) == 0 ==> text == old(text) && cursor == 0
    {
      if cursor == 0 || length == 0 {
        return;
      }
      ghost var t := text;
      CloseGap(cursor - 1);
      cursor := cursor - 1;
      length := length - 1;
      text := t[..cursor] + t[cursor + 1..];
      assert text[..cursor] == t[..cursor + 1][..cursor];
      assert text[cursor..] == t[cursor + 1..];
    }

    /** shell_delete_forward */
    method DeleteForward()
      requires Valid()
      modifies this, buffer
      ensures Valid() && State() == old(State()).(line := LineSpec.DeleteForward(old(State()).line))
      ensures old(cursor) < old(length) ==> text == old(text)[..cursor] + old(text)[cursor + 1..]
      ensures old(cursor) == old(length) ==> text == old(text)
      ensures cursor == old(cursor)
    {
      if cursor >= length {
        return;
      }
      ghost var t := text;
      CloseGap(cursor);
      length := length - 1;
      text := t[..cursor] + t[cursor + 1..];
      assert text[..cursor] == t[..cursor];
      assert text[cursor..] == t[cursor..][1..];
    }

    method MoveLeft()
      requires Valid()
      modifies this
      ensures Valid() && State() == old(State()).(line := LineSpec.MoveLeft(old(State()).line))
      ensures text == old(text) && cursor == if old(cursor) > 0 then old(cursor) - 1 else 0
    {
      if cursor > 0 {
        cursor := cursor - 1;
        assert text[..cursor] == text[..cursor + 1][..cursor];
        assert text[cursor..] == [text[..cursor + 1][cursor]] + text[cursor + 1..];
      }
    }

    method MoveRight()
      requires Valid()
      modifies this
      ensures Valid() && State() == old(State()).(line := LineSpec.MoveRight(old(State()).line))
      ensures text == old(text) && cursor == if old(cursor) < old(length) then old(cursor) + 1 else old(length)
    {
      if cursor < length {
        cursor := cursor + 1;
        assert text[..cursor] == text[..cursor - 1] + [text[cursor - 1..][0]];
        assert text[cursor..] == text[cursor - 1..][1..];
      }
    }

    method MoveHome()
      requires Valid()
      modifies this
      ensures Valid() && State() == old(State()).(line := LineSpec.MoveHome(old(State()).line))
      ensures text == old(text) && cursor == 0
    {
      assert text == text[..cursor] + text[cursor..];
      cursor := 0;
      assert text[..cursor] == "" && text[cursor..] == text;
    }

    method MoveEnd()
      requires Valid()
      modifies this
      ensures Valid() && State() == old(State()).(line := LineSpec.MoveEnd(old(State()).line))
      ensures text == old(text) && cursor == old(length)
    {
      assert text == text[..cursor] + text[cursor..];
      cursor := length;
      assert text[..cursor] == text && text[cursor..] == "";
    }

    // ---- History ----

    /** shell_history_add on the line buffer. */
    method HistoryAdd()
      requires Valid()
      modifies this, ring
      ensures Separate() && LineOk() && SavedOk() && RingOk()
      ensures entries == AddLine(old(entries), text)
      ensures text == old(text) && length == old(length) && cursor == old(cursor) && view == old(view)
      ensures savedText == old(savedText) && savedLength == old(savedLength) && savedCursor == old(savedCursor)
    {
      HoldsAt(buffer[..], text, 0);
      if buffer[0] == NUL {
        return;
      }
      if count > 0 {
        var newest := (next - 1 + HISTORY_SIZE) % HISTORY_SIZE;
        assert newest == Slot(next, 0) && EntryAt(ring, next, entries, 0);
        var order := Strcmp(ring[newest][..], buffer[..], entries[0], text);
        if order == 0 {
          return;
        }
      }
      StoreEntry();
    }

    /** Copy the line into the next slot and advance the ring. */
    method StoreEntry()
      requires Valid()
      modifies this, ring
      ensures Separate() && LineOk() && SavedOk() && RingOk()
      ensures entries == Truncate([text] + old(entries))
      ensures text == old(text) && length == old(length) && cursor == old(cursor) && view == old(view)
      ensures savedText == old(savedText) && savedLength == old(savedLength) && savedCursor == old(savedCursor)
    {
      ghost var before, slot := entries, next;
      assert forall k :: 0 <= k < count ==> EntryAt(ring, next, entries, k);
      Strcpy(ring[next], buffer, text);
      next := (next + 1) % HISTORY_SIZE;
      if count < HISTORY_SIZE {
        count := count + 1;
      }
      entries := Truncate([text] + before);
      forall k | 0 <= k < |entries|
        ensures EntryAt(ring, next, entries, k)
      {
        SlotAfterAdd(slot, k);
        if k > 0 {
          assert old(EntryAt(ring, next, entries, k - 1));
          assert entries[k] == before[k - 1] && ring[Slot(slot, k - 1)] != ring[slot];
        }
      }
    }

    /** shell_history_physical_index */
    method PhysicalIndex(k: nat) returns (slot: nat)
      requires Valid() && k < count
      ensures slot < HISTORY_SIZE && Holds(ring[slot][..], entries[k])
    {
      slot := (next - 1 - k + HISTORY_SIZE) % HISTORY_SIZE;
      assert EntryAt(ring, next, entries, k);
    }

    method SaveCurrentLine()
      requires Valid()
      modifies this, saved
      ensures Valid() && State() == old(State()).(saved := old(State()).line)
    {
      Strcpy(saved, buffer, text);
      savedLength := length;
      savedCursor := cursor;
      savedText := text;
    }

    /** shell_set_line on a history slot. */
    method SetLine(slot: nat, ghost t: string)
      requires Separate() && SavedOk() && RingOk() && slot < HISTORY_SIZE
      requires Holds(ring[slot][..], t) && |t| <= BUFFER_SIZE - 1 && -1 <= view < count
      modifies `length, `cursor, `text, buffer
      ensures Valid()
      ensures text == t && cursor == |t|
    {
      Strcpy(buffer, ring[slot], t);
      text := t;
      length := Strlen(buffer[..], t);
      cursor := length;
    }

    /** shell_history_prev: the Up key. */
    method HistoryPrev()
      requires Valid()
      modifies this, buffer, saved
      ensures Valid() && State() == PressUp(old(State()))
      ensures old(count) == 0 || old(view) == old(count) - 1 ==> State() == old(State())
    {
      if count == 0 {
        return;
      }
      if view == -1 {
        SaveCurrentLine();
        view := 0;
      } else if view < count - 1 {
        view := view + 1;
      } else {
        return;
      }
      LoadView();
    }

    /** Load the entry under view. */
    method LoadView()
      requires Valid() && view >= 0
      modifies `length, `cursor, `text, buffer
      ensures Valid() && State() == old(State()).(line := Line(entries[view], ""))
    {
      var slot := PhysicalIndex(view);
      SetLine(slot, entries[view]);
      assert text[..cursor] == text && text[cursor..] == "";
    }

    /** shell_history_next: the Down key. */
    method HistoryNext()
      requires Valid()
      modifies this, buffer
      ensures Valid() && State() == PressDown(old(State()))
      ensures old(count) == 0 || old(view) == -1 ==> State() == old(State())
    {
      if count == 0 || view == -1 {
        return;
      }
      ClearLine();
      if view > 0 {
        view := view - 1;
        LoadView();
      } else {
        view := -1;
        RestoreSavedLine();
      }
    }

    /** shell_clear_onscreen_command, without the screen. */
    method ClearLine()
      requires Valid()
      modifies `length, `cursor, `text, buffer
      ensures Valid() && text == "" && cursor == 0
    {
      while length > 0
        invariant Separate() && SavedOk() && RingOk()
      {
        length := length - 1;
      }
      buffer[0] := NUL;
      text := "";
      cursor := 0;
    }

    method RestoreSavedLine()
      requires Valid()
      modifies `length, `cursor, `text, buffer
      ensures Valid() && State() == old(State()).(line := old(State()).saved)
    {
      Strcpy(buffer, saved, savedText);
      length := savedLength;
      cursor := savedCursor;
      text := savedText;
    }

    /** shell_history_print: the entries oldest first, numbered up to -1. */
    method HistoryPrint() returns (lines: seq<(int, string)>)
      requires Valid()
      ensures |lines| == count
      ensures forall i :: 0 <= i < count ==> lines[i] == (-(count - i), entries[count - 1 - i])
    {
      lines := [];
      if count == 0 {
        return;
      }
      var start := (next - count + HISTORY_SIZE) % HISTORY_SIZE;
      for i := 0 to count
        invariant |lines| == i
        invariant forall k :: 0 <= k < i ==> lines[k] == (-(count - k), entries[count - 1 - k])
      {
        var slot := (start + i) % HISTORY_SIZE;
        assert slot == Slot(next, count - 1 - i);
        assert EntryAt(ring, next, entries, count - 1 - i);
        var line := ReadString(ring[slot][..], entries[count - 1 - i]);
        lines := lines + [(-(count - i), line)];
      }
    }

    // ---- Keys ----

    /** shell_handle_char for anything but Enter. */
    method HandleChar(c: char)
      requires Valid() && c != NUL && c != '\n'
      modifies this, buffer
      ensures Valid()
      ensures State() == Press(old(State()), if c == BACKSPACE then BackspaceKey else Char(c))
    {
      if view != -1 {
        view := -1;
      }
      if c == BACKSPACE {
        Backspace();
      } else {
        InsertChar(c);
      }
    }

    /** shell_handle_char for Enter, before and after the command runs: the
        handler is the latest one registered for the line's first word, and
        `args` is what it is called with. Exactly for a blank line the lookup is
        `wild`: it reads a first argument that was never set. */
    method HandleEnter<H>(argv: array<nat>, table: CommandTable.Table<H>)
      returns (args: seq<string>, handler: Option<H>, wild: bool)
      requires Valid() && MAX_ARGS <= argv.Length && Apart(argv)
      requires table.Valid() && Apart(table.buckets) && table.buckets as object != argv as object
      modifies this, buffer, saved, ring, argv
      ensures Valid() && State() == Press(old(State()), Enter)
      ensures table.Valid() && table.registered == old(table.registered)
      ensures args == Tokenizer.Split(old(text), MAX_ARGS)
      ensures wild <==> forall c :: c in old(text) ==> Tokenizer.Blank(c)
      ensures !wild ==> |args| > 0 && handler == CommandTable.Latest(table.registered, args[0])
    {
      hide Tokenizer.Split;
      hide Tokenizer.Blank;
      hide CommandTable.Latest;
      hide State;
      hide Press;
      hide RingOk;
      EnterClears();
      HoldsAt(buffer[..], text, length);
      buffer[length] := NUL;
      assert buffer[..] == old(buffer[..]);
      RecordLine();
      args, handler, wild := FindCommand(argv, table);
      ResetLine();
    }

    /** Any sequence of keys: the editor goes through the states of the abstract
        run, and from an empty history its entries are those of the lines
        submitted. Characters are what the keyboard can deliver as such. */
    method PressKeys<H>(keys: seq<Key>, argv: array<nat>, table: CommandTable.Table<H>)
      requires Valid() && MAX_ARGS <= argv.Length && Apart(argv)
      requires table.Valid() && Apart(table.buckets) && table.buckets as object != argv as object
      requires forall k :: k in keys && k.Char? ==> k.c != NUL && k.c != '\n' && k.c != BACKSPACE
      modifies this, buffer, saved, ring, argv
      ensures Valid() && State() == Presses(old(State()), keys)
      ensures old(entries) == [] ==> entries == Entered(Submitted(old(State()), keys))
    {
      ghost var start := State();
      for i := 0 to |keys|
        invariant Valid() && table.Valid()
        invariant Presses(State(), keys[i..]) == Presses(start, keys)
      {
        assert keys[i..][0] == keys[i] && keys[i..][1..] == keys[i + 1..];
        PressKey(keys[i], argv, table);
      }
      if start.history == [] {
        HistoryOverRun(start, [], keys);
        assert [] + Submitted(start, keys) == Submitted(start, keys);
      }
    }

    method PressKey<H>(key: Key, argv: array<nat>, table: CommandTable.Table<H>)
      requires Valid() && MAX_ARGS <= argv.Length && Apart(argv)
      requires table.Valid() && Apart(table.buckets) && table.buckets as object != argv as object
      requires key.Char? ==> key.c != NUL && key.c != '\n' && key.c != BACKSPACE
      modifies this, buffer, saved, ring, argv
      ensures Valid() && table.Valid() && State() == Press(old(State()), key)
    {
      hide Valid;
      hide Apart;
      hide LineSpec.Insert;
      hide LineSpec.Backspace;
      hide AddLine;
      hide PressUp;
      hide PressDown;
      match key {
        case Char(c) => HandleChar(c);
        case BackspaceKey => HandleChar(BACKSPACE);
        case DeleteKey => DeleteForward();
        case LeftKey => MoveLeft();
        case RightKey => MoveRight();
        case HomeKey => MoveHome();
        case EndKey => MoveEnd();
        case Up => HistoryPrev();
        case Down => HistoryNext();
        case Enter =>
          var args, handler, wild := HandleEnter(argv, table);
      }
    }

    lemma EnterClears()
      requires Valid()
      ensures ViewOk(State()) && Press(State(), Enter).line == EMPTY
    {
      hide AddLine;
    }

    method ResetLine()
      requires Separate() && SavedOk() && RingOk() && -1 <= view < count && cursor <= |text|
      modifies `length, `cursor, `text, buffer
      ensures Valid() && State() == old(State()).(line := EMPTY)
    {
      length, cursor, text := 0, 0, "";
      buffer[0] := NUL;
    }

    /** Put the line into the history and forget the view and the saved line. */
    method RecordLine()
      requires Valid()
      modifies this, saved, ring
      ensures Valid() && text == old(text)
      ensures State() == Press(old(State()), Enter).(line := old(State()).line)
    {
      assert text == text[..cursor] + text[cursor..];
      HistoryAdd();
      view := -1;
      saved[0] := NUL;
      savedLength, savedCursor, savedText := 0, 0, "";
      assert savedText[..savedCursor] == "" && savedText[savedCursor..] == "";
    }

    /** Tokenize the line in place, look the first word up and read the
        arguments back from the buffer. */
    method FindCommand<H>(argv: array<nat>, table: CommandTable.Table<H>)
      returns (args: seq<string>, handler: Option<H>, wild: bool)
      requires Separate() && LineOk() && MAX_ARGS <= argv.Length && argv as object != buffer as object
      requires table.Valid() && table.buckets as object != buffer as object && table.buckets as object != argv as object
      modifies buffer, argv
      ensures args == Tokenizer.Split(text, MAX_ARGS)
      ensures wild <==> forall c :: c in text ==> Tokenizer.Blank(c)
      ensures !wild ==> |args| > 0 && handler == CommandTable.Latest(table.registered, args[0])
    {
      hide Tokenizer.Split;
      var argc := Tokenizer.Tokenize(buffer, argv, MAX_ARGS, text);
      ghost var tokens, starts, memory := Tokenizer.Split(text, MAX_ARGS), argv[..argc], buffer[..];
      args, handler, wild := [], None, argc == 0;
      Tokenizer.NoArgumentsIffBlank(text, MAX_ARGS);
      if argc > 0 {
        assert Tokenizer.PlacedAt(memory, starts[0], tokens[0], |text| + 1);
        handler := table.Lookup(buffer[argv[0]..], tokens[0]);
      }
      for k := 0 to argc
        invariant args == tokens[..k] && argv[..argc] == starts && buffer[..] == memory
      {
        assert Tokenizer.PlacedAt(memory, starts[k], tokens[k], |text| + 1);
        var arg := ReadString(buffer[argv[k]..], tokens[k]);
        args := args + [arg];
      }
    }
  }

  lemma TextAround(t: string, k: nat, c: char)
    requires k <= |t|
    ensures var r := t[..k] + [c] + t[k..]; |r| == |t| + 1 && r[..k + 1] == t[..k] + [c] && r[k + 1..] == t[k..]
  {
  }

  /** The characters up to the terminator. */
  method ReadString(s: seq<char>, ghost t: string) returns (r: string)
    requires Holds(s, t)
    ensures r == t
  {
    var n := Strlen(s, t);
    r := s[..n];
  }

  /** After an addition the newest entry is in the slot just written and every
      other entry has moved one step back. */
  lemma SlotAfterAdd(next: int, k: int)
    requires 0 <= next < HISTORY_SIZE && 0 <= k < HISTORY_SIZE
    ensures k == 0 ==> Slot((next + 1) % HISTORY_SIZE, k) == next
    ensures k > 0 ==> Slot((next + 1) % HISTORY_SIZE, k) == Slot(next, k - 1) != next
  {
    SlotIs((next + 1) % HISTORY_SIZE, k);
    if k > 0 {
      SlotIs(next, k - 1);
    }
  }

  lemma SlotIs(next: int, k: int)
    requires 0 <= next < HISTORY_SIZE && 0 <= k < HISTORY_SIZE
    ensures Slot(next, k) == if k < next then next - 1 - k else next - 1 - k + HISTORY_SIZE
  {
  }
}
