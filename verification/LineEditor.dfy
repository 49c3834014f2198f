/** The line editor and its history as objects: a buffer edited in place, and an array of lines. */
module LineEditor {
  import opened Words
  import opened LineEdit

  class History {
    var slots: array?<Line>
    var len: nat
    var maxLen: nat

    constructor ()
      ensures Valid() && Contents() == [] && maxLen == 100
    {
      slots := null;
      len := 0;
      maxLen := 100;
    }

    predicate Valid()
      reads this
    {
      if slots == null then len == 0 else slots.Length == maxLen && len <= maxLen
    }

    function Contents(): (h: seq<Line>)
      requires Valid()
      reads this, slots
      ensures |h| == len
    {
      if slots == null then [] else slots[..len]
    }

    method Add(line: Line) returns (added: bool)
      requires Valid()
      modifies this, slots
      ensures Valid() && maxLen == old(maxLen) && (slots == old(slots) || fresh(slots))
      ensures Contents() == AddLine(old(Contents()), maxLen, line)
      ensures added <==> maxLen > 0 && (old(Contents()) == [] || old(Contents())[|old(Contents())| - 1] != line)
    {
      if maxLen == 0 { return false; }
      if slots == null {
        slots := new Line[maxLen](_ => []);
      }
      if len > 0 && slots[len - 1] == line { return false; }
      ghost var before := slots[..len];
      if len == maxLen {
        forall i | 0 <= i < maxLen - 1 { slots[i] := slots[i + 1]; }
        len := len - 1;
        assert slots[..len] == before[1..];
      }
      ghost var kept := slots[..len];
      slots[len] := line;
      len := len + 1;
      assert slots[..len] == kept + [line];
      return true;
    }

    /** A new array holding the last lines that fit. */
    method CopyNewest(n: nat) returns (longer: array<Line>)
      requires Valid() && slots != null && n > 0
      ensures fresh(longer) && longer.Length == n
      ensures longer[..if len > n then n else len] == LastN(Contents(), n)
    {
      var toCopy := len;
      longer := new Line[n](_ => []);
      if n < toCopy { toCopy := n; }
      forall i | 0 <= i < toCopy { longer[i] := slots[len - toCopy + i]; }
    }

    method SetMaxLen(n: int) returns (ok: bool)
      requires Valid()
      modifies this
      ensures Valid() && ok == (n >= 1) && (slots == old(slots) || fresh(slots))
      ensures maxLen == if n < 1 then old(maxLen) else n
      ensures Contents() == if n < 1 then old(Contents()) else LastN(old(Contents()), n)
    {
      if n < 1 { return false; }
      if slots != null {
        slots := CopyNewest(n);
      }
      maxLen := n;
      if len > maxLen { len := maxLen; }
      return true;
    }
  }

  /** A byte moved in by copying: `strncpy` to the capacity, then a NUL in the last place copied. */
  lemma CopiedLine(b: seq<byte>, line: Line, cap: nat)
    requires cap > 0 && |b| == cap + 1
    requires forall i :: 0 <= i < cap ==> b[i] == if i < |line| && i < cap - 1 then line[i] else 0
    ensures CString(b) == Cut(line, cap)
    ensures |Cut(line, cap)| < cap && b[|Cut(line, cap)|] == 0 && b[..|Cut(line, cap)|] == Cut(line, cap)
  {
    hide CString;
    var n := |Cut(line, cap)|;
    assert b[n] == 0;
    assert b[..n] == Cut(line, cap);
    CutHasNoNul(line, cap);
    CStringStops(b, n);
  }

  /** `memmove` of `n` bytes towards the front. */
  method CopyDown(b: array<byte>, to: nat, from: nat, n: nat)
    requires to <= from && from + n <= b.Length
    modifies b
    ensures b[..to] == old(b[..to]) && b[to..to + n] == old(b[from..from + n])
  {
    var i := 0;
    while i < n
      invariant 0 <= i <= n
      invariant forall k :: 0 <= k < to ==> b[k] == old(b[k])
      invariant forall k :: to <= k < to + i ==> b[k] == old(b[k + (from - to)])
      invariant forall k :: to + i <= k < b.Length ==> b[k] == old(b[k])
    {
      b[to + i] := b[from + i];
      i := i + 1;
    }
  }

  lemma CutHasNoNul(line: Line, cap: nat)
    requires cap > 0
    ensures 0 !in Cut(line, cap)
  {}

  lemma {:induction false} CStringStops(b: seq<byte>, n: nat)
    requires n < |b| && b[n] == 0
    ensures CString(b) == CString(b[..n])
    decreases n
  {
    if n > 0 && b[0] != 0 {
      CStringStops(b[1..], n - 1);
      assert b[..n][1..] == b[1..][..n - 1];
    }
  }

  lemma SkipsUnfold(s: seq<byte>)
    ensures SkipSpaces(s) == if s != [] && s[|s| - 1] == SPACE then SkipSpaces(s[..|s| - 1]) else s
    ensures SkipWord(s) == if s != [] && s[|s| - 1] != SPACE then SkipWord(s[..|s| - 1]) else s
  {}

  class Editor {
    const buf: array<byte>
    const history: History
    const multiline: bool
    var pos: nat
    var len: nat
    var index: nat
    var input: seq<byte>

    /** Starting to edit: an empty line, which becomes the newest history entry. */
    constructor (buf: array<byte>, history: History, multiline: bool, input: seq<byte>)
      requires buf.Length >= 2 && history.Valid() && history.maxLen > 0
      modifies buf, history, history.slots
      ensures this.buf == buf && this.history == history && this.multiline == multiline
      ensures Editing() &&
              View() == State(Zipper([], []), 0, AddLine(old(history.Contents()), history.maxLen, []), input)
    {
      this.buf := buf;
      this.history := history;
      this.multiline := multiline;
      this.input := input;
      pos, len, index := 0, 0, 0;
      new;
      buf[0] := 0;
      var _ := history.Add([]);
    }

    /** One byte is kept for the terminator. */
    function Cap(): int { buf.Length - 1 }

    predicate Valid()
      reads this, buf, history
    {
      Cap() > 0 && pos <= len <= Cap() && buf[len] == 0 && history.Valid()
    }

    predicate Editing()
      reads this, buf, history
    {
      Valid() && index < history.len
    }

    function Zip(): Zipper
      requires pos <= len < buf.Length
      reads this, buf
    {
      Zipper(buf[..pos], buf[pos..len])
    }

    function View(): State
      requires Valid()
      reads this, buf, history, history.slots
    {
      State(Zip(), index, history.Contents(), input)
    }

    method EditInsert(c: byte)
      requires Valid()
      modifies this`pos, this`len, buf
      ensures Valid() && Zip() == Insert(old(Zip()), c, Cap())
    {
      ghost var left, right := buf[..pos], buf[pos..len];
      assert |left + right| == len;
      if len < Cap() {
        if len == pos {
          buf[pos] := c;
          pos := pos + 1;
          len := len + 1;
          buf[len] := 0;
        } else {
          forall i | pos <= i < len { buf[i + 1] := buf[i]; }
          buf[pos] := c;
          len := len + 1;
          pos := pos + 1;
          buf[len] := 0;
        }
        assert buf[..pos] == left + [c];
        assert buf[pos..len] == right;
      }
    }

    method EditMoveLeft()
      requires Valid()
      modifies this`pos
      ensures Valid() && Zip() == MoveLeft(old(Zip()))
    {
      if pos > 0 {
        pos := pos - 1;
        assert buf[..pos] == old(buf[..pos])[..pos];
        assert buf[pos..len] == [buf[pos]] + old(buf[pos..len]);
      }
    }

    method EditMoveRight()
      requires Valid()
      modifies this`pos
      ensures Valid() && Zip() == MoveRight(old(Zip()))
    {
      if pos != len {
        pos := pos + 1;
        assert buf[..pos] == old(buf[..pos]) + [buf[pos - 1]];
        assert buf[pos..len] == old(buf[pos..len])[1..];
      }
    }

    method EditMoveHome()
      requires Valid()
      modifies this`pos
      ensures Valid() && Zip() == MoveHome(old(Zip()))
    {
      if pos != 0 {
        pos := 0;
      }
      assert buf[0..len] == old(buf[..pos]) + old(buf[pos..len]);
    }

    method EditMoveEnd()
      requires Valid()
      modifies this`pos
      ensures Valid() && Zip() == MoveEnd(old(Zip()))
    {
      if pos != len {
        pos := len;
      }
      assert buf[..len] == old(buf[..pos]) + old(buf[pos..len]);
    }

    method EditDelete()
      requires Valid()
      modifies this`len, buf
      ensures Valid() && Zip() == Delete(old(Zip()))
    {
      ghost var left, right := buf[..pos], buf[pos..len];
      if len > 0 && pos < len {
        forall i | pos <= i < len - 1 { buf[i] := buf[i + 1]; }
        len := len - 1;
        buf[len] := 0;
        assert buf[..pos] == left;
        assert buf[pos..len] == right[1..];
      }
    }

    method EditBackspace()
      requires Valid()
      modifies this`pos, this`len, buf
      ensures Valid() && Zip() == Backspace(old(Zip()))
    {
      ghost var left, right := buf[..pos], buf[pos..len];
      if pos > 0 && len > 0 {
        forall i | pos <= i < len { buf[i - 1] := buf[i]; }
        pos := pos - 1;
        len := len - 1;
        buf[len] := 0;
        assert buf[..pos] == left[..pos];
        assert buf[pos..len] == right;
      }
    }

    method EditDeletePrevWord()
      requires Valid()
      modifies this`pos, this`len, buf
      ensures Valid() && Zip() == DeletePrevWord(old(Zip()))
    {
      ghost var left, right := buf[..pos], buf[pos..len];
      var oldPos := pos;
      BackOverWord();
      MoveDown(oldPos);
      assert buf[..pos] == left[..pos];
    }

    /** `memmove` of everything from `from` on, terminator included, down to the cursor. */
    method MoveDown(from: nat)
      requires Valid() && pos <= from <= len
      modifies this`len, buf
      ensures Valid() && buf[..pos] == old(buf[..pos]) && buf[pos..len] == old(buf[from..len])
    {
      var diff := from - pos;
      CopyDown(buf, pos, from, len - from + 1);
      len := len - diff;
    }

    /** The two loops back over spaces and over the word. */
    method BackOverWord()
      requires Valid()
      modifies this`pos
      ensures pos <= old(pos) && buf[..pos] == SkipWord(SkipSpaces(old(buf[..pos])))
    {
      hide SkipWord, SkipSpaces;
      ghost var left := buf[..pos];
      while pos > 0 && buf[pos - 1] == SPACE
        invariant pos <= old(pos) && SkipSpaces(buf[..pos]) == SkipSpaces(left)
      {
        SkipsUnfold(buf[..pos]);
        assert buf[..pos][..pos - 1] == buf[..pos - 1];
        pos := pos - 1;
      }
      SkipsUnfold(buf[..pos]);
      ghost var word := buf[..pos];
      while pos > 0 && buf[pos - 1] != SPACE
        invariant pos <= old(pos) && SkipWord(buf[..pos]) == SkipWord(word)
      {
        SkipsUnfold(buf[..pos]);
        assert buf[..pos][..pos - 1] == buf[..pos - 1];
        pos := pos - 1;
      }
      SkipsUnfold(buf[..pos]);
    }

    method TransposeChars()
      requires Valid()
      modifies this`pos, buf
      ensures Valid() && Zip() == Transpose(old(Zip()))
    {
      ghost var left, right := buf[..pos], buf[pos..len];
      if pos > 0 && pos < len {
        var aux := buf[pos - 1];
        buf[pos - 1] := buf[pos];
        buf[pos] := aux;
        assert buf[..pos] == left[..|left| - 1] + [right[0]];
        assert buf[pos..len] == [aux] + right[1..];
        if pos != len - 1 {
          EditMoveRight();
        }
      }
    }

    method EditHistoryNext(up: bool)
      requires Editing()
      modifies this`pos, this`len, this`index, buf, history.slots
      ensures Editing() && View() == Recall(old(View()), up, Cap())
    {
      hide CString, Show;
      if history.len > 1 {
        SaveEntry();
        if up {
          if index + 1 >= history.len { return; }
          ShowEntry(index + 1);
        } else {
          if index == 0 { return; }
          ShowEntry(index - 1);
        }
      }
    }

    method ShowEntry(i: nat)
      requires Editing() && i < history.len
      modifies this`pos, this`len, this`index, buf
      ensures Editing() && View() == Show(old(View()), i, Cap())
    {
      hide Cut;
      index := i;
      CopyIn(history.slots[history.len - 1 - index]);
    }

    /** The entry being edited takes the text as it is now. */
    method SaveEntry()
      requires Editing()
      modifies history.slots
      ensures Editing()
      ensures View() == old(View()).(history := old(View()).history[history.len - 1 - index := CString(Zip().Text())])
    {
      hide CString;
      ghost var entries := history.Contents();
      WholeText();
      history.slots[history.len - 1 - index] := CString(buf[..]);
      assert history.Contents() == entries[history.len - 1 - index := CString(buf[..])];
    }

    /** `strncpy` into the buffer, a NUL at the capacity less one, and the cursor at the end. */
    method CopyIn(line: Line)
      requires Cap() > 0
      modifies this`pos, this`len, buf
      ensures pos <= len < Cap() && buf[len] == 0 && Zip() == Zipper(Cut(line, Cap()), [])
    {
      hide CString, Cut;
      forall i | 0 <= i < Cap() { buf[i] := if i < |line| then line[i] else 0; }
      buf[Cap() - 1] := 0;
      CopiedLine(buf[..], line, Cap());
      len := |CString(buf[..])|;
      pos := len;
      assert buf[..len] == buf[..][..len];
    }

    /** The letter after ESC [ that names a key. */
    method FeedBracket(c: byte)
      requires Editing()
      modifies this`pos, this`len, this`index, buf, history.slots
      ensures Editing() && View() == Act(old(View()), BracketKey(c), Cap())
    {
      hide CString, Recall, Show, MoveLeft, MoveRight, MoveHome, MoveEnd;
      if c == 65 { EditHistoryNext(true); return; }
      if c == 66 { EditHistoryNext(false); return; }
      if c == 67 { EditMoveRight(); return; }
      if c == 68 { EditMoveLeft(); return; }
      if c == 72 { EditMoveHome(); return; }
      if c == 70 { EditMoveEnd(); return; }
    }

    /** After ESC: reading the rest of the sequence and acting on it. */
    method FeedEscape()
      requires Editing()
      modifies this`pos, this`len, this`index, this`input, buf, history.slots
      ensures Editing()
      ensures var e := Escape(old(input)); View() == Act(old(View()).(input := old(input)[e.1..]), e.0, Cap())
    {
      hide Act, Delete, BracketKey;
      ActPlain(View(), Cap());
      if |input| < 1 { return; }
      var first := input[0];
      if |input| < 2 {
        input := input[1..];
        ActPlain(View(), Cap());
        return;
      }
      var second := input[1];
      if first == 91 && 48 <= second <= 57 {
        if |input| < 3 {
          input := input[2..];
          ActPlain(View(), Cap());
          return;
        }
        var third := input[2];
        input := input[3..];
        ActPlain(View(), Cap());
        if third == 126 && second == 51 { EditDelete(); }
        return;
      }
      input := input[2..];
      ActPlain(View(), Cap());
      if first == 91 {
        FeedBracket(second);
      } else if first == 79 && (second == 72 || second == 70) {
        FeedBracket(second);
      }
    }

    /** Keys that move the cursor. */
    method FeedMove(c: byte)
      requires Editing() && c in {1, 2, 5, 6}
      modifies this`pos
      ensures Editing() && View() == Act(old(View()), KeyCommand(c), Cap())
    {
      hide Recall, MoveLeft, MoveRight, MoveHome, MoveEnd;
      if c == 2 { EditMoveLeft(); return; }
      if c == 6 { EditMoveRight(); return; }
      if c == 1 { EditMoveHome(); return; }
      EditMoveEnd();
    }

    /** Keys that change the text. */
    method FeedChange(c: byte)
      requires Editing() && c !in {1, 2, 3, 4, 5, 6, 13, 14, 16, 27}
      modifies this`pos, this`len, buf
      ensures Editing() && View() == Act(old(View()), KeyCommand(c), Cap())
    {
      hide Insert, Transpose, DeletePrevWord, Backspace;
      if c == 127 || c == 8 { EditBackspace(); return; }
      if c == 20 { TransposeChars(); return; }
      if c == 21 {
        buf[0] := 0;
        pos, len := 0, 0;
        return;
      }
      if c == 11 {
        ghost var left := buf[..pos];
        buf[pos] := 0;
        len := pos;
        assert buf[..pos] == left;
        return;
      }
      if c == 12 { return; }
      if c == 23 { EditDeletePrevWord(); return; }
      EditInsert(c);
    }

    /** Any key but those that may end the session. */
    method FeedKey(c: byte)
      requires Editing() && c !in {3, 4, 13}
      modifies this`pos, this`len, this`index, this`input, buf, history.slots
      ensures Editing()
      ensures var k := RestOfKey(c, old(input));
        View() == Act(old(View()).(input := old(input)[k.1..]), k.0, Cap())
    {
      hide Recall, Edit, Escape;
      assert input[0..] == input;
      if c == 27 { FeedEscape(); return; }
      if c == 16 { EditHistoryNext(true); return; }
      if c == 14 { EditHistoryNext(false); return; }
      if c in {1, 2, 5, 6} { FeedMove(c); return; }
      FeedChange(c);
    }

    /** Ending the session drops its history entry. */
    method DropEntry()
      requires Editing()
      modifies history`len
      ensures Valid() && View() == old(View()).(history := DropLast(old(View()).history))
    {
      history.len := history.len - 1;
      assert history.Contents() == old(history.Contents())[..history.len];
    }

    /** One key: reading it and acting on it. */
    method EditFeed() returns (o: Outcome)
      requires Editing()
      modifies this`pos, this`len, this`index, this`input, buf, history`len, history.slots
      ensures Valid() && (View(), o) == Feed(old(View()), Cap(), multiline)
      ensures o.More? ==> Editing()
    {
      hide CString, Act, Delete, MoveEnd, RestOfKey, KeyCommand, DropLast;
      if input == [] { return NoInput; }
      FeedUnfold(View(), Cap(), multiline);
      var c := input[0];
      input := input[1..];
      if c == 13 {
        WholeText();
        DropEntry();
        if multiline { EditMoveEnd(); }
        return Done(CString(buf[..]));
      }
      if c == 3 { return Interrupted; }
      if c == 4 {
        WholeText();
        if len > 0 {
          EditDelete();
          return More;
        }
        DropEntry();
        return EndOfFile;
      }
      FeedKey(c);
      return More;
    }

    /** Keys until the line is done: the blocking interface. */
    method BlockingEdit() returns (o: Outcome)
      requires Editing()
      modifies this`pos, this`len, this`index, this`input, buf, history`len, history.slots
      ensures Valid() && (View(), o) == Session(old(View()), Cap(), multiline)
    {
      hide Feed;
      ghost var start := View();
      while true
        invariant Editing() && InBounds(start, Cap())
        invariant Session(View(), Cap(), multiline) == Session(start, Cap(), multiline)
        decreases |input|
      {
        FeedStays(View(), Cap(), multiline);
        o := EditFeed();
        if !o.More? { return; }
      }
    }

    lemma WholeText()
      requires Valid()
      ensures Zip().Text() == buf[..len] && CString(buf[..]) == CString(Zip().Text())
      ensures len > 0 <==> Zip().Text() != []
    {
      hide CString;
      CStringStops(buf[..], len);
      assert buf[..][..len] == buf[..len] == buf[..pos] + buf[pos..len];
    }
  }

  /** The command of a key whose first byte is read, and how much more of the input it takes. */
  function RestOfKey(c: byte, rest: seq<byte>): (k: (Command, nat))
    ensures k.1 <= |rest|
  {
    if c == 27 then Escape(rest) else (KeyCommand(c), 0)
  }

  lemma FeedUnfold(s: State, cap: nat, multiline: bool)
    requires InBounds(s, cap) && s.input != []
    ensures var c, rest := s.input[0], s.input[1..];
      var k := RestOfKey(c, rest);
      Feed(s, cap, multiline) ==
        if c == 13 then
          (State(if multiline then MoveEnd(s.z) else s.z, s.index, DropLast(s.history), rest),
           Done(CString(s.z.Text())))
        else if c == 3 then (s.(input := rest), Interrupted)
        else if c == 4 then
          if s.z.Text() == [] then (s.(history := DropLast(s.history), input := rest), EndOfFile)
          else (s.(z := Delete(s.z), input := rest), More)
        else (Act(s.(input := rest[k.1..]), k.0, cap), More)
  {
    hide CString, Act, Delete, MoveEnd, DropLast, Escape;
    var k := RestOfKey(s.input[0], s.input[1..]);
    assert s.input[1..][k.1..] == s.input[k.1 + 1..];
    EscapePlain(s.input[1..]);
  }

  lemma EscapePlain(rest: seq<byte>)
    ensures !Escape(rest).0.Enter? && !Escape(rest).0.Interrupt? && !Escape(rest).0.DeleteOrEof?
    ensures Escape(rest).1 <= |rest|
  {}

  lemma ActPlain(s: State, cap: nat)
    requires InBounds(s, cap)
    ensures Act(s, Nothing, cap) == s && Act(s, EraseRight, cap) == s.(z := Delete(s.z))
  {}
}
