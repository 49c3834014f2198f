/** Line editing: keys acting on the text left and right of the cursor, and the history of lines. */
module LineEdit {
  import opened Words

  /** A C string: no NUL inside. */
  type Line = s: seq<byte> | 0 !in s

  const SPACE: byte := 32

  datatype Zipper = Zipper(left: seq<byte>, right: seq<byte>) {
    function Text(): seq<byte> { left + right }
  }

  /** What a reader of the buffer as a C string sees. */
  function CString(s: seq<byte>): (r: Line)
    ensures |r| <= |s| && (0 !in s ==> r == s)
  {
    if s == [] || s[0] == 0 then [] else [s[0]] + CString(s[1..])
  }

  // ---------- editing ----------

  function Insert(z: Zipper, c: byte, cap: nat): Zipper {
    if |z.Text()| < cap then z.(left := z.left + [c]) else z
  }

  function MoveLeft(z: Zipper): Zipper {
    if z.left == [] then z
    else Zipper(z.left[..|z.left| - 1], [z.left[|z.left| - 1]] + z.right)
  }

  function MoveRight(z: Zipper): Zipper {
    if z.right == [] then z else Zipper(z.left + [z.right[0]], z.right[1..])
  }

  function MoveHome(z: Zipper): Zipper { Zipper([], z.Text()) }

  function MoveEnd(z: Zipper): Zipper { Zipper(z.Text(), []) }

  function Delete(z: Zipper): Zipper {
    if z.right == [] then z else z.(right := z.right[1..])
  }

  function Backspace(z: Zipper): Zipper {
    if z.left == [] then z else z.(left := z.left[..|z.left| - 1])
  }

  function SkipSpaces(s: seq<byte>): seq<byte> {
    if s != [] && s[|s| - 1] == SPACE then SkipSpaces(s[..|s| - 1]) else s
  }

  function SkipWord(s: seq<byte>): seq<byte> {
    if s != [] && s[|s| - 1] != SPACE then SkipWord(s[..|s| - 1]) else s
  }

  function DeletePrevWord(z: Zipper): Zipper { z.(left := SkipWord(SkipSpaces(z.left))) }

  /** Swaps the two bytes around the cursor and steps over them, except at the end of the line. */
  function Transpose(z: Zipper): Zipper {
    if z.left == [] || z.right == [] then z
    else
      var a, b := z.left[|z.left| - 1], z.right[0];
      var swapped := Zipper(z.left[..|z.left| - 1] + [b], [a] + z.right[1..]);
      if |z.right| == 1 then swapped else MoveRight(swapped)
  }

  // ---------- the history ----------

  function LastN<T>(s: seq<T>, n: nat): seq<T> { if |s| <= n then s else s[|s| - n..] }

  function AddLine(h: seq<Line>, max: nat, line: Line): seq<Line> {
    if max == 0 || (h != [] && h[|h| - 1] == line) then h
    else (if |h| == max then h[1..] else h) + [line]
  }

  /** The lines without immediate repetitions. */
  function Dedup(lines: seq<Line>): (r: seq<Line>)
    ensures lines == [] <==> r == []
    ensures lines != [] ==> r[|r| - 1] == lines[|lines| - 1]
  {
    if |lines| <= 1 then lines
    else
      var rest := Dedup(lines[..|lines| - 1]);
      if lines[|lines| - 2] == lines[|lines| - 1] then rest else rest + [lines[|lines| - 1]]
  }

  function AddAll(lines: seq<Line>, max: nat): seq<Line> {
    if lines == [] then [] else AddLine(AddAll(lines[..|lines| - 1], max), max, lines[|lines| - 1])
  }

  /** With a fixed maximum the history is the last lines of those added, immediate repetitions dropped. */
  lemma {:induction false} HistoryIsLastLines(lines: seq<Line>, max: nat)
    requires max > 0
    ensures AddAll(lines, max) == LastN(Dedup(lines), max)
  {
    hide AddLine, LastN, Dedup;
    if lines == [] {
      DedupNothing();
    } else {
      var before, line := lines[..|lines| - 1], lines[|lines| - 1];
      HistoryIsLastLines(before, max);
      DedupOneMore(before, line);
      assert lines == before + [line];
      AddToLast(Dedup(before), max, line);
    }
  }

  lemma DedupOneMore(lines: seq<Line>, line: Line)
    ensures Dedup(lines + [line]) ==
      if lines != [] && Dedup(lines)[|Dedup(lines)| - 1] == line then Dedup(lines) else Dedup(lines) + [line]
  {
    assert (lines + [line])[..|lines|] == lines;
  }

  lemma AddToLast(d: seq<Line>, max: nat, line: Line)
    requires max > 0
    ensures AddLine(LastN(d, max), max, line) == LastN(if d != [] && d[|d| - 1] == line then d else d + [line], max)
  {}

  lemma DedupNothing()
    ensures Dedup([]) == []
    ensures forall n: nat :: LastN<Line>([], n) == []
  {}

  datatype HistoryCall = AddCall(line: Line) | SetMaxCall(n: int)

  datatype HistoryState = HistoryState(entries: seq<Line>, max: nat)

  function HistoryStep(h: HistoryState, call: HistoryCall): HistoryState {
    match call
    case AddCall(line) => h.(entries := AddLine(h.entries, h.max, line))
    case SetMaxCall(n) => if n < 1 then h else HistoryState(LastN(h.entries, n), n)
  }

  function HistoryRun(h: HistoryState, calls: seq<HistoryCall>): HistoryState {
    if calls == [] then h else HistoryStep(HistoryRun(h, calls[..|calls| - 1]), calls[|calls| - 1])
  }

  function LinesAdded(calls: seq<HistoryCall>): seq<Line> {
    if calls == [] then []
    else
      var last := calls[|calls| - 1];
      LinesAdded(calls[..|calls| - 1]) + if last.AddCall? then [last.line] else []
  }

  predicate IsSuffix<T(==)>(a: seq<T>, b: seq<T>) {
    |a| <= |b| && forall i :: 0 <= i < |a| ==> a[i] == b[|b| - |a| + i]
  }

  /** However adds and changes of the maximum are mixed, the history is a tail of the lines added,
      immediate repetitions dropped: within the maximum, and not empty once a line was added. */
  lemma {:induction false} HistoryIsSuffix(max: nat, calls: seq<HistoryCall>)
    requires max > 0
    ensures var h := HistoryRun(HistoryState([], max), calls);
      && h.max > 0 && |h.entries| <= h.max
      && IsSuffix(h.entries, Dedup(LinesAdded(calls)))
      && (LinesAdded(calls) != [] ==> h.entries != [])
  {
    hide Dedup, AddLine, LastN, IsSuffix;
    if calls == [] {
      DedupNothing();
      NothingIsSuffix();
    } else {
      var front, call := calls[..|calls| - 1], calls[|calls| - 1];
      HistoryIsSuffix(max, front);
      var h := HistoryRun(HistoryState([], max), front);
      var lines := LinesAdded(front);
      assert lines + [] == lines;
      if call.AddCall? {
        AddKeepsSuffix(h, lines, call.line);
      } else {
        SetKeepsSuffix(h, lines, call.n);
      }
    }
  }

  lemma NothingIsSuffix()
    ensures IsSuffix<Line>([], [])
  {}

  lemma SetKeepsSuffix(h: HistoryState, lines: seq<Line>, n: int)
    requires h.max > 0 && |h.entries| <= h.max && IsSuffix(h.entries, Dedup(lines))
    ensures var next := HistoryStep(h, SetMaxCall(n));
      && next.max > 0 && |next.entries| <= next.max && IsSuffix(next.entries, Dedup(lines))
      && (h.entries != [] ==> next.entries != [])
  {
    hide Dedup, IsSuffix;
    if n >= 1 { LastIsSuffix(h.entries, Dedup(lines), n); }
  }

  /** A new maximum keeps as many of the latest lines as it allows; one below 1 changes nothing. */
  lemma SetMaxKeepsLatest(h: HistoryState, n: int)
    ensures var next := HistoryStep(h, SetMaxCall(n));
      if n < 1 then next == h
      else
        && next.max == n && IsSuffix(next.entries, h.entries)
        && |next.entries| == if |h.entries| < n then |h.entries| else n
  {}

  lemma LastIsSuffix(h: seq<Line>, d: seq<Line>, n: nat)
    requires IsSuffix(h, d)
    ensures IsSuffix(LastN(h, n), d)
  {}

  lemma AddKeepsSuffix(h: HistoryState, lines: seq<Line>, line: Line)
    requires h.max > 0 && |h.entries| <= h.max && IsSuffix(h.entries, Dedup(lines)) && (lines != [] ==> h.entries != [])
    ensures var next := AddLine(h.entries, h.max, line);
      |next| <= h.max && next != [] && IsSuffix(next, Dedup(lines + [line]))
  {
    hide Dedup, IsSuffix;
    DedupOneMore(lines, line);
    SuffixGrows(h.entries, Dedup(lines), line, h.max);
  }

  lemma SuffixGrows(h: seq<Line>, d: seq<Line>, line: Line, max: nat)
    requires max > 0 && IsSuffix(h, d) && (d != [] ==> h != [])
    ensures IsSuffix(AddLine(h, max, line), if d != [] && d[|d| - 1] == line then d else d + [line])
  {
    if h != [] { assert d[|d| - 1] == h[|h| - 1]; }
  }

  // ---------- keys ----------

  datatype Command =
    | Type(c: byte) | Enter | Interrupt | EraseLeft | EraseRight | DeleteOrEof | Swap
    | Left | Right | Home | End | Up | Down | KillLine | KillRight | KillWord | Nothing

  /** The byte after ESC and the two or three after it. A read that fails ends the sequence. */
  function Escape(rest: seq<byte>): (Command, nat) {
    if |rest| < 2 then (Nothing, |rest|)
    else if rest[0] == '[' as int then
      if '0' as int <= rest[1] <= '9' as int then
        if |rest| < 3 then (Nothing, 2)
        else (if rest[2] == '~' as int && rest[1] == '3' as int then EraseRight else Nothing, 3)
      else (BracketKey(rest[1]), 2)
    else if rest[0] == 'O' as int then (if rest[1] in {72, 70} then BracketKey(rest[1]) else Nothing, 2)
    else (Nothing, 2)
  }

  function BracketKey(c: byte): Command {
    if c == 'A' as int then Up
    else if c == 'B' as int then Down
    else if c == 'C' as int then Right
    else if c == 'D' as int then Left
    else if c == 'H' as int then Home
    else if c == 'F' as int then End
    else Nothing
  }

  function KeyCommand(c: byte): Command {
    match c
    case 1 => Home
    case 2 => Left
    case 3 => Interrupt
    case 4 => DeleteOrEof
    case 5 => End
    case 6 => Right
    case 8 => EraseLeft
    case 11 => KillRight
    case 12 => Nothing
    case 13 => Enter
    case 14 => Down
    case 16 => Up
    case 20 => Swap
    case 21 => KillLine
    case 23 => KillWord
    case 127 => EraseLeft
    case _ => Type(c)
  }

  /** The next key and how many bytes of input it takes. */
  function Decode(input: seq<byte>): (r: (Command, nat))
    requires input != []
    ensures 0 < r.1 <= |input| && (r.0.Type? ==> r.0.c == input[0])
  {
    if input[0] == 27 then
      var e := Escape(input[1..]);
      (e.0, e.1 + 1)
    else (KeyCommand(input[0]), 1)
  }

  function Edit(z: Zipper, cmd: Command, cap: nat): Zipper {
    match cmd
    case Type(c) => Insert(z, c, cap)
    case EraseLeft => Backspace(z)
    case EraseRight | DeleteOrEof => Delete(z)
    case Swap => Transpose(z)
    case Left => MoveLeft(z)
    case Right => MoveRight(z)
    case Home => MoveHome(z)
    case End => MoveEnd(z)
    case KillLine => Zipper([], [])
    case KillRight => z.(right := [])
    case KillWord => DeletePrevWord(z)
    case Enter | Interrupt | Up | Down | Nothing => z
  }

  /** The editor: `index` counts back from the newest history entry, which stands for the line being edited. */
  datatype State = State(z: Zipper, index: nat, history: seq<Line>, input: seq<byte>)

  predicate InBounds(s: State, cap: nat) { cap > 0 && |s.z.Text()| <= cap && s.index < |s.history| }

  /** A history entry as it comes into the buffer: cut to one byte less than the capacity. */
  function Cut(line: Line, cap: nat): seq<byte>
    requires cap > 0
  {
    if |line| < cap then line else line[..cap - 1]
  }

  function Recall(s: State, up: bool, cap: nat): State
    requires InBounds(s, cap)
  {
    if |s.history| <= 1 then s
    else
      var saved := s.(history := s.history[|s.history| - 1 - s.index := CString(s.z.Text())]);
      if up then
        if s.index + 1 >= |s.history| then saved else Show(saved, s.index + 1, cap)
      else
        if s.index == 0 then saved else Show(saved, s.index - 1, cap)
  }

  function Show(s: State, index: nat, cap: nat): State
    requires index < |s.history| && cap > 0
  {
    s.(index := index, z := Zipper(Cut(s.history[|s.history| - 1 - index], cap), []))
  }

  /** A key that neither ends the session nor may end it. */
  function Act(s: State, cmd: Command, cap: nat): State
    requires InBounds(s, cap)
  {
    match cmd
    case Up => Recall(s, true, cap)
    case Down => Recall(s, false, cap)
    case _ => s.(z := Edit(s.z, cmd, cap))
  }

  datatype Outcome = More | Done(line: Line) | Interrupted | EndOfFile | NoInput

  function DropLast<T>(s: seq<T>): seq<T> { if s == [] then [] else s[..|s| - 1] }

  /** One key. */
  function Feed(s: State, cap: nat, multiline: bool): (State, Outcome)
    requires InBounds(s, cap)
  {
    if s.input == [] then (s, NoInput)
    else
      var (cmd, n) := Decode(s.input);
      var t := s.(input := s.input[n..]);
      match cmd
      case Enter =>
        (t.(history := DropLast(s.history), z := if multiline then MoveEnd(s.z) else s.z), Done(CString(s.z.Text())))
      case Interrupt => (t, Interrupted)
      case DeleteOrEof =>
        if s.z.Text() == [] then (t.(history := DropLast(s.history)), EndOfFile)
        else (t.(z := Delete(s.z)), More)
      case _ => (Act(t, cmd, cap), More)
  }

  lemma FeedStays(s: State, cap: nat, multiline: bool)
    requires InBounds(s, cap)
    ensures var (t, o) := Feed(s, cap, multiline);
      && |t.z.Text()| <= cap && |t.input| + (if o.NoInput? then 0 else 1) <= |s.input|
      && (o.More? ==> InBounds(t, cap) && |t.history| == |s.history|)
  {
    hide CString, Decode, Edit, Show;
    if s.input != [] {
      var (cmd, n) := Decode(s.input);
      EditFits(s.z, cmd, cap);
      EditFits(s.z, End, cap);
      EditFits(s.z, EraseRight, cap);
      UnfoldEdits(s.z, cap);
      var t := s.(input := s.input[n..]);
      RecallStays(t, true, cap);
      RecallStays(t, false, cap);
    }
  }

  lemma UnfoldEdits(z: Zipper, cap: nat)
    ensures Edit(z, End, cap) == MoveEnd(z) && Edit(z, EraseRight, cap) == Delete(z)
  {}

  lemma EditFits(z: Zipper, cmd: Command, cap: nat)
    requires |z.Text()| <= cap
    ensures |Edit(z, cmd, cap).Text()| <= cap
  {
    WordShrinks(z.left);
  }

  lemma RecallStays(s: State, up: bool, cap: nat)
    requires InBounds(s, cap)
    ensures var t := Recall(s, up, cap);
      InBounds(t, cap) && |t.history| == |s.history| && t.input == s.input
  {
    hide CString;
  }

  lemma WordShrinks(s: seq<byte>)
    ensures SkipSpaces(s) <= s && SkipWord(SkipSpaces(s)) <= s
  {
    SpacesPrefix(s);
    WordPrefix(SkipSpaces(s));
  }

  lemma {:induction false} SpacesPrefix(s: seq<byte>)
    ensures SkipSpaces(s) <= s
    ensures forall i :: |SkipSpaces(s)| <= i < |s| ==> s[i] == SPACE
  {
    if s != [] && s[|s| - 1] == SPACE { SpacesPrefix(s[..|s| - 1]); }
  }

  lemma {:induction false} WordPrefix(s: seq<byte>)
    ensures SkipWord(s) <= s
    ensures forall i :: |SkipWord(s)| <= i < |s| ==> s[i] != SPACE
    ensures SkipWord(s) == [] || SkipWord(s)[|SkipWord(s)| - 1] == SPACE
  {
    if s != [] && s[|s| - 1] != SPACE { WordPrefix(s[..|s| - 1]); }
  }

  /** Keys until the line is done or the input runs out. */
  function Session(s: State, cap: nat, multiline: bool): (State, Outcome)
    requires InBounds(s, cap)
    decreases |s.input|
  {
    FeedStays(s, cap, multiline);
    var (t, o) := Feed(s, cap, multiline);
    if o.More? then Session(t, cap, multiline) else (t, o)
  }

  // ---------- what the keys mean ----------

  /** Cursor movements leave the text alone. */
  lemma MovesKeepText(z: Zipper)
    ensures MoveLeft(z).Text() == MoveRight(z).Text() == MoveHome(z).Text() == MoveEnd(z).Text() == z.Text()
    ensures z.left != [] ==> MoveRight(MoveLeft(z)) == z
    ensures z.right != [] ==> MoveLeft(MoveRight(z)) == z
  {
    if z.left != [] { assert z.left == z.left[..|z.left| - 1] + [z.left[|z.left| - 1]]; }
    if z.right != [] { assert z.right == [z.right[0]] + z.right[1..]; }
  }

  /** Erasing to the left undoes typing exactly when there was room for the byte or nothing to erase. */
  lemma BackspaceUndoesInsertExactlyWhen(z: Zipper, c: byte, cap: nat)
    ensures Backspace(Insert(z, c, cap)) == z <==> |z.Text()| < cap || z.left == []
  {
    if |z.Text()| < cap { assert (z.left + [c])[..|z.left|] == z.left; }
  }

  /** Typing a whole string puts what fits of it left of the cursor. */
  lemma {:induction false} TypingInserts(z: Zipper, s: seq<byte>, cap: nat)
    requires |z.Text()| <= cap
    ensures var room := cap - |z.Text()|;
      TypeAll(z, s, cap) == z.(left := z.left + if |s| <= room then s else s[..room])
    decreases |s|
  {
    if s == [] {
      assert z.left + [] == z.left;
    } else {
      TypingInserts(Insert(z, s[0], cap), s[1..], cap);
      var room := cap - |z.Text()|;
      if room == 0 {
        assert z.left + s[..0] == z.left && z.left + s[1..][..0] == z.left;
        if |s| == 1 { assert z.left + s[1..] == z.left; }
      } else {
        assert s == [s[0]] + s[1..];
        assert z.left + [s[0]] + s[1..] == z.left + s;
        if |s| > room { assert z.left + [s[0]] + s[1..][..room - 1] == z.left + s[..room]; }
      }
    }
  }

  function TypeAll(z: Zipper, s: seq<byte>, cap: nat): Zipper
    decreases |s|
  {
    if s == [] then z else TypeAll(Insert(z, s[0], cap), s[1..], cap)
  }

  /** `left` is `kept`, then a word up to `m`, then spaces. */
  predicate WordSplit(left: seq<byte>, kept: seq<byte>, m: nat) {
    && kept <= left && |kept| <= m <= |left|
    && (kept == [] || kept[|kept| - 1] == SPACE)
    && (forall i :: |kept| <= i < m ==> left[i] != SPACE)
    && (forall i :: m <= i < |left| ==> left[i] == SPACE)
    && (m == |kept| ==> kept == [])
  }

  /** Deleting a word removes the spaces before the cursor and the whole word before them, and nothing
      right of the cursor. */
  lemma DeletesOneWord(z: Zipper)
    ensures DeletePrevWord(z).right == z.right
    ensures exists m: nat :: WordSplit(z.left, DeletePrevWord(z).left, m)
  {
    hide SkipSpaces, SkipWord;
    var inner := SkipSpaces(z.left);
    SpacesPrefix(z.left);
    SpacesEnd(z.left);
    WordPrefix(inner);
    assert WordSplit(z.left, SkipWord(inner), |inner|);
  }

  /** There is only one such split, so this says which bytes go. */
  lemma WordSplitIsUnique(left: seq<byte>, a: seq<byte>, b: seq<byte>, m: nat, n: nat)
    requires WordSplit(left, a, m) && WordSplit(left, b, n)
    ensures a == b
  {
    assert n > |b| ==> left[n - 1] != SPACE;
    assert m > |a| ==> left[m - 1] != SPACE;
    assert a != [] ==> left[|a| - 1] == SPACE;
    assert b != [] ==> left[|b| - 1] == SPACE;
  }

  lemma {:induction false} SpacesEnd(s: seq<byte>)
    ensures SkipSpaces(s) == [] || SkipSpaces(s)[|SkipSpaces(s)| - 1] != SPACE
  {
    if s != [] && s[|s| - 1] == SPACE { SpacesEnd(s[..|s| - 1]); }
  }

  /** Swapping only exchanges two neighbours: the cursor's position is where it was or one further. */
  lemma TransposeSwaps(z: Zipper)
    requires z.left != [] && z.right != []
    ensures var p, t, u := |z.left|, z.Text(), Transpose(z).Text();
      && u == t[p - 1 := t[p]][p := t[p - 1]]
      && |Transpose(z).left| == (if p == |t| - 1 then p else p + 1)
  {
    hide MoveRight;
    var l, a, b, r := z.left[..|z.left| - 1], z.left[|z.left| - 1], z.right[0], z.right[1..];
    var swapped := Zipper(l + [b], [a] + r);
    MovesKeepText(swapped);
    StepsOver(swapped);
    assert z.left == l + [a] && z.right == [b] + r;
    Exchange(l, a, b, r);
  }

  lemma StepsOver(z: Zipper)
    ensures z.right != [] ==> |MoveRight(z).left| == |z.left| + 1
  {}

  lemma Exchange(l: seq<byte>, a: byte, b: byte, r: seq<byte>)
    ensures (l + [a] + ([b] + r))[|l| := b][|l| + 1 := a] == l + [b] + ([a] + r)
  {}

  /** The whole session keeps the text within the capacity and, fed no NUL, free of NULs. */
  lemma {:induction false} SessionKeepsText(s: State, cap: nat, multiline: bool)
    requires InBounds(s, cap) && 0 !in s.input && 0 !in s.z.Text()
    ensures var (t, o) := Session(s, cap, multiline);
      && |t.z.Text()| <= cap && 0 !in t.z.Text()
      && (o.Done? ==> o.line == t.z.Text())
    decreases |s.input|
  {
    hide Feed;
    FeedStays(s, cap, multiline);
    FeedKeepsText(s, cap, multiline);
    var (t, o) := Feed(s, cap, multiline);
    if o.More? { SessionKeepsText(t, cap, multiline); }
  }

  lemma FeedKeepsText(s: State, cap: nat, multiline: bool)
    requires InBounds(s, cap) && 0 !in s.input && 0 !in s.z.Text()
    ensures var (t, o) := Feed(s, cap, multiline);
      0 !in t.z.Text() && 0 !in t.input && (o.Done? ==> o.line == t.z.Text())
  {
    hide CString, Decode;
    if s.input != [] {
      var (cmd, n) := Decode(s.input);
      assert cmd.Type? ==> cmd.c in s.input;
      EditKeepsText(s.z, cmd, cap);
      MovesKeepText(s.z);
      assert CString(s.z.Text()) == s.z.Text();
    }
  }

  lemma EditKeepsText(z: Zipper, cmd: Command, cap: nat)
    requires 0 !in z.Text() && (cmd.Type? ==> cmd.c != 0)
    ensures 0 !in Edit(z, cmd, cap).Text()
  {
    hide Transpose, SkipSpaces, SkipWord, MoveLeft, MoveRight, MoveHome, MoveEnd;
    MovesKeepText(z);
    InParts(z);
    WordShrinks(z.left);
    SwapKeepsText(z);
  }

  lemma InParts(z: Zipper)
    requires 0 !in z.Text()
    ensures 0 !in z.left && 0 !in z.right
  {
    forall b | b in z.left || b in z.right ensures b in z.Text() {}
  }

  lemma SwapKeepsText(z: Zipper)
    requires 0 !in z.Text()
    ensures 0 !in Transpose(z).Text()
  {
    if z.left != [] && z.right != [] {
      TransposeSwaps(z);
    }
  }

  /** Up and then Down, away from the oldest entry, brings the line back with the cursor at its end
      exactly when the line is shorter than the capacity and holds no NUL. */
  lemma UpDownRestoresExactlyWhen(s: State, cap: nat)
    requires InBounds(s, cap) && s.index + 1 < |s.history|
    ensures InBounds(Recall(s, true, cap), cap)
    ensures var back := Recall(Recall(s, true, cap), false, cap);
      && back.index == s.index
      && (back.z == MoveEnd(s.z) <==> |s.z.Text()| < cap && 0 !in s.z.Text())
  {
    hide CString;
    var text := s.z.Text();
    var up := Recall(s, true, cap);
    CutFits(up.history[|s.history| - 1 - up.index], cap);
    CStringHolds(text);
    assert Recall(up, false, cap).z == Zipper(Cut(CString(text), cap), []);
  }

  lemma CutFits(line: Line, cap: nat)
    requires cap > 0
    ensures |Cut(line, cap)| < cap && 0 !in Cut(line, cap)
  {}

  lemma CStringHolds(s: seq<byte>)
    ensures CString(s) == s <==> 0 !in s
  {}

  /** Where a session starts: an empty line that has been added to the history. */
  function Start(h: seq<Line>, max: nat, input: seq<byte>): State {
    State(Zipper([], []), 0, AddLine(h, max, []), input)
  }

  /** No key of the session, up to the one that ends it, recalls a line. */
  predicate NoRecall(s: State, cap: nat, multiline: bool)
    requires InBounds(s, cap)
    decreases |s.input|
  {
    FeedStays(s, cap, multiline);
    s.input == [] || (
      && Decode(s.input).0 !in {Up, Down}
      && (Feed(s, cap, multiline).1.More? ==> NoRecall(Feed(s, cap, multiline).0, cap, multiline))
    )
  }

  /** Such a session leaves the history as it is, but for the entry that Enter and end of file drop. */
  lemma {:induction false} NoRecallKeepsHistory(s: State, cap: nat, multiline: bool)
    requires InBounds(s, cap) && NoRecall(s, cap, multiline)
    ensures var (t, o) := Session(s, cap, multiline);
      t.history == if o.Done? || o.EndOfFile? then DropLast(s.history) else s.history
    decreases |s.input|
  {
    hide Decode, Edit, CString, MoveEnd, Delete, Recall;
    FeedStays(s, cap, multiline);
    var (t, o) := Feed(s, cap, multiline);
    if o.More? { NoRecallKeepsHistory(t, cap, multiline); }
  }

  /** The line being edited is the session's own, or is a recalled one that has not been changed. */
  predicate Untouched(s: State)
    requires s.index < |s.history|
  {
    |s.history| <= 1 || s.index == 0 || CString(s.z.Text()) == s.history[|s.history| - 1 - s.index]
  }

  /** A recall key leaves the earlier lines of the history alone exactly when it is pressed on such a line:
      otherwise the edited text replaces the line recalled. */
  lemma RecallKeepsLinesExactlyWhen(s: State, up: bool, cap: nat)
    requires InBounds(s, cap)
    ensures DropLast(Recall(s, up, cap).history) == DropLast(s.history) <==> Untouched(s)
  {
    hide CString, Cut;
    var n := |s.history| - 1;
    if n > 0 {
      var i, text := n - s.index, CString(s.z.Text());
      assert Recall(s, up, cap).history == s.history[i := text];
      if i < n {
        assert s.history[i := text][..n] == s.history[..n][i := text];
        assert s.history[..n][i := text][i] == text && s.history[..n][i] == s.history[i];
        if text == s.history[i] { assert s.history[..n][i := text] == s.history[..n]; }
      } else {
        assert s.history[i := text][..n] == s.history[..n];
      }
    }
  }

  /** Recall keys are pressed on untouched lines only: the session browses the history but does not edit
      what it finds, unless to enter it. */
  predicate OnlyBrowses(s: State, cap: nat, multiline: bool)
    requires InBounds(s, cap)
    decreases |s.input|
  {
    FeedStays(s, cap, multiline);
    s.input == [] || (
      && (Decode(s.input).0 in {Up, Down} ==> Untouched(s))
      && (Feed(s, cap, multiline).1.More? ==> OnlyBrowses(Feed(s, cap, multiline).0, cap, multiline))
    )
  }

  /** Such a session leaves all lines but its own as they are. */
  lemma {:induction false} BrowsingKeepsLines(s: State, cap: nat, multiline: bool)
    requires InBounds(s, cap) && OnlyBrowses(s, cap, multiline)
    ensures var (t, o) := Session(s, cap, multiline);
      if o.Done? || o.EndOfFile? then t.history == DropLast(s.history)
      else |t.history| == |s.history| && DropLast(t.history) == DropLast(s.history)
    decreases |s.input|
  {
    hide Decode, Edit, CString, MoveEnd, Delete, Recall, Untouched;
    FeedStays(s, cap, multiline);
    var (t, o) := Feed(s, cap, multiline);
    if s.input != [] {
      var left := s.(input := s.input[Decode(s.input).1..]);
      UntouchedByInput(s, left);
      RecallKeepsLinesExactlyWhen(left, true, cap);
      RecallKeepsLinesExactlyWhen(left, false, cap);
    }
    if o.More? { BrowsingKeepsLines(t, cap, multiline); }
  }

  lemma UntouchedByInput(s: State, t: State)
    requires s.index < |s.history| && t == s.(input := t.input)
    ensures Untouched(s) <==> Untouched(t)
  {}

  /** A session that only browses and ends with Enter or end of file leaves the history as it was, except
      that a full history has lost its oldest line and that an empty last line is taken for the session's
      own and dropped. Interrupted, it leaves its own line behind, which is empty if no line was
      recalled. */
  lemma SessionSlotComesAndGoes(h: seq<Line>, max: nat, input: seq<byte>, cap: nat, multiline: bool)
    requires max > 0 && |h| <= max && cap > 0
    requires OnlyBrowses(Start(h, max, input), cap, multiline)
    ensures InBounds(Start(h, max, input), cap)
    ensures var (t, o) := Session(Start(h, max, input), cap, multiline);
      var kept :=
        if h != [] && h[|h| - 1] == [] then DropLast(h) else if |h| == max then h[1..] else h;
      if o.Done? || o.EndOfFile? then t.history == kept
      else
        && |t.history| == |kept| + 1 && DropLast(t.history) == kept
        && (NoRecall(Start(h, max, input), cap, multiline) ==> t.history == AddLine(h, max, []))
  {
    hide NoRecall, OnlyBrowses, Session;
    BrowsingKeepsLines(Start(h, max, input), cap, multiline);
    if NoRecall(Start(h, max, input), cap, multiline) {
      NoRecallKeepsHistory(Start(h, max, input), cap, multiline);
    }
    SlotDropped(h, max);
  }

  lemma SlotDropped(h: seq<Line>, max: nat)
    requires max > 0 && |h| <= max
    ensures DropLast(AddLine(h, max, [])) ==
      if h != [] && h[|h| - 1] == [] then DropLast(h) else if |h| == max then h[1..] else h
  {
    var room := if |h| == max then h[1..] else h;
    assert (room + [[]])[..|room|] == room;
  }

  /** Recall keys do change the history: Ctrl-P, x, Ctrl-P, Enter rewrites the line "a" as "ax", since
      the edited text is saved before the bounds are checked. */
  lemma RecallRewritesHistory(max: nat, cap: nat, multiline: bool)
    requires max > 1 && cap > 2
    ensures var s := Start([[97]], max, [16, 120, 16, 13]);
      InBounds(s, cap) && Session(s, cap, multiline).0.history == [[97, 120]] && Session(s, cap, multiline).1.Done?
  {
    var s0 := Start([[97]], max, [16, 120, 16, 13]);
    assert s0.history == [[97], []];
    var s1 := State(Zipper([97], []), 1, [[97], []], [120, 16, 13]);
    FirstKey(s0, cap, multiline, s1);
    var s2 := State(Zipper([97, 120], []), 1, [[97], []], [16, 13]);
    TypedKey(s1, cap, multiline, s2);
    var s3 := State(Zipper([97, 120], []), 1, [[97, 120], []], [13]);
    RecallSaves(s2, cap, multiline, s3);
    LastKey(s3, cap, multiline);
    SessionUnfold(s2, cap, multiline);
    SessionUnfold(s1, cap, multiline);
    SessionUnfold(s0, cap, multiline);
  }

  lemma FirstKey(s: State, cap: nat, multiline: bool, t: State)
    requires cap > 2 && s == State(Zipper([], []), 0, [[97], []], [16, 120, 16, 13])
    requires t == State(Zipper([97], []), 1, [[97], []], [120, 16, 13])
    ensures Feed(s, cap, multiline) == (t, More)
  {
    assert s.input[1..] == t.input;
    assert s.z.Text() == [] && CString(s.z.Text()) == [];
    assert s.history[1 := []] == t.history;
  }

  lemma TypedKey(s: State, cap: nat, multiline: bool, t: State)
    requires cap > 2 && s == State(Zipper([97], []), 1, [[97], []], [120, 16, 13])
    requires t == State(Zipper([97, 120], []), 1, [[97], []], [16, 13])
    ensures Feed(s, cap, multiline) == (t, More)
  {
    assert s.input[1..] == t.input;
    assert |s.z.Text()| == 1;
    assert s.z.left + [120] == t.z.left;
  }

  lemma RecallSaves(s: State, cap: nat, multiline: bool, t: State)
    requires cap > 2 && s == State(Zipper([97, 120], []), 1, [[97], []], [16, 13])
    requires t == State(Zipper([97, 120], []), 1, [[97, 120], []], [13])
    ensures Feed(s, cap, multiline) == (t, More)
  {
    assert s.input[1..] == t.input;
    assert s.z.Text() == [97, 120] && CString(s.z.Text()) == [97, 120];
    assert s.history[0 := [97, 120]] == t.history;
  }

  lemma LastKey(s: State, cap: nat, multiline: bool)
    requires cap > 2 && s == State(Zipper([97, 120], []), 1, [[97, 120], []], [13])
    ensures Session(s, cap, multiline).0.history == [[97, 120]] && Session(s, cap, multiline).1.Done?
  {
    hide CString, MoveEnd;
  }

  lemma SessionUnfold(s: State, cap: nat, multiline: bool)
    requires InBounds(s, cap)
    ensures var (t, o) := Feed(s, cap, multiline);
      o.More? ==> InBounds(t, cap) && Session(s, cap, multiline) == Session(t, cap, multiline)
  {
    hide Feed;
    FeedStays(s, cap, multiline);
  }
}
