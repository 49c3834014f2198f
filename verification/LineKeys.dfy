/** The keys of the line editor by the bytes they send: what becomes of the text and of the cursor. */
module LineKeys {
  import opened Words
  import opened LineEdit

  /** The editor shows `text` with the cursor before byte `p`; index and history stay, `rest` is to be read. */
  predicate Shows(t: State, s: State, text: seq<byte>, p: nat, rest: seq<byte>) {
    p <= |text| && t == State(Zipper(text[..p], text[p..]), s.index, s.history, rest)
  }

  lemma Parts(z: Zipper)
    ensures z.Text()[..|z.left|] == z.left && z.Text()[|z.left|..] == z.right
  {}

  lemma OneKey(s: State, c: byte, rest: seq<byte>)
    requires s.input == [c] + rest
    ensures s.input != [] && s.input[0] == c && s.input[1..] == rest
  {}

  /** Ctrl-A, Ctrl-E, Ctrl-B and Ctrl-F move the cursor to the start, to the end, and by one byte. */
  lemma MovingKeys(s: State, c: byte, rest: seq<byte>, cap: nat, multiline: bool)
    requires InBounds(s, cap) && s.input == [c] + rest && c in {1, 5, 2, 6}
    ensures var (t, o) := Feed(s, cap, multiline); var (text, p) := (s.z.Text(), |s.z.left|);
      && o == More
      && Shows(t, s, text,
               if c == 1 then 0
               else if c == 5 then |text|
               else if c == 2 then (if p > 0 then p - 1 else 0)
               else if p < |text| then p + 1 else p,
               rest)
  {
    hide CString, Recall;
    OneKey(s, c, rest);
    Parts(s.z);
    var text, p := s.z.Text(), |s.z.left|;
    if p > 0 { assert text[p - 1..] == [s.z.left[p - 1]] + s.z.right; }
    if p < |text| { assert text[..p + 1] == s.z.left + [s.z.right[0]]; }
  }

  /** Ctrl-H and Backspace take the byte before the cursor, Ctrl-D the one behind it, Ctrl-K all that is behind
      it and Ctrl-U everything. On an empty line Ctrl-D ends the session. */
  lemma ErasingKeys(s: State, c: byte, rest: seq<byte>, cap: nat, multiline: bool)
    requires InBounds(s, cap) && s.input == [c] + rest && c in {8, 127, 4, 11, 21}
    ensures var (t, o) := Feed(s, cap, multiline); var (text, p) := (s.z.Text(), |s.z.left|);
      if c == 4 && text == [] then o == EndOfFile && t == s.(history := DropLast(s.history), input := rest)
      else
        && o == More
        && if c == 11 then Shows(t, s, text[..p], p, rest)
           else if c == 21 then Shows(t, s, [], 0, rest)
           else if c == 4 then Shows(t, s, if p < |text| then text[..p] + text[p + 1..] else text, p, rest)
           else if p > 0 then Shows(t, s, text[..p - 1] + text[p..], p - 1, rest)
           else Shows(t, s, text, 0, rest)
  {
    hide CString, Recall;
    OneKey(s, c, rest);
    Parts(s.z);
    var text, p := s.z.Text(), |s.z.left|;
    if p > 0 { Joined(text[..p - 1], text[p..]); }
    if p < |text| { Joined(text[..p], text[p + 1..]); }
    Joined(text[..p], []);
    assert text[..p] + [] == text[..p];
  }

  lemma Joined(a: seq<byte>, b: seq<byte>)
    ensures (a + b)[..|a|] == a && (a + b)[|a|..] == b
  {}

  /** Ctrl-T exchanges the bytes around the cursor and moves on, but not past the end; at either end of the
      line it does nothing. Ctrl-W takes the spaces before the cursor and the word before them. */
  lemma RearrangingKeys(s: State, c: byte, rest: seq<byte>, cap: nat, multiline: bool)
    requires InBounds(s, cap) && s.input == [c] + rest && c in {20, 23}
    ensures var (t, o) := Feed(s, cap, multiline); var (text, p) := (s.z.Text(), |s.z.left|);
      && o == More
      && (c == 20 ==>
            if 0 < p < |text| then
              Shows(t, s, text[p - 1 := text[p]][p := text[p - 1]], if p == |text| - 1 then p else p + 1, rest)
            else Shows(t, s, text, p, rest))
      && (c == 23 ==> forall kept, m :: WordSplit(text[..p], kept, m) ==>
            Shows(t, s, kept + text[p..], |kept|, rest))
  {
    hide CString, Recall, SkipSpaces, SkipWord, WordSplit;
    OneKey(s, c, rest);
    Parts(s.z);
    var text, p := s.z.Text(), |s.z.left|;
    if c == 20 && 0 < p < |text| {
      TransposeIs(s.z);
    } else if c == 23 {
      forall kept, m | WordSplit(text[..p], kept, m)
        ensures Shows(Feed(s, cap, multiline).0, s, kept + text[p..], |kept|, rest)
      {
        DeletesOneWord(s.z);
        var n :| WordSplit(s.z.left, DeletePrevWord(s.z).left, n);
        WordSplitIsUnique(s.z.left, kept, DeletePrevWord(s.z).left, m, n);
        Joined(kept, text[p..]);
      }
    }
  }

  lemma TransposeIs(z: Zipper)
    requires z.left != [] && z.right != []
    ensures var (text, p) := (z.Text(), |z.left|);
      var (swapped, q) := (text[p - 1 := text[p]][p := text[p - 1]], if p == |text| - 1 then p else p + 1);
      Transpose(z) == Zipper(swapped[..q], swapped[q..])
  {
    hide Transpose;
    TransposeSwaps(z);
    Parts(Transpose(z));
  }

  /** Any other byte but ESC is typed while there is room. Ctrl-L leaves the line alone. */
  lemma TypingKeys(s: State, c: byte, rest: seq<byte>, cap: nat, multiline: bool)
    requires InBounds(s, cap) && s.input == [c] + rest
    requires c !in {1, 2, 3, 4, 5, 6, 8, 11, 13, 14, 16, 20, 21, 23, 27, 127}
    ensures var (t, o) := Feed(s, cap, multiline); var (text, p) := (s.z.Text(), |s.z.left|);
      && o == More
      && if c == 12 || |text| == cap then Shows(t, s, text, p, rest)
         else Shows(t, s, text[..p] + [c] + text[p..], p + 1, rest)
  {
    hide CString, Recall;
    OneKey(s, c, rest);
    Parts(s.z);
    Joined(s.z.left + [c], s.z.right);
  }

  /** Enter returns the line and Ctrl-C does not; both leave the text as it is. */
  lemma EndingKeys(s: State, c: byte, rest: seq<byte>, cap: nat, multiline: bool)
    requires InBounds(s, cap) && s.input == [c] + rest && c in {13, 3}
    ensures var (t, o) := Feed(s, cap, multiline); var (text, p) := (s.z.Text(), |s.z.left|);
      if c == 3 then o == Interrupted && Shows(t, s, text, p, rest)
      else
        && o.Done? && (0 !in text ==> o.line == text)
        && Shows(t, s.(history := DropLast(s.history)), text, if multiline then |text| else p, rest)
  {
    hide CString, Recall;
    OneKey(s, c, rest);
    Parts(s.z);
  }

  /** Ctrl-P and Ctrl-N, when there is more than the line itself: the text is kept in the history at its
      place; then the next older or newer line is shown, as far as it fits and with the cursor at its end.
      Behind the oldest and the newest the text stays. */
  lemma RecallingKeys(s: State, c: byte, rest: seq<byte>, cap: nat, multiline: bool)
    requires InBounds(s, cap) && s.input == [c] + rest && c in {16, 14}
    ensures var (t, o) := Feed(s, cap, multiline); var (text, p, n) := (s.z.Text(), |s.z.left|, |s.history|);
      && o == More
      && if n == 1 then Shows(t, s, text, p, rest)
         else
           && |t.history| == n && (0 !in text ==> t.history[n - 1 - s.index] == text)
           && (forall i :: 0 <= i < n && i != n - 1 - s.index ==> t.history[i] == s.history[i])
           && t.index == (if c == 14 then (if s.index == 0 then 0 else s.index - 1)
                          else if s.index + 1 == n then s.index else s.index + 1)
           && if t.index == s.index then t.z == s.z && t.input == rest
              else
                var line := s.history[n - 1 - t.index];
                Shows(t, t, if |line| < cap then line else line[..cap - 1],
                      if |line| < cap then |line| else cap - 1, rest)
  {
    hide CString;
    OneKey(s, c, rest);
    Parts(s.z);
  }

  // ---------- escape sequences ----------

  /** The arrows, Home and End send ESC, a bracket or an O, and a letter; they do what the control keys do. */
  function SameKey(second: byte, third: byte): Option<byte> {
    if second == 91 && third == 65 then Some(16)
    else if second == 91 && third == 66 then Some(14)
    else if second == 91 && third == 67 then Some(6)
    else if second == 91 && third == 68 then Some(2)
    else if second in {91, 79} && third == 72 then Some(1)
    else if second in {91, 79} && third == 70 then Some(5)
    else None
  }

  lemma EscapeKeys(s: State, second: byte, third: byte, rest: seq<byte>, cap: nat, multiline: bool)
    requires InBounds(s, cap) && s.input == [27, second, third] + rest && !(second == 91 && 48 <= third <= 57)
    ensures match SameKey(second, third)
            case Some(c) => Feed(s, cap, multiline) == Feed(s.(input := [c] + rest), cap, multiline)
            case None => Feed(s, cap, multiline) == (s.(input := rest), More)
  {
    hide CString, Recall;
    assert s.input[1..][2..] == rest && s.input[3..] == rest;
    if SameKey(second, third).Some? {
      OneKey(s.(input := [SameKey(second, third).value] + rest), SameKey(second, third).value, rest);
    }
  }

  /** Those with a digit are a byte longer; only that of Delete means anything, and it takes the byte behind
      the cursor. */
  lemma LongEscapeKeys(s: State, digit: byte, last: byte, rest: seq<byte>, cap: nat, multiline: bool)
    requires InBounds(s, cap) && s.input == [27, 91, digit, last] + rest && 48 <= digit <= 57
    ensures var (t, o) := Feed(s, cap, multiline); var (text, p) := (s.z.Text(), |s.z.left|);
      && o == More
      && if digit == 51 && last == 126 && p < |text| then Shows(t, s, text[..p] + text[p + 1..], p, rest)
         else Shows(t, s, text, p, rest)
  {
    hide CString, Recall;
    assert s.input[1..][3..] == rest && s.input[4..] == rest;
    Parts(s.z);
    var text, p := s.z.Text(), |s.z.left|;
    if p < |text| { Joined(text[..p], text[p + 1..]); }
  }
}
