/** Line tables with define_file entries whose directory does not exist: when sharing the file list is
    still invisible, exactly. */
module BadDirectories {
  import opened Words
  import opened Sections
  import opened LineProgram
  import opened FileLists
  import opened LineAssembler
  import opened SharedFiles

  // ---------- a reader alone, up to the entry that stops it ----------

  /** A reader alone, before it stops: its list has what it has passed, all of it with good directories. */
  predicate Lone(h: Header, sec: Section, start: nat, base: Files, pos: nat, fs: Files) {
    && FilesInv(h, sec, start, base, fs) && ReaderInv(h, sec, start, pos, fs) && fs.lastEnd <= pos
    && GoodDirs(h, sec, start, pos)
  }

  /** Passing an instruction adds at most its own entry. */
  lemma PassedDirs(h: Header, sec: Section, start: nat, pos: nat)
    requires Reach(h, sec, start, pos) && Decode(h, sec, pos).Ok? && GoodDirs(h, sec, start, pos)
    ensures var d := Decode(h, sec, pos).value;
      GoodDirs(h, sec, start, d.next)
      <==> (d.instr.DefineFile? ==> HasPlace(h, EntryOf(d)))
  {
    hide Decode, Defined, Reach, HasPlace;
    var d := Decode(h, sec, pos).value;
    DecodeGrows(h, sec, pos);
    DefinedEnds(h, sec, start, pos);
    DefinedStep(h, sec, start, pos, pos);
    if d.instr.DefineFile? {
      assert EntryOf(d) in Defined(h, sec, start, pos) + [EntryOf(d)];
    } else {
      DefinedNoMore(h, sec, start, pos, d.next);
    }
  }

  /** One step of a reader alone. */
  lemma LoneStep(h: Header, sec: Section, start: nat, base: Files, pos: nat, m: Machine)
    requires h.Accepted() && Lone(h, sec, start, base, pos, m.files)
    ensures match Step(h, sec, pos, m)
            case Failed(e, files) =>
              var stop := RunStop(h, sec, pos, m);
              !GoodDirs(h, sec, start, stop.pos) ==>
                && e == FormatError && FilesInv(h, sec, start, base, files) && files.lastEnd == stop.pos
                && Decode(h, sec, pos).Ok?
                && Decode(h, sec, pos).value == Decoded(Decode(h, sec, pos).value.instr, stop.pos, stop.fits)
                && Decode(h, sec, pos).value.instr.DefineFile? && stop.regs == m.regs
            case s => Lone(h, sec, start, base, s.next, s.m.files)
  {
    hide Decode, FilesInv, ReaderInv, Exec, GoodDirs, Defined, Reach;
    if Decode(h, sec, pos).Ok? {
      LoneReaches(h, sec, start, base, pos, m.files);
      PassKeeps(h, sec, start, base, pos, m.files);
      PassedDirs(h, sec, start, pos);
      DecodeGrows(h, sec, pos);
    }
  }

  lemma LoneReaches(h: Header, sec: Section, start: nat, base: Files, pos: nat, fs: Files)
    requires Lone(h, sec, start, base, pos, fs)
    ensures Reach(h, sec, start, pos)
  {}

  /** A step over a list that has everything the step could add. */
  lemma SkipStep(h: Header, sec: Section, pos: nat, g: Row, solo: Files, fs: Files)
    requires h.Accepted() && Decode(h, sec, pos).Ok? && Decode(h, sec, pos).value.next <= fs.lastEnd
    ensures var d := Decode(h, sec, pos).value;
      match Step(h, sec, pos, Machine(g, solo))
      case Silent(m, next) => Step(h, sec, pos, Machine(g, fs)) == Silent(Machine(m.regs, fs), next)
      case Emitted(m, row, next) => Step(h, sec, pos, Machine(g, fs)) == Emitted(Machine(m.regs, fs), row, next)
      case Failed(_, _) =>
        d.instr.DefineFile? ==>
          Step(h, sec, pos, Machine(g, fs)) ==
            if d.fits then Silent(Machine(g, fs), d.next) else Failed(FormatError, fs)
  {
    hide Decode;
    if !Decode(h, sec, pos).value.instr.DefineFile? { hide Exec; }
  }

  /** A run to a row over such a list: the same row, or on past the entry at which the run alone failed. */
  lemma {:induction false} RunSkips(h: Header, sec: Section, start: nat, base: Files, pos: nat,
      g: Row, solo: Files, fs: Files)
    requires h.Accepted() && Lone(h, sec, start, base, pos, solo)
    requires RunStop(h, sec, pos, Machine(g, solo)).pos <= fs.lastEnd
    ensures var stop := RunStop(h, sec, pos, Machine(g, solo));
      match StepToRow(h, sec, pos, Machine(g, solo))
      case Silent(_, _) => false
      case Emitted(m, row, next) =>
        && Lone(h, sec, start, base, next, m.files)
        && StepToRow(h, sec, pos, Machine(g, fs)) == Emitted(Machine(m.regs, fs), row, next)
      case Failed(e, files) =>
        !GoodDirs(h, sec, start, stop.pos) ==>
          && e == FormatError && FilesInv(h, sec, start, base, files) && files.lastEnd == stop.pos
          && StepToRow(h, sec, pos, Machine(g, fs)) ==
               if stop.fits then StepToRow(h, sec, stop.pos, Machine(stop.regs, fs)) else Failed(FormatError, fs)
    decreases |sec.data| - pos
  {
    hide Decode, Perform, FilesInv, ReaderInv, GoodDirs;
    var m := Machine(g, solo);
    RunStopSteps(h, sec, pos, m);
    LoneStep(h, sec, start, base, pos, m);
    if pos < |sec.data| {
      var s := Step(h, sec, pos, m);
      StepGrows(h, sec, pos, m);
      if Decode(h, sec, pos).Ok? {
        StopIsFar(h, sec, pos, m);
        SkipStep(h, sec, pos, g, solo, fs);
      }
      if s.Silent? { RunSkips(h, sec, start, base, s.next, s.m.regs, s.m.files, fs); }
    }
  }

  lemma StopIsFar(h: Header, sec: Section, pos: nat, m: Machine)
    requires h.Accepted() && Decode(h, sec, pos).Ok?
    ensures Decode(h, sec, pos).value.next <= RunStop(h, sec, pos, m).pos
  {
    hide Decode, Perform;
  }

  lemma NotAtEnd(h: Header, sec: Section, start: nat, base: Files, pos: nat, m: Machine)
    requires h.Accepted() && Lone(h, sec, start, base, pos, m.files)
    requires !GoodDirs(h, sec, start, LastStop(h, sec, pos, m).pos)
    ensures pos < |sec.data|
  {
    hide GoodDirs, FilesInv, ReaderInv;
  }

  lemma RunsOut(h: Header, sec: Section, stop: Stop, fs: Files)
    requires h.Accepted()
    ensures stop.pos >= |sec.data| ==> StepToRow(h, sec, stop.pos, Machine(stop.regs, fs)) == Failed(FormatError, fs)
  {}

  // ---------- behind the entry ----------

  predicate BreaksAtOnce(h: Header, sec: Section, pos: nat, m: Machine)
    requires h.Accepted()
  {
    Increment(h, sec, pos, m).Broken? && Increment(h, sec, pos, m).error == FormatError
  }

  /** A list that passes over every entry of the section. */
  function Deaf(sec: Section, base: Files): Files { base.(lastEnd := |sec.data|) }

  /** Where a reader stops that ignores directories and runs to the next row from where one alone stops. */
  function Beyond(h: Header, sec: Section, base: Files, stop: Stop): nat
    requires h.Accepted()
  {
    RunStop(h, sec, stop.pos, Machine(stop.regs, Deaf(sec, base))).pos
  }

  /** The list with every entry that ends by `limit` and has a directory. */
  function Full(h: Header, sec: Section, start: nat, base: Files, limit: nat): Files {
    base.(names := base.names + FilesOf(h, Defined(h, sec, start, limit)), lastEnd := limit)
  }

  /** Behind the entry at which a reader alone stops there is something else than the same failure: the
      entry keeps within its stated length, is not the last instruction, and a reader that finds every
      entry passed already comes to a row with a file, or fails differently. */
  predicate GoesOn(h: Header, sec: Section, start: nat, base: Files, stop: Stop)
    requires h.Accepted()
  {
    && stop.fits && stop.pos < |sec.data|
    && !BreaksAtOnce(h, sec, stop.pos, Machine(stop.regs, Full(h, sec, start, base, Beyond(h, sec, base, stop))))
  }

  /** Lists beyond a run's stop are all the same to it. */
  lemma {:induction false} RunStopSame(h: Header, sec: Section, pos: nat, g: Row, f1: Files, f2: Files)
    requires h.Accepted()
    requires var q := RunStop(h, sec, pos, Machine(g, f1)).pos; q <= f1.lastEnd && q <= f2.lastEnd
    ensures RunStop(h, sec, pos, Machine(g, f1)) == RunStop(h, sec, pos, Machine(g, f2))
    decreases |sec.data| - pos
  {
    hide Decode, Perform;
    RunStopSteps(h, sec, pos, Machine(g, f1));
    RunStopSteps(h, sec, pos, Machine(g, f2));
    if Decode(h, sec, pos).Ok? {
      StopIsFar(h, sec, pos, Machine(g, f1));
      SameKind(h, sec, pos, g, f1, f2);
      var d := Decode(h, sec, pos).value;
      var s := Perform(h, d, Machine(g, f1));
      DecodeGrows(h, sec, pos);
      if s.Silent? { RunStopSame(h, sec, d.next, s.m.regs, f1, f2); }
    }
  }

  lemma SameKind(h: Header, sec: Section, pos: nat, g: Row, f1: Files, f2: Files)
    requires h.Accepted() && Decode(h, sec, pos).Ok?
    requires var n := Decode(h, sec, pos).value.next; n <= f1.lastEnd && n <= f2.lastEnd
    ensures var d := Decode(h, sec, pos).value;
      var (s, t) := (Perform(h, d, Machine(g, f1)), Perform(h, d, Machine(g, f2)));
      match s
      case Silent(m, next) => m.files == f1 && t == Silent(Machine(m.regs, f2), next) && next == d.next
      case Emitted(m, row, next) => m.files == f1 && t == Emitted(Machine(m.regs, f2), row, next) && next == d.next
      case Failed(e, _) => e == FormatError && t == Failed(FormatError, f2)
  {
    hide Decode, Exec;
  }

  /** A run is refused at an entry beyond the mark, which moves the mark. */
  predicate Refused(h: Header, sec: Section, start: nat, base: Files, mark: nat, q: nat, e: Error, fs: Files) {
    e == FormatError && FilesInv(h, sec, start, base, fs) && mark < fs.lastEnd <= q
  }

  /** Or it gets as far as the run that is refused nothing, with every entry up to there in its list. */
  predicate GetsThere(h: Header, sec: Section, start: nat, base: Files, mark: nat, q: nat, t: Stepped, s: Stepped) {
    match t
    case Silent(_, _) => false
    case Failed(e, _) =>
      s.Failed? && s.error == e && UpTo(h, sec, start, base, q, s.files) && mark <= s.files.lastEnd
    case Emitted(m, row, next) =>
      && s.Emitted? && s.m.regs == m.regs && s.row == row && s.next == next == q
      && UpTo(h, sec, start, base, q, s.m.files) && mark <= s.m.files.lastEnd
  }

  predicate ItsEntryIsRefused(h: Header, d: Decoded, fs: Files) {
    d.instr.DefineFile? && d.next > fs.lastEnd && !HasPlace(h, EntryOf(d))
  }

  /** One instruction of a run with its directories checked, against one that passes over all entries. */
  lemma StepBehind(h: Header, sec: Section, start: nat, base: Files, pos: nat, g: Row, fs: Files, full: Files)
    requires h.Accepted() && Decode(h, sec, pos).Ok? && Decode(h, sec, pos).value.next <= full.lastEnd
    requires FilesInv(h, sec, start, base, fs) && ReaderInv(h, sec, start, pos, fs) && fs.lastEnd <= full.lastEnd
    ensures var d := Decode(h, sec, pos).value;
      var (t, s) := (Step(h, sec, pos, Machine(g, full)), Step(h, sec, pos, Machine(g, fs)));
      if ItsEntryIsRefused(h, d, fs) then
        s.Failed? && Refused(h, sec, start, base, fs.lastEnd, full.lastEnd, s.error, s.files)
      else
        match t
        case Silent(m, next) =>
          && s.Silent? && s.m.regs == m.regs && m.files == full && s.next == next == d.next
          && Keeps(h, sec, start, base, fs.lastEnd, full.lastEnd, d.next, s.m.files)
        case Emitted(m, row, next) =>
          && s.Emitted? && s.m.regs == m.regs && s.row == row && s.next == next == d.next
          && Keeps(h, sec, start, base, fs.lastEnd, full.lastEnd, d.next, s.m.files)
        case Failed(e, _) =>
          && s.Failed? && s.error == e && Keeps(h, sec, start, base, fs.lastEnd, full.lastEnd, d.next, s.files)
  {
    hide Decode, FilesInv, ReaderInv, Exec;
    PassKeeps(h, sec, start, base, pos, fs);
    SameKind(h, sec, pos, g, full, full);
  }

  predicate Keeps(h: Header, sec: Section, start: nat, base: Files, mark: nat, q: nat, pos: nat, fs: Files) {
    FilesInv(h, sec, start, base, fs) && ReaderInv(h, sec, start, pos, fs) && mark <= fs.lastEnd <= q
  }

  /** The whole run. */
  lemma {:induction false} RunBehind(h: Header, sec: Section, start: nat, base: Files, pos: nat, g: Row,
      fs: Files, full: Files)
    requires h.Accepted() && FilesInv(h, sec, start, base, fs) && ReaderInv(h, sec, start, pos, fs)
    requires RunStop(h, sec, pos, Machine(g, full)).pos == full.lastEnd && fs.lastEnd <= full.lastEnd
    ensures var (t, s) := (StepToRow(h, sec, pos, Machine(g, full)), StepToRow(h, sec, pos, Machine(g, fs)));
      || (s.Failed? && Refused(h, sec, start, base, fs.lastEnd, full.lastEnd, s.error, s.files))
      || GetsThere(h, sec, start, base, fs.lastEnd, full.lastEnd, t, s)
    decreases |sec.data| - pos
  {
    hide Decode, Perform, FilesInv, ReaderInv, UpTo;
    RunStopSteps(h, sec, pos, Machine(g, full));
    if pos < |sec.data| && Decode(h, sec, pos).Ok? {
      var d := Decode(h, sec, pos).value;
      StopIsFar(h, sec, pos, Machine(g, full));
      DecodeGrows(h, sec, pos);
      StepBehind(h, sec, start, base, pos, g, fs, full);
      var t, s := Step(h, sec, pos, Machine(g, full)), Step(h, sec, pos, Machine(g, fs));
      if t.Silent? && s.Silent? {
        RunBehind(h, sec, start, base, t.next, t.m.regs, s.m.files, full);
      } else if s.Failed? && t.Failed? && !ItsEntryIsRefused(h, d, fs) {
        ReadIsUpTo(h, sec, start, base, d.next, s.files);
      } else if s.Emitted? {
        ReadIsUpTo(h, sec, start, base, d.next, s.m.files);
      }
    } else {
      ReadIsUpTo(h, sec, start, base, pos, fs);
    }
  }

  /** An increment from where a reader alone stops: refused at a further entry, or with the outcome of the
      one that is refused nothing. */
  predicate SameBehind(h: Header, sec: Section, start: nat, base: Files, mark: nat, q: nat,
      t: Advanced, b: Advanced)
  {
    || (b.Broken? && Refused(h, sec, start, base, mark, q, b.error, b.files))
    || match t
       case AtEnd => false
       case Broken(e, _) =>
         b.Broken? && b.error == e && FilesInv(h, sec, start, base, b.files) && mark <= b.files.lastEnd <= q
       case Next(_, entry, _) =>
         b.Next? && b.entry == entry && FilesInv(h, sec, start, base, b.m.files) && mark <= b.m.files.lastEnd <= q
  }

  lemma IncrementBehind(h: Header, sec: Section, start: nat, base: Files, pos: nat, g: Row, fs: Files, full: Files)
    requires h.Accepted() && pos < |sec.data|
    requires FilesInv(h, sec, start, base, fs) && ReaderInv(h, sec, start, pos, fs) && fs.lastEnd <= full.lastEnd
    requires full == Full(h, sec, start, base, full.lastEnd)
    requires RunStop(h, sec, pos, Machine(g, full)).pos == full.lastEnd
    ensures SameBehind(h, sec, start, base, fs.lastEnd, full.lastEnd,
                       Increment(h, sec, pos, Machine(g, full)), Increment(h, sec, pos, Machine(g, fs)))
  {
    hide StepToRow, RunStop, ReaderInv, Defined, FilesInv;
    RunBehind(h, sec, start, base, pos, g, fs, full);
    FullStays(h, sec, pos, g, full);
    var t, s := StepToRow(h, sec, pos, Machine(g, full)), StepToRow(h, sec, pos, Machine(g, fs));
    if s.Failed? {
      if GetsThere(h, sec, start, base, fs.lastEnd, full.lastEnd, t, s) {
        UpToHas(h, sec, start, base, full.lastEnd, s.files);
      }
    } else {
      UpToHas(h, sec, start, base, full.lastEnd, s.m.files);
      UpToIsAll(h, sec, start, base, full.lastEnd, s.m.files);
      CompleteIsNoMatter(h, sec, start, base, s.next, full.lastEnd, s.m.files);
    }
  }

  lemma UpToHas(h: Header, sec: Section, start: nat, base: Files, q: nat, fs: Files)
    requires UpTo(h, sec, start, base, q, fs)
    ensures FilesInv(h, sec, start, base, fs) && fs.lastEnd <= q
  {}

  /** A list that has everything is not added to. */
  lemma {:induction false} FullStays(h: Header, sec: Section, pos: nat, g: Row, full: Files)
    requires h.Accepted() && RunStop(h, sec, pos, Machine(g, full)).pos <= full.lastEnd
    ensures var t := StepToRow(h, sec, pos, Machine(g, full)); t.Emitted? ==> t.m.files == full
    decreases |sec.data| - pos
  {
    hide Decode, Perform;
    RunStopSteps(h, sec, pos, Machine(g, full));
    if pos < |sec.data| && Decode(h, sec, pos).Ok? {
      StopIsFar(h, sec, pos, Machine(g, full));
      SameKind(h, sec, pos, g, full, full);
      DecodeGrows(h, sec, pos);
      var s := Step(h, sec, pos, Machine(g, full));
      if s.Silent? { FullStays(h, sec, s.next, s.m.regs, full); }
    }
  }

  // ---------- at the entry ----------

  /** A reader that comes to the entry before anyone else is refused like the one alone. */
  lemma {:induction false} RunRefused(h: Header, sec: Section, start: nat, base: Files, pos: nat, g: Row,
      solo: Files, fs: Files)
    requires h.Accepted() && Lone(h, sec, start, base, pos, solo) && FilesInv(h, sec, start, base, fs)
    requires var stop := RunStop(h, sec, pos, Machine(g, solo));
      solo.lastEnd <= fs.lastEnd < stop.pos && !GoodDirs(h, sec, start, stop.pos)
    requires StepToRow(h, sec, pos, Machine(g, solo)).Failed?
    ensures var s := StepToRow(h, sec, pos, Machine(g, fs));
      && s.Failed? && s.error == FormatError && FilesInv(h, sec, start, base, s.files)
      && s.files.lastEnd == RunStop(h, sec, pos, Machine(g, solo)).pos
    decreases |sec.data| - pos
  {
    hide Decode, Perform, FilesInv, ReaderInv, GoodDirs;
    var m := Machine(g, solo);
    RunStopSteps(h, sec, pos, m);
    LoneStep(h, sec, start, base, pos, m);
    if pos < |sec.data| {
      var s := Step(h, sec, pos, m);
      StepGrows(h, sec, pos, m);
      StepRefused(h, sec, start, base, pos, g, solo, fs);
      if s.Silent? {
        RunRefused(h, sec, start, base, s.next, s.m.regs, s.m.files, Step(h, sec, pos, Machine(g, fs)).m.files);
      }
    }
  }

  lemma StepRefused(h: Header, sec: Section, start: nat, base: Files, pos: nat, g: Row, solo: Files, fs: Files)
    requires h.Accepted() && Lone(h, sec, start, base, pos, solo) && FilesInv(h, sec, start, base, fs)
    requires var stop := RunStop(h, sec, pos, Machine(g, solo));
      solo.lastEnd <= fs.lastEnd < stop.pos && !GoodDirs(h, sec, start, stop.pos)
    ensures var stop := RunStop(h, sec, pos, Machine(g, solo));
      var (s, t) := (Step(h, sec, pos, Machine(g, solo)), Step(h, sec, pos, Machine(g, fs)));
      match s
      case Failed(_, _) =>
        t.Failed? && t.error == FormatError && FilesInv(h, sec, start, base, t.files) && t.files.lastEnd == stop.pos
      case Silent(m, next) =>
        && t.Silent? && t.m.regs == m.regs && t.next == next && FilesInv(h, sec, start, base, t.m.files)
        && (next < stop.pos ==> m.files.lastEnd <= t.m.files.lastEnd < stop.pos)
      case Emitted(_, _, _) => true
  {
    hide Decode, FilesInv, Exec, GoodDirs, Defined, Reach;
    LoneStep(h, sec, start, base, pos, Machine(g, solo));
    if Decode(h, sec, pos).Ok? {
      LoneBehind(h, sec, start, base, pos, solo, fs);
      PassKeeps(h, sec, start, base, pos, fs);
    }
  }

  /** What a reader alone has passed is in any list that is not behind its own. */
  lemma LoneBehind(h: Header, sec: Section, start: nat, base: Files, pos: nat, solo: Files, fs: Files)
    requires Lone(h, sec, start, base, pos, solo) && solo.lastEnd <= fs.lastEnd
    ensures ReaderInv(h, sec, start, pos, fs)
  {}

  lemma {:induction false} RunStopReached(h: Header, sec: Section, start: nat, pos: nat, m: Machine)
    requires h.Accepted() && Reach(h, sec, start, pos)
    ensures Reach(h, sec, start, RunStop(h, sec, pos, m).pos)
    decreases |sec.data| - pos
  {
    hide Decode, Perform, Reach;
    ReachGoesOn(h, sec, start, pos);
    if Decode(h, sec, pos).Ok? {
      var d := Decode(h, sec, pos).value;
      DecodeGrows(h, sec, pos);
      var s := Perform(h, d, m);
      if s.Silent? { RunStopReached(h, sec, start, d.next, s.m); }
    }
  }

  /** The increment at which a reader alone is refused, made with the shared list: refused there too, or
      past the entry and on from behind it. */
  lemma IncrementAtEntry(h: Header, sec: Section, start: nat, base: Files, pos: nat, g: Row,
      solo: Files, fs: Files)
    requires h.Accepted() && Lone(h, sec, start, base, pos, solo) && FilesInv(h, sec, start, base, fs)
    requires solo.lastEnd <= fs.lastEnd && Increment(h, sec, pos, Machine(g, solo)).Broken?
    requires !GoodDirs(h, sec, start, LastStop(h, sec, pos, Machine(g, solo)).pos)
    ensures var stop := LastStop(h, sec, pos, Machine(g, solo));
      var b := Increment(h, sec, pos, Machine(g, fs));
      if fs.lastEnd < stop.pos then
        b.Broken? && b.error == FormatError && FilesInv(h, sec, start, base, b.files) && b.files.lastEnd == stop.pos
      else if stop.fits && stop.pos < |sec.data| then
        b == Increment(h, sec, stop.pos, Machine(stop.regs, fs)) && ReaderInv(h, sec, start, stop.pos, fs)
      else b == Broken(FormatError, fs)
    ensures Increment(h, sec, pos, Machine(g, solo)).error == FormatError
  {
    hide StepToRow, RunStop, FilesInv, GoodDirs, Reach, Defined;
    var m := Machine(g, solo);
    var stop := LastStop(h, sec, pos, m);
    NotAtEnd(h, sec, start, base, pos, m);
    RunStopOfRow(h, sec, pos, m);
    var far := fs.(lastEnd := Max(fs.lastEnd, stop.pos));
    RunSkips(h, sec, start, base, pos, g, solo, far);
    RunsOut(h, sec, stop, fs);
    if fs.lastEnd < stop.pos {
      RunRefused(h, sec, start, base, pos, g, solo, fs);
    } else {
      assert far == fs;
      RunStopReached(h, sec, start, pos, m);
      DefinedEnds(h, sec, start, stop.pos);
    }
  }

  /** What an increment with the shared list, bounded by `q`, comes to against the same alone. */
  predicate SameOrBehind(h: Header, sec: Section, start: nat, base: Files, mark: nat, q: nat, goesOn: bool,
      a: Advanced, b: Advanced)
  {
    match a
    case AtEnd => false
    case Next(m, entry, next) =>
      && b.Next? && b.m.regs == m.regs && b.entry == entry && b.pos == next
      && Lone(h, sec, start, base, next, m.files) && m.files.lastEnd <= b.m.files.lastEnd
      && FilesInv(h, sec, start, base, b.m.files) && mark <= b.m.files.lastEnd <= q
    case Broken(e, _) =>
      && e == FormatError && !b.AtEnd?
      && (b.Broken? ==> FilesInv(h, sec, start, base, b.files) && mark <= b.files.lastEnd <= q)
      && if goesOn then b.Broken? && b.error == e ==> mark < b.files.lastEnd
         else b.Broken? && b.error == e
  }

  lemma OneIncrement(h: Header, sec: Section, start: nat, base: Files, pos: nat, g: Row, solo: Files, fs: Files)
    requires h.Accepted() && Lone(h, sec, start, base, pos, solo) && FilesInv(h, sec, start, base, fs)
    requires var stop := LastStop(h, sec, pos, Machine(g, solo));
      solo.lastEnd <= fs.lastEnd <= Beyond(h, sec, base, stop) && !GoodDirs(h, sec, start, stop.pos)
    ensures var stop := LastStop(h, sec, pos, Machine(g, solo));
      SameOrBehind(h, sec, start, base, fs.lastEnd, Beyond(h, sec, base, stop), GoesOn(h, sec, start, base, stop),
                   Increment(h, sec, pos, Machine(g, solo)), Increment(h, sec, pos, Machine(g, fs)))
  {
    hide FilesInv, ReaderInv, GoodDirs, StepToRow, RunStop, Increment, Full;
    var stop, q := LastStop(h, sec, pos, Machine(g, solo)), 0;
    NotAtEnd(h, sec, start, base, pos, Machine(g, solo));
    AtEndIsEnd(h, sec, pos, Machine(g, solo));
    var a := Increment(h, sec, pos, Machine(g, solo));
    if a.Next? {
      NextIsSame(h, sec, start, base, pos, g, solo, fs);
    } else {
      IncrementAtEntry(h, sec, start, base, pos, g, solo, fs);
      if stop.pos <= fs.lastEnd && stop.fits && stop.pos < |sec.data| {
        FromTheEntry(h, sec, start, base, stop, fs);
      }
    }
  }

  lemma NextIsSame(h: Header, sec: Section, start: nat, base: Files, pos: nat, g: Row, solo: Files, fs: Files)
    requires h.Accepted() && Lone(h, sec, start, base, pos, solo) && FilesInv(h, sec, start, base, fs)
    requires var stop := LastStop(h, sec, pos, Machine(g, solo));
      solo.lastEnd <= fs.lastEnd <= Beyond(h, sec, base, stop) && !GoodDirs(h, sec, start, stop.pos)
    requires Increment(h, sec, pos, Machine(g, solo)).Next?
    ensures var stop := LastStop(h, sec, pos, Machine(g, solo));
      SameOrBehind(h, sec, start, base, fs.lastEnd, Beyond(h, sec, base, stop), GoesOn(h, sec, start, base, stop),
                   Increment(h, sec, pos, Machine(g, solo)), Increment(h, sec, pos, Machine(g, fs)))
  {
    hide FilesInv, ReaderInv, GoodDirs, Increment, RunStop, GoesOn;
    var stop := LastStop(h, sec, pos, Machine(g, solo));
    var q := Beyond(h, sec, base, stop);
    var a, b := Increment(h, sec, pos, Machine(g, solo)), Increment(h, sec, pos, Machine(g, fs));
    BeyondIsFar(h, sec, base, stop);
    LastStopGrows(h, sec, a.pos, a.m);
    IncrementIsSame(h, sec, start, base, pos, q, g, solo, fs);
    IncrementMark(h, sec, pos, Machine(g, fs));
    LoneIncrement(h, sec, start, base, pos, g, solo);
  }

  lemma BeyondIsFar(h: Header, sec: Section, base: Files, stop: Stop)
    requires h.Accepted()
    ensures stop.pos <= Beyond(h, sec, base, stop)
  {}

  lemma LoneIncrement(h: Header, sec: Section, start: nat, base: Files, pos: nat, g: Row, solo: Files)
    requires h.Accepted() && Lone(h, sec, start, base, pos, solo)
    ensures var a := Increment(h, sec, pos, Machine(g, solo)); a.Next? ==> Lone(h, sec, start, base, a.pos, a.m.files)
  {
    hide StepToRow, RunStop, FilesInv, ReaderInv, GoodDirs;
    var far := solo.(lastEnd := Max(solo.lastEnd, RunStop(h, sec, pos, Machine(g, solo)).pos));
    RunSkips(h, sec, start, base, pos, g, solo, far);
    var s := StepToRow(h, sec, pos, Machine(g, solo));
    if s.Emitted? { CompleteIsNoMatter(h, sec, start, base, s.next, s.next, s.m.files); }
  }

  /** From behind the entry. */
  lemma FromTheEntry(h: Header, sec: Section, start: nat, base: Files, stop: Stop, fs: Files)
    requires h.Accepted() && stop.pos < |sec.data|
    requires FilesInv(h, sec, start, base, fs) && ReaderInv(h, sec, start, stop.pos, fs)
    requires fs.lastEnd <= Beyond(h, sec, base, stop)
    ensures var q := Beyond(h, sec, base, stop);
      SameBehind(h, sec, start, base, fs.lastEnd, q,
                 Increment(h, sec, stop.pos, Machine(stop.regs, Full(h, sec, start, base, q))),
                 Increment(h, sec, stop.pos, Machine(stop.regs, fs)))
  {
    hide Increment, RunStop, FilesInv, ReaderInv, FilesOf, Defined;
    var q := Beyond(h, sec, base, stop);
    var full := Full(h, sec, start, base, q);
    RunStopInside(h, sec, stop.pos, Machine(stop.regs, Deaf(sec, base)));
    RunStopSame(h, sec, stop.pos, stop.regs, Deaf(sec, base), full);
    IncrementBehind(h, sec, start, base, stop.pos, stop.regs, fs, full);
  }

  lemma {:induction false} RunStopInside(h: Header, sec: Section, pos: nat, m: Machine)
    requires h.Accepted() && pos <= |sec.data|
    ensures RunStop(h, sec, pos, m).pos <= |sec.data|
    decreases |sec.data| - pos
  {
    hide Decode, Perform;
    if Decode(h, sec, pos).Ok? {
      DecodeGrows(h, sec, pos);
      var s := Perform(h, Decode(h, sec, pos).value, m);
      if s.Silent? { RunStopInside(h, sec, Decode(h, sec, pos).value.next, s.m); }
    }
  }

  lemma {:induction false} InterleaveCons(h: Header, sec: Section, start: nat, s: System, a: Action,
      rest: seq<Action>)
    requires h.Accepted()
    ensures Interleave(h, sec, start, s, [a] + rest) == Interleave(h, sec, start, Act(h, sec, start, s, a), rest)
  {
    hide Act;
    var n := |rest|;
    if rest == [] {
      assert [a] + rest == [a] && [a][..0] == [];
    } else {
      assert ([a] + rest)[..n] == [a] + rest[..n - 1] && ([a] + rest)[n] == rest[n - 1];
      InterleaveCons(h, sec, start, s, a, rest[..n - 1]);
    }
  }

  /** Reader `k` on its own from here to its end. */
  lemma {:induction false} RunThrough(h: Header, sec: Section, start: nat, s: System, k: nat)
    returns (acts: seq<Action>)
    requires h.Accepted() && k < |s.readers| && s.readers[k].failed.None?
    ensures var r := s.readers[k];
      var all := AllRows(h, sec, r.pos, Machine(r.regs, s.files));
      var t := Interleave(h, sec, start, s, acts);
      && t.files == all.m.files && |t.readers| == |s.readers|
      && t.readers[k].seen == r.seen + all.entries && t.readers[k].failed == all.error
      && (all.error.None? ==> t.readers[k].pos >= |sec.data|)
    decreases |sec.data| - s.readers[k].pos
  {
    hide Increment;
    var r := s.readers[k];
    var b := Increment(h, sec, r.pos, Machine(r.regs, s.files));
    var s1 := Act(h, sec, start, s, AdvanceReader(k));
    AtEndIsEnd(h, sec, r.pos, Machine(r.regs, s.files));
    if b.Next? {
      var rest := RunThrough(h, sec, start, s1, k);
      acts := [AdvanceReader(k)] + rest;
      InterleaveCons(h, sec, start, s, AdvanceReader(k), rest);
      var tail := AllRows(h, sec, b.pos, b.m).entries;
      assert r.seen + ([b.entry] + tail) == (r.seen + [b.entry]) + tail;
    } else {
      acts := [AdvanceReader(k)];
      InterleaveCons(h, sec, start, s, AdvanceReader(k), []);
      assert [AdvanceReader(k)] + [] == [AdvanceReader(k)];
    }
  }

  lemma AtEndIsEnd(h: Header, sec: Section, pos: nat, m: Machine)
    requires h.Accepted()
    ensures Increment(h, sec, pos, m).AtEnd? <==> pos >= |sec.data|
  {}

  lemma {:induction false} InterleaveAppend(h: Header, sec: Section, start: nat, s: System, a: seq<Action>,
      b: seq<Action>)
    requires h.Accepted()
    ensures Interleave(h, sec, start, s, a + b) == Interleave(h, sec, start, Interleave(h, sec, start, s, a), b)
  {
    hide Act;
    if b == [] {
      assert a + b == a;
    } else {
      var n := |b| - 1;
      assert (a + b)[..|a| + n] == a + b[..n];
      InterleaveAppend(h, sec, start, s, a, b[..n]);
    }
  }

  /** One more reader, run to its end. */
  lemma Opened(h: Header, sec: Section, start: nat, s: System) returns (acts: seq<Action>, u: System)
    requires h.Accepted()
    ensures u == Interleave(h, sec, start, s, acts) && |u.readers| == |s.readers| + 1
    ensures var all := AllRows(h, sec, start, Machine(Reset(h.defaultIsStmt), s.files));
      var r := u.readers[|s.readers|];
      u.files == all.m.files && r.seen == all.entries && r.failed == all.error
      && (all.error.None? ==> r.pos >= |sec.data|)
  {
    hide AllRows, Interleave;
    var t := Act(h, sec, start, s, Open);
    var rest := RunThrough(h, sec, start, t, |s.readers|);
    acts := [Open] + rest;
    InterleaveCons(h, sec, start, s, Open, rest);
    u := Interleave(h, sec, start, t, rest);
    var all := AllRows(h, sec, start, Machine(Reset(h.defaultIsStmt), s.files));
    assert [] + all.entries == all.entries;
  }

  // ---------- nothing behind the entry: sharing is invisible ----------

  /** A reader that has seen what the one alone has by there, or has failed where that one does. */
  predicate LoneTrack(h: Header, sec: Section, start: nat, base: Files, table: Table, stop: Stop,
      r: Reader, solo: Files, fs: Files)
    requires h.Accepted()
  {
    match r.failed
    case None =>
      && Lone(h, sec, start, base, r.pos, solo) && solo.lastEnd <= fs.lastEnd
      && LastStop(h, sec, r.pos, Machine(r.regs, solo)) == stop
      && AllRows(h, sec, r.pos, Machine(r.regs, solo)).error == table.error
      && table.entries == r.seen + AllRows(h, sec, r.pos, Machine(r.regs, solo)).entries
    case Some(e) => table.error == Some(e) && r.seen == table.entries
  }

  predicate Bounded(h: Header, sec: Section, start: nat, base: Files, stop: Stop, fs: Files)
    requires h.Accepted()
  {
    FilesInv(h, sec, start, base, fs) && fs.lastEnd <= Beyond(h, sec, base, stop)
  }

  lemma StaysOnLoneTrack(h: Header, sec: Section, start: nat, base: Files, table: Table, stop: Stop,
      r: Reader, solo: Files, fs: Files)
    requires h.Accepted() && LoneTrack(h, sec, start, base, table, stop, r, solo, fs) && r.failed.None?
    requires Bounded(h, sec, start, base, stop, fs)
    requires !GoodDirs(h, sec, start, stop.pos) && !GoesOn(h, sec, start, base, stop)
    ensures var b := Increment(h, sec, r.pos, Machine(r.regs, fs));
      && !b.AtEnd? && fs.lastEnd <= ListAfter(fs, b).lastEnd && Bounded(h, sec, start, base, stop, ListAfter(fs, b))
      && LoneTrack(h, sec, start, base, table, stop, Moved(r, b), SoloAfter(h, sec, r, solo), ListAfter(fs, b))
  {
    hide Lone, Increment, GoodDirs, FilesInv, GoesOn, Beyond;
    OneIncrement(h, sec, start, base, r.pos, r.regs, solo, fs);
    var a := Increment(h, sec, r.pos, Machine(r.regs, solo));
    if a.Next? {
      var rest := AllRows(h, sec, a.pos, a.m);
      assert r.seen + ([a.entry] + rest.entries) == (r.seen + [a.entry]) + rest.entries;
    }
  }

  lemma LoneTrackSeesAlone(h: Header, sec: Section, start: nat, base: Files, table: Table, stop: Stop,
      r: Reader, solo: Files, fs: Files)
    requires h.Accepted() && LoneTrack(h, sec, start, base, table, stop, r, solo, fs)
    requires Bounded(h, sec, start, base, stop, fs)
    requires !GoodDirs(h, sec, start, stop.pos) && !GoesOn(h, sec, start, base, stop)
    ensures SeesAlone(h, sec, table, r, fs)
  {
    hide Lone, Increment, GoodDirs, Bounded, GoesOn, LastStop;
    if r.failed.None? { StaysOnLoneTrack(h, sec, start, base, table, stop, r, solo, fs); }
  }

  ghost predicate LoneSystem(h: Header, sec: Section, start: nat, base: Files, table: Table, stop: Stop,
      s: System, alone: seq<Files>)
    requires h.Accepted()
  {
    && Bounded(h, sec, start, base, stop, s.files) && |alone| == |s.readers|
    && forall k :: 0 <= k < |s.readers| ==> LoneTrack(h, sec, start, base, table, stop, s.readers[k], alone[k], s.files)
  }

  lemma OthersOnLoneTrack(h: Header, sec: Section, start: nat, base: Files, table: Table, stop: Stop,
      r: Reader, solo: Files, fs: Files, fs': Files)
    requires h.Accepted() && LoneTrack(h, sec, start, base, table, stop, r, solo, fs) && fs.lastEnd <= fs'.lastEnd
    ensures LoneTrack(h, sec, start, base, table, stop, r, solo, fs')
  {
    hide Lone, AllRows, LastStop;
  }

  lemma StartIsLone(h: Header, sec: Section, start: nat, base: Files)
    requires h.Accepted() && base.lastEnd <= start
    ensures Lone(h, sec, start, base, start, base)
  {
    hide FilesInv, ReaderInv, Defined;
    BaseIsRead(h, sec, start, base);
    DefinedEnds(h, sec, start, start);
  }

  lemma NewOnLoneTrack(h: Header, sec: Section, start: nat, base: Files, fs: Files)
    requires h.Accepted() && base.lastEnd <= start && FilesInv(h, sec, start, base, fs)
    ensures var m := Machine(Reset(h.defaultIsStmt), base);
      LoneTrack(h, sec, start, base, AllRows(h, sec, start, m), LastStop(h, sec, start, m),
                Reader(start, Reset(h.defaultIsStmt), [], None), base, fs)
  {
    hide FilesInv, Lone, AllRows, LastStop;
    StartIsLone(h, sec, start, base);
    BaseIsLeast(h, sec, start, base, fs);
    var rows := AllRows(h, sec, start, Machine(Reset(h.defaultIsStmt), base)).entries;
    assert [] + rows == rows;
  }

  lemma {:induction false} LoneSystemStays(h: Header, sec: Section, start: nat, base: Files, acts: seq<Action>)
    returns (alone: seq<Files>)
    requires h.Accepted() && base.lastEnd <= start
    requires var stop := LastStop(h, sec, start, Machine(Reset(h.defaultIsStmt), base));
      !GoodDirs(h, sec, start, stop.pos) && !GoesOn(h, sec, start, base, stop)
    ensures var m := Machine(Reset(h.defaultIsStmt), base);
      LoneSystem(h, sec, start, base, AllRows(h, sec, start, m), LastStop(h, sec, start, m),
                 Interleave(h, sec, start, System(base, []), acts), alone)
  {
    hide Increment, FilesInv, AllRows, LoneTrack, LastStop, GoodDirs, GoesOn, Beyond;
    var m := Machine(Reset(h.defaultIsStmt), base);
    var table, stop := AllRows(h, sec, start, m), LastStop(h, sec, start, m);
    if acts == [] {
      alone := [];
      BaseIsInv(h, sec, start, base);
      LastStopGrows(h, sec, start, m);
      BeyondIsFar(h, sec, base, stop);
    } else {
      var n := |acts| - 1;
      alone := LoneSystemStays(h, sec, start, base, acts[..n]);
      var s := Interleave(h, sec, start, System(base, []), acts[..n]);
      match acts[n]
      case Open =>
        NewOnLoneTrack(h, sec, start, base, s.files);
        alone := alone + [base];
      case AdvanceReader(k) =>
        if k < |s.readers| && s.readers[k].failed.None? {
          var b := Increment(h, sec, s.readers[k].pos, Machine(s.readers[k].regs, s.files));
          StaysOnLoneTrack(h, sec, start, base, table, stop, s.readers[k], alone[k], s.files);
          var fs, solo := ListAfter(s.files, b), SoloAfter(h, sec, s.readers[k], alone[k]);
          forall j | 0 <= j < |s.readers| && j != k
            ensures LoneTrack(h, sec, start, base, table, stop, s.readers[j], alone[j], fs)
          {
            OthersOnLoneTrack(h, sec, start, base, table, stop, s.readers[j], alone[j], s.files, fs);
          }
          alone := alone[k := solo];
        }
    }
  }

  // ---------- something behind the entry: sharing shows ----------

  /** A reader that is first or last, against the one alone: it sees something else, or fails like that one
      but further on in the program than anyone before it. */
  lemma {:induction false} TableBehind(h: Header, sec: Section, start: nat, base: Files, pos: nat, g: Row,
      solo: Files, fs: Files)
    requires h.Accepted() && Lone(h, sec, start, base, pos, solo) && FilesInv(h, sec, start, base, fs)
    requires var stop := LastStop(h, sec, pos, Machine(g, solo));
      && solo.lastEnd <= fs.lastEnd <= Beyond(h, sec, base, stop)
      && !GoodDirs(h, sec, start, stop.pos) && GoesOn(h, sec, start, base, stop)
    ensures var stop := LastStop(h, sec, pos, Machine(g, solo));
      var (t, u) := (AllRows(h, sec, pos, Machine(g, solo)), AllRows(h, sec, pos, Machine(g, fs)));
      && t.error == Some(FormatError)
      && ((u.entries, u.error) == (t.entries, t.error) ==>
            FilesInv(h, sec, start, base, u.m.files) && fs.lastEnd < u.m.files.lastEnd <= Beyond(h, sec, base, stop))
    decreases |sec.data| - pos
  {
    hide Increment, Lone, FilesInv, GoodDirs, GoesOn, Beyond;
    OneIncrement(h, sec, start, base, pos, g, solo, fs);
    var a, b := Increment(h, sec, pos, Machine(g, solo)), Increment(h, sec, pos, Machine(g, fs));
    if a.Next? {
      TableBehind(h, sec, start, base, a.pos, a.m.regs, a.m.files, b.m.files);
      var t, u := AllRows(h, sec, a.pos, a.m), AllRows(h, sec, b.pos, b.m);
      assert ([a.entry] + t.entries)[1..] == t.entries && ([a.entry] + u.entries)[1..] == u.entries;
    }
  }

  /** Readers opened one after the other and run to their ends: as each that fails leaves the mark further
      on, one of them finally sees something else. */
  lemma {:induction false} OneShows(h: Header, sec: Section, start: nat, base: Files, s: System)
    returns (acts: seq<Action>)
    requires h.Accepted() && base.lastEnd <= start
    requires var stop := LastStop(h, sec, start, Machine(Reset(h.defaultIsStmt), base));
      && Bounded(h, sec, start, base, stop, s.files)
      && !GoodDirs(h, sec, start, stop.pos) && GoesOn(h, sec, start, base, stop)
    ensures var solo := AllRows(h, sec, start, Machine(Reset(h.defaultIsStmt), base));
      var t := Interleave(h, sec, start, s, acts);
      exists r :: r in t.readers && !SeesAlone(h, sec, solo, r, t.files)
    decreases Beyond(h, sec, base, LastStop(h, sec, start, Machine(Reset(h.defaultIsStmt), base))) - s.files.lastEnd
  {
    hide AllRows, LastStop, GoodDirs, Increment, Interleave, GoesOn, Beyond, FilesInv;
    var m := Machine(Reset(h.defaultIsStmt), base);
    var solo, stop := AllRows(h, sec, start, m), LastStop(h, sec, start, m);
    StartIsLone(h, sec, start, base);
    BaseIsLeast(h, sec, start, base, s.files);
    TableBehind(h, sec, start, base, start, m.regs, base, s.files);
    var first, u := Opened(h, sec, start, s);
    var r := u.readers[|s.readers|];
    assert r in u.readers;
    if SeesAlone(h, sec, solo, r, u.files) {
      AtEndIsEnd(h, sec, r.pos, Machine(r.regs, u.files));
      var rest := OneShows(h, sec, start, base, u);
      acts := first + rest;
      InterleaveAppend(h, sec, start, s, first, rest);
    } else {
      acts := first;
    }
  }

  // ---------- exactly when ----------

  /** Every reader of every interleaving sees what it would see alone. */
  ghost predicate Invisible(h: Header, sec: Section, start: nat, base: Files)
    requires h.Accepted()
  {
    forall acts :: AllSeeAlone(h, sec, start, base, Interleave(h, sec, start, System(base, []), acts))
  }

  ghost predicate AllSeeAlone(h: Header, sec: Section, start: nat, base: Files, s: System)
    requires h.Accepted()
  {
    var solo := AllRows(h, sec, start, Machine(Reset(h.defaultIsStmt), base));
    forall r :: r in s.readers ==> SeesAlone(h, sec, solo, r, s.files)
  }

  /** For every table: however many readers interleave their steps, everybody sees what it would see alone,
      rows, files and failures, if and only if a reader alone comes to no entry whose directory does not
      exist, or the program does not go on behind that entry. */
  lemma SharingIsInvisibleExactlyWhen(h: Header, sec: Section, start: nat, base: Files)
    requires h.Accepted() && base.lastEnd <= start
    ensures var stop := LastStop(h, sec, start, Machine(Reset(h.defaultIsStmt), base));
      Invisible(h, sec, start, base) <==> GoodDirs(h, sec, start, stop.pos) || !GoesOn(h, sec, start, base, stop)
  {
    hide AllRows, LastStop, GoodDirs, Interleave, GoesOn, SeesAlone, Beyond, AllSeeAlone, Bounded;
    var stop := LastStop(h, sec, start, Machine(Reset(h.defaultIsStmt), base));
    var s0 := System(base, []);
    if GoodDirs(h, sec, start, stop.pos) || !GoesOn(h, sec, start, base, stop) {
      forall acts ensures AllSeeAlone(h, sec, start, base, Interleave(h, sec, start, s0, acts)) {
        EverybodySeesAlone(h, sec, start, base, acts);
      }
    } else {
      BaseIsBounded(h, sec, start, base);
      var acts := OneShows(h, sec, start, base, s0);
      SomebodyDoesNot(h, sec, start, base, Interleave(h, sec, start, s0, acts));
    }
  }

  lemma SomebodyDoesNot(h: Header, sec: Section, start: nat, base: Files, s: System)
    requires h.Accepted()
    requires var solo := AllRows(h, sec, start, Machine(Reset(h.defaultIsStmt), base));
      exists r :: r in s.readers && !SeesAlone(h, sec, solo, r, s.files)
    ensures !AllSeeAlone(h, sec, start, base, s)
  {
    hide SeesAlone, AllRows;
  }

  lemma BaseIsBounded(h: Header, sec: Section, start: nat, base: Files)
    requires h.Accepted() && base.lastEnd <= start
    ensures Bounded(h, sec, start, base, LastStop(h, sec, start, Machine(Reset(h.defaultIsStmt), base)), base)
  {
    hide FilesInv, LastStop, Beyond;
    var m := Machine(Reset(h.defaultIsStmt), base);
    BaseIsInv(h, sec, start, base);
    LastStopGrows(h, sec, start, m);
    BeyondIsFar(h, sec, base, LastStop(h, sec, start, m));
  }

  lemma EverybodySeesAlone(h: Header, sec: Section, start: nat, base: Files, acts: seq<Action>)
    requires h.Accepted() && base.lastEnd <= start
    requires var stop := LastStop(h, sec, start, Machine(Reset(h.defaultIsStmt), base));
      GoodDirs(h, sec, start, stop.pos) || !GoesOn(h, sec, start, base, stop)
    ensures AllSeeAlone(h, sec, start, base, Interleave(h, sec, start, System(base, []), acts))
  {
    hide AllRows, LastStop, GoodDirs, Interleave, GoesOn, SeesAlone, LoneTrack, Beyond, Bounded;
    var m := Machine(Reset(h.defaultIsStmt), base);
    var solo, stop := AllRows(h, sec, start, m), LastStop(h, sec, start, m);
    var s := Interleave(h, sec, start, System(base, []), acts);
    if GoodDirs(h, sec, start, stop.pos) {
      SharingIsInvisible(h, sec, start, base, acts);
    } else {
      var alone := LoneSystemStays(h, sec, start, base, acts);
      forall r | r in s.readers ensures SeesAlone(h, sec, solo, r, s.files) {
        var k :| 0 <= k < |s.readers| && s.readers[k] == r;
        LoneTrackSeesAlone(h, sec, start, base, solo, stop, r, alone[k], s.files);
      }
    }
  }

  // ---------- the shortest cases ----------

  /** A header with the one directory that every table has, the compilation's own. */
  const HEADER := Header(1, 1, true, -1, 4, 13, [[47]])

  /** One entry with a directory that is not there, and a row: a second reader sees the row. */
  lemma OneBadEntryShows(sec: Section, base: Files)
    requires base.lastEnd == 0 && |base.names| == 2 && sec.data == [0, 6, 3, 97, 0, 1, 0, 0, 1]
    ensures !Invisible(HEADER, sec, 0, base)
  {
    hide Decode, Defined, Invisible;
    var m := Machine(Reset(true), base);
    BadEntryAt(sec, 0);
    CopyAt(sec, 8);
    ReachedIsDefined(HEADER, sec, 0, 0, 8);
    assert StepToRow(HEADER, sec, 0, m) == Failed(FormatError, base.(lastEnd := 8));
    var stop := Stop(8, m.regs, true);
    assert LastStop(HEADER, sec, 0, m) == stop;
    assert RunStop(HEADER, sec, 8, Machine(m.regs, Deaf(sec, base))).pos == 9;
    RowIsThere(sec, base, m.regs, 8, 9);
    SharingIsInvisibleExactlyWhen(HEADER, sec, 0, base);
  }

  /** Two of them: the second reader fails like the first, further on, and the third sees the row. */
  lemma TwoBadEntriesShow(sec: Section, base: Files)
    requires base.lastEnd == 0 && |base.names| == 2
    requires sec.data == [0, 6, 3, 97, 0, 1, 0, 0, 0, 6, 3, 97, 0, 1, 0, 0, 1]
    ensures !Invisible(HEADER, sec, 0, base)
  {
    hide Decode, Defined, Invisible;
    var m := Machine(Reset(true), base);
    BadEntryAt(sec, 0);
    BadEntryAt(sec, 8);
    CopyAt(sec, 16);
    ReachedIsDefined(HEADER, sec, 0, 0, 8);
    assert StepToRow(HEADER, sec, 0, m) == Failed(FormatError, base.(lastEnd := 8));
    var stop := Stop(8, m.regs, true);
    assert LastStop(HEADER, sec, 0, m) == stop;
    var deaf := Machine(m.regs, Deaf(sec, base));
    assert RunStop(HEADER, sec, 16, deaf).pos == 17;
    assert RunStop(HEADER, sec, 8, deaf).pos == 17;
    RowIsThere(sec, base, m.regs, 16, 17);
    var full := Machine(m.regs, Full(HEADER, sec, 0, base, 17));
    assert StepToRow(HEADER, sec, 8, full) == StepToRow(HEADER, sec, 16, full);
    SharingIsInvisibleExactlyWhen(HEADER, sec, 0, base);
  }

  lemma RowIsThere(sec: Section, base: Files, g: Row, pos: nat, q: nat)
    requires Decode(HEADER, sec, pos) == Ok(Decoded(Copy, pos + 1, true)) && pos < |sec.data|
    requires g == Reset(true) && |base.names| == 2
    ensures var m := Machine(g, Full(HEADER, sec, 0, base, q));
      && StepToRow(HEADER, sec, pos, m) == Emitted(m, g, pos + 1)
      && Increment(HEADER, sec, pos, m).Next? && 1 < |m.files.names|
  {
    hide Decode, Defined, FilesOf;
  }

  lemma BadEntryAt(sec: Section, pos: nat)
    requires |sec.data| < TWO63 && At(sec.data, pos, [0, 6, 3, 97, 0, 1, 0, 0])
    ensures Decode(HEADER, sec, pos) == Ok(Decoded(DefineFile([97], 1, 0, 0), pos + 8, true))
    ensures !HasPlace(HEADER, FileEntry([97], 1, 0, 0, pos + 8))
  {
    hide Decode;
    var i := DefineFile([97], 1, 0, 0);
    assert Encode(HEADER, sec, i) == [0, 6, 3, 97, 0, 1, 0, 0];
    DecodeInvertsEncode(HEADER, sec, pos, i);
  }

  lemma CopyAt(sec: Section, pos: nat)
    requires |sec.data| < TWO63 && At(sec.data, pos, [1])
    ensures Decode(HEADER, sec, pos) == Ok(Decoded(Copy, pos + 1, true))
  {
    hide Decode;
    assert Encode(HEADER, sec, Copy) == [1];
    DecodeInvertsEncode(HEADER, sec, pos, Copy);
  }
}
