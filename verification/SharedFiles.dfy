/** Many readers over one line table: the file list they share, and why sharing is invisible. */
module SharedFiles {
  import opened Words
  import opened Sections
  import opened LineProgram
  import opened FileLists

  // ---------- the program's own file list ----------

  function EntryOf(d: Decoded): FileEntry
    requires d.instr.DefineFile?
  {
    FileEntry(d.instr.name, d.instr.dir, d.instr.mtime, d.instr.length, d.next)
  }

  /** The define_file entries from `pos` on, in program order, that end at or before `limit`. */
  function Defined(h: Header, sec: Section, pos: nat, limit: nat): seq<FileEntry>
    decreases |sec.data| - pos
  {
    match Decode(h, sec, pos)
    case Err(_) => []
    case Ok(d) =>
      (if d.instr.DefineFile? && d.next <= limit then [EntryOf(d)] else []) + Defined(h, sec, d.next, limit)
  }

  /** The files of the entries whose directory exists. */
  function FilesOf(h: Header, es: seq<FileEntry>): seq<File> {
    if es == [] then []
    else
      (if HasPlace(h, es[0]) then [Placed(h, es[0])] else []) + FilesOf(h, es[1..])
  }

  lemma {:induction false} FilesOfAppend(h: Header, a: seq<FileEntry>, b: seq<FileEntry>)
    ensures FilesOf(h, a + b) == FilesOf(h, a) + FilesOf(h, b)
  {
    hide HasPlace, Placed;
    if a == [] {
      assert a + b == b;
    } else {
      FilesOfAppend(h, a[1..], b);
      assert (a + b)[1..] == a[1..] + b;
    }
  }

  /** Decoding from `a` passes through `b`. */
  predicate Reach(h: Header, sec: Section, a: nat, b: nat)
    decreases |sec.data| - a
  {
    a == b || (Decode(h, sec, a).Ok? && Reach(h, sec, Decode(h, sec, a).value.next, b))
  }

  lemma {:induction false} ReachGoesOn(h: Header, sec: Section, a: nat, b: nat)
    requires Reach(h, sec, a, b)
    ensures a <= b
    ensures Decode(h, sec, b).Ok? ==> Reach(h, sec, a, Decode(h, sec, b).value.next)
    decreases |sec.data| - a
  {
    hide Decode;
    if a != b {
      DecodeGrows(h, sec, a);
      ReachGoesOn(h, sec, Decode(h, sec, a).value.next, b);
    } else if Decode(h, sec, b).Ok? {
      DecodeGrows(h, sec, a);
    }
  }

  lemma DecodeGrows(h: Header, sec: Section, a: nat)
    requires Decode(h, sec, a).Ok?
    ensures a < Decode(h, sec, a).value.next <= |sec.data|
  {}

  /** Entries end after the position they are listed from. */
  lemma {:induction false} DefinedEnds(h: Header, sec: Section, pos: nat, limit: nat)
    ensures forall e :: e in Defined(h, sec, pos, limit) ==> pos < e.end <= limit
    ensures limit <= pos ==> Defined(h, sec, pos, limit) == []
    decreases |sec.data| - pos
  {
    hide Decode;
    if Decode(h, sec, pos).Ok? {
      DecodeGrows(h, sec, pos);
      DefinedEnds(h, sec, Decode(h, sec, pos).value.next, limit);
    }
  }

  /** Raising the limit adds entries at the end of the list only. */
  lemma {:induction false} DefinedGrows(h: Header, sec: Section, pos: nat, l1: nat, l2: nat)
    requires l1 <= l2
    ensures Defined(h, sec, pos, l1) <= Defined(h, sec, pos, l2)
    decreases |sec.data| - pos
  {
    hide Decode;
    if Decode(h, sec, pos).Ok? {
      var d := Decode(h, sec, pos).value;
      DecodeGrows(h, sec, pos);
      DefinedGrows(h, sec, d.next, l1, l2);
      if d.next > l1 { DefinedEnds(h, sec, d.next, l1); }
    }
  }

  /** When everything that ends by `p` is within `last`, passing a non-entry at `p` adds nothing, and
      passing an entry beyond `last` adds exactly it. */
  lemma {:induction false} DefinedStep(h: Header, sec: Section, a: nat, p: nat, last: nat)
    requires Reach(h, sec, a, p) && Decode(h, sec, p).Ok?
    requires forall e :: e in Defined(h, sec, a, p) ==> e.end <= last
    ensures var d := Decode(h, sec, p).value;
      && (d.instr.DefineFile? && d.next > last ==>
            Defined(h, sec, a, d.next) == Defined(h, sec, a, last) + [EntryOf(d)])
      && (forall e :: e in Defined(h, sec, a, d.next) ==> e.end <= last || (d.instr.DefineFile? && e.end == d.next))
    decreases |sec.data| - a
  {
    hide Decode;
    var d := Decode(h, sec, p).value;
    DecodeGrows(h, sec, p);
    if a == p {
      DefinedEnds(h, sec, d.next, d.next);
      DefinedEnds(h, sec, d.next, last);
      if d.instr.DefineFile? && d.next > last {
        DefinedEnds(h, sec, p, last);
        NothingBefore(h, sec, p, last);
      }
    } else {
      var d0 := Decode(h, sec, a).value;
      DecodeGrows(h, sec, a);
      ReachGoesOn(h, sec, d0.next, p);
      forall e | e in Defined(h, sec, d0.next, p) ensures e.end <= last {
        assert e in Defined(h, sec, a, p);
      }
      if d0.instr.DefineFile? { assert EntryOf(d0) in Defined(h, sec, a, p); }
      DefinedStep(h, sec, d0.next, p, last);
    }
  }

  /** A limit beyond which nothing more is defined might as well be lower. */
  lemma {:induction false} DefinedNoMore(h: Header, sec: Section, pos: nat, l1: nat, l2: nat)
    requires l1 <= l2 && forall e :: e in Defined(h, sec, pos, l2) ==> e.end <= l1
    ensures Defined(h, sec, pos, l1) == Defined(h, sec, pos, l2)
    decreases |sec.data| - pos
  {
    hide Decode;
    if Decode(h, sec, pos).Ok? {
      var d := Decode(h, sec, pos).value;
      DecodeGrows(h, sec, pos);
      forall e | e in Defined(h, sec, d.next, l2) ensures e.end <= l1 { assert e in Defined(h, sec, pos, l2); }
      if d.instr.DefineFile? && d.next <= l2 { assert EntryOf(d) in Defined(h, sec, pos, l2); }
      DefinedNoMore(h, sec, d.next, l1, l2);
    }
  }

  lemma NothingBefore(h: Header, sec: Section, p: nat, last: nat)
    requires Decode(h, sec, p).Ok? && Decode(h, sec, p).value.next > last
    ensures Defined(h, sec, p, last) == []
  {
    DefinedEnds(h, sec, Decode(h, sec, p).value.next, last);
  }

  // ---------- the invariants ----------

  /** The shared list is the header's files followed by the define_file entries up to the furthest one
      executed, each once and in program order. */
  predicate FilesInv(h: Header, sec: Section, start: nat, base: Files, fs: Files) {
    && base.lastEnd <= start && base.lastEnd <= fs.lastEnd
    && fs.names == base.names + FilesOf(h, Defined(h, sec, start, fs.lastEnd))
  }

  /** A reader stands at an instruction of the program and what it has passed is in the list. */
  predicate ReaderInv(h: Header, sec: Section, start: nat, pos: nat, fs: Files) {
    Reach(h, sec, start, pos) && forall e :: e in Defined(h, sec, start, pos) ==> e.end <= fs.lastEnd
  }

  /** Taking in the entry at `pos`, refusing it for its directory, or not having one there keeps both. */
  lemma PassKeeps(h: Header, sec: Section, start: nat, base: Files, pos: nat, fs: Files)
    requires FilesInv(h, sec, start, base, fs) && ReaderInv(h, sec, start, pos, fs) && Decode(h, sec, pos).Ok?
    ensures var d := Decode(h, sec, pos).value;
      var (fs', added) := if d.instr.DefineFile? then AddFile(h, fs, EntryOf(d)) else (fs, Ok(()));
      && fs.lastEnd <= fs'.lastEnd
      && FilesInv(h, sec, start, base, fs') && ReaderInv(h, sec, start, d.next, fs')
  {
    hide Decode, Defined, Reach;
    var d := Decode(h, sec, pos).value;
    DefinedStep(h, sec, start, pos, fs.lastEnd);
    ReachGoesOn(h, sec, start, pos);
    if d.instr.DefineFile? && d.next > fs.lastEnd {
      var e := EntryOf(d);
      FilesOfAppend(h, Defined(h, sec, start, fs.lastEnd), [e]);
      OneFile(h, e);
      EntryIsTaken(h, fs, e);
    }
  }

  lemma OneFile(h: Header, e: FileEntry)
    ensures FilesOf(h, [e]) == if HasPlace(h, e) then [Placed(h, e)] else []
  {
    assert [e][1..] == [];
  }

  /** Two states of the list for one program: the one with the larger mark extends the other. */
  lemma ListsAreNested(h: Header, sec: Section, start: nat, base: Files, f1: Files, f2: Files)
    requires FilesInv(h, sec, start, base, f1) && FilesInv(h, sec, start, base, f2) && f1.lastEnd <= f2.lastEnd
    ensures f1.names <= f2.names
  {
    hide Defined;
    DefinedGrows(h, sec, start, f1.lastEnd, f2.lastEnd);
    var a, b := Defined(h, sec, start, f1.lastEnd), Defined(h, sec, start, f2.lastEnd);
    FilesOfAppend(h, a, b[|a|..]);
    assert a + b[|a|..] == b;
  }

  // ---------- where a reader alone comes to its end ----------

  /** The end of the last instruction that was executed or refused, the registers before it, and
      whether it kept within its stated length. */
  datatype Stop = Stop(pos: nat, regs: Row, fits: bool)

  /** Where a run to the next row stops. */
  function RunStop(h: Header, sec: Section, pos: nat, m: Machine): (r: Stop)
    requires h.Accepted()
    ensures r.pos >= pos
    decreases |sec.data| - pos
  {
    match Decode(h, sec, pos)
    case Err(_) => Stop(pos, m.regs, false)
    case Ok(d) =>
      var s := Perform(h, d, m);
      if s.Silent? then RunStop(h, sec, d.next, s.m) else Stop(d.next, m.regs, d.fits)
  }

  /** Where all of a reader's increments stop. */
  function LastStop(h: Header, sec: Section, pos: nat, m: Machine): (r: Stop)
    requires h.Accepted()
    ensures r.pos >= pos
    decreases |sec.data| - pos
  {
    match Increment(h, sec, pos, m)
    case AtEnd => Stop(pos, m.regs, false)
    case Broken(_, _) => RunStop(h, sec, pos, m)
    case Next(m', _, pos') => LastStop(h, sec, pos', m')
  }

  /** Every define_file entry that ends by `limit` names a directory that exists. */
  predicate GoodDirs(h: Header, sec: Section, start: nat, limit: nat) {
    forall e :: e in Defined(h, sec, start, limit) ==> HasPlace(h, e)
  }

  /** The list has every entry that ends by `limit`, and none beyond. */
  predicate UpTo(h: Header, sec: Section, start: nat, base: Files, limit: nat, fs: Files) {
    FilesInv(h, sec, start, base, fs) && fs.lastEnd <= limit
    && forall e :: e in Defined(h, sec, start, limit) ==> e.end <= fs.lastEnd
  }

  lemma UpToIsAll(h: Header, sec: Section, start: nat, base: Files, limit: nat, fs: Files)
    requires UpTo(h, sec, start, base, limit, fs)
    ensures fs.names == base.names + FilesOf(h, Defined(h, sec, start, limit))
  {
    hide Defined;
    DefinedNoMore(h, sec, start, fs.lastEnd, limit);
  }

  lemma ReadIsUpTo(h: Header, sec: Section, start: nat, base: Files, pos: nat, fs: Files)
    requires FilesInv(h, sec, start, base, fs) && ReaderInv(h, sec, start, pos, fs) && fs.lastEnd <= pos
    ensures UpTo(h, sec, start, base, pos, fs)
  {}

  lemma {:induction false} ReachedIsDefined(h: Header, sec: Section, a: nat, p: nat, limit: nat)
    requires Reach(h, sec, a, p) && Decode(h, sec, p).Ok?
    requires Decode(h, sec, p).value.instr.DefineFile? && Decode(h, sec, p).value.next <= limit
    ensures EntryOf(Decode(h, sec, p).value) in Defined(h, sec, a, limit)
    decreases |sec.data| - a
  {
    hide Decode;
    if a != p {
      DecodeGrows(h, sec, a);
      ReachedIsDefined(h, sec, Decode(h, sec, a).value.next, p, limit);
    }
  }

  // ---------- one reader among others against the same reader alone ----------

  /** The list the reader would have alone (`solo`) against the shared one it really uses, neither of
      them beyond `limit`. */
  predicate Behind(h: Header, sec: Section, start: nat, base: Files, pos: nat, limit: nat,
      solo: Files, fs: Files)
  {
    && FilesInv(h, sec, start, base, solo) && FilesInv(h, sec, start, base, fs)
    && ReaderInv(h, sec, start, pos, solo) && solo.lastEnd <= fs.lastEnd <= limit
  }

  lemma BehindReads(h: Header, sec: Section, start: nat, base: Files, pos: nat, limit: nat,
      solo: Files, fs: Files)
    requires Behind(h, sec, start, base, pos, limit, solo, fs)
    ensures ReaderInv(h, sec, start, pos, fs)
  {}

  /** Two steps that come to the same; of failures that is said only when it is the sound ones. */
  predicate SameStep(h: Header, sec: Section, start: nat, base: Files, limit: nat, mark: nat, sound: bool,
      a: Stepped, b: Stepped)
  {
    match a
    case Failed(e, files) =>
      sound ==>
        && b.Failed? && b.error == e && mark <= b.files.lastEnd
        && UpTo(h, sec, start, base, limit, files) && UpTo(h, sec, start, base, limit, b.files)
    case Emitted(m, row, next) =>
      b.Emitted? && b.m.regs == m.regs && b.row == row && b.next == next
      && Behind(h, sec, start, base, next, limit, m.files, b.m.files) && mark <= b.m.files.lastEnd
    case Silent(m, next) =>
      b.Silent? && b.m.regs == m.regs && b.next == next
      && Behind(h, sec, start, base, next, limit, m.files, b.m.files) && mark <= b.m.files.lastEnd
  }

  /** The run alone stops at `limit` if it fails, and up to there every directory is good. */
  predicate Sound(h: Header, sec: Section, start: nat, pos: nat, m: Machine, limit: nat)
    requires h.Accepted()
  {
    GoodDirs(h, sec, start, limit) && RunStop(h, sec, pos, m).pos == limit
  }

  /** `limit` is not before where the run alone stops. */
  predicate Limits(h: Header, sec: Section, pos: nat, m: Machine, limit: nat, s: Stepped)
    requires h.Accepted()
  {
    if s.Failed? then RunStop(h, sec, pos, m).pos <= limit else s.next <= limit
  }

  /** A step on the shared list comes to the same as alone. */
  lemma StepIsSame(h: Header, sec: Section, start: nat, base: Files, pos: nat, limit: nat,
      g: Row, solo: Files, fs: Files)
    requires h.Accepted() && Behind(h, sec, start, base, pos, limit, solo, fs)
    requires Limits(h, sec, pos, Machine(g, solo), limit, Step(h, sec, pos, Machine(g, solo)))
    ensures SameStep(h, sec, start, base, limit, fs.lastEnd, Sound(h, sec, start, pos, Machine(g, solo), limit),
                     Step(h, sec, pos, Machine(g, solo)), Step(h, sec, pos, Machine(g, fs)))
  {
    hide Decode, FilesInv, ReaderInv, Exec, Defined, UpTo, GoodDirs;
    BehindReads(h, sec, start, base, pos, limit, solo, fs);
    var s, t := Step(h, sec, pos, Machine(g, solo)), Step(h, sec, pos, Machine(g, fs));
    if Decode(h, sec, pos).Ok? {
      var d := Decode(h, sec, pos).value;
      PassKeeps(h, sec, start, base, pos, solo);
      PassKeeps(h, sec, start, base, pos, fs);
      if s.Failed? && Sound(h, sec, start, pos, Machine(g, solo), limit) {
        if d.instr.DefineFile? { ItsDirectoryIsGood(h, sec, start, pos, limit, solo); }
        ReadIsUpTo(h, sec, start, base, limit, s.files);
        ReadIsUpTo(h, sec, start, base, limit, t.files);
      }
    } else if RunStop(h, sec, pos, Machine(g, solo)).pos == limit {
      ReadIsUpTo(h, sec, start, base, pos, solo);
      ReadIsUpTo(h, sec, start, base, pos, fs);
    }
  }

  lemma ItsDirectoryIsGood(h: Header, sec: Section, start: nat, pos: nat, limit: nat, fs: Files)
    requires ReaderInv(h, sec, start, pos, fs) && GoodDirs(h, sec, start, limit) && Decode(h, sec, pos).Ok?
    requires Decode(h, sec, pos).value.instr.DefineFile? && Decode(h, sec, pos).value.next <= limit
    ensures HasPlace(h, EntryOf(Decode(h, sec, pos).value))
  {
    hide Decode;
    ReachedIsDefined(h, sec, start, pos, limit);
  }

  lemma {:induction false} RunIsSame(h: Header, sec: Section, start: nat, base: Files, pos: nat, limit: nat,
      g: Row, solo: Files, fs: Files)
    requires h.Accepted() && Behind(h, sec, start, base, pos, limit, solo, fs)
    requires Limits(h, sec, pos, Machine(g, solo), limit, StepToRow(h, sec, pos, Machine(g, solo)))
    ensures SameStep(h, sec, start, base, limit, fs.lastEnd, Sound(h, sec, start, pos, Machine(g, solo), limit),
                     StepToRow(h, sec, pos, Machine(g, solo)), StepToRow(h, sec, pos, Machine(g, fs)))
    decreases |sec.data| - pos
  {
    hide Step, Behind, Decode, Perform, GoodDirs, UpTo;
    RunStopSteps(h, sec, pos, Machine(g, solo));
    if pos < |sec.data| {
      var s, t := Step(h, sec, pos, Machine(g, solo)), Step(h, sec, pos, Machine(g, fs));
      StepGrows(h, sec, pos, Machine(g, solo));
      if s.Silent? { RunGrows(h, sec, s.next, s.m); }
      StepIsSame(h, sec, start, base, pos, limit, g, solo, fs);
      if s.Silent? { RunIsSame(h, sec, start, base, s.next, limit, s.m.regs, s.m.files, t.m.files); }
    } else if pos == limit {
      EndIsUpTo(h, sec, start, base, pos, limit, solo, fs);
    }
  }

  lemma EndIsUpTo(h: Header, sec: Section, start: nat, base: Files, pos: nat, limit: nat,
      solo: Files, fs: Files)
    requires Behind(h, sec, start, base, pos, limit, solo, fs) && pos == limit
    ensures UpTo(h, sec, start, base, limit, solo) && UpTo(h, sec, start, base, limit, fs)
  {
    hide FilesInv, ReaderInv, UpTo;
    BehindReads(h, sec, start, base, pos, limit, solo, fs);
    ReadIsUpTo(h, sec, start, base, pos, solo);
    ReadIsUpTo(h, sec, start, base, pos, fs);
  }

  lemma RunStopSteps(h: Header, sec: Section, pos: nat, m: Machine)
    requires h.Accepted()
    ensures pos >= |sec.data| ==> RunStop(h, sec, pos, m).pos == pos
    ensures var s := Step(h, sec, pos, m);
      s.Silent? ==> RunStop(h, sec, pos, m) == RunStop(h, sec, s.next, s.m) && s.next <= RunStop(h, sec, pos, m).pos
    ensures var s := Step(h, sec, pos, m); s.Emitted? ==> RunStop(h, sec, pos, m).pos == s.next
  {
    hide Decode, Perform;
    if Decode(h, sec, pos).Ok? { DecodeGrows(h, sec, pos); }
  }

  lemma StepGrows(h: Header, sec: Section, pos: nat, m: Machine)
    requires h.Accepted()
    ensures var s := Step(h, sec, pos, m); !s.Failed? ==> pos < s.next <= |sec.data|
  {}

  lemma {:induction false} RunStopOfRow(h: Header, sec: Section, pos: nat, m: Machine)
    requires h.Accepted()
    ensures var s := StepToRow(h, sec, pos, m); s.Emitted? ==> RunStop(h, sec, pos, m).pos == s.next
    decreases |sec.data| - pos
  {
    hide Step, Decode, Perform;
    RunStopSteps(h, sec, pos, m);
    StepGrows(h, sec, pos, m);
    if pos < |sec.data| && Step(h, sec, pos, m).Silent? {
      RunStopOfRow(h, sec, Step(h, sec, pos, m).next, Step(h, sec, pos, m).m);
    }
  }

  /** The same for a whole increment, file lookup included. */
  predicate SameIncrement(h: Header, sec: Section, start: nat, base: Files, limit: nat, mark: nat, sound: bool,
      a: Advanced, b: Advanced)
  {
    match a
    case AtEnd => b.AtEnd?
    case Broken(e, files) =>
      sound ==>
        && b.Broken? && b.error == e && mark <= b.files.lastEnd
        && UpTo(h, sec, start, base, limit, files) && UpTo(h, sec, start, base, limit, b.files)
    case Next(m, entry, next) =>
      b.Next? && b.m.regs == m.regs && b.entry == entry && b.pos == next
      && Behind(h, sec, start, base, next, limit, m.files, b.m.files) && mark <= b.m.files.lastEnd
  }

  /** One increment on the shared list comes to the same as alone, failures included, unless it is a bad
      directory that it fails at. */
  lemma IncrementIsSame(h: Header, sec: Section, start: nat, base: Files, pos: nat, limit: nat,
      g: Row, solo: Files, fs: Files)
    requires h.Accepted() && Behind(h, sec, start, base, pos, limit, solo, fs)
    requires LastStop(h, sec, pos, Machine(g, solo)).pos <= limit
    ensures SameIncrement(h, sec, start, base, limit, fs.lastEnd,
                          GoodDirs(h, sec, start, limit) && LastStop(h, sec, pos, Machine(g, solo)).pos == limit,
                          Increment(h, sec, pos, Machine(g, solo)), Increment(h, sec, pos, Machine(g, fs)))
  {
    hide FilesInv, ReaderInv, StepToRow, RunStop, GoodDirs, UpTo;
    if pos < |sec.data| {
      var s, t := StepToRow(h, sec, pos, Machine(g, solo)), StepToRow(h, sec, pos, Machine(g, fs));
      RunStopOfRow(h, sec, pos, Machine(g, solo));
      RunIsSame(h, sec, start, base, pos, limit, g, solo, fs);
      if s.Emitted? {
        ListsAreNested(h, sec, start, base, s.m.files, t.m.files);
        CompleteIsNoMatter(h, sec, start, base, s.next, limit, s.m.files);
        CompleteIsNoMatter(h, sec, start, base, s.next, limit, t.m.files);
        if s.next == limit {
          EndIsUpTo(h, sec, start, base, s.next, limit, s.m.files, t.m.files);
          UpToIsAll(h, sec, start, base, limit, s.m.files);
          UpToIsAll(h, sec, start, base, limit, t.m.files);
        }
      }
    }
  }

  lemma CompleteIsNoMatter(h: Header, sec: Section, start: nat, base: Files, pos: nat, limit: nat, fs: Files)
    ensures FilesInv(h, sec, start, base, fs) ==> FilesInv(h, sec, start, base, fs.(complete := true))
    ensures ReaderInv(h, sec, start, pos, fs) ==> ReaderInv(h, sec, start, pos, fs.(complete := true))
    ensures UpTo(h, sec, start, base, limit, fs) ==> UpTo(h, sec, start, base, limit, fs.(complete := true))
  {}

  // ---------- any number of readers, in any order ----------

  /** An iterator and what it has yielded. It is not used again after an exception. */
  datatype Reader = Reader(pos: nat, regs: Row, seen: seq<Entry>, failed: Option<Error>)

  datatype System = System(files: Files, readers: seq<Reader>)

  datatype Action = Open | AdvanceReader(k: nat)

  function Act(h: Header, sec: Section, start: nat, s: System, a: Action): System
    requires h.Accepted()
  {
    match a
    case Open => s.(readers := s.readers + [Reader(start, Reset(h.defaultIsStmt), [], None)])
    case AdvanceReader(k) =>
      if k >= |s.readers| || s.readers[k].failed.Some? then s
      else
        var r := s.readers[k];
        match Increment(h, sec, r.pos, Machine(r.regs, s.files))
        case AtEnd => s
        case Broken(e, files) => System(files, s.readers[k := r.(failed := Some(e))])
        case Next(m, entry, next) =>
          System(m.files, s.readers[k := Reader(next, m.regs, r.seen + [entry], None)])
  }

  function Interleave(h: Header, sec: Section, start: nat, s: System, acts: seq<Action>): System
    requires h.Accepted()
  {
    if acts == [] then s
    else Act(h, sec, start, Interleave(h, sec, start, s, acts[..|acts| - 1]), acts[|acts| - 1])
  }

  /** What reader `r` has seen and what it would still see alone make up the whole table. */
  predicate OnTrack(h: Header, sec: Section, start: nat, base: Files, table: Table, limit: nat,
      r: Reader, solo: Files, fs: Files)
    requires h.Accepted()
  {
    match r.failed
    case None =>
      && Behind(h, sec, start, base, r.pos, limit, solo, fs)
      && LastStop(h, sec, r.pos, Machine(r.regs, solo)).pos == limit
      && AllRows(h, sec, r.pos, Machine(r.regs, solo)).error == table.error
      && table.entries == r.seen + AllRows(h, sec, r.pos, Machine(r.regs, solo)).entries
    case Some(e) => table.error == Some(e) && r.seen == table.entries && UpTo(h, sec, start, base, limit, fs)
  }

  ghost predicate SystemInv(h: Header, sec: Section, start: nat, base: Files, table: Table, limit: nat,
      s: System, alone: seq<Files>)
    requires h.Accepted()
  {
    && FilesInv(h, sec, start, base, s.files) && s.files.lastEnd <= limit && |alone| == |s.readers|
    && forall k :: 0 <= k < |s.readers| ==> OnTrack(h, sec, start, base, table, limit, s.readers[k], alone[k], s.files)
  }

  /** The reader and the list after an increment. */
  function Moved(r: Reader, b: Advanced): Reader {
    match b
    case AtEnd => r
    case Broken(e, _) => r.(failed := Some(e))
    case Next(m, entry, next) => Reader(next, m.regs, r.seen + [entry], None)
  }

  function ListAfter(fs: Files, b: Advanced): Files {
    match b case AtEnd => fs case Broken(_, files) => files case Next(m, _, _) => m.files
  }

  /** The lone reader's list after the same increment. */
  function SoloAfter(h: Header, sec: Section, r: Reader, solo: Files): Files
    requires h.Accepted()
  {
    ListAfter(solo, Increment(h, sec, r.pos, Machine(r.regs, solo)))
  }

  /** One increment of a reader on track: it sees the next row of the table, or its end. */
  lemma StaysOnTrack(h: Header, sec: Section, start: nat, base: Files, table: Table, limit: nat,
      r: Reader, solo: Files, fs: Files)
    requires h.Accepted() && OnTrack(h, sec, start, base, table, limit, r, solo, fs) && r.failed.None?
    requires GoodDirs(h, sec, start, limit)
    ensures var b := Increment(h, sec, r.pos, Machine(r.regs, fs));
      && fs.lastEnd <= ListAfter(fs, b).lastEnd
      && OnTrack(h, sec, start, base, table, limit, Moved(r, b), SoloAfter(h, sec, r, solo), ListAfter(fs, b))
      && (b.AtEnd? ==> r.seen == table.entries && table.error == None)
  {
    hide Behind, Increment, GoodDirs, UpTo;
    IncrementIsSame(h, sec, start, base, r.pos, limit, r.regs, solo, fs);
    var a := Increment(h, sec, r.pos, Machine(r.regs, solo));
    if a.Next? {
      var rest := AllRows(h, sec, a.pos, a.m);
      assert r.seen + ([a.entry] + rest.entries) == (r.seen + [a.entry]) + rest.entries;
    }
  }

  /** The others only notice that the list is further on. */
  lemma OthersStayOnTrack(h: Header, sec: Section, start: nat, base: Files, table: Table, limit: nat, r: Reader,
      solo: Files, fs: Files, fs': Files)
    requires h.Accepted() && OnTrack(h, sec, start, base, table, limit, r, solo, fs)
    requires FilesInv(h, sec, start, base, fs') && fs.lastEnd <= fs'.lastEnd <= limit
    ensures OnTrack(h, sec, start, base, table, limit, r, solo, fs')
  {
    hide FilesInv, ReaderInv, AllRows, LastStop;
  }

  lemma {:induction false} InterleavingKeeps(h: Header, sec: Section, start: nat, base: Files, acts: seq<Action>)
    returns (alone: seq<Files>)
    requires h.Accepted() && base.lastEnd <= start
    requires GoodDirs(h, sec, start, LastStop(h, sec, start, Machine(Reset(h.defaultIsStmt), base)).pos)
    ensures var m := Machine(Reset(h.defaultIsStmt), base);
      SystemInv(h, sec, start, base, AllRows(h, sec, start, m), LastStop(h, sec, start, m).pos,
                Interleave(h, sec, start, System(base, []), acts), alone)
  {
    hide Increment, FilesInv, AllRows, OnTrack, LastStop, GoodDirs;
    var m := Machine(Reset(h.defaultIsStmt), base);
    var table, limit := AllRows(h, sec, start, m), LastStop(h, sec, start, m).pos;
    if acts == [] {
      alone := [];
      BaseIsInv(h, sec, start, base);
      LastStopGrows(h, sec, start, m);
    } else {
      var n := |acts| - 1;
      alone := InterleavingKeeps(h, sec, start, base, acts[..n]);
      var s := Interleave(h, sec, start, System(base, []), acts[..n]);
      match acts[n]
      case Open =>
        NewcomerOnTrack(h, sec, start, base, s.files);
        alone := alone + [base];
      case AdvanceReader(k) =>
        if k < |s.readers| && s.readers[k].failed.None? {
          var b := Increment(h, sec, s.readers[k].pos, Machine(s.readers[k].regs, s.files));
          StaysOnTrack(h, sec, start, base, table, limit, s.readers[k], alone[k], s.files);
          var fs, solo := ListAfter(s.files, b), SoloAfter(h, sec, s.readers[k], alone[k]);
          OnTrackHasFiles(h, sec, start, base, table, limit, Moved(s.readers[k], b), solo, fs);
          forall j | 0 <= j < |s.readers| && j != k
            ensures OnTrack(h, sec, start, base, table, limit, s.readers[j], alone[j], fs)
          {
            OthersStayOnTrack(h, sec, start, base, table, limit, s.readers[j], alone[j], s.files, fs);
          }
          alone := alone[k := solo];
        }
    }
  }

  lemma LastStopGrows(h: Header, sec: Section, pos: nat, m: Machine)
    requires h.Accepted()
    ensures pos <= LastStop(h, sec, pos, m).pos
  {}

  lemma OnTrackHasFiles(h: Header, sec: Section, start: nat, base: Files, table: Table, limit: nat,
      r: Reader, solo: Files, fs: Files)
    requires h.Accepted() && OnTrack(h, sec, start, base, table, limit, r, solo, fs)
    ensures FilesInv(h, sec, start, base, fs) && fs.lastEnd <= limit
  {}

  lemma NewcomerOnTrack(h: Header, sec: Section, start: nat, base: Files, fs: Files)
    requires h.Accepted() && base.lastEnd <= start && FilesInv(h, sec, start, base, fs)
    requires fs.lastEnd <= LastStop(h, sec, start, Machine(Reset(h.defaultIsStmt), base)).pos
    ensures var m := Machine(Reset(h.defaultIsStmt), base);
      OnTrack(h, sec, start, base, AllRows(h, sec, start, m), LastStop(h, sec, start, m).pos,
              Reader(start, Reset(h.defaultIsStmt), [], None), base, fs)
  {
    hide FilesInv, AllRows, LastStop;
    BaseIsInv(h, sec, start, base);
    DefinedEnds(h, sec, start, start);
    BaseIsLeast(h, sec, start, base, fs);
    var rows := AllRows(h, sec, start, Machine(Reset(h.defaultIsStmt), base)).entries;
    assert [] + rows == rows;
  }

  lemma BaseIsLeast(h: Header, sec: Section, start: nat, base: Files, fs: Files)
    requires FilesInv(h, sec, start, base, fs)
    ensures base.lastEnd <= fs.lastEnd
  {}

  // ---------- how far the list has got ----------

  /** The position of the reader furthest on. */
  function Furthest(readers: seq<Reader>, start: nat): (f: nat)
    ensures f >= start && forall r :: r in readers ==> r.pos <= f
    ensures f == start || exists r :: r in readers && r.pos == f
  {
    if readers == [] then start
    else
      var rest := Furthest(readers[1..], start);
      if readers[0].pos > rest then readers[0].pos else rest
  }

  lemma FurthestGrows(a: seq<Reader>, b: seq<Reader>, start: nat)
    requires |a| <= |b| && forall k :: 0 <= k < |a| ==> a[k].pos <= b[k].pos
    ensures Furthest(a, start) <= Furthest(b, start)
  {
    if Furthest(a, start) != start {
      var r :| r in a && r.pos == Furthest(a, start);
      var k :| 0 <= k < |a| && a[k] == r;
      assert b[k] in b;
    }
  }

  function Max(a: nat, b: nat): nat { if a < b then b else a }

  /** Reading moves the mark no further than it reads. */
  lemma StepMark(h: Header, sec: Section, pos: nat, m: Machine)
    requires h.Accepted()
    ensures var s := Step(h, sec, pos, m); !s.Failed? ==> s.m.files.lastEnd <= Max(m.files.lastEnd, s.next)
  {
    hide Decode, Exec, PathOf;
  }

  lemma {:induction false} RunMark(h: Header, sec: Section, pos: nat, m: Machine)
    requires h.Accepted()
    ensures var s := StepToRow(h, sec, pos, m); s.Emitted? ==> s.m.files.lastEnd <= Max(m.files.lastEnd, s.next)
    decreases |sec.data| - pos
  {
    hide Step;
    if pos < |sec.data| {
      var s := Step(h, sec, pos, m);
      StepMark(h, sec, pos, m);
      StepGrows(h, sec, pos, m);
      if s.Silent? {
        RunMark(h, sec, s.next, s.m);
        RunGrows(h, sec, s.next, s.m);
      }
    }
  }

  lemma RunGrows(h: Header, sec: Section, pos: nat, m: Machine)
    requires h.Accepted()
    ensures var s := StepToRow(h, sec, pos, m); s.Emitted? ==> pos < s.next
  {}

  lemma IncrementMark(h: Header, sec: Section, pos: nat, m: Machine)
    requires h.Accepted()
    ensures var a := Increment(h, sec, pos, m);
      a.Next? ==> pos < a.pos && a.m.files.lastEnd <= Max(m.files.lastEnd, a.pos)
  {
    hide StepToRow;
    RunMark(h, sec, pos, m);
    RunGrows(h, sec, pos, m);
  }

  predicate NoneFailed(s: System) { forall r :: r in s.readers ==> r.failed.None? }

  /** As long as nobody has failed, the mark is not beyond the reader furthest on. */
  lemma {:induction false} MarkIsReached(h: Header, sec: Section, start: nat, base: Files, acts: seq<Action>)
    requires h.Accepted() && base.lastEnd <= start
    ensures var s := Interleave(h, sec, start, System(base, []), acts);
      NoneFailed(s) ==> s.files.lastEnd <= Furthest(s.readers, start)
  {
    hide Increment, Furthest;
    if acts != [] {
      var n := |acts| - 1;
      MarkIsReached(h, sec, start, base, acts[..n]);
      MarkMoves(h, sec, start, Interleave(h, sec, start, System(base, []), acts[..n]), acts[n]);
    }
  }

  lemma MarkMoves(h: Header, sec: Section, start: nat, s: System, a: Action)
    requires h.Accepted()
    ensures var t := Act(h, sec, start, s, a);
      NoneFailed(t) ==>
        && NoneFailed(s) && t.files.lastEnd <= Max(s.files.lastEnd, Furthest(t.readers, start))
        && Furthest(s.readers, start) <= Furthest(t.readers, start)
  {
    hide Increment, Furthest;
    var t := Act(h, sec, start, s, a);
    if a.AdvanceReader? && a.k < |s.readers| && s.readers[a.k].failed.None? {
      IncrementMark(h, sec, s.readers[a.k].pos, Machine(s.readers[a.k].regs, s.files));
      assert t.readers[a.k] in t.readers;
      forall r | r in s.readers && NoneFailed(t) ensures r.failed.None? {
        var j :| 0 <= j < |s.readers| && s.readers[j] == r;
        assert j != a.k ==> t.readers[j] in t.readers;
      }
    }
    if NoneFailed(t) { FurthestGrows(s.readers, t.readers, start); }
  }

  /** A reader alone, too, ends with everything up to its stop. */
  lemma {:induction false} AloneIsUpTo(h: Header, sec: Section, start: nat, base: Files, pos: nat, m: Machine)
    requires h.Accepted() && GoodDirs(h, sec, start, LastStop(h, sec, pos, m).pos)
    requires FilesInv(h, sec, start, base, m.files) && ReaderInv(h, sec, start, pos, m.files) && m.files.lastEnd <= pos
    ensures UpTo(h, sec, start, base, LastStop(h, sec, pos, m).pos, AllRows(h, sec, pos, m).m.files)
    decreases |sec.data| - pos
  {
    hide Increment, FilesInv, ReaderInv, GoodDirs, UpTo, RunStop;
    var limit := LastStop(h, sec, pos, m).pos;
    LastStopGrows(h, sec, pos, m);
    IncrementIsSame(h, sec, start, base, pos, limit, m.regs, m.files, m.files);
    var a := Increment(h, sec, pos, m);
    if a.AtEnd? { ReadIsUpTo(h, sec, start, base, pos, m.files); }
    if a.Next? {
      IncrementMark(h, sec, pos, m);
      AloneIsUpTo(h, sec, start, base, a.pos, a.m);
    }
  }

  /** What a reader has seen and sees next, against the table of a reader alone: a prefix of its rows, all
      of them at the end, and the same error at the same row. */
  predicate SeesAlone(h: Header, sec: Section, solo: Table, r: Reader, fs: Files)
    requires h.Accepted()
  {
    if r.failed.Some? then r.seen == solo.entries && solo.error == r.failed
    else
      && r.seen <= solo.entries
      && match Increment(h, sec, r.pos, Machine(r.regs, fs))
         case AtEnd => r.seen == solo.entries && solo.error == None
         case Broken(e, _) => r.seen == solo.entries && solo.error == Some(e)
         case Next(_, e, _) => r.seen + [e] <= solo.entries
  }

  lemma OnTrackSeesAlone(h: Header, sec: Section, start: nat, base: Files, table: Table, limit: nat,
      r: Reader, solo: Files, fs: Files)
    requires h.Accepted() && OnTrack(h, sec, start, base, table, limit, r, solo, fs) && GoodDirs(h, sec, start, limit)
    ensures SeesAlone(h, sec, table, r, fs)
  {
    hide Increment, Behind, GoodDirs, UpTo, LastStop;
    if r.failed.None? { StaysOnTrack(h, sec, start, base, table, limit, r, solo, fs); }
  }

  predicate Finished(sec: Section, r: Reader) { r.failed.Some? || r.pos >= |sec.data| }

  lemma FinishedIsUpTo(h: Header, sec: Section, start: nat, base: Files, table: Table, limit: nat,
      r: Reader, solo: Files, fs: Files)
    requires h.Accepted() && OnTrack(h, sec, start, base, table, limit, r, solo, fs) && Finished(sec, r)
    ensures UpTo(h, sec, start, base, limit, fs)
  {
    hide UpTo, Behind, AllRows;
    if r.failed.None? { EndIsUpTo(h, sec, start, base, r.pos, limit, solo, fs); }
  }

  /** What has been taken in is exactly what the reader furthest on has passed. */
  lemma TakenIsPassed(h: Header, sec: Section, start: nat, base: Files, fs: Files, f: nat)
    requires FilesInv(h, sec, start, base, fs) && fs.lastEnd <= f
    requires forall e :: e in Defined(h, sec, start, f) ==> e.end <= fs.lastEnd
    ensures fs.names == base.names + FilesOf(h, Defined(h, sec, start, f))
  {
    hide Defined;
    DefinedNoMore(h, sec, start, fs.lastEnd, f);
  }

  /** Whatever is read and whoever fails, the list stays in program order. */
  lemma {:induction false} RunKeepsList(h: Header, sec: Section, start: nat, base: Files, pos: nat, m: Machine)
    requires h.Accepted() && FilesInv(h, sec, start, base, m.files) && ReaderInv(h, sec, start, pos, m.files)
    ensures match StepToRow(h, sec, pos, m)
            case Silent(_, _) => false
            case Failed(_, files) => FilesInv(h, sec, start, base, files) && m.files.lastEnd <= files.lastEnd
            case Emitted(m', _, next) =>
              && FilesInv(h, sec, start, base, m'.files) && m.files.lastEnd <= m'.files.lastEnd
              && ReaderInv(h, sec, start, next, m'.files)
    decreases |sec.data| - pos
  {
    hide Decode, FilesInv, ReaderInv, Exec;
    if pos < |sec.data| && Decode(h, sec, pos).Ok? {
      PassKeeps(h, sec, start, base, pos, m.files);
      StepGrows(h, sec, pos, m);
      var s := Step(h, sec, pos, m);
      if s.Silent? { RunKeepsList(h, sec, start, base, s.next, s.m); }
    }
  }

  predicate ListInv(h: Header, sec: Section, start: nat, base: Files, s: System) {
    && FilesInv(h, sec, start, base, s.files)
    && forall r :: r in s.readers ==> ReaderInv(h, sec, start, r.pos, s.files)
  }

  lemma ActKeepsList(h: Header, sec: Section, start: nat, base: Files, s: System, a: Action)
    requires h.Accepted() && ListInv(h, sec, start, base, s)
    ensures ListInv(h, sec, start, base, Act(h, sec, start, s, a))
  {
    hide FilesInv, StepToRow, Defined;
    DefinedEnds(h, sec, start, start);
    if a.AdvanceReader? && a.k < |s.readers| {
      var r := s.readers[a.k];
      RunKeepsList(h, sec, start, base, r.pos, Machine(r.regs, s.files));
      var st := StepToRow(h, sec, r.pos, Machine(r.regs, s.files));
      if st.Emitted? { CompleteIsNoMatter(h, sec, start, base, st.next, st.next, st.m.files); }
    }
  }

  /** On every table and in every interleaving the file list is the header's files and then the define_file
      entries up to the mark, each once and in program order, without those whose directory does not exist;
      and as long as nobody has failed these are the entries that the reader furthest on has passed. */
  lemma {:induction false} ListIsInOrder(h: Header, sec: Section, start: nat, base: Files, acts: seq<Action>)
    requires h.Accepted() && base.lastEnd <= start
    ensures var s := Interleave(h, sec, start, System(base, []), acts);
      && ListInv(h, sec, start, base, s)
      && s.files.names == base.names + FilesOf(h, Defined(h, sec, start, s.files.lastEnd))
      && (NoneFailed(s) ==>
            s.files.names == base.names + FilesOf(h, Defined(h, sec, start, Furthest(s.readers, start))))
  {
    hide Act, Furthest, Defined, FilesOf;
    var s := Interleave(h, sec, start, System(base, []), acts);
    if acts == [] {
      BaseIsInv(h, sec, start, base);
    } else {
      var n := |acts| - 1;
      ListIsInOrder(h, sec, start, base, acts[..n]);
      ActKeepsList(h, sec, start, base, Interleave(h, sec, start, System(base, []), acts[..n]), acts[n]);
    }
    if NoneFailed(s) {
      MarkIsReached(h, sec, start, base, acts);
      var f := Furthest(s.readers, start);
      if f == start { DefinedEnds(h, sec, start, start); }
      TakenIsPassed(h, sec, start, base, s.files, f);
    }
  }

  /** However many readers run over one table, however their steps interleave, and whether the table is
      sound or not: every reader sees exactly the rows, files included, that a reader alone sees, and ends
      or fails where that one does; as long as nobody has failed the file list is the header's files and
      then the define_file entries that the reader furthest on has passed, each once and in program order;
      and once somebody has ended or failed it is the list a reader alone leaves. The condition is that a
      reader alone comes to no entry with a bad directory. */
  lemma SharingIsInvisible(h: Header, sec: Section, start: nat, base: Files, acts: seq<Action>)
    requires h.Accepted() && base.lastEnd <= start
    requires GoodDirs(h, sec, start, LastStop(h, sec, start, Machine(Reset(h.defaultIsStmt), base)).pos)
    ensures var s := Interleave(h, sec, start, System(base, []), acts);
      var solo := AllRows(h, sec, start, Machine(Reset(h.defaultIsStmt), base));
      && (forall r :: r in s.readers ==> SeesAlone(h, sec, solo, r, s.files))
      && (NoneFailed(s) ==>
            s.files.names == base.names + FilesOf(h, Defined(h, sec, start, Furthest(s.readers, start))))
      && ((exists r :: r in s.readers && Finished(sec, r)) ==> s.files.names == solo.m.files.names)
  {
    hide Interleave, Defined, Furthest, FilesInv, FilesOf, AllRows, LastStop, GoodDirs, OnTrack, SeesAlone, UpTo;
    var m := Machine(Reset(h.defaultIsStmt), base);
    var solo, limit := AllRows(h, sec, start, m), LastStop(h, sec, start, m).pos;
    var alone := InterleavingKeeps(h, sec, start, base, acts);
    var s := Interleave(h, sec, start, System(base, []), acts);
    forall r | r in s.readers
      ensures SeesAlone(h, sec, solo, r, s.files)
      ensures Finished(sec, r) ==> UpTo(h, sec, start, base, limit, s.files)
    {
      var k :| 0 <= k < |s.readers| && s.readers[k] == r;
      OnTrackSeesAlone(h, sec, start, base, solo, limit, r, alone[k], s.files);
      if Finished(sec, r) { FinishedIsUpTo(h, sec, start, base, solo, limit, r, alone[k], s.files); }
    }
    ListIsInOrder(h, sec, start, base, acts);
    if r :| r in s.readers && Finished(sec, r) {
      BaseIsRead(h, sec, start, base);
      AloneIsUpTo(h, sec, start, base, start, m);
      UpToIsAll(h, sec, start, base, limit, s.files);
      UpToIsAll(h, sec, start, base, limit, solo.m.files);
    }
  }

  lemma BaseIsRead(h: Header, sec: Section, start: nat, base: Files)
    requires base.lastEnd <= start
    ensures FilesInv(h, sec, start, base, base) && ReaderInv(h, sec, start, start, base)
  {
    hide FilesInv, Defined;
    BaseIsInv(h, sec, start, base);
    DefinedEnds(h, sec, start, start);
  }

  lemma BaseIsInv(h: Header, sec: Section, start: nat, base: Files)
    requires base.lastEnd <= start
    ensures FilesInv(h, sec, start, base, base)
  {
    hide Defined;
    DefinedEnds(h, sec, start, base.lastEnd);
    assert base.names + FilesOf(h, []) == base.names;
  }
}
