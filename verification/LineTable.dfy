/** The line table and its iterators as objects: every iterator reads one shared program and grows one
    shared file list. */
module LineTableObject {
  import opened Words
  import opened Sections
  import opened LineProgram
  import opened LineSearch

  class LineTable {
    const header: Header
    const sec: Section
    const programOffset: nat
    var fileNames: seq<File>
    var lastFileNameEnd: nat
    var fileNamesComplete: bool

    constructor (header: Header, sec: Section, programOffset: nat, cuFile: File)
      ensures this.header == header && this.sec == sec && this.programOffset == programOffset
      ensures View() == Files([cuFile], 0, false)
    {
      this.header := header;
      this.sec := sec;
      this.programOffset := programOffset;
      fileNames := [cuFile];
      lastFileNameEnd := 0;
      fileNamesComplete := false;
    }

    function View(): Files
      reads this
    {
      Files(fileNames, lastFileNameEnd, fileNamesComplete)
    }

    /** False when the cursor stands on the empty name that ends the header's list. */
    method ReadFileEntry(cur: Cursor, inHeader: bool) returns (r: Result<bool>)
      requires cur.sec == sec
      modifies this, cur
      ensures var name := StringAt(sec, old(cur.pos));
        if inHeader && name.Ok? && name.value.0 == [] then
          r == Ok(false) && View() == old(View()) && cur.pos == name.value.1
        else
          var (files, end) := DefineAt(header, sec, old(cur.pos), old(View()));
          View() == files && (if end.Ok? then r == Ok(true) && cur.pos == end.value else r == Err(end.error))
    {
      var name := cur.Cstr();
      if name.Err? { return Err(name.error); }
      if inHeader && name.value == [] { return Ok(false); }
      var dirIndex := cur.Uleb128();
      if dirIndex.Err? { return Err(dirIndex.error); }
      var mtime := cur.Uleb128();
      if mtime.Err? { return Err(mtime.error); }
      var length := cur.Uleb128();
      if length.Err? { return Err(length.error); }
      if cur.pos <= lastFileNameEnd { return Ok(true); }
      lastFileNameEnd := cur.pos;
      if name.value != [] && name.value[0] == 0x2f {
        fileNames := fileNames + [File(name.value, mtime.value, length.value)];
      } else if dirIndex.value < |header.dirs| {
        fileNames := fileNames + [File(header.dirs[dirIndex.value] + name.value, mtime.value, length.value)];
      } else {
        return Err(FormatError);
      }
      return Ok(true);
    }
  }

  /** The lookups on a table; each iterator they make starts at the beginning of the program. */
  class Lookup {
    const table: LineTable

    constructor (table: LineTable)
      ensures this.table == table
    {
      this.table := table;
    }

    /** What a reader starting now would see. */
    function Rows(): Table
      requires table.header.Accepted()
      reads table
    {
      AllRows(table.header, table.sec, table.programOffset,
              Machine(Reset(table.header.defaultIsStmt), table.View()))
    }

    /** `begin()`: an iterator already advanced to the first row. */
    method Begin() returns (it: LineIterator, r: Result<()>)
      requires table.header.Accepted()
      modifies table
      ensures fresh(it) && it.table == table
      ensures match LineProgram.Increment(table.header, table.sec, table.programOffset,
                      old(Machine(Reset(table.header.defaultIsStmt), table.View())))
              case AtEnd => r == Ok(()) && it.pos == table.programOffset && it.Valid()
                            && it.View() == old(Machine(Reset(table.header.defaultIsStmt), table.View()))
              case Next(m, e, next) => r == Ok(()) && it.Valid() && it.View() == m
                      && it.pos == next && it.entry == e.row
              case Broken(e, _) => r == Err(e)
    {
      it := new LineIterator.Start(table);
      assert it.View() == old(Machine(Reset(table.header.defaultIsStmt), table.View()));
      r := it.Increment();
    }

    /** `find_address`: the iterator at the row found; none stands for `end()`. */
    method FindAddress(addr: word) returns (r: Result<Option<LineIterator>>)
      requires table.header.Accepted() && table.programOffset <= |table.sec.data|
      modifies table
      ensures match FindIn(old(Rows()), addr)
              case Err(e) => r == Err(e)
              case Ok(None) => r == Ok(None)
              case Ok(Some(i)) => r.Ok? && r.value.Some? && r.value.value.entry == old(Rows()).entries[i].row
    {
      hide Covers, FirstCover, Visible, Scan, AllRows, LineProgram.Increment;
      ghost var t := Rows();
      ghost var h, sec := table.header, table.sec;
      RowsUnfold(h, sec, table.programOffset, Machine(Reset(h.defaultIsStmt), table.View()));
      FindShort(t, addr);
      var prev, b := Begin();
      if b.Err? { return Err(b.error); }
      RowsUnfold(h, sec, prev.pos, prev.View());
      if prev.pos == |table.sec.data| { return Ok(None); }
      var it := new LineIterator.Copy(prev);
      ghost var rest := AllRows(h, sec, it.pos, it.View());
      b := it.Increment();
      if b.Err? { return Err(b.error); }
      ghost var k := 0;
      ScanFirst(t, addr, rest, AllRows(h, sec, it.pos, it.View()));
      while it.pos != |table.sec.data|
        invariant fresh(it) && fresh(prev) && it != prev && it.table == prev.table == table
        invariant it.Valid() && it.pos <= |sec.data|
        invariant k + 1 < |t.entries| && prev.entry == t.entries[k].row && it.entry == t.entries[k + 1].row
        invariant Scan(t, k, AllRows(h, sec, it.pos, it.View()), addr)
        decreases |sec.data| - it.pos
      {
        rest := AllRows(h, sec, it.pos, it.View());
        RowsUnfold(h, sec, it.pos, it.View());
        RowsLeft(h, sec, it.pos, it.View());
        CoversMeans(t.entries, k, addr);
        if prev.entry.address <= addr && it.entry.address > addr && !prev.entry.endSequence {
          ScanFound(t, k, rest, addr);
          return Ok(Some(prev));
        }
        prev := new LineIterator.Copy(it);
        b := it.Increment();
        if b.Err? {
          ScanDone(t, k, rest, addr);
          return Err(b.error);
        }
        ScanNext(t, k, rest, addr, rest.entries[0], AllRows(h, sec, it.pos, it.View()));
        k := k + 1;
      }
      RowsUnfold(h, sec, it.pos, it.View());
      ScanDone(t, k, AllRows(h, sec, it.pos, it.View()), addr);
      return Ok(None);
    }

    /** `get_file`: an index past the list has the whole program read once, in case it defines the file. */
    method GetFile(index: nat) returns (r: Result<File>)
      requires table.header.Accepted() && table.programOffset <= |table.sec.data|
      modifies table
      ensures var fs, all := old(table.View()), old(Rows());
        if index < |fs.names| then r == Ok(fs.names[index]) && table.View() == fs
        else if fs.complete then r == Err(OutOfRange) && table.View() == fs
        else if all.error.Some? then r == Err(all.error.value)
        else
          table.View() == all.m.files
          && r == if index < |all.m.files.names| then Ok(all.m.files.names[index]) else Err(OutOfRange)
    {
      hide AllRows, LineProgram.Increment;
      if index >= |table.fileNames| {
        if !table.fileNamesComplete {
          ghost var t := Rows();
          ghost var h, sec := table.header, table.sec;
          RowsUnfold(h, sec, table.programOffset, Machine(Reset(h.defaultIsStmt), table.View()));
          var it, b := Begin();
          if b.Err? { return Err(b.error); }
          while it.pos != |table.sec.data|
            invariant fresh(it) && it.table == table && it.Valid() && it.pos <= |sec.data|
            invariant AllRows(h, sec, it.pos, it.View()).m == t.m && AllRows(h, sec, it.pos, it.View()).error == t.error
            decreases |sec.data| - it.pos
          {
            RowsUnfold(h, sec, it.pos, it.View());
            b := it.Increment();
            if b.Err? { return Err(b.error); }
          }
          RowsUnfold(h, sec, it.pos, it.View());
        }
        if index >= |table.fileNames| { return Err(OutOfRange); }
      }
      return Ok(table.fileNames[index]);
    }
  }

  lemma CoversMeans(rows: seq<Entry>, k: nat, addr: word)
    requires k + 1 < |rows|
    ensures Covers(rows, k, addr) <==>
      rows[k].row.address <= addr && rows[k + 1].row.address > addr && !rows[k].row.endSequence
  {}

  /** Nothing is found among fewer than two rows. */
  lemma FindShort(t: Table, addr: word)
    ensures |t.entries| < 2 ==> FindIn(t, addr) == if t.error.Some? then Err(t.error.value) else Ok(None)
  {}

  lemma ScanFirst(t: Table, addr: word, rest: Table, rest': Table)
    requires |t.entries| >= 1 && t.entries[1..] == rest.entries && t.error == rest.error
    requires rest.entries != [] && rest.entries[1..] == rest'.entries && rest.error == rest'.error
    ensures Scan(t, 0, rest', addr) && t.entries[1] == rest.entries[0]
  {
    assert t.entries[2..] == t.entries[1..][1..];
  }

  /** One increment more is one row more. */
  lemma RowsUnfold(h: Header, sec: Section, pos: nat, m: Machine)
    requires h.Accepted()
    ensures LineProgram.Increment(h, sec, pos, m).AtEnd? <==> pos >= |sec.data|
    ensures match LineProgram.Increment(h, sec, pos, m)
            case AtEnd => AllRows(h, sec, pos, m) == Table([], m, None)
            case Broken(e, files) => AllRows(h, sec, pos, m) == Table([], m.(files := files), Some(e))
            case Next(m', entry, pos') =>
              && AllRows(h, sec, pos, m).entries == [entry] + AllRows(h, sec, pos', m').entries
              && AllRows(h, sec, pos, m).error == AllRows(h, sec, pos', m').error
              && AllRows(h, sec, pos, m).m == AllRows(h, sec, pos', m').m
  {
  }

  /** Before the end there is another row or an error. */
  lemma RowsLeft(h: Header, sec: Section, pos: nat, m: Machine)
    requires h.Accepted() && pos < |sec.data|
    ensures AllRows(h, sec, pos, m).entries != [] || AllRows(h, sec, pos, m).error.Some?
  {
  }

  class LineIterator {
    const table: LineTable
    var entry: Row
    var entryFile: Option<File>
    var regs: Row
    var pos: nat

    /** The registers a reader starts with, before its first increment. */
    constructor Start(table: LineTable)
      ensures this.table == table && regs == Reset(table.header.defaultIsStmt) && pos == table.programOffset
    {
      this.table := table;
      regs := Reset(table.header.defaultIsStmt);
      entry := Reset(false);
      entryFile := None;
      pos := table.programOffset;
    }

    constructor Copy(o: LineIterator)
      ensures table == o.table && entry == o.entry && entryFile == o.entryFile && regs == o.regs && pos == o.pos
    {
      table := o.table;
      entry := o.entry;
      entryFile := o.entryFile;
      regs := o.regs;
      pos := o.pos;
    }

    function View(): Machine
      reads this, table
    {
      Machine(regs, table.View())
    }

    predicate Valid()
      reads this
    {
      table.header.Accepted() && regs.opIndex < table.header.maxOps
    }

    method AdvancePcBy(uarg: word)
      requires Valid()
      modifies this`regs
      ensures regs == Advance(table.header, old(regs), uarg)
    {
      var h := table.header;
      var sum := Wrap(regs.opIndex + uarg);
      regs := regs.(address := Wrap(regs.address + h.minInst * (sum / h.maxOps)), opIndex := sum % h.maxOps);
    }

    method StepSpecial(adjusted: byte)
      requires Valid()
      modifies this`regs, this`entry
      ensures Exec(table.header, Special(adjusted), old(regs)) == (regs, Some(entry))
    {
      hide Wrap, Advance, Header.OpAdvance, Header.LineInc;
      var h := table.header;
      var opAdvance := adjusted / h.lineRange;
      var lineInc := h.lineBase + adjusted % h.lineRange;
      SpecialFields(h, adjusted);
      regs := regs.(line := (regs.line + lineInc) % TWO32);
      AdvanceFitsWord(h, regs, opAdvance);
      var sum := (regs.opIndex + opAdvance) % TWO32;
      regs := regs.(address := Wrap(regs.address + h.minInst * (sum / h.maxOps)));
      regs := regs.(opIndex := sum % h.maxOps);
      entry := regs;
      regs := regs.(basicBlock := false, prologueEnd := false, epilogueBegin := false);
      regs := regs.(discriminator := 0);
    }

    /** The outcome of a method that stands for `Step` from `at`: the same row, machine and position. */
    ghost predicate Did(s: Stepped, r: Result<bool>, cur: Cursor)
      reads this, table, cur
    {
      match s
      case Emitted(m, row, next) => r == Ok(true) && View() == m && entry == row && cur.pos == next
      case Silent(m, next) => r == Ok(false) && View() == m && cur.pos == next
      case Failed(e, files) => r == Err(e) && table.View() == files
    }

    /** The registers, the row and the cursor after a standard opcode. */
    ghost predicate DidStandard(s: Result<(Row, Option<Row>, nat)>, r: Result<bool>, cur: Cursor)
      reads this, cur
    {
      match s
      case Err(e) => r == Err(e)
      case Ok(p) => regs == p.0 && cur.pos == p.2 && r == Ok(p.1.Some?) && (p.1.Some? ==> entry == p.1.value)
    }

    method StepStandard(opcode: word, cur: Cursor) returns (r: Result<bool>)
      requires Valid() && cur.sec == table.sec && 0 < opcode < table.header.opcodeBase
      modifies this`regs, this`entry, cur
      ensures DidStandard(StandardStep(table.header, table.sec, opcode, old(cur.pos), old(regs)), r, cur)
    {
      hide UnsignedAt, SignedAt, FixedAt, Advance, StandardStep, Header.OpAdvance;
      StandardCases(table.header, table.sec, opcode, cur.pos, regs);
      if opcode in {2, 3, 4, 5, 9, 12} {
        r := StepOperand(opcode, cur);
        return;
      }
      if opcode == 1 {
        entry := regs;
        regs := regs.(basicBlock := false, prologueEnd := false, epilogueBegin := false);
        regs := regs.(discriminator := 0);
        return Ok(true);
      }
      if opcode == 6 { regs := regs.(isStmt := !regs.isStmt); return Ok(false); }
      if opcode == 7 { regs := regs.(basicBlock := true); return Ok(false); }
      if opcode == 8 {
        AdvancePcBy(table.header.OpAdvance(255 - table.header.opcodeBase));
        return Ok(false);
      }
      if opcode == 10 { regs := regs.(prologueEnd := true); return Ok(false); }
      if opcode == 11 { regs := regs.(epilogueBegin := true); return Ok(false); }
      return Err(FormatError);
    }

    /** The standard opcodes that read an operand. */
    method StepOperand(opcode: word, cur: Cursor) returns (r: Result<bool>)
      requires Valid() && cur.sec == table.sec && opcode in {2, 3, 4, 5, 9, 12}
      modifies this`regs, cur
      ensures DidStandard(StandardStep(table.header, table.sec, opcode, old(cur.pos), old(regs)), r, cur)
    {
      hide UnsignedAt, SignedAt, FixedAt, Advance, StandardStep;
      StandardCases(table.header, table.sec, opcode, cur.pos, regs);
      if opcode == 3 {
        var sarg := cur.Sleb128();
        if sarg.Err? { return Err(sarg.error); }
        regs := regs.(line := (regs.line + sarg.value) % TWO32);
        return Ok(false);
      }
      if opcode == 9 {
        var adv := cur.Fixed(2);
        if adv.Err? { return Err(adv.error); }
        regs := regs.(address := Wrap(regs.address + adv.value));
        regs := regs.(opIndex := 0);
        return Ok(false);
      }
      var uarg := cur.Uleb128();
      if uarg.Err? { return Err(uarg.error); }
      if opcode == 2 { AdvancePcBy(uarg.value); return Ok(false); }
      if opcode == 4 { regs := regs.(fileIndex := uarg.value % TWO32); return Ok(false); }
      if opcode == 5 { regs := regs.(column := uarg.value % TWO32); return Ok(false); }
      regs := regs.(isa := uarg.value % TWO32);
      return Ok(false);
    }

    method StepExtended(cur: Cursor) returns (r: Result<bool>)
      requires Valid() && cur.sec == table.sec
      modifies this`regs, this`entry, cur, table
      ensures Did(ExtendedStep(table.header, table.sec, old(cur.pos), old(View())), r, cur)
    {
      hide UnsignedAt, FixedAt, BodyStep;
      ExtendedUnfold(table.header, table.sec, cur.pos, View());
      var length := cur.Uleb128();
      if length.Err? { return Err(length.error); }
      var end := (cur.pos + length.value) % TWO64;
      var opcode := cur.Fixed(1);
      if opcode.Err? { return Err(opcode.error); }
      r := StepBody(opcode.value, end, cur);
    }

    /** An extended opcode: its operands, and the check that they end within the stated length. */
    method StepBody(opcode: word, end: nat, cur: Cursor) returns (r: Result<bool>)
      requires Valid() && cur.sec == table.sec
      modifies this`regs, this`entry, cur, table
      ensures Did(BodyStep(table.header, table.sec, opcode, old(cur.pos), end, old(View())), r, cur)
    {
      hide UnsignedAt, AddressAt, DefineAt, AddFile, BodyStep;
      BodyCases(table.header, table.sec, opcode, cur.pos, end, View());
      if opcode == 1 {
        regs := regs.(endSequence := true);
        entry := regs;
        regs := Reset(table.header.defaultIsStmt);
        if cur.pos > end { return Err(FormatError); }
        return Ok(true);
      }
      if opcode == 2 {
        var a := cur.Address();
        if a.Err? { return Err(a.error); }
        regs := regs.(address := a.value);
        regs := regs.(opIndex := 0);
      } else if opcode == 3 {
        ghost var (files, defined) := DefineAt(table.header, table.sec, cur.pos, table.View());
        var ok := table.ReadFileEntry(cur, false);
        assert table.View() == files && ok.Ok? == defined.Ok?;
        if ok.Err? { return Err(ok.error); }
      } else if opcode == 4 {
        var d := cur.Uleb128();
        if d.Err? { return Err(d.error); }
        regs := regs.(discriminator := d.value % TWO32);
      } else if opcode >= 0x80 {
        return Err(NotImplemented);
      } else {
        return Err(FormatError);
      }
      if cur.pos > end { return Err(FormatError); }
      return Ok(false);
    }

    /** `step`: one instruction at the cursor; true when it adds a row to the table. */
    method Step(cur: Cursor) returns (r: Result<bool>)
      requires Valid() && cur.sec == table.sec && cur.pos < |cur.sec.data|
      modifies this`regs, this`entry, cur, table
      ensures r.Ok? ==> Valid()
      ensures Did(LineProgram.Step(table.header, table.sec, old(cur.pos), old(View())), r, cur)
    {
      StepCases(table.header, table.sec, cur.pos, View());
      var opcode := cur.Fixed(1);
      ByteAt(table.sec, old(cur.pos));
      if opcode.value >= table.header.opcodeBase {
        StepSpecial(opcode.value - table.header.opcodeBase);
        r := Ok(true);
      } else if opcode.value != 0 {
        StandardIsStep(table.header, table.sec, old(cur.pos), old(View()));
        r := StepStandard(opcode.value, cur);
      } else {
        r := StepExtended(cur);
      }
      StepKeepsOpIndex(table.header, table.sec, old(cur.pos), old(View()));
    }

    /** `operator++` */
    method Increment() returns (r: Result<()>)
      requires Valid()
      modifies this, table
      ensures match LineProgram.Increment(table.header, table.sec, old(pos), old(View()))
              case AtEnd => r == Ok(()) && View() == old(View()) && pos == old(pos) && entry == old(entry)
                            && entryFile == old(entryFile) && Valid()
              case Next(m, e, next) => r == Ok(()) && View() == m && pos == next && entry == e.row
                                       && entryFile == Some(e.file) && Valid()
              case Broken(e, files) => r == Err(e) && table.View() == files
    {
      var cur := new Cursor(table.sec, pos);
      var stepped, output := false, false;
      while cur.pos < |cur.sec.data| && !output
        invariant Valid() && pos == old(pos) && entryFile == old(entryFile) && fresh(cur) && cur.sec == table.sec
        invariant !stepped ==> !output && View() == old(View()) && cur.pos == old(pos) && entry == old(entry)
        invariant stepped ==> old(pos) < |table.sec.data|
        invariant !output && old(pos) < |table.sec.data| ==>
          StepToRow(table.header, table.sec, old(pos), old(View())) ==
          StepToRow(table.header, table.sec, cur.pos, View())
        invariant output ==> stepped
        invariant output ==>
          StepToRow(table.header, table.sec, old(pos), old(View())) == Emitted(View(), entry, cur.pos)
        decreases !output, |cur.sec.data| - cur.pos
      {
        var s := Step(cur);
        if s.Err? { return Err(s.error); }
        output := s.value;
        stepped := true;
      }
      if stepped && !output { return Err(FormatError); }
      if stepped && cur.End() {
        table.fileNamesComplete := true;
      }
      if output {
        if entry.fileIndex < |table.fileNames| {
          entryFile := Some(table.fileNames[entry.fileIndex]);
        } else {
          return Err(FormatError);
        }
      }
      pos := cur.pos;
      return Ok(());
    }
  }

  lemma SpecialFields(h: Header, adjusted: byte)
    requires h.Accepted()
    ensures adjusted / h.lineRange == h.OpAdvance(adjusted)
    ensures h.lineBase + adjusted % h.lineRange == h.LineInc(adjusted)
  {}

  /** A special opcode's 32-bit sum never wraps. */
  lemma AdvanceFitsWord(h: Header, r: Row, n: nat)
    requires h.Accepted() && r.opIndex < h.maxOps && n < 256
    ensures var sum := (r.opIndex + n) % TWO32;
      Advance(h, r, n) == r.(address := Wrap(r.address + h.minInst * (sum / h.maxOps)), opIndex := sum % h.maxOps)
  {
    assert (r.opIndex + n) % TWO32 == Wrap(r.opIndex + n);
  }

  /** What `Step` does once the opcode byte 0 has been read. */
  function ExtendedStep(h: Header, sec: Section, pos: nat, m: Machine): Stepped
    requires h.Accepted()
  {
    match DecodeExtended(sec, pos)
    case Err(e) => Failed(e, m.files)
    case Ok(d) => Perform(h, d, m)
  }

  function BodyStep(h: Header, sec: Section, opcode: word, at: nat, end: nat, m: Machine): Stepped
    requires h.Accepted()
  {
    match DecodeBody(sec, opcode, at, end)
    case Err(e) => Failed(e, m.files)
    case Ok(d) => Perform(h, d, m)
  }

  lemma ExtendedUnfold(h: Header, sec: Section, pos: nat, m: Machine)
    requires h.Accepted()
    ensures ExtendedStep(h, sec, pos, m) ==
      match UnsignedAt(sec, pos)
      case Err(e) => Failed(e, m.files)
      case Ok(length) =>
        match FixedAt(sec, length.1, 1)
        case Err(e) => Failed(e, m.files)
        case Ok(opcode) => BodyStep(h, sec, opcode.0, opcode.1, (length.1 + length.0) % TWO64, m)
  {
    hide UnsignedAt, FixedAt, DecodeBody, Perform;
  }

  lemma BodyCases(h: Header, sec: Section, opcode: word, at: nat, end: nat, m: Machine)
    requires h.Accepted()
    ensures BodyStep(h, sec, opcode, at, end, m) ==
      if opcode == 1 then
        if at > end then Failed(FormatError, m.files)
        else Emitted(Machine(Reset(h.defaultIsStmt), m.files), m.regs.(endSequence := true), at)
      else if opcode == 2 then
        match AddressAt(sec, at)
        case Err(e) => Failed(e, m.files)
        case Ok(a) => Within(Machine(m.regs.(address := a.0, opIndex := 0), m.files), a.1, end)
      else if opcode == 3 then
        var (files, next) := DefineAt(h, sec, at, m.files);
        if next.Err? then Failed(next.error, files) else Within(Machine(m.regs, files), next.value, end)
      else if opcode == 4 then
        match UnsignedAt(sec, at)
        case Err(e) => Failed(e, m.files)
        case Ok(n) => Within(Machine(m.regs.(discriminator := n.0 % TWO32), m.files), n.1, end)
      else Failed(if opcode >= 0x80 then NotImplemented else FormatError, m.files)
  {
    hide UnsignedAt, AddressAt;
  }

  /** A step that adds no row, unless its operands run past their stated end. */
  function Within(m: Machine, next: nat, end: nat): Stepped {
    if next > end then Failed(FormatError, m.files) else Silent(m, next)
  }

  function StandardStep(h: Header, sec: Section, opcode: word, pos: nat, r: Row): Result<(Row, Option<Row>, nat)>
    requires h.Accepted()
  {
    var d :- DecodeStandard(sec, opcode, pos);
    var (regs, row) := Exec(h, d.instr, r);
    Ok((regs, row, d.next))
  }

  lemma StandardCases(h: Header, sec: Section, opcode: word, pos: nat, r: Row)
    requires h.Accepted()
    ensures StandardStep(h, sec, opcode, pos, r) ==
      if opcode == 1 then Ok((Cleared(r), Some(r), pos))
      else if opcode == 6 then Ok((r.(isStmt := !r.isStmt), None, pos))
      else if opcode == 7 then Ok((r.(basicBlock := true), None, pos))
      else if opcode == 8 then Ok((Advance(h, r, h.OpAdvance(255 - h.opcodeBase)), None, pos))
      else if opcode == 10 then Ok((r.(prologueEnd := true), None, pos))
      else if opcode == 11 then Ok((r.(epilogueBegin := true), None, pos))
      else if opcode == 3 then
        match SignedAt(sec, pos) case Err(e) => Err(e) case Ok(n) => Ok((AddLines(r, n.0), None, n.1))
      else if opcode == 9 then
        match FixedAt(sec, pos, 2)
        case Err(e) => Err(e)
        case Ok(n) => Ok((r.(address := Wrap(r.address + n.0), opIndex := 0), None, n.1))
      else if opcode in {2, 4, 5, 12} then
        match UnsignedAt(sec, pos)
        case Err(e) => Err(e)
        case Ok(n) =>
          Ok((if opcode == 2 then Advance(h, r, n.0)
              else if opcode == 4 then r.(fileIndex := n.0 % TWO32)
              else if opcode == 5 then r.(column := n.0 % TWO32)
              else r.(isa := n.0 % TWO32), None, n.1))
      else Err(FormatError)
  {
    hide UnsignedAt, SignedAt, FixedAt, Advance, AddLines, Header.OpAdvance, Wrap;
  }

  /** A step with a standard opcode, in terms of the registers alone. */
  lemma StandardIsStep(h: Header, sec: Section, pos: nat, m: Machine)
    requires h.Accepted() && pos < |sec.data| && 0 < sec.data[pos] < h.opcodeBase
    ensures LineProgram.Step(h, sec, pos, m) ==
      match StandardStep(h, sec, sec.data[pos], pos + 1, m.regs)
      case Err(e) => Failed(e, m.files)
      case Ok(p) =>
        if p.1.Some? then Emitted(Machine(p.0, m.files), p.1.value, p.2) else Silent(Machine(p.0, m.files), p.2)
  {
    hide UnsignedAt, SignedAt, FixedAt, Exec;
    ByteAt(sec, pos);
  }

  lemma StepCases(h: Header, sec: Section, pos: nat, m: Machine)
    requires h.Accepted() && pos < |sec.data|
    ensures var b := sec.data[pos];
      && (b >= h.opcodeBase ==>
            var (regs, row) := Exec(h, Special(b - h.opcodeBase), m.regs);
            row.Some? && LineProgram.Step(h, sec, pos, m) == Emitted(Machine(regs, m.files), row.value, pos + 1))
      && (b == 0 ==> LineProgram.Step(h, sec, pos, m) == ExtendedStep(h, sec, pos + 1, m))
  {
    ByteAt(sec, pos);
  }

  lemma StepKeepsOpIndex(h: Header, sec: Section, pos: nat, m: Machine)
    requires h.Accepted() && m.regs.opIndex < h.maxOps
    ensures var s := LineProgram.Step(h, sec, pos, m); !s.Failed? ==> s.m.regs.opIndex < h.maxOps
  {
    var d := Decode(h, sec, pos);
    if d.Ok? { ExecKeepsOpIndex(h, d.value.instr, m.regs); }
  }

  lemma ExecKeepsOpIndex(h: Header, i: Instr, r: Row)
    requires h.Accepted() && r.opIndex < h.maxOps
    ensures Exec(h, i, r).0.opIndex < h.maxOps
  {
    hide Header.OpAdvance;
  }
}
