/** The line-number program (section 6.2.5 of DWARF Version 4): its instructions, what each does to
    the registers, and the file table that every reader of one program shares. */
module LineProgram {
  import opened Words
  import opened Sections

  datatype Header = Header(
    minInst: byte,
    maxOps: byte,
    defaultIsStmt: bool,
    lineBase: int,
    lineRange: byte,
    opcodeBase: byte,
    dirs: seq<seq<byte>>)
  {
    /** What reading a header checks; the table of opcode lengths has thirteen entries. */
    predicate Accepted() {
      maxOps >= 1 && lineRange >= 1 && -128 <= lineBase < 128 && 1 <= opcodeBase <= 13
    }

    /** The operation advance and line increment of a special opcode (section 6.2.5.1). */
    function OpAdvance(adjusted: byte): (n: nat)
      requires lineRange >= 1
      ensures n < 256
    {
      DivBound(adjusted, lineRange);
      adjusted / lineRange
    }

    function LineInc(adjusted: byte): int
      requires lineRange >= 1
    {
      lineBase + adjusted % lineRange
    }
  }

  /** The state-machine registers; a row of the table is a snapshot of them. */
  datatype Row = Row(
    address: word,
    opIndex: nat,
    fileIndex: nat,
    line: nat,
    column: nat,
    isStmt: bool,
    basicBlock: bool,
    endSequence: bool,
    prologueEnd: bool,
    epilogueBegin: bool,
    isa: nat,
    discriminator: nat)

  function Reset(isStmt: bool): Row {
    Row(0, 0, 1, 1, 0, isStmt, false, false, false, false, 0, 0)
  }

  /** What emitting a row through a special opcode or copy clears. */
  function Cleared(r: Row): Row {
    r.(basicBlock := false, prologueEnd := false, epilogueBegin := false, discriminator := 0)
  }

  datatype Instr =
    | Special(adjusted: byte)
    | Copy
    | AdvancePc(advance: word)
    | AdvanceLine(delta: int)
    | SetFile(index: word)
    | SetColumn(column: word)
    | NegateStmt
    | SetBasicBlock
    | ConstAddPc
    | FixedAdvancePc(amount: word)
    | SetPrologueEnd
    | SetEpilogueBegin
    | SetIsa(isa: word)
    | EndSequence
    | SetAddress(address: word)
    | DefineFile(name: seq<byte>, dir: word, mtime: word, length: word)
    | SetDiscriminator(discriminator: word)

  /** The code's operation advance: the sum of op_index and operand wraps at 64 bits. */
  function Advance(h: Header, r: Row, n: word): Row
    requires h.maxOps >= 1
  {
    var s := Wrap(r.opIndex + n);
    r.(address := Wrap(r.address + h.minInst * (s / h.maxOps)), opIndex := s % h.maxOps)
  }

  function AddLines(r: Row, delta: int): Row { r.(line := (r.line + delta) % TWO32) }

  /** The registers after an instruction, and the row it adds to the table. */
  function Exec(h: Header, i: Instr, r: Row): (Row, Option<Row>)
    requires h.Accepted()
  {
    match i
    case Special(adj) =>
      var moved := Advance(h, AddLines(r, h.LineInc(adj)), h.OpAdvance(adj));
      (Cleared(moved), Some(moved))
    case Copy => (Cleared(r), Some(r))
    case AdvancePc(n) => (Advance(h, r, n), None)
    case AdvanceLine(delta) => (AddLines(r, delta), None)
    case SetFile(n) => (r.(fileIndex := n % TWO32), None)
    case SetColumn(n) => (r.(column := n % TWO32), None)
    case NegateStmt => (r.(isStmt := !r.isStmt), None)
    case SetBasicBlock => (r.(basicBlock := true), None)
    case ConstAddPc => (Advance(h, r, h.OpAdvance(255 - h.opcodeBase)), None)
    case FixedAdvancePc(n) => (r.(address := Wrap(r.address + n), opIndex := 0), None)
    case SetPrologueEnd => (r.(prologueEnd := true), None)
    case SetEpilogueBegin => (r.(epilogueBegin := true), None)
    case SetIsa(n) => (r.(isa := n % TWO32), None)
    case EndSequence => (Reset(h.defaultIsStmt), Some(r.(endSequence := true)))
    case SetAddress(a) => (r.(address := a, opIndex := 0), None)
    case DefineFile(_, _, _, _) => (r, None)
    case SetDiscriminator(n) => (r.(discriminator := n % TWO32), None)
  }

  // ---------- decoding ----------

  /** An instruction, where it ends, and whether an extended one kept within its stated length. */
  datatype Decoded = Decoded(instr: Instr, next: nat, fits: bool)

  function DecodeStandard(sec: Section, opcode: word, pos: nat): (r: Result<Decoded>)
    ensures r.Ok? ==> pos <= r.value.next <= |sec.data| || r.value.next == pos
  {
    if opcode == 1 then Ok(Decoded(Copy, pos, true))
    else if opcode == 2 then var n :- UnsignedAt(sec, pos); Ok(Decoded(AdvancePc(n.0), n.1, true))
    else if opcode == 3 then var n :- SignedAt(sec, pos); Ok(Decoded(AdvanceLine(n.0), n.1, true))
    else if opcode == 4 then var n :- UnsignedAt(sec, pos); Ok(Decoded(SetFile(n.0), n.1, true))
    else if opcode == 5 then var n :- UnsignedAt(sec, pos); Ok(Decoded(SetColumn(n.0), n.1, true))
    else if opcode == 6 then Ok(Decoded(NegateStmt, pos, true))
    else if opcode == 7 then Ok(Decoded(SetBasicBlock, pos, true))
    else if opcode == 8 then Ok(Decoded(ConstAddPc, pos, true))
    else if opcode == 9 then var n :- FixedAt(sec, pos, 2); Ok(Decoded(FixedAdvancePc(n.0), n.1, true))
    else if opcode == 10 then Ok(Decoded(SetPrologueEnd, pos, true))
    else if opcode == 11 then Ok(Decoded(SetEpilogueBegin, pos, true))
    else if opcode == 12 then var n :- UnsignedAt(sec, pos); Ok(Decoded(SetIsa(n.0), n.1, true))
    else Err(FormatError)
  }

  datatype FileEntry = FileEntry(name: seq<byte>, dir: word, mtime: word, length: word, end: nat)

  function FileEntryAt(sec: Section, pos: nat): (r: Result<FileEntry>)
    ensures r.Ok? ==> pos < r.value.end <= |sec.data|
  {
    var name :- StringAt(sec, pos);
    var dir :- UnsignedAt(sec, name.1);
    var mtime :- UnsignedAt(sec, dir.1);
    var length :- UnsignedAt(sec, mtime.1);
    Ok(FileEntry(name.0, dir.0, mtime.0, length.0, length.1))
  }

  /** An extended opcode's operands; `end` is where its stated length ends. */
  function DecodeBody(sec: Section, opcode: word, at: nat, end: nat): (r: Result<Decoded>)
    ensures r.Ok? ==> at <= r.value.next && (at <= |sec.data| ==> r.value.next <= |sec.data|)
  {
    if opcode == 1 then Ok(Decoded(EndSequence, at, at <= end))
    else if opcode == 2 then
      var a :- AddressAt(sec, at);
      Ok(Decoded(SetAddress(a.0), a.1, a.1 <= end))
    else if opcode == 3 then
      var f :- FileEntryAt(sec, at);
      Ok(Decoded(DefineFile(f.name, f.dir, f.mtime, f.length), f.end, f.end <= end))
    else if opcode == 4 then
      var n :- UnsignedAt(sec, at);
      Ok(Decoded(SetDiscriminator(n.0), n.1, n.1 <= end))
    else if opcode >= 0x80 then Err(NotImplemented)
    else Err(FormatError)
  }

  function DecodeExtended(sec: Section, pos: nat): (r: Result<Decoded>)
    ensures r.Ok? ==> pos < r.value.next <= |sec.data|
  {
    var length :- UnsignedAt(sec, pos);
    var opcode :- FixedAt(sec, length.1, 1);
    DecodeBody(sec, opcode.0, opcode.1, (length.1 + length.0) % TWO64)
  }

  function Decode(h: Header, sec: Section, pos: nat): (r: Result<Decoded>)
    ensures r.Ok? ==> pos < r.value.next <= |sec.data|
  {
    var opcode :- FixedAt(sec, pos, 1);
    if opcode.0 >= h.opcodeBase then
      ByteAt(sec, pos);
      Ok(Decoded(Special(opcode.0 - h.opcodeBase), opcode.1, true))
    else if opcode.0 != 0 then DecodeStandard(sec, opcode.0, opcode.1)
    else DecodeExtended(sec, opcode.1)
  }

  // ---------- the file table ----------

  datatype File = File(path: seq<byte>, mtime: word, length: word)

  /** The table's file list, the end of the last entry taken into it, and whether a reader has been
      through the whole program. */
  datatype Files = Files(names: seq<File>, lastEnd: nat, complete: bool)

  function PathOf(h: Header, name: seq<byte>, dir: word): Result<seq<byte>> {
    if name != [] && name[0] == 0x2f then Ok(name)
    else if dir < |h.dirs| then Ok(h.dirs[dir] + name)
    else Err(FormatError)
  }

  /** An entry that ends at or before the last one taken was processed already, by this reader or
      another. The mark moves before the directory is looked up. */
  function AddFile(h: Header, fs: Files, e: FileEntry): (Files, Result<()>) {
    if e.end <= fs.lastEnd then (fs, Ok(()))
    else
      var marked := fs.(lastEnd := e.end);
      match PathOf(h, e.name, e.dir)
      case Ok(path) => (marked.(names := fs.names + [File(path, e.mtime, e.length)]), Ok(()))
      case Err(err) => (marked, Err(err))
  }

  /** Reading an entry and taking it into the table; the result is where the entry ends. */
  function DefineAt(h: Header, sec: Section, pos: nat, fs: Files): (Files, Result<nat>) {
    match FileEntryAt(sec, pos)
    case Err(e) => (fs, Err(e))
    case Ok(entry) =>
      var (files, added) := AddFile(h, fs, entry);
      (files, if added.Ok? then Ok(entry.end) else Err(added.error))
  }

  // ---------- one step, one advance ----------

  datatype Machine = Machine(regs: Row, files: Files)

  datatype Stepped =
    | Emitted(m: Machine, row: Row, next: nat)
    | Silent(m: Machine, next: nat)
    | Failed(error: Error, files: Files)

  function Perform(h: Header, d: Decoded, m: Machine): (r: Stepped)
    requires h.Accepted()
    ensures !r.Failed? ==> r.next == d.next
  {
    var (files, added) :=
      if d.instr.DefineFile?
      then AddFile(h, m.files, FileEntry(d.instr.name, d.instr.dir, d.instr.mtime, d.instr.length, d.next))
      else (m.files, Ok(()));
    if added.Err? then Failed(added.error, files)
    else if !d.fits then Failed(FormatError, files)
    else
      var (regs, row) := Exec(h, d.instr, m.regs);
      if row.Some? then Emitted(Machine(regs, files), row.value, d.next)
      else Silent(Machine(regs, files), d.next)
  }

  function Step(h: Header, sec: Section, pos: nat, m: Machine): (r: Stepped)
    requires h.Accepted()
    ensures !r.Failed? ==> pos < r.next <= |sec.data|
  {
    match Decode(h, sec, pos)
    case Err(e) => Failed(e, m.files)
    case Ok(d) => Perform(h, d, m)
  }

  /** A line-table row together with its file. */
  datatype Entry = Entry(row: Row, file: File)

  datatype Advanced =
    | AtEnd
    | Next(m: Machine, entry: Entry, pos: nat)
    | Broken(error: Error, files: Files)

  /** Steps until a row comes out. */
  function StepToRow(h: Header, sec: Section, pos: nat, m: Machine): (r: Stepped)
    requires h.Accepted()
    ensures !r.Silent?
    ensures r.Emitted? ==> pos < r.next <= |sec.data|
    decreases |sec.data| - pos
  {
    if pos >= |sec.data| then Failed(FormatError, m.files)
    else
      var s := Step(h, sec, pos, m);
      if s.Silent? then StepToRow(h, sec, s.next, s.m) else s
  }

  /** `iterator::operator++` from a position. */
  function Increment(h: Header, sec: Section, pos: nat, m: Machine): (r: Advanced)
    requires h.Accepted()
    ensures r.Next? ==> pos < r.pos <= |sec.data|
  {
    if pos >= |sec.data| then AtEnd
    else
      match StepToRow(h, sec, pos, m)
      case Failed(e, files) => Broken(e, files)
      case Silent(_, _) => AtEnd
      case Emitted(m', row, next) =>
        var files := if next >= |sec.data| then m'.files.(complete := true) else m'.files;
        if row.fileIndex < |files.names|
        then Next(Machine(m'.regs, files), Entry(row, files.names[row.fileIndex]), next)
        else Broken(FormatError, files)
  }

  /** Every row from a position on, for one reader alone: all the increments up to the end. */
  datatype Table = Table(entries: seq<Entry>, m: Machine, error: Option<Error>)

  function AllRows(h: Header, sec: Section, pos: nat, m: Machine): Table
    requires h.Accepted()
    decreases |sec.data| - pos
  {
    match Increment(h, sec, pos, m)
    case AtEnd => Table([], m, None)
    case Broken(e, files) => Table([], m.(files := files), Some(e))
    case Next(m', entry, pos') =>
      var rest := AllRows(h, sec, pos', m');
      rest.(entries := [entry] + rest.entries)
  }
}
