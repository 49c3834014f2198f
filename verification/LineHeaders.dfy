/** The header of a line table (section 6.2.4 of DWARF Version 4): reading it, and that a header laid out is
    read back. */
module LineHeaders {
  import opened Words
  import opened Sections
  import opened LineProgram
  import opened FileLists
  import opened LineTableObject
  import opened Units

  const SLASH: byte := 0x2f

  /** How many operands the opcodes 1 to 12 take. */
  const OPERANDS: seq<byte> := [0, 0, 1, 1, 1, 1, 0, 0, 0, 1, 0, 0, 1]

  datatype Loaded = Loaded(header: Header, sec: Section, programOffset: nat, files: Files)

  // ---------- reading ----------

  function UbyteAt(sec: Section, pos: nat): (r: Result<(byte, nat)>)
    ensures r.Ok? ==> r.value.1 == pos + 1 <= |sec.data|
  {
    var b :- FixedAt(sec, pos, 1);
    ByteAt(sec, pos);
    Ok((b.0, b.1))
  }

  /** The numbers up to opcode_base, and where they end. */
  function ReadNumbers(sec: Section, version: word, pos: nat): (r: Result<(Header, nat)>)
    ensures r.Ok? ==> pos < r.value.1 <= |sec.data|
  {
    var minInst :- UbyteAt(sec, pos);
    var maxOps :- if version >= 4 then UbyteAt(sec, minInst.1) else Ok((1, minInst.1));
    if maxOps.0 == 0 then Err(FormatError)
    else
      var isStmt :- UbyteAt(sec, maxOps.1);
      var lineBase :- UbyteAt(sec, isStmt.1);
      var lineRange :- UbyteAt(sec, lineBase.1);
      if lineRange.0 == 0 then Err(FormatError)
      else
        var opcodeBase :- UbyteAt(sec, lineRange.1);
        Ok((Header(minInst.0, maxOps.0, isStmt.0 != 0, if lineBase.0 < 128 then lineBase.0 else lineBase.0 - 256,
                   lineRange.0, opcodeBase.0, []), opcodeBase.1))
  }

  /** The table of operand counts has thirteen entries, and without an opcode 0 it has no first. */
  function CheckLengths(sec: Section, opcodeBase: byte, i: nat, pos: nat): (r: Result<nat>)
    ensures r.Ok? ==> r.value >= pos
    decreases opcodeBase - i
  {
    if opcodeBase == 0 then Err(Undefined)
    else if i >= opcodeBase then Ok(pos)
    else
      var n :- UbyteAt(sec, pos);
      if i >= |OPERANDS| then Err(Undefined)
      else if n.0 != OPERANDS[i] then Err(FormatError)
      else CheckLengths(sec, opcodeBase, i + 1, n.1)
  }

  function WithSlash(dir: seq<byte>): seq<byte> {
    if dir == [] || dir[|dir| - 1] == SLASH then dir else dir + [SLASH]
  }

  function DirPath(comp: seq<byte>, dir: seq<byte>): seq<byte> {
    var d := WithSlash(dir);
    if d != [] && d[0] == SLASH then d else comp + d
  }

  function ReadDirs(sec: Section, comp: seq<byte>, pos: nat): (r: Result<(seq<seq<byte>>, nat)>)
    ensures r.Ok? ==> pos < r.value.1 <= |sec.data|
    decreases |sec.data| - pos
  {
    var dir :- StringAt(sec, pos);
    if dir.0 == [] then Ok(([], dir.1))
    else
      var rest :- ReadDirs(sec, comp, dir.1);
      Ok(([DirPath(comp, dir.0)] + rest.0, rest.1))
  }

  /** The list of files, up to an empty name. */
  function ReadFiles(h: Header, sec: Section, pos: nat, fs: Files): (Files, Result<nat>)
    decreases |sec.data| - pos
  {
    var name := StringAt(sec, pos);
    if name.Ok? && name.value.0 == [] then (fs, Ok(name.value.1))
    else
      var (files, end) := DefineAt(h, sec, pos, fs);
      match end
      case Err(e) => (files, Err(e))
      case Ok(next) => if next <= pos || next > |sec.data| then (files, Ok(next)) else ReadFiles(h, sec, next, files)
  }

  function UnitFile(comp: seq<byte>, name: seq<byte>): File {
    File(if name != [] && name[0] == SLASH then name else comp + name, 0, 0)
  }

  /** The header from behind its own length, with the files it lists. */
  function ReadHeader(sub: Section, version: word, pos: nat, comp: seq<byte>, name: seq<byte>):
      Result<(Header, Files)>
  {
    var numbers :- ReadNumbers(sub, version, pos);
    var dirsAt :- CheckLengths(sub, numbers.0.opcodeBase, 1, numbers.1);
    var dirs :- ReadDirs(sub, comp, dirsAt);
    var header := numbers.0.(dirs := [comp] + dirs.0);
    var (files, end) := ReadFiles(header, sub, dirs.1, Files([UnitFile(comp, name)], 0, false));
    if end.Err? then Err(end.error) else Ok((header, files))
  }

  /** The constructor of a line table, given the unit's address size, directory and name. */
  function ReadLineTable(sec: Section, offset: nat, addrSize: byte, dir: seq<byte>, name: seq<byte>): Result<Loaded> {
    var s :- SubsectionAt(sec, offset);
    var sub := s.0.(addrSize := addrSize);
    var version :- FixedAt(sub, InitialLength(sub.fmt), 2);
    if version.0 < 2 || version.0 > 4 then Err(FormatError)
    else
      var length :- OffsetAt(sub, version.1);
      var table :- ReadHeader(sub, version.0, length.1, WithSlash(dir), name);
      Ok(Loaded(table.0, sub, Wrap(length.1 + length.0), table.1))
  }

  // ---------- the procedures ----------

  method ReadHeaderNumbers(cur: Cursor, version: word) returns (r: Result<Header>)
    modifies cur
    ensures match ReadNumbers(cur.sec, version, old(cur.pos))
            case Err(e) => r == Err(e)
            case Ok(n) => r == Ok(n.0) && cur.pos == n.1
  {
    hide FixedAt;
    var minInst := ReadUbyte(cur);
    if minInst.Err? { return Err(minInst.error); }
    var maxOps: Result<byte> := Ok(1);
    if version >= 4 { maxOps := ReadUbyte(cur); }
    if maxOps.Err? { return Err(maxOps.error); }
    if maxOps.value == 0 { return Err(FormatError); }
    var isStmt := ReadUbyte(cur);
    if isStmt.Err? { return Err(isStmt.error); }
    var lineBase := ReadUbyte(cur);
    if lineBase.Err? { return Err(lineBase.error); }
    var lineRange := ReadUbyte(cur);
    if lineRange.Err? { return Err(lineRange.error); }
    if lineRange.value == 0 { return Err(FormatError); }
    var opcodeBase := ReadUbyte(cur);
    if opcodeBase.Err? { return Err(opcodeBase.error); }
    var base: int := lineBase.value;
    if base >= 128 { base := base - 256; }
    return Ok(Header(minInst.value, maxOps.value, isStmt.value != 0, base, lineRange.value, opcodeBase.value, []));
  }

  method ReadUbyte(cur: Cursor) returns (r: Result<byte>)
    modifies cur
    ensures match UbyteAt(cur.sec, old(cur.pos))
            case Err(e) => r == Err(e)
            case Ok(b) => r == Ok(b.0) && cur.pos == b.1
  {
    var b := cur.Fixed(1);
    if b.Err? { return Err(b.error); }
    ByteAt(cur.sec, old(cur.pos));
    return Ok(b.value);
  }

  method CheckStandardLengths(cur: Cursor, opcodeBase: byte) returns (r: Result<()>)
    modifies cur
    ensures match CheckLengths(cur.sec, opcodeBase, 1, old(cur.pos))
            case Err(e) => r == Err(e)
            case Ok(next) => r == Ok(()) && cur.pos == next
  {
    hide FixedAt, UbyteAt;
    if opcodeBase == 0 { return Err(Undefined); }
    for i := 1 to opcodeBase
      invariant CheckLengths(cur.sec, opcodeBase, 1, old(cur.pos)) == CheckLengths(cur.sec, opcodeBase, i, cur.pos)
    {
      var n := ReadUbyte(cur);
      if n.Err? { return Err(n.error); }
      if i >= |OPERANDS| { return Err(Undefined); }
      if n.value != OPERANDS[i] { return Err(FormatError); }
    }
    return Ok(());
  }

  function OntoDirs(done: seq<seq<byte>>, rest: Result<(seq<seq<byte>>, nat)>): Result<(seq<seq<byte>>, nat)> {
    match rest case Ok(p) => Ok((done + p.0, p.1)) case Err(e) => Err(e)
  }

  lemma DirsUnfold(sec: Section, comp: seq<byte>, pos: nat, done: seq<seq<byte>>)
    ensures var d := StringAt(sec, pos);
      OntoDirs(done, ReadDirs(sec, comp, pos)) ==
        if d.Err? then Err(d.error)
        else if d.value.0 == [] then Ok((done, d.value.1))
        else OntoDirs(done + [DirPath(comp, d.value.0)], ReadDirs(sec, comp, d.value.1))
  {
    hide StringAt, DirPath;
    assert done + [] == done;
    if StringAt(sec, pos).Ok? && ReadDirs(sec, comp, StringAt(sec, pos).value.1).Ok? {
      var d, rest := StringAt(sec, pos).value, ReadDirs(sec, comp, StringAt(sec, pos).value.1).value.0;
      assert done + ([DirPath(comp, d.0)] + rest) == done + [DirPath(comp, d.0)] + rest;
    }
  }

  method ReadDirectories(cur: Cursor, comp: seq<byte>) returns (r: Result<seq<seq<byte>>>)
    modifies cur
    ensures match ReadDirs(cur.sec, comp, old(cur.pos))
            case Err(e) => r == Err(e)
            case Ok(p) => r == Ok([comp] + p.0) && cur.pos == p.1
  {
    hide StringAt, ReadDirs;
    var dirs := [comp];
    while true
      invariant OntoDirs([comp], ReadDirs(cur.sec, comp, old(cur.pos)))
                == OntoDirs(dirs, ReadDirs(cur.sec, comp, cur.pos))
      decreases |cur.sec.data| - cur.pos
    {
      DirsUnfold(cur.sec, comp, cur.pos, dirs);
      var incdir := cur.Cstr();
      if incdir.Err? { return Err(incdir.error); }
      if incdir.value == [] { return Ok(dirs); }
      var d := incdir.value;
      if d[|d| - 1] != SLASH { d := d + [SLASH]; }
      if d[0] == SLASH {
        dirs := dirs + [d];
      } else {
        dirs := dirs + [comp + d];
      }
    }
  }

  /** The loop over the header's file entries. */
  method ReadFileList(t: LineTable, cur: Cursor) returns (r: Result<()>)
    requires cur.sec == t.sec
    modifies t, cur
    ensures var (files, end) := ReadFiles(t.header, t.sec, old(cur.pos), old(t.View()));
      t.View() == files && match end case Err(e) => r == Err(e) case Ok(_) => r == Ok(())
  {
    hide StringAt, DefineAt;
    while true
      invariant ReadFiles(t.header, t.sec, old(cur.pos), old(t.View()))
                == ReadFiles(t.header, t.sec, cur.pos, t.View())
      decreases |cur.sec.data| - cur.pos
    {
      DefineAdvances(t.header, t.sec, cur.pos, t.View());
      var more := t.ReadFileEntry(cur, true);
      if more.Err? { return Err(more.error); }
      if !more.value { return Ok(()); }
    }
  }

  lemma DefineAdvances(h: Header, sec: Section, pos: nat, fs: Files)
    ensures var end := DefineAt(h, sec, pos, fs).1; end.Ok? ==> pos < end.value <= |sec.data|
  {
    hide AddFile;
  }

  method ReadTable(cur: Cursor, version: word, comp: seq<byte>, name: seq<byte>, programOffset: nat)
      returns (r: Result<LineTable>)
    modifies cur
    ensures match ReadHeader(cur.sec, version, old(cur.pos), comp, name)
            case Err(e) => r == Err(e)
            case Ok(t) =>
              && r.Ok? && fresh(r.value) && r.value.header == t.0 && r.value.View() == t.1
              && r.value.sec == cur.sec && r.value.programOffset == programOffset
  {
    hide ReadNumbers, CheckLengths, ReadDirs, ReadFiles;
    var numbers := ReadHeaderNumbers(cur, version);
    if numbers.Err? { return Err(numbers.error); }
    var checked := CheckStandardLengths(cur, numbers.value.opcodeBase);
    if checked.Err? { return Err(checked.error); }
    var dirs := ReadDirectories(cur, comp);
    if dirs.Err? { return Err(dirs.error); }
    var t := new LineTable(numbers.value.(dirs := dirs.value), cur.sec, programOffset, UnitFile(comp, name));
    ghost var (files, end) := ReadFiles(t.header, t.sec, cur.pos, t.View());
    var read := ReadFileList(t, cur);
    assert read == if end.Ok? then Ok(()) else Err(end.error);
    if read.Err? { return Err(read.error); }
    return Ok(t);
  }

  method LoadLineTable(sec: Section, offset: nat, addrSize: byte, dir: seq<byte>, name: seq<byte>)
      returns (r: Result<LineTable>)
    ensures match ReadLineTable(sec, offset, addrSize, dir, name)
            case Err(e) => r == Err(e)
            case Ok(l) =>
              && r.Ok? && fresh(r.value) && r.value.header == l.header && r.value.sec == l.sec
              && r.value.programOffset == l.programOffset && r.value.View() == l.files
  {
    hide FixedAt, OffsetAt, SubsectionAt, ReadHeader;
    var comp := dir;
    if dir != [] && dir[|dir| - 1] != SLASH { comp := dir + [SLASH]; }
    var whole := new Cursor(sec, offset);
    var s := whole.Subsection();
    if s.Err? { return Err(s.error); }
    KnownFormat(sec, offset);
    var sub := s.value.(addrSize := addrSize);
    var cur := new Cursor(sub, 0);
    var _ := cur.SkipInitialLength();
    var version := cur.Fixed(2);
    if version.Err? { return Err(version.error); }
    if version.value < 2 || version.value > 4 { return Err(FormatError); }
    var length := cur.Offset();
    if length.Err? { return Err(length.error); }
    r := ReadTable(cur, version.value, comp, name, Wrap(cur.pos + length.value));
  }

  lemma KnownFormat(sec: Section, pos: nat)
    ensures SubsectionAt(sec, pos).Ok? ==> !SubsectionAt(sec, pos).value.0.fmt.Unknown?
  {}

  // ---------- headers laid out ----------

  /** A header as it should be, and the program behind it. `length` is its own length field. */
  datatype LaidHeader = LaidHeader(
    fmt: Format,
    version: nat,
    length: word,
    minInst: byte,
    maxOps: byte,
    isStmt: byte,
    lineBase: int,
    lineRange: byte,
    opcodeBase: byte,
    dirs: seq<seq<byte>>,
    files: seq<LaidFile>,
    program: seq<byte>)

  predicate NumbersFit(g: LaidHeader) {
    (g.version < 4 ==> g.maxOps == 1) && -128 <= g.lineBase < 128 && 1 <= g.opcodeBase <= 13
  }

  /** The program divides by these. */
  predicate HasZero(g: LaidHeader) { g.maxOps == 0 || g.lineRange == 0 }

  predicate ListsFit(g: LaidHeader) {
    && (forall d :: d in g.dirs ==> d != [] && 0 !in d)
    && (forall f :: f in g.files ==> f.name != [] && FileFits(f))
  }

  function AfterMinInst(g: LaidHeader): seq<byte> {
    var maxOps := if g.version >= 4 then [g.maxOps] else [];
    maxOps + ([g.isStmt] + ([g.lineBase % 256] + ([g.lineRange] + ([g.opcodeBase] + AfterNumbers(g)))))
  }

  function AfterNumbers(g: LaidHeader): seq<byte> { LengthBytesFrom(g.opcodeBase, 1) + AfterLengths(g) }

  function AfterLengths(g: LaidHeader): seq<byte> { DirListBytes(g.dirs) + (FileListBytes(g.files) + g.program) }

  function LengthBytesFrom(opcodeBase: byte, i: nat): seq<byte> {
    if i < opcodeBase <= 13 then OPERANDS[i..opcodeBase] else []
  }

  function DirListBytes(dirs: seq<seq<byte>>): seq<byte> {
    if dirs == [] then [0] else (dirs[0] + [0]) + DirListBytes(dirs[1..])
  }

  function FileListBytes(files: seq<LaidFile>): seq<byte> {
    if files == [] then [0] else FileBytes(files[0]) + FileListBytes(files[1..])
  }

  /** A line table begins with fields of the same sizes as a unit's: length, version, an offset, a byte. */
  function ImageOf(g: LaidHeader): Image { Image(g.fmt, g.version, g.length, g.minInst, AfterMinInst(g)) }

  // ---------- what it says ----------

  function Ending(dir: seq<byte>): seq<byte> {
    if dir == [] || dir[|dir| - 1] == SLASH then [] else [SLASH]
  }

  /** An include directory is taken from the unit's own unless it is a full path, and ends with a slash. */
  function Directories(comp: seq<byte>, dirs: seq<seq<byte>>): seq<seq<byte>> {
    if dirs == [] then []
    else
      var d := dirs[0];
      [(if d != [] && d[0] == SLASH then [] else comp) + d + Ending(d)] + Directories(comp, dirs[1..])
  }

  function HeaderGiven(g: LaidHeader, comp: seq<byte>): Header
    requires ListsFit(g)
  {
    Header(g.minInst, g.maxOps, g.isStmt != 0, g.lineBase, g.lineRange, g.opcodeBase,
           [comp] + Directories(comp, g.dirs))
  }

  predicate AllPlaced(h: Header, files: seq<LaidFile>) {
    forall f :: f in files ==> f.name != [] && (f.name[0] == SLASH || f.dir < |h.dirs|)
  }

  function PlacedFiles(h: Header, files: seq<LaidFile>): seq<File>
    requires AllPlaced(h, files)
  {
    if files == [] then []
    else
      var f := files[0];
      assert f in files;
      [File(if f.name[0] == SLASH then f.name else h.dirs[f.dir] + f.name, f.mtime, f.length)]
      + PlacedFiles(h, files[1..])
  }

  // ---------- and what is read ----------

  lemma UbyteIsRead(sec: Section, pos: nat, b: byte, rest: seq<byte>)
    requires At(sec.data, pos, [b] + rest)
    ensures UbyteAt(sec, pos) == Ok((b, pos + 1)) && At(sec.data, pos + 1, rest)
  {
    hide FixedAt, At;
    ByteIsRead(sec, pos, b, rest);
  }

  lemma NumbersAreRead(sec: Section, pos: nat, g: LaidHeader)
    requires NumbersFit(g) && g.version < TWO64 && At(sec.data, pos, [g.minInst] + AfterMinInst(g))
    ensures var h := Header(g.minInst, g.maxOps, g.isStmt != 0, g.lineBase, g.lineRange, g.opcodeBase, []);
      var next := pos + |AfterMinInst(g)| - |AfterNumbers(g)| + 1;
      && next >= 0 && At(sec.data, next, AfterNumbers(g))
      && ReadNumbers(sec, g.version, pos) == if HasZero(g) then Err(FormatError) else Ok((h, next))
  {
    hide UbyteAt, At, AfterNumbers;
    var bytes := [g.isStmt] + ([g.lineBase % 256] + ([g.lineRange] + ([g.opcodeBase] + AfterNumbers(g))));
    UbyteIsRead(sec, pos, g.minInst, AfterMinInst(g));
    var p := pos + 1;
    if g.version >= 4 {
      UbyteIsRead(sec, p, g.maxOps, bytes);
      p := p + 1;
    } else {
      assert AfterMinInst(g) == bytes;
    }
    UbyteIsRead(sec, p, g.isStmt, [g.lineBase % 256] + ([g.lineRange] + ([g.opcodeBase] + AfterNumbers(g))));
    UbyteIsRead(sec, p + 1, g.lineBase % 256, [g.lineRange] + ([g.opcodeBase] + AfterNumbers(g)));
    UbyteIsRead(sec, p + 2, g.lineRange, [g.opcodeBase] + AfterNumbers(g));
    UbyteIsRead(sec, p + 3, g.opcodeBase, AfterNumbers(g));
  }

  lemma {:induction false} LengthsAreChecked(sec: Section, opcodeBase: byte, i: nat, pos: nat, rest: seq<byte>)
    requires 1 <= i <= opcodeBase <= 13 && At(sec.data, pos, LengthBytesFrom(opcodeBase, i) + rest)
    ensures CheckLengths(sec, opcodeBase, i, pos) == Ok(pos + opcodeBase - i)
    ensures At(sec.data, pos + opcodeBase - i, rest)
    decreases opcodeBase - i
  {
    hide UbyteAt, At;
    if i == opcodeBase {
      assert LengthBytesFrom(opcodeBase, i) + rest == rest;
    } else {
      assert LengthBytesFrom(opcodeBase, i) + rest
             == [OPERANDS[i]] + (LengthBytesFrom(opcodeBase, i + 1) + rest);
      UbyteIsRead(sec, pos, OPERANDS[i], LengthBytesFrom(opcodeBase, i + 1) + rest);
      LengthsAreChecked(sec, opcodeBase, i + 1, pos + 1, rest);
    }
  }

  lemma DirPathIs(comp: seq<byte>, d: seq<byte>)
    ensures WithSlash(d) == d + Ending(d)
    ensures DirPath(comp, d) == (if d != [] && d[0] == SLASH then [] else comp) + d + Ending(d)
  {
    assert d + [] == d && [] + d + [SLASH] == d + [SLASH] && [] + d + [] == d;
    assert comp + d + [SLASH] == comp + (d + [SLASH]) && comp + d + [] == comp + d;
  }

  lemma {:induction false} DirsAreRead(sec: Section, pos: nat, comp: seq<byte>, dirs: seq<seq<byte>>, rest: seq<byte>)
    requires forall d :: d in dirs ==> d != [] && 0 !in d
    requires At(sec.data, pos, DirListBytes(dirs) + rest)
    ensures ReadDirs(sec, comp, pos) == Ok((Directories(comp, dirs), pos + |DirListBytes(dirs)|))
    ensures At(sec.data, pos + |DirListBytes(dirs)|, rest)
    decreases |dirs|
  {
    hide StringAt, At, DirPath, Ending;
    if dirs == [] {
      TextIsRead(sec, pos, [], rest);
    } else {
      var d := dirs[0];
      assert d in dirs;
      assert DirListBytes(dirs) + rest == (d + [0]) + (DirListBytes(dirs[1..]) + rest);
      TextIsRead(sec, pos, d, DirListBytes(dirs[1..]) + rest);
      DirPathIs(comp, d);
      assert forall e :: e in dirs[1..] ==> e in dirs;
      DirsAreRead(sec, pos + |d| + 1, comp, dirs[1..], rest);
    }
  }

  lemma TextIsRead(sec: Section, pos: nat, s: seq<byte>, rest: seq<byte>)
    requires 0 !in s && (At(sec.data, pos, (s + [0]) + rest) || (s == [] && At(sec.data, pos, [0] + rest)))
    ensures StringAt(sec, pos) == Ok((s, pos + |s| + 1)) && At(sec.data, pos + |s| + 1, rest)
  {
    hide StringAt, At;
    if s == [] { assert s + [0] == [0]; }
    AtSplit(sec.data, pos, s + [0], rest);
    StringRoundTrip(sec, pos, s);
  }

  lemma {:induction false} FilesAreRead(h: Header, sec: Section, pos: nat, files: seq<LaidFile>, rest: seq<byte>,
                                        fs: Files)
    requires forall f :: f in files ==> f.name != [] && FileFits(f)
    requires At(sec.data, pos, FileListBytes(files) + rest) && fs.lastEnd <= pos
    ensures var (got, end) := ReadFiles(h, sec, pos, fs);
      if AllPlaced(h, files) then
        && end.Ok? && got.names == fs.names + PlacedFiles(h, files) && got.complete == fs.complete
        && got.lastEnd == if files == [] then fs.lastEnd else pos + |FileListBytes(files)| - 1
      else end == Err(FormatError)
    decreases |files|
  {
    hide StringAt, At, FileBytes, FileFits, DefineAt;
    if files == [] {
      TextIsRead(sec, pos, [], rest);
    } else {
      var f, more := files[0], FileListBytes(files[1..]) + rest;
      assert f in files;
      assert FileListBytes(files) + rest == FileBytes(f) + more;
      FileIsRead(h, sec, pos, f, more, fs);
      var (fs', end) := DefineAt(h, sec, pos, fs);
      if end.Ok? { FilesAreRead(h, sec, end.value, files[1..], rest, fs'); }
    }
  }

  /** One entry of the list, with the mark behind. */
  lemma FileIsRead(h: Header, sec: Section, pos: nat, f: LaidFile, more: seq<byte>, fs: Files)
    requires f.name != [] && FileFits(f) && At(sec.data, pos, FileBytes(f) + more) && fs.lastEnd <= pos
    ensures StringAt(sec, pos).Ok? && StringAt(sec, pos).value.0 == f.name
    ensures var next := pos + |FileBytes(f)|; var (got, end) := DefineAt(h, sec, pos, fs);
      && pos < next <= |sec.data| && At(sec.data, next, more)
      && if f.name[0] == SLASH || f.dir < |h.dirs| then
           && end == Ok(next)
           && got == Files(fs.names + [File(if f.name[0] == SLASH then f.name else h.dirs[f.dir] + f.name,
                                            f.mtime, f.length)], next, fs.complete)
         else end == Err(FormatError)
  {
    hide StringAt, At, FileFits, DefineAt;
    EntryIsRead(sec, pos, f, more);
    AtSplit(sec.data, pos, FileBytes(f), more);
    LaidEntryIsTaken(h, sec, pos, f, fs);
    Inside(sec.data, pos, FileBytes(f));
  }

  /** A header laid out is read back: its numbers, its directories and its files. A zero that would be divided
      by and a file whose directory is not listed make the whole table unreadable. */
  lemma LaidHeaderIsRead(sec: Section, pos: nat, g: LaidHeader, addrSize: byte, dir: seq<byte>, name: seq<byte>)
    requires NumbersFit(g) && ListsFit(g) && Proper(sec.lsb, ImageOf(g))
    requires At(sec.data, pos, ImageBytes(sec.lsb, ImageOf(g)))
    ensures var comp := dir + Ending(dir);
      var (h, r) := (HeaderGiven(g, comp), ReadLineTable(sec, pos, addrSize, dir, name));
      if !HasZero(g) && AllPlaced(h, g.files) then
        && r.Ok? && r.value.header == h
        && r.value.sec == Section(ImageBytes(sec.lsb, ImageOf(g)), g.fmt, sec.lsb, addrSize)
        && r.value.programOffset == (InitialLength(g.fmt) + 2 + OffsetSize(g.fmt) + g.length) % TWO64
        && r.value.files.names ==
             [File((if name != [] && name[0] == SLASH then [] else comp) + name, 0, 0)] + PlacedFiles(h, g.files)
        && r.value.files.lastEnd <= |r.value.sec.data| - |g.program|
        && !r.value.files.complete
      else r == Err(FormatError)
  {
    hide At, FixedAt, OffsetAt, SubsectionAt, ReadHeader, Proper, ImageBytes, NumbersFit, ListsFit, AfterMinInst,
         PlacedFiles, AllPlaced, Directories, Ending;
    var sub := Section(ImageBytes(sec.lsb, ImageOf(g)), g.fmt, sec.lsb, addrSize);
    ImageIsCut(sec, pos, ImageOf(g));
    DataIsAt(sub.data);
    HeaderIsRead(sub, ImageOf(g));
    VersionKnown(sec.lsb, ImageOf(g));
    MinInstAt(sub, g);
    ImageLength(sec.lsb, g);
    DirPathIs([], dir);
    TableIsRead(sub, InitialLength(g.fmt) + 2 + OffsetSize(g.fmt), g, dir + Ending(dir), name);
  }

  lemma ImageLength(lsb: bool, g: LaidHeader)
    requires Proper(lsb, ImageOf(g))
    ensures |ImageBytes(lsb, ImageOf(g))| == InitialLength(g.fmt) + 2 + OffsetSize(g.fmt) + 1 + |AfterMinInst(g)|
  {
    hide FixedBytes, Pow2, AfterMinInst;
    var m := ImageOf(g);
    FixedLength(lsb, m.version, 2);
    FixedLength(lsb, m.abbrevOffset, OffsetSize(m.fmt));
    FixedLength(lsb, m.addrSize, 1);
    FixedLength(lsb, 0xffff_ffff, 4);
    FixedLength(lsb, |AfterLength(lsb, m)|, if m.fmt.Dwarf64? then 8 else 4);
  }

  lemma DataIsAt(data: seq<byte>)
    ensures At(data, 0, data)
  {}

  lemma ImageIsCut(sec: Section, pos: nat, m: Image)
    requires Proper(sec.lsb, m) && At(sec.data, pos, ImageBytes(sec.lsb, m))
    ensures SubsectionAt(sec, pos)
            == Ok((Section(ImageBytes(sec.lsb, m), m.fmt, sec.lsb, 0), pos + |ImageBytes(sec.lsb, m)|))
  {
    hide FixedAt, FixedBytes, Pow2, ImageBytes, UnitSizeAt, Proper, LengthFits;
    VersionKnown(sec.lsb, m);
    LengthIsRead(sec, m, pos);
  }

  lemma MinInstAt(sub: Section, g: LaidHeader)
    requires Proper(sub.lsb, ImageOf(g)) && sub.data == ImageBytes(sub.lsb, ImageOf(g)) && sub.fmt == g.fmt
    ensures At(sub.data, InitialLength(g.fmt) + 2 + OffsetSize(g.fmt), [g.minInst] + AfterMinInst(g))
  {
    hide At, FixedAt, FixedBytes, Pow2, LengthBytes, AfterMinInst;
    var m, lsb, p := ImageOf(g), sub.lsb, InitialLength(g.fmt);
    DataIsAt(sub.data);
    LengthIsRead(sub, m, 0);
    AtSplit(sub.data, 0, LengthBytes(lsb, m), AfterLength(lsb, m));
    FixedLength(lsb, m.version, 2);
    AtSplit(sub.data, p, FixedBytes(lsb, m.version, 2), AfterVersion(lsb, m));
    FixedLength(lsb, m.abbrevOffset, OffsetSize(m.fmt));
    AtSplit(sub.data, p + 2, FixedBytes(lsb, m.abbrevOffset, OffsetSize(m.fmt)),
            FixedBytes(lsb, m.addrSize, 1) + m.body);
    OneByte(g.minInst);
  }

  /** From behind the header's own length on. */
  lemma TableIsRead(sub: Section, pos: nat, g: LaidHeader, comp: seq<byte>, name: seq<byte>)
    requires NumbersFit(g) && g.version < TWO64 && ListsFit(g)
    requires At(sub.data, pos, [g.minInst] + AfterMinInst(g))
    ensures var (h, r) := (HeaderGiven(g, comp), ReadHeader(sub, g.version, pos, comp, name));
      if !HasZero(g) && AllPlaced(h, g.files) then
        && r.Ok? && r.value.0 == h && !r.value.1.complete
        && r.value.1.names ==
             [File((if name != [] && name[0] == SLASH then [] else comp) + name, 0, 0)] + PlacedFiles(h, g.files)
        && r.value.1.lastEnd <= pos + 1 + |AfterMinInst(g)| - |g.program|
      else r == Err(FormatError)
  {
    hide At, ReadNumbers, CheckLengths, ReadDirs, ReadFiles, AfterMinInst, LengthBytesFrom, PlacedFiles, AllPlaced,
         DirListBytes, FileListBytes, FileFits;
    var rest := FileListBytes(g.files) + g.program;
    NumbersAreRead(sub, pos, g);
    var p := pos + |AfterMinInst(g)| - |AfterNumbers(g)| + 1;
    LengthsAreChecked(sub, g.opcodeBase, 1, p, AfterLengths(g));
    var q := p + g.opcodeBase - 1;
    DirsAreRead(sub, q, comp, g.dirs, rest);
    var unit := UnitFile(comp, name);
    assert unit == File((if name != [] && name[0] == SLASH then [] else comp) + name, 0, 0) by {
      assert [] + name == name;
    }
    FilesAreRead(HeaderGiven(g, comp), sub, q + |DirListBytes(g.dirs)|, g.files, g.program, Files([unit], 0, false));
    LengthsLength(g.opcodeBase);
  }

  lemma LengthsLength(opcodeBase: byte)
    requires 1 <= opcodeBase <= 13
    ensures |LengthBytesFrom(opcodeBase, 1)| == opcodeBase - 1
  {}
}
