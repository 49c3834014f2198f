/** The file entries of section 6.2.4 of DWARF Version 4, in the header and in define_file: their bytes, and
    what reading them adds to the table's list. */
module FileLists {
  import opened Words
  import opened Sections
  import opened LineProgram

  // ---------- where a file is ----------

  /** The name is a full path. */
  predicate Rooted(name: seq<byte>) { name != [] && name[0] == 0x2f }

  /** An entry's directory is in the header's list, if it needs one. */
  predicate HasPlace(h: Header, e: FileEntry) { Rooted(e.name) || e.dir < |h.dirs| }

  function Placed(h: Header, e: FileEntry): File
    requires HasPlace(h, e)
  {
    File(if Rooted(e.name) then e.name else h.dirs[e.dir] + e.name, e.mtime, e.length)
  }

  /** The path that the program gives an entry is its place. */
  lemma PathIsPlace(h: Header, e: FileEntry)
    ensures PathOf(h, e.name, e.dir) == if HasPlace(h, e) then Ok(Placed(h, e).path) else Err(FormatError)
  {}

  /** An entry that ends past the mark adds one file, or is refused for its directory; the mark moves either
      way. One that ends before it changes nothing. */
  lemma EntryIsTaken(h: Header, fs: Files, e: FileEntry)
    ensures AddFile(h, fs, e) ==
      if e.end <= fs.lastEnd then (fs, Ok(()))
      else if HasPlace(h, e) then (Files(fs.names + [Placed(h, e)], e.end, fs.complete), Ok(()))
      else (Files(fs.names, e.end, fs.complete), Err(FormatError))
  {
    PathIsPlace(h, e);
  }

  // ---------- entries laid out ----------

  /** An entry and the LEB128 encodings, padded or not, of its three numbers. */
  datatype LaidFile = LaidFile(
    name: seq<byte>,
    dir: word,
    mtime: word,
    length: word,
    dirBytes: seq<byte>,
    mtimeBytes: seq<byte>,
    lengthBytes: seq<byte>)

  predicate FileFits(f: LaidFile) {
    0 !in f.name && IsLeb(f.dirBytes, f.dir) && IsLeb(f.mtimeBytes, f.mtime) && IsLeb(f.lengthBytes, f.length)
  }

  function FileBytes(f: LaidFile): seq<byte> { (f.name + [0]) + (f.dirBytes + (f.mtimeBytes + f.lengthBytes)) }

  function EntryFor(f: LaidFile, end: nat): FileEntry { FileEntry(f.name, f.dir, f.mtime, f.length, end) }

  lemma EntryIsRead(sec: Section, pos: nat, f: LaidFile, rest: seq<byte>)
    requires FileFits(f) && At(sec.data, pos, FileBytes(f) + rest)
    ensures FileEntryAt(sec, pos) == Ok(EntryFor(f, pos + |FileBytes(f)|))
    ensures At(sec.data, pos + |FileBytes(f)|, rest)
    ensures StringAt(sec, pos) == Ok((f.name, pos + |f.name| + 1))
  {
    hide At, UnsignedAt, StringAt, IsLeb;
    AtSplit(sec.data, pos, FileBytes(f), rest);
    AtSplit(sec.data, pos, f.name + [0], f.dirBytes + (f.mtimeBytes + f.lengthBytes));
    StringRoundTrip(sec, pos, f.name);
    var p := pos + |f.name| + 1;
    NumberIsRead(sec, p, f.dirBytes, f.dir, f.mtimeBytes + f.lengthBytes);
    NumberIsRead(sec, p + |f.dirBytes|, f.mtimeBytes, f.mtime, f.lengthBytes);
    assert f.lengthBytes + [] == f.lengthBytes;
    NumberIsRead(sec, p + |f.dirBytes| + |f.mtimeBytes|, f.lengthBytes, f.length, []);
  }

  /** Reading the bytes of an entry. */
  lemma LaidEntryIsTaken(h: Header, sec: Section, pos: nat, f: LaidFile, fs: Files)
    requires FileFits(f) && At(sec.data, pos, FileBytes(f))
    ensures var end := pos + |FileBytes(f)|;
      DefineAt(h, sec, pos, fs) ==
        if end <= fs.lastEnd then (fs, Ok(end))
        else if f.name != [] && f.name[0] == 0x2f then
          (Files(fs.names + [File(f.name, f.mtime, f.length)], end, fs.complete), Ok(end))
        else if f.dir < |h.dirs| then
          (Files(fs.names + [File(h.dirs[f.dir] + f.name, f.mtime, f.length)], end, fs.complete), Ok(end))
        else (Files(fs.names, end, fs.complete), Err(FormatError))
  {
    hide At, UnsignedAt, StringAt, FileEntryAt, AddFile, FileFits, FileBytes;
    assert FileBytes(f) + [] == FileBytes(f);
    EntryIsRead(sec, pos, f, []);
    EntryIsTaken(h, fs, EntryFor(f, pos + |FileBytes(f)|));
  }

  // ---------- extended opcodes ----------

  /** An extended opcode (section 6.2.5.3) is a zero, a length, the opcode and its operands. */
  lemma ExtendedDecodes(h: Header, sec: Section, pos: nat, lengthBytes: seq<byte>, n: word, op: byte,
                        operands: seq<byte>)
    requires h.Accepted() && IsLeb(lengthBytes, n)
    requires At(sec.data, pos, [0] + (lengthBytes + ([op] + operands)))
    ensures var at := pos + 1 + |lengthBytes|;
      Decode(h, sec, pos) == DecodeBody(sec, op, at + 1, (at + n) % TWO64) && At(sec.data, at + 1, operands)
  {
    hide At, UnsignedAt, FixedAt, IsLeb, DecodeStandard, DecodeBody;
    ByteIsRead(sec, pos, 0, lengthBytes + ([op] + operands));
    NumberIsRead(sec, pos + 1, lengthBytes, n, [op] + operands);
    ByteIsRead(sec, pos + 1 + |lengthBytes|, op, operands);
  }

  /** define_file takes its entry into the table; then it is refused if it ran past its length. */
  lemma DefineFileStep(h: Header, sec: Section, pos: nat, lengthBytes: seq<byte>, n: nat, f: LaidFile, m: Machine)
    requires h.Accepted() && |sec.data| + n < TWO64
    requires FileFits(f) && IsLeb(lengthBytes, n)
    requires At(sec.data, pos, [0] + (lengthBytes + ([3] + FileBytes(f))))
    ensures var end := pos + 1 + |lengthBytes| + 1 + |FileBytes(f)|;
      var (names, fits) := (m.files.names, n >= 1 + |FileBytes(f)|);
      Step(h, sec, pos, m) ==
        if end <= m.files.lastEnd then
          if fits then Silent(m, end) else Failed(FormatError, m.files)
        else if !(f.name != [] && f.name[0] == 0x2f) && f.dir >= |h.dirs| then
          Failed(FormatError, Files(names, end, m.files.complete))
        else
          var path := if f.name != [] && f.name[0] == 0x2f then f.name else h.dirs[f.dir] + f.name;
          var files := Files(names + [File(path, f.mtime, f.length)], end, m.files.complete);
          if fits then Silent(Machine(m.regs, files), end) else Failed(FormatError, files)
  {
    hide At, FileEntryAt, AddFile, FileFits, FileBytes, IsLeb, Decode;
    var at := pos + 1 + |lengthBytes|;
    ExtendedDecodes(h, sec, pos, lengthBytes, n, 3, FileBytes(f));
    assert FileBytes(f) + [] == FileBytes(f);
    EntryIsRead(sec, at + 1, f, []);
    Inside(sec.data, at + 1, FileBytes(f));
    ModUnique(at + n, TWO64, 0, at + n);
    EntryIsTaken(h, m.files, EntryFor(f, at + 1 + |FileBytes(f)|));
  }

  /** end_sequence, set_address and set_discriminator do what they do unless they run past their length. */
  lemma EndSequenceStep(h: Header, sec: Section, pos: nat, lengthBytes: seq<byte>, n: nat, m: Machine)
    requires h.Accepted() && |sec.data| + n < TWO64 && IsLeb(lengthBytes, n)
    requires At(sec.data, pos, [0] + (lengthBytes + [1]))
    ensures Step(h, sec, pos, m) ==
      if n == 0 then Failed(FormatError, m.files)
      else Emitted(m.(regs := Reset(h.defaultIsStmt)), m.regs.(endSequence := true), pos + |lengthBytes| + 2)
  {
    hide At, Decode, UnsignedAt, FixedAt, IsLeb, FileEntryAt;
    var at := pos + 1 + |lengthBytes|;
    assert [1] == [1] + [];
    ExtendedDecodes(h, sec, pos, lengthBytes, n, 1, []);
    Inside(sec.data, pos, [0] + (lengthBytes + [1]));
    ModUnique(at + n, TWO64, 0, at + n);
  }

  lemma SetAddressStep(h: Header, sec: Section, pos: nat, lengthBytes: seq<byte>, n: nat, a: word, m: Machine)
    requires h.Accepted() && |sec.data| + n < TWO64 && IsLeb(lengthBytes, n)
    requires sec.addrSize in {1, 2, 4, 8} && a < Pow2(8 * sec.addrSize)
    requires At(sec.data, pos, [0] + (lengthBytes + ([2] + FixedBytes(sec.lsb, a, sec.addrSize))))
    ensures Step(h, sec, pos, m) ==
      if n < 1 + sec.addrSize then Failed(FormatError, m.files)
      else Silent(m.(regs := m.regs.(address := a, opIndex := 0)), pos + |lengthBytes| + 2 + sec.addrSize)
  {
    hide At, Decode, UnsignedAt, FixedAt, IsLeb, FileEntryAt, FixedBytes, Pow2;
    var at := pos + 1 + |lengthBytes|;
    ExtendedDecodes(h, sec, pos, lengthBytes, n, 2, FixedBytes(sec.lsb, a, sec.addrSize));
    Inside(sec.data, at + 1, FixedBytes(sec.lsb, a, sec.addrSize));
    ModUnique(at + n, TWO64, 0, at + n);
    FixedRoundTrip(sec, at + 1, a, sec.addrSize);
  }

  lemma SetDiscriminatorStep(h: Header, sec: Section, pos: nat, lengthBytes: seq<byte>, n: nat, bs: seq<byte>, v: word,
                             m: Machine)
    requires h.Accepted() && |sec.data| + n < TWO64 && IsLeb(lengthBytes, n) && IsLeb(bs, v)
    requires At(sec.data, pos, [0] + (lengthBytes + ([4] + bs)))
    ensures Step(h, sec, pos, m) ==
      if n < 1 + |bs| then Failed(FormatError, m.files)
      else Silent(m.(regs := m.regs.(discriminator := v % TWO32)), pos + |lengthBytes| + 2 + |bs|)
  {
    hide At, Decode, UnsignedAt, FixedAt, IsLeb, FileEntryAt;
    var at := pos + 1 + |lengthBytes|;
    ExtendedDecodes(h, sec, pos, lengthBytes, n, 4, bs);
    Inside(sec.data, at + 1, bs);
    ModUnique(at + n, TWO64, 0, at + n);
    assert bs + [] == bs;
    NumberIsRead(sec, at + 1, bs, v, []);
  }

  /** The others are refused, the vendors' as not implemented. */
  lemma OtherOpcodesAreRefused(h: Header, sec: Section, pos: nat, lengthBytes: seq<byte>, n: word, op: byte,
                               operands: seq<byte>, m: Machine)
    requires h.Accepted() && IsLeb(lengthBytes, n) && op !in {1, 2, 3, 4}
    requires At(sec.data, pos, [0] + (lengthBytes + ([op] + operands)))
    ensures Step(h, sec, pos, m) == Failed(if op >= 0x80 then NotImplemented else FormatError, m.files)
  {
    hide At, Decode, UnsignedAt, IsLeb, FileEntryAt, AddressAt;
    ExtendedDecodes(h, sec, pos, lengthBytes, n, op, operands);
  }

  lemma Inside(data: seq<byte>, pos: nat, bs: seq<byte>)
    requires At(data, pos, bs)
    ensures pos + |bs| <= |data|
  {}

  // ---------- a row and its file ----------

  /** A row comes with the file that its number lists; without one the table is refused. The row at the end of
      the program completes the list. A program that ends without a row is refused. */
  lemma CopyIncrements(h: Header, sec: Section, pos: nat, m: Machine)
    requires h.Accepted() && pos < |sec.data|
    ensures sec.data[pos] == 1 < h.opcodeBase ==>
      Increment(h, sec, pos, m) ==
        var files := if pos + 1 == |sec.data| then m.files.(complete := true) else m.files;
        if m.regs.fileIndex >= |files.names| then Broken(FormatError, files)
        else Next(Machine(Cleared(m.regs), files), Entry(m.regs, files.names[m.regs.fileIndex]), pos + 1)
    ensures sec.data[pos] == 6 < h.opcodeBase && pos + 1 == |sec.data| ==>
      Increment(h, sec, pos, m) == Broken(FormatError, m.files)
  {
    hide FixedAt, UnsignedAt, SignedAt;
    ByteAt(sec, pos);
    if sec.data[pos] == 6 < h.opcodeBase && pos + 1 == |sec.data| {
      var s := Step(h, sec, pos, m);
      assert s.Silent? && s.next == pos + 1;
      assert StepToRow(h, sec, pos + 1, s.m) == Failed(FormatError, m.files);
    }
  }
}
