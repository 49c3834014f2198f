/** An assembler for line-number programs, and the proof that running its output gives the rows back. */
module LineAssembler {
  import opened Words
  import opened Sections
  import opened LineProgram
  import Leb128

  // ---------- instructions as bytes ----------

  function Extended(body: seq<byte>): seq<byte> {
    [0] + Leb128.EncodeUnsigned(|body|) + body
  }

  function AddressBytes(sec: Section, a: word): seq<byte> { FixedBytes(sec.lsb, a, sec.addrSize) }

  /** The operand of a standard opcode. */
  function Operand(sec: Section, i: Instr): seq<byte> {
    match i
    case AdvancePc(n) => Leb128.EncodeUnsigned(n)
    case AdvanceLine(z) => Leb128.EncodeSigned(z)
    case SetFile(n) => Leb128.EncodeUnsigned(n)
    case SetColumn(n) => Leb128.EncodeUnsigned(n)
    case FixedAdvancePc(n) => FixedBytes(sec.lsb, n, 2)
    case SetIsa(n) => Leb128.EncodeUnsigned(n)
    case _ => []
  }

  function EntryBytes(name: seq<byte>, dir: word, mtime: word, length: word): seq<byte> {
    (name + [0]) + (Leb128.EncodeUnsigned(dir)
                    + (Leb128.EncodeUnsigned(mtime) + Leb128.EncodeUnsigned(length)))
  }

  /** The body of an extended opcode: its number and operands. */
  function Body(sec: Section, i: Instr): seq<byte>
    requires Opcode(i) == 0 && !i.Special?
  {
    match i
    case EndSequence => [1]
    case SetAddress(a) => [2] + AddressBytes(sec, a)
    case DefineFile(name, dir, mtime, length) => [3] + EntryBytes(name, dir, mtime, length)
    case SetDiscriminator(n) => [4] + Leb128.EncodeUnsigned(n)
  }

  function Encode(h: Header, sec: Section, i: Instr): seq<byte>
    requires Encodable(h, sec, i)
  {
    if i.Special? then [i.adjusted + h.opcodeBase]
    else if Opcode(i) > 0 then [Opcode(i)] + Operand(sec, i)
    else Extended(Body(sec, i))
  }

  /** The opcode number of an instruction the header must know; 0 for the rest. */
  function Opcode(i: Instr): nat {
    match i
    case Copy => 1
    case AdvancePc(_) => 2
    case AdvanceLine(_) => 3
    case SetFile(_) => 4
    case SetColumn(_) => 5
    case NegateStmt => 6
    case SetBasicBlock => 7
    case ConstAddPc => 8
    case FixedAdvancePc(_) => 9
    case SetPrologueEnd => 10
    case SetEpilogueBegin => 11
    case SetIsa(_) => 12
    case _ => 0
  }

  /** A header with a low opcode_base lacks the later standard opcodes: their numbers are special. */
  predicate Encodable(h: Header, sec: Section, i: Instr) {
    && Opcode(i) < h.opcodeBase
    && match i
       case Special(adj) => adj + h.opcodeBase < 256
       case AdvanceLine(z) => -TWO63 <= z < TWO63
       case FixedAdvancePc(n) => n < 0x10000
       case SetAddress(a) => sec.addrSize in {1, 2, 4, 8} && a < Pow2(8 * sec.addrSize)
       case DefineFile(name, _, _, _) => 0 !in name && |name| < TWO32
       case _ => true
  }

  lemma AtUnsigned(sec: Section, pos: nat, n: word, rest: seq<byte>)
    requires At(sec.data, pos, Leb128.EncodeUnsigned(n) + rest)
    ensures var next := pos + |Leb128.EncodeUnsigned(n)|;
      UnsignedAt(sec, pos) == Ok((n, next)) && At(sec.data, next, rest)
  {
    hide At, UnsignedAt, Leb128.EncodeUnsigned, Leb128.Terminated, Leb128.Unsigned;
    AtSplit(sec.data, pos, Leb128.EncodeUnsigned(n), rest);
    UnsignedRoundTrip(sec, pos, Leb128.EncodeUnsigned(n), n);
  }

  lemma OperandUnsigned(sec: Section, pos: nat, n: word)
    requires At(sec.data, pos, Leb128.EncodeUnsigned(n))
    ensures UnsignedAt(sec, pos) == Ok((n, pos + |Leb128.EncodeUnsigned(n)|))
  {
    UnsignedRoundTrip(sec, pos, Leb128.EncodeUnsigned(n), n);
  }

  lemma DecodeOperand(h: Header, sec: Section, pos: nat, i: Instr)
    requires Encodable(h, sec, i) && Opcode(i) > 0 && At(sec.data, pos, Operand(sec, i))
    ensures DecodeStandard(sec, Opcode(i), pos) == Ok(Decoded(i, pos + |Operand(sec, i)|, true))
  {
    hide UnsignedAt, SignedAt, FixedAt, At, FixedBytes, Pow2;
    hide Leb128.EncodeUnsigned, Leb128.EncodeSigned, Leb128.Terminated, Leb128.Unsigned, Leb128.Signed;
    match i
    case AdvancePc(n) => OperandUnsigned(sec, pos, n);
    case SetFile(n) => OperandUnsigned(sec, pos, n);
    case SetColumn(n) => OperandUnsigned(sec, pos, n);
    case SetIsa(n) => OperandUnsigned(sec, pos, n);
    case AdvanceLine(z) => SignedRoundTrip(sec, pos, Leb128.EncodeSigned(z), z);
    case FixedAdvancePc(n) =>
      Pow2Is32();
      FixedRoundTrip(sec, pos, n, 2);
    case _ =>
  }

  lemma FileEntryFrom(sec: Section, pos: nat, e: FileEntry, p1: nat, p2: nat, p3: nat)
    requires StringAt(sec, pos) == Ok((e.name, p1)) && UnsignedAt(sec, p1) == Ok((e.dir, p2))
    requires UnsignedAt(sec, p2) == Ok((e.mtime, p3)) && UnsignedAt(sec, p3) == Ok((e.length, e.end))
    ensures FileEntryAt(sec, pos) == Ok(e)
  {
    hide StringAt, UnsignedAt;
  }

  lemma AtParts(data: seq<byte>, pos: nat, a: seq<byte>, b: seq<byte>, c: seq<byte>, d: seq<byte>)
    requires At(data, pos, a + (b + (c + d)))
    ensures At(data, pos, a) && At(data, pos + |a|, b)
    ensures At(data, pos + |a| + |b|, c) && At(data, pos + |a| + |b| + |c|, d)
  {
    AtSplit(data, pos, a, b + (c + d));
    AtSplit(data, pos + |a|, b, c + d);
    AtSplit(data, pos + |a| + |b|, c, d);
  }

  lemma FileEntryEncoded(sec: Section, pos: nat, name: seq<byte>, dir: word, mtime: word, length: word)
    requires 0 !in name && At(sec.data, pos, EntryBytes(name, dir, mtime, length))
    ensures FileEntryAt(sec, pos)
            == Ok(FileEntry(name, dir, mtime, length, pos + |EntryBytes(name, dir, mtime, length)|))
  {
    hide At, EntryBytes, UnsignedAt, StringAt, FileEntryAt, Leb128.EncodeUnsigned, Leb128.Terminated, Leb128.Unsigned;
    var d, m, l := Leb128.EncodeUnsigned(dir), Leb128.EncodeUnsigned(mtime), Leb128.EncodeUnsigned(length);
    EntryParts(sec.data, pos, name, dir, mtime, length);
    var p1 := pos + |name| + 1;
    StringRoundTrip(sec, pos, name);
    UnsignedRoundTrip(sec, p1, d, dir);
    UnsignedRoundTrip(sec, p1 + |d|, m, mtime);
    UnsignedRoundTrip(sec, p1 + |d| + |m|, l, length);
    FileEntryFrom(sec, pos, FileEntry(name, dir, mtime, length, p1 + |d| + |m| + |l|), p1, p1 + |d|, p1 + |d| + |m|);
  }

  lemma EntryParts(data: seq<byte>, pos: nat, name: seq<byte>, dir: word, mtime: word, length: word)
    requires At(data, pos, EntryBytes(name, dir, mtime, length))
    ensures var d, m, l := Leb128.EncodeUnsigned(dir), Leb128.EncodeUnsigned(mtime), Leb128.EncodeUnsigned(length);
      var p1 := pos + |name| + 1;
      && At(data, pos, name + [0]) && At(data, p1, d) && At(data, p1 + |d|, m) && At(data, p1 + |d| + |m|, l)
      && pos + |EntryBytes(name, dir, mtime, length)| == p1 + |d| + |m| + |l|
  {
    hide At, Leb128.EncodeUnsigned, Leb128.Terminated, Leb128.Unsigned;
    AtParts(data, pos, name + [0], Leb128.EncodeUnsigned(dir), Leb128.EncodeUnsigned(mtime),
            Leb128.EncodeUnsigned(length));
  }

  lemma BodySmall(h: Header, sec: Section, i: Instr)
    requires Encodable(h, sec, i) && Opcode(i) == 0 && !i.Special?
    ensures 1 <= |Body(sec, i)| < TWO63
  {
    match i
    case DefineFile(name, dir, mtime, length) =>
      EncodedShort(dir);
      EncodedShort(mtime);
      EncodedShort(length);
    case SetDiscriminator(n) => EncodedShort(n);
    case SetAddress(_) =>
    case EndSequence =>
  }

  lemma EncodedShort(n: word)
    ensures |Leb128.EncodeUnsigned(n)| <= 10
  {
    hide Pow2;
    Pow2Is64();
    Pow2Below(64, 70);
    Leb128.EncodingLength(n, 10);
  }

  lemma DecodeBodyEncoded(h: Header, sec: Section, at: nat, i: Instr)
    requires Encodable(h, sec, i) && Opcode(i) == 0 && !i.Special? && At(sec.data, at, Body(sec, i))
    ensures var body := Body(sec, i);
      DecodeBody(sec, body[0], at + 1, at + |body|) == Ok(Decoded(i, at + |body|, true))
      && FixedAt(sec, at, 1) == Ok((body[0], at + 1))
  {
    hide At, DecodeBody, FixedAt, Encodable, Body;
    match i
    case EndSequence => EndEncoded(h, sec, at, i);
    case SetAddress(_) => SetAddressEncoded(h, sec, at, i);
    case SetDiscriminator(_) => DiscriminatorEncoded(h, sec, at, i);
    case DefineFile(_, _, _, _) => DefineFileEncoded(h, sec, at, i);
  }

  lemma EndEncoded(h: Header, sec: Section, at: nat, i: Instr)
    requires Encodable(h, sec, i) && i.EndSequence? && At(sec.data, at, Body(sec, i))
    ensures var body := Body(sec, i);
      DecodeBody(sec, body[0], at + 1, at + |body|) == Ok(Decoded(i, at + |body|, true))
      && FixedAt(sec, at, 1) == Ok((body[0], at + 1))
  {
    hide At, UnsignedAt, FixedAt, FileEntryAt, FixedBytes, EntryBytes;
    hide Leb128.EncodeUnsigned, Leb128.Terminated, Leb128.Unsigned;
    assert Body(sec, i) == [1] + [];
    ByteIsRead(sec, at, 1, []);
  }

  lemma SetAddressEncoded(h: Header, sec: Section, at: nat, i: Instr)
    requires Encodable(h, sec, i) && i.SetAddress? && At(sec.data, at, Body(sec, i))
    ensures var body := Body(sec, i);
      DecodeBody(sec, body[0], at + 1, at + |body|) == Ok(Decoded(i, at + |body|, true))
      && FixedAt(sec, at, 1) == Ok((body[0], at + 1))
  {
    hide At, UnsignedAt, FixedAt, FileEntryAt, FixedBytes, EntryBytes;
    hide Leb128.EncodeUnsigned, Leb128.Terminated, Leb128.Unsigned;
    var a := i.address;
    ByteIsRead(sec, at, 2, AddressBytes(sec, a));
    FixedRoundTrip(sec, at + 1, a, sec.addrSize);
  }

  lemma DiscriminatorEncoded(h: Header, sec: Section, at: nat, i: Instr)
    requires Encodable(h, sec, i) && i.SetDiscriminator? && At(sec.data, at, Body(sec, i))
    ensures var body := Body(sec, i);
      DecodeBody(sec, body[0], at + 1, at + |body|) == Ok(Decoded(i, at + |body|, true))
      && FixedAt(sec, at, 1) == Ok((body[0], at + 1))
  {
    hide At, UnsignedAt, FixedAt, FileEntryAt, FixedBytes, EntryBytes;
    hide Leb128.EncodeUnsigned, Leb128.Terminated, Leb128.Unsigned;
    var n := i.discriminator;
    ByteIsRead(sec, at, 4, Leb128.EncodeUnsigned(n));
    OperandUnsigned(sec, at + 1, n);
  }

  lemma DefineFileEncoded(h: Header, sec: Section, at: nat, i: Instr)
    requires Encodable(h, sec, i) && i.DefineFile? && At(sec.data, at, Body(sec, i))
    ensures var body := Body(sec, i);
      DecodeBody(sec, body[0], at + 1, at + |body|) == Ok(Decoded(i, at + |body|, true))
      && FixedAt(sec, at, 1) == Ok((body[0], at + 1))
  {
    hide At, UnsignedAt, FixedAt, FileEntryAt, FixedBytes, EntryBytes;
    hide Leb128.EncodeUnsigned, Leb128.Terminated, Leb128.Unsigned;
    ByteIsRead(sec, at, 3, EntryBytes(i.name, i.dir, i.mtime, i.length));
    FileEntryEncoded(sec, at + 1, i.name, i.dir, i.mtime, i.length);
  }

  lemma DecodeExtendedEncoded(h: Header, sec: Section, pos: nat, i: Instr)
    requires Encodable(h, sec, i) && Opcode(i) == 0 && !i.Special? && |sec.data| < TWO63
    requires var body := Body(sec, i); At(sec.data, pos, Leb128.EncodeUnsigned(|body|) + body)
    ensures var body := Body(sec, i);
      DecodeExtended(sec, pos) == Ok(Decoded(i, pos + |Leb128.EncodeUnsigned(|body|)| + |body|, true))
  {
    hide UnsignedAt, FixedAt, At, DecodeBody, Body, Leb128.EncodeUnsigned, Leb128.Terminated, Leb128.Unsigned;
    var body := Body(sec, i);
    var at := pos + |Leb128.EncodeUnsigned(|body|)|;
    BodySmall(h, sec, i);
    AtUnsigned(sec, pos, |body|, body);
    DecodeBodyEncoded(h, sec, at, i);
    AtInside(sec.data, at, body);
  }

  lemma AtInside(data: seq<byte>, pos: nat, bs: seq<byte>)
    requires At(data, pos, bs) && |data| < TWO63
    ensures (pos + |bs|) % TWO64 == pos + |bs| <= |data|
  {
  }

  /** Decoding inverts encoding, for every instruction and every header that knows it. */
  lemma DecodeInvertsEncode(h: Header, sec: Section, pos: nat, i: Instr)
    requires h.Accepted() && Encodable(h, sec, i) && |sec.data| < TWO63
    requires At(sec.data, pos, Encode(h, sec, i))
    ensures Decode(h, sec, pos) == Ok(Decoded(i, pos + |Encode(h, sec, i)|, true))
  {
    hide At, FixedAt, DecodeStandard, DecodeExtended, Body, Operand,
         Leb128.EncodeUnsigned, Leb128.Terminated, Leb128.Unsigned;
    if i.Special? {
      assert Encode(h, sec, i) == [i.adjusted + h.opcodeBase] + [];
      ByteIsRead(sec, pos, i.adjusted + h.opcodeBase, []);
    } else if Opcode(i) > 0 {
      ByteIsRead(sec, pos, Opcode(i), Operand(sec, i));
      DecodeOperand(h, sec, pos + 1, i);
    } else {
      var body := Body(sec, i);
      assert Encode(h, sec, i) == [0] + (Leb128.EncodeUnsigned(|body|) + body);
      ByteIsRead(sec, pos, 0, Leb128.EncodeUnsigned(|body|) + body);
      DecodeExtendedEncoded(h, sec, pos + 1, i);
    }
  }

  /** Every instruction is one the header knows, and none defines a file. */
  predicate AllEncodable(h: Header, sec: Section, prog: seq<Instr>) {
    forall i :: i in prog ==> Encodable(h, sec, i) && !i.DefineFile?
  }
}
