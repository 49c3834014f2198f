/** Attribute values (section 7.5.4 of DWARF Version 4): what the readers make of the encoded bytes, and
    that skipping a form and decoding it agree. */
module Values {
  import opened Words
  import opened Sections
  import Leb128

  /** The data of a unit, and the string section its strp values point into. */
  datatype Source = Source(sec: Section, strs: Section)

  // ---------- the readers ----------

  function Just<T>(r: Result<(T, nat)>): Result<T> {
    match r case Ok(p) => Ok(p.0) case Err(e) => Err(e)
  }

  function SignedFixed(sec: Section, pos: nat, n: nat): Result<int>
    requires n in {1, 2, 4, 8}
  {
    var v :- FixedAt(sec, pos, n);
    Ok(if 2 * v.0 < Pow2(8 * n) then v.0 else v.0 - Pow2(8 * n))
  }

  function AsAddress(src: Source, form: Form, off: nat): Result<word> {
    if !form.Addr? then Err(TypeMismatch) else Just(AddressAt(src.sec, off))
  }

  /** The length prefix of a block form: the length and where the block starts. */
  function BlockLength(src: Source, form: Form, off: nat): Result<(word, nat)> {
    match form
    case Block1 => FixedAt(src.sec, off, 1)
    case Block2 => FixedAt(src.sec, off, 2)
    case Block4 => FixedAt(src.sec, off, 4)
    case Block | Exprloc => UnsignedAt(src.sec, off)
    case _ => Err(TypeMismatch)
  }

  /** `ensure` refuses any read, even of nothing, at the very end of the section. */
  function AsBlock(src: Source, form: Form, off: nat): Result<seq<byte>> {
    var n :- BlockLength(src, form, off);
    if n.1 + n.0 > |src.sec.data| || n.1 == |src.sec.data| then Err(Underflow)
    else Ok(src.sec.data[n.1..n.1 + n.0])
  }

  function AsUconstant(src: Source, form: Form, off: nat): Result<word> {
    match form
    case Data1 => Just(FixedAt(src.sec, off, 1))
    case Data2 => Just(FixedAt(src.sec, off, 2))
    case Data4 => Just(FixedAt(src.sec, off, 4))
    case Data8 => Just(FixedAt(src.sec, off, 8))
    case Udata => Just(UnsignedAt(src.sec, off))
    case _ => Err(TypeMismatch)
  }

  function AsSconstant(src: Source, form: Form, off: nat): Result<int> {
    match form
    case Data1 => SignedFixed(src.sec, off, 1)
    case Data2 => SignedFixed(src.sec, off, 2)
    case Data4 => SignedFixed(src.sec, off, 4)
    case Data8 => SignedFixed(src.sec, off, 8)
    case Sdata => Just(SignedAt(src.sec, off))
    case _ => Err(TypeMismatch)
  }

  /** Where the expression starts and how long it is. */
  function AsExprloc(src: Source, form: Form, off: nat): Result<(nat, word)> {
    var n :- BlockLength(src, form, off);
    Ok((n.1, n.0))
  }

  function AsFlag(src: Source, form: Form, off: nat): Result<bool> {
    match form
    case Flag =>
      var b :- FixedAt(src.sec, off, 1);
      Ok(b.0 != 0)
    case FlagPresent => Ok(true)
    case _ => Err(TypeMismatch)
  }

  datatype Reference = InUnit(offset: word) | InSection(offset: word) | TypeUnit(signature: word)

  function AsReference(src: Source, form: Form, off: nat): Result<Reference> {
    match form
    case Ref1 => var v :- FixedAt(src.sec, off, 1); Ok(InUnit(v.0))
    case Ref2 => var v :- FixedAt(src.sec, off, 2); Ok(InUnit(v.0))
    case Ref4 => var v :- FixedAt(src.sec, off, 4); Ok(InUnit(v.0))
    case Ref8 => var v :- FixedAt(src.sec, off, 8); Ok(InUnit(v.0))
    case RefUdata => var v :- UnsignedAt(src.sec, off); Ok(InUnit(v.0))
    case RefAddr => var v :- OffsetAt(src.sec, off); Ok(InSection(v.0))
    case RefSig8 => var v :- FixedAt(src.sec, off, 8); Ok(TypeUnit(v.0))
    case _ => Err(TypeMismatch)
  }

  function AsCstr(src: Source, form: Form, off: nat): Result<seq<byte>> {
    match form
    case Str => Just(StringAt(src.sec, off))
    case Strp =>
      var at :- OffsetAt(src.sec, off);
      Just(StringAt(src.strs, at.0))
    case _ => Err(TypeMismatch)
  }

  function AsSecOffset(src: Source, form: Form, off: nat): Result<word> {
    match form
    case Data4 => Just(FixedAt(src.sec, off, 4))
    case Data8 => Just(FixedAt(src.sec, off, 8))
    case SecOffset => Just(OffsetAt(src.sec, off))
    case _ => Err(TypeMismatch)
  }

  // ---------- encodings ----------

  /** A value as encoded: a number, a signed number, a block after its length prefix, a string. */
  datatype Encoded =
    | Number(n: word)
    | SignedNumber(z: int)
    | Bytes(prefix: seq<byte>, block: seq<byte>)
    | Text(s: seq<byte>)
    | Present

  function FixedSize(sec: Section, form: Form): nat {
    match form
    case Data1 | Ref1 | Flag | Block1 => 1
    case Data2 | Ref2 | Block2 => 2
    case Data4 | Ref4 | Block4 => 4
    case Data8 | RefSig8 => 8
    case Addr => sec.addrSize
    case SecOffset | RefAddr | Strp => OffsetSize(sec.fmt)
    case _ => 0
  }

  predicate IsFixedForm(form: Form) {
    form in {Data1, Data2, Data4, Data8, Ref1, Ref2, Ref4, RefSig8, Flag, Addr, SecOffset, RefAddr, Strp}
  }

  /** `bs` is an encoding of `v` in a form: LEB128 parts may be padded. Every form the reader can skip
      is covered but indirect, whose readers never accept it. */
  predicate Encodes(sec: Section, form: Form, bs: seq<byte>, v: Encoded) {
    if IsFixedForm(form) then
      var n := FixedSize(sec, form);
      && v.Number? && n in {1, 2, 4, 8} && v.n < Pow2(8 * n) && bs == FixedBytes(sec.lsb, v.n, n)
      && (form in {SecOffset, RefAddr, Strp} ==> !sec.fmt.Unknown?)
    else
      match form
      case Udata | RefUdata => v.Number? && Leb128.Terminated(bs) && Leb128.Unsigned(bs) == v.n
      case Sdata =>
        v.SignedNumber? && Leb128.Terminated(bs) && Leb128.Signed(bs) == v.z && -TWO63 <= v.z < TWO63
      case Str => v.Text? && 0 !in v.s && bs == v.s + [0]
      case Block1 | Block2 | Block4 =>
        && v.Bytes? && |v.block| < Pow2(8 * FixedSize(sec, form))
        && v.prefix == FixedBytes(sec.lsb, |v.block|, FixedSize(sec, form)) && bs == v.prefix + v.block
      case Block | Exprloc =>
        && v.Bytes? && |v.block| < TWO64 && Leb128.Terminated(v.prefix)
        && Leb128.Unsigned(v.prefix) == |v.block| && bs == v.prefix + v.block
      case FlagPresent => v.Present? && bs == []
      case _ => false
  }

  /** Reading the value back, through every reader that accepts the form. */
  ghost predicate ReadsBack(src: Source, form: Form, v: Encoded, off: nat) {
    match v
    case Number(n) =>
      && (form.Addr? ==> AsAddress(src, form, off) == Ok(n))
      && (form in {Data1, Data2, Data4, Data8, Udata} ==> AsUconstant(src, form, off) == Ok(n))
      && (form in {Data1, Data2, Data4, Data8} ==>
            AsSconstant(src, form, off) ==
              Ok(if 2 * n < Pow2(8 * FixedSize(src.sec, form)) then n else n - Pow2(8 * FixedSize(src.sec, form))))
      && (form in {Data4, Data8, SecOffset} ==> AsSecOffset(src, form, off) == Ok(n))
      && (form in {Ref1, Ref2, Ref4, RefUdata} ==> AsReference(src, form, off) == Ok(InUnit(n)))
      && (form.RefAddr? ==> AsReference(src, form, off) == Ok(InSection(n)))
      && (form.RefSig8? ==> AsReference(src, form, off) == Ok(TypeUnit(n)))
      && (form.Flag? ==> AsFlag(src, form, off) == Ok(n != 0))
      && (form.Strp? ==> AsCstr(src, form, off) == Just(StringAt(src.strs, n)))
    case SignedNumber(z) => AsSconstant(src, form, off) == Ok(z)
    case Text(s) => AsCstr(src, form, off) == Ok(s)
    case Bytes(prefix, block) =>
      && AsExprloc(src, form, off) == Ok((off + |prefix|, |block|))
      && (AsBlock(src, form, off) == Ok(block) <==> block != [] || off + |prefix| < |src.sec.data|)
    case Present => AsFlag(src, form, off) == Ok(true)
  }

  // ---------- skip and decode agree ----------

  /** Skipping an attribute moves past exactly the bytes that its readers decode, and each reader that
      accepts the form returns the encoded value. The one exception is `as_block` on an empty block at
      the very end of the unit. */
  lemma SkipAndDecodeAgree(src: Source, form: Form, bs: seq<byte>, v: Encoded, off: nat)
    requires Encodes(src.sec, form, bs, v) && At(src.sec.data, off, bs)
    ensures SkipEnd(src.sec, form, off) == Ok(off + |bs|)
    ensures ReadsBack(src, form, v, off)
  {
    hide At, FixedAt, UnsignedAt, SignedAt, StringAt, Pow2, FixedBytes;
    hide Leb128.Terminated, Leb128.Unsigned, Leb128.Signed;
    if IsFixedForm(form) {
      FixedAgrees(src, form, bs, v, off);
    } else {
      match form
      case Udata => LebAgrees(src, form, bs, v, off);
      case RefUdata => LebAgrees(src, form, bs, v, off);
      case Sdata => LebAgrees(src, form, bs, v, off);
      case Str => TextAgrees(src, bs, v.s, off);
      case Block1 => BlockAgrees(src, form, bs, v, off);
      case Block2 => BlockAgrees(src, form, bs, v, off);
      case Block4 => BlockAgrees(src, form, bs, v, off);
      case Block => BlockAgrees(src, form, bs, v, off);
      case Exprloc => BlockAgrees(src, form, bs, v, off);
      case FlagPresent =>
    }
  }

  lemma FixedAgrees(src: Source, form: Form, bs: seq<byte>, v: Encoded, off: nat)
    requires IsFixedForm(form) && Encodes(src.sec, form, bs, v) && At(src.sec.data, off, bs)
    ensures SkipEnd(src.sec, form, off) == Ok(off + |bs|)
    ensures ReadsBack(src, form, v, off)
  {
    hide At, FixedAt, SkipEnd, ReadsBack, Pow2, FixedBytes;
    var n := FixedSize(src.sec, form);
    FixedBytesLength(src.sec.lsb, v.n, n);
    FixedRoundTrip(src.sec, off, v.n, n);
    FixedSkips(src.sec, form, off);
    FixedReads(src, form, v.n, off);
  }

  lemma FixedSkips(sec: Section, form: Form, off: nat)
    requires IsFixedForm(form) && (form in {SecOffset, RefAddr, Strp} ==> !sec.fmt.Unknown?)
    ensures SkipEnd(sec, form, off) == Ok(off + FixedSize(sec, form))
  {
    hide FixedAt, UnsignedAt;
  }

  lemma FixedReads(src: Source, form: Form, n: word, off: nat)
    requires IsFixedForm(form) && (form in {SecOffset, RefAddr, Strp} ==> !src.sec.fmt.Unknown?)
    requires FixedSize(src.sec, form) in {1, 2, 4, 8}
    requires FixedAt(src.sec, off, FixedSize(src.sec, form)) == Ok((n, off + FixedSize(src.sec, form)))
    ensures ReadsBack(src, form, Number(n), off)
  {
    hide FixedAt, UnsignedAt, SignedAt, StringAt, Pow2;
  }

  lemma FixedBytesLength(lsb: bool, v: nat, n: nat)
    ensures |FixedBytes(lsb, v, n)| == n
  {}

  /** The skip loop over continuation bytes and the decoders stop at the same byte. */
  lemma LebAgrees(src: Source, form: Form, bs: seq<byte>, v: Encoded, off: nat)
    requires form in {Udata, RefUdata, Sdata} && Encodes(src.sec, form, bs, v) && At(src.sec.data, off, bs)
    ensures SkipEnd(src.sec, form, off) == Ok(off + |bs|)
    ensures ReadsBack(src, form, v, off)
  {
    hide Leb128.Terminated, Leb128.Unsigned, Leb128.Signed, Pow2;
    ScanHighIsStop(src.sec.data, off);
    StopAt(src.sec.data, off, bs);
    if form.Sdata? {
      SignedRoundTrip(src.sec, off, bs, v.z);
    } else {
      UnsignedRoundTrip(src.sec, off, bs, v.n);
    }
  }

  lemma StopAt(data: seq<byte>, off: nat, bs: seq<byte>)
    requires Leb128.Terminated(bs) && At(data, off, bs)
    ensures Leb128.Stop(data, off) == Some(off + |bs|)
  {
    Leb128.StopUnique(data, off, off + |bs|);
  }

  lemma TextAgrees(src: Source, bs: seq<byte>, s: seq<byte>, off: nat)
    requires 0 !in s && bs == s + [0] && At(src.sec.data, off, bs)
    ensures SkipEnd(src.sec, Str, off) == Ok(off + |bs|)
    ensures ReadsBack(src, Str, Text(s), off)
  {
    hide At;
    StringRoundTrip(src.sec, off, s);
  }

  lemma BlockAgrees(src: Source, form: Form, bs: seq<byte>, v: Encoded, off: nat)
    requires form in {Block1, Block2, Block4, Block, Exprloc}
    requires Encodes(src.sec, form, bs, v) && At(src.sec.data, off, bs)
    ensures SkipEnd(src.sec, form, off) == Ok(off + |bs|)
    ensures ReadsBack(src, form, v, off)
  {
    hide BlockLength, SkipEnd, FixedBytes, Leb128.Terminated, Leb128.Unsigned, Pow2;
    PrefixIsRead(src, form, bs, v, off);
    BlockSkips(src, form, off);
    assert src.sec.data[off + |v.prefix|..off + |v.prefix| + |v.block|] == v.block;
  }

  lemma PrefixIsRead(src: Source, form: Form, bs: seq<byte>, v: Encoded, off: nat)
    requires form in {Block1, Block2, Block4, Block, Exprloc}
    requires Encodes(src.sec, form, bs, v) && At(src.sec.data, off, bs)
    ensures v.Bytes? && bs == v.prefix + v.block && At(src.sec.data, off + |v.prefix|, v.block)
    ensures BlockLength(src, form, off) == Ok((|v.block|, off + |v.prefix|))
  {
    hide At, FixedAt, UnsignedAt, Pow2, FixedBytes, Leb128.Terminated, Leb128.Unsigned;
    AtSplit(src.sec.data, off, v.prefix, v.block);
    if form.Block? || form.Exprloc? {
      UnsignedRoundTrip(src.sec, off, v.prefix, |v.block|);
    } else {
      FixedBytesLength(src.sec.lsb, |v.block|, FixedSize(src.sec, form));
      FixedRoundTrip(src.sec, off, |v.block|, FixedSize(src.sec, form));
    }
  }

  lemma BlockSkips(src: Source, form: Form, off: nat)
    requires form in {Block1, Block2, Block4, Block, Exprloc} && BlockLength(src, form, off).Ok?
    ensures var n := BlockLength(src, form, off).value; SkipEnd(src.sec, form, off) == Ok(n.1 + n.0)
  {
    hide FixedAt, UnsignedAt;
  }
}
