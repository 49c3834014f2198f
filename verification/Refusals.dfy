/** What the readers of sections, values and units refuse, and with which error. */
module Refusals {
  import opened Words
  import opened Sections
  import opened Values
  import opened Units
  import Leb128

  // ---------- data that ends too early ----------

  /** A number or a string that does not end before its section does, an address of a size there is none of,
      and an offset in a section of no known format. */
  lemma TruncatedIsRefused(sec: Section, pos: nat, n: nat)
    ensures n <= 8 && pos + n > |sec.data| ==> FixedAt(sec, pos, n) == Err(Underflow)
    ensures (forall i :: pos <= i < |sec.data| ==> sec.data[i] >= 128) ==>
      UnsignedAt(sec, pos) == Err(Underflow) && SignedAt(sec, pos) == Err(Underflow)
    ensures pos <= |sec.data| && (forall i :: pos <= i < |sec.data| ==> sec.data[i] != 0) ==>
      StringAt(sec, pos) == Err(FormatError)
    ensures sec.addrSize !in {1, 2, 4, 8} ==> AddressAt(sec, pos) == Err(NotImplemented)
    ensures sec.fmt.Unknown? ==> OffsetAt(sec, pos) == Err(LogicError)
  {
    hide Leb128.Terminated;
    if forall i :: pos <= i < |sec.data| ==> sec.data[i] >= 128 { Leb128.StopNone(sec.data, pos); }
    if pos <= |sec.data| && forall i :: pos <= i < |sec.data| ==> sec.data[i] != 0 { NoNul(sec.data, pos); }
  }

  lemma {:induction false} NoNul(data: seq<byte>, pos: nat)
    requires pos <= |data| && forall i :: pos <= i < |data| ==> data[i] != 0
    ensures ScanNul(data, pos) == |data|
    decreases |data| - pos
  {
    if pos < |data| { NoNul(data, pos + 1); }
  }

  /** Of a LEB128 number that is too large the low 64 bits are read. */
  lemma LargeNumbersWrap(sec: Section, pos: nat, bs: seq<byte>)
    requires Leb128.Terminated(bs) && At(sec.data, pos, bs)
    ensures UnsignedAt(sec, pos) == Ok((Leb128.Unsigned(bs) % TWO64, pos + |bs|))
    ensures SignedAt(sec, pos) == Ok((ToSigned(Leb128.Signed(bs) % TWO64), pos + |bs|))
  {
    hide Leb128.Stop, Leb128.Unsigned, Leb128.Signed;
    Leb128.StopUnique(sec.data, pos, pos + |bs|);
  }

  // ---------- values ----------

  /** A reader accepts no form but its own. */
  lemma OtherFormsAreRefused(src: Source, form: Form, off: nat)
    ensures form != Addr ==> AsAddress(src, form, off) == Err(TypeMismatch)
    ensures form !in {Block1, Block2, Block4, Block, Exprloc} ==>
      AsBlock(src, form, off) == Err(TypeMismatch) && AsExprloc(src, form, off) == Err(TypeMismatch)
    ensures form !in {Data1, Data2, Data4, Data8, Udata} ==> AsUconstant(src, form, off) == Err(TypeMismatch)
    ensures form !in {Data1, Data2, Data4, Data8, Sdata} ==> AsSconstant(src, form, off) == Err(TypeMismatch)
    ensures form !in {Flag, FlagPresent} ==> AsFlag(src, form, off) == Err(TypeMismatch)
    ensures form !in {Ref1, Ref2, Ref4, Ref8, RefUdata, RefAddr, RefSig8} ==>
      AsReference(src, form, off) == Err(TypeMismatch)
    ensures form !in {Str, Strp} ==> AsCstr(src, form, off) == Err(TypeMismatch)
    ensures form !in {Data4, Data8, SecOffset} ==> AsSecOffset(src, form, off) == Err(TypeMismatch)
  {
    hide FixedAt, UnsignedAt, SignedAt, StringAt, OffsetAt, AddressAt;
  }

  /** The two forms that skipping and reading disagree on: ref8 is read and not skipped, indirect is skipped as
      the form its number names and not read. */
  lemma OddForms(src: Source, off: nat, n: word, bs: seq<byte>, code: word)
    ensures SkipEnd(src.sec, Ref8, off) == Err(FormatError)
    ensures At(src.sec.data, off, FixedBytes(src.sec.lsb, n, 8)) ==> AsReference(src, Ref8, off) == Ok(InUnit(n))
    ensures IsLeb(bs, code) && At(src.sec.data, off, bs) ==>
      SkipEnd(src.sec, Indirect, off) == SkipEnd(src.sec, FormOf(code), off + |bs|)
  {
    hide At, FixedAt, UnsignedAt, FormOf, FixedBytes, Pow2;
    Pow2Is64();
    if At(src.sec.data, off, FixedBytes(src.sec.lsb, n, 8)) { FixedRoundTrip(src.sec, off, n, 8); }
    if IsLeb(bs, code) && At(src.sec.data, off, bs) { UnsignedRoundTrip(src.sec, off, bs, code); }
  }

  // ---------- units ----------

  /** The initial lengths that are reserved, all but the one that announces the 64-bit format. */
  lemma ReservedLengthIsRefused(sec: Section, pos: nat, v: nat)
    requires 0xffff_fff0 <= v < 0xffff_ffff && At(sec.data, pos, FixedBytes(sec.lsb, v, 4))
    ensures SubsectionAt(sec, pos) == Err(FormatError) && ReadUnit(sec, pos) == Err(FormatError)
  {
    hide At, FixedAt, FixedBytes, Pow2;
    SmallFits(v);
    FixedRoundTrip(sec, pos, v, 4);
  }

  /** A unit of another version than 2 to 4. */
  lemma OtherVersionsAreRefused(sec: Section, pos: nat, m: Image)
    requires LengthFits(sec.lsb, m) && m.version < 0x1_0000 && !(2 <= m.version <= 4)
    requires At(sec.data, pos, ImageBytes(sec.lsb, m))
    ensures ReadUnit(sec, pos) == Err(FormatError)
  {
    hide FixedAt, FixedBytes, Pow2, ImageBytes, UnitSizeAt, OffsetAt, AfterVersion, LengthFits;
    var bytes := ImageBytes(sec.lsb, m);
    LengthIsRead(sec, m, pos);
    assert sec.data[pos..pos + |bytes|] == bytes && bytes[0..|bytes|] == bytes;
    VersionIsRead(Section(bytes, m.fmt, sec.lsb, 0), m);
  }

  /** A program without one of the two sections that are always needed. */
  lemma MissingSectionsAreRefused(info: Option<seq<byte>>, abbrev: Option<seq<byte>>)
    ensures info.None? ==> Load(info, abbrev) == Err(FormatError)
    ensures info.Some? && abbrev.None? ==>
      Load(info, abbrev) == match LooksMsb(info.value) case Ok(_) => Err(FormatError) case Err(e) => Err(e)
  {
    hide LooksMsb, UnitsFrom;
  }
}
