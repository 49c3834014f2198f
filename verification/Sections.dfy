/** Sections of debugging data and the cursor that decodes them. */
module Sections {
  import opened Words
  import Leb128

  datatype Format = Unknown | Dwarf32 | Dwarf64

  datatype Section = Section(data: seq<byte>, fmt: Format, lsb: bool, addrSize: nat)

  /** `bs` lies in `data` at `pos`. */
  predicate At(data: seq<byte>, pos: nat, bs: seq<byte>) {
    pos + |bs| <= |data| && data[pos..pos + |bs|] == bs
  }

  lemma AtSplit(data: seq<byte>, pos: nat, a: seq<byte>, b: seq<byte>)
    requires At(data, pos, a + b)
    ensures At(data, pos, a) && At(data, pos + |a|, b)
  {
    assert data[pos..pos + |a|] == (a + b)[..|a|];
    assert data[pos + |a|..pos + |a| + |b|] == (a + b)[|a|..];
  }

  // ---------- fixed-size numbers ----------

  function LittleEndian(bs: seq<byte>): nat {
    if bs == [] then 0 else bs[0] + 256 * LittleEndian(bs[1..])
  }

  function BigEndian(bs: seq<byte>): nat {
    if bs == [] then 0 else 256 * BigEndian(bs[..|bs| - 1]) + bs[|bs| - 1]
  }

  function Fixed(lsb: bool, bs: seq<byte>): nat {
    if lsb then LittleEndian(bs) else BigEndian(bs)
  }

  lemma EightBits(k: nat)
    ensures Pow2(8 * (k + 1)) == 256 * Pow2(8 * k)
  {
    hide Pow2;
    Pow2Is8();
    Pow2Add(8, 8 * k);
    assert 8 * (k + 1) == 8 + 8 * k;
  }

  lemma {:induction false} LittleEndianSnoc(bs: seq<byte>, b: byte)
    ensures LittleEndian(bs + [b]) == LittleEndian(bs) + b * Pow2(8 * |bs|)
  {
    if bs == [] {
      assert (bs + [b])[1..] == [];
    } else {
      assert (bs + [b])[1..] == bs[1..] + [b];
      LittleEndianSnoc(bs[1..], b);
      EightBits(|bs| - 1);
      MulAssoc(b, 256, Pow2(8 * (|bs| - 1)));
      MulAssoc(256, b, Pow2(8 * (|bs| - 1)));
    }
  }

  lemma {:induction false} FixedBound(lsb: bool, bs: seq<byte>)
    ensures Fixed(lsb, bs) < Pow2(8 * |bs|)
  {
    if bs != [] {
      EightBits(|bs| - 1);
      FixedBound(lsb, if lsb then bs[1..] else bs[..|bs| - 1]);
    }
  }

  lemma Fixed8Bound(lsb: bool, bs: seq<byte>)
    requires |bs| <= 8
    ensures 0 <= Fixed(lsb, bs) < TWO64
  {
    hide Pow2, Fixed;
    FixedBound(lsb, bs);
    Pow2Add(8 * |bs|, 64 - 8 * |bs|);
    Pow2Is64();
    MulMono(1, Pow2(64 - 8 * |bs|), Pow2(8 * |bs|));
  }

  /** The `n`-byte encoding of `v` in the section's byte order. */
  function FixedBytes(lsb: bool, v: nat, n: nat): (bs: seq<byte>)
    ensures |bs| == n
    ensures v < Pow2(8 * n) ==> Fixed(lsb, bs) == v
  {
    if n == 0 then []
    else
      EightBits(n - 1);
      assert v < 256 * Pow2(8 * (n - 1)) ==> v / 256 < Pow2(8 * (n - 1)) by {
        if v < 256 * Pow2(8 * (n - 1)) { DivLess(v, 256, Pow2(8 * (n - 1))); }
      }
      var rest := FixedBytes(lsb, v / 256, n - 1);
      var low: byte := v % 256;
      var bs := if lsb then [low] + rest else rest + [low];
      assert lsb ==> bs[1..] == rest;
      assert !lsb ==> bs[..n - 1] == rest;
      bs
  }

  function FixedAt(sec: Section, pos: nat, n: nat): (r: Result<(word, nat)>)
    requires n <= 8
    ensures r.Ok? ==> r.value.1 == pos + n <= |sec.data|
  {
    if pos + n > |sec.data| then Err(Underflow)
    else
      var bs := sec.data[pos..pos + n];
      Fixed8Bound(sec.lsb, bs);
      Ok((Fixed(sec.lsb, bs), pos + n))
  }

  lemma FixedRoundTrip(sec: Section, pos: nat, v: nat, n: nat)
    requires n <= 8 && v < Pow2(8 * n)
    requires At(sec.data, pos, FixedBytes(sec.lsb, v, n))
    ensures FixedAt(sec, pos, n) == Ok((v, pos + n))
  {
    Fixed8Bound(sec.lsb, FixedBytes(sec.lsb, v, n));
  }

  // ---------- LEB128 numbers ----------

  function UnsignedAt(sec: Section, pos: nat): (r: Result<(word, nat)>)
    ensures r.Ok? ==> pos < r.value.1 <= |sec.data|
  {
    match Leb128.Stop(sec.data, pos)
    case None => Err(Underflow)
    case Some(end) => Ok((Wrap(Leb128.Unsigned(sec.data[pos..end])), end))
  }

  function SignedAt(sec: Section, pos: nat): (r: Result<(int, nat)>)
    ensures r.Ok? ==> -TWO63 <= r.value.0 < TWO63 && pos < r.value.1 <= |sec.data|
  {
    match Leb128.Stop(sec.data, pos)
    case None => Err(Underflow)
    case Some(end) => Ok((ToSigned(Wrap(Leb128.Signed(sec.data[pos..end]))), end))
  }

  /** Any encoding of `v`, padded or not, decodes to `v` and is consumed whole. */
  lemma UnsignedRoundTrip(sec: Section, pos: nat, bs: seq<byte>, v: word)
    requires Leb128.Terminated(bs) && Leb128.Unsigned(bs) == v
    requires At(sec.data, pos, bs)
    ensures UnsignedAt(sec, pos) == Ok((v, pos + |bs|))
  {
    hide Leb128.Stop, Leb128.Unsigned;
    Leb128.StopUnique(sec.data, pos, pos + |bs|);
  }

  lemma SignedRoundTrip(sec: Section, pos: nat, bs: seq<byte>, z: int)
    requires Leb128.Terminated(bs) && Leb128.Signed(bs) == z && -TWO63 <= z < TWO63
    requires At(sec.data, pos, bs)
    ensures SignedAt(sec, pos) == Ok((z, pos + |bs|))
  {
    hide Leb128.Stop, Leb128.Signed;
    Leb128.StopUnique(sec.data, pos, pos + |bs|);
    if z < 0 { ModUnique(z, TWO64, -1, z + TWO64); }
  }

  // ---------- one after the other ----------

  lemma ByteAt(sec: Section, pos: nat)
    requires pos < |sec.data|
    ensures FixedAt(sec, pos, 1) == Ok((sec.data[pos], pos + 1))
  {
    var bs := sec.data[pos..pos + 1];
    assert bs == [sec.data[pos]];
    assert LittleEndian(bs[1..]) == 0 && BigEndian(bs[..0]) == 0;
  }

  /** A byte, or a number, in front of other bytes. */
  lemma ByteIsRead(sec: Section, pos: nat, b: byte, rest: seq<byte>)
    requires At(sec.data, pos, [b] + rest)
    ensures FixedAt(sec, pos, 1) == Ok((b, pos + 1)) && At(sec.data, pos + 1, rest)
  {
    AtSplit(sec.data, pos, [b], rest);
    assert sec.data[pos] == [b][0];
    ByteAt(sec, pos);
  }

  predicate IsLeb(bs: seq<byte>, n: nat) { Leb128.Terminated(bs) && Leb128.Unsigned(bs) == n }

  lemma NumberIsRead(sec: Section, pos: nat, bs: seq<byte>, n: word, rest: seq<byte>)
    requires IsLeb(bs, n) && At(sec.data, pos, bs + rest)
    ensures UnsignedAt(sec, pos) == Ok((n, pos + |bs|)) && At(sec.data, pos + |bs|, rest)
  {
    hide UnsignedAt, At, Leb128.Terminated, Leb128.Unsigned;
    AtSplit(sec.data, pos, bs, rest);
    UnsignedRoundTrip(sec, pos, bs, n);
  }

  // ---------- addresses, offsets, strings ----------

  function AddressAt(sec: Section, pos: nat): (r: Result<(word, nat)>)
    ensures r.Ok? ==> pos < r.value.1 == pos + sec.addrSize <= |sec.data|
  {
    if sec.addrSize in {1, 2, 4, 8} then FixedAt(sec, pos, sec.addrSize) else Err(NotImplemented)
  }

  function OffsetSize(fmt: Format): nat { if fmt.Dwarf64? then 8 else 4 }

  function OffsetAt(sec: Section, pos: nat): (r: Result<(word, nat)>)
    ensures r.Ok? ==> pos < r.value.1 <= |sec.data|
  {
    if sec.fmt.Unknown? then Err(LogicError) else FixedAt(sec, pos, OffsetSize(sec.fmt))
  }

  /** The first position at or after `pos` that holds a zero byte, or the end of the data. */
  function ScanNul(data: seq<byte>, pos: nat): (end: nat)
    ensures pos <= |data| ==> pos <= end <= |data|
    ensures pos > |data| ==> end == pos
    ensures end < |data| ==> data[end] == 0
    ensures forall i :: pos <= i < end && i < |data| ==> data[i] != 0
    decreases |data| - pos
  {
    if pos < |data| && data[pos] != 0 then ScanNul(data, pos + 1) else pos
  }

  /** The first position at or after `pos` whose high bit is clear, or the end of the data. */
  function ScanHigh(data: seq<byte>, pos: nat): (end: nat)
    ensures pos <= |data| ==> pos <= end <= |data|
    ensures pos > |data| ==> end == pos
    decreases |data| - pos
  {
    if pos < |data| && data[pos] >= 128 then ScanHigh(data, pos + 1) else pos
  }

  lemma {:induction false} ScanHighIsStop(data: seq<byte>, pos: nat)
    ensures Leb128.Stop(data, pos) ==
            if ScanHigh(data, pos) < |data| then Some(ScanHigh(data, pos) + 1) else None
    decreases |data| - pos
  {
    if pos < |data| && data[pos] >= 128 { ScanHighIsStop(data, pos + 1); }
  }

  function StringAt(sec: Section, pos: nat): (r: Result<(seq<byte>, nat)>)
    ensures r.Ok? ==> pos < r.value.1 <= |sec.data| && 0 !in r.value.0
  {
    var end := ScanNul(sec.data, pos);
    if end > |sec.data| then Err(Undefined)
    else if end == |sec.data| then Err(FormatError)
    else Ok((sec.data[pos..end], end + 1))
  }

  lemma {:induction false} ScanNulUnique(data: seq<byte>, pos: nat, end: nat)
    requires pos <= end < |data| && data[end] == 0 && forall i :: pos <= i < end ==> data[i] != 0
    ensures ScanNul(data, pos) == end
    decreases end - pos
  {
    if pos < end { ScanNulUnique(data, pos + 1, end); }
  }

  lemma StringRoundTrip(sec: Section, pos: nat, s: seq<byte>)
    requires 0 !in s && At(sec.data, pos, s + [0])
    ensures StringAt(sec, pos) == Ok((s, pos + |s| + 1))
  {
    AtSplit(sec.data, pos, s, [0]);
    assert sec.data[pos + |s|] == [0][0];
    forall i | pos <= i < pos + |s| ensures sec.data[i] != 0 {
      assert sec.data[i] == s[i - pos];
    }
    ScanNulUnique(sec.data, pos, pos + |s|);
  }

  // ---------- units ----------

  /** The initial length at `pos`: the unit's whole size, length field included, and its format. */
  function UnitSizeAt(sec: Section, pos: nat): (r: Result<(nat, Format)>)
    ensures r.Ok? ==> !r.value.1.Unknown? && pos + 4 <= |sec.data|
  {
    var len :- FixedAt(sec, pos, 4);
    if len.0 < 0xffff_fff0 then Ok((len.0 + 4, Dwarf32))
    else if len.0 == 0xffff_ffff then
      var len64 :- FixedAt(sec, pos + 4, 8);
      Ok(((len64.0 + 12) % TWO64, Dwarf64))
    else Err(FormatError)
  }

  /** The unit's own section. A length that runs past the data is accepted; only bytes of the data are
      kept here. */
  function SubsectionAt(sec: Section, pos: nat): Result<(Section, nat)> {
    var size :- UnitSizeAt(sec, pos);
    var end := if pos + size.0 < |sec.data| then pos + size.0 else |sec.data|;
    Ok((Section(sec.data[pos..end], size.1, sec.lsb, 0), pos + size.0))
  }

  function InitialLength(fmt: Format): nat { if fmt.Dwarf64? then 12 else 4 }

  // ---------- attribute forms ----------

  datatype Form =
    | Addr | Block1 | Block2 | Block4 | Block | Data1 | Data2 | Data4 | Data8
    | Str | Flag | Sdata | Strp | Udata | RefAddr | Ref1 | Ref2 | Ref4 | Ref8 | RefUdata
    | Indirect | SecOffset | Exprloc | FlagPresent | RefSig8
    | UnknownForm

  /** The form a decoded number names; the conversion to the enumeration keeps 32 bits. */
  function FormOf(code: word): Form {
    var c := code % TWO32;
    if c == 0x01 then Addr
    else if c == 0x03 then Block2
    else if c == 0x04 then Block4
    else if c == 0x05 then Data2
    else if c == 0x06 then Data4
    else if c == 0x07 then Data8
    else if c == 0x08 then Str
    else if c == 0x09 then Block
    else if c == 0x0a then Block1
    else if c == 0x0b then Data1
    else if c == 0x0c then Flag
    else if c == 0x0d then Sdata
    else if c == 0x0e then Strp
    else if c == 0x0f then Udata
    else if c == 0x10 then RefAddr
    else if c == 0x11 then Ref1
    else if c == 0x12 then Ref2
    else if c == 0x13 then Ref4
    else if c == 0x14 then Ref8
    else if c == 0x15 then RefUdata
    else if c == 0x16 then Indirect
    else if c == 0x17 then SecOffset
    else if c == 0x18 then Exprloc
    else if c == 0x19 then FlagPresent
    else if c == 0x20 then RefSig8
    else UnknownForm
  }

  /** Where a cursor at `pos` stands after skipping one attribute of the form. Only length prefixes
      are checked against the end of the section: a skip may land beyond it. */
  function SkipEnd(sec: Section, form: Form, pos: nat): (r: Result<nat>)
    ensures r.Ok? ==> r.value >= pos
    decreases |sec.data| - pos
  {
    match form
    case Addr => Ok(pos + sec.addrSize)
    case SecOffset | RefAddr | Strp =>
      if sec.fmt.Unknown? then Err(LogicError) else Ok(pos + OffsetSize(sec.fmt))
    case Block1 => var n :- FixedAt(sec, pos, 1); Ok(n.1 + n.0)
    case Block2 => var n :- FixedAt(sec, pos, 2); Ok(n.1 + n.0)
    case Block4 => var n :- FixedAt(sec, pos, 4); Ok(n.1 + n.0)
    case Block | Exprloc => var n :- UnsignedAt(sec, pos); Ok(n.1 + n.0)
    case FlagPresent => Ok(pos)
    case Flag | Data1 | Ref1 => Ok(pos + 1)
    case Data2 | Ref2 => Ok(pos + 2)
    case Data4 | Ref4 => Ok(pos + 4)
    case Data8 | RefSig8 => Ok(pos + 8)
    case Sdata | Udata | RefUdata => Ok(ScanHigh(sec.data, pos) + 1)
    case Str => Ok(ScanNul(sec.data, pos) + 1)
    case Indirect =>
      var f :- UnsignedAt(sec, pos);
      SkipEnd(sec, FormOf(f.0), f.1)
    case Ref8 | UnknownForm => Err(FormatError)
  }

  // ---------- the cursor ----------

  /** A method's outcome and the position it leaves agree with what the specification reads. */
  ghost predicate Reads<T(!new)>(spec: Result<(T, nat)>, r: Result<T>, pos: nat) {
    match spec
    case Ok(p) => r == Ok(p.0) && pos == p.1
    case Err(e) => r == Err(e)
  }

  class Cursor {
    const sec: Section
    var pos: nat

    constructor (sec: Section, offset: nat)
      ensures this.sec == sec && pos == offset
    {
      this.sec := sec;
      pos := offset;
    }

    predicate End()
      reads this
    {
      pos >= |sec.data|
    }

    method Ensure(bytes: nat) returns (r: Result<()>)
      ensures r == if pos + bytes > |sec.data| || pos == |sec.data| then Err(Underflow) else Ok(())
    {
      if |sec.data| - pos < bytes || pos >= |sec.data| {
        return Err(Underflow);
      }
      return Ok(());
    }

    /** `fixed<T>` for a type of `n` bytes. */
    method Fixed(n: nat) returns (r: Result<word>)
      requires n in {1, 2, 4, 8}
      modifies this`pos
      ensures Reads(FixedAt(sec, old(pos), n), r, pos)
    {
      var ok := Ensure(n);
      if ok.Err? { return Err(ok.error); }
      Fixed8Bound(sec.lsb, sec.data[pos..pos + n]);
      var val: word;
      if sec.lsb {
        val := FixedLsb(n);
      } else {
        val := FixedMsb(n);
      }
      pos := pos + n;
      return Ok(val);
    }

    method FixedLsb(n: nat) returns (val: word)
      requires n <= 8 && pos + n <= |sec.data|
      ensures val == LittleEndian(sec.data[pos..pos + n])
    {
      ghost var bs := sec.data[pos..pos + n];
      val := 0;
      for i := 0 to n
        invariant val == LittleEndian(bs[..i])
      {
        OrNextByte(bs, i, val);
        val := Bits(BitOr, val, Shl(sec.data[pos + i], i * 8));
      }
      assert bs[..n] == bs;
    }

    method FixedMsb(n: nat) returns (val: word)
      requires n <= 8 && pos + n <= |sec.data|
      ensures val == BigEndian(sec.data[pos..pos + n])
    {
      ghost var bs := sec.data[pos..pos + n];
      val := 0;
      for i := 0 to n
        invariant val == BigEndian(bs[..i])
      {
        OrShifted(bs, i, val);
        val := Bits(BitOr, Shl(val, 8), sec.data[pos + i]);
      }
      assert bs[..n] == bs;
    }

    method Uleb128() returns (r: Result<word>)
      modifies this`pos
      ensures Reads(UnsignedAt(sec, old(pos)), r, pos)
    {
      var result: word := 0;
      var shift := 0;
      ghost var start := pos;
      FoldNothing(sec.data, start);
      hide Folded, Bits, Shl, UnsignedAt;
      while pos < |sec.data|
        invariant Folded(sec.data, start, pos, result, shift)
        decreases |sec.data| - pos
      {
        FoldByte(sec, start, pos, result, shift);
        var b := sec.data[pos];
        pos := pos + 1;
        result := Bits(BitOr, result, Shl(b % 128, shift));
        if b < 128 {
          return Ok(result);
        }
        shift := shift + 7;
      }
      FoldedOut(sec, start, pos, result, shift);
      return Err(Underflow);
    }

    method Sleb128() returns (r: Result<int>)
      modifies this`pos
      ensures Reads(SignedAt(sec, old(pos)), r, pos)
    {
      var result: word := 0;
      var shift := 0;
      ghost var start := pos;
      FoldNothing(sec.data, start);
      hide Folded, Bits, Shl, Negate, ToSigned, UnsignedAt, SignedAt;
      while pos < |sec.data|
        invariant Folded(sec.data, start, pos, result, shift)
        decreases |sec.data| - pos
      {
        FoldByte(sec, start, pos, result, shift);
        var b := sec.data[pos];
        pos := pos + 1;
        result := Bits(BitOr, result, Shl(b % 128, shift));
        shift := shift + 7;
        if b < 128 {
          SignDone(sec, start, pos, result);
          if shift < 64 && b % 128 >= 64 {
            result := Bits(BitOr, result, Negate(Shl(1, shift)));
          }
          return Ok(ToSigned(result));
        }
      }
      FoldedOut(sec, start, pos, result, shift);
      return Err(Underflow);
    }

    method Address() returns (r: Result<word>)
      modifies this`pos
      ensures Reads(AddressAt(sec, old(pos)), r, pos)
    {
      if sec.addrSize == 1 { r := Fixed(1); }
      else if sec.addrSize == 2 { r := Fixed(2); }
      else if sec.addrSize == 4 { r := Fixed(4); }
      else if sec.addrSize == 8 { r := Fixed(8); }
      else { r := Err(NotImplemented); }
    }

    method Offset() returns (r: Result<word>)
      modifies this`pos
      ensures Reads(OffsetAt(sec, old(pos)), r, pos)
    {
      match sec.fmt
      case Dwarf32 => r := Fixed(4);
      case Dwarf64 => r := Fixed(8);
      case Unknown => r := Err(LogicError);
    }

    method Cstr() returns (r: Result<seq<byte>>)
      modifies this`pos
      ensures Reads(StringAt(sec, old(pos)), r, pos)
    {
      var p := pos;
      while pos < |sec.data| && sec.data[pos] != 0
        invariant p <= pos && ScanNul(sec.data, pos) == ScanNul(sec.data, p)
        decreases |sec.data| - pos
      {
        pos := pos + 1;
      }
      if pos == |sec.data| { return Err(FormatError); }
      if pos > |sec.data| { return Err(Undefined); }
      r := Ok(sec.data[p..pos]);
      pos := pos + 1;
    }

    method Subsection() returns (r: Result<Section>)
      modifies this`pos
      ensures match SubsectionAt(sec, old(pos))
              case Err(e) => r == Err(e)
              case Ok(p) => r == Ok(p.0) && pos == p.1
    {
      hide FixedAt;
      var begin := pos;
      var length := Fixed(4);
      if length.Err? { return Err(length.error); }
      var size: nat, fmt := length.value + 4, Dwarf32;
      if length.value >= 0xffff_fff0 {
        if length.value != 0xffff_ffff { return Err(FormatError); }
        length := Fixed(8);
        if length.Err? { return Err(length.error); }
        size, fmt := (length.value + 12) % TWO64, Dwarf64;
      }
      pos := begin + size;
      var end := if pos < |sec.data| then pos else |sec.data|;
      return Ok(Section(sec.data[begin..end], fmt, sec.lsb, 0));
    }

    method SkipInitialLength() returns (r: Result<()>)
      modifies this`pos
      ensures r == if sec.fmt.Unknown? then Err(LogicError) else Ok(())
      ensures pos == old(pos) + if sec.fmt.Unknown? then 0 else InitialLength(sec.fmt)
    {
      match sec.fmt {
        case Dwarf32 => pos := pos + 4;
        case Dwarf64 => pos := pos + 12;
        case Unknown => return Err(LogicError);
      }
      return Ok(());
    }

    method SkipLeb128()
      modifies this`pos
      ensures pos == ScanHigh(sec.data, old(pos)) + 1
    {
      while pos < |sec.data| && sec.data[pos] >= 128
        invariant ScanHigh(sec.data, pos) == ScanHigh(sec.data, old(pos))
        decreases |sec.data| - pos
      {
        pos := pos + 1;
      }
      pos := pos + 1;
    }

    method SkipString()
      modifies this`pos
      ensures pos == ScanNul(sec.data, old(pos)) + 1
    {
      while pos < |sec.data| && sec.data[pos] != 0
        invariant ScanNul(sec.data, pos) == ScanNul(sec.data, old(pos))
        decreases |sec.data| - pos
      {
        pos := pos + 1;
      }
      pos := pos + 1;
    }

    method SkipForm(form: Form) returns (r: Result<()>)
      modifies this`pos
      ensures match SkipEnd(sec, form, old(pos))
              case Ok(end) => r == Ok(()) && pos == end
              case Err(e) => r == Err(e)
      decreases |sec.data| - pos
    {
      hide FixedAt, UnsignedAt, FormOf;
      var tmp: Result<word>;
      match form {
        case Addr =>
          pos := pos + sec.addrSize;
          return Ok(());
        case SecOffset | RefAddr | Strp =>
          if sec.fmt.Unknown? { return Err(LogicError); }
          pos := pos + if sec.fmt.Dwarf32? then 4 else 8;
          return Ok(());
        case Block1 =>
          tmp := Fixed(1);
          if tmp.Err? { return Err(tmp.error); }
          pos := pos + tmp.value;
          return Ok(());
        case Block2 =>
          tmp := Fixed(2);
          if tmp.Err? { return Err(tmp.error); }
          pos := pos + tmp.value;
          return Ok(());
        case Block4 =>
          tmp := Fixed(4);
          if tmp.Err? { return Err(tmp.error); }
          pos := pos + tmp.value;
          return Ok(());
        case Block | Exprloc =>
          tmp := Uleb128();
          if tmp.Err? { return Err(tmp.error); }
          pos := pos + tmp.value;
          return Ok(());
        case FlagPresent => return Ok(());
        case Flag | Data1 | Ref1 => pos := pos + 1; return Ok(());
        case Data2 | Ref2 => pos := pos + 2; return Ok(());
        case Data4 | Ref4 => pos := pos + 4; return Ok(());
        case Data8 | RefSig8 => pos := pos + 8; return Ok(());
        case Sdata | Udata | RefUdata => SkipLeb128(); return Ok(());
        case Str => SkipString(); return Ok(());
        case Indirect =>
          tmp := Uleb128();
          if tmp.Err? { return Err(tmp.error); }
          r := SkipForm(FormOf(tmp.value));
          return;
        case Ref8 | UnknownForm => return Err(FormatError);
      }
    }
  }

  // ---------- the loops' bit arithmetic ----------

  lemma {:induction false} OrNextByte(bs: seq<byte>, i: nat, val: word)
    requires i < |bs| <= 8 && val == LittleEndian(bs[..i])
    ensures Bits(BitOr, val, Shl(bs[i], i * 8)) == LittleEndian(bs[..i + 1])
  {
    hide Pow2, Bitwise;
    var b := bs[i];
    assert bs[..i + 1] == bs[..i] + [b];
    LittleEndianSnoc(bs[..i], b);
    FixedBound(true, bs[..i]);
    Fixed8Bound(true, bs[..i + 1]);
    OrAbove(val, b, 8 * i);
  }

  lemma OrAbove(a: nat, x: word, k: nat)
    requires a < Pow2(k) && a + x * Pow2(k) < TWO64
    ensures Shl(x, k) == x * Pow2(k) && Bitwise(BitOr, a, Shl(x, k)) == a + x * Pow2(k)
  {
    hide Pow2, Bitwise;
    var s := x * Pow2(k);
    assert s % TWO64 == s;
    OrDisjoint(a, x, k);
  }

  lemma {:induction false} OrShifted(bs: seq<byte>, i: nat, val: word)
    requires i < |bs| <= 8 && val == BigEndian(bs[..i])
    ensures Bits(BitOr, Shl(val, 8), bs[i]) == BigEndian(bs[..i + 1])
  {
    hide Pow2, Bitwise;
    var b := bs[i];
    assert bs[..i + 1][..i] == bs[..i];
    Fixed8Bound(false, bs[..i + 1]);
    Pow2Is8();
    ModUnique(val * 256, TWO64, 0, val * 256);
    OrDisjoint(b, val, 8);
    OrCommutes(b, val * 256);
  }

  /** The state of a LEB128 loop that began at `start`: only continuation bytes so far, all folded in. */
  ghost predicate Folded(data: seq<byte>, start: nat, pos: nat, result: word, shift: nat) {
    && start <= pos
    && (pos > |data| ==> pos == start)
    && shift == 7 * (pos - start)
    && (forall i :: start <= i < pos && i < |data| ==> data[i] >= 128)
    && (pos <= |data| ==> result == Wrap(Leb128.Unsigned(data[start..pos])))
  }

  lemma FoldNothing(data: seq<byte>, start: nat)
    ensures Folded(data, start, start, 0, 0)
  {
    if start <= |data| { assert data[start..start] == []; }
  }

  lemma FoldByte(sec: Section, start: nat, pos: nat, result: word, shift: nat)
    requires Folded(sec.data, start, pos, result, shift) && pos < |sec.data|
    ensures var b := sec.data[pos];
      var next := Bits(BitOr, result, Shl(b % 128, shift));
      if b >= 128 then Folded(sec.data, start, pos + 1, next, shift + 7)
      else UnsignedAt(sec, start) == Ok((next, pos + 1)) && shift + 7 == 7 * (pos + 1 - start)
  {
    hide Bits, Shl, Wrap, Leb128.Unsigned, Leb128.Stop;
    var data := sec.data;
    OrNextGroup(data[start..pos], data[pos], result);
    assert data[start..pos] + [data[pos]] == data[start..pos + 1];
    if data[pos] < 128 { Leb128.StopUnique(data, start, pos + 1); }
  }

  lemma FoldedOut(sec: Section, start: nat, pos: nat, result: word, shift: nat)
    requires Folded(sec.data, start, pos, result, shift) && pos >= |sec.data|
    ensures UnsignedAt(sec, start) == Err(Underflow) && SignedAt(sec, start) == Err(Underflow)
  {
    Leb128.StopNone(sec.data, start);
  }

  lemma SignDone(sec: Section, start: nat, end: nat, result: word)
    requires UnsignedAt(sec, start) == Ok((result, end))
    ensures var shift := 7 * (end - start);
      var negative := shift < 64 && sec.data[end - 1] % 128 >= 64;
      SignedAt(sec, start) ==
        Ok((ToSigned(if negative then Bits(BitOr, result, Negate(Shl(1, shift))) else result), end))
  {
    hide Bits, Shl, Wrap, Negate, ToSigned, Leb128.Unsigned, Leb128.Signed;
    OrSignBits(sec.data[start..end], result);
  }

  /** Folding one more seven-bit group in, at any length: groups past bit 63 contribute nothing. */
  lemma {:induction false} OrNextGroup(bs: seq<byte>, b: byte, result: word)
    requires result == Wrap(Leb128.Unsigned(bs))
    ensures Bits(BitOr, result, Shl(b % 128, 7 * |bs|)) == Wrap(Leb128.Unsigned(bs + [b]))
  {
    Leb128.UnsignedSnoc(bs, b);
    Leb128.UnsignedBound(bs);
    OrGroup(Leb128.Unsigned(bs), result, b % 128, 7 * |bs|);
  }

  lemma OrGroup(u: nat, result: word, x: word, k: nat)
    requires u < Pow2(k) && result == Wrap(u)
    ensures Bits(BitOr, result, Shl(x, k)) == Wrap(u + x * Pow2(k))
  {
    hide Pow2, Bitwise;
    ModAddMod(u, x * Pow2(k), TWO64);
    hide Shl;
    var s := Shl(x, k);
    var m := ShlMultiple(x, k);
    if k >= 64 {
      OrZero(result);
    } else {
      OrBelow(u, result, s, m, k);
    }
  }

  /** Below bit 64 nothing is lost: the OR is the sum and still a word. */
  lemma OrBelow(u: nat, result: word, s: word, m: nat, k: nat)
    requires k < 64 && u < Pow2(k) && result == Wrap(u) && s == m * Pow2(k)
    ensures u == result && Bitwise(BitOr, result, s) == u + s == Wrap(u + s)
  {
    hide Pow2, Bitwise;
    Pow2Is64();
    Pow2Below(k, 64);
    OrDisjoint(u, m, k);
    SumOfDisjoint(u, m, k, 64);
  }

  /** OR-ing in the sign bits below bit 64 is the sign extension. */
  lemma {:induction false} OrSignBits(bs: seq<byte>, result: word)
    requires bs != [] && result == Wrap(Leb128.Unsigned(bs))
    ensures var negative := bs[|bs| - 1] % 128 >= 64;
      Wrap(Leb128.Signed(bs)) ==
      if 7 * |bs| < 64 && negative then Bits(BitOr, result, Negate(Shl(1, 7 * |bs|))) else result
  {
    hide Pow2, Bitwise, Leb128.Unsigned, Leb128.Signed;
    var k := 7 * |bs|;
    var u := Leb128.Unsigned(bs);
    Leb128.SignedIsExtension(bs);
    if bs[|bs| - 1] % 128 >= 64 {
      if k < 64 {
        Leb128.UnsignedBound(bs);
        OrSignBelow(u, result, k);
      } else {
        Pow2Is64();
        Pow2Add(k - 64, 64);
        var j: int := Pow2(k - 64);
        ModAddMultiple(u, -j, TWO64);
      }
    }
  }

  lemma OrSignBelow(u: nat, result: word, k: nat)
    requires k < 64 && u < Pow2(k) && result == Wrap(u)
    ensures Wrap(u - Pow2(k)) == Bits(BitOr, result, Negate(Shl(1, k)))
  {
    hide Pow2, Bitwise;
    Pow2Is64();
    Pow2Below(k, 64);
    Pow2Add(64 - k, k);
    MulPred(Pow2(64 - k), Pow2(k));
    assert Negate(Shl(1, k)) == TWO64 - Pow2(k);
    OrBelow(u, result, TWO64 - Pow2(k), Pow2(64 - k) - 1, k);
    ModAddMultiple(u - Pow2(k), 1, TWO64);
  }
}
