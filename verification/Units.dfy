/** Cutting .debug_info into compilation units, and finding the unit that a section offset lies in. */
module Units {
  import opened Words
  import opened Sections

  /** `sub` starts with the unit's own length field; `size` is what that field claims. */
  datatype UnitHeader = UnitHeader(offset: nat, size: nat, sub: Section, abbrevOffset: word, rootOffset: nat)

  // ---------- reading ----------

  /** The constructor of a compilation unit. */
  function ReadUnit(sec: Section, pos: nat): (r: Result<UnitHeader>)
    ensures r.Ok? ==>
      && r.value.offset == pos < |sec.data| && 0 < r.value.rootOffset <= |r.value.sub.data| <= r.value.size
      && pos + |r.value.sub.data| <= |sec.data|
      && r.value.sub.data == sec.data[pos..pos + |r.value.sub.data|]
      && (pos + |r.value.sub.data| < |sec.data| ==> |r.value.sub.data| == r.value.size)
  {
    var s :- SubsectionAt(sec, pos);
    var version :- FixedAt(s.0, InitialLength(s.0.fmt), 2);
    if version.0 < 2 || version.0 > 4 then Err(FormatError)
    else
      var abbrev :- OffsetAt(s.0, version.1);
      var size :- FixedAt(s.0, abbrev.1, 1);
      Ok(UnitHeader(pos, s.1 - pos, s.0.(addrSize := size.0), abbrev.0, size.1))
  }

  function UnitsFrom(sec: Section, pos: nat): Result<seq<UnitHeader>>
    decreases |sec.data| - pos
  {
    if pos >= |sec.data| then Ok([])
    else
      var u :- ReadUnit(sec, pos);
      var rest :- UnitsFrom(sec, pos + u.size);
      Ok([u] + rest)
  }

  /** Whether the first unit's version reads smaller in big-endian order; the section starts out little-endian. */
  function LooksMsb(data: seq<byte>): Result<bool> {
    var sec := Section(data, Unknown, true, 0);
    var length :- FixedAt(sec, 0, 4);
    var after :- if length.0 == 0xffff_ffff then FixedAt(sec, 4, 8) else Ok(length);
    var version :- FixedAt(sec, after.1, 2);
    Ok(Swap(version.0 % 0x1_0000) < version.0)
  }

  function Swap(v: nat): nat
    requires v < 0x1_0000
  {
    v / 256 + v % 256 * 256
  }

  function Load(info: Option<seq<byte>>, abbrev: Option<seq<byte>>): Result<(Section, seq<UnitHeader>)> {
    if info.None? then Err(FormatError)
    else
      var msb :- LooksMsb(info.value);
      if abbrev.None? then Err(FormatError)
      else
        var sec := Section(info.value, Unknown, !msb, 0);
        var us :- UnitsFrom(sec, 0);
        Ok((sec, us))
  }

  // ---------- units tile the section ----------

  ghost predicate Tiles(us: seq<UnitHeader>, lo: nat, hi: nat) {
    && (us == [] ==> lo >= hi)
    && (us != [] ==> us[0].offset == lo && us[|us| - 1].offset + us[|us| - 1].size >= hi)
    && (forall i :: 0 <= i < |us| ==> us[i].size > 0 && us[i].offset < hi)
    && (forall i :: 0 <= i < |us| - 1 ==> us[i + 1].offset == us[i].offset + us[i].size)
  }

  predicate Covers(u: UnitHeader, off: nat) { u.offset <= off < u.offset + u.size }

  /** Whatever the bytes, the units that are read lie end to end and leave nothing of the section out. */
  lemma {:induction false} UnitsTile(sec: Section, pos: nat)
    requires UnitsFrom(sec, pos).Ok?
    ensures Tiles(UnitsFrom(sec, pos).value, pos, |sec.data|)
    ensures forall u :: u in UnitsFrom(sec, pos).value ==> ReadUnit(sec, u.offset) == Ok(u)
    decreases |sec.data| - pos
  {
    hide ReadUnit, UnitsFrom, Tiles;
    UnitsUnfold(sec, pos);
    if pos >= |sec.data| {
      NoUnits(pos, |sec.data|);
    } else {
      var u := ReadUnit(sec, pos).value;
      UnitsTile(sec, pos + u.size);
      FirstTile(u, UnitsFrom(sec, pos + u.size).value, |sec.data|);
    }
  }

  lemma NoUnits(lo: nat, hi: nat)
    requires lo >= hi
    ensures Tiles([], lo, hi)
  {}

  lemma FirstTile(u: UnitHeader, rest: seq<UnitHeader>, hi: nat)
    requires u.size > 0 && u.offset < hi && Tiles(rest, u.offset + u.size, hi)
    ensures Tiles([u] + rest, u.offset, hi)
  {
    var us := [u] + rest;
    assert rest != [] ==> us[|us| - 1] == rest[|rest| - 1];
  }

  lemma {:induction false} OffsetsRise(us: seq<UnitHeader>, lo: nat, hi: nat, i: nat, j: nat)
    requires Tiles(us, lo, hi) && i < j < |us|
    ensures us[i].offset + us[i].size <= us[j].offset
    decreases j
  {
    if i < j - 1 { OffsetsRise(us, lo, hi, i, j - 1); }
  }

  /** The scan over the units in order, up to the first that starts after the offset. */
  function BaseFrom(us: seq<UnitHeader>, off: nat, i: nat): (r: Option<nat>)
    requires i <= |us|
    ensures r.Some? ==> r.value < |us|
    decreases |us| - i
  {
    if i == |us| || us[i].offset > off then (if i == 0 then None else Some(i - 1)) else BaseFrom(us, off, i + 1)
  }

  lemma {:induction false} BaseCovers(us: seq<UnitHeader>, lo: nat, hi: nat, off: nat, i: nat)
    requires Tiles(us, lo, hi) && lo <= off < hi && i <= |us| && (i > 0 ==> us[i - 1].offset <= off)
    ensures BaseFrom(us, off, i).Some? && Covers(us[BaseFrom(us, off, i).value], off)
    decreases |us| - i
  {
    if i < |us| && us[i].offset <= off { BaseCovers(us, lo, hi, off, i + 1); }
  }

  /** A section offset inside .debug_info picks the one unit that contains it, and lies in that unit's
      data at the offset less the unit's start. */
  lemma OffsetPicksItsUnit(sec: Section, off: nat)
    requires UnitsFrom(sec, 0).Ok? && off < |sec.data|
    ensures var us := UnitsFrom(sec, 0).value;
      && BaseFrom(us, off, 0).Some?
      && var b := BaseFrom(us, off, 0).value;
        && (forall i :: 0 <= i < |us| ==> (Covers(us[i], off) <==> i == b))
        && off - us[b].offset < |us[b].sub.data| && us[b].sub.data[off - us[b].offset] == sec.data[off]
  {
    hide UnitsFrom, BaseFrom, Tiles, SubsectionAt, FixedAt, OffsetAt;
    var us := UnitsFrom(sec, 0).value;
    UnitsTile(sec, 0);
    BaseCovers(us, 0, |sec.data|, off, 0);
    var b := BaseFrom(us, off, 0).value;
    forall i | 0 <= i < |us| && i != b ensures !Covers(us[i], off) {
      OffsetsRise(us, 0, |sec.data|, if i < b then i else b, if i < b then b else i);
    }
    assert us[b] in us;
  }

  // ---------- laying units out and reading them back ----------

  datatype Image = Image(fmt: Format, version: nat, abbrevOffset: word, addrSize: byte, body: seq<byte>)

  function AfterVersion(lsb: bool, m: Image): seq<byte> {
    FixedBytes(lsb, m.abbrevOffset, OffsetSize(m.fmt)) + (FixedBytes(lsb, m.addrSize, 1) + m.body)
  }

  function AfterLength(lsb: bool, m: Image): seq<byte> { FixedBytes(lsb, m.version, 2) + AfterVersion(lsb, m) }

  function LengthBytes(lsb: bool, m: Image): seq<byte> {
    var n := |AfterLength(lsb, m)|;
    if m.fmt.Dwarf64? then FixedBytes(lsb, 0xffff_ffff, 4) + FixedBytes(lsb, n, 8) else FixedBytes(lsb, n, 4)
  }

  function ImageBytes(lsb: bool, m: Image): seq<byte> { LengthBytes(lsb, m) + AfterLength(lsb, m) }

  function Layout(lsb: bool, ms: seq<Image>): seq<byte> {
    if ms == [] then [] else ImageBytes(lsb, ms[0]) + Layout(lsb, ms[1..])
  }

  /** A known format and a length below the reserved values. */
  predicate LengthFits(lsb: bool, m: Image) {
    && !m.fmt.Unknown?
    && if m.fmt.Dwarf64? then |AfterLength(lsb, m)| + 12 < TWO64 else |AfterLength(lsb, m)| < 0xffff_fff0
  }

  /** Besides, a version the reader knows and an offset that fits the format. */
  predicate Proper(lsb: bool, m: Image) {
    LengthFits(lsb, m) && 2 <= m.version <= 4 && m.abbrevOffset < Pow2(8 * OffsetSize(m.fmt))
  }

  function HeaderOf(lsb: bool, m: Image, pos: nat): UnitHeader {
    UnitHeader(pos, |ImageBytes(lsb, m)|, Section(ImageBytes(lsb, m), m.fmt, lsb, m.addrSize), m.abbrevOffset,
               InitialLength(m.fmt) + 2 + OffsetSize(m.fmt) + 1)
  }

  function HeadersOf(lsb: bool, ms: seq<Image>, pos: nat): seq<UnitHeader>
    decreases |ms|
  {
    if ms == [] then [] else [HeaderOf(lsb, ms[0], pos)] + HeadersOf(lsb, ms[1..], pos + |ImageBytes(lsb, ms[0])|)
  }

  lemma FixedLength(lsb: bool, v: nat, n: nat)
    ensures |FixedBytes(lsb, v, n)| == n
  {}

  lemma SmallFits(v: nat)
    ensures v < 256 ==> v < Pow2(8 * 1)
    ensures v < 0x1_0000 ==> v < Pow2(8 * 2)
    ensures v < TWO32 ==> v < Pow2(8 * 4)
    ensures v < TWO64 ==> v < Pow2(8 * 8)
  {
    hide Pow2;
    Pow2Is8();
    Pow2Is32();
    Pow2Is64();
  }

  lemma LengthIsRead(sec: Section, m: Image, pos: nat)
    requires LengthFits(sec.lsb, m) && At(sec.data, pos, ImageBytes(sec.lsb, m))
    ensures UnitSizeAt(sec, pos) == Ok((|ImageBytes(sec.lsb, m)|, m.fmt))
    ensures |LengthBytes(sec.lsb, m)| == InitialLength(m.fmt)
  {
    hide At, FixedAt, FixedBytes, Pow2, AfterLength;
    var n := |AfterLength(sec.lsb, m)|;
    SmallFits(n);
    SmallFits(0xffff_ffff);
    AtSplit(sec.data, pos, LengthBytes(sec.lsb, m), AfterLength(sec.lsb, m));
    if m.fmt.Dwarf64? {
      FixedLength(sec.lsb, 0xffff_ffff, 4);
      FixedLength(sec.lsb, n, 8);
      AtSplit(sec.data, pos, FixedBytes(sec.lsb, 0xffff_ffff, 4), FixedBytes(sec.lsb, n, 8));
      FixedRoundTrip(sec, pos, 0xffff_ffff, 4);
      FixedRoundTrip(sec, pos + 4, n, 8);
      ModUnique(n + 12, TWO64, 0, n + 12);
    } else {
      FixedLength(sec.lsb, n, 4);
      FixedRoundTrip(sec, pos, n, 4);
    }
  }

  lemma VersionIsRead(sub: Section, m: Image)
    requires LengthFits(sub.lsb, m) && m.version < 0x1_0000 && At(sub.data, 0, ImageBytes(sub.lsb, m))
    ensures var p := InitialLength(m.fmt);
      FixedAt(sub, p, 2) == Ok((m.version, p + 2)) && At(sub.data, p + 2, AfterVersion(sub.lsb, m))
  {
    hide At, FixedAt, FixedBytes, Pow2, LengthBytes, AfterVersion;
    var lsb, p := sub.lsb, InitialLength(m.fmt);
    LengthIsRead(sub, m, 0);
    AtSplit(sub.data, 0, LengthBytes(lsb, m), AfterLength(lsb, m));
    AtSplit(sub.data, p, FixedBytes(lsb, m.version, 2), AfterVersion(lsb, m));
    FixedLength(lsb, m.version, 2);
    SmallFits(m.version);
    FixedRoundTrip(sub, p, m.version, 2);
  }

  lemma HeaderIsRead(sub: Section, m: Image)
    requires Proper(sub.lsb, m) && sub.fmt == m.fmt && At(sub.data, 0, ImageBytes(sub.lsb, m))
    ensures var p := InitialLength(m.fmt);
      && FixedAt(sub, p, 2) == Ok((m.version, p + 2))
      && OffsetAt(sub, p + 2) == Ok((m.abbrevOffset, p + 2 + OffsetSize(m.fmt)))
      && FixedAt(sub, p + 2 + OffsetSize(m.fmt), 1) == Ok((m.addrSize, p + 2 + OffsetSize(m.fmt) + 1))
  {
    hide At, FixedAt, FixedBytes, Pow2, LengthBytes;
    var lsb, p := sub.lsb, InitialLength(m.fmt);
    VersionIsRead(sub, m);
    AtSplit(sub.data, p + 2, FixedBytes(lsb, m.abbrevOffset, OffsetSize(m.fmt)),
            FixedBytes(lsb, m.addrSize, 1) + m.body);
    FixedLength(lsb, m.abbrevOffset, OffsetSize(m.fmt));
    FixedRoundTrip(sub, p + 2, m.abbrevOffset, OffsetSize(m.fmt));
    AtSplit(sub.data, p + 2 + OffsetSize(m.fmt), FixedBytes(lsb, m.addrSize, 1), m.body);
    SmallFits(m.addrSize);
    FixedRoundTrip(sub, p + 2 + OffsetSize(m.fmt), m.addrSize, 1);
  }

  lemma UnitIsRead(sec: Section, m: Image, pos: nat)
    requires Proper(sec.lsb, m) && At(sec.data, pos, ImageBytes(sec.lsb, m))
    ensures ReadUnit(sec, pos) == Ok(HeaderOf(sec.lsb, m, pos)) && |ImageBytes(sec.lsb, m)| > 0
  {
    hide FixedAt, FixedBytes, Pow2, ImageBytes, UnitSizeAt, OffsetAt, Proper;
    VersionKnown(sec.lsb, m);
    LengthIsRead(sec, m, pos);
    var bytes := ImageBytes(sec.lsb, m);
    assert sec.data[pos..pos + |bytes|] == bytes;
    assert bytes[0..|bytes|] == bytes;
    HeaderIsRead(Section(bytes, m.fmt, sec.lsb, 0), m);
  }

  lemma VersionKnown(lsb: bool, m: Image)
    requires Proper(lsb, m)
    ensures 2 <= m.version <= 4 && LengthFits(lsb, m)
  {}

  /** Units laid out one after the other, in either format, are read back as they are. */
  lemma {:induction false} LayoutIsRead(sec: Section, ms: seq<Image>, pos: nat)
    requires forall m :: m in ms ==> Proper(sec.lsb, m)
    requires At(sec.data, pos, Layout(sec.lsb, ms)) && pos + |Layout(sec.lsb, ms)| == |sec.data|
    ensures UnitsFrom(sec, pos) == Ok(HeadersOf(sec.lsb, ms, pos))
    decreases |ms|
  {
    hide At, ReadUnit, Proper, ImageBytes;
    if ms != [] {
      AtSplit(sec.data, pos, ImageBytes(sec.lsb, ms[0]), Layout(sec.lsb, ms[1..]));
      UnitIsRead(sec, ms[0], pos);
      LayoutIsRead(sec, ms[1..], pos + |ImageBytes(sec.lsb, ms[0])|);
    }
  }

  // ---------- byte order ----------

  lemma LittleStep(bs: seq<byte>)
    requires bs != []
    ensures LittleEndian(bs) == bs[0] as int + 256 * LittleEndian(bs[1..]) && LittleEndian([]) == 0
  {}

  lemma BigStep(bs: seq<byte>)
    requires bs != []
    ensures BigEndian(bs) == 256 * BigEndian(bs[..|bs| - 1]) + bs[|bs| - 1] as int && BigEndian([]) == 0
  {}

  lemma LittleOfFour(bs: seq<byte>)
    requires |bs| == 4
    ensures LittleEndian(bs) == bs[0] as int + 256 * (bs[1] as int + 256 * (bs[2] as int + 256 * (bs[3] as int)))
  {
    hide LittleEndian, BigEndian;
    var one, two, three := bs[3..], bs[2..], bs[1..];
    assert one[1..] == [] && two[1..] == one && three[1..] == two;
    LittleStep(one);
    LittleStep(two);
    LittleStep(three);
    LittleStep(bs);
  }

  lemma BigOfFour(bs: seq<byte>)
    requires |bs| == 4
    ensures BigEndian(bs) == 256 * (256 * (256 * (bs[0] as int) + bs[1] as int) + bs[2] as int) + bs[3] as int
  {
    hide LittleEndian, BigEndian;
    var one, two, three := bs[..1], bs[..2], bs[..3];
    assert one[..0] == [] && two[..1] == one && three[..2] == two && bs[..3] == three;
    BigStep(one);
    BigStep(two);
    BigStep(three);
    BigStep(bs);
  }

  lemma OnesEitherWay(lsb: bool, bs: seq<byte>)
    requires |bs| == 4
    ensures Fixed(lsb, bs) == 0xffff_ffff <==> bs == [255, 255, 255, 255]
  {
    hide LittleEndian, BigEndian;
    if lsb { LittleOfFour(bs); } else { BigOfFour(bs); }
  }

  lemma TwoBytes(v: nat)
    requires v < 0x1_0000
    ensures FixedBytes(true, v, 2) == [v % 256, v / 256]
    ensures FixedBytes(false, v, 2) == [v / 256, v % 256]
  {
    OneByte(v / 256);
  }

  lemma OneByte(b: byte)
    ensures FixedBytes(true, b, 1) == [b] == FixedBytes(false, b, 1)
  {
    assert FixedBytes(true, b / 256, 0) == [] == FixedBytes(false, b / 256, 0);
  }

  lemma TwoLittle(a: byte, b: byte)
    ensures LittleEndian([a, b]) == a + 256 * b && LittleEndian([a, b]) < 0x1_0000
  {
    assert [b][1..] == [];
    assert LittleEndian([b]) == b;
    assert [a, b][1..] == [b];
  }

  /** The section looks big-endian exactly when the first byte of the version is below the second. */
  lemma VersionBytesDecide(data: seq<byte>)
    requires |data| >= 6 && (data[..4] == [255, 255, 255, 255] ==> |data| >= 14)
    ensures var k := if data[..4] == [255, 255, 255, 255] then 12 else 4;
      LooksMsb(data) == Ok(data[k] < data[k + 1])
  {
    hide Pow2, Fixed, LittleEndian;
    var k := if data[..4] == [255, 255, 255, 255] then 12 else 4;
    OnesEitherWay(true, data[0..4]);
    assert data[..4] == data[0..4];
    TwoLittle(data[k], data[k + 1]);
    assert data[k..k + 2] == [data[k], data[k + 1]];
    FixedLittle(data[0..4]);
    FixedLittle(data[k..k + 2]);
  }

  lemma FixedLittle(bs: seq<byte>)
    ensures Fixed(true, bs) == LittleEndian(bs)
  {}

  /** For a unit written in either byte order, the order is recognised exactly when the low byte of the
      version is not below the high byte, nor, for big-endian data, equal to it. */
  lemma OrderIsRightExactlyWhen(lsb: bool, m: Image, rest: seq<byte>)
    requires !m.fmt.Unknown? && m.version < 0x1_0000
    requires m.fmt.Dwarf32? ==> |AfterLength(lsb, m)| < 0xffff_fff0
    requires m.fmt.Dwarf64? ==> |AfterLength(lsb, m)| < TWO64
    ensures var low, high := m.version % 256, m.version / 256;
      LooksMsb(ImageBytes(lsb, m) + rest) == Ok(!lsb) <==> if lsb then high <= low else high < low
  {
    hide Pow2, Fixed, FixedBytes, LooksMsb, AfterVersion;
    var data := ImageBytes(lsb, m) + rest;
    var n := |AfterLength(lsb, m)|;
    FourLength(lsb, if m.fmt.Dwarf64? then 0xffff_ffff else n);
    FixedLength(lsb, n, 8);
    TwoBytes(m.version);
    var first := FixedBytes(lsb, if m.fmt.Dwarf64? then 0xffff_ffff else n, 4);
    OnesEitherWay(lsb, first);
    assert data[..4] == first;
    var k := InitialLength(m.fmt);
    assert data[k..k + 2] == FixedBytes(lsb, m.version, 2);
    assert data[k] == data[k..k + 2][0] && data[k + 1] == data[k..k + 2][1];
    VersionBytesDecide(data);
  }

  lemma FourLength(lsb: bool, n: nat)
    requires n < TWO32
    ensures |FixedBytes(lsb, n, 4)| == 4 && Fixed(lsb, FixedBytes(lsb, n, 4)) == n
  {
    SmallFits(n);
  }

  /** So it is recognised for every version the reader accepts. */
  lemma KnownVersionsShowTheirOrder(lsb: bool, m: Image, rest: seq<byte>)
    requires Proper(lsb, m)
    ensures LooksMsb(ImageBytes(lsb, m) + rest) == Ok(!lsb)
  {
    hide LooksMsb, ImageBytes, AfterLength, Pow2;
    OrderIsRightExactlyWhen(lsb, m, rest);
  }

  /** Loading a file whose .debug_info is a list of units finds its byte order and exactly its units. */
  lemma LoadReadsLayout(lsb: bool, ms: seq<Image>, abbrev: seq<byte>)
    requires ms != [] && forall m :: m in ms ==> Proper(lsb, m)
    ensures Load(Some(Layout(lsb, ms)), Some(abbrev)) ==
      Ok((Section(Layout(lsb, ms), Unknown, lsb, 0), HeadersOf(lsb, ms, 0)))
  {
    hide LooksMsb, ImageBytes, Proper, UnitsFrom;
    var data := Layout(lsb, ms);
    KnownVersionsShowTheirOrder(lsb, ms[0], Layout(lsb, ms[1..]));
    assert data[0..|data|] == data;
    LayoutIsRead(Section(data, Unknown, lsb, 0), ms, 0);
  }

  // ---------- the procedures ----------

  method ReadHeader(sec: Section, offset: nat) returns (r: Result<UnitHeader>)
    ensures r == ReadUnit(sec, offset)
  {
    hide FixedAt, OffsetAt, UnitSizeAt;
    var cur := new Cursor(sec, offset);
    var s := cur.Subsection();
    if s.Err? { return Err(s.error); }
    var sub := new Cursor(s.value, 0);
    var _ := sub.SkipInitialLength();
    var version := sub.Fixed(2);
    if version.Err? { return Err(version.error); }
    if version.value < 2 || version.value > 4 { return Err(FormatError); }
    var abbrev := sub.Offset();
    if abbrev.Err? { return Err(abbrev.error); }
    var size := sub.Fixed(1);
    if size.Err? { return Err(size.error); }
    return Ok(UnitHeader(offset, cur.pos - offset, s.value.(addrSize := size.value), abbrev.value, sub.pos));
  }

  class Dwarf {
    var info: Section
    var units: seq<UnitHeader>

    constructor ()
      ensures units == []
    {
      info := Section([], Unknown, true, 0);
      units := [];
    }

    method LoadFrom(data: Option<seq<byte>>, abbrev: Option<seq<byte>>) returns (r: Result<()>)
      requires units == []
      modifies this
      ensures match Load(data, abbrev)
              case Err(e) => r == Err(e)
              case Ok(p) => r == Ok(()) && info == p.0 && units == p.1
    {
      hide FixedAt, UnitsFrom, ReadUnit, Swap;
      if data.None? { return Err(FormatError); }
      info := Section(data.value, Unknown, true, 0);
      var end := new Cursor(info, 0);
      var length := end.Fixed(4);
      if length.Err? { return Err(length.error); }
      if length.value == 0xffff_ffff {
        var skipped := end.Fixed(8);
        if skipped.Err? { return Err(skipped.error); }
      }
      var version := end.Fixed(2);
      if version.Err? { return Err(version.error); }
      if Swap(version.value % 0x1_0000) < version.value {
        info := Section(data.value, Unknown, false, 0);
      }
      if abbrev.None? { return Err(FormatError); }
      r := ReadUnits();
    }

    /** The loop over the section. */
    method ReadUnits() returns (r: Result<()>)
      requires units == []
      modifies this`units
      ensures match UnitsFrom(info, 0)
              case Err(e) => r == Err(e)
              case Ok(us) => r == Ok(()) && units == us
    {
      hide SubsectionAt, FixedAt, OffsetAt, UnitsFrom;
      var cur := new Cursor(info, 0);
      Prepended([], UnitsFrom(info, 0));
      while !cur.End()
        invariant fresh(cur) && cur.sec == info && UnitsFrom(info, 0) == Prepend(units, UnitsFrom(info, cur.pos))
        decreases |info.data| - cur.pos
      {
        UnitsUnfold(info, cur.pos);
        var u := ReadHeader(info, cur.pos);
        if u.Err? { return Err(u.error); }
        PrependOne(units, u.value, UnitsFrom(info, cur.pos + u.value.size));
        units := units + [u.value];
        SizeIsSubsection(info, cur.pos);
        var _ := cur.Subsection();
      }
      UnitsUnfold(info, cur.pos);
      Prepended(units, Ok([]));
      return Ok(());
    }

    /** The scan for the unit of a section-wide reference, and the offset within it. */
    method Locate(off: nat) returns (r: Result<(nat, nat)>)
      ensures r == match BaseFrom(units, off, 0)
                   case None => Err(Undefined)
                   case Some(b) => if units[b].offset <= off then Ok((b, off - units[b].offset)) else Err(Undefined)
    {
      var base: Option<nat> := None;
      var i := 0;
      while i < |units| && units[i].offset <= off
        invariant 0 <= i <= |units| && base == (if i == 0 then None else Some(i - 1))
        invariant base.Some? ==> units[base.value].offset <= off
        invariant BaseFrom(units, off, i) == BaseFrom(units, off, 0)
      {
        base := Some(i);
        i := i + 1;
      }
      if base.None? { return Err(Undefined); }
      return Ok((base.value, off - units[base.value].offset));
    }
  }

  function Prepend(done: seq<UnitHeader>, rest: Result<seq<UnitHeader>>): Result<seq<UnitHeader>> {
    match rest case Ok(us) => Ok(done + us) case Err(e) => Err(e)
  }

  lemma Prepended(done: seq<UnitHeader>, rest: Result<seq<UnitHeader>>)
    ensures done == [] ==> Prepend(done, rest) == rest
    ensures rest == Ok([]) ==> Prepend(done, rest) == Ok(done)
  {
    if rest.Ok? { assert [] + rest.value == rest.value; }
    assert done + [] == done;
  }

  lemma PrependOne(done: seq<UnitHeader>, u: UnitHeader, rest: Result<seq<UnitHeader>>)
    ensures Prepend(done, Prepend([u], rest)) == Prepend(done + [u], rest)
  {
    if rest.Ok? { assert done + ([u] + rest.value) == done + [u] + rest.value; }
  }

  lemma UnitsUnfold(sec: Section, pos: nat)
    ensures UnitsFrom(sec, pos) ==
      if pos >= |sec.data| then Ok([])
      else
        match ReadUnit(sec, pos)
        case Err(e) => Err(e)
        case Ok(u) => Prepend([u], UnitsFrom(sec, pos + u.size))
  {
    hide SubsectionAt, FixedAt, OffsetAt;
  }

  lemma SizeIsSubsection(sec: Section, pos: nat)
    requires ReadUnit(sec, pos).Ok?
    ensures SubsectionAt(sec, pos).Ok? && SubsectionAt(sec, pos).value.1 == pos + ReadUnit(sec, pos).value.size
  {
    hide FixedAt, OffsetAt, UnitSizeAt;
  }
}
