/** Which addresses an entry covers, from the bytes of its attributes (sections 2.17.2, 2.17.3 and 3.1.1 of
    DWARF Version 4). */
module FunctionBounds {
  import opened Words
  import opened Sections
  import opened Abbrevs
  import opened Values
  import opened Dies
  import opened DieTrees
  import opened RangeLists
  import opened FunctionLookup
  import AbbrevTables
  import Leb128

  /** An attribute as encoded: the first with the name. */
  datatype Given = Given(form: Form, value: Encoded)

  function Encoding(t: Tree, name: nat): Option<Given>
    requires |t.attrs| == |t.abbrev.attributes|
  {
    match FirstWith(t.abbrev.attributes, name, 0)
    case None => None
    case Some(i) => Some(Given(t.abbrev.attributes[i].form, t.attrs[i].value))
  }

  /** The abbreviation's types are those its table was read with. */
  predicate Typed(a: Abbrev) {
    forall s :: s in a.attributes ==> AbbrevTables.TypeOf(s.name, s.form) == Some(s.typ)
  }

  // ---------- two bounds ----------

  /** Where the entry ends when it begins at `lo`: an address is the end itself, a constant is a size, and
      without either one address is covered. Nothing else is accepted. */
  function EndFrom(lo: word, high: Option<Given>): Option<word> {
    if high.None? then Some((lo + 1) % TWO64)
    else if !high.value.value.Number? then None
    else if high.value.form.Addr? then Some(high.value.value.n)
    else if high.value.form in {Data1, Data2, Data4, Data8, Udata} then Some((lo + high.value.value.n) % TWO64)
    else None
  }

  /** An entry without range list covers the half-open interval its low_pc and high_pc give. */
  lemma IntervalIsCovered(c: CompUnit, t: Tree, pos: nat, lo: word, pc: word)
    requires HeadFits(c.u, t) && At(c.u.Sec().data, pos, HeadBytes(t)) && Typed(t.abbrev)
    requires Encoding(t, AT_RANGES) == None && Encoding(t, AT_LOW_PC) == Some(Given(Addr, Number(lo)))
    ensures IsRead(c.u, Root(t, pos))
    ensures PcCovered(c, Root(t, pos), pc) ==
      match EndFrom(lo, Encoding(t, AT_HIGH_PC)) case Some(hi) => Ok(lo <= pc < hi) case None => Err(FormatError)
  {
    hide At, HeadBytes, HeadFits, ReadsBack, Typed, EndFrom, HighPc, Contains, Synthetic, ReadDie;
    var d := Root(t, pos);
    ReadDieIsRoot(c.u, t, pos);
    AttributeIsEncoded(c.u, t, pos, AT_RANGES);
    LowIsEncoded(c.u, t, pos, lo);
    HighIsEncoded(c.u, t, pos, lo);
    if EndFrom(lo, Encoding(t, AT_HIGH_PC)).Some? {
      SinglePairContains(c.u.Sec().lsb, (lo, EndFrom(lo, Encoding(t, AT_HIGH_PC)).value), pc);
    }
  }

  lemma LowIsEncoded(u: Unit, t: Tree, pos: nat, lo: word)
    requires HeadFits(u, t) && At(u.Sec().data, pos, HeadBytes(t))
    requires Encoding(t, AT_LOW_PC) == Some(Given(Addr, Number(lo)))
    ensures IsRead(u, Root(t, pos)) && LowPc(u, Root(t, pos)) == Ok(lo) && Has(Root(t, pos), AT_LOW_PC)
  {
    hide At, HeadBytes, HeadFits, AsAddress, ReadDie;
    ReadDieIsRoot(u, t, pos);
    AttributeIsEncoded(u, t, pos, AT_LOW_PC);
  }

  lemma HighIsEncoded(u: Unit, t: Tree, pos: nat, lo: word)
    requires HeadFits(u, t) && At(u.Sec().data, pos, HeadBytes(t)) && Typed(t.abbrev)
    requires Encoding(t, AT_LOW_PC) == Some(Given(Addr, Number(lo)))
    ensures IsRead(u, Root(t, pos))
    ensures (if Has(Root(t, pos), AT_HIGH_PC) then HighPc(u, Root(t, pos)) else Ok(Wrap(lo + 1))) ==
      match EndFrom(lo, Encoding(t, AT_HIGH_PC)) case Some(hi) => Ok(hi) case None => Err(FormatError)
  {
    hide At, HeadBytes, HeadFits, AsAddress, AsUconstant, ReadDie, Attribute, Encodes, ReadsBack;
    ReadDieIsRoot(u, t, pos);
    LowIsEncoded(u, t, pos, lo);
    AttributeIsEncoded(u, t, pos, AT_HIGH_PC);
    match FirstWith(t.abbrev.attributes, AT_HIGH_PC, 0) {
      case None =>
      case Some(i) =>
        var spec := t.abbrev.attributes[i];
        assert spec in t.abbrev.attributes;
        EncodingFits(u, t, i);
        EndIs(u, spec.form, spec.typ, t.attrs[i].bytes, t.attrs[i].value, Root(t, pos).attrs[i], lo);
    }
  }

  lemma EncodingFits(u: Unit, t: Tree, i: nat)
    requires HeadFits(u, t) && i < |t.attrs|
    ensures Encodes(u.Sec(), t.abbrev.attributes[i].form, t.attrs[i].bytes, t.attrs[i].value)
  {}

  /** What `at_high_pc` makes of one value. */
  lemma EndIs(u: Unit, form: Form, typ: ValueType, bs: seq<byte>, v: Encoded, off: nat, lo: word)
    requires AbbrevTables.TypeOf(AT_HIGH_PC, form) == Some(typ) && ReadsBack(u.src, form, v, off)
    requires Encodes(u.Sec(), form, bs, v)
    ensures EndFrom(lo, Some(Given(form, v))) ==
      match typ
      case AddressType => (match AsAddress(u.src, form, off) case Ok(n) => Some(n) case Err(_) => None)
      case ConstantType | UconstantType =>
        (match AsUconstant(u.src, form, off) case Ok(n) => Some(Wrap(lo + n)) case Err(_) => None)
      case _ => None
    ensures typ.AddressType? ==> AsAddress(u.src, form, off).Ok?
    ensures typ.ConstantType? || typ.UconstantType? ==> AsUconstant(u.src, form, off).Ok?
  {
    hide AsAddress, AsUconstant, Leb128.Terminated, Leb128.Unsigned, Leb128.Signed, FixedBytes, Pow2;
  }

  /** Without its first address an entry covers nothing; the address has to be one. */
  lemma NoStartIsRefused(c: CompUnit, t: Tree, pos: nat, pc: word)
    requires HeadFits(c.u, t) && At(c.u.Sec().data, pos, HeadBytes(t)) && Encoding(t, AT_RANGES) == None
    ensures IsRead(c.u, Root(t, pos))
    ensures match Encoding(t, AT_LOW_PC)
            case None => PcCovered(c, Root(t, pos), pc) == Err(OutOfRange)
            case Some(low) => !low.form.Addr? ==> PcCovered(c, Root(t, pos), pc) == Err(TypeMismatch)
  {
    hide At, HeadBytes, HeadFits, ReadsBack, HighPc, Contains, Synthetic, ReadDie;
    ReadDieIsRoot(c.u, t, pos);
    AttributeIsEncoded(c.u, t, pos, AT_RANGES);
    AttributeIsEncoded(c.u, t, pos, AT_LOW_PC);
  }

  /** An entry without children, but for the null one, is found exactly when it is a subprogram or an inlined
      subroutine and the address is in its interval. */
  lemma LeafIsFoundExactlyWhen(c: CompUnit, t: Tree, pos: nat, lo: word, hi: word, pc: word)
    requires TreeFits(c.u, t, pos) && At(c.u.Sec().data, pos, TreeBytes(t)) && Typed(t.abbrev) && t.kids == []
    requires Encoding(t, AT_RANGES) == None && Encoding(t, AT_LOW_PC) == Some(Given(Addr, Number(lo)))
    requires EndFrom(lo, Encoding(t, AT_HIGH_PC)) == Some(hi)
    ensures IsRead(c.u, Root(t, pos))
    ensures FindPc(c, Root(t, pos), pc) ==
      Ok(if (t.abbrev.tag == 0x2e || t.abbrev.tag == 0x1d) && lo <= pc < hi then [Root(t, pos)] else [])
  {
    hide At, HeadFits, FindPc, PcCovered, ReadDie, Typed, EndFrom, Encoding, HeadBytes, FirstMatch, Functions;
    var d := Root(t, pos);
    RootIsThere(c.u, t, pos);
    FindPcIsFirstMatch(c, t, pos, pc);
    assert PostOrder(t, pos, []) == [Chain(d, [])];
    IntervalIsCovered(c, t, pos, lo, pc);
    FirstMatchOne(c, Chain(d, []), pc);
    OwnFunction(d);
  }

  lemma OwnFunction(d: Entry)
    ensures Functions([d] + []) == if IsFunction(d) then [d] else []
  {
    assert [d] + [] == [d] && [d][1..] == [];
  }

  // ---------- range lists ----------

  /** The range-list section from an offset on, with the unit's address size. */
  function ListAt(c: CompUnit, off: nat): Section
    requires c.ranges.Some?
  {
    var ranges := c.ranges.value;
    Section(if off <= |ranges.data| then ranges.data[off..] else [], ranges.fmt, ranges.lsb,
            if c.u.Sec().addrSize == 0 then ranges.addrSize else c.u.Sec().addrSize)
  }

  predicate ListGiven(t: Tree, off: word)
    requires |t.attrs| == |t.abbrev.attributes|
  {
    match Encoding(t, AT_RANGES)
    case None => false
    case Some(list) => list.form in {Data4, Data8, SecOffset} && list.value == Number(off)
  }

  /** The base address is the low_pc of the unit's own entry, or 0 when that has none. */
  predicate BaseGiven(root: Tree, base: word)
    requires |root.attrs| == |root.abbrev.attributes|
  {
    match Encoding(root, AT_LOW_PC)
    case None => base == 0
    case Some(low) => low == Given(Addr, Number(base))
  }

  /** An entry with a range list covers what the list at its offset denotes over the unit's base address. */
  lemma ListIsSearched(c: CompUnit, t: Tree, pos: nat, root: Tree, off: word, base: word, pc: word)
    requires HeadFits(c.u, t) && At(c.u.Sec().data, pos, HeadBytes(t)) && ListGiven(t, off)
    requires HeadFits(c.u, root) && At(c.u.Sec().data, c.rootOffset, HeadBytes(root)) && BaseGiven(root, base)
    ensures IsRead(c.u, Root(t, pos))
    ensures PcCovered(c, Root(t, pos), pc) ==
      if c.ranges.None? then Err(FormatError) else Contains(ListAt(c, off), base, 0, pc)
  {
    hide At, HeadBytes, HeadFits, AsSecOffset, LowPc, Contains, ReadDie;
    ReadDieIsRoot(c.u, t, pos);
    AttributeIsEncoded(c.u, t, pos, AT_RANGES);
    ReadDieIsRoot(c.u, root, c.rootOffset);
    AttributeIsEncoded(c.u, root, c.rootOffset, AT_LOW_PC);
    if Encoding(root, AT_LOW_PC).Some? { LowIsEncoded(c.u, root, c.rootOffset, base); }
  }

  lemma {:induction false} LaidListIsRead(sec: Section, ranges: seq<Range>, i: nat, pos: nat)
    requires sec.addrSize == 8 && i <= |ranges| && (forall r :: r in ranges ==> r != (0, 0))
    requires At(sec.data, pos, SyntheticBytes(sec.lsb, ranges, i))
    ensures Raw(sec, pos) == (ranges[i..], None)
    decreases |ranges| - i
  {
    hide At, PairAt, PairBytes;
    if i == |ranges| {
      PairRoundTrip(sec, pos, (0, 0));
    } else {
      AtSplit(sec.data, pos, PairBytes(sec.lsb, ranges[i]), SyntheticBytes(sec.lsb, ranges, i + 1));
      PairRoundTrip(sec, pos, ranges[i]);
      LaidListIsRead(sec, ranges, i + 1, pos + 16);
      assert ranges[i] in ranges;
      assert ranges[i..] == [ranges[i]] + ranges[i + 1..];
    }
  }

  /** With the list laid out there, as pairs of 8-byte addresses and a pair of zeros, the entry covers an
      address exactly when some pair, displaced by the base address in force, holds it. */
  lemma LaidListIsCovered(c: CompUnit, t: Tree, pos: nat, root: Tree, off: word, base: word,
                          ranges: seq<Range>, pc: word)
    requires HeadFits(c.u, t) && At(c.u.Sec().data, pos, HeadBytes(t)) && ListGiven(t, off)
    requires HeadFits(c.u, root) && At(c.u.Sec().data, c.rootOffset, HeadBytes(root)) && BaseGiven(root, base)
    requires c.u.Sec().addrSize == 8 && forall r :: r in ranges ==> r != (0, 0)
    requires c.ranges.Some? && At(c.ranges.value.data, off, SyntheticBytes(c.ranges.value.lsb, ranges, 0))
    ensures IsRead(c.u, Root(t, pos))
    ensures PcCovered(c, Root(t, pos), pc) == Ok(Denotes(ranges, ALL_ONES, base, pc))
  {
    hide HeadBytes, HeadFits, PcCovered, Contains, ReadDie, Raw, Denotes, SyntheticBytes, BaseGiven, ListGiven;
    ListIsSearched(c, t, pos, root, off, base, pc);
    var list := ListAt(c, off);
    var bs := SyntheticBytes(list.lsb, ranges, 0);
    assert list.data[0..|bs|] == c.ranges.value.data[off..off + |bs|];
    LaidListIsRead(list, ranges, 0, 0);
    assert ranges[0..] == ranges;
    ContainsExactlyWhen(list, base, 0, pc);
  }
}
