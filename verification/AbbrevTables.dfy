/** Abbreviation tables as section 7.5.3 of DWARF Version 4 lays them out, with the form codes and attribute
    classes of section 7.5.4, and that reading gives them back. */
module AbbrevTables {
  import opened Words
  import opened Sections
  import opened Abbrevs

  // ---------- the encodings of the standard ----------

  /** The number of each form. */
  function FormCode(form: Form): nat {
    match form
    case Addr => 0x01
    case Block2 => 0x03
    case Block4 => 0x04
    case Data2 => 0x05
    case Data4 => 0x06
    case Data8 => 0x07
    case Str => 0x08
    case Block => 0x09
    case Block1 => 0x0a
    case Data1 => 0x0b
    case Flag => 0x0c
    case Sdata => 0x0d
    case Strp => 0x0e
    case Udata => 0x0f
    case RefAddr => 0x10
    case Ref1 => 0x11
    case Ref2 => 0x12
    case Ref4 => 0x13
    case Ref8 => 0x14
    case RefUdata => 0x15
    case Indirect => 0x16
    case SecOffset => 0x17
    case Exprloc => 0x18
    case FlagPresent => 0x19
    case RefSig8 => 0x20
    case UnknownForm => 0x02
  }

  datatype Class = AddressClass | ConstantClass | ExprClass | LinePtr | LoclistPtr | MacPtr | RangelistPtr | OtherClass

  /** The classes of an attribute's values, as far as they tell an expression or an offset from a number. */
  function Classes(name: nat): set<Class> {
    match name
    case 0x02 /* location */ => {ExprClass, LoclistPtr}
    case 0x0b /* byte_size */ => {ConstantClass, ExprClass, OtherClass}
    case 0x0c /* bit_offset */ => {ConstantClass, ExprClass, OtherClass}
    case 0x0d /* bit_size */ => {ConstantClass, ExprClass, OtherClass}
    case 0x10 /* stmt_list */ => {LinePtr}
    case 0x11 /* low_pc */ => {AddressClass}
    case 0x12 /* high_pc */ => {AddressClass, ConstantClass}
    case 0x19 /* string_length */ => {ExprClass, LoclistPtr}
    case 0x22 /* lower_bound */ => {ConstantClass, ExprClass, OtherClass}
    case 0x2a /* return_addr */ => {ExprClass, LoclistPtr}
    case 0x2c /* start_scope */ => {ConstantClass, RangelistPtr}
    case 0x2e /* bit_stride */ => {ConstantClass, ExprClass, OtherClass}
    case 0x2f /* upper_bound */ => {ConstantClass, ExprClass, OtherClass}
    case 0x37 /* count */ => {ConstantClass, ExprClass, OtherClass}
    case 0x38 /* data_member_location */ => {ConstantClass, ExprClass, LoclistPtr}
    case 0x40 /* frame_base */ => {ExprClass, LoclistPtr}
    case 0x43 /* macro_info */ => {MacPtr}
    case 0x46 /* segment */ => {ExprClass, LoclistPtr}
    case 0x48 /* static_link */ => {ExprClass, LoclistPtr}
    case 0x4a /* use_location */ => {ExprClass, LoclistPtr}
    case 0x4d /* vtable_elem_location */ => {ExprClass, LoclistPtr}
    case 0x4e /* allocated */ => {ConstantClass, ExprClass, OtherClass}
    case 0x4f /* associated */ => {ConstantClass, ExprClass, OtherClass}
    case 0x50 /* data_location */ => {ExprClass}
    case 0x51 /* byte_stride */ => {ConstantClass, ExprClass, OtherClass}
    case 0x55 /* ranges */ => {RangelistPtr}
    case _ => {OtherClass}
  }

  /** What an offset into another section points to, by the attribute's classes. */
  function OffsetType(name: nat): Option<ValueType> {
    var cs := Classes(name);
    if LinePtr in cs then Some(LineType)
    else if LoclistPtr in cs then Some(LoclistType)
    else if MacPtr in cs then Some(MacType)
    else if RangelistPtr in cs then Some(RangelistType)
    else None
  }

  predicate IsVendors(name: nat) { 0x2000 <= name <= 0x3fff }

  /** The type of an attribute's values in a form. As in older versions, blocks are expressions where the
      attribute can be one, and 4- and 8-byte data are offsets where it can be one. */
  function TypeOf(name: nat, form: Form): Option<ValueType> {
    match form
    case Addr => Some(AddressType)
    case Block1 | Block2 | Block4 | Block => Some(if ExprClass in Classes(name) then ExprlocType else BlockType)
    case Data4 | Data8 => if OffsetType(name).Some? then OffsetType(name) else Some(ConstantType)
    case SecOffset =>
      if OffsetType(name).Some? then OffsetType(name) else if IsVendors(name) then Some(InvalidType) else None
    case Data1 | Data2 => Some(ConstantType)
    case Udata => Some(UconstantType)
    case Sdata => Some(SconstantType)
    case Exprloc => Some(ExprlocType)
    case Flag | FlagPresent => Some(FlagType)
    case Str | Strp => Some(StringType)
    case Ref1 | Ref2 | Ref4 | Ref8 | RefAddr | RefUdata | RefSig8 => Some(ReferenceType)
    case Indirect => Some(InvalidType)
    case UnknownForm => None
  }

  /** The program's form numbers are those of the standard. */
  lemma FormsAreNumbered(code: word)
    ensures forall form: Form :: !form.UnknownForm? ==> (FormOf(code) == form <==> code % TWO32 == FormCode(form))
  {}

  /** So are its classes, for every attribute in every form; what has none is refused. */
  lemma TypesAreClasses(name: nat, form: Form)
    ensures ResolveType(name, form) ==
      match TypeOf(name, form) case Some(t) => Ok(t) case None => Err(FormatError)
  {}

  // ---------- tables laid out ----------

  /** An attribute specification; `name` and `form` are LEB128 encodings, padded or not, of the two numbers. */
  datatype LaidSpec = LaidSpec(name: seq<byte>, form: seq<byte>, spec: AttrSpec)

  /** An entry: the encodings of its code and tag, and of the two zeros that end its specifications. */
  datatype LaidAbbrev = LaidAbbrev(
    code: seq<byte>,
    tag: seq<byte>,
    specs: seq<LaidSpec>,
    noName: seq<byte>,
    noForm: seq<byte>,
    abbrev: Abbrev)

  predicate SpecFits(s: LaidSpec) {
    && IsLeb(s.name, s.spec.name) && s.spec.name < TWO32
    && !s.spec.form.UnknownForm? && IsLeb(s.form, FormCode(s.spec.form))
    && TypeOf(s.spec.name, s.spec.form) == Some(s.spec.typ)
  }

  predicate AbbrevFits(e: LaidAbbrev) {
    && IsLeb(e.code, e.abbrev.code) && e.abbrev.code != 0
    && IsLeb(e.tag, e.abbrev.tag) && e.abbrev.tag < TWO32
    && (forall s :: s in e.specs ==> SpecFits(s))
    && e.abbrev.attributes == Specs(e.specs)
    && IsLeb(e.noName, 0) && IsLeb(e.noForm, 0)
  }

  function Specs(specs: seq<LaidSpec>): seq<AttrSpec> {
    if specs == [] then [] else [specs[0].spec] + Specs(specs[1..])
  }

  function SpecBytes(specs: seq<LaidSpec>): seq<byte> {
    if specs == [] then [] else specs[0].name + specs[0].form + SpecBytes(specs[1..])
  }

  /** DW_CHILDREN_yes or DW_CHILDREN_no. */
  function ChildrenByte(e: Abbrev): byte { if e.children then 1 else 0 }

  function AbbrevBytes(e: LaidAbbrev): seq<byte> {
    e.code + (e.tag + ([ChildrenByte(e.abbrev)] + (SpecBytes(e.specs) + (e.noName + e.noForm))))
  }

  function TableBytes(es: seq<LaidAbbrev>, nul: seq<byte>): seq<byte> {
    if es == [] then nul else AbbrevBytes(es[0]) + TableBytes(es[1..], nul)
  }

  function Entries(es: seq<LaidAbbrev>): seq<Abbrev> {
    if es == [] then [] else [es[0].abbrev] + Entries(es[1..])
  }

  // ---------- reading them ----------

  lemma {:induction false} SpecsAreRead(sec: Section, pos: nat, specs: seq<LaidSpec>,
                                        noName: seq<byte>, noForm: seq<byte>)
    requires (forall s :: s in specs ==> SpecFits(s)) && IsLeb(noName, 0) && IsLeb(noForm, 0)
    requires At(sec.data, pos, SpecBytes(specs) + (noName + noForm))
    ensures ReadSpecs(sec, pos) == Ok((Specs(specs), pos + |SpecBytes(specs)| + |noName| + |noForm|))
    decreases |specs|
  {
    hide UnsignedAt, At, IsLeb, ResolveType, FormOf, TypeOf, FormCode;
    SpecsUnfold(sec, pos);
    var tail := noName + noForm;
    if specs == [] {
      assert SpecBytes(specs) + tail == noName + noForm;
      NumberIsRead(sec, pos, noName, 0, noForm);
      assert noForm + [] == noForm;
      NumberIsRead(sec, pos + |noName|, noForm, 0, []);
    } else {
      var s := specs[0];
      assert SpecFits(s);
      var rest := SpecBytes(specs[1..]) + tail;
      assert SpecBytes(specs) + tail == s.name + (s.form + rest);
      CodeIsSmall(s.spec.form);
      NumberIsRead(sec, pos, s.name, s.spec.name, s.form + rest);
      NumberIsRead(sec, pos + |s.name|, s.form, FormCode(s.spec.form), rest);
      SpecIsResolved(s);
      SpecsAreRead(sec, pos + |s.name| + |s.form|, specs[1..], noName, noForm);
    }
  }

  lemma CodeIsSmall(form: Form)
    ensures 0 < FormCode(form) < TWO32
  {}

  lemma SpecIsResolved(s: LaidSpec)
    requires SpecFits(s)
    ensures FormOf(FormCode(s.spec.form)) == s.spec.form && ResolveType(s.spec.name, s.spec.form) == Ok(s.spec.typ)
    ensures s.spec.name % TWO32 == s.spec.name && FormCode(s.spec.form) % TWO32 != 0
  {
    hide FormOf, ResolveType, TypeOf, FormCode, IsLeb;
    CodeIsSmall(s.spec.form);
    FormsAreNumbered(FormCode(s.spec.form));
    TypesAreClasses(s.spec.name, s.spec.form);
  }

  /** One entry is read back: code, tag, children flag and every attribute with its form and type. */
  lemma AbbrevIsRead(sec: Section, pos: nat, e: LaidAbbrev, rest: seq<byte>)
    requires AbbrevFits(e) && At(sec.data, pos, AbbrevBytes(e) + rest)
    ensures ReadEntry(sec, pos) == Ok((Some(e.abbrev), pos + |AbbrevBytes(e)|))
    ensures At(sec.data, pos + |AbbrevBytes(e)|, rest)
  {
    hide UnsignedAt, FixedAt, At, IsLeb, ReadSpecs, SpecFits, SpecBytes, Specs;
    AtSplit(sec.data, pos, AbbrevBytes(e), rest);
    var specs := SpecBytes(e.specs) + (e.noName + e.noForm);
    NumberIsRead(sec, pos, e.code, e.abbrev.code, e.tag + ([ChildrenByte(e.abbrev)] + specs));
    NumberIsRead(sec, pos + |e.code|, e.tag, e.abbrev.tag, [ChildrenByte(e.abbrev)] + specs);
    ByteIsRead(sec, pos + |e.code| + |e.tag|, ChildrenByte(e.abbrev), specs);
    SpecsAreRead(sec, pos + |e.code| + |e.tag| + 1, e.specs, e.noName, e.noForm);
  }

  /** Reading a table that has been laid out gives the entries back, in order. */
  lemma {:induction false} TableIsRead(sec: Section, pos: nat, es: seq<LaidAbbrev>, nul: seq<byte>)
    requires (forall e :: e in es ==> AbbrevFits(e)) && IsLeb(nul, 0) && At(sec.data, pos, TableBytes(es, nul))
    ensures ReadTable(sec, pos) == Ok(Entries(es))
    decreases |es|
  {
    hide UnsignedAt, At, IsLeb, ReadEntry, AbbrevFits, AbbrevBytes;
    TableUnfold(sec, pos);
    if es == [] {
      NulIsRead(sec, pos, nul);
    } else {
      AbbrevIsRead(sec, pos, es[0], TableBytes(es[1..], nul));
      TableIsRead(sec, pos + |AbbrevBytes(es[0])|, es[1..], nul);
    }
  }

  lemma NulIsRead(sec: Section, pos: nat, nul: seq<byte>)
    requires IsLeb(nul, 0) && At(sec.data, pos, nul)
    ensures ReadEntry(sec, pos) == Ok((None, pos + |nul|))
  {
    hide UnsignedAt, FixedAt, At, IsLeb, ReadSpecs;
    assert nul + [] == nul;
    NumberIsRead(sec, pos, nul, 0, []);
  }

  lemma {:induction false} LastIsLast(es: seq<LaidAbbrev>, i: nat, code: word)
    requires i < |es| && IsLast(es, i, code)
    ensures LastWith(Entries(es), code) == Some(es[i].abbrev)
    decreases |es|
  {
    hide LastWith;
    EntriesOf(es);
    LastUnfolds(Entries(es), code);
    if i < |es| - 1 {
      var init := es[..|es| - 1];
      EntriesOf(init);
      assert Entries(init) == Entries(es)[..|es| - 1];
      LastIsLast(init, i, code);
    }
  }

  lemma {:induction false} NoneHasIt(es: seq<LaidAbbrev>, code: word)
    requires forall e :: e in es ==> e.abbrev.code != code
    ensures LastWith(Entries(es), code) == None
    decreases |es|
  {
    hide LastWith;
    EntriesOf(es);
    LastUnfolds(Entries(es), code);
    if es != [] {
      var init := es[..|es| - 1];
      EntriesOf(init);
      assert Entries(init) == Entries(es)[..|es| - 1];
      NoneHasIt(init, code);
    }
  }

  /** Entry `i` has the code and no later one does. */
  predicate IsLast(es: seq<LaidAbbrev>, i: nat, code: word)
    requires i < |es|
  {
    es[i].abbrev.code == code && forall j :: i < j < |es| ==> es[j].abbrev.code != code
  }

  lemma {:induction false} EntriesOf(es: seq<LaidAbbrev>)
    ensures |Entries(es)| == |es| && forall i :: 0 <= i < |es| ==> Entries(es)[i] == es[i].abbrev
    decreases |es|
  {
    if es != [] { EntriesOf(es[1..]); }
  }

  lemma LastUnfolds(es: seq<Abbrev>, code: word)
    ensures LastWith(es, code) ==
      if es == [] then None
      else if es[|es| - 1].code == code then Some(es[|es| - 1])
      else LastWith(es[..|es| - 1], code)
  {}

  /** Looking a code up in a table that has been laid out gives the last entry with it as it was laid out; a
      code no entry has is refused, and so is a table whose codes no vector can hold. */
  lemma LaidTableAnswers(sec: Section, pos: nat, es: seq<LaidAbbrev>, nul: seq<byte>, code: word)
    requires (forall e :: e in es ==> AbbrevFits(e)) && IsLeb(nul, 0) && At(sec.data, pos, TableBytes(es, nul))
    ensures NoVector(Entries(es)) ==> Lookup(sec, pos, code) == Err(OutOfRange)
    ensures !NoVector(Entries(es)) ==>
      && ((forall e :: e in es ==> e.abbrev.code != code) ==> Lookup(sec, pos, code) == Err(FormatError))
      && (forall i :: 0 <= i < |es| && IsLast(es, i, code) ==> Lookup(sec, pos, code) == Ok(es[i].abbrev))
  {
    hide At, IsLeb, AbbrevFits, TableBytes, ReadTable, LastWith, Entries, NoVector, IsLast;
    TableIsRead(sec, pos, es, nul);
    if forall e :: e in es ==> e.abbrev.code != code { NoneHasIt(es, code); }
    forall i | 0 <= i < |es| && IsLast(es, i, code) ensures LastWith(Entries(es), code) == Some(es[i].abbrev) {
      LastIsLast(es, i, code);
    }
  }

  /** Codes below a tenth of 2^64 are never refused. */
  lemma SmallCodesFit(es: seq<Abbrev>)
    requires forall e :: e in es ==> e.code * 10 < TWO64
    ensures !NoVector(es)
  {
    HighestIsACode(es);
  }

  lemma {:induction false} HighestIsACode(es: seq<Abbrev>)
    ensures Highest(es) == 0 || exists e :: e in es && e.code == Highest(es)
  {
    if es != [] {
      HighestIsACode(es[..|es| - 1]);
      assert es[|es| - 1] in es;
    }
  }
}
