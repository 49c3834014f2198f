/** The abbreviation table of a unit (section 7.5.3 of DWARF Version 4): reading it and looking codes up. */
module Abbrevs {
  import opened Words
  import opened Sections

  datatype ValueType =
    | AddressType | BlockType | ConstantType | UconstantType | SconstantType | ExprlocType | FlagType
    | LineType | LoclistType | MacType | RangelistType | ReferenceType | StringType | InvalidType

  /** Attribute names the type table distinguishes. */
  const AT_SIBLING: nat := 0x01
  const AT_LOW_PC: nat := 0x11
  const AT_HIGH_PC: nat := 0x12
  const AT_RANGES: nat := 0x55

  const BLOCK_IS_EXPR: set<nat> := {0x02, 0x0b, 0x0c, 0x0d, 0x19, 0x22, 0x2a, 0x2e, 0x2f, 0x37, 0x38, 0x40,
                                    0x46, 0x48, 0x4a, 0x4d, 0x4e, 0x4f, 0x50, 0x51}
  const DATA_IS_OFFSET: set<nat> := {0x02, 0x10, 0x19, 0x2a, 0x2c, 0x38, 0x40, 0x43, 0x46, 0x48, 0x4a, 0x4d, 0x55}
  const OFFSET_IS_LOCLIST: set<nat> := {0x02, 0x19, 0x2a, 0x38, 0x40, 0x46, 0x48, 0x4a, 0x4d}

  function SecOffsetType(name: nat): Result<ValueType> {
    if name == 0x10 then Ok(LineType)
    else if name in OFFSET_IS_LOCLIST then Ok(LoclistType)
    else if name == 0x43 then Ok(MacType)
    else if name in {0x2c, 0x55} then Ok(RangelistType)
    else if 0x2000 <= name <= 0x3fff then Ok(InvalidType)
    else Err(FormatError)
  }

  function ResolveType(name: nat, form: Form): Result<ValueType> {
    match form
    case Addr => Ok(AddressType)
    case Block | Block1 | Block2 | Block4 => Ok(if name in BLOCK_IS_EXPR then ExprlocType else BlockType)
    case Data4 | Data8 => if name in DATA_IS_OFFSET then SecOffsetType(name) else Ok(ConstantType)
    case Data1 | Data2 => Ok(ConstantType)
    case Udata => Ok(UconstantType)
    case Sdata => Ok(SconstantType)
    case Exprloc => Ok(ExprlocType)
    case Flag | FlagPresent => Ok(FlagType)
    case Ref1 | Ref2 | Ref4 | Ref8 | RefAddr | RefSig8 | RefUdata => Ok(ReferenceType)
    case Str | Strp => Ok(StringType)
    case Indirect => Ok(InvalidType)
    case SecOffset => SecOffsetType(name)
    case UnknownForm => Err(FormatError)
  }

  datatype AttrSpec = AttrSpec(name: nat, form: Form, typ: ValueType)

  datatype Abbrev = Abbrev(code: word, tag: nat, children: bool, attributes: seq<AttrSpec>)

  const NO_ABBREV := Abbrev(0, 0, false, [])

  // ---------- reading ----------

  /** The attribute list up to the pair (0, 0). The null form names no form: only the pair ends it. */
  function ReadSpecs(sec: Section, pos: nat): (r: Result<(seq<AttrSpec>, nat)>)
    ensures r.Ok? ==> pos < r.value.1 <= |sec.data|
    decreases |sec.data| - pos
  {
    var name :- UnsignedAt(sec, pos);
    var form :- UnsignedAt(sec, name.1);
    if name.0 % TWO32 == 0 && form.0 % TWO32 == 0 then Ok(([], form.1))
    else
      var typ :- ResolveType(name.0 % TWO32, FormOf(form.0));
      var rest :- ReadSpecs(sec, form.1);
      Ok(([AttrSpec(name.0 % TWO32, FormOf(form.0), typ)] + rest.0, rest.1))
  }

  /** One entry; none when the code is 0, which ends the table. */
  function ReadEntry(sec: Section, pos: nat): (r: Result<(Option<Abbrev>, nat)>)
    ensures r.Ok? ==> pos < r.value.1 <= |sec.data|
    ensures r.Ok? && r.value.0.Some? ==> r.value.0.value.code != 0
  {
    var code :- UnsignedAt(sec, pos);
    if code.0 == 0 then Ok((None, code.1))
    else
      var tag :- UnsignedAt(sec, code.1);
      var children :- FixedAt(sec, tag.1, 1);
      var specs :- ReadSpecs(sec, children.1);
      Ok((Some(Abbrev(code.0, tag.0 % TWO32, children.0 == 1, specs.0)), specs.1))
  }

  function ReadTable(sec: Section, pos: nat): (r: Result<seq<Abbrev>>)
    ensures r.Ok? ==> forall e :: e in r.value ==> e.code != 0
    decreases |sec.data| - pos
  {
    var entry :- ReadEntry(sec, pos);
    if entry.0.None? then Ok([])
    else
      var rest :- ReadTable(sec, entry.1);
      Ok([entry.0.value] + rest)
  }

  /** A list read so far in front of what a reader makes of the rest. */
  function OntoSpecs(done: seq<AttrSpec>, rest: Result<(seq<AttrSpec>, nat)>): Result<(seq<AttrSpec>, nat)> {
    match rest case Ok(p) => Ok((done + p.0, p.1)) case Err(e) => Err(e)
  }

  function OntoTable(done: seq<Abbrev>, rest: Result<seq<Abbrev>>): Result<seq<Abbrev>> {
    match rest case Ok(es) => Ok(done + es) case Err(e) => Err(e)
  }

  lemma OntoNothing(a: Result<(seq<AttrSpec>, nat)>, b: Result<seq<Abbrev>>)
    ensures OntoSpecs([], a) == a && OntoTable([], b) == b
  {
    if a.Ok? { assert [] + a.value.0 == a.value.0; }
    if b.Ok? { assert [] + b.value == b.value; }
  }

  lemma OntoSpecsOne(done: seq<AttrSpec>, spec: AttrSpec, rest: Result<(seq<AttrSpec>, nat)>)
    ensures OntoSpecs(done, OntoSpecs([spec], rest)) == OntoSpecs(done + [spec], rest)
  {
    if rest.Ok? { assert done + ([spec] + rest.value.0) == done + [spec] + rest.value.0; }
  }

  lemma OntoTableOne(done: seq<Abbrev>, e: Abbrev, rest: Result<seq<Abbrev>>)
    ensures OntoTable(done, OntoTable([e], rest)) == OntoTable(done + [e], rest)
  {
    if rest.Ok? { assert done + ([e] + rest.value) == done + [e] + rest.value; }
  }

  lemma SpecsUnfold(sec: Section, pos: nat)
    ensures ReadSpecs(sec, pos) ==
      match UnsignedAt(sec, pos)
      case Err(e) => Err(e)
      case Ok(name) =>
        match UnsignedAt(sec, name.1)
        case Err(e) => Err(e)
        case Ok(form) =>
          if name.0 % TWO32 == 0 && form.0 % TWO32 == 0 then Ok(([], form.1))
          else
            match ResolveType(name.0 % TWO32, FormOf(form.0))
            case Err(e) => Err(e)
            case Ok(typ) =>
              OntoSpecs([AttrSpec(name.0 % TWO32, FormOf(form.0), typ)], ReadSpecs(sec, form.1))
  {
    hide UnsignedAt, ResolveType, FormOf;
  }

  lemma TableUnfold(sec: Section, pos: nat)
    ensures ReadTable(sec, pos) ==
      match ReadEntry(sec, pos)
      case Err(e) => Err(e)
      case Ok(p) => if p.0.None? then Ok([]) else OntoTable([p.0.value], ReadTable(sec, p.1))
  {
    hide ReadEntry;
  }

  /** The last entry read with a code: a later one replaces an earlier one. */
  function LastWith(es: seq<Abbrev>, code: word): Option<Abbrev> {
    if es == [] then None
    else if es[|es| - 1].code == code then Some(es[|es| - 1])
    else LastWith(es[..|es| - 1], code)
  }

  class AbbrevEntry {
    var code: word
    var tag: nat
    var children: bool
    var attributes: seq<AttrSpec>

    constructor ()
      ensures View() == NO_ABBREV
    {
      code := 0;
      tag := 0;
      children := false;
      attributes := [];
    }

    function View(): Abbrev
      reads this
    {
      Abbrev(code, tag, children, attributes)
    }

    /** False at the end of the table. */
    method Read(cur: Cursor) returns (r: Result<bool>)
      modifies this, cur
      ensures match ReadEntry(cur.sec, old(cur.pos))
              case Err(e) => r == Err(e)
              case Ok(p) =>
                cur.pos == p.1 && r == Ok(p.0.Some?) && (p.0.Some? ==> View() == p.0.value)
    {
      hide UnsignedAt, FixedAt, ReadSpecs;
      attributes := [];
      var c := cur.Uleb128();
      if c.Err? { return Err(c.error); }
      code := c.value;
      if code == 0 { return Ok(false); }
      var t := cur.Uleb128();
      if t.Err? { return Err(t.error); }
      tag := t.value % TWO32;
      var ch := cur.Fixed(1);
      if ch.Err? { return Err(ch.error); }
      children := ch.value == 1;
      var done := ReadAttributes(cur);
      if done.Err? { return Err(done.error); }
      return Ok(true);
    }

    /** The loop over the attribute specifications. */
    method ReadAttributes(cur: Cursor) returns (r: Result<()>)
      requires attributes == []
      modifies this`attributes, cur
      ensures match ReadSpecs(cur.sec, old(cur.pos))
              case Err(e) => r == Err(e)
              case Ok(p) => r == Ok(()) && attributes == p.0 && cur.pos == p.1
    {
      hide UnsignedAt, ResolveType, FormOf, ReadSpecs, OntoSpecs;
      ghost var start := cur.pos;
      OntoNothing(ReadSpecs(cur.sec, start), Ok([]));
      while true
        invariant ReadSpecs(cur.sec, start) == OntoSpecs(attributes, ReadSpecs(cur.sec, cur.pos))
        decreases |cur.sec.data| - cur.pos
      {
        SpecsUnfold(cur.sec, cur.pos);
        SpecsEnd(attributes);
        var name := cur.Uleb128();
        if name.Err? { return Err(name.error); }
        var form := cur.Uleb128();
        if form.Err? { return Err(form.error); }
        if name.value % TWO32 == 0 && form.value % TWO32 == 0 { return Ok(()); }
        var typ := ResolveType(name.value % TWO32, FormOf(form.value));
        if typ.Err? { return Err(typ.error); }
        var spec := AttrSpec(name.value % TWO32, FormOf(form.value), typ.value);
        OntoSpecsOne(attributes, spec, ReadSpecs(cur.sec, cur.pos));
        attributes := attributes + [spec];
      }
    }
  }

  lemma SpecsEnd(done: seq<AttrSpec>)
    ensures forall e :: OntoSpecs(done, Err(e)) == Err(e)
    ensures forall next: nat :: OntoSpecs(done, Ok(([], next))) == Ok((done, next))
  {
    assert done + [] == done;
  }

  // ---------- the unit's table ----------

  /** The map after taking in the entries in order. */
  function MapOf(es: seq<Abbrev>): (m: map<word, Abbrev>)
    ensures forall c :: c in m ==> m[c].code == c
  {
    if es == [] then map[] else MapOf(es[..|es| - 1])[es[|es| - 1].code := es[|es| - 1]]
  }

  function Highest(es: seq<Abbrev>): (h: word)
    ensures forall c :: c in MapOf(es) ==> c <= h
    ensures es != [] ==> h in MapOf(es) || h == 0
  {
    if es == [] then 0
    else
      var h := Highest(es[..|es| - 1]);
      if es[|es| - 1].code > h then es[|es| - 1].code else h
  }

  lemma {:induction false} MapIsLastWith(es: seq<Abbrev>, code: word)
    ensures code in MapOf(es) <==> LastWith(es, code).Some?
    ensures code in MapOf(es) ==> Some(MapOf(es)[code]) == LastWith(es, code)
  {
    if es != [] { MapIsLastWith(es[..|es| - 1], code); }
  }

  /** The dense form is chosen, on a product taken modulo 2^64, for codes no vector can hold. */
  predicate NoVector(es: seq<Abbrev>) {
    Highest(es) * 10 >= TWO64 && Highest(es) * 10 % TWO64 < |MapOf(es)| * 15
  }

  /** What looking a code up answers, however often it is asked. */
  function Lookup(sec: Section, offset: nat, code: word): Result<Abbrev> {
    var es :- ReadTable(sec, offset);
    if NoVector(es) then Err(OutOfRange)
    else match LastWith(es, code) case Some(e) => Ok(e) case None => Err(FormatError)
  }

  class UnitAbbrevs {
    const sec: Section
    const offset: nat
    var have: bool
    var vec: seq<Abbrev>
    var entries: map<word, Abbrev>

    constructor (sec: Section, offset: nat)
      ensures Valid() && !have && this.sec == sec && this.offset == offset
    {
      this.sec := sec;
      this.offset := offset;
      have := false;
      vec := [];
      entries := map[];
    }

    /** Loaded, either representation stands for the entries of the table. Before that, a failed attempt
        may have left entries in the map. */
    ghost predicate Valid()
      reads this
    {
      var table := ReadTable(sec, offset);
      if have then table.Ok? && !NoVector(table.value) && Represents(table.value)
      else vec == [] && (entries == map[] || table.Err? || entries == MapOf(table.value))
    }

    /** Either representation stands for a list of entries as read. */
    ghost predicate Represents(es: seq<Abbrev>)
      reads this`vec, this`entries
    {
      && (forall e :: e in es ==> e.code != 0)
      && if vec != [] then
           forall code: word ::
              (if code < |vec| && vec[code].code != 0 then Some(vec[code]) else None) == LastWith(es, code)
         else entries == MapOf(es)
    }

    /** Converting to the dense form resizes a vector to `highest + 1`; a size the vector cannot have is
        refused. */
    method ForceAbbrevs() returns (r: Result<()>)
      requires Valid()
      modifies this
      ensures Valid() && (have <==> r.Ok?)
      ensures match ReadTable(sec, offset)
              case Err(e) => r == Err(e)
              case Ok(es) =>
                && r == (if NoVector(es) then Err(OutOfRange) else Ok(()))
                && (r.Ok? && !old(have) ==> (vec != [] <==> Highest(es) * 10 < |MapOf(es)| * 15))
    {
      hide ReadTable, MapOf, Highest, NoVector, Represents;
      if have { return Ok(()); }
      var highest, es, read := ReadEntries();
      if read.Err? { return Err(read.error); }
      assert entries == MapOf(es);
      r := Settle(highest, es);
      have := r.Ok?;
    }

    /** The choice between the two forms. */
    method Settle(highest: word, ghost es: seq<Abbrev>) returns (r: Result<()>)
      requires vec == [] && entries == MapOf(es) && highest == Highest(es) && forall e :: e in es ==> e.code != 0
      modifies this`vec, this`entries
      ensures r == if NoVector(es) then Err(OutOfRange) else Ok(())
      ensures r.Err? ==> vec == [] && entries == MapOf(es)
      ensures r.Ok? ==> Represents(es) && (vec != [] <==> Highest(es) * 10 < |MapOf(es)| * 15)
    {
      hide MapOf, Highest, LastWith;
      if highest * 10 % TWO64 < |entries| * 15 {
        if highest * 10 >= TWO64 { return Err(OutOfRange); }
        Densify(highest, es);
      }
      return Ok(());
    }

    /** The loop that fills the map. */
    method ReadEntries() returns (highest: word, ghost es: seq<Abbrev>, r: Result<()>)
      modifies this`entries
      ensures match ReadTable(sec, offset)
              case Err(e) => r == Err(e)
              case Ok(all) =>
                r == Ok(()) && es == all && entries == old(entries) + MapOf(all) && highest == Highest(all)
                && forall e :: e in all ==> e.code != 0
    {
      hide ReadEntry, ReadTable, OntoTable;
      var c := new Cursor(sec, offset);
      var entry := new AbbrevEntry();
      highest, es := 0, [];
      OntoNothing(Err(Underflow), ReadTable(sec, offset));
      while true
        invariant fresh(c) && fresh(entry) && c.sec == sec
        invariant entries == old(entries) + MapOf(es)
        invariant highest == Highest(es) && forall e :: e in es ==> e.code != 0
        invariant ReadTable(sec, offset) == OntoTable(es, ReadTable(sec, c.pos))
        decreases |sec.data| - c.pos
      {
        TableUnfold(sec, c.pos);
        TableEnd(es);
        var got := entry.Read(c);
        if got.Err? { return highest, es, Err(got.error); }
        if !got.value { return highest, es, Ok(()); }
        var e := entry.View();
        OntoTableOne(es, e, ReadTable(sec, c.pos));
        assert (es + [e])[..|es|] == es;
        es := es + [e];
        entries := entries[entry.code := e];
        if entry.code > highest { highest := entry.code; }
      }
    }

    /** The move into the dense vector. */
    method Densify(highest: word, ghost es: seq<Abbrev>)
      requires entries == MapOf(es) && highest == Highest(es) && forall e :: e in es ==> e.code != 0
      modifies this`vec, this`entries
      ensures Represents(es) && |vec| == highest + 1
    {
      hide LastWith, MapOf, Highest;
      HighestIs(es);
      NoZeroCode(es);
      var dense := new Abbrev[highest + 1](_ => NO_ABBREV);
      var left := entries.Keys;
      while left != {}
        invariant left <= entries.Keys && fresh(dense) && dense.Length == highest + 1 && entries == MapOf(es)
        invariant forall code: word :: code < dense.Length ==>
          dense[code] == if code in entries && code !in left then entries[code] else NO_ABBREV
        decreases |left|
      {
        var code :| code in left;
        dense[code] := entries[code];
        left := left - {code};
      }
      vec := dense[..];
      entries := map[];
      forall code: word
        ensures (if code < |vec| && vec[code].code != 0 then Some(vec[code]) else None) == LastWith(es, code)
      {
        MapIsLastWith(es, code);
        MapHasCodes(es, code);
      }
    }

    /** `get_abbrev`, which loads the table at the first call. */
    method GetAbbrev(code: word) returns (r: Result<Abbrev>)
      requires Valid()
      modifies this
      ensures Valid() && r == Lookup(sec, offset, code)
    {
      hide ReadTable, MapOf, Highest, LastWith;
      if !have {
        var loaded := ForceAbbrevs();
        if loaded.Err? { return Err(loaded.error); }
      }
      if vec != [] {
        if code >= |vec| { return Err(FormatError); }
        if vec[code].code == 0 { return Err(FormatError); }
        return Ok(vec[code]);
      }
      MapIsLastWith(ReadTable(sec, offset).value, code);
      if code !in entries { return Err(FormatError); }
      return Ok(entries[code]);
    }
  }

  lemma TableEnd(done: seq<Abbrev>)
    ensures forall e :: OntoTable(done, Err(e)) == Err(e)
    ensures OntoTable(done, Ok([])) == Ok(done)
  {
    assert done + [] == done;
  }

  lemma HighestIs(es: seq<Abbrev>)
    ensures forall c :: c in MapOf(es) ==> c <= Highest(es)
  {}

  lemma MapHasCodes(es: seq<Abbrev>, code: word)
    ensures code in MapOf(es) ==> MapOf(es)[code].code == code
  {}

  lemma {:induction false} NoZeroCode(es: seq<Abbrev>)
    requires forall e :: e in es ==> e.code != 0
    ensures forall c :: c in MapOf(es) ==> c != 0
  {
    if es != [] { NoZeroCode(es[..|es| - 1]); }
  }
}
