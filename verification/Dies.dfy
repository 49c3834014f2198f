/** Debugging information entries: reading one, finding its attributes, and walking siblings. */
module Dies {
  import opened Words
  import opened Sections
  import opened Abbrevs
  import opened Values

  /** A unit: its data and the abbreviation table it names, as read. */
  datatype Unit = Unit(src: Source, abbrevs: seq<Abbrev>) {
    function Sec(): Section { src.sec }
  }

  function AbbrevFor(u: Unit, code: word): Result<Abbrev> {
    match LastWith(u.abbrevs, code) case Some(e) => Ok(e) case None => Err(FormatError)
  }

  /** An entry as read: no abbreviation marks the end of a sibling list. */
  datatype Entry = Entry(offset: nat, abbrev: Option<Abbrev>, attrs: seq<nat>, next: nat)

  /** Where each attribute from the i-th on starts, and where the last one ends. */
  function Starts(sec: Section, specs: seq<AttrSpec>, i: nat, pos: nat): (r: Result<(seq<nat>, nat)>)
    requires i <= |specs|
    ensures r.Ok? ==> |r.value.0| == |specs| - i && r.value.1 >= pos
    decreases |specs| - i
  {
    if i == |specs| then Ok(([], pos))
    else
      var end :- SkipEnd(sec, specs[i].form, pos);
      var rest :- Starts(sec, specs, i + 1, end);
      Ok(([pos] + rest.0, rest.1))
  }

  function ReadDie(u: Unit, off: nat): (r: Result<Entry>)
    ensures r.Ok? ==> r.value.offset == off < |u.Sec().data| && r.value.next > off
    ensures r.Ok? && r.value.abbrev.Some? ==> |r.value.attrs| == |r.value.abbrev.value.attributes|
  {
    var code :- UnsignedAt(u.Sec(), off);
    if code.0 == 0 then Ok(Entry(off, None, [], code.1))
    else
      var abbrev :- AbbrevFor(u, code.0);
      var at :- Starts(u.Sec(), abbrev.attributes, 0, code.1);
      Ok(Entry(off, Some(abbrev), at.0, at.1))
  }

  /** `d` is what reading its own offset gives. */
  predicate IsRead(u: Unit, d: Entry) { ReadDie(u, d.offset) == Ok(d) }

  // ---------- attributes ----------

  function FirstWith(specs: seq<AttrSpec>, name: nat, i: nat): (r: Option<nat>)
    requires i <= |specs|
    ensures r.Some? ==> i <= r.value < |specs| && specs[r.value].name == name
    ensures forall j :: i <= j < (if r.Some? then r.value else |specs|) ==> specs[j].name != name
    decreases |specs| - i
  {
    if i == |specs| then None
    else if specs[i].name == name then Some(i)
    else FirstWith(specs, name, i + 1)
  }

  predicate Has(d: Entry, name: nat) {
    d.abbrev.Some? && FirstWith(d.abbrev.value.attributes, name, 0).Some?
  }

  datatype Value = Value(form: Form, typ: ValueType, offset: nat)

  /** `operator[]`. */
  function Attribute(d: Entry, name: nat): Result<Value>
    requires d.abbrev.Some? ==> |d.attrs| == |d.abbrev.value.attributes|
  {
    if d.abbrev.None? then Err(OutOfRange)
    else
      match FirstWith(d.abbrev.value.attributes, name, 0)
      case None => Err(OutOfRange)
      case Some(i) => Ok(Value(d.abbrev.value.attributes[i].form, d.abbrev.value.attributes[i].typ, d.attrs[i]))
  }

  // ---------- walking ----------

  /** Where a sibling attribute points, inside the unit. */
  function SiblingTarget(u: Unit, d: Entry): Result<word>
    requires IsRead(u, d) && Has(d, AT_SIBLING)
  {
    var v :- Attribute(d, AT_SIBLING);
    var target :- AsReference(u.src, v.form, v.offset);
    match target case InUnit(off) => Ok(off) case _ => Err(NotImplemented)
  }

  /** The offsets of the unit that are not in the set. */
  function Left(u: Unit, gone: set<nat>): set<nat> { set x: nat | x < |u.Sec().data| && x !in gone }

  lemma OneLess(u: Unit, gone: set<nat>, d: Entry)
    requires IsRead(u, d) && d.offset !in gone
    ensures Left(u, gone + {d.offset}) < Left(u, gone)
  {
    assert d.offset in Left(u, gone);
  }

  /** `++` on a sibling iterator. */
  function Next(u: Unit, d: Entry): (r: Result<Entry>)
    requires IsRead(u, d)
    ensures r.Ok? ==> IsRead(u, r.value)
  {
    NextIn(u, d, {})
  }

  /** `++` inside the `++` of the entries at the offsets `open`. A sibling attribute can point anywhere:
      when `++` on an entry comes back to that entry's own, it never ends. */
  function NextIn(u: Unit, d: Entry, open: set<nat>): (r: Result<Entry>)
    requires IsRead(u, d)
    ensures r.Ok? ==> IsRead(u, r.value)
    decreases Left(u, open), 0
  {
    if d.abbrev.None? then Ok(d)
    else if !d.abbrev.value.children then ReadDie(u, d.next)
    else if Has(d, AT_SIBLING) then
      var off :- SiblingTarget(u, d);
      ReadDie(u, off)
    else if d.offset in open then Err(NoEnd)
    else
      OneLess(u, open, d);
      var first :- ReadDie(u, d.next);
      var last :- SkipIn(u, first, open + {d.offset}, {});
      ReadDie(u, last.next)
  }

  /** `++` until the terminator, the entries at the offsets `seen` having been left behind: back at one of
      them, the loop never ends. */
  function SkipIn(u: Unit, d: Entry, open: set<nat>, seen: set<nat>): (r: Result<Entry>)
    requires IsRead(u, d)
    ensures r.Ok? ==> IsRead(u, r.value) && r.value.abbrev.None?
    decreases Left(u, open), 1, Left(u, seen)
  {
    if d.abbrev.None? then Ok(d)
    else if d.offset in seen then Err(NoEnd)
    else
      OneLess(u, seen, d);
      var n :- NextIn(u, d, open);
      SkipIn(u, n, open, seen + {d.offset})
  }

  /** The entries a loop from `d` to the end of its siblings visits. */
  function SiblingsFrom(u: Unit, d: Entry, seen: set<nat>): (r: Result<seq<Entry>>)
    requires IsRead(u, d)
    ensures r.Ok? ==> forall e :: e in r.value ==> IsRead(u, e) && e.abbrev.Some?
    decreases Left(u, seen)
  {
    if d.abbrev.None? then Ok([])
    else if d.offset in seen then Err(NoEnd)
    else
      OneLess(u, seen, d);
      var n :- Next(u, d);
      var rest :- SiblingsFrom(u, n, seen + {d.offset});
      Ok([d] + rest)
  }

  function Children(u: Unit, d: Entry): (r: Result<seq<Entry>>)
    requires IsRead(u, d)
    ensures r.Ok? ==> forall e :: e in r.value ==> IsRead(u, e) && e.abbrev.Some?
  {
    if d.abbrev.None? || !d.abbrev.value.children then Ok([])
    else
      var first :- ReadDie(u, d.next);
      SiblingsFrom(u, first, {})
  }

  // ---------- when walking moves forward ----------

  /** No sibling attribute, of whatever would be read as an entry with children at some offset of the
      unit, leads back or to the entry itself. */
  ghost predicate SiblingsAhead(u: Unit) {
    forall d :: IsRead(u, d) && d.abbrev.Some? && d.abbrev.value.children && Has(d, AT_SIBLING) ==>
      var off := SiblingTarget(u, d);
      off.Ok? && ReadDie(u, off.value).Ok? ==> off.value > d.offset
  }

  predicate Forward(d: Entry, n: Result<Entry>) { n != Err(NoEnd) && (n.Ok? ==> n.value.offset > d.offset) }

  ghost predicate MovesForward(u: Unit) {
    forall d :: IsRead(u, d) && d.abbrev.Some? ==> Forward(d, Next(u, d))
  }

  lemma {:induction false} SkipErrors(sec: Section, form: Form, pos: nat)
    ensures SkipEnd(sec, form, pos) != Err(NoEnd)
    decreases |sec.data| - pos
  {
    if form.Indirect? {
      var f := UnsignedAt(sec, pos);
      if f.Ok? { SkipErrors(sec, FormOf(f.value.0), f.value.1); }
    }
  }

  lemma {:induction false} StartsErrors(sec: Section, specs: seq<AttrSpec>, i: nat, pos: nat)
    requires i <= |specs|
    ensures Starts(sec, specs, i, pos) != Err(NoEnd)
    decreases |specs| - i
  {
    hide SkipEnd;
    if i < |specs| {
      SkipErrors(sec, specs[i].form, pos);
      var end := SkipEnd(sec, specs[i].form, pos);
      if end.Ok? { StartsErrors(sec, specs, i + 1, end.value); }
    }
  }

  lemma ReadErrors(u: Unit, off: nat)
    ensures ReadDie(u, off) != Err(NoEnd)
  {
    hide Starts;
    var code := UnsignedAt(u.Sec(), off);
    if code.Ok? && AbbrevFor(u, code.value.0).Ok? {
      StartsErrors(u.Sec(), AbbrevFor(u, code.value.0).value.attributes, 0, code.value.1);
    }
  }

  lemma SiblingErrors(u: Unit, d: Entry)
    requires IsRead(u, d) && Has(d, AT_SIBLING)
    ensures SiblingTarget(u, d) != Err(NoEnd)
  {}

  /** With every sibling ahead, neither a `++` under way nor an entry left behind is met again. */
  lemma {:induction false} NextInForward(u: Unit, d: Entry, open: set<nat>)
    requires SiblingsAhead(u) && IsRead(u, d) && d.abbrev.Some? && forall x :: x in open ==> x < d.offset
    ensures Forward(d, NextIn(u, d, open))
    decreases Left(u, open), 0
  {
    hide ReadDie, SiblingTarget, SiblingsAhead, Left;
    ReadGrows(u, d.offset);
    ReadGrows(u, d.next);
    ReadErrors(u, d.next);
    if d.abbrev.value.children {
      if Has(d, AT_SIBLING) {
        SiblingErrors(u, d);
        SiblingIsAhead(u, d);
      } else if ReadDie(u, d.next).Ok? {
        OneLess(u, open, d);
        var first := ReadDie(u, d.next).value;
        SkipInForward(u, first, open + {d.offset}, {});
        var last := SkipIn(u, first, open + {d.offset}, {});
        if last.Ok? {
          ReadGrows(u, last.value.offset);
          ReadGrows(u, last.value.next);
          ReadErrors(u, last.value.next);
        }
      }
    }
  }

  lemma SiblingIsAhead(u: Unit, d: Entry)
    requires SiblingsAhead(u) && IsRead(u, d) && d.abbrev.Some? && d.abbrev.value.children && Has(d, AT_SIBLING)
    ensures var off := SiblingTarget(u, d);
      off.Ok? ==> ReadDie(u, off.value) != Err(NoEnd)
                  && (ReadDie(u, off.value).Ok? ==> ReadDie(u, off.value).value.offset == off.value > d.offset)
  {
    hide ReadDie, SiblingTarget, Has;
    var off := SiblingTarget(u, d);
    if off.Ok? {
      ReadGrows(u, off.value);
      ReadErrors(u, off.value);
    }
  }

  lemma {:induction false} SkipInForward(u: Unit, d: Entry, open: set<nat>, seen: set<nat>)
    requires SiblingsAhead(u) && IsRead(u, d)
    requires (forall x :: x in open ==> x < d.offset) && forall x :: x in seen ==> x < d.offset
    ensures SkipIn(u, d, open, seen) != Err(NoEnd)
    ensures SkipIn(u, d, open, seen).Ok? ==> SkipIn(u, d, open, seen).value.offset >= d.offset
    decreases Left(u, open), 1, Left(u, seen)
  {
    hide NextIn, ReadDie, SiblingsAhead, Left;
    if d.abbrev.Some? {
      OneLess(u, seen, d);
      NextInForward(u, d, open);
      var n := NextIn(u, d, open);
      if n.Ok? { SkipInForward(u, n.value, open, seen + {d.offset}); }
    }
  }

  /** On every unit, whatever its bytes: `++` always comes to an end and always moves to a larger offset if
      and only if the sibling attributes of entries with children, if any, lead forward. */
  lemma MovesForwardExactlyWhen(u: Unit)
    ensures MovesForward(u) <==> SiblingsAhead(u)
  {
    hide ReadDie, SiblingTarget, SkipIn, Has;
    if SiblingsAhead(u) {
      forall d | IsRead(u, d) && d.abbrev.Some? ensures Forward(d, Next(u, d)) { NextInForward(u, d, {}); }
    } else {
      var d :| IsRead(u, d) && d.abbrev.Some? && d.abbrev.value.children && Has(d, AT_SIBLING)
        && SiblingTarget(u, d).Ok? && ReadDie(u, SiblingTarget(u, d).value).Ok?
        && SiblingTarget(u, d).value <= d.offset;
      ReadGrows(u, SiblingTarget(u, d).value);
      assert !Forward(d, Next(u, d));
    }
  }

  /** In particular when no abbreviation with children has one. */
  lemma NextMovesForward(u: Unit)
    requires forall a :: a in u.abbrevs && a.children ==> forall s :: s in a.attributes ==> s.name != AT_SIBLING
    ensures MovesForward(u)
  {
    hide SkipIn, SiblingTarget, Next, NextIn;
    forall d | IsRead(u, d) && d.abbrev.Some? && d.abbrev.value.children ensures !Has(d, AT_SIBLING) {
      ItsAbbrevIsListed(u, d);
    }
    MovesForwardExactlyWhen(u);
  }

  lemma ItsAbbrevIsListed(u: Unit, d: Entry)
    requires IsRead(u, d) && d.abbrev.Some?
    ensures d.abbrev.value in u.abbrevs
  {
    hide Starts, UnsignedAt;
    LastIsListed(u.abbrevs, UnsignedAt(u.Sec(), d.offset).value.0);
  }

  lemma {:induction false} LastIsListed(es: seq<Abbrev>, code: word)
    ensures LastWith(es, code).Some? ==> LastWith(es, code).value in es
  {
    if es != [] { LastIsListed(es[..|es| - 1], code); }
  }

  /** The abbreviations of the case below: entries with children, the second kind with a sibling. */
  predicate TwoKinds(u: Unit) {
    u.abbrevs == [Abbrev(1, 0x11, true, []), Abbrev(2, 0x11, true, [AttrSpec(AT_SIBLING, Ref1, ReferenceType)])]
  }

  /** What happens otherwise, in a unit of seven bytes behind its header: the root at 11 has the children at
      12 and 14. The sibling of the entry at 15 is the null entry at 13, so `++` on the entry at 14, which
      has no sibling attribute, stays where it is, and the loop over the root's children never ends. */
  lemma BackwardSiblingStays(u: Unit)
    requires TwoKinds(u) && |u.Sec().data| == 18 && u.Sec().data[11..] == [1, 1, 0, 1, 2, 13, 0]
    ensures ReadDie(u, 11).Ok? && ReadDie(u, 14).Ok? && !Has(ReadDie(u, 14).value, AT_SIBLING)
    ensures Next(u, ReadDie(u, 14).value) == ReadDie(u, 14)
    ensures Children(u, ReadDie(u, 11).value) == Err(NoEnd)
  {
    hide ReadDie, SiblingTarget, Has;
    BytesBehind(u.Sec().data);
    var root := FirstKind(u, 11);
    var d12 := FirstKind(u, 12);
    var d13 := NullKind(u, 13);
    var d14 := FirstKind(u, 14);
    var d15 := SecondKind(u, 15);
    assert {} + {12} == {12} && {} + {13} == {13} && {} + {14} == {14} && {} + {15} == {15};
    OneLess(u, {}, d12);
    assert SkipIn(u, d13, {12}, {}) == Ok(d13);
    assert NextIn(u, d12, {}) == Ok(d14);
    OneLess(u, {}, d15);
    assert SkipIn(u, d13, {14}, {15}) == Ok(d13);
    assert NextIn(u, d15, {14}) == Ok(d13);
    assert SkipIn(u, d15, {14}, {}) == Ok(d13);
    assert NextIn(u, d14, {}) == Ok(d14);
    assert SiblingsFrom(u, d14, {12} + {14}) == Err(NoEnd);
    assert SiblingsFrom(u, d14, {12}) == Err(NoEnd);
  }

  lemma BytesBehind(data: seq<byte>)
    requires |data| == 18 && data[11..] == [1, 1, 0, 1, 2, 13, 0]
    ensures data[11] == 1 && data[12] == 1 && data[13] == 0 && data[14] == 1 && data[15] == 2 && data[16] == 13
  {
    forall i | 0 <= i < 7 ensures data[11 + i] == data[11..][i] {}
  }

  lemma FirstKind(u: Unit, pos: nat) returns (d: Entry)
    requires TwoKinds(u) && pos < |u.Sec().data| && u.Sec().data[pos] == 1
    ensures ReadDie(u, pos) == Ok(d) && d == Entry(pos, Some(u.abbrevs[0]), [], pos + 1) && !Has(d, AT_SIBLING)
  {
    hide UnsignedAt, FixedAt;
    assert u.abbrevs[..1] == [u.abbrevs[0]];
    assert LastWith(u.abbrevs, 1) == Some(u.abbrevs[0]);
    SmallUnsigned(u.Sec(), pos);
    d := Entry(pos, Some(u.abbrevs[0]), [], pos + 1);
  }

  lemma SecondKind(u: Unit, pos: nat) returns (d: Entry)
    requires TwoKinds(u) && pos + 1 < |u.Sec().data| && u.Sec().data[pos] == 2 && u.Sec().data[pos + 1] < 128
    ensures ReadDie(u, pos) == Ok(d) && d == Entry(pos, Some(u.abbrevs[1]), [pos + 1], pos + 2)
    ensures Has(d, AT_SIBLING) && SiblingTarget(u, d) == Ok(u.Sec().data[pos + 1])
  {
    hide UnsignedAt, FixedAt;
    var specs := u.abbrevs[1].attributes;
    assert LastWith(u.abbrevs, 2) == Some(u.abbrevs[1]);
    SmallUnsigned(u.Sec(), pos);
    SmallUnsigned(u.Sec(), pos + 1);
    assert Starts(u.Sec(), specs, 1, pos + 2) == Ok(([], pos + 2)) && [pos + 1] + [] == [pos + 1];
    assert Starts(u.Sec(), specs, 0, pos + 1) == Ok(([pos + 1], pos + 2));
    d := Entry(pos, Some(u.abbrevs[1]), [pos + 1], pos + 2);
  }

  lemma NullKind(u: Unit, pos: nat) returns (d: Entry)
    requires pos < |u.Sec().data| && u.Sec().data[pos] == 0
    ensures ReadDie(u, pos) == Ok(d) && d == Entry(pos, None, [], pos + 1)
  {
    hide UnsignedAt;
    SmallUnsigned(u.Sec(), pos);
    d := Entry(pos, None, [], pos + 1);
  }

  /** A byte below 128 is a number, in either encoding. */
  lemma SmallUnsigned(sec: Section, pos: nat)
    requires pos < |sec.data| && sec.data[pos] < 128
    ensures UnsignedAt(sec, pos) == Ok((sec.data[pos], pos + 1))
    ensures FixedAt(sec, pos, 1) == Ok((sec.data[pos], pos + 1))
  {
    var bs := sec.data[pos..pos + 1];
    assert bs == [sec.data[pos]] && bs[1..] == [];
    UnsignedRoundTrip(sec, pos, bs, sec.data[pos]);
    assert LittleEndian(bs[1..]) == 0 && BigEndian(bs[..0]) == 0;
  }

  lemma ReadGrows(u: Unit, off: nat)
    ensures ReadDie(u, off).Ok? ==> ReadDie(u, off).value.offset == off < ReadDie(u, off).value.next
  {}

  lemma ReadIsRead(u: Unit, off: nat)
    ensures ReadDie(u, off).Ok? ==> IsRead(u, ReadDie(u, off).value) && ReadDie(u, off).value.offset == off
  {}

  // ---------- the objects ----------

  class Die {
    const u: Unit
    var abbrev: Option<Abbrev>
    var tag: nat
    var offset: nat
    var attrs: seq<nat>
    var next: nat

    constructor (u: Unit)
      ensures this.u == u && abbrev == None
    {
      this.u := u;
      abbrev := None;
      tag, offset, next := 0, 0, 0;
      attrs := [];
    }

    /** The attribute offsets of an earlier entry stay behind in a terminator but are never looked at. */
    function View(): Entry
      reads this
    {
      Entry(offset, abbrev, if abbrev.None? then [] else attrs, next)
    }

    predicate Valid()
      reads this
    {
      IsRead(u, View()) && (abbrev.Some? ==> tag == abbrev.value.tag)
    }

    method Read(off: nat) returns (r: Result<()>)
      modifies this
      ensures match ReadDie(u, off)
              case Err(e) => r == Err(e)
              case Ok(d) => r == Ok(()) && View() == d && Valid()
    {
      hide UnsignedAt, Starts, SkipEnd, LastWith;
      var cur := new Cursor(u.src.sec, off);
      offset := off;
      var acode := cur.Uleb128();
      if acode.Err? { return Err(acode.error); }
      if acode.value == 0 {
        abbrev := None;
        next := cur.pos;
        return Ok(());
      }
      var found := AbbrevFor(u, acode.value);
      if found.Err? { return Err(found.error); }
      abbrev := Some(found.value);
      tag := found.value.tag;
      var done := ReadAttrs(cur, found.value.attributes);
      if done.Err? { return Err(done.error); }
      next := cur.pos;
      return Ok(());
    }

    /** The loop that records where each attribute starts and skips it. */
    method ReadAttrs(cur: Cursor, specs: seq<AttrSpec>) returns (r: Result<()>)
      modifies this`attrs, cur
      ensures match Starts(cur.sec, specs, 0, old(cur.pos))
              case Err(e) => r == Err(e)
              case Ok(p) => r == Ok(()) && attrs == p.0 && cur.pos == p.1
    {
      hide Starts, SkipEnd;
      attrs := [];
      ghost var start := cur.pos;
      OntoNone(Starts(cur.sec, specs, 0, start));
      for i := 0 to |specs|
        invariant Starts(cur.sec, specs, 0, start) == Onto(attrs, Starts(cur.sec, specs, i, cur.pos))
      {
        StartsUnfold(cur.sec, specs, i, cur.pos);
        OntoOne(attrs, cur.pos, match SkipEnd(cur.sec, specs[i].form, cur.pos)
                                case Ok(end) => Starts(cur.sec, specs, i + 1, end)
                                case Err(e) => Err(e));
        attrs := attrs + [cur.pos];
        var skipped := cur.SkipForm(specs[i].form);
        if skipped.Err? { return Err(skipped.error); }
      }
      StartsDone(cur.sec, specs, cur.pos, attrs);
      return Ok(());
    }

    method HasAttribute(name: nat) returns (b: bool)
      ensures b == Has(View(), name)
    {
      if abbrev.None? { return false; }
      var specs := abbrev.value.attributes;
      for i := 0 to |specs|
        invariant FirstWith(specs, name, i) == FirstWith(specs, name, 0)
      {
        if specs[i].name == name { return true; }
      }
      return false;
    }

    method Get(name: nat) returns (r: Result<Value>)
      requires Valid()
      ensures r == Attribute(View(), name)
    {
      hide Starts;
      if abbrev.Some? {
        var i := 0;
        var specs := abbrev.value.attributes;
        while i < |specs|
          invariant 0 <= i <= |specs|
          invariant FirstWith(specs, name, i) == FirstWith(specs, name, 0)
        {
          if specs[i].name == name { return Ok(Value(specs[i].form, specs[i].typ, attrs[i])); }
          i := i + 1;
        }
      }
      return Err(OutOfRange);
    }
  }

  class DieIterator {
    const d: Die

    constructor (u: Unit)
      ensures fresh(d) && d.u == u
    {
      d := new Die(u);
    }

    method Increment() returns (r: Result<()>)
      requires d.Valid()
      modifies d
      ensures match Next(d.u, old(d.View()))
              case Err(e) => r == Err(e)
              case Ok(n) => r == Ok(()) && d.View() == n && d.Valid()
    {
      r := IncrementIn({});
    }

    /** `++` inside that of the entries at `open`. Where the program would never end, this does. */
    method IncrementIn(open: set<nat>) returns (r: Result<()>)
      requires d.Valid()
      modifies d
      ensures match NextIn(d.u, old(d.View()), open)
              case Err(e) => r == Err(e)
              case Ok(n) => r == Ok(()) && d.View() == n && d.Valid()
      decreases Left(d.u, open)
    {
      hide ReadDie, Has, Attribute, AsReference, FirstWith, Left;
      if d.abbrev.None? { return Ok(()); }
      if !d.abbrev.value.children {
        r := d.Read(d.next);
        return;
      }
      var sibling := d.HasAttribute(AT_SIBLING);
      if sibling {
        var v := d.Get(AT_SIBLING);
        if v.Err? { return Err(v.error); }
        var target := AsReference(d.u.src, v.value.form, v.value.offset);
        if target.Err? { return Err(target.error); }
        if !target.value.InUnit? { return Err(NotImplemented); }
        r := d.Read(target.value.offset);
        return;
      }
      if d.offset in open { return Err(NoEnd); }
      OneLess(d.u, open, d.View());
      var sub := new DieIterator(d.u);
      var read := sub.d.Read(d.next);
      if read.Err? { return Err(read.error); }
      ghost var first := sub.d.View();
      var inside, seen := open + {d.offset}, {};
      while sub.d.abbrev.Some?
        invariant fresh(sub.d) && sub.d.u == d.u && sub.d.Valid()
        invariant d.View() == old(d.View()) && d.offset == old(d.offset)
        invariant IsRead(d.u, first) && SkipIn(d.u, first, inside, {}) == SkipIn(d.u, sub.d.View(), inside, seen)
        decreases Left(d.u, seen)
      {
        if sub.d.offset in seen { return Err(NoEnd); }
        OneLess(d.u, seen, sub.d.View());
        seen := seen + {sub.d.offset};
        var step := sub.IncrementIn(inside);
        if step.Err? { return Err(step.error); }
      }
      r := d.Read(sub.d.next);
    }
  }

  // ---------- the attribute loop ----------

  function Onto(done: seq<nat>, rest: Result<(seq<nat>, nat)>): Result<(seq<nat>, nat)> {
    match rest case Ok(p) => Ok((done + p.0, p.1)) case Err(e) => Err(e)
  }

  lemma OntoNone(rest: Result<(seq<nat>, nat)>)
    ensures Onto([], rest) == rest
  {
    if rest.Ok? { assert [] + rest.value.0 == rest.value.0; }
  }

  lemma OntoOne(done: seq<nat>, x: nat, rest: Result<(seq<nat>, nat)>)
    ensures Onto(done, Onto([x], rest)) == Onto(done + [x], rest)
  {
    if rest.Ok? { assert done + ([x] + rest.value.0) == done + [x] + rest.value.0; }
  }

  lemma StartsUnfold(sec: Section, specs: seq<AttrSpec>, i: nat, pos: nat)
    requires i < |specs|
    ensures Starts(sec, specs, i, pos) ==
      Onto([pos], match SkipEnd(sec, specs[i].form, pos)
                  case Ok(end) => Starts(sec, specs, i + 1, end)
                  case Err(e) => Err(e))
  {
    hide SkipEnd;
  }

  lemma StartsDone(sec: Section, specs: seq<AttrSpec>, pos: nat, done: seq<nat>)
    ensures Onto(done, Starts(sec, specs, |specs|, pos)) == Ok((done, pos))
  {
    assert done + [] == done;
  }
}
