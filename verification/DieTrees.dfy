/** Trees of debugging entries as section 2.3 of DWARF Version 4 lays them out: preorder, each list of
    children ended by a null entry. Walking the bytes is walking the tree. */
module DieTrees {
  import opened Words
  import opened Sections
  import opened Abbrevs
  import opened Values
  import opened Dies
  import Leb128

  datatype Attr = Attr(bytes: seq<byte>, value: Encoded)

  /** `code` and `nul` are LEB128 encodings, padded or not, of the abbreviation code and of zero. */
  datatype Tree = Tree(code: seq<byte>, abbrev: Abbrev, attrs: seq<Attr>, kids: seq<Tree>, nul: seq<byte>)

  function AttrBytes(attrs: seq<Attr>, i: nat): seq<byte>
    requires i <= |attrs|
    decreases |attrs| - i
  {
    if i == |attrs| then [] else attrs[i].bytes + AttrBytes(attrs, i + 1)
  }

  function HeadBytes(t: Tree): seq<byte> { t.code + AttrBytes(t.attrs, 0) }

  function TreeBytes(t: Tree): seq<byte>
    decreases t
  {
    HeadBytes(t) + if t.abbrev.children then ForestBytes(t.kids) + t.nul else []
  }

  function ForestBytes(ts: seq<Tree>): seq<byte>
    decreases ts
  {
    if ts == [] then [] else TreeBytes(ts[0]) + ForestBytes(ts[1..])
  }

  /** The entry's own encoding fits its abbreviation in the unit. */
  predicate HeadFits(u: Unit, t: Tree) {
    && Leb128.Terminated(t.code) && Leb128.Unsigned(t.code) == t.abbrev.code && t.abbrev.code != 0
    && LastWith(u.abbrevs, t.abbrev.code) == Some(t.abbrev)
    && |t.attrs| == |t.abbrev.attributes|
    && (forall i :: 0 <= i < |t.attrs| ==>
          Encodes(u.Sec(), t.abbrev.attributes[i].form, t.attrs[i].bytes, t.attrs[i].value))
    && (if t.abbrev.children then Leb128.Terminated(t.nul) && Leb128.Unsigned(t.nul) == 0 else t.kids == [])
  }

  function SiblingIndex(t: Tree): Option<nat> { FirstWith(t.abbrev.attributes, AT_SIBLING, 0) }

  /** A sibling attribute of an entry with children is a reference within the unit to offset `n`. */
  predicate SiblingIs(t: Tree, n: nat)
    requires |t.attrs| == |t.abbrev.attributes|
  {
    t.abbrev.children ==>
      match SiblingIndex(t)
      case None => true
      case Some(i) =>
        && t.abbrev.attributes[i].form in {Ref1, Ref2, Ref4, RefUdata}
        && t.attrs[i].value.Number? && t.attrs[i].value.n == n
  }

  /** The tree, laid out at `pos`, fits the unit, and its sibling attributes are right. */
  predicate TreeFits(u: Unit, t: Tree, pos: nat)
    decreases t
  {
    && HeadFits(u, t)
    && SiblingIs(t, pos + |TreeBytes(t)|)
    && ForestFits(u, t.kids, pos + |HeadBytes(t)|)
  }

  predicate ForestFits(u: Unit, ts: seq<Tree>, pos: nat)
    decreases ts
  {
    ts == [] || (TreeFits(u, ts[0], pos) && ForestFits(u, ts[1..], pos + |TreeBytes(ts[0])|))
  }

  // ---------- reading one entry ----------

  function AttrStart(t: Tree, pos: nat, i: nat): nat
    requires i <= |t.attrs|
  {
    AttrBytesShrink(t.attrs, i);
    pos + |HeadBytes(t)| - |AttrBytes(t.attrs, i)|
  }

  lemma {:induction false} AttrBytesShrink(attrs: seq<Attr>, i: nat)
    requires i <= |attrs|
    ensures |AttrBytes(attrs, i)| <= |AttrBytes(attrs, 0)|
  {
    if i > 0 { AttrBytesShrink(attrs, i - 1); }
  }

  /** The entry that reading the tree's root at `pos` gives. */
  function Root(t: Tree, pos: nat): Entry {
    Entry(pos, Some(t.abbrev), seq(|t.attrs|, i requires 0 <= i < |t.attrs| => AttrStart(t, pos, i)),
          pos + |HeadBytes(t)|)
  }

  /** Reading an entry records the start of every attribute and ends at the end of its encoding. */
  lemma ReadDieIsRoot(u: Unit, t: Tree, pos: nat)
    requires HeadFits(u, t) && At(u.Sec().data, pos, HeadBytes(t))
    ensures ReadDie(u, pos) == Ok(Root(t, pos))
  {
    hide At, UnsignedAt, Leb128.Terminated, Leb128.Unsigned, Encodes, AttrBytes, Starts;
    var sec := u.Sec();
    AtSplit(sec.data, pos, t.code, AttrBytes(t.attrs, 0));
    UnsignedRoundTrip(sec, pos, t.code, t.abbrev.code);
    StartsAre(u, t, pos, 0);
    var starts := Starts(sec, t.abbrev.attributes, 0, pos + |t.code|).value.0;
    assert starts == Root(t, pos).attrs;
  }

  lemma {:induction false} StartsAre(u: Unit, t: Tree, pos: nat, i: nat)
    requires HeadFits(u, t) && At(u.Sec().data, pos, HeadBytes(t)) && i <= |t.attrs|
    ensures AttrStart(t, pos, i) >= 0
    ensures var r := Starts(u.Sec(), t.abbrev.attributes, i, AttrStart(t, pos, i));
      && r.Ok? && r.value.1 == pos + |HeadBytes(t)|
      && forall j :: 0 <= j < |t.attrs| - i ==> r.value.0[j] == AttrStart(t, pos, i + j)
    decreases |t.attrs| - i
  {
    hide At, SkipEnd, Leb128.Terminated, Leb128.Unsigned, Encodes, LastWith;
    AttrBytesShrink(t.attrs, i);
    if i < |t.attrs| {
      AttrSkips(u, t, pos, i);
      StartsAre(u, t, pos, i + 1);
    }
  }

  lemma AttrSkips(u: Unit, t: Tree, pos: nat, i: nat)
    requires HeadFits(u, t) && At(u.Sec().data, pos, HeadBytes(t)) && i < |t.attrs|
    ensures var start := AttrStart(t, pos, i);
      && start >= 0 && AttrStart(t, pos, i + 1) == start + |t.attrs[i].bytes|
      && SkipEnd(u.Sec(), t.abbrev.attributes[i].form, start) == Ok(AttrStart(t, pos, i + 1))
      && ReadsBack(u.src, t.abbrev.attributes[i].form, t.attrs[i].value, start)
  {
    hide At, SkipEnd, Leb128.Terminated, Leb128.Unsigned, Encodes, LastWith, ReadsBack;
    AttrBytesShrink(t.attrs, i);
    AttrAt(u.Sec().data, t, pos, i);
    AtSplit(u.Sec().data, AttrStart(t, pos, i), t.attrs[i].bytes, AttrBytes(t.attrs, i + 1));
    SkipAndDecodeAgree(u.src, t.abbrev.attributes[i].form, t.attrs[i].bytes, t.attrs[i].value, AttrStart(t, pos, i));
  }

  lemma {:induction false} AttrAt(data: seq<byte>, t: Tree, pos: nat, i: nat)
    requires At(data, pos, HeadBytes(t)) && i <= |t.attrs|
    ensures AttrStart(t, pos, i) >= 0 && At(data, AttrStart(t, pos, i), AttrBytes(t.attrs, i))
  {
    hide At;
    if i == 0 {
      AtSplit(data, pos, t.code, AttrBytes(t.attrs, 0));
    } else {
      AttrAt(data, t, pos, i - 1);
      AtSplit(data, AttrStart(t, pos, i - 1), t.attrs[i - 1].bytes, AttrBytes(t.attrs, i));
    }
  }

  /** `operator[]` finds the first attribute with the name, and its readers return the encoded value. */
  lemma AttributeIsEncoded(u: Unit, t: Tree, pos: nat, name: nat)
    requires HeadFits(u, t) && At(u.Sec().data, pos, HeadBytes(t))
    ensures Has(Root(t, pos), name) <==> exists s :: s in t.abbrev.attributes && s.name == name
    ensures match FirstWith(t.abbrev.attributes, name, 0)
            case None => Attribute(Root(t, pos), name) == Err(OutOfRange)
            case Some(i) =>
              && Attribute(Root(t, pos), name) ==
                   Ok(Value(t.abbrev.attributes[i].form, t.abbrev.attributes[i].typ, Root(t, pos).attrs[i]))
              && ReadsBack(u.src, t.abbrev.attributes[i].form, t.attrs[i].value, Root(t, pos).attrs[i])
  {
    hide At, SkipEnd, Leb128.Terminated, Leb128.Unsigned, Encodes, LastWith, ReadsBack, AttrBytes;
    match FirstWith(t.abbrev.attributes, name, 0) {
      case None =>
      case Some(i) =>
        AttrSkips(u, t, pos, i);
        assert t.abbrev.attributes[i] in t.abbrev.attributes;
    }
  }

  // ---------- walking ----------

  /** `++` on an entry lands just after its whole subtree. */
  lemma NextSkipsSubtree(u: Unit, t: Tree, pos: nat)
    requires TreeFits(u, t, pos) && At(u.Sec().data, pos, TreeBytes(t))
    ensures IsRead(u, Root(t, pos))
    ensures Next(u, Root(t, pos)) == ReadDie(u, pos + |TreeBytes(t)|)
  {
    hide At, ReadDie, NextIn, TreeFits, TreeBytes;
    NextInSkips(u, t, pos, {});
  }

  /** The same inside the `++` of entries further to the left. */
  lemma {:induction false} NextInSkips(u: Unit, t: Tree, pos: nat, open: set<nat>)
    requires TreeFits(u, t, pos) && At(u.Sec().data, pos, TreeBytes(t)) && forall x :: x in open ==> x < pos
    ensures IsRead(u, Root(t, pos))
    ensures NextIn(u, Root(t, pos), open) == ReadDie(u, pos + |TreeBytes(t)|)
    decreases t, 0
  {
    hide At, ReadDie, AsReference, Leb128.Terminated, Leb128.Unsigned, Encodes, LastWith, HeadBytes, FirstWith;
    var d := Root(t, pos);
    RootIsThere(u, t, pos);
    if t.abbrev.children {
      if Has(d, AT_SIBLING) {
        SiblingTargetIs(u, t, pos, pos + |TreeBytes(t)|);
      } else {
        ReadGrows(u, pos);
        ForestIsPassed(u, t.kids, t.nul, d.next, open + {pos}, {});
      }
    }
  }

  lemma RootIsThere(u: Unit, t: Tree, pos: nat)
    requires HeadFits(u, t) && At(u.Sec().data, pos, TreeBytes(t))
    ensures ReadDie(u, pos) == Ok(Root(t, pos)) && At(u.Sec().data, pos, HeadBytes(t))
    ensures t.abbrev.children ==>
      && At(u.Sec().data, pos + |HeadBytes(t)|, ForestBytes(t.kids) + t.nul)
      && |TreeBytes(t)| == |HeadBytes(t)| + |ForestBytes(t.kids)| + |t.nul|
    ensures !t.abbrev.children ==> |TreeBytes(t)| == |HeadBytes(t)|
  {
    hide At, ReadDie, ForestBytes, HeadFits, HeadBytes;
    AtSplit(u.Sec().data, pos, HeadBytes(t), if t.abbrev.children then ForestBytes(t.kids) + t.nul else []);
    ReadDieIsRoot(u, t, pos);
  }

  lemma SiblingTargetIs(u: Unit, t: Tree, pos: nat, n: nat)
    requires HeadFits(u, t) && At(u.Sec().data, pos, HeadBytes(t))
    requires t.abbrev.children && SiblingIs(t, n) && Has(Root(t, pos), AT_SIBLING)
    ensures IsRead(u, Root(t, pos)) && n < TWO64 && SiblingTarget(u, Root(t, pos)) == Ok(n)
  {
    hide At, AsReference, ReadDie, Leb128.Terminated, Leb128.Unsigned, Encodes, LastWith, HeadBytes, FirstWith;
    ReadDieIsRoot(u, t, pos);
    AttributeIsEncoded(u, t, pos, AT_SIBLING);
  }

  /** From the first of a list of siblings, `++` reaches the null entry that ends the list. */
  lemma ForestIsSkipped(u: Unit, ts: seq<Tree>, nul: seq<byte>, pos: nat)
    requires ForestFits(u, ts, pos) && Leb128.Terminated(nul) && Leb128.Unsigned(nul) == 0
    requires At(u.Sec().data, pos, ForestBytes(ts) + nul)
    ensures ReadDie(u, pos).Ok? && SkipIn(u, ReadDie(u, pos).value, {}, {}) == Ok(Terminator(ts, nul, pos))
    ensures IsRead(u, Terminator(ts, nul, pos))
  {
    hide At, ReadDie, SkipIn, ForestFits, ForestBytes;
    ForestIsPassed(u, ts, nul, pos, {}, {});
  }

  lemma {:induction false} ForestIsPassed(u: Unit, ts: seq<Tree>, nul: seq<byte>, pos: nat, open: set<nat>,
      seen: set<nat>)
    requires ForestFits(u, ts, pos) && Leb128.Terminated(nul) && Leb128.Unsigned(nul) == 0
    requires At(u.Sec().data, pos, ForestBytes(ts) + nul)
    requires (forall x :: x in open ==> x < pos) && forall x :: x in seen ==> x < pos
    ensures ReadDie(u, pos).Ok? && SkipIn(u, ReadDie(u, pos).value, open, seen) == Ok(Terminator(ts, nul, pos))
    ensures IsRead(u, Terminator(ts, nul, pos))
    decreases ts, 1
  {
    hide At, ReadDie, NextIn, Leb128.Terminated, Leb128.Unsigned, HeadFits, HeadBytes, TreeBytes;
    if ts == [] {
      assert ForestBytes(ts) + nul == nul;
      NullIsRead(u, nul, pos);
    } else {
      FirstOfForest(u, ts, nul, pos);
      RootOffsets(u, ts[0], pos);
      NextInSkips(u, ts[0], pos, open);
      ForestIsPassed(u, ts[1..], nul, pos + |TreeBytes(ts[0])|, open, seen + {pos});
    }
  }

  function Terminator(ts: seq<Tree>, nul: seq<byte>, pos: nat): Entry {
    var at := pos + |ForestBytes(ts)|;
    Entry(at, None, [], at + |nul|)
  }

  lemma NullIsRead(u: Unit, nul: seq<byte>, pos: nat)
    requires Leb128.Terminated(nul) && Leb128.Unsigned(nul) == 0 && At(u.Sec().data, pos, nul)
    ensures ReadDie(u, pos) == Ok(Entry(pos, None, [], pos + |nul|))
  {
    hide Leb128.Terminated, Leb128.Unsigned, UnsignedAt;
    UnsignedRoundTrip(u.Sec(), pos, nul, 0);
  }

  lemma FirstOfForest(u: Unit, ts: seq<Tree>, nul: seq<byte>, pos: nat)
    requires ts != [] && At(u.Sec().data, pos, ForestBytes(ts) + nul)
    ensures At(u.Sec().data, pos, TreeBytes(ts[0]))
    ensures At(u.Sec().data, pos + |TreeBytes(ts[0])|, ForestBytes(ts[1..]) + nul)
    ensures |ForestBytes(ts)| == |TreeBytes(ts[0])| + |ForestBytes(ts[1..])|
  {
    hide At, TreeBytes;
    assert ForestBytes(ts) + nul == TreeBytes(ts[0]) + (ForestBytes(ts[1..]) + nul);
    AtSplit(u.Sec().data, pos, TreeBytes(ts[0]), ForestBytes(ts[1..]) + nul);
  }

  lemma RootOffsets(u: Unit, t: Tree, pos: nat)
    requires HeadFits(u, t) && At(u.Sec().data, pos, TreeBytes(t))
    ensures ReadDie(u, pos) == Ok(Root(t, pos)) && Root(t, pos).offset == pos && |TreeBytes(t)| > 0
    ensures Root(t, pos).abbrev.Some?
  {
    hide At, ReadDie, LastWith, Encodes;
    RootIsThere(u, t, pos);
  }

  /** The roots of the trees laid out one after the other. */
  function Roots(ts: seq<Tree>, pos: nat): (es: seq<Entry>)
    ensures |es| == |ts|
    decreases |ts|
  {
    if ts == [] then [] else [Root(ts[0], pos)] + Roots(ts[1..], pos + |TreeBytes(ts[0])|)
  }

  /** Iterating over an entry visits exactly its children, in order. */
  lemma ChildrenAreKids(u: Unit, t: Tree, pos: nat)
    requires TreeFits(u, t, pos) && At(u.Sec().data, pos, TreeBytes(t))
    ensures IsRead(u, Root(t, pos))
    ensures Children(u, Root(t, pos)) ==
      Ok(if t.abbrev.children then Roots(t.kids, pos + |HeadBytes(t)|) else [])
  {
    hide At, ReadDie, SiblingsFrom, HeadFits, HeadBytes, LastWith, Encodes, Roots, ForestFits;
    NextSkipsSubtree(u, t, pos);
    RootIsThere(u, t, pos);
    if t.abbrev.children {
      NulFits(u, t);
      SiblingsAreRoots(u, t.kids, t.nul, pos + |HeadBytes(t)|, {});
    }
  }

  lemma NulFits(u: Unit, t: Tree)
    requires HeadFits(u, t) && t.abbrev.children
    ensures Leb128.Terminated(t.nul) && Leb128.Unsigned(t.nul) == 0
  {}

  lemma {:induction false} SiblingsAreRoots(u: Unit, ts: seq<Tree>, nul: seq<byte>, pos: nat, seen: set<nat>)
    requires ForestFits(u, ts, pos) && Leb128.Terminated(nul) && Leb128.Unsigned(nul) == 0
    requires At(u.Sec().data, pos, ForestBytes(ts) + nul) && forall x :: x in seen ==> x < pos
    ensures ReadDie(u, pos).Ok? && SiblingsFrom(u, ReadDie(u, pos).value, seen) == Ok(Roots(ts, pos))
    decreases |ts|
  {
    hide At, ReadDie, Next, Leb128.Terminated, Leb128.Unsigned, HeadFits, HeadBytes, TreeBytes;
    if ts == [] {
      assert ForestBytes(ts) + nul == nul;
      NullIsRead(u, nul, pos);
    } else {
      FirstOfForest(u, ts, nul, pos);
      RootOffsets(u, ts[0], pos);
      NextSkipsSubtree(u, ts[0], pos);
      SiblingsAreRoots(u, ts[1..], nul, pos + |TreeBytes(ts[0])|, seen + {pos});
    }
  }

  /** A sibling attribute that points at `n` takes `++` to where walking the subtree would land exactly
      when `n` is the end of the subtree. */
  lemma ShortcutIsRightExactlyWhen(u: Unit, t: Tree, pos: nat, n: nat)
    requires HeadFits(u, t) && ForestFits(u, t.kids, pos + |HeadBytes(t)|) && At(u.Sec().data, pos, TreeBytes(t))
    requires t.abbrev.children && SiblingIs(t, n) && SiblingIndex(t).Some?
    requires ReadDie(u, pos + |TreeBytes(t)|).Ok?
    ensures IsRead(u, Root(t, pos)) && ReadDie(u, Root(t, pos).next).Ok?
    ensures var last := SkipIn(u, ReadDie(u, Root(t, pos).next).value, {}, {});
      && last.Ok?
      && (Next(u, Root(t, pos)) == ReadDie(u, last.value.next) <==> n == pos + |TreeBytes(t)|)
  {
    hide At, ReadDie, AsReference, HeadFits, HeadBytes, TreeBytes, ForestBytes, Leb128.Terminated, Leb128.Unsigned;
    RootIsThere(u, t, pos);
    NulFits(u, t);
    ForestIsSkipped(u, t.kids, t.nul, pos + |HeadBytes(t)|);
    SiblingTargetIs(u, t, pos, n);
    SizesMatch(u, t);
    ReadGrows(u, n);
    ReadGrows(u, pos + |TreeBytes(t)|);
  }

  lemma SizesMatch(u: Unit, t: Tree)
    requires HeadFits(u, t)
    ensures |t.attrs| == |t.abbrev.attributes|
  {}
}
