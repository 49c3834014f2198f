/** Finding the functions that cover an address: `die_pc_range`, `find_pc` and `get_function_from_pc`. */
module FunctionLookup {
  import opened Words
  import opened Sections
  import opened Abbrevs
  import opened Values
  import opened Dies
  import opened DieTrees
  import opened RangeLists
  import Leb128

  const TAG_INLINED_SUBROUTINE: nat := 0x1d
  const TAG_SUBPROGRAM: nat := 0x2e

  /** A compilation unit: its entries, where its root is, and the section of range lists, if there is one. */
  datatype CompUnit = CompUnit(u: Unit, rootOffset: nat, ranges: Option<Section>)

  // ---------- the addresses of an entry ----------

  function LowPc(u: Unit, d: Entry): Result<word>
    requires IsRead(u, d)
  {
    var v :- Attribute(d, AT_LOW_PC);
    AsAddress(u.src, v.form, v.offset)
  }

  function HighPc(u: Unit, d: Entry): Result<word>
    requires IsRead(u, d)
  {
    var v :- Attribute(d, AT_HIGH_PC);
    match v.typ
    case AddressType => AsAddress(u.src, v.form, v.offset)
    case ConstantType | UconstantType =>
      var low :- LowPc(u, d);
      var size :- AsUconstant(u.src, v.form, v.offset);
      Ok(Wrap(low + size))
    case _ => Err(FormatError)
  }

  /** The list the ranges attribute names: its section and its base address. */
  function ListedRanges(c: CompUnit, d: Entry): Result<(Section, nat, word)>
    requires IsRead(c.u, d)
  {
    var v :- Attribute(d, AT_RANGES);
    var off :- AsSecOffset(c.u.src, v.form, v.offset);
    var root :- ReadDie(c.u, c.rootOffset);
    var base :- if Has(root, AT_LOW_PC) then LowPc(c.u, root) else Ok(0);
    if c.ranges.None? then Err(FormatError) else Ok((c.ranges.value, off, base))
  }

  /** The bounds when there is no ranges attribute: one address when the end is not given. */
  function Bounds(u: Unit, d: Entry): Result<Range>
    requires IsRead(u, d)
  {
    var low :- LowPc(u, d);
    var high :- if Has(d, AT_HIGH_PC) then HighPc(u, d) else Ok(Wrap(low + 1));
    Ok((low, high))
  }

  function PcCovered(c: CompUnit, d: Entry, pc: word): Result<bool>
    requires IsRead(c.u, d)
  {
    if Has(d, AT_RANGES) then
      var l :- ListedRanges(c, d);
      Contains(Slice(l.0, l.1, c.u.Sec().addrSize), l.2, 0, pc)
    else
      var b :- Bounds(c.u, d);
      Contains(Synthetic(c.u.Sec().lsb, [b]), 0, 0, pc)
  }

  /** Without a ranges attribute an entry covers exactly the half-open interval between its bounds. */
  lemma BoundsCover(c: CompUnit, d: Entry, pc: word)
    requires IsRead(c.u, d) && !Has(d, AT_RANGES) && Bounds(c.u, d).Ok?
    ensures PcCovered(c, d, pc) == Ok(Inside(Bounds(c.u, d).value, pc))
  {
    hide Contains, Synthetic, Bounds, ReadDie;
    SinglePairContains(c.u.Sec().lsb, Bounds(c.u, d).value, pc);
  }

  // ---------- the search ----------

  predicate IsFunction(d: Entry) {
    d.abbrev.Some? && d.abbrev.value.tag in {TAG_SUBPROGRAM, TAG_INLINED_SUBROUTINE}
  }

  /** What `find_pc` appends; it answers true exactly when that is something. An entry whose ranges
      cannot be read covers nothing. */
  function FindPc(c: CompUnit, d: Entry, pc: word): Result<seq<Entry>>
    requires IsRead(c.u, d)
  {
    FindIn(c, d, pc, {})
  }

  /** The search inside those of the entries at the offsets `open`: back at one of them, it never ends. */
  function FindIn(c: CompUnit, d: Entry, pc: word, open: set<nat>): Result<seq<Entry>>
    requires IsRead(c.u, d)
    decreases Left(c.u, open), 0
  {
    if d.offset in open then Err(NoEnd)
    else
      OneLess(c.u, open, d);
      var below :-
        if d.abbrev.None? || !d.abbrev.value.children then Ok([])
        else
          var first :- ReadDie(c.u, d.next);
          FindAmong(c, first, pc, open + {d.offset}, {});
      Ok(below + if IsFunction(d) && (below != [] || PcCovered(c, d, pc) == Ok(true)) then [d] else [])
  }

  /** The loop over siblings, left at the first that found something. */
  function FindAmong(c: CompUnit, d: Entry, pc: word, open: set<nat>, seen: set<nat>): Result<seq<Entry>>
    requires IsRead(c.u, d)
    decreases Left(c.u, open), 1, Left(c.u, seen)
  {
    if d.abbrev.None? then Ok([])
    else if d.offset in seen then Err(NoEnd)
    else
      OneLess(c.u, seen, d);
      var found :- FindIn(c, d, pc, open);
      if found != [] then Ok(found)
      else
        var n :- Next(c.u, d);
        FindAmong(c, n, pc, open, seen + {d.offset})
  }

  function FunctionAt(units: seq<CompUnit>, pc: word): Result<Entry> {
    if units == [] then Err(OutOfRange)
    else
      var c := units[0];
      var root :- ReadDie(c.u, c.rootOffset);
      var covered :- PcCovered(c, root, pc);
      if !covered then FunctionAt(units[1..], pc)
      else
        var found :- FindPc(c, root, pc);
        if found != [] then Ok(found[0]) else FunctionAt(units[1..], pc)
  }

  // ---------- what it should find ----------

  /** An entry and the entries around it, innermost first. */
  datatype Chain = Chain(die: Entry, up: seq<Entry>)

  /** Every entry of the tree with its ancestors, children before their parent. */
  function PostOrder(t: Tree, pos: nat, up: seq<Entry>): seq<Chain>
    decreases t
  {
    PostOrderAll(t.kids, pos + |HeadBytes(t)|, [Root(t, pos)] + up) + [Chain(Root(t, pos), up)]
  }

  function PostOrderAll(ts: seq<Tree>, pos: nat, up: seq<Entry>): seq<Chain>
    decreases ts
  {
    if ts == [] then [] else PostOrder(ts[0], pos, up) + PostOrderAll(ts[1..], pos + |TreeBytes(ts[0])|, up)
  }

  predicate Matches(c: CompUnit, d: Entry, pc: word) {
    IsFunction(d) && IsRead(c.u, d) && PcCovered(c, d, pc) == Ok(true)
  }

  /** Chain `i` is the first whose entry matches. */
  predicate FirstAt(c: CompUnit, chains: seq<Chain>, i: nat, pc: word) {
    && i < |chains| && Matches(c, chains[i].die, pc)
    && forall j :: 0 <= j < i ==> !Matches(c, chains[j].die, pc)
  }

  function FirstMatch(c: CompUnit, chains: seq<Chain>, pc: word): (r: Option<Chain>)
    ensures r.None? ==> forall i :: 0 <= i < |chains| ==> !Matches(c, chains[i].die, pc)
    ensures r.Some? ==> exists i: nat :: FirstAt(c, chains, i, pc) && r.value == chains[i]
  {
    if chains == [] then None
    else if Matches(c, chains[0].die, pc) then
      assert FirstAt(c, chains, 0, pc);
      Some(chains[0])
    else
      FirstShifts(c, chains, pc);
      FirstMatch(c, chains[1..], pc)
  }

  lemma FirstShifts(c: CompUnit, chains: seq<Chain>, pc: word)
    requires chains != [] && !Matches(c, chains[0].die, pc)
    ensures forall i: nat :: FirstAt(c, chains[1..], i, pc) ==> FirstAt(c, chains, i + 1, pc)
  {
    hide Matches;
    forall i: nat | FirstAt(c, chains[1..], i, pc) ensures FirstAt(c, chains, i + 1, pc) {
      forall j | 0 <= j < i + 1 ensures !Matches(c, chains[j].die, pc) {
        if j > 0 { assert chains[j] == chains[1..][j - 1]; }
      }
    }
  }

  lemma {:induction false} FirstMatchConcat(c: CompUnit, a: seq<Chain>, b: seq<Chain>, pc: word)
    ensures FirstMatch(c, a + b, pc) ==
            if FirstMatch(c, a, pc).Some? then FirstMatch(c, a, pc) else FirstMatch(c, b, pc)
  {
    hide Matches;
    if a == [] {
      assert a + b == b;
    } else {
      assert (a + b)[1..] == a[1..] + b;
      FirstMatchConcat(c, a[1..], b, pc);
    }
  }

  /** Entries of [lo, hi), each listed before the entries of that range around it. */
  predicate InnerFirst(chains: seq<Chain>, lo: nat, hi: nat, up: seq<Entry>) {
    && (forall ch :: ch in chains ==> lo <= ch.die.offset < hi)
    && (forall ch, e :: ch in chains && e in ch.up ==> e in up || lo <= e.offset < hi)
    && (forall i, k :: 0 <= i < |chains| && 0 <= k < |chains| && chains[i].die in chains[k].up ==> k < i)
  }

  lemma InnerFirstConcat(a: seq<Chain>, b: seq<Chain>, lo: nat, mid: nat, hi: nat, up: seq<Entry>)
    requires InnerFirst(a, lo, mid, up) && InnerFirst(b, mid, hi, up) && lo <= mid <= hi
    requires forall e :: e in up ==> e.offset < lo
    ensures InnerFirst(a + b, lo, hi, up)
  {
    var all := a + b;
    forall i, k | 0 <= i < |all| && 0 <= k < |all| && all[i].die in all[k].up ensures k < i {
      if |a| <= k {
        assert all[k] == b[k - |a|] && all[k] in b;
        if i >= |a| { assert all[i] == b[i - |a|]; }
      }
    }
  }

  lemma {:induction false} TreeInnerFirst(u: Unit, t: Tree, pos: nat, up: seq<Entry>)
    requires TreeFits(u, t, pos) && forall e :: e in up ==> e.offset < pos
    ensures InnerFirst(PostOrder(t, pos, up), pos, pos + |TreeBytes(t)|, up)
    decreases t
  {
    hide InnerFirst, PostOrderAll, HeadFits, HeadBytes, ForestFits;
    var inner := PostOrderAll(t.kids, pos + |HeadBytes(t)|, [Root(t, pos)] + up);
    HeadIsSomething(u, t);
    ForestInnerFirst(u, t.kids, pos + |HeadBytes(t)|, [Root(t, pos)] + up);
    RootIsLast(inner, Chain(Root(t, pos), up), pos + |HeadBytes(t)|,
               pos + |HeadBytes(t)| + |ForestBytes(t.kids)|, pos + |TreeBytes(t)|);
  }

  lemma HeadIsSomething(u: Unit, t: Tree)
    requires HeadFits(u, t)
    ensures |HeadBytes(t)| > 0 && (!t.abbrev.children ==> |ForestBytes(t.kids)| == 0)
  {}

  lemma RootIsLast(inner: seq<Chain>, root: Chain, lo: nat, end: nat, hi: nat)
    requires InnerFirst(inner, lo, end, [root.die] + root.up) && root.die.offset < lo <= end <= hi
    requires forall e :: e in root.up ==> e.offset < root.die.offset
    ensures InnerFirst(inner + [root], root.die.offset, hi, root.up)
  {
    var all := inner + [root];
    forall i, k | 0 <= i < |all| && 0 <= k < |all| && all[i].die in all[k].up ensures k < i {
      if i < |inner| { assert all[i] in inner; }
    }
  }

  lemma {:induction false} ForestInnerFirst(u: Unit, ts: seq<Tree>, pos: nat, up: seq<Entry>)
    requires ForestFits(u, ts, pos) && forall e :: e in up ==> e.offset < pos
    ensures InnerFirst(PostOrderAll(ts, pos, up), pos, pos + |ForestBytes(ts)|, up)
    decreases ts
  {
    hide InnerFirst, PostOrder, TreeFits, TreeBytes;
    if ts == [] {
      NothingInnerFirst(pos, up);
    } else {
      var next := pos + |TreeBytes(ts[0])|;
      TreeInnerFirst(u, ts[0], pos, up);
      ForestInnerFirst(u, ts[1..], next, up);
      InnerFirstConcat(PostOrder(ts[0], pos, up), PostOrderAll(ts[1..], next, up),
                       pos, next, next + |ForestBytes(ts[1..])|, up);
    }
  }

  lemma NothingInnerFirst(pos: nat, up: seq<Entry>)
    ensures InnerFirst([], pos, pos, up)
  {}

  /** No function entry below the first match covers the address: it is the innermost on its branch. */
  lemma FirstMatchIsInnermost(c: CompUnit, t: Tree, pos: nat, pc: word, i: nat, k: nat)
    requires TreeFits(c.u, t, pos)
    requires FirstAt(c, PostOrder(t, pos, []), i, pc) && k < |PostOrder(t, pos, [])|
    requires PostOrder(t, pos, [])[i].die in PostOrder(t, pos, [])[k].up
    ensures !Matches(c, PostOrder(t, pos, [])[k].die, pc)
  {
    hide Matches, PostOrder, TreeFits;
    TreeInnerFirst(c.u, t, pos, []);
  }

  function Functions(es: seq<Entry>): seq<Entry> {
    if es == [] then [] else (if IsFunction(es[0]) then [es[0]] else []) + Functions(es[1..])
  }

  /** What the search appends for a chain: the matching entry and the functions around it. */
  function Answer(m: Option<Chain>): seq<Entry> {
    match m case None => [] case Some(ch) => Functions([ch.die] + ch.up)
  }

  /** `found`, seen from inside entries `up`, is what the first match of `chains` gives. */
  ghost predicate Agrees(c: CompUnit, found: Result<seq<Entry>>, chains: seq<Chain>, up: seq<Entry>, pc: word) {
    && found.Ok?
    && var m := FirstMatch(c, chains, pc);
      && (m.None? <==> found.value == [])
      && (m.Some? ==> Answer(m) == found.value + Functions(up) && found.value[0] == m.value.die)
  }

  /** The search finds something exactly when some function entry of the tree covers the address; what it
      gives is the first such entry in post-order, hence one none of whose descendants covers it, and
      then every function entry around that one, innermost first. */
  lemma FindPcIsFirstMatch(c: CompUnit, t: Tree, pos: nat, pc: word)
    requires TreeFits(c.u, t, pos) && At(c.u.Sec().data, pos, TreeBytes(t))
    ensures IsRead(c.u, Root(t, pos))
    ensures FindPc(c, Root(t, pos), pc) == Ok(Answer(FirstMatch(c, PostOrder(t, pos, []), pc)))
    ensures var m := FirstMatch(c, PostOrder(t, pos, []), pc);
      m.Some? ==> FindPc(c, Root(t, pos), pc).value != [] && FindPc(c, Root(t, pos), pc).value[0] == m.value.die
  {
    hide FindIn, FirstMatch, PostOrder, ReadDie, Answer;
    FindInTree(c, t, pos, [], pc, {});
    AnswerNone();
    assert FindPc(c, Root(t, pos), pc).value + Functions([]) == FindPc(c, Root(t, pos), pc).value;
  }

  lemma AnswerNone()
    ensures Answer(None) == []
  {}

  lemma {:induction false} FindInTree(c: CompUnit, t: Tree, pos: nat, up: seq<Entry>, pc: word, open: set<nat>)
    requires TreeFits(c.u, t, pos) && At(c.u.Sec().data, pos, TreeBytes(t)) && forall x :: x in open ==> x < pos
    ensures IsRead(c.u, Root(t, pos))
    ensures Agrees(c, FindIn(c, Root(t, pos), pc, open), PostOrder(t, pos, up), up, pc)
    decreases t, 0
  {
    hide At, ReadDie, FindAmong, PcCovered, FirstMatch, HeadFits, HeadBytes, TreeBytes, ForestFits, PostOrderAll;
    var d := Root(t, pos);
    RootIsThere(c.u, t, pos);
    RootOffsets(c.u, t, pos);
    ReadGrows(c.u, pos);
    var below: Result<seq<Entry>>;
    if t.abbrev.children {
      NulFits(c.u, t);
      FindInForest(c, t.kids, t.nul, pos + |HeadBytes(t)|, [d] + up, pc, open + {pos}, {});
      below := FindAmong(c, ReadDie(c.u, d.next).value, pc, open + {pos}, {});
    } else {
      NoKids(c, t, pos, [d] + up, pc);
      below := Ok([]);
    }
    FindUnfold(c, d, pc, open, below);
    AgreesUpward(c, d, below, PostOrderAll(t.kids, pos + |HeadBytes(t)|, [d] + up), up, pc);
  }

  lemma NoKids(c: CompUnit, t: Tree, pos: nat, up: seq<Entry>, pc: word)
    requires HeadFits(c.u, t) && !t.abbrev.children
    ensures Agrees(c, Ok([]), PostOrderAll(t.kids, pos + |HeadBytes(t)|, up), up, pc)
  {}

  lemma FindUnfold(c: CompUnit, d: Entry, pc: word, open: set<nat>, below: Result<seq<Entry>>)
    requires IsRead(c.u, d) && below.Ok? && d.abbrev.Some? && d.offset !in open
    requires if d.abbrev.value.children then
               && ReadDie(c.u, d.next).Ok?
               && below == FindAmong(c, ReadDie(c.u, d.next).value, pc, open + {d.offset}, {})
             else below == Ok([])
    ensures FindIn(c, d, pc, open) ==
      Ok(below.value + if IsFunction(d) && (below.value != [] || PcCovered(c, d, pc) == Ok(true)) then [d] else [])
  {
    hide ReadDie, FindAmong, PcCovered;
  }

  lemma AgreesUpward(c: CompUnit, d: Entry, below: Result<seq<Entry>>, chains: seq<Chain>, up: seq<Entry>, pc: word)
    requires IsRead(c.u, d) && Agrees(c, below, chains, [d] + up, pc)
    ensures Agrees(c, Ok(below.value +
                   if IsFunction(d) && (below.value != [] || PcCovered(c, d, pc) == Ok(true)) then [d] else []),
                   chains + [Chain(d, up)], up, pc)
  {
    hide ReadDie, PcCovered, IsFunction;
    FirstMatchConcat(c, chains, [Chain(d, up)], pc);
    FirstMatchOne(c, Chain(d, up), pc);
    assert ([d] + up)[1..] == up;
    var inner, own := below.value, if IsFunction(d) then [d] else [];
    assert inner + (own + Functions(up)) == inner + own + Functions(up);
  }

  lemma FirstMatchOne(c: CompUnit, ch: Chain, pc: word)
    ensures FirstMatch(c, [ch], pc) == if Matches(c, ch.die, pc) then Some(ch) else None
  {
    hide Matches;
    assert FirstMatch(c, [ch][1..], pc) == None;
  }

  lemma {:induction false} FindInForest(c: CompUnit, ts: seq<Tree>, nul: seq<byte>, pos: nat, up: seq<Entry>,
      pc: word, open: set<nat>, seen: set<nat>)
    requires ForestFits(c.u, ts, pos) && Leb128.Terminated(nul) && Leb128.Unsigned(nul) == 0
    requires At(c.u.Sec().data, pos, ForestBytes(ts) + nul)
    requires (forall x :: x in open ==> x < pos) && forall x :: x in seen ==> x < pos
    ensures ReadDie(c.u, pos).Ok?
    ensures Agrees(c, FindAmong(c, ReadDie(c.u, pos).value, pc, open, seen), PostOrderAll(ts, pos, up), up, pc)
    decreases ts, 1
  {
    hide At, ReadDie, Next, FindIn, FirstMatch, HeadFits, HeadBytes, TreeBytes, PostOrder,
         Leb128.Terminated, Leb128.Unsigned;
    if ts == [] {
      assert ForestBytes(ts) + nul == nul;
      NullIsRead(c.u, nul, pos);
      FirstMatchNone(c, pc);
    } else {
      FirstOfForest(c.u, ts, nul, pos);
      RootOffsets(c.u, ts[0], pos);
      FindInTree(c, ts[0], pos, up, pc, open);
      NextSkipsSubtree(c.u, ts[0], pos);
      FindInForest(c, ts[1..], nul, pos + |TreeBytes(ts[0])|, up, pc, open, seen + {pos});
      FirstMatchConcat(c, PostOrder(ts[0], pos, up), PostOrderAll(ts[1..], pos + |TreeBytes(ts[0])|, up), pc);
      ReadGrows(c.u, pos + |TreeBytes(ts[0])|);
    }
  }

  lemma FirstMatchNone(c: CompUnit, pc: word)
    ensures FirstMatch(c, [], pc) == None
  {}

  // ---------- over all units ----------

  datatype Placed = Placed(c: CompUnit, t: Tree)

  predicate IsPlaced(p: Placed) {
    TreeFits(p.c.u, p.t, p.c.rootOffset) && At(p.c.u.Sec().data, p.c.rootOffset, TreeBytes(p.t))
  }

  function UnitsOf(ps: seq<Placed>): seq<CompUnit> {
    seq(|ps|, i requires 0 <= i < |ps| => ps[i].c)
  }

  /** Whether the unit's root covers the address. */
  function RootCovers(p: Placed, pc: word): Result<bool>
    requires IsPlaced(p)
  {
    RootIsThere(p.c.u, p.t, p.c.rootOffset);
    PcCovered(p.c, Root(p.t, p.c.rootOffset), pc)
  }

  /** The innermost function of the unit, when the unit's root covers the address at all. */
  function InnermostIn(p: Placed, pc: word): Option<Entry>
    requires IsPlaced(p)
  {
    if RootCovers(p, pc) != Ok(true) then None
    else match FirstMatch(p.c, PostOrder(p.t, p.c.rootOffset, []), pc) case None => None case Some(ch) => Some(ch.die)
  }

  /** Units before `i` have readable bounds and no answer. */
  predicate PassedOver(ps: seq<Placed>, i: nat, pc: word)
    requires i <= |ps| && forall p :: p in ps ==> IsPlaced(p)
  {
    forall j :: 0 <= j < i ==> RootCovers(ps[j], pc).Ok? && InnermostIn(ps[j], pc) == None
  }

  /** The function reported is the innermost one of the first unit that has any; the search fails when no
      unit does, or with the error of the first unit whose own bounds cannot be read. */
  lemma {:induction false} FunctionAtIsFirst(ps: seq<Placed>, pc: word)
    requires forall p :: p in ps ==> IsPlaced(p)
    ensures match FunctionAt(UnitsOf(ps), pc)
            case Ok(d) => exists i :: 0 <= i < |ps| && InnermostIn(ps[i], pc) == Some(d) && PassedOver(ps, i, pc)
            case Err(e) =>
              || (e == OutOfRange && PassedOver(ps, |ps|, pc))
              || exists i :: 0 <= i < |ps| && RootCovers(ps[i], pc) == Err(e) && PassedOver(ps, i, pc)
  {
    hide FindPc, FirstMatch, IsPlaced, RootCovers, InnermostIn, PcCovered, ReadDie;
    if ps != [] {
      assert UnitsOf(ps)[1..] == UnitsOf(ps[1..]);
      assert PassedOver(ps, 0, pc);
      FirstUnit(ps[0], UnitsOf(ps), pc);
      if RootCovers(ps[0], pc).Ok? && InnermostIn(ps[0], pc).None? {
        FunctionAtIsFirst(ps[1..], pc);
        forall i | 0 <= i < |ps| && PassedOver(ps[1..], i, pc) ensures PassedOver(ps, i + 1, pc) {
          forall j | 0 <= j < i + 1 ensures RootCovers(ps[j], pc).Ok? && InnermostIn(ps[j], pc) == None {
            if j > 0 { assert ps[1..][j - 1] == ps[j]; }
          }
        }
        forall i | 0 <= i < |ps[1..]| ensures ps[1..][i] == ps[i + 1] {}
      }
    }
  }

  lemma FirstUnit(p: Placed, units: seq<CompUnit>, pc: word)
    requires IsPlaced(p) && units != [] && units[0] == p.c
    ensures FunctionAt(units, pc) ==
      match RootCovers(p, pc)
      case Err(e) => Err(e)
      case Ok(_) =>
        match InnermostIn(p, pc) case Some(d) => Ok(d) case None => FunctionAt(units[1..], pc)
  {
    hide FindPc, FirstMatch, At, TreeFits, PcCovered, ReadDie, PostOrder, TreeBytes, Answer;
    RootIsRead(p);
    FindPcIsFirstMatch(p.c, p.t, p.c.rootOffset, pc);
    AnswerNone();
  }

  lemma RootIsRead(p: Placed)
    requires IsPlaced(p)
    ensures ReadDie(p.c.u, p.c.rootOffset) == Ok(Root(p.t, p.c.rootOffset))
  {
    hide ReadDie;
    RootIsThere(p.c.u, p.t, p.c.rootOffset);
  }

  // ---------- the procedures ----------

  class DieStack {
    var items: seq<Entry>

    constructor ()
      ensures items == []
    {
      items := [];
    }

    method PushBack(d: Entry)
      modifies this
      ensures items == old(items) + [d]
    {
      items := items + [d];
    }
  }

  method CoversPc(c: CompUnit, d: Entry, pc: word) returns (r: Result<bool>)
    requires IsRead(c.u, d)
    ensures r == PcCovered(c, d, pc)
  {
    hide ReadDie, LowPc, HighPc, Contains, Synthetic, Slice;
    var list: RangeList;
    if Has(d, AT_RANGES) {
      var l := ListedRanges(c, d);
      if l.Err? { return Err(l.error); }
      list := new RangeList.FromSection(l.value.0, l.value.1, c.u.Sec().addrSize, l.value.2);
    } else {
      var b := Bounds(c.u, d);
      if b.Err? { return Err(b.error); }
      list := new RangeList.FromPairs(c.u.Sec().lsb, [b.value]);
    }
    r := list.ContainsAddress(pc);
  }

  method FindPcInto(c: CompUnit, d: Entry, pc: word, stack: DieStack) returns (r: Result<bool>)
    requires IsRead(c.u, d)
    modifies stack
    ensures match FindPc(c, d, pc)
            case Err(e) => r == Err(e)
            case Ok(found) => r == Ok(found != []) && stack.items == old(stack.items) + found
  {
    r := FindInto(c, d, pc, stack, {});
  }

  /** The search inside those of the entries at `open`. Where the program would never end, this does. */
  method FindInto(c: CompUnit, d: Entry, pc: word, stack: DieStack, open: set<nat>) returns (r: Result<bool>)
    requires IsRead(c.u, d)
    modifies stack
    ensures match FindIn(c, d, pc, open)
            case Err(e) => r == Err(e)
            case Ok(found) => r == Ok(found != []) && stack.items == old(stack.items) + found
    decreases Left(c.u, open)
  {
    hide ReadDie, Next, PcCovered, Left;
    if d.offset in open { return Err(NoEnd); }
    OneLess(c.u, open, d);
    ghost var before := stack.items;
    var found := false;
    ghost var below: seq<Entry> := [];
    if d.abbrev.Some? && d.abbrev.value.children {
      var it := new DieIterator(c.u);
      var read := it.d.Read(d.next);
      if read.Err? { return Err(read.error); }
      ghost var first := it.d.View();
      var inside, seen := open + {d.offset}, {};
      while it.d.abbrev.Some?
        invariant fresh(it.d) && it.d.u == c.u && it.d.Valid()
        invariant stack.items == before && IsRead(c.u, first)
        invariant FindAmong(c, first, pc, inside, {}) == FindAmong(c, it.d.View(), pc, inside, seen)
        decreases Left(c.u, seen)
      {
        if it.d.offset in seen { return Err(NoEnd); }
        OneLess(c.u, seen, it.d.View());
        seen := seen + {it.d.offset};
        var inner := FindInto(c, it.d.View(), pc, stack, inside);
        if inner.Err? { return Err(inner.error); }
        if inner.value {
          found := true;
          break;
        }
        assert stack.items == before;
        var step := it.Increment();
        if step.Err? { return Err(step.error); }
      }
      below := FindAmong(c, first, pc, inside, {}).value;
    }
    assert before + below == stack.items && found == (below != []);
    if IsFunction(d) {
      if !found {
        var covered := CoversPc(c, d, pc);
        found := covered == Ok(true);
      }
      if found { stack.PushBack(d); }
    }
    return Ok(found);
  }

  method GetFunctionFromPc(units: seq<CompUnit>, pc: word) returns (r: Result<Entry>)
    ensures r == FunctionAt(units, pc)
  {
    hide ReadDie, PcCovered, FindPc;
    for i := 0 to |units|
      invariant FunctionAt(units, pc) == FunctionAt(units[i..], pc)
    {
      assert units[i..][1..] == units[i + 1..];
      var root := ReadDie(units[i].u, units[i].rootOffset);
      if root.Err? { return Err(root.error); }
      ReadIsRead(units[i].u, units[i].rootOffset);
      var covered := CoversPc(units[i], root.value, pc);
      if covered.Err? { return Err(covered.error); }
      if covered.value {
        var stack := new DieStack();
        var found := FindPcInto(units[i], root.value, pc, stack);
        if found.Err? { return Err(found.error); }
        if found.value { return Ok(stack.items[0]); }
      }
    }
    return Err(OutOfRange);
  }
}
