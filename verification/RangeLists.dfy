/** Range lists (section 2.17.3 of DWARF Version 4): iterating, searching, and lists made from pairs. */
module RangeLists {
  import opened Words
  import opened Sections

  type Range = (word, word)

  const ALL_ONES: word := 0xffff_ffff_ffff_ffff

  predicate Inside(r: Range, addr: word) { r.0 <= addr < r.1 }

  // ---------- the iterator, as a function of its state ----------

  function PairAt(sec: Section, pos: nat): (r: Result<(Range, nat)>)
    ensures r.Ok? ==> pos < r.value.1 <= |sec.data|
  {
    var low :- AddressAt(sec, pos);
    var high :- AddressAt(sec, low.1);
    Ok(((low.0, high.0), high.1))
  }

  /** The value that marks a base address selection. For addresses of 4 to 7 bytes it is computed with a
      shift wider than the shifted type. */
  function Largest(addrSize: nat): Result<word> {
    if addrSize >= 8 then Ok(ALL_ONES)
    else if addrSize >= 4 then Err(Undefined)
    else Ok(Wrap(ALL_ONES + Pow2(8 * addrSize)))
  }

  /** A range, the base address then in force, and where the next pair starts. */
  datatype Position = Position(entry: Range, base: word, pos: nat)

  function Scan(sec: Section, largest: word, base: word, pos: nat): (r: Result<Option<Position>>)
    ensures r.Ok? && r.value.Some? ==> pos < r.value.value.pos <= |sec.data|
    decreases |sec.data| - pos
  {
    var p :- PairAt(sec, pos);
    if p.0 == (0, 0) then Ok(None)
    else if p.0.0 == largest then Scan(sec, largest, p.0.1, p.1)
    else Ok(Some(Position((Wrap(p.0.0 + base), Wrap(p.0.1 + base)), base, p.1)))
  }

  function Advance(sec: Section, base: word, pos: nat): (r: Result<Option<Position>>)
    ensures r.Ok? && r.value.Some? ==> pos < r.value.value.pos <= |sec.data|
  {
    var largest :- Largest(sec.addrSize);
    Scan(sec, largest, base, pos)
  }

  /** The ranges that iterating yields. */
  function Entries(sec: Section, base: word, pos: nat): Result<seq<Range>>
    decreases |sec.data| - pos
  {
    var p :- Advance(sec, base, pos);
    match p
    case None => Ok([])
    case Some(q) =>
      var rest :- Entries(sec, q.base, q.pos);
      Ok([q.entry] + rest)
  }

  /** `contains` stops at the first range that holds the address. */
  function Contains(sec: Section, base: word, pos: nat, addr: word): Result<bool>
    decreases |sec.data| - pos
  {
    var p :- Advance(sec, base, pos);
    match p
    case None => Ok(false)
    case Some(q) => if Inside(q.entry, addr) then Ok(true) else Contains(sec, q.base, q.pos, addr)
  }

  // ---------- what a list denotes ----------

  /** The raw pairs up to the (0, 0) pair, and the error that stopped the reading when none came. */
  function Raw(sec: Section, pos: nat): (seq<Range>, Option<Error>)
    decreases |sec.data| - pos
  {
    match PairAt(sec, pos)
    case Err(e) => ([], Some(e))
    case Ok(p) =>
      if p.0 == (0, 0) then ([], None)
      else
        var rest := Raw(sec, p.1);
        ([p.0] + rest.0, rest.1)
  }

  /** The base address in force for pair `i`: the last selection before it, or the unit's own. */
  function BaseOf(raw: seq<Range>, largest: word, base: word, i: nat): word
    requires i <= |raw|
  {
    if i == 0 then base
    else if raw[i - 1].0 == largest then raw[i - 1].1
    else BaseOf(raw, largest, base, i - 1)
  }

  /** Pair `i` denotes a range that holds the address. */
  predicate Holds(raw: seq<Range>, largest: word, base: word, i: nat, addr: word)
    requires i < |raw|
  {
    && raw[i].0 != largest
    && var b := BaseOf(raw, largest, base, i);
      Wrap(raw[i].0 + b) <= addr < Wrap(raw[i].1 + b)
  }

  predicate Denotes(raw: seq<Range>, largest: word, base: word, addr: word) {
    exists i :: 0 <= i < |raw| && Holds(raw, largest, base, i, addr)
  }

  lemma {:induction false} BaseShifts(raw: seq<Range>, largest: word, base: word, i: nat)
    requires 0 < i <= |raw|
    ensures BaseOf(raw, largest, base, i) ==
            BaseOf(raw[1..], largest, if raw[0].0 == largest then raw[0].1 else base, i - 1)
  {
    if i > 1 { BaseShifts(raw, largest, base, i - 1); }
  }

  lemma DenotesUnfold(raw: seq<Range>, largest: word, base: word, addr: word)
    requires raw != []
    ensures Denotes(raw, largest, base, addr) <==>
            || Holds(raw, largest, base, 0, addr)
            || Denotes(raw[1..], largest, if raw[0].0 == largest then raw[0].1 else base, addr)
  {
    hide BaseOf;
    var base' := if raw[0].0 == largest then raw[0].1 else base;
    forall i | 0 < i < |raw|
      ensures Holds(raw, largest, base, i, addr) == Holds(raw[1..], largest, base', i - 1, addr)
    {
      BaseShifts(raw, largest, base, i);
    }
    if Denotes(raw[1..], largest, base', addr) {
      var i :| 0 <= i < |raw[1..]| && Holds(raw[1..], largest, base', i, addr);
      assert Holds(raw, largest, base, i + 1, addr);
    }
  }

  /** The search says what the list denotes: found exactly when some pair's range, displaced by the base
      in force, holds the address; and an unreadable tail matters only when no earlier range did. With
      addresses of 4 to 7 bytes it has no meaning at all. */
  lemma ContainsExactlyWhen(sec: Section, base: word, pos: nat, addr: word)
    ensures Largest(sec.addrSize).Err? <==> 4 <= sec.addrSize <= 7
    ensures sec.addrSize < 4 ==> Largest(sec.addrSize) == Ok(Pow2(8 * sec.addrSize) - 1)
    ensures sec.addrSize >= 8 ==> Largest(sec.addrSize) == Ok(0xffff_ffff_ffff_ffff)
    ensures Largest(sec.addrSize).Err? ==> Contains(sec, base, pos, addr).Err?
    ensures Largest(sec.addrSize).Ok? ==>
      var raw := Raw(sec, pos);
      Contains(sec, base, pos, addr) ==
        if Denotes(raw.0, Largest(sec.addrSize).value, base, addr) then Ok(true)
        else match raw.1 case None => Ok(false) case Some(e) => Err(e)
  {
    hide Denotes, Raw, Pow2;
    if sec.addrSize < 4 { LargestOf(sec.addrSize); }
    if Largest(sec.addrSize).Ok? { ContainsFrom(sec, base, pos, addr); }
  }

  lemma LargestOf(n: nat)
    requires n < 4
    ensures 1 <= Pow2(8 * n) <= TWO32 && (ALL_ONES + Pow2(8 * n)) % TWO64 == Pow2(8 * n) - 1
  {
    hide Pow2;
    Pow2Is32();
    if n < 3 { Pow2Below(8 * n, 32); } else { Pow2Below(24, 32); }
    ModUnique(ALL_ONES + Pow2(8 * n), TWO64, 1, Pow2(8 * n) - 1);
  }

  lemma {:induction false} ContainsFrom(sec: Section, base: word, pos: nat, addr: word)
    requires Largest(sec.addrSize).Ok?
    ensures var raw := Raw(sec, pos);
      Contains(sec, base, pos, addr) ==
        if Denotes(raw.0, Largest(sec.addrSize).value, base, addr) then Ok(true)
        else match raw.1 case None => Ok(false) case Some(e) => Err(e)
    decreases |sec.data| - pos
  {
    hide PairAt, Holds, Denotes, Largest;
    var largest := Largest(sec.addrSize).value;
    NothingDenoted(largest, base, addr);
    match PairAt(sec, pos) {
      case Err(_) =>
      case Ok(p) =>
        if p.0 != (0, 0) {
          RawUnfold(sec, pos);
          DenotesUnfold(Raw(sec, pos).0, largest, base, addr);
          ContainsFrom(sec, if p.0.0 == largest then p.0.1 else base, p.1, addr);
          ContainsUnfold(sec, largest, base, pos, addr);
          FirstHolds(Raw(sec, pos).0, largest, base, addr);
        }
    }
  }

  lemma NothingDenoted(largest: word, base: word, addr: word)
    ensures !Denotes([], largest, base, addr)
  {}

  lemma FirstHolds(raw: seq<Range>, largest: word, base: word, addr: word)
    requires raw != []
    ensures Holds(raw, largest, base, 0, addr) <==>
            raw[0].0 != largest && Inside((Wrap(raw[0].0 + base), Wrap(raw[0].1 + base)), addr)
  {}

  lemma RawUnfold(sec: Section, pos: nat)
    requires PairAt(sec, pos).Ok? && PairAt(sec, pos).value.0 != (0, 0)
    ensures var p, raw := PairAt(sec, pos).value, Raw(sec, pos);
      raw.0 != [] && raw.0[0] == p.0 && raw.0[1..] == Raw(sec, p.1).0 && raw.1 == Raw(sec, p.1).1
  {}

  lemma ContainsUnfold(sec: Section, largest: word, base: word, pos: nat, addr: word)
    requires Largest(sec.addrSize) == Ok(largest)
    requires PairAt(sec, pos).Ok? && PairAt(sec, pos).value.0 != (0, 0)
    ensures var p := PairAt(sec, pos).value;
      Contains(sec, base, pos, addr) ==
        if p.0.0 == largest then Contains(sec, p.0.1, p.1, addr)
        else if Inside((Wrap(p.0.0 + base), Wrap(p.0.1 + base)), addr) then Ok(true)
        else Contains(sec, base, p.1, addr)
  {
    hide PairAt, Largest;
  }

  // ---------- lists made from pairs ----------

  function PairBytes(lsb: bool, r: Range): (bs: seq<byte>)
    ensures |bs| == 16
  {
    FixedBytes(lsb, r.0, 8) + FixedBytes(lsb, r.1, 8)
  }

  function SyntheticBytes(lsb: bool, ranges: seq<Range>, i: nat): (bs: seq<byte>)
    requires i <= |ranges|
    ensures |bs| == 16 * (|ranges| - i) + 16
    decreases |ranges| - i
  {
    if i == |ranges| then PairBytes(lsb, (0, 0)) else PairBytes(lsb, ranges[i]) + SyntheticBytes(lsb, ranges, i + 1)
  }

  /** The section a list made from pairs iterates over; its base address is 0. */
  function Synthetic(lsb: bool, ranges: seq<Range>): Section {
    Section(SyntheticBytes(lsb, ranges, 0), Unknown, lsb, 8)
  }

  lemma PairRoundTrip(sec: Section, pos: nat, r: Range)
    requires sec.addrSize == 8 && At(sec.data, pos, PairBytes(sec.lsb, r))
    ensures PairAt(sec, pos) == Ok((r, pos + 16))
  {
    hide At, FixedAt, FixedBytes, Pow2;
    Pow2Is64();
    AtSplit(sec.data, pos, FixedBytes(sec.lsb, r.0, 8), FixedBytes(sec.lsb, r.1, 8));
    FixedRoundTrip(sec, pos, r.0, 8);
    EightBytes(sec.lsb, r.0);
    FixedRoundTrip(sec, pos + 8, r.1, 8);
  }

  lemma EightBytes(lsb: bool, v: word)
    ensures |FixedBytes(lsb, v, 8)| == 8
  {}

  lemma {:induction false} SyntheticPairs(lsb: bool, ranges: seq<Range>, i: nat)
    requires i <= |ranges|
    ensures At(Synthetic(lsb, ranges).data, 16 * i, SyntheticBytes(lsb, ranges, i))
    ensures PairAt(Synthetic(lsb, ranges), 16 * i) == Ok((if i == |ranges| then (0, 0) else ranges[i], 16 * i + 16))
  {
    hide At, PairAt, PairBytes;
    var data := Synthetic(lsb, ranges).data;
    if i == 0 {
      WholeIsAt(data);
    } else {
      SyntheticPairs(lsb, ranges, i - 1);
      AtSplit(data, 16 * (i - 1), PairBytes(lsb, ranges[i - 1]), SyntheticBytes(lsb, ranges, i));
    }
    if i == |ranges| {
      PairRoundTrip(Synthetic(lsb, ranges), 16 * i, (0, 0));
    } else {
      AtSplit(data, 16 * i, PairBytes(lsb, ranges[i]), SyntheticBytes(lsb, ranges, i + 1));
      PairRoundTrip(Synthetic(lsb, ranges), 16 * i, ranges[i]);
    }
  }

  lemma WholeIsAt(data: seq<byte>)
    ensures At(data, 0, data)
  {
    assert data[0..|data|] == data;
  }

  predicate Plain(r: Range) { r != (0, 0) && r.0 != ALL_ONES }

  /** Iterating over a list made from pairs yields the pairs exactly when none of them reads as the end
      of the list or as a base address selection. */
  lemma RoundTripExactlyWhen(lsb: bool, ranges: seq<Range>)
    ensures Entries(Synthetic(lsb, ranges), 0, 0) == Ok(ranges) <==> forall r :: r in ranges ==> Plain(r)
  {
    hide SyntheticBytes, Entries, Plain;
    EntriesFrom(lsb, ranges, 0, 0);
    assert ranges[0..] == ranges;
    if forall r :: r in ranges ==> Plain(r) {
    } else {
      var i :| 0 <= i < |ranges| && !Plain(ranges[i]);
    }
  }

  /** From pair `i` on, each plain pair yields one range and any other yields none. */
  lemma {:induction false} EntriesFrom(lsb: bool, ranges: seq<Range>, i: nat, base: word)
    requires i <= |ranges|
    ensures var r := Entries(Synthetic(lsb, ranges), base, 16 * i);
      && r.Ok? && |r.value| <= |ranges| - i
      && ((exists j :: i <= j < |ranges| && !Plain(ranges[j])) ==> |r.value| < |ranges| - i)
      && (base == 0 && (forall j :: i <= j < |ranges| ==> Plain(ranges[j])) ==> r.value == ranges[i..])
    decreases |ranges| - i
  {
    hide SyntheticBytes, PairAt, Entries;
    SyntheticPairs(lsb, ranges, i);
    EntriesUnfold(Synthetic(lsb, ranges), base, 16 * i);
    if i < |ranges| && ranges[i] != (0, 0) {
      var base' := if ranges[i].0 == ALL_ONES then ranges[i].1 else base;
      EntriesFrom(lsb, ranges, i + 1, base');
      if Plain(ranges[i]) && base == 0 {
        assert ranges[i] == (Wrap(ranges[i].0), Wrap(ranges[i].1));
        assert ranges[i..] == [ranges[i]] + ranges[i + 1..];
      }
    }
  }

  lemma EntriesUnfold(sec: Section, base: word, pos: nat)
    requires sec.addrSize == 8 && PairAt(sec, pos).Ok?
    ensures var p := PairAt(sec, pos).value;
      Entries(sec, base, pos) ==
        if p.0 == (0, 0) then Ok([])
        else if p.0.0 == ALL_ONES then Entries(sec, p.0.1, p.1)
        else match Entries(sec, base, p.1)
             case Err(e) => Err(e)
             case Ok(rest) => Ok([(Wrap(p.0.0 + base), Wrap(p.0.1 + base))] + rest)
  {
    hide PairAt;
  }

  lemma {:induction false} ContainsSearchesEntries(sec: Section, base: word, pos: nat, addr: word)
    requires Entries(sec, base, pos).Ok?
    ensures Contains(sec, base, pos, addr) == Ok(exists e :: e in Entries(sec, base, pos).value && Inside(e, addr))
    decreases |sec.data| - pos
  {
    hide Advance, Inside;
    match Advance(sec, base, pos) {
      case Err(_) =>
      case Ok(None) =>
      case Ok(Some(q)) =>
        ContainsSearchesEntries(sec, q.base, q.pos, addr);
        var rest := Entries(sec, q.base, q.pos).value;
        assert Entries(sec, base, pos).value == [q.entry] + rest;
        if e :| e in rest && Inside(e, addr) { assert e in [q.entry] + rest; }
    }
  }

  /** A list of plain pairs holds exactly the addresses that some pair holds. */
  lemma PlainPairsContain(lsb: bool, ranges: seq<Range>, addr: word)
    requires forall r :: r in ranges ==> Plain(r)
    ensures Contains(Synthetic(lsb, ranges), 0, 0, addr) == Ok(exists r :: r in ranges && Inside(r, addr))
  {
    hide Contains, Entries, SyntheticBytes;
    RoundTripExactlyWhen(lsb, ranges);
    ContainsSearchesEntries(Synthetic(lsb, ranges), 0, 0, addr);
  }

  /** A list of one pair holds exactly the pair's addresses, whatever the pair. */
  lemma SinglePairContains(lsb: bool, r: Range, addr: word)
    ensures Contains(Synthetic(lsb, [r]), 0, 0, addr) == Ok(r.0 <= addr < r.1)
  {
    hide PairAt, SyntheticBytes, Contains;
    var sec := Synthetic(lsb, [r]);
    SyntheticPairs(lsb, [r], 0);
    SyntheticPairs(lsb, [r], 1);
    var base := if r.0 == ALL_ONES then r.1 else 0;
    EndContains(sec, 0, 16, addr);
    EndContains(sec, r.1, 16, addr);
    if r == (0, 0) {
      EndContains(sec, 0, 0, addr);
    } else {
      ContainsUnfold(sec, ALL_ONES, 0, 0, addr);
    }
  }

  lemma EndContains(sec: Section, base: word, pos: nat, addr: word)
    requires sec.addrSize == 8 && PairAt(sec, pos).Ok? && PairAt(sec, pos).value.0 == (0, 0)
    ensures Contains(sec, base, pos, addr) == Ok(false)
  {
    hide PairAt;
  }

  // ---------- the objects ----------

  function Slice(sec: Section, start: nat, addrSize: nat): Section {
    sec.(data := if start <= |sec.data| then sec.data[start..] else [],
         addrSize := if addrSize == 0 then sec.addrSize else addrSize)
  }

  class RangeIterator {
    var sec: Option<Section>
    var base: word
    var pos: nat
    var entry: Range

    constructor (sec: Option<Section>, base: word)
      ensures this.sec == sec && this.base == base && pos == 0
    {
      this.sec := sec;
      this.base := base;
      pos := 0;
      entry := (0, 0);
    }

    method Increment() returns (r: Result<()>)
      requires sec.Some?
      modifies this
      ensures match Advance(old(sec).value, old(base), old(pos))
              case Err(e) => r == Err(e)
              case Ok(None) => r == Ok(()) && sec == None && pos == 0
              case Ok(Some(p)) =>
                r == Ok(()) && sec == old(sec) && entry == p.entry && base == p.base && pos == p.pos
    {
      hide AddressAt, Largest;
      var largest := Largest(sec.value.addrSize);
      if largest.Err? { return Err(largest.error); }
      var s := sec.value;
      var cur := new Cursor(s, pos);
      while true
        invariant fresh(cur) && cur.sec == s && sec == old(sec)
        invariant Scan(s, largest.value, old(base), old(pos)) == Scan(s, largest.value, base, cur.pos)
        decreases |s.data| - cur.pos
      {
        var low := cur.Address();
        if low.Err? { return Err(low.error); }
        var high := cur.Address();
        if high.Err? { return Err(high.error); }
        entry := (low.value, high.value);
        if entry.0 == 0 && entry.1 == 0 {
          sec := None;
          pos := 0;
          return Ok(());
        } else if entry.0 == largest.value {
          base := entry.1;
        } else {
          entry := (Wrap(entry.0 + base), Wrap(entry.1 + base));
          pos := cur.pos;
          return Ok(());
        }
      }
    }
  }

  class RangeList {
    const sec: Option<Section>
    const base: word

    constructor FromSection(ranges: Section, off: nat, addrSize: nat, lowPc: word)
      ensures sec == Some(Slice(ranges, off, addrSize)) && base == lowPc
    {
      sec := Some(Slice(ranges, off, addrSize));
      base := lowPc;
    }

    /** Appends both ends of every range and a (0, 0) pair to the list's own storage. */
    constructor FromPairs(lsb: bool, ranges: seq<Range>)
      ensures sec == Some(Synthetic(lsb, ranges)) && base == 0
    {
      var synthetic: seq<byte> := [];
      for i := 0 to |ranges|
        invariant synthetic + SyntheticBytes(lsb, ranges, i) == SyntheticBytes(lsb, ranges, 0)
      {
        ghost var rest := SyntheticBytes(lsb, ranges, i + 1);
        assert synthetic + (PairBytes(lsb, ranges[i]) + rest) == synthetic + PairBytes(lsb, ranges[i]) + rest;
        synthetic := synthetic + PairBytes(lsb, ranges[i]);
      }
      synthetic := synthetic + PairBytes(lsb, (0, 0));
      sec := Some(Section(synthetic, Unknown, lsb, 8));
      base := 0;
    }

    constructor Empty()
      ensures sec == None
    {
      sec := None;
      base := 0;
    }

    method ContainsAddress(addr: word) returns (r: Result<bool>)
      ensures r == if sec.None? then Ok(false) else Contains(sec.value, base, 0, addr)
    {
      hide Advance;
      if sec.None? { return Ok(false); }
      var it := new RangeIterator(sec, base);
      var done := it.Increment();
      if done.Err? { return Err(done.error); }
      ghost var b, p := base, 0;
      while it.sec.Some?
        invariant fresh(it) && (it.sec == sec || it.sec == None) && p <= |sec.value.data|
        invariant Contains(sec.value, base, 0, addr) == Contains(sec.value, b, p, addr)
        invariant Advance(sec.value, b, p) ==
                  Ok(if it.sec.None? then None else Some(Position(it.entry, it.base, it.pos)))
        decreases |sec.value.data| - p, it.sec.Some?
      {
        if it.entry.0 <= addr < it.entry.1 { return Ok(true); }
        b, p := it.base, it.pos;
        done := it.Increment();
        if done.Err? { return Err(done.error); }
      }
      return Ok(false);
    }
  }
}
