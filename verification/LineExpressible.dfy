/** Which rows a header can express at all: exactly the ones the assembler expresses. */
module LineExpressible {
  import opened Words
  import opened Sections
  import opened LineProgram
  import opened LineAssembler
  import opened LineAdvance
  import opened LineRows

  /** Registers other than place and line change only through opcodes below opcode_base. */
  predicate RegistersOk(h: Header, g: Row, r: Row) {
    && (r.fileIndex != g.fileIndex ==> h.opcodeBase > 4)
    && (r.column != g.column ==> h.opcodeBase > 5)
    && (r.isStmt != g.isStmt ==> h.opcodeBase > 6)
    && (r.basicBlock ==> h.opcodeBase > 7)
    && (r.prologueEnd ==> h.opcodeBase > 10)
    && (r.epilogueBegin ==> h.opcodeBase > 11)
    && (r.isa != g.isa ==> h.opcodeBase > 12)
  }

  /** With advance_pc: addresses that set_address can name, any at all when fixed_advance_pc exists or
      some address can be named and instructions have a length, and those in step with the last row's. */
  predicate AddressOk(h: Header, sec: Section, from: word, to: word) {
    || CanSet(sec, to) || h.opcodeBase > 9 || (h.minInst > 0 && sec.addrSize in {1, 2, 4, 8})
    || InStep(h, from, to)
  }

  /** Without a row: the same place, or the start of an instruction at an address that can be named. */
  predicate PlaceOk(h: Header, sec: Section, g: Row, r: Row) {
    if h.opcodeBase > 2 then AddressOk(h, sec, g.address, r.address)
    else (r.address == g.address && r.opIndex == g.opIndex) || (CanSet(sec, r.address) && r.opIndex == 0)
  }

  /** A row that can follow registers `g`. Headers with advance_line need the right place only. With
      advance_pc alone the line distance has to be zero or a special opcode's. Without either, a row
      other than an end of sequence is a copy, or one special opcode away. */
  predicate Expressible(h: Header, sec: Section, g: Row, r: Row)
    requires h.maxOps >= 1
  {
    var d := LineStep(g, r);
    && Holds(h, r) && RegistersOk(h, g, r)
    && if h.opcodeBase > 3 then PlaceOk(h, sec, g, r)
       else if h.opcodeBase == 3 then PlaceOk(h, sec, g, r) && (d == 0 || (!r.endSequence && SpecialFits(h, 0, d)))
       else
         || (d == 0 && PlaceOk(h, sec, g, r) && (r.endSequence || h.opcodeBase == 2))
         || (!r.endSequence && exists k: nat :: k < 256 && Lands(h, sec, g, r, d, k))
  }

  predicate ExpressibleAll(h: Header, sec: Section, g: Row, rows: seq<Row>)
    requires h.maxOps >= 1
    decreases rows
  {
    rows == [] || (Expressible(h, sec, g, rows[0]) && ExpressibleAll(h, sec, After(h, rows[0]), rows[1..]))
  }

  lemma {:induction false} ExpressibleHolds(h: Header, sec: Section, g: Row, rows: seq<Row>)
    requires h.maxOps >= 1 && ExpressibleAll(h, sec, g, rows)
    ensures forall r :: r in rows ==> Holds(h, r)
    decreases rows
  {
    if rows != [] { ExpressibleHolds(h, sec, After(h, rows[0]), rows[1..]); }
  }

  // ---------- the assembler expresses them ----------

  lemma ConsEncodable(h: Header, sec: Section, c: bool, i: Instr, rest: seq<Instr>)
    requires c ==> Encodable(h, sec, i) && !i.DefineFile?
    requires AllEncodable(h, sec, rest)
    ensures AllEncodable(h, sec, Opt(c, i) + rest)
  {}

  lemma {:induction false} ChainEncodable(h: Header, sec: Section, n: nat)
    requires h.opcodeBase > 2
    ensures AllEncodable(h, sec, Chain(n))
  {
    if n >= TWO63 { ChainEncodable(h, sec, n - (TWO63 - 1)); }
  }

  lemma {:induction false} FixedChainEncodable(h: Header, sec: Section, n: nat)
    requires h.opcodeBase > 9
    ensures AllEncodable(h, sec, FixedChain(n))
    decreases n
  {
    if n >= 0x1_0000 { FixedChainEncodable(h, sec, n - 0xffff); }
  }

  lemma AppendEncodable(h: Header, sec: Section, a: seq<Instr>, b: seq<Instr>)
    requires AllEncodable(h, sec, a) && AllEncodable(h, sec, b)
    ensures AllEncodable(h, sec, a + b)
  {
    hide Encodable;
  }

  lemma LowEncodable(h: Header, sec: Section, r: Row)
    requires h.minInst > 0 && sec.addrSize in {1, 2, 4, 8} && h.opcodeBase > 2
    ensures AllEncodable(h, sec, FromLow(h, r))
  {
    hide Pow2, Chain, Ops;
    Pow2Is8();
    if sec.addrSize > 1 { Pow2Below(8, 8 * sec.addrSize); }
    DivBound(r.address, h.minInst);
    ChainEncodable(h, sec, Ops(h, r.address / h.minInst, r.opIndex));
    AppendEncodable(h, sec, [SetAddress(r.address % h.minInst)], Chain(Ops(h, r.address / h.minInst, r.opIndex)));
  }

  lemma MoveEncodable(h: Header, sec: Section, g: Row, r: Row)
    requires h.Accepted() && Holds(h, g) && PlaceOk(h, sec, g, r)
    ensures AllEncodable(h, sec, Move(h, sec, g, r))
  {
    hide OpDelta, Chain, FixedChain, FromLow, AroundTo, Pow2, InStep, AllEncodable;
    OneEncodable(h, sec, [], SetAddress(r.address));
    var adv := OpDelta(h, g, r);
    if r.address == g.address && r.opIndex == g.opIndex {
    } else if 0 <= adv < TWO32 && h.opcodeBase > 2 {
      OneEncodable(h, sec, [], AdvancePc(adv));
    } else if CanSet(sec, r.address) {
      SetOpEncodable(h, sec, r);
      AppendEncodable(h, sec, [SetAddress(r.address)], SetOp(r));
    } else if h.opcodeBase > 9 {
      SetOpEncodable(h, sec, r);
      FixedChainEncodable(h, sec, Wrap(r.address - g.address));
      AppendEncodable(h, sec, FixedChain(Wrap(r.address - g.address)), SetOp(r));
    } else if h.minInst > 0 && sec.addrSize in {1, 2, 4, 8} {
      LowEncodable(h, sec, r);
    } else {
      ChainEncodable(h, sec, AroundTo(h, g, r));
    }
  }

  lemma OneEncodable(h: Header, sec: Section, none: seq<Instr>, i: Instr)
    requires none == []
    ensures AllEncodable(h, sec, none)
    ensures AllEncodable(h, sec, [i]) <==> Encodable(h, sec, i) && !i.DefineFile?
  {
    hide Encodable;
    assert i in [i];
  }

  lemma SetOpEncodable(h: Header, sec: Section, r: Row)
    requires h.opcodeBase > 2 || r.opIndex == 0
    ensures AllEncodable(h, sec, SetOp(r))
  {}

  lemma FinishEncodable(h: Header, sec: Section, g: Row, r: Row)
    requires h.Accepted() && Holds(h, g) && Expressible(h, sec, g, r)
    ensures AllEncodable(h, sec, Finish(h, sec, g, r))
  {
    hide OpDelta, LineStep, Move, PlaceOk, Closed, RegistersOk, Header.OpAdvance, AllEncodable, Pow2;
    var adv, d := OpDelta(h, g, r), LineStep(g, r);
    var c := h.OpAdvance(255 - h.opcodeBase);
    LineStepSmall(g, r);
    if PlaceOk(h, sec, g, r) { SeparateEncodable(h, sec, g, r, d); }
    if !r.endSequence {
      SpecialsEncodable(h, sec);
      if SpecialFits(h, adv, d) {
      } else if h.opcodeBase > 8 && SpecialFits(h, adv - c, d) {
        OneEncodable(h, sec, [], ConstAddPc);
        AppendEncodable(h, sec, [ConstAddPc], [SpecialFor(h, adv - c, d)]);
        assert [ConstAddPc] + [SpecialFor(h, adv - c, d)] == [ConstAddPc, SpecialFor(h, adv - c, d)];
      } else if h.opcodeBase == 3 && d != 0 && SpecialFits(h, 0, d) {
        MoveEncodable(h, sec, g, r);
        AppendEncodable(h, sec, Move(h, sec, g, r), [SpecialFor(h, 0, d)]);
      } else if h.opcodeBase <= 2 && FirstLanding(h, sec, g, r, d, 0).Some? {
        LandEncodable(h, sec, g, r, d, FirstLanding(h, sec, g, r, d, 0).value);
      }
    }
  }

  lemma LineStepSmall(g: Row, r: Row)
    ensures -TWO63 <= LineStep(g, r) < TWO63
  {}

  lemma SpecialsEncodable(h: Header, sec: Section)
    requires h.Accepted()
    ensures forall a, d :: SpecialFits(h, a, d) ==> AllEncodable(h, sec, [SpecialFor(h, a, d)])
  {}

  lemma LandEncodable(h: Header, sec: Section, g: Row, r: Row, d: int, k: nat)
    requires h.Accepted() && Lands(h, sec, g, r, d, k)
    ensures AllEncodable(h, sec, Land(h, g, r, d, k))
  {
    hide Closed, Pow2, AllEncodable;
    SpecialsEncodable(h, sec);
    ConsEncodable(h, sec, Closed(h, g, k) != (r.address, r.opIndex), SetAddress(Before(h, r, k)),
                  [SpecialFor(h, k, d)]);
  }

  lemma SeparateEncodable(h: Header, sec: Section, g: Row, r: Row, d: int)
    requires h.Accepted() && Holds(h, g) && PlaceOk(h, sec, g, r) && -TWO63 <= d < TWO63
    ensures (d == 0 || h.opcodeBase > 3) && (r.endSequence || h.opcodeBase > 1) ==>
      AllEncodable(h, sec, Move(h, sec, g, r) + (Opt(d != 0, AdvanceLine(d)) + [Emitter(r)]))
  {
    hide Move, PlaceOk, AllEncodable, Opt;
    if (d == 0 || h.opcodeBase > 3) && (r.endSequence || h.opcodeBase > 1) {
      MoveEncodable(h, sec, g, r);
      OneEncodable(h, sec, [], Emitter(r));
      ConsEncodable(h, sec, d != 0, AdvanceLine(d), [Emitter(r)]);
      AppendEncodable(h, sec, Move(h, sec, g, r), Opt(d != 0, AdvanceLine(d)) + [Emitter(r)]);
    }
  }

  lemma AssemblesOne(h: Header, sec: Section, g: Row, r: Row)
    requires h.Accepted() && Holds(h, g) && Expressible(h, sec, g, r)
    ensures AllEncodable(h, sec, Assemble(h, sec, g, r))
  {
    hide Opt, Finish, AllEncodable, PlaceOk, Lands, LineStep, SpecialFits;
    var f := Finish(h, sec, g, r);
    FinishEncodable(h, sec, g, r);
    ConsEncodable(h, sec, r.discriminator != 0, SetDiscriminator(r.discriminator % TWO32), f);
    var p4 := Opt(r.discriminator != 0, SetDiscriminator(r.discriminator % TWO32)) + f;
    ConsEncodable(h, sec, r.epilogueBegin, SetEpilogueBegin, p4);
    ConsEncodable(h, sec, r.prologueEnd, SetPrologueEnd, Opt(r.epilogueBegin, SetEpilogueBegin) + p4);
    var p := SetPassing(r, f);
    ConsEncodable(h, sec, r.basicBlock, SetBasicBlock,
                  Opt(r.prologueEnd, SetPrologueEnd) + (Opt(r.epilogueBegin, SetEpilogueBegin) + p4));
    ConsEncodable(h, sec, r.isa != g.isa, SetIsa(r.isa % TWO32), p);
    var l4 := Opt(r.isa != g.isa, SetIsa(r.isa % TWO32)) + p;
    ConsEncodable(h, sec, r.isStmt != g.isStmt, NegateStmt, l4);
    var l3 := Opt(r.isStmt != g.isStmt, NegateStmt) + l4;
    ConsEncodable(h, sec, r.column != g.column, SetColumn(r.column % TWO32), l3);
    ConsEncodable(h, sec, r.fileIndex != g.fileIndex, SetFile(r.fileIndex % TWO32),
                  Opt(r.column != g.column, SetColumn(r.column % TWO32)) + l3);
  }

  lemma {:induction false} AssemblesAll(h: Header, sec: Section, g: Row, rows: seq<Row>)
    requires h.Accepted() && Holds(h, g) && ExpressibleAll(h, sec, g, rows)
    ensures forall r :: r in rows ==> Holds(h, r)
    ensures AllEncodable(h, sec, AssembleAll(h, sec, g, rows))
    decreases rows
  {
    hide Assemble, AllEncodable, Expressible;
    ExpressibleHolds(h, sec, g, rows);
    if rows == [] {
      OneEncodable(h, sec, [], Copy);
    } else {
      AssemblesOne(h, sec, g, rows[0]);
      AfterIsClean(h, rows[0]);
      AssemblesAll(h, sec, After(h, rows[0]), rows[1..]);
      AppendEncodable(h, sec, Assemble(h, sec, g, rows[0]), AssembleAll(h, sec, After(h, rows[0]), rows[1..]));
    }
  }

  // ---------- nothing else can be expressed ----------

  predicate Known(h: Header, sec: Section, prog: seq<Instr>) {
    forall i :: i in prog ==> Encodable(h, sec, i)
  }

  /** What silent instructions can make of registers `g`. */
  predicate Silent(h: Header, sec: Section, g: Row, s: Row) {
    && Holds(h, s) && RegistersOk(h, g, s) && PlaceOk(h, sec, g, s) && !s.endSequence
    && (s.line != g.line ==> h.opcodeBase > 3)
  }

  /** An advance stays within what can be reached. */
  lemma AdvanceStays(h: Header, sec: Section, from: word, x: word, q: nat)
    requires AddressOk(h, sec, from, x)
    ensures h.opcodeBase > 2 ==> AddressOk(h, sec, from, Wrap(x + h.minInst * q))
  {
    hide Pow2, TwoPart;
    if h.minInst > 0 && InStep(h, from, x) { StepStays(h.minInst, TwoPart(h.minInst), from, x, q); }
  }

  lemma StepStays(m: byte, p: int, from: word, x: word, q: nat)
    requires m > 0 && p == TwoPart(m) && (from == x || (x - from) % p == 0)
    ensures (Wrap(x + m * q) - from) % p == 0
  {
    hide TwoPart;
    TwoPartIsPower(m);
    if from == x { ZeroInStep(p); }
    var a, b, c: int := (x - from) / p, m / p, TWO64 / p;
    var z := x + m * q;
    var w := z / TWO64;
    assert Wrap(z) == z - w * TWO64;
    assert x - from == p * a && (m as int) == p * b && TWO64 == p * c;
    MulAssoc(p, b, q);
    assert w * TWO64 == p * (w * c) by { MulAssoc(w, p, c); }
    assert Wrap(z) - from == p * a + p * (b * q) - p * (w * c);
    assert p * a + p * (b * q) - p * (w * c) == (a + b * q - w * c) * p;
    ModOfMultiple(a + b * q - w * c, p);
  }

  lemma SilentStep(h: Header, sec: Section, g: Row, s: Row, i: Instr)
    requires h.Accepted() && Holds(h, g) && Silent(h, sec, g, s) && Encodable(h, sec, i) && Exec(h, i, s).1.None?
    ensures Silent(h, sec, g, Exec(h, i, s).0)
  {
    hide Pow2, Advance, AddressOk, Header.OpAdvance;
    match i {
      case AdvancePc(n) => SilentAdvance(h, sec, g, s, n);
      case ConstAddPc => SilentAdvance(h, sec, g, s, h.OpAdvance(255 - h.opcodeBase));
      case SetAddress(a) => SilentSet(h, sec, g.address, a);
      case FixedAdvancePc(n) => SilentFixed(h, sec, g.address, Wrap(s.address + n));
      case _ =>
    }
  }

  lemma SilentAdvance(h: Header, sec: Section, g: Row, s: Row, n: word)
    requires h.Accepted() && h.opcodeBase > 2 && AddressOk(h, sec, g.address, s.address)
    ensures var t := Advance(h, s, n);
      && AddressOk(h, sec, g.address, t.address) && t.opIndex < h.maxOps
      && t == s.(address := t.address, opIndex := t.opIndex)
  {
    hide AddressOk;
    AdvanceStays(h, sec, g.address, s.address, Wrap(s.opIndex + n) / h.maxOps);
  }

  lemma SilentSet(h: Header, sec: Section, from: word, a: word)
    requires CanSet(sec, a)
    ensures AddressOk(h, sec, from, a)
  {}

  lemma SilentFixed(h: Header, sec: Section, from: word, to: word)
    requires h.opcodeBase > 9
    ensures AddressOk(h, sec, from, to)
  {}

  lemma EmissionIsExpressible(h: Header, sec: Section, g: Row, s: Row, i: Instr)
    requires h.Accepted() && Holds(h, g) && Silent(h, sec, g, s) && Encodable(h, sec, i) && Exec(h, i, s).1.Some?
    ensures var (t, o) := Exec(h, i, s);
      Expressible(h, sec, g, o.value) && t == After(h, o.value)
  {
    hide Pow2, Advance, AddressOk, Header.OpAdvance, Header.LineInc, Lands, Closed;
    if i.Special? {
      SpecialIsExpressible(h, sec, g, s, i.adjusted);
    } else if h.opcodeBase <= 3 {
      LineStepZero(g, Exec(h, i, s).1.value);
    }
  }

  lemma LineStepZero(g: Row, r: Row)
    requires g.line == r.line
    ensures LineStep(g, r) == 0
  {}

  lemma SpecialIsExpressible(h: Header, sec: Section, g: Row, s: Row, adj: byte)
    requires h.Accepted() && Holds(h, g) && Silent(h, sec, g, s) && adj + h.opcodeBase < 256
    ensures var (t, o) := Exec(h, Special(adj), s);
      o.Some? && Expressible(h, sec, g, o.value) && t == After(h, o.value)
  {
    hide Advance, AddressOk, Closed, Pow2, LineStep;
    var k, d := h.OpAdvance(adj), h.LineInc(adj);
    var s1 := AddLines(s, d);
    var r := Advance(h, s1, k);
    AdvanceIsClosed(h, s1, k);
    ClosedDependsOnPlace(h, s, s1, k);
    ClosedFits(h, s, k);
    SpecialParts(h, adj);
    if h.opcodeBase > 2 {
      SilentAdvance(h, sec, g, s1, k);
      if h.opcodeBase == 3 { LineStepOf(g, r, d); }
    } else {
      LineStepOf(g, r, d);
      SpecialLands(h, sec, g, s, r, d, k);
    }
  }

  /** A special opcode's distances fit one, and its line distance fits one that advances nothing. */
  lemma SpecialParts(h: Header, adj: byte)
    requires h.lineRange >= 1 && adj + h.opcodeBase < 256 && -128 <= h.lineBase < 128
    ensures SpecialFits(h, h.OpAdvance(adj), h.LineInc(adj)) && SpecialFits(h, 0, h.LineInc(adj))
    ensures -TWO32 < 2 * h.LineInc(adj) < TWO32
  {
    var k, lr: int := h.OpAdvance(adj), h.lineRange as int;
    assert adj == lr * k + adj % lr;
    assert lr * k >= 0;
    assert lr * 0 == 0;
  }

  lemma LineStepOf(g: Row, r: Row, d: int)
    requires r.line == (g.line + d) % TWO32 && -TWO32 < 2 * d < TWO32
    ensures LineStep(g, r) == d
  {}

  lemma SpecialLands(h: Header, sec: Section, g: Row, s: Row, r: Row, d: int, k: nat)
    requires h.maxOps >= 1 && h.opcodeBase <= 2 && PlaceOk(h, sec, g, s) && k < 256 && SpecialFits(h, k, d)
    requires Closed(h, s, k) == (r.address, r.opIndex)
    ensures Lands(h, sec, g, r, d, k)
  {
    hide Pow2, SpecialFits;
    if s.address == g.address && s.opIndex == g.opIndex {
      ClosedDependsOnPlace(h, g, s, k);
    } else {
      StartIsBefore(h, s, r, k);
    }
  }

  lemma StartIsBefore(h: Header, s: Row, r: Row, k: nat)
    requires h.maxOps >= 1 && s.opIndex == 0 && Closed(h, s, k) == (r.address, r.opIndex)
    ensures Before(h, r, k) == s.address && k % h.maxOps == r.opIndex
  {
    hide Wrap;
    var x: int := h.minInst * (k / h.maxOps);
    WrapTwice(s.address + x, -x);
    WordWraps(s.address);
  }

  /** Whatever a program of known instructions emits is expressible. */
  lemma {:induction false} EmittedIsExpressible(h: Header, sec: Section, g: Row, s: Row, prog: seq<Instr>)
    requires h.Accepted() && Holds(h, g) && Silent(h, sec, g, s) && Known(h, sec, prog)
    ensures ExpressibleAll(h, sec, g, ExecAll(h, prog, s).1)
    decreases prog
  {
    hide Exec, Encodable, Silent, Expressible;
    if prog != [] {
      var (s1, o) := Exec(h, prog[0], s);
      assert forall i :: i in prog[1..] ==> i in prog;
      var rest := ExecAll(h, prog[1..], s1).1;
      if o.None? {
        SilentStep(h, sec, g, s, prog[0]);
        EmittedIsExpressible(h, sec, g, s1, prog[1..]);
        assert [] + rest == rest;
      } else {
        EmissionIsExpressible(h, sec, g, s, prog[0]);
        AfterIsSilent(h, sec, o.value, g);
        EmittedIsExpressible(h, sec, s1, s1, prog[1..]);
        assert ([o.value] + rest)[1..] == rest;
      }
    }
  }

  lemma AfterIsSilent(h: Header, sec: Section, r: Row, g: Row)
    requires h.Accepted() && Expressible(h, sec, g, r)
    ensures var t := After(h, r); Holds(h, t) && Silent(h, sec, t, t)
  {
    hide PlaceOk, Lands;
    AfterIsClean(h, r);
    CleanIsSilent(h, sec, After(h, r));
  }

  lemma CleanIsSilent(h: Header, sec: Section, g: Row)
    requires Holds(h, g) && Clean(g)
    ensures Silent(h, sec, g, g)
  {}

  /** For every accepted header and address size: some program emits exactly these rows from clean
      registers if and only if the rows are expressible, and then the assembler's program does. */
  lemma ProgramExistsExactlyWhen(h: Header, sec: Section, g: Row, rows: seq<Row>)
    requires h.Accepted() && Holds(h, g) && Clean(g)
    ensures (exists prog :: Known(h, sec, prog) && ExecAll(h, prog, g).1 == rows) <==> ExpressibleAll(h, sec, g, rows)
    ensures ExpressibleAll(h, sec, g, rows) ==>
      && (forall r :: r in rows ==> Holds(h, r))
      && var prog := AssembleAll(h, sec, g, rows);
        AllEncodable(h, sec, prog) && ExecAll(h, prog, g).1 == rows
  {
    hide Silent, ExecAll, ExpressibleAll, Encodable, AssembleAll;
    CleanIsSilent(h, sec, g);
    forall prog | Known(h, sec, prog) ensures ExpressibleAll(h, sec, g, ExecAll(h, prog, g).1) {
      EmittedIsExpressible(h, sec, g, g, prog);
    }
    if ExpressibleAll(h, sec, g, rows) {
      AssemblesAll(h, sec, g, rows);
      AssembledEmits(h, sec, g, rows);
      assert Known(h, sec, AssembleAll(h, sec, g, rows));
    }
  }

  lemma {:induction false} AssembledEmits(h: Header, sec: Section, g: Row, rows: seq<Row>)
    requires h.Accepted() && Holds(h, g) && Clean(g) && forall r :: r in rows ==> Holds(h, r)
    ensures ExecAll(h, AssembleAll(h, sec, g, rows), g).1 == rows
    decreases rows
  {
    hide Assemble, Exec, Clean, Holds;
    if rows != [] {
      var t := After(h, rows[0]);
      AssembleEmits(h, sec, g, rows[0]);
      AfterIsClean(h, rows[0]);
      AssembledEmits(h, sec, t, rows[1..]);
      var tail := AssembleAll(h, sec, t, rows[1..]);
      ExecAppend(h, Assemble(h, sec, g, rows[0]), tail, g, ExecAll(h, tail, t).0, rows[1..]);
      assert [rows[0]] + rows[1..] == rows;
    }
  }

  /** With opcode_base 13 every list of rows the registers can hold is expressible, at any address size. */
  lemma {:induction false} FullHeaderExpressesAll(h: Header, sec: Section, g: Row, rows: seq<Row>)
    requires h.Accepted() && h.opcodeBase == 13 && forall r :: r in rows ==> Holds(h, r)
    ensures ExpressibleAll(h, sec, g, rows)
    decreases rows
  {
    if rows != [] { FullHeaderExpressesAll(h, sec, After(h, rows[0]), rows[1..]); }
  }
}
