/** An assembler from rows to line-number instructions, for every header the reader accepts. */
module LineRows {
  import opened Words
  import opened Sections
  import opened LineProgram
  import opened LineAssembler
  import opened LineAdvance

  function Opt(c: bool, i: Instr): seq<Instr> { if c then [i] else [] }

  /** A row the registers can hold. */
  predicate Holds(h: Header, r: Row) {
    && r.opIndex < h.maxOps
    && r.fileIndex < TWO32 && r.line < TWO32 && r.column < TWO32 && r.isa < TWO32 && r.discriminator < TWO32
  }

  predicate Clean(g: Row) {
    !g.basicBlock && !g.prologueEnd && !g.epilogueBegin && !g.endSequence && g.discriminator == 0
  }

  // ---------- lines and places ----------

  /** The line distance modulo 2^32, as the nearest signed number. */
  function LineStep(g: Row, r: Row): int {
    var x := (r.line - g.line) % TWO32;
    if 2 * x < TWO32 then x else x - TWO32
  }

  /** The adjusted opcode that advances `a` operations and `d` lines. */
  function SpecialCode(h: Header, a: int, d: int): int { d - h.lineBase + h.lineRange * a }

  predicate SpecialFits(h: Header, a: int, d: int) {
    && 0 <= a < 256 && h.lineBase <= d < h.lineBase + h.lineRange
    && 0 <= SpecialCode(h, a, d) && SpecialCode(h, a, d) + h.opcodeBase < 256
  }

  function SpecialFor(h: Header, a: int, d: int): Instr
    requires SpecialFits(h, a, d)
  {
    Special(SpecialCode(h, a, d))
  }

  /** The operation advance that leads from one row's place to another's, or -1. */
  function OpDelta(h: Header, g: Row, r: Row): int {
    if h.minInst > 0 && r.address >= g.address && (r.address - g.address) % h.minInst == 0 then
      (r.address - g.address) / h.minInst * h.maxOps + r.opIndex - g.opIndex
    else if r.address == g.address && r.opIndex == g.opIndex then 0
    else -1
  }

  /** set_address can name the address. */
  predicate CanSet(sec: Section, a: word) { sec.addrSize in {1, 2, 4, 8} && a < Pow2(8 * sec.addrSize) }

  /** The largest power of two that divides a byte. */
  function TwoPart(n: byte): (p: nat)
    requires n > 0
    ensures p > 0 && n % p == 0
  {
    if n % 128 == 0 then 128
    else if n % 64 == 0 then 64
    else if n % 32 == 0 then 32
    else if n % 16 == 0 then 16
    else if n % 8 == 0 then 8
    else if n % 4 == 0 then 4
    else if n % 2 == 0 then 2
    else 1
  }

  /** From one address the advances of the header reach another, going round modulo 2^64 if need be. */
  predicate InStep(h: Header, from: word, to: word) {
    from == to || (h.minInst > 0 && (to - from) % TwoPart(h.minInst) == 0)
  }

  /** How often to add an odd number to reach `c` modulo 2^k. */
  function Solve(odd: nat, c: int, k: nat): nat {
    if k == 0 then 0
    else
      var q := Solve(odd, c, k - 1);
      if (odd * q - c) % Pow2(k) == 0 then q else q + Pow2(k - 1)
  }

  /** How many instruction lengths lead from one address to another in step with it. */
  function Turns(h: Header, from: word, to: word): nat {
    if h.minInst == 0 then 0
    else
      var p := TwoPart(h.minInst);
      Solve(h.minInst / p, (to - from) / p, 64)
  }

  /** One advance by any number of operations, in pieces that fit their operands. */
  function Chain(n: nat): seq<Instr> {
    if n < TWO63 then [AdvancePc(n)] else [AdvancePc(TWO63 - 1)] + Chain(n - (TWO63 - 1))
  }

  /** One advance by any number of bytes, in 16-bit pieces. */
  function FixedChain(n: nat): seq<Instr> {
    if n < 0x1_0000 then [FixedAdvancePc(n)] else [FixedAdvancePc(0xffff)] + FixedChain(n - 0xffff)
  }

  /** From the address at hand, op_index 0, to the row's op_index. */
  function SetOp(r: Row): seq<Instr> { Opt(r.opIndex > 0, AdvancePc(r.opIndex % TWO64)) }

  /** `q` instructions and `op` operations. */
  function Ops(h: Header, q: nat, op: nat): nat { q * h.maxOps + op }

  /** The total advance that leads around to the row's place. */
  function AroundTo(h: Header, g: Row, r: Row): nat
    requires Holds(h, g)
  {
    MulMono(1, Turns(h, g.address, r.address) + TWO64, h.maxOps);
    Ops(h, Turns(h, g.address, r.address) + TWO64, r.opIndex) - g.opIndex
  }

  /** From any address in step with the row's, and below the instruction length, to the row's place. */
  function FromLow(h: Header, r: Row): seq<Instr>
    requires h.minInst > 0
  {
    DivBound(r.address, h.minInst);
    [SetAddress(r.address % h.minInst)] + Chain(Ops(h, r.address / h.minInst, r.opIndex))
  }

  /** Gets to the row's place, by the first means that does. */
  function Move(h: Header, sec: Section, g: Row, r: Row): seq<Instr>
    requires Holds(h, g)
  {
    var adv := OpDelta(h, g, r);
    if r.address == g.address && r.opIndex == g.opIndex then []
    else if 0 <= adv < TWO32 && h.opcodeBase > 2 then [AdvancePc(adv)]
    else if CanSet(sec, r.address) then [SetAddress(r.address)] + SetOp(r)
    else if h.opcodeBase > 9 then FixedChain(Wrap(r.address - g.address)) + SetOp(r)
    else if h.minInst > 0 && sec.addrSize in {1, 2, 4, 8} then
      FromLow(h, r)
    else if InStep(h, g.address, r.address) then Chain(AroundTo(h, g, r))
    else [SetAddress(r.address)] + SetOp(r)
  }

  // ---------- emission ----------

  function Emitter(r: Row): Instr { if r.endSequence then EndSequence else Copy }

  /** The address from which an advance of `k` operations leads to the row's, op_index starting at 0. */
  function Before(h: Header, r: Row, k: nat): word
    requires h.maxOps >= 1
  {
    Wrap(r.address - h.minInst * (k / h.maxOps))
  }

  /** A special opcode advancing `k` operations and `d` lines emits the row, at once or after set_address. */
  predicate Lands(h: Header, sec: Section, g: Row, r: Row, d: int, k: nat)
    requires h.maxOps >= 1
  {
    && SpecialFits(h, k, d)
    && (Closed(h, g, k) == (r.address, r.opIndex) || (k % h.maxOps == r.opIndex && CanSet(sec, Before(h, r, k))))
  }

  function FirstLanding(h: Header, sec: Section, g: Row, r: Row, d: int, k: nat): (f: Option<nat>)
    requires h.maxOps >= 1 && k <= 256
    ensures f.Some? ==> Lands(h, sec, g, r, d, f.value)
    ensures f.None? ==> forall j: nat :: k <= j < 256 ==> !Lands(h, sec, g, r, d, j)
    decreases 256 - k
  {
    if k == 256 then None
    else if Lands(h, sec, g, r, d, k) then Some(k)
    else FirstLanding(h, sec, g, r, d, k + 1)
  }

  function Land(h: Header, g: Row, r: Row, d: int, k: nat): seq<Instr>
    requires h.maxOps >= 1 && SpecialFits(h, k, d)
  {
    Opt(Closed(h, g, k) != (r.address, r.opIndex), SetAddress(Before(h, r, k))) + [SpecialFor(h, k, d)]
  }

  /** Place, line and emission. One special opcode when it reaches, const_add_pc and one when that does;
      without advance_line the line distance has to be a special opcode's; and separate instructions
      otherwise. */
  function Finish(h: Header, sec: Section, g: Row, r: Row): seq<Instr>
    requires h.Accepted() && Holds(h, g)
  {
    var adv, d := OpDelta(h, g, r), LineStep(g, r);
    var c := h.OpAdvance(255 - h.opcodeBase);
    var separate := Move(h, sec, g, r) + (Opt(d != 0, AdvanceLine(d)) + [Emitter(r)]);
    if r.endSequence then separate
    else if SpecialFits(h, adv, d) then [SpecialFor(h, adv, d)]
    else if h.opcodeBase > 8 && SpecialFits(h, adv - c, d) then [ConstAddPc, SpecialFor(h, adv - c, d)]
    else if h.opcodeBase == 3 && d != 0 && SpecialFits(h, 0, d) then Move(h, sec, g, r) + [SpecialFor(h, 0, d)]
    else if h.opcodeBase <= 2 && FirstLanding(h, sec, g, r, d, 0).Some? then
      Land(h, g, r, d, FirstLanding(h, sec, g, r, d, 0).value)
    else separate
  }

  /** The registers that keep their values from row to row. */
  function SetLasting(g: Row, r: Row, rest: seq<Instr>): seq<Instr> {
    Opt(r.fileIndex != g.fileIndex, SetFile(r.fileIndex % TWO32))
    + (Opt(r.column != g.column, SetColumn(r.column % TWO32))
    + (Opt(r.isStmt != g.isStmt, NegateStmt)
    + (Opt(r.isa != g.isa, SetIsa(r.isa % TWO32))
    + rest)))
  }

  /** The registers that every emission clears. */
  function SetPassing(r: Row, rest: seq<Instr>): seq<Instr> {
    Opt(r.basicBlock, SetBasicBlock)
    + (Opt(r.prologueEnd, SetPrologueEnd)
    + (Opt(r.epilogueBegin, SetEpilogueBegin)
    + (Opt(r.discriminator != 0, SetDiscriminator(r.discriminator % TWO32))
    + rest)))
  }

  function Assemble(h: Header, sec: Section, g: Row, r: Row): seq<Instr>
    requires h.Accepted() && Holds(h, g)
  {
    SetLasting(g, r, SetPassing(r, Finish(h, sec, g, r)))
  }

  /** The registers after a row: cleared flags, or a fresh sequence. */
  function After(h: Header, r: Row): Row { if r.endSequence then Reset(h.defaultIsStmt) else Cleared(r) }

  lemma AfterIsClean(h: Header, r: Row)
    requires h.Accepted() && Holds(h, r)
    ensures Holds(h, After(h, r)) && Clean(After(h, r))
  {}

  function AssembleAll(h: Header, sec: Section, g: Row, rows: seq<Row>): seq<Instr>
    requires h.Accepted() && Holds(h, g) && forall r :: r in rows ==> Holds(h, r)
    decreases rows
  {
    if rows == [] then []
    else
      AfterIsClean(h, rows[0]);
      Assemble(h, sec, g, rows[0]) + AssembleAll(h, sec, After(h, rows[0]), rows[1..])
  }

  // ---------- executing what was assembled ----------

  function ExecAll(h: Header, prog: seq<Instr>, r: Row): (Row, seq<Row>)
    requires h.Accepted()
  {
    if prog == [] then (r, [])
    else
      var (r1, o) := Exec(h, prog[0], r);
      var (r2, rows) := ExecAll(h, prog[1..], r1);
      (r2, (if o.Some? then [o.value] else []) + rows)
  }

  /** Running `prog` from `g` ends in `t` and emits `rows`. */
  predicate Runs(h: Header, prog: seq<Instr>, g: Row, t: Row, rows: seq<Row>)
    requires h.Accepted()
  {
    ExecAll(h, prog, g).0 == t && ExecAll(h, prog, g).1 == rows
  }

  function Rows(o: Option<Row>): seq<Row> { if o.Some? then [o.value] else [] }

  lemma ExecCons(h: Header, i: Instr, rest: seq<Instr>, g: Row, t: Row, rows: seq<Row>)
    requires h.Accepted() && Runs(h, rest, Exec(h, i, g).0, t, rows)
    ensures Runs(h, [i] + rest, g, t, Rows(Exec(h, i, g).1) + rows)
  {
    hide Exec;
    assert ([i] + rest)[1..] == rest;
  }

  lemma ExecOne(h: Header, i: Instr, g: Row)
    requires h.Accepted()
    ensures Runs(h, [i], g, Exec(h, i, g).0, Rows(Exec(h, i, g).1))
  {
    hide Exec;
    assert [i] + [] == [i];
    ExecCons(h, i, [], g, Exec(h, i, g).0, []);
    assert Rows(Exec(h, i, g).1) + [] == Rows(Exec(h, i, g).1);
  }

  lemma {:induction false} ExecAppend(h: Header, a: seq<Instr>, b: seq<Instr>, g: Row, t: Row, rows: seq<Row>)
    requires h.Accepted() && Runs(h, b, ExecAll(h, a, g).0, t, rows)
    ensures Runs(h, a + b, g, t, ExecAll(h, a, g).1 + rows)
  {
    hide Exec;
    if a == [] {
      assert a + b == b;
    } else {
      assert a + b == [a[0]] + (a[1..] + b);
      var g1 := Exec(h, a[0], g).0;
      ExecAppend(h, a[1..], b, g1, t, rows);
      ExecCons(h, a[0], a[1..] + b, g, t, ExecAll(h, a[1..], g1).1 + rows);
    }
  }

  /** An optional instruction that sets a register and emits nothing. */
  lemma ExecOpt(h: Header, c: bool, i: Instr, rest: seq<Instr>, g: Row, g1: Row, t: Row, rows: seq<Row>)
    requires h.Accepted() && Runs(h, rest, g1, t, rows)
    requires if c then Exec(h, i, g) == (g1, None) else g == g1
    ensures Runs(h, Opt(c, i) + rest, g, t, rows)
  {
    hide Exec;
    if c {
      ExecCons(h, i, rest, g, t, rows);
      assert [] + rows == rows;
    } else {
      assert Opt(c, i) + rest == rest;
    }
  }

  lemma SpecialDecodes(h: Header, a: int, d: int)
    requires h.Accepted() && SpecialFits(h, a, d)
    ensures var adj := SpecialFor(h, a, d).adjusted; h.OpAdvance(adj) == a && h.LineInc(adj) == d
  {
    var lr := h.lineRange as int;
    ModUnique(SpecialCode(h, a, d), lr, a, d - h.lineBase);
  }

  /** The line register modulo 2^32 reaches every line. */
  lemma LineReaches(g: Row, r: Row)
    requires g.line < TWO32 && r.line < TWO32
    ensures AddLines(g, LineStep(g, r)) == g.(line := r.line)
  {}

  lemma {:induction false} OpDeltaReaches(h: Header, g: Row, r: Row)
    requires h.Accepted() && Holds(h, g) && Holds(h, r) && OpDelta(h, g, r) >= 0
    ensures Closed(h, g, OpDelta(h, g, r)) == (r.address, r.opIndex)
  {
    var k, m := h.minInst as int, h.maxOps as int;
    var diff := r.address - g.address;
    if k > 0 && diff >= 0 && diff % k == 0 {
      var q := diff / k;
      assert diff == k * q;
      ModUnique(g.opIndex + OpDelta(h, g, r), m, q, r.opIndex);
    } else {
      ClosedZero(h, g);
    }
  }

  /** `g` differs from `r` at most in place and line, and in not being an end of sequence yet. */
  predicate AllButPlace(g: Row, r: Row) {
    g == r.(address := g.address, opIndex := g.opIndex, line := g.line, endSequence := false)
  }

  lemma AdvanceReaches(h: Header, g: Row, r: Row, adv: nat)
    requires h.Accepted() && Holds(h, g) && adv + 256 <= TWO64 && Closed(h, g, adv) == (r.address, r.opIndex)
    ensures Advance(h, g, adv) == g.(address := r.address, opIndex := r.opIndex)
  {
    hide Closed, Advance;
    AdvanceIsClosed(h, g, adv);
  }

  lemma StepsOf(h: Header, g: Row, q: nat, op: nat, n: nat)
    requires h.maxOps >= 1 && op < h.maxOps && g.opIndex + n == q * h.maxOps + op
    ensures Closed(h, g, n) == (Wrap(g.address + h.minInst * q), op)
  {
    ModUnique(g.opIndex + n, h.maxOps, q, op);
  }

  lemma RunsNone(h: Header, g: Row)
    requires h.Accepted()
    ensures Runs(h, [], g, g, [])
  {}

  lemma ClosedSmall(h: Header, g: Row, r: Row)
    requires h.maxOps >= 1 && r.opIndex < h.maxOps && g.opIndex == 0 && g.address == r.address
    ensures Closed(h, g, r.opIndex) == (r.address, r.opIndex)
  {
    ModUnique(r.opIndex, h.maxOps, 0, r.opIndex);
  }

  lemma {:induction false} ChainReaches(h: Header, g: Row, n: nat)
    requires h.Accepted() && Holds(h, g)
    ensures var (a, op) := Closed(h, g, n); Runs(h, Chain(n), g, g.(address := a, opIndex := op), [])
    decreases n
  {
    hide Closed, Advance, Runs;
    var k := if n < TWO63 then n else TWO63 - 1;
    var g1 := Advance(h, g, k);
    AdvanceIsClosed(h, g, k);
    if n < TWO63 {
      ExecOne(h, AdvancePc(n), g);
    } else {
      ClosedFits(h, g, k);
      ClosedAdds(h, g, k, n - k);
      ChainReaches(h, g1, n - k);
      var (a, op) := Closed(h, g, n);
      ExecCons(h, AdvancePc(k), Chain(n - k), g, g.(address := a, opIndex := op), []);
      assert Rows(None) + [] == [];
    }
  }

  lemma ClosedFits(h: Header, g: Row, n: nat)
    requires h.maxOps >= 1
    ensures Closed(h, g, n).1 < h.maxOps
  {}

  lemma {:induction false} FixedChainReaches(h: Header, g: Row, n: nat)
    requires h.Accepted()
    ensures Runs(h, FixedChain(n), g, g.(address := Wrap(g.address + n), opIndex := 0), [])
    decreases n
  {
    hide Runs;
    if n < 0x1_0000 {
      ExecOne(h, FixedAdvancePc(n), g);
    } else {
      var g1 := g.(address := Wrap(g.address + 0xffff), opIndex := 0);
      FixedChainReaches(h, g1, n - 0xffff);
      WrapTwice(g.address + 0xffff, n - 0xffff);
      ExecCons(h, FixedAdvancePc(0xffff), FixedChain(n - 0xffff), g,
               g.(address := Wrap(g.address + n), opIndex := 0), []);
      assert Rows(None) + [] == [];
    }
  }

  lemma SetOpReaches(h: Header, g: Row, r: Row)
    requires h.Accepted() && Holds(h, g) && Holds(h, r) && g.address == r.address && g.opIndex == 0
    ensures Runs(h, SetOp(r), g, g.(opIndex := r.opIndex), [])
  {
    hide Closed, Advance, Runs;
    if r.opIndex > 0 {
      ClosedSmall(h, g, r);
      AdvanceReaches(h, g, r, r.opIndex);
      ExecOne(h, AdvancePc(r.opIndex), g);
    } else {
      RunsNone(h, g);
    }
  }

  /** A silent instruction and then a program. */
  lemma ThenRuns(h: Header, i: Instr, rest: seq<Instr>, g: Row, g1: Row, t: Row)
    requires h.Accepted() && Exec(h, i, g) == (g1, None) && Runs(h, rest, g1, t, [])
    ensures Runs(h, [i] + rest, g, t, [])
  {
    hide Exec, Runs;
    ExecCons(h, i, rest, g, t, []);
    assert Rows(None) + [] == [];
  }

  /** Two silent programs. */
  lemma BothRun(h: Header, a: seq<Instr>, b: seq<Instr>, g: Row, g1: Row, t: Row, rows: seq<Row>)
    requires h.Accepted() && Runs(h, a, g, g1, []) && Runs(h, b, g1, t, rows)
    ensures Runs(h, a + b, g, t, rows)
  {
    hide ExecAll;
    ExecAppend(h, a, b, g, t, rows);
    assert [] + rows == rows;
  }

  // ---------- going round ----------

  lemma {:induction false} SolveSolves(odd: nat, c: int, k: nat)
    requires odd % 2 == 1
    ensures (odd * Solve(odd, c, k) - c) % Pow2(k) == 0
  {
    if k > 0 {
      SolveSolves(odd, c, k - 1);
      SolveStep(odd, Solve(odd, c, k - 1), c, Pow2(k - 1));
    }
  }

  lemma SolveStep(odd: int, q: int, c: int, p: int)
    requires odd % 2 == 1 && p > 0 && (odd * q - c) % p == 0
    ensures (odd * q - c) % (2 * p) == 0 || (odd * (q + p) - c) % (2 * p) == 0
  {
    var t := (odd * q - c) / p;
    assert odd * q - c == p * t;
    if t % 2 == 0 {
      EvenMultiple(odd * q - c, t, p);
    } else {
      Gathered(odd, q, c, t, p);
      EvenMultiple(odd * (q + p) - c, t + odd, p);
    }
  }

  lemma EvenMultiple(x: int, t: int, p: int)
    requires p > 0 && t % 2 == 0 && x == t * p
    ensures x % (2 * p) == 0
  {
    var u := t / 2;
    assert t == 2 * u;
    assert x == u * (2 * p);
    ModOfMultiple(u, 2 * p);
  }

  lemma Gathered(odd: int, q: int, c: int, t: int, p: int)
    requires odd * q - c == p * t
    ensures odd * (q + p) - c == (t + odd) * p
  {}

  lemma TwoPartIsPower(n: byte)
    requires n > 0
    ensures n / TwoPart(n) % 2 == 1 && TWO64 % TwoPart(n) == 0
  {
    var p := TwoPart(n);
    if p == 128 {
      assert n == 128;
    } else {
      OddQuotient(n, p);
    }
    PowersDivide();
  }

  lemma OddQuotient(n: int, p: int)
    requires p > 0 && n % p == 0 && n % (2 * p) != 0
    ensures n / p % 2 == 1
  {
    if n / p % 2 == 0 { EvenMultiple(n, n / p, p); }
  }

  lemma PowersDivide()
    ensures forall p: int :: p in {1, 2, 4, 8, 16, 32, 64, 128} ==> TWO64 % p == 0
  {}

  lemma TurnsReach(h: Header, from: word, to: word)
    requires InStep(h, from, to)
    ensures Wrap(from + h.minInst * (Turns(h, from, to) + TWO64)) == to
  {
    hide Pow2, Solve, TwoPart;
    if h.minInst > 0 {
      var m, p: int := h.minInst as int, TwoPart(h.minInst);
      TwoPartIsPower(h.minInst);
      var o, c := m / p, (to - from) / p;
      var q: int := Solve(o, c, 64);
      SolveSolves(o, c, 64);
      Pow2Is64();
      var j := (o * q - c) / TWO64;
      assert m == p * o;
      if from == to { ZeroInStep(p); }
      assert to - from == p * c;
      assert o * q == c + j * TWO64;
      Around(p, o, q, c, j);
      ModUnique(from + m * (q + TWO64), TWO64, p * j + m, to);
    }
  }

  lemma ZeroInStep(p: int)
    requires p > 0
    ensures 0 % p == 0 && 0 / p == 0
  {}

  lemma Around(p: int, o: int, q: int, c: int, j: int)
    requires o * q == c + j * TWO64
    ensures (p * o) * (q + TWO64) == p * c + (p * j + p * o) * TWO64
  {
    var n: int := TWO64;
    MulAssoc(p, o, q);
    assert p * (c + j * n) == p * c + p * (j * n);
    MulAssoc(p, j, n);
    assert (p * o) * (q + n) == (p * o) * q + (p * o) * n;
    assert (p * j + p * o) * n == (p * j) * n + (p * o) * n;
  }

  // ---------- every move arrives ----------

  lemma LowReaches(h: Header, g: Row, r: Row)
    requires h.Accepted() && Holds(h, g) && Holds(h, r) && h.minInst > 0
    ensures Runs(h, FromLow(h, r), g, g.(address := r.address, opIndex := r.opIndex), [])
  {
    hide Closed, Runs, Chain;
    var m := h.minInst as int;
    var q := r.address / m;
    var g1 := g.(address := r.address % m, opIndex := 0);
    DivBound(r.address, m);
    StepsOf(h, g1, q, r.opIndex, Ops(h, q, r.opIndex));
    assert r.address % m + m * q == r.address;
    ChainReaches(h, g1, Ops(h, q, r.opIndex));
    ThenRuns(h, SetAddress(r.address % m), Chain(Ops(h, q, r.opIndex)), g, g1,
             g.(address := r.address, opIndex := r.opIndex));
  }

  lemma AroundReaches(h: Header, g: Row, r: Row)
    requires h.Accepted() && Holds(h, g) && Holds(h, r) && InStep(h, g.address, r.address)
    ensures Runs(h, Chain(AroundTo(h, g, r)), g, g.(address := r.address, opIndex := r.opIndex), [])
  {
    hide Closed, Runs, Chain, Turns, InStep;
    var q := Turns(h, g.address, r.address) + TWO64;
    TurnsReach(h, g.address, r.address);
    StepsOf(h, g, q, r.opIndex, AroundTo(h, g, r));
    ChainReaches(h, g, AroundTo(h, g, r));
  }

  lemma SetReaches(h: Header, g: Row, r: Row)
    requires h.Accepted() && Holds(h, g) && Holds(h, r)
    ensures Runs(h, [SetAddress(r.address)] + SetOp(r), g, g.(address := r.address, opIndex := r.opIndex), [])
  {
    hide Runs, SetOp;
    var g1 := g.(address := r.address, opIndex := 0);
    SetOpReaches(h, g1, r);
    ThenRuns(h, SetAddress(r.address), SetOp(r), g, g1, g.(address := r.address, opIndex := r.opIndex));
  }

  lemma FixedReaches(h: Header, g: Row, r: Row)
    requires h.Accepted() && Holds(h, g) && Holds(h, r)
    ensures Runs(h, FixedChain(Wrap(r.address - g.address)) + SetOp(r), g,
                 g.(address := r.address, opIndex := r.opIndex), [])
  {
    hide Runs, SetOp, FixedChain;
    var n := Wrap(r.address - g.address);
    var g1 := g.(address := r.address, opIndex := 0);
    FixedChainReaches(h, g, n);
    SetOpReaches(h, g1, r);
    BothRun(h, FixedChain(n), SetOp(r), g, g1, g.(address := r.address, opIndex := r.opIndex), []);
  }

  lemma MoveReaches(h: Header, sec: Section, g: Row, r: Row)
    requires h.Accepted() && Holds(h, g) && Holds(h, r)
    ensures Runs(h, Move(h, sec, g, r), g, g.(address := r.address, opIndex := r.opIndex), [])
  {
    hide OpDelta, Closed, Advance, Runs, Chain, FixedChain, SetOp, FromLow, AroundTo, CanSet, InStep;
    var adv := OpDelta(h, g, r);
    if r.address == g.address && r.opIndex == g.opIndex {
      RunsNone(h, g);
    } else if 0 <= adv < TWO32 && h.opcodeBase > 2 {
      OpDeltaReaches(h, g, r);
      AdvanceReaches(h, g, r, adv);
      ExecOne(h, AdvancePc(adv), g);
    } else if CanSet(sec, r.address) {
      SetReaches(h, g, r);
    } else if h.opcodeBase > 9 {
      FixedReaches(h, g, r);
    } else if h.minInst > 0 && sec.addrSize in {1, 2, 4, 8} {
      LowReaches(h, g, r);
    } else if InStep(h, g.address, r.address) {
      AroundReaches(h, g, r);
    } else {
      SetReaches(h, g, r);
    }
  }

  // ---------- one row ----------

  lemma EmitterEmits(h: Header, r: Row)
    requires h.Accepted()
    ensures Exec(h, Emitter(r), r.(endSequence := false)) == (After(h, r), Some(r))
  {}

  lemma ConstAddFinish(h: Header, g: Row, r: Row, c: nat)
    requires h.Accepted() && Holds(h, g) && Holds(h, r) && AllButPlace(g, r) && !r.endSequence
    requires c == h.OpAdvance(255 - h.opcodeBase) && SpecialFits(h, OpDelta(h, g, r) - c, LineStep(g, r))
    ensures Runs(h, [ConstAddPc, SpecialFor(h, OpDelta(h, g, r) - c, LineStep(g, r))], g, After(h, r), [r])
  {
    hide Closed, Advance, Runs, OpDelta, Header.OpAdvance, Header.LineInc;
    var adv, d := OpDelta(h, g, r), LineStep(g, r);
    var g1 := Advance(h, g, c);
    ConstAddThen(h, g, r, c);
    SpecialReaches(h, g1, r, adv - c);
    ExecOne(h, SpecialFor(h, adv - c, d), g1);
    ExecCons(h, ConstAddPc, [SpecialFor(h, adv - c, d)], g, After(h, r), [r]);
    assert [ConstAddPc] + [SpecialFor(h, adv - c, d)] == [ConstAddPc, SpecialFor(h, adv - c, d)];
    assert [] + [r] == [r];
  }

  /** One special opcode that covers both distances emits the row and clears the flags. */
  lemma SpecialReaches(h: Header, g: Row, r: Row, a: int)
    requires h.Accepted() && Holds(h, g) && Holds(h, r) && AllButPlace(g, r) && !r.endSequence
    requires SpecialFits(h, a, LineStep(g, r))
    requires Closed(h, g, a) == (r.address, r.opIndex) || (a == OpDelta(h, g, r))
    ensures Exec(h, SpecialFor(h, a, LineStep(g, r)), g) == (After(h, r), Some(r))
  {
    hide Closed, Advance, OpDelta, Header.OpAdvance, Header.LineInc;
    var d := LineStep(g, r);
    assert 0 <= a < 256;
    if a == OpDelta(h, g, r) { OpDeltaReaches(h, g, r); }
    SpecialDecodes(h, a, d);
    LineReaches(g, r);
    var g1 := g.(line := r.line);
    ClosedDependsOnPlace(h, g, g1, a);
    AdvanceReaches(h, g1, r, a);
  }

  lemma ConstAddThen(h: Header, g: Row, r: Row, c: nat)
    requires h.Accepted() && Holds(h, g) && Holds(h, r) && c < 256 && OpDelta(h, g, r) >= c
    ensures var g1 := Advance(h, g, c);
      && g1 == g.(address := g1.address, opIndex := g1.opIndex) && g1.opIndex < h.maxOps
      && Closed(h, g1, OpDelta(h, g, r) - c) == (r.address, r.opIndex)
  {
    hide OpDelta;
    AdvanceIsClosed(h, g, c);
    OpDeltaReaches(h, g, r);
    ClosedAdds(h, g, c, OpDelta(h, g, r) - c);
  }

  lemma SeparateFinish(h: Header, sec: Section, g: Row, r: Row)
    requires h.Accepted() && Holds(h, g) && Holds(h, r) && AllButPlace(g, r)
    ensures var d := LineStep(g, r);
      Runs(h, Move(h, sec, g, r) + (Opt(d != 0, AdvanceLine(d)) + [Emitter(r)]), g, After(h, r), [r])
  {
    hide Runs, Move, Emitter, LineStep;
    var d := LineStep(g, r);
    var g1 := g.(address := r.address, opIndex := r.opIndex);
    EmitterEmits(h, r);
    ExecOne(h, Emitter(r), r.(endSequence := false));
    LineReaches(g1, r);
    LineStepIs(g, g1, r);
    ExecOpt(h, d != 0, AdvanceLine(d), [Emitter(r)], g1, r.(endSequence := false), After(h, r), [r]);
    MoveReaches(h, sec, g, r);
    BothRun(h, Move(h, sec, g, r), Opt(d != 0, AdvanceLine(d)) + [Emitter(r)], g, g1, After(h, r), [r]);
  }

  lemma LineStepIs(g: Row, g1: Row, r: Row)
    requires g.line == g1.line
    ensures LineStep(g, r) == LineStep(g1, r)
    ensures g.line < TWO32 && r.line < TWO32 && LineStep(g, r) == 0 ==> g.line == r.line
  {}

  /** Without advance_line: to the place, then a special opcode that moves the line alone. */
  lemma LineBySpecial(h: Header, sec: Section, g: Row, r: Row)
    requires h.Accepted() && Holds(h, g) && Holds(h, r) && AllButPlace(g, r) && !r.endSequence
    requires SpecialFits(h, 0, LineStep(g, r))
    ensures Runs(h, Move(h, sec, g, r) + [SpecialFor(h, 0, LineStep(g, r))], g, After(h, r), [r])
  {
    hide Runs, Move, LineStep, Closed, SpecialFits;
    var d := LineStep(g, r);
    var g1 := g.(address := r.address, opIndex := r.opIndex);
    LineStepIs(g, g1, r);
    MoveReaches(h, sec, g, r);
    ClosedZero(h, g1);
    SpecialReaches(h, g1, r, 0);
    ExecOne(h, SpecialFor(h, 0, d), g1);
    BothRun(h, Move(h, sec, g, r), [SpecialFor(h, 0, d)], g, g1, After(h, r), [r]);
  }

  /** Without advance_pc: a special opcode from where the registers stand, or from an address set first. */
  lemma LandEmits(h: Header, sec: Section, g: Row, r: Row, k: nat)
    requires h.Accepted() && Holds(h, g) && Holds(h, r) && AllButPlace(g, r) && !r.endSequence
    requires Lands(h, sec, g, r, LineStep(g, r), k)
    ensures Runs(h, Land(h, g, r, LineStep(g, r), k), g, After(h, r), [r])
  {
    hide Runs, LineStep, Closed, SpecialFits, CanSet;
    var d := LineStep(g, r);
    var there := Closed(h, g, k) == (r.address, r.opIndex);
    var g1 := if there then g else g.(address := Before(h, r, k), opIndex := 0);
    if !there { BeforeLeads(h, g1, r, k); }
    LineStepIs(g, g1, r);
    SpecialReaches(h, g1, r, k);
    ExecOne(h, SpecialFor(h, k, d), g1);
    ExecOpt(h, !there, SetAddress(Before(h, r, k)), [SpecialFor(h, k, d)], g, g1, After(h, r), [r]);
  }

  lemma WordWraps(w: word)
    ensures Wrap(w) == w
  {}

  lemma BeforeLeads(h: Header, g: Row, r: Row, k: nat)
    requires h.maxOps >= 1 && g.address == Before(h, r, k) && g.opIndex == 0 && k % h.maxOps == r.opIndex
    ensures Closed(h, g, k) == (r.address, r.opIndex)
  {
    hide Wrap;
    var x: int := h.minInst * (k / h.maxOps);
    WrapTwice(r.address - x, x);
    WordWraps(r.address);
  }

  lemma FinishEmits(h: Header, sec: Section, g: Row, r: Row)
    requires h.Accepted() && Holds(h, g) && Holds(h, r) && AllButPlace(g, r)
    ensures Runs(h, Finish(h, sec, g, r), g, After(h, r), [r])
  {
    hide Runs, OpDelta, Move, Land, Lands, LineStep, SpecialFits, FirstLanding, Header.OpAdvance;
    var adv, d := OpDelta(h, g, r), LineStep(g, r);
    var c := h.OpAdvance(255 - h.opcodeBase);
    SeparateFinish(h, sec, g, r);
    if !r.endSequence {
      if SpecialFits(h, adv, d) {
        SpecialReaches(h, g, r, adv);
        ExecOne(h, SpecialFor(h, adv, d), g);
      } else if h.opcodeBase > 8 && SpecialFits(h, adv - c, d) {
        ConstAddFinish(h, g, r, c);
      } else if h.opcodeBase == 3 && d != 0 && SpecialFits(h, 0, d) {
        LineBySpecial(h, sec, g, r);
      } else if h.opcodeBase <= 2 && FirstLanding(h, sec, g, r, d, 0).Some? {
        LandEmits(h, sec, g, r, FirstLanding(h, sec, g, r, d, 0).value);
      }
    }
  }

  lemma PassingReach(h: Header, g: Row, r: Row, rest: seq<Instr>, t: Row, rows: seq<Row>)
    requires h.Accepted() && Holds(h, r) && Clean(g)
    requires Runs(h, rest, g.(basicBlock := r.basicBlock, prologueEnd := r.prologueEnd,
                              epilogueBegin := r.epilogueBegin, discriminator := r.discriminator), t, rows)
    ensures Runs(h, SetPassing(r, rest), g, t, rows)
  {
    hide Runs, Opt;
    var g1 := g.(basicBlock := r.basicBlock);
    var g2 := g1.(prologueEnd := r.prologueEnd);
    var g3 := g2.(epilogueBegin := r.epilogueBegin);
    var g4 := g3.(discriminator := r.discriminator);
    var t4 := Opt(r.discriminator != 0, SetDiscriminator(r.discriminator % TWO32)) + rest;
    var t3 := Opt(r.epilogueBegin, SetEpilogueBegin) + t4;
    ExecOpt(h, r.discriminator != 0, SetDiscriminator(r.discriminator % TWO32), rest, g3, g4, t, rows);
    ExecOpt(h, r.epilogueBegin, SetEpilogueBegin, t4, g2, g3, t, rows);
    ExecOpt(h, r.prologueEnd, SetPrologueEnd, t3, g1, g2, t, rows);
    ExecOpt(h, r.basicBlock, SetBasicBlock, Opt(r.prologueEnd, SetPrologueEnd) + t3, g, g1, t, rows);
  }

  lemma LastingReach(h: Header, g: Row, r: Row, rest: seq<Instr>, t: Row, rows: seq<Row>)
    requires h.Accepted() && Holds(h, g) && Holds(h, r)
    requires Runs(h, rest, g.(fileIndex := r.fileIndex, column := r.column, isStmt := r.isStmt, isa := r.isa),
                  t, rows)
    ensures Runs(h, SetLasting(g, r, rest), g, t, rows)
  {
    hide Runs, Opt;
    var g2 := g.(fileIndex := r.fileIndex, column := r.column);
    var t3 := Opt(r.isStmt != g.isStmt, NegateStmt) + (Opt(r.isa != g.isa, SetIsa(r.isa % TWO32)) + rest);
    StmtIsaReach(h, g2, r, rest, t, rows);
    FileColumnReach(h, g, r, t3, t, rows);
  }

  lemma FileColumnReach(h: Header, g: Row, r: Row, rest: seq<Instr>, t: Row, rows: seq<Row>)
    requires h.Accepted() && Holds(h, r) && Runs(h, rest, g.(fileIndex := r.fileIndex, column := r.column), t, rows)
    ensures Runs(h, Opt(r.fileIndex != g.fileIndex, SetFile(r.fileIndex % TWO32))
                    + (Opt(r.column != g.column, SetColumn(r.column % TWO32)) + rest), g, t, rows)
  {
    hide Runs, Opt;
    var g1 := g.(fileIndex := r.fileIndex);
    ExecOpt(h, r.column != g.column, SetColumn(r.column % TWO32), rest, g1, g1.(column := r.column), t, rows);
    ExecOpt(h, r.fileIndex != g.fileIndex, SetFile(r.fileIndex % TWO32),
            Opt(r.column != g.column, SetColumn(r.column % TWO32)) + rest, g, g1, t, rows);
  }

  lemma StmtIsaReach(h: Header, g: Row, r: Row, rest: seq<Instr>, t: Row, rows: seq<Row>)
    requires h.Accepted() && Holds(h, r) && Runs(h, rest, g.(isStmt := r.isStmt, isa := r.isa), t, rows)
    ensures Runs(h, Opt(r.isStmt != g.isStmt, NegateStmt) + (Opt(r.isa != g.isa, SetIsa(r.isa % TWO32)) + rest),
                 g, t, rows)
  {
    hide Runs, Opt;
    var g1 := g.(isStmt := r.isStmt);
    ExecOpt(h, r.isa != g.isa, SetIsa(r.isa % TWO32), rest, g1, g1.(isa := r.isa), t, rows);
    ExecOpt(h, r.isStmt != g.isStmt, NegateStmt, Opt(r.isa != g.isa, SetIsa(r.isa % TWO32)) + rest, g, g1, t, rows);
  }

  /** Assembling one row from clean registers emits that row and nothing else. */
  lemma AssembleEmits(h: Header, sec: Section, g: Row, r: Row)
    requires h.Accepted() && Holds(h, g) && Holds(h, r) && Clean(g)
    ensures Runs(h, Assemble(h, sec, g, r), g, After(h, r), [r])
  {
    hide Runs, Finish, SetLasting, SetPassing;
    var g1 := g.(fileIndex := r.fileIndex, column := r.column, isStmt := r.isStmt, isa := r.isa);
    var g2 := g1.(basicBlock := r.basicBlock, prologueEnd := r.prologueEnd,
                  epilogueBegin := r.epilogueBegin, discriminator := r.discriminator);
    FinishSamePlace(h, sec, g, g2, r);
    FinishEmits(h, sec, g2, r);
    PassingReach(h, g1, r, Finish(h, sec, g, r), After(h, r), [r]);
    LastingReach(h, g, r, SetPassing(r, Finish(h, sec, g, r)), After(h, r), [r]);
  }

  lemma FinishSamePlace(h: Header, sec: Section, g: Row, t: Row, r: Row)
    requires h.Accepted() && Holds(h, g) && Holds(h, t)
    requires g.address == t.address && g.opIndex == t.opIndex && g.line == t.line
    ensures Finish(h, sec, g, r) == Finish(h, sec, t, r)
  {
    hide SpecialFits, Closed, CanSet, InStep, Chain, FixedChain, SetOp, FromLow, FirstLanding, Lands, Turns;
    LandingsSame(h, sec, g, t, r, LineStep(g, r), 0);
    forall k: nat ensures Closed(h, g, k) == Closed(h, t, k) { ClosedDependsOnPlace(h, g, t, k); }
  }

  lemma {:induction false} LandingsSame(h: Header, sec: Section, g: Row, t: Row, r: Row, d: int, k: nat)
    requires h.maxOps >= 1 && k <= 256 && g.address == t.address && g.opIndex == t.opIndex
    ensures FirstLanding(h, sec, g, r, d, k) == FirstLanding(h, sec, t, r, d, k)
    decreases 256 - k
  {
    hide SpecialFits, Closed, CanSet;
    if k < 256 {
      ClosedDependsOnPlace(h, g, t, k);
      LandingsSame(h, sec, g, t, r, d, k + 1);
    }
  }
}
