/** The operation advance of the line-number machine in closed form. */
module LineAdvance {
  import opened Words
  import opened LineProgram

  predicate IsAdvance(i: Instr) { i.Special? || i.AdvancePc? || i.ConstAddPc? }

  function Amount(h: Header, i: Instr): nat
    requires h.Accepted() && IsAdvance(i)
  {
    match i
    case Special(adj) => h.OpAdvance(adj)
    case AdvancePc(n) => n
    case ConstAddPc => h.OpAdvance(255 - h.opcodeBase)
  }

  function Total(h: Header, prog: seq<Instr>): nat
    requires h.Accepted() && forall i :: i in prog ==> IsAdvance(i)
  {
    if prog == [] then 0 else Amount(h, prog[0]) + Total(h, prog[1..])
  }

  function RunAll(h: Header, prog: seq<Instr>, r: Row): Row
    requires h.Accepted()
  {
    if prog == [] then r else RunAll(h, prog[1..], Exec(h, prog[0], r).0)
  }

  /** Where an unbounded advance by `n` operations leads. */
  function Closed(h: Header, r: Row, n: nat): (word, nat)
    requires h.maxOps >= 1
  {
    (Wrap(r.address + h.minInst * ((r.opIndex + n) / h.maxOps)), (r.opIndex + n) % h.maxOps)
  }

  lemma WrapTwice(a: int, b: int)
    ensures Wrap(Wrap(a) + b) == Wrap(a + b)
  {
    ModAddMod(b, a, TWO64);
  }

  /** Advancing twice is advancing once by the sum. */
  lemma ClosedAdds(h: Header, r: Row, a: nat, b: nat)
    requires h.maxOps >= 1
    ensures var (addr, op) := Closed(h, r, a);
      Closed(h, r.(address := addr, opIndex := op), b) == Closed(h, r, a + b)
  {
    hide Wrap;
    var m, k := h.maxOps as int, h.minInst as int;
    var s := r.opIndex + a;
    QuotientAdds(s, b, m);
    Distributes(k, s / m, (s % m + b) / m);
    WrapTwice(r.address + k * (s / m), k * ((s % m + b) / m));
  }

  lemma QuotientAdds(s: nat, b: nat, m: int)
    requires m >= 1
    ensures (s + b) / m == s / m + (s % m + b) / m && (s + b) % m == (s % m + b) % m
  {
    var q1, r1 := s / m, s % m;
    var q2, r2 := (r1 + b) / m, (r1 + b) % m;
    assert s == m * q1 + r1 && r1 + b == m * q2 + r2;
    Distributes(m, q1, q2);
    ModUnique(s + b, m, q1 + q2, r2);
  }

  lemma Distributes(k: int, q1: int, q2: int)
    ensures k * (q1 + q2) == k * q1 + k * q2 == (q1 + q2) * k
  {}

  /** One advance agrees with the unbounded one as long as op_index + operand stays below 2^64. */
  lemma AdvanceIsClosed(h: Header, r: Row, n: word)
    requires h.maxOps >= 1 && r.opIndex + n < TWO64
    ensures var t := Advance(h, r, n); t == r.(address := Closed(h, r, n).0, opIndex := Closed(h, r, n).1)
  {
    hide Wrap;
    SmallSum(r.opIndex + n);
  }

  lemma SmallSum(s: nat)
    requires s < TWO64
    ensures Wrap(s) == s
  {}

  /** A sum of op_index and operand that wraps at 64 bits does no harm under this header. */
  predicate WrapsSafely(h: Header)
    requires h.maxOps >= 1
  {
    TWO64 % h.maxOps == 0 && h.minInst % h.maxOps == 0
  }

  /** Either wrapping is harmless or the operand cannot make the sum wrap, whatever op_index is. */
  predicate Safe(h: Header, i: Instr)
    requires h.Accepted() && IsAdvance(i)
  {
    WrapsSafely(h) || Amount(h, i) + h.maxOps <= TWO64
  }

  /** Any mix of special opcodes, advance_pc and const_add_pc, however split and whatever its total,
      ends where one advance by the total ends. */
  lemma {:induction false} MixedAdvancesClosedForm(h: Header, prog: seq<Instr>, r: Row)
    requires h.Accepted() && (forall i :: i in prog ==> IsAdvance(i) && Safe(h, i)) && r.opIndex < h.maxOps
    ensures var t := RunAll(h, prog, r);
      (t.address, t.opIndex) == Closed(h, r, Total(h, prog)) && t.opIndex < h.maxOps
  {
    hide Closed, Exec, Amount, Safe;
    if prog == [] {
      ClosedZero(h, r);
    } else {
      var n := Amount(h, prog[0]);
      var t := Exec(h, prog[0], r).0;
      FirstAdvance(h, prog[0], r);
      MixedAdvancesClosedForm(h, prog[1..], t);
      ClosedAdds(h, r, n, Total(h, prog[1..]));
      ClosedDependsOnPlace(h, t, r.(address := t.address, opIndex := t.opIndex), Total(h, prog[1..]));
    }
  }

  lemma ClosedZero(h: Header, r: Row)
    requires h.maxOps >= 1 && r.opIndex < h.maxOps
    ensures Closed(h, r, 0) == (r.address, r.opIndex)
  {
    ModUnique(r.opIndex, h.maxOps, 0, r.opIndex);
  }

  lemma FirstAdvance(h: Header, i: Instr, r: Row)
    requires h.Accepted() && IsAdvance(i) && r.opIndex < h.maxOps && Safe(h, i)
    ensures var t := Exec(h, i, r).0;
      (t.address, t.opIndex) == Closed(h, r, Amount(h, i)) && t.opIndex < h.maxOps
  {
    hide Closed, Advance, WrapsSafely, Header.OpAdvance, Header.LineInc;
    if i.Special? {
      AdvanceEitherWay(h, AddLines(r, h.LineInc(i.adjusted)), Amount(h, i));
      ClosedDependsOnPlace(h, AddLines(r, h.LineInc(i.adjusted)), r, Amount(h, i));
    } else {
      AdvanceEitherWay(h, r, Amount(h, i));
    }
  }

  lemma AdvanceEitherWay(h: Header, r: Row, n: word)
    requires h.maxOps >= 1 && r.opIndex < h.maxOps && (WrapsSafely(h) || n + h.maxOps <= TWO64)
    ensures var t := Advance(h, r, n); t == r.(address := Closed(h, r, n).0, opIndex := Closed(h, r, n).1)
    ensures Advance(h, r, n).opIndex < h.maxOps
  {
    if r.opIndex + n < TWO64 { AdvanceIsClosed(h, r, n); } else { WrappingAdvanceExactlyWhen(h, r, n); }
  }

  lemma ClosedDependsOnPlace(h: Header, r: Row, t: Row, n: nat)
    requires h.maxOps >= 1 && r.address == t.address && r.opIndex == t.opIndex
    ensures Closed(h, r, n) == Closed(h, t, n)
  {}

  /** Two programs of advances with the same total leave the same address and op_index. */
  lemma SplittingChangesNothing(h: Header, prog: seq<Instr>, js: seq<Instr>, r: Row)
    requires h.Accepted() && r.opIndex < h.maxOps
    requires forall i :: i in prog ==> IsAdvance(i) && Safe(h, i)
    requires forall j :: j in js ==> IsAdvance(j) && Safe(h, j)
    requires Total(h, prog) == Total(h, js)
    ensures RunAll(h, prog, r).address == RunAll(h, js, r).address
    ensures RunAll(h, prog, r).opIndex == RunAll(h, js, r).opIndex
  {
    MixedAdvancesClosedForm(h, prog, r);
    MixedAdvancesClosedForm(h, js, r);
  }

  /** The closed form holds of every program of advances from every place. */
  ghost predicate AlwaysClosed(h: Header)
    requires h.Accepted()
  {
    forall prog: seq<Instr>, r: Row :: (forall i :: i in prog ==> IsAdvance(i)) && r.opIndex < h.maxOps ==>
      (RunAll(h, prog, r).address, RunAll(h, prog, r).opIndex) == Closed(h, r, Total(h, prog))
  }

  /** It does so under a header exactly when wrapping is harmless there; otherwise the largest operand
      from the last op_index is a counterexample. */
  lemma ClosedFormExactlyWhen(h: Header)
    requires h.Accepted()
    ensures AlwaysClosed(h) <==> WrapsSafely(h)
  {
    hide Closed, Exec, Advance;
    if WrapsSafely(h) {
      forall prog: seq<Instr>, r: Row | (forall i :: i in prog ==> IsAdvance(i)) && r.opIndex < h.maxOps
        ensures (RunAll(h, prog, r).address, RunAll(h, prog, r).opIndex) == Closed(h, r, Total(h, prog))
      {
        MixedAdvancesClosedForm(h, prog, r);
      }
    } else {
      var r := Reset(true).(opIndex := h.maxOps - 1);
      LargestOperandFails(h, r);
    }
  }

  lemma LargestOperandFails(h: Header, r: Row)
    requires h.Accepted() && !WrapsSafely(h) && r.opIndex == h.maxOps - 1
    ensures !AlwaysClosed(h)
  {
    hide Closed, Advance;
    var n: word := 0xffff_ffff_ffff_ffff;
    var prog := [AdvancePc(n)];
    if h.maxOps == 1 { OneIsSafe(h); }
    WrappingAdvanceExactlyWhen(h, r, n);
    assert prog[1..] == [];
    assert RunAll(h, prog, r) == Advance(h, r, n) && Total(h, prog) == n;
    AdvanceMoves(h, r, n);
  }

  lemma OneIsSafe(h: Header)
    requires h.maxOps == 1
    ensures WrapsSafely(h)
  {}

  lemma AdvanceMoves(h: Header, r: Row, n: word)
    requires h.maxOps >= 1
    ensures var t := Advance(h, r, n); t == r.(address := t.address, opIndex := t.opIndex)
  {}

  /** When the 64-bit sum of op_index and operand wraps, the code still agrees with the standard
      exactly if max_ops is a power of two (it divides 2^64) that also divides min_inst_length. */
  lemma WrappingAdvanceExactlyWhen(h: Header, r: Row, n: word)
    requires h.maxOps >= 1 && r.opIndex < h.maxOps && r.opIndex + n >= TWO64
    ensures Advance(h, r, n) == r.(address := Closed(h, r, n).0, opIndex := Closed(h, r, n).1)
            <==> TWO64 % h.maxOps == 0 && h.minInst % h.maxOps == 0
  {
    var m, k := h.maxOps as int, h.minInst as int;
    var s := r.opIndex + n - TWO64;
    ModUnique(r.opIndex + n, TWO64, 1, s);
    if TWO64 % m == 0 {
      var q := TWO64 / m;
      var (a, b) := (s / m, s % m);
      assert TWO64 == q * m && s == m * a + b;
      MulSum(q, a, m);
      ModUnique(s + TWO64, m, q + a, b);
      Spread(k, q, a);
      WrapAddsNothingExactlyWhen(r.address + k * a, k * q);
      QuotientVanishesExactlyWhen(k, m, q);
    } else {
      RemainderMoves(s, TWO64, m);
    }
  }

  lemma MulSum(q: int, a: int, m: int)
    ensures q * m + m * a == (q + a) * m
  {}

  lemma Spread(k: int, q: int, a: int)
    ensures k * (q + a) == k * a + k * q
  {}

  lemma WrapAddsNothingExactlyWhen(x: int, d: int)
    ensures Wrap(x) == Wrap(x + d) <==> d % TWO64 == 0
  {
    ModAddMod(x, d, TWO64);
    ModAddMod(d, x, TWO64);
    var a, b := x % TWO64, d % TWO64;
    if b != 0 {
      if a + b < TWO64 { ModUnique(a + b, TWO64, 0, a + b); } else { ModUnique(a + b, TWO64, 1, a + b - TWO64); }
    }
  }

  lemma QuotientVanishesExactlyWhen(k: nat, m: nat, q: nat)
    requires 1 <= m && q * m == TWO64
    ensures (k * q) % TWO64 == 0 <==> k % m == 0
  {
    var a, b := k / m, k % m;
    assert k == m * a + b;
    Regroup(m, a, b, q);
    MulMono(0, b, q);
    MulMono(b + 1, m, q);
    assert (b + 1) * q == b * q + q;
    ModUnique(k * q, TWO64, a, b * q);
  }

  lemma Regroup(m: int, a: int, b: int, q: int)
    ensures (m * a + b) * q == a * (q * m) + b * q
  {}

  lemma RemainderMoves(s: nat, d: nat, m: nat)
    requires m >= 1 && d % m != 0
    ensures (s + d) % m != s % m
  {
    ModAddMod(s, d, m);
    ModAddMod(d % m, s, m);
    var a, b := s % m, d % m;
    if a + b < m { ModUnique(a + b, m, 0, a + b); } else { ModUnique(a + b, m, 1, a + b - m); }
  }
}
