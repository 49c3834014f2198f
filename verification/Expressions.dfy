/** The DWARF expression machine (section 2.5.1 of DWARF Version 4), as the program evaluates it. */
module Expressions {
  import opened Words
  import opened Sections
  import SmallVectors

  /** What an expression may ask of the stopped program; registers are numbered with 32 bits. */
  datatype Context = Context(
    reg: nat -> word,
    derefSize: (word, nat) -> word,
    xderefSize: (word, word, nat) -> word,
    tlsAddress: word -> word)

  datatype Location =
    | Address(value: word)
    | Register(value: word)
    | Literal(value: word)
    | Implicit(offset: nat, len: word)
    | Empty

  /** The elements that the stack holds without a heap block. */
  const INLINE := 8

  /** The machine: next byte, stack (top last), the location a descriptor has set, if any, and how many
      elements the stack has room for. */
  datatype Vm = Vm(pos: nat, stack: seq<word>, loc: Option<Location>, cap: nat) {
    function To(pos: nat, stack: seq<word>): Vm {
      Vm(pos, stack, loc, SmallVectors.Capacity(cap, |stack|))
    }

    /** Whether one more push frees the block that the stack is in. */
    predicate Frees() { |stack| == cap && cap > INLINE }
  }

  // ---------- operands that are pushed ----------

  function SignExtend(v: word, n: nat): word
    requires n <= 8
  {
    if v < Pow2(8 * n) && v >= Pow2(8 * n) / 2 then Wrap(v - Pow2(8 * n)) else v
  }

  function SignedFixedAt(sec: Section, pos: nat, n: nat): (r: Result<(word, nat)>)
    requires n <= 8
  {
    var v :- FixedAt(sec, pos, n);
    Ok((SignExtend(v.0, n), v.1))
  }

  function SignedLebWordAt(sec: Section, pos: nat): Result<(word, nat)> {
    var v :- SignedAt(sec, pos);
    Ok((Wrap(v.0), v.1))
  }

  predicate IsLiteralOp(op: word) { 0x30 <= op <= 0x4f || op == 0x03 || 0x08 <= op <= 0x11 }

  /** Section 2.5.1.1: literal encodings. */
  function LiteralAt(sec: Section, op: word, pos: nat): Result<(word, nat)>
    requires IsLiteralOp(op)
  {
    if op >= 0x30 then Ok((op - 0x30, pos))
    else if op == 0x03 then AddressAt(sec, pos)
    else if op == 0x08 then FixedAt(sec, pos, 1)
    else if op == 0x0a then FixedAt(sec, pos, 2)
    else if op == 0x0c then FixedAt(sec, pos, 4)
    else if op == 0x0e then FixedAt(sec, pos, 8)
    else if op == 0x09 then SignedFixedAt(sec, pos, 1)
    else if op == 0x0b then SignedFixedAt(sec, pos, 2)
    else if op == 0x0d then SignedFixedAt(sec, pos, 4)
    else if op == 0x0f then SignedFixedAt(sec, pos, 8)
    else if op == 0x10 then UnsignedAt(sec, pos)
    else SignedLebWordAt(sec, pos)
  }

  predicate IsBaseOp(op: word) { 0x70 <= op <= 0x8f || op == 0x92 || op == 0x9c }

  /** Section 2.5.1.2, and call_frame_cfa as x86_64 computes it. */
  function BaseAt(ctx: Context, sec: Section, op: word, pos: nat): Result<(word, nat)>
    requires IsBaseOp(op)
  {
    if op == 0x9c then Ok((Wrap(ctx.reg(6) + 16), pos))
    else if op == 0x92 then
      var r :- UnsignedAt(sec, pos);
      var off :- SignedAt(sec, r.1);
      Ok((Wrap(ctx.reg(r.0 % TWO32) + off.0), off.1))
    else
      var off :- SignedAt(sec, pos);
      Ok((Wrap(ctx.reg(op - 0x70) + off.0), off.1))
  }

  // ---------- operations on the stack alone ----------

  function Top(s: seq<word>): word requires |s| >= 1 { s[|s| - 1] }
  function Second(s: seq<word>): word requires |s| >= 2 { s[|s| - 2] }

  datatype UnOp = Abs | Neg | Not
  datatype BinOp = And | Minus | Mul | Or | Plus | Shl_ | Shr_ | Xor | Le

  function Unary(op: UnOp, a: word): word {
    match op
    case Abs => if ToSigned(a) < 0 then Negate(a) else a
    case Neg => Negate(a)
    case Not => TWO64 - 1 - a
  }

  function Binary(op: BinOp, a: word, b: word): word {
    match op
    case And => Bits(BitAnd, a, b)
    case Minus => Wrap(a - b)
    case Mul => Wrap(a * b)
    case Or => Bits(BitOr, a, b)
    case Plus => Wrap(a + b)
    case Shl_ => if b < 64 then Shl(a, b) else 0
    case Shr_ => if b < 64 then Shr(a, b) else 0
    case Xor => Bits(BitXor, a, b)
    case Le => if ToSigned(a) <= ToSigned(b) then 1 else 0
  }

  /** Truncating division of top by second; C++ leaves zero divisors and overflow undefined. */
  function Divide(top: word, second: word): Result<word> {
    var a, b := ToSigned(top), ToSigned(second);
    if b == 0 || (a == -TWO63 && b == -1) then Err(Undefined)
    else
      var q := (if a < 0 then -a else a) / (if b < 0 then -b else b);
      Ok(Wrap(if (a < 0) == (b < 0) then q else -q))
  }

  /** The arithmetic shift the program performs: towards zero. */
  function ShiftArith(a: word, n: word): word {
    var negative := ToSigned(a) < 0;
    var m := if negative then Negate(a) else a;
    var r := if n < 64 then Shr(m, n) else 0;
    if negative then Negate(r) else r
  }

  function UnOpOf(op: word): Option<UnOp> {
    if op == 0x19 then Some(Abs) else if op == 0x1f then Some(Neg) else if op == 0x20 then Some(Not) else None
  }

  /** Every relational operator is the same macro, whose body compares with `<=`. */
  function BinOpOf(op: word): Option<BinOp> {
    if op == 0x1a then Some(And)
    else if op == 0x1c then Some(Minus)
    else if op == 0x1e then Some(Mul)
    else if op == 0x21 then Some(Or)
    else if op == 0x22 then Some(Plus)
    else if op == 0x24 then Some(Shl_)
    else if op == 0x25 then Some(Shr_)
    else if op == 0x27 then Some(Xor)
    else if 0x29 <= op <= 0x2e then Some(Le)
    else None
  }

  predicate IsArithOp(op: word) { (0x19 <= op <= 0x27 && op != 0x23) || 0x29 <= op <= 0x2e }

  function Arith(op: word, s: seq<word>): Result<seq<word>>
    requires IsArithOp(op)
  {
    if UnOpOf(op).Some? then
      if |s| < 1 then Err(ExprError) else Ok(s[..|s| - 1] + [Unary(UnOpOf(op).value, Top(s))])
    else if |s| < 2 then Err(ExprError)
    else
      var rest := s[..|s| - 2];
      if BinOpOf(op).Some? then Ok(rest + [Binary(BinOpOf(op).value, Second(s), Top(s))])
      else if op == 0x1b then
        var q :- Divide(Top(s), Second(s));
        Ok(rest + [q])
      else if op == 0x1d then
        if Top(s) == 0 then Err(Undefined) else Ok(rest + [Second(s) % Top(s)])
      else Ok(rest + [ShiftArith(Second(s), Top(s))])
  }

  predicate IsStackOp(op: word) { op in {0x12, 0x13, 0x14, 0x16, 0x17} }

  /** Section 2.5.1.3 without operands: dup, drop, over, swap, rot. */
  function StackOp(op: word, s: seq<word>): Result<seq<word>>
    requires IsStackOp(op)
  {
    var n := |s|;
    if op == 0x12 then if n < 1 then Err(ExprError) else Ok(s + [s[n - 1]])
    else if op == 0x13 then if n < 1 then Err(ExprError) else Ok(s[..n - 1])
    else if op == 0x14 then if n < 2 then Err(ExprError) else Ok(s + [s[n - 2]])
    else if op == 0x16 then if n < 2 then Err(ExprError) else Ok(s[..n - 2] + [s[n - 1], s[n - 2]])
    else if n < 3 then Err(ExprError) else Ok(s[..n - 3] + [s[n - 1], s[n - 3], s[n - 2]])
  }

  /** dup and over push a reference to an element, which is gone if the push frees it. */
  function StackOpIn(op: word, s: seq<word>, frees: bool): Result<seq<word>>
    requires IsStackOp(op)
  {
    var t :- StackOp(op, s);
    if frees && (op == 0x12 || op == 0x14) then Err(Undefined) else Ok(t)
  }

  // ---------- operations with an operand and the stack ----------

  predicate IsMixedOp(op: word) { op in {0x15, 0x06, 0x94, 0x18, 0x95, 0x9b, 0x23} }

  /** A size operand may not exceed the address size. */
  function DerefSizeAt(sec: Section, op: word, pos: nat): Result<(nat, nat)> {
    if op == 0x06 || op == 0x18 then Ok((sec.addrSize, pos))
    else
      var n :- FixedAt(sec, pos, 1);
      if n.0 > sec.addrSize then Err(ExprError) else Ok((n.0 as nat, n.1))
  }

  /** pick, deref, deref_size, xderef, xderef_size, form_tls_address, plus_uconst. */
  function Mixed(ctx: Context, sec: Section, op: word, pos: nat, s: seq<word>): Result<(seq<word>, nat)>
    requires IsMixedOp(op)
  {
    var k := |s|;
    if op == 0x15 then
      var n :- FixedAt(sec, pos, 1);
      if k < n.0 then Err(ExprError)
      else if k == n.0 then Err(Undefined)
      else Ok((s + [s[k - 1 - n.0]], n.1))
    else if op == 0x9b then
      if k < 1 then Err(ExprError) else Ok((s[..k - 1] + [ctx.tlsAddress(Top(s))], pos))
    else if op == 0x23 then
      var n :- UnsignedAt(sec, pos);
      if k < 1 then Err(ExprError) else Ok((s[..k - 1] + [Wrap(Top(s) + n.0)], n.1))
    else
      var n :- DerefSizeAt(sec, op, pos);
      if op == 0x06 || op == 0x94 then
        if k < 1 then Err(ExprError) else Ok((s[..k - 1] + [ctx.derefSize(Top(s), n.0)], n.1))
      else if k < 2 then Err(ExprError)
      else Ok((s[..k - 2] + [ctx.xderefSize(Top(s), Second(s), n.0)], n.1))
  }

  /** So does pick. */
  function MixedIn(ctx: Context, sec: Section, op: word, pos: nat, s: seq<word>, frees: bool):
      Result<(seq<word>, nat)>
    requires IsMixedOp(op)
  {
    var t :- Mixed(ctx, sec, op, pos, s);
    if frees && op == 0x15 then Err(Undefined) else Ok(t)
  }

  // ---------- control flow ----------

  function Signed16At(sec: Section, pos: nat): Result<(int, nat)> {
    var n :- FixedAt(sec, pos, 2);
    Ok((if n.0 < 0x8000 then n.0 else n.0 - 0x1_0000, n.1))
  }

  /** A jump before the expression would read outside it. */
  function Jump(pos: nat, offset: int): Result<nat> {
    if pos + offset < 0 then Err(Undefined) else Ok(pos + offset)
  }

  /** skip (0x2f) and bra (0x28), which pops its condition. */
  function Control(sec: Section, op: word, pos: nat, s: seq<word>): Result<(seq<word>, nat)>
    requires op in {0x28, 0x2f}
  {
    var off :- Signed16At(sec, pos);
    if op == 0x2f then
      var to :- Jump(off.1, off.0);
      Ok((s, to))
    else if |s| < 1 then Err(ExprError)
    else if Top(s) == 0 then Ok((s[..|s| - 1], off.1))
    else
      var to :- Jump(off.1, off.0);
      Ok((s[..|s| - 1], to))
  }

  // ---------- location descriptors ----------

  predicate IsLocationOp(op: word) { 0x50 <= op <= 0x6f || op in {0x90, 0x9e, 0x9f} }

  /** reg0..reg31, regx, implicit_value (the cursor stays at the block), stack_value. */
  function Locate(sec: Section, op: word, pos: nat, s: seq<word>): Result<(Location, nat)>
    requires IsLocationOp(op)
  {
    if 0x50 <= op <= 0x6f then Ok((Register(op - 0x50), pos))
    else if op == 0x90 then
      var r :- UnsignedAt(sec, pos);
      Ok((Register(r.0), r.1))
    else if op == 0x9e then
      var len :- UnsignedAt(sec, pos);
      if len.1 + len.0 > |sec.data| || len.1 == |sec.data| then Err(Underflow)
      else Ok((Implicit(len.1, len.0), len.1))
    else if |s| < 1 then Err(ExprError)
    else Ok((Literal(Top(s)), pos))
  }

  // ---------- the machine ----------

  /** fbreg is not modelled; the others are refused by the program itself. */
  predicate IsUnsupportedOp(op: word) { op in {0x91, 0x93, 0x97, 0x98, 0x99, 0x9a, 0x9d} }

  function Dispatch(ctx: Context, sec: Section, op: word, vm: Vm): Result<Vm> {
    if IsLiteralOp(op) then
      var v :- LiteralAt(sec, op, vm.pos);
      Ok(vm.To(v.1, vm.stack + [v.0]))
    else if IsBaseOp(op) then
      var v :- BaseAt(ctx, sec, op, vm.pos);
      Ok(vm.To(v.1, vm.stack + [v.0]))
    else if IsStackOp(op) then
      var s :- StackOpIn(op, vm.stack, vm.Frees());
      Ok(vm.To(vm.pos, s))
    else if IsArithOp(op) then
      var s :- Arith(op, vm.stack);
      Ok(vm.To(vm.pos, s))
    else if IsMixedOp(op) then
      var r :- MixedIn(ctx, sec, op, vm.pos, vm.stack, vm.Frees());
      Ok(vm.To(r.1, r.0))
    else if op in {0x28, 0x2f} then
      var r :- Control(sec, op, vm.pos, vm.stack);
      Ok(vm.To(r.1, r.0))
    else if IsLocationOp(op) then
      var r :- Locate(sec, op, vm.pos, vm.stack);
      Ok(vm.(pos := r.1, loc := Some(r.0)))
    else if op == 0x96 then Ok(vm)
    else if IsUnsupportedOp(op) then Err(NotImplemented)
    else Err(ExprError)
  }

  function Step(ctx: Context, sec: Section, vm: Vm): Result<Vm> {
    var op :- FixedAt(sec, vm.pos, 1);
    Dispatch(ctx, sec, op.0, vm.(pos := op.1))
  }

  datatype Outcome = Finished(vm: Vm) | Failed(error: Error) | OutOfFuel(vm: Vm)

  /** Up to `fuel` operations; jumps may go backwards, so an expression need not end. */
  function Run(ctx: Context, sec: Section, vm: Vm, fuel: nat): Outcome
    decreases fuel
  {
    if vm.pos >= |sec.data| then Finished(vm)
    else if fuel == 0 then OutOfFuel(vm)
    else
      match Step(ctx, sec, vm)
      case Err(e) => Failed(e)
      case Ok(next) => Run(ctx, sec, next, fuel - 1)
  }

  function Reversed(args: seq<word>): seq<word> {
    if args == [] then [] else Reversed(args[1..]) + [args[0]]
  }

  /** The machine with the arguments on its stack, for which room was made at once. */
  function Start(args: seq<word>): Vm {
    Vm(0, Reversed(args), None, SmallVectors.Capacity(INLINE, |args|))
  }

  datatype Evaluated = Value(loc: Location) | Error(error: Error) | StillRunning

  /** The first argument is the top of the initial stack; an empty expression has an empty location. */
  function Evaluate(ctx: Context, sec: Section, args: seq<word>, fuel: nat): Evaluated {
    if sec.data == [] then Value(Empty)
    else
      match Run(ctx, sec, Start(args), fuel)
      case Failed(e) => Error(e)
      case OutOfFuel(_) => StillRunning
      case Finished(vm) =>
        if vm.loc.Some? then Value(vm.loc.value)
        else if vm.stack == [] then Error(ExprError)
        else Value(Address(Top(vm.stack)))
  }

  // ---------- the operators whose results differ from the standard ----------

  datatype RelOp = RelEq | RelGe | RelGt | RelLe | RelLt | RelNe

  function RelOpcode(r: RelOp): word {
    match r
    case RelEq => 0x29 case RelGe => 0x2a case RelGt => 0x2b case RelLe => 0x2c case RelLt => 0x2d case RelNe => 0x2e
  }

  /** Section 2.5.1.5: second-from-top compared with top, signed. */
  predicate Holds(r: RelOp, a: int, b: int) {
    match r
    case RelEq => a == b
    case RelGe => a >= b
    case RelGt => a > b
    case RelLe => a <= b
    case RelLt => a < b
    case RelNe => a != b
  }

  /** The comparison operators give the standard's answer exactly as listed: `le` always, `ge` for
      equal operands, `eq` unless the first is smaller, `lt` unless they are equal, `ne` when the first
      is smaller, `gt` never. */
  lemma RelationalRightExactlyWhen(r: RelOp, s: seq<word>)
    requires |s| >= 2
    ensures var (a, b) := (ToSigned(Second(s)), ToSigned(Top(s)));
      Arith(RelOpcode(r), s) == Ok(s[..|s| - 2] + [if Holds(r, a, b) then 1 else 0])
      <==> match r
           case RelLe => true
           case RelGe => a == b
           case RelEq => a >= b
           case RelLt => a != b
           case RelNe => a < b
           case RelGt => false
  {
    var (a, b) := (ToSigned(Second(s)), ToSigned(Top(s)));
    var got := s[..|s| - 2] + [if a <= b then 1 else 0];
    var want := s[..|s| - 2] + [if Holds(r, a, b) then 1 else 0];
    assert got[|s| - 2] == want[|s| - 2] ==> got == want;
  }

  function Magnitude(w: word): nat { if ToSigned(w) < 0 then -ToSigned(w) else ToSigned(w) }

  /** `div` divides the top by the second element, where section 2.5.1.4 divides the second by the top:
      whenever the standard's quotient is defined, the code gives it exactly for operands of equal
      magnitude. */
  lemma DivideRightExactlyWhen(s: seq<word>)
    requires |s| >= 2 && Divide(Second(s), Top(s)).Ok?
    ensures Arith(0x1b, s) == Ok(s[..|s| - 2] + [Divide(Second(s), Top(s)).value])
            <==> Magnitude(Top(s)) == Magnitude(Second(s))
  {
    hide Divide, Magnitude;
    DivideAgreesExactlyWhen(Top(s), Second(s));
    var rest, want := s[..|s| - 2], Divide(Second(s), Top(s)).value;
    if Divide(Top(s), Second(s)).Ok? {
      var got := Divide(Top(s), Second(s)).value;
      assert (rest + [got])[|rest|] == (rest + [want])[|rest|] ==> got == want;
    }
  }

  lemma DivideAgreesExactlyWhen(top: word, second: word)
    requires Divide(second, top).Ok?
    ensures Divide(top, second) == Divide(second, top) <==> Magnitude(top) == Magnitude(second)
  {
    var a, b := Magnitude(top), Magnitude(second);
    if b > 0 {
      SmallerVanishes(a, b);
      SmallerVanishes(b, a);
      QuotientFits(a, b);
      QuotientFits(b, a);
      WrapNegated(a / b);
      WrapNegated(b / a);
    }
  }

  lemma SmallerVanishes(a: nat, b: nat)
    requires b > 0
    ensures a < b ==> a / b == 0
    ensures a == b ==> a / b == 1
    ensures a > b ==> a / b > 0
  {
    if a < b { ModUnique(a, b, 0, a); }
    if a == b { ModUnique(a, b, 1, 0); }
  }

  /** Flooring quotient of a signed value by a power of two: the standard's arithmetic shift. */
  function FloorShift(a: int, n: nat): int { a / Pow2(n) }

  /** `shra` agrees with an arithmetic shift exactly for non-negative values and for negative ones that
      lose no set bit. */
  lemma ShiftArithRightExactlyWhen(a: word, n: word)
    ensures ShiftArith(a, n) == Wrap(FloorShift(ToSigned(a), n))
            <==> ToSigned(a) >= 0 || ToSigned(a) % Pow2(n) == 0
  {
    var z, p := ToSigned(a), Pow2(n);
    ShiftOfMagnitude(if z < 0 then -z else z, n);
    if z < 0 {
      var q, r := (-z) / p, (-z) % p;
      NegatedQuotient(z, p);
      QuotientFits(-z, p);
      if r == 0 {
        WrapNegated(q);
      } else {
        WrapNegated(q);
        WrapNegated(q + 1);
      }
    }
  }

  lemma ShiftOfMagnitude(m: nat, n: nat)
    requires m <= TWO63
    ensures (if n < 64 then Shr(m, n) else 0) == m / Pow2(n)
  {
    if n >= 64 {
      Pow2Is64();
      if n > 64 { Pow2Below(64, n); }
      ModUnique(m, Pow2(n), 0, m);
    }
  }

  lemma NegatedQuotient(z: int, p: int)
    requires p >= 1 && z < 0
    ensures z / p == if (-z) % p == 0 then -((-z) / p) else -((-z) / p) - 1
    ensures z % p == 0 <==> (-z) % p == 0
  {
    var q, r := (-z) / p, (-z) % p;
    assert -z == p * q + r;
    if r == 0 {
      NegateProduct(p, q, 0);
      ModUnique(z, p, -q, 0);
    } else {
      NegateProduct(p, q, r);
      ModUnique(z, p, -q - 1, p - r);
    }
  }

  lemma NegateProduct(p: int, q: int, r: int)
    ensures -(p * q + r) == (-q) * p - r == (-q - 1) * p + (p - r)
  {}

  lemma QuotientFits(m: nat, p: int)
    requires p >= 1 && m <= TWO63
    ensures 0 <= m / p <= TWO63
  {
    DivBound(m, p);
  }

  lemma WrapNegated(q: nat)
    requires q <= TWO63 + 1
    ensures Wrap(0 - q) == Negate(q)
  {
    if q > 0 { ModUnique(0 - q, TWO64, -1, TWO64 - q); }
  }
}
