/** The operations that compiled trees do not use, one step at a time (sections 2.5.1.3 to 2.5.1.6 of DWARF
    Version 4): what becomes of the stack they find. */
module Operations {
  import opened Words
  import opened Sections
  import opened Expressions
  import opened ExprCompiler
  import opened SmallVectors

  // ---------- moving elements ----------

  /** drop, over and rot, on a stack that ends with a, b, c. */
  lemma StackMoves(ctx: Context, sec: Section, vm: Vm, s: seq<word>, a: word, b: word, c: word)
    requires vm.pos < |sec.data| && vm.stack == s + [a, b, c]
    ensures sec.data[vm.pos] == 0x13 ==> Step(ctx, sec, vm) == Ok(vm.To(vm.pos + 1, s + [a, b]))
    ensures sec.data[vm.pos] == 0x14 ==>
      Step(ctx, sec, vm) == if vm.Frees() then Err(Undefined) else Ok(vm.To(vm.pos + 1, s + [a, b, c, b]))
    ensures sec.data[vm.pos] == 0x17 ==> Step(ctx, sec, vm) == Ok(vm.To(vm.pos + 1, s + [c, a, b]))
  {
    hide FixedAt, Capacity;
    ByteAt(sec, vm.pos);
    assert vm.stack[..|vm.stack| - 1] == s + [a, b];
    assert vm.stack[..|vm.stack| - 3] == s;
    assert s + [a, b, c] + [b] == s + [a, b, c, b];
  }

  lemma BytesAt(sec: Section, pos: nat, op: byte, n: byte)
    requires At(sec.data, pos, [op, n])
    ensures FixedAt(sec, pos, 1) == Ok((op, pos + 1)) && FixedAt(sec, pos + 1, 1) == Ok((n, pos + 2))
  {
    hide FixedAt;
    assert sec.data[pos] == sec.data[pos..pos + 2][0] && sec.data[pos + 1] == sec.data[pos..pos + 2][1];
    ByteAt(sec, pos);
    ByteAt(sec, pos + 1);
  }

  /** pick pushes the element with as many above it as its operand says. */
  lemma PickStep(ctx: Context, sec: Section, vm: Vm, s: seq<word>, a: word, above: seq<word>, n: byte)
    requires At(sec.data, vm.pos, [0x15, n]) && vm.stack == s + [a] + above && |above| == n
    ensures Step(ctx, sec, vm) ==
      if vm.Frees() then Err(Undefined) else Ok(vm.To(vm.pos + 2, vm.stack + [a]))
  {
    hide At, FixedAt, Capacity;
    BytesAt(sec, vm.pos, 0x15, n);
    assert vm.stack[|vm.stack| - 1 - n] == a;
  }

  /** One element too far it reads in front of the stack; further it fails. */
  lemma PickTooFar(ctx: Context, sec: Section, vm: Vm, n: byte)
    requires At(sec.data, vm.pos, [0x15, n]) && n >= |vm.stack|
    ensures Step(ctx, sec, vm) == Err(if n == |vm.stack| then Undefined else ExprError)
  {
    hide At, FixedAt;
    BytesAt(sec, vm.pos, 0x15, n);
  }

  /** How many elements an operation without operands takes. */
  function Takes(op: byte): nat {
    if op in {0x12, 0x13, 0x19, 0x1f, 0x20, 0x06, 0x9b, 0x9f} then 1
    else if op in {0x14, 0x16, 0x18} || 0x1a <= op <= 0x1e || op in {0x21, 0x22} || 0x24 <= op <= 0x27
      || 0x29 <= op <= 0x2e then 2
    else if op == 0x17 then 3
    else 0
  }

  /** With fewer on the stack, the operation fails. */
  lemma TooFewFail(ctx: Context, sec: Section, vm: Vm)
    requires vm.pos < |sec.data| && |vm.stack| < Takes(sec.data[vm.pos])
    ensures Step(ctx, sec, vm) == Err(ExprError)
  {
    hide FixedAt, Divide, ShiftArith, Binary, Unary;
    ByteAt(sec, vm.pos);
  }

  // ---------- memory ----------

  /** xderef takes the address from the top and the address space from below it; form_tls_address replaces
      the top; nop does nothing. */
  lemma SpaceSteps(ctx: Context, sec: Section, vm: Vm, s: seq<word>, space: word, a: word)
    requires vm.pos < |sec.data| && vm.stack == s + [space, a]
    ensures sec.data[vm.pos] == 0x18 ==>
      Step(ctx, sec, vm) == Ok(vm.To(vm.pos + 1, s + [ctx.xderefSize(a, space, sec.addrSize)]))
    ensures sec.data[vm.pos] == 0x9b ==>
      Step(ctx, sec, vm) == Ok(vm.To(vm.pos + 1, s + [space, ctx.tlsAddress(a)]))
    ensures sec.data[vm.pos] == 0x96 ==> Step(ctx, sec, vm) == Ok(vm.(pos := vm.pos + 1))
  {
    hide FixedAt, Capacity;
    ByteAt(sec, vm.pos);
    assert vm.stack[..|vm.stack| - 1] == s + [space];
    assert vm.stack[..|vm.stack| - 2] == s;
    assert s + [space] + [ctx.tlsAddress(a)] == s + [space, ctx.tlsAddress(a)];
  }

  /** A size operand is used if it is at most the address size, and refused otherwise. */
  lemma SizedSteps(ctx: Context, sec: Section, vm: Vm, s: seq<word>, space: word, a: word, n: byte)
    requires vm.stack == s + [space, a] && vm.pos + 1 < |sec.data| && sec.data[vm.pos + 1] == n
    ensures sec.data[vm.pos] == 0x95 ==>
      Step(ctx, sec, vm) ==
        if n > sec.addrSize then Err(ExprError) else Ok(vm.To(vm.pos + 2, s + [ctx.xderefSize(a, space, n)]))
    ensures sec.data[vm.pos] == 0x94 && n > sec.addrSize ==> Step(ctx, sec, vm) == Err(ExprError)
  {
    hide FixedAt, Capacity;
    ByteAt(sec, vm.pos);
    ByteAt(sec, vm.pos + 1);
    assert vm.stack[..|vm.stack| - 2] == s;
  }

  // ---------- division and shifts ----------

  /** div gives the quotient of the top by the second, truncated towards zero: the q that leaves a
      remainder smaller than the divisor and with the sign of the dividend. */
  lemma DivStep(ctx: Context, sec: Section, vm: Vm, s: seq<word>, second: word, top: word, q: int, r: int)
    requires vm.pos < |sec.data| && sec.data[vm.pos] == 0x1b && vm.stack == s + [second, top]
    requires var (a, b) := (ToSigned(top), ToSigned(second));
      && a == b * q + r && (0 <= r < b || 0 <= r < -b || b < r <= 0 || -b < r <= 0)
      && (a >= 0 ==> r >= 0) && (a <= 0 ==> r <= 0)
    ensures Step(ctx, sec, vm) ==
      if ToSigned(top) == -TWO63 && ToSigned(second) == -1 then Err(Undefined)
      else Ok(vm.To(vm.pos + 1, s + [q % TWO64]))
  {
    hide FixedAt, Capacity, Divide, ToSigned;
    ByteAt(sec, vm.pos);
    assert vm.stack[..|vm.stack| - 2] == s;
    QuotientIs(top, second, q, r);
  }

  lemma QuotientIs(top: word, second: word, q: int, r: int)
    requires var (a, b) := (ToSigned(top), ToSigned(second));
      && a == b * q + r && (0 <= r < b || 0 <= r < -b || b < r <= 0 || -b < r <= 0)
      && (a >= 0 ==> r >= 0) && (a <= 0 ==> r <= 0)
    ensures Divide(top, second) ==
      if ToSigned(top) == -TWO63 && ToSigned(second) == -1 then Err(Undefined) else Ok(q % TWO64)
  {
    var a, b := ToSigned(top), ToSigned(second);
    var m, d := if a < 0 then -a else a, if b < 0 then -b else b;
    var p := if (a < 0) == (b < 0) then q else -q;
    SignsMultiply(a, b, q, r);
    ModUnique(m, d, p, if r < 0 then -r else r);
  }

  lemma SignsMultiply(a: int, b: int, q: int, r: int)
    requires a == b * q + r && (a >= 0 ==> r >= 0) && (a <= 0 ==> r <= 0)
    ensures var p := if (a < 0) == (b < 0) then q else -q;
      (if a < 0 then -a else a) == (if b < 0 then -b else b) * p + (if r < 0 then -r else r)
  {}

  /** By zero it has no meaning. */
  lemma DivByZero(ctx: Context, sec: Section, vm: Vm, s: seq<word>, top: word)
    requires vm.pos < |sec.data| && vm.stack == s + [0, top] && sec.data[vm.pos] == 0x1b
    ensures Step(ctx, sec, vm) == Err(Undefined)
  {
    hide FixedAt;
    ByteAt(sec, vm.pos);
  }

  /** mod is unsigned, of the second by the top. */
  lemma ModStep(ctx: Context, sec: Section, vm: Vm, s: seq<word>, second: word, top: word, q: int, r: word)
    requires vm.pos < |sec.data| && sec.data[vm.pos] == 0x1d && vm.stack == s + [second, top]
    requires second == top * q + r && r < top
    ensures Step(ctx, sec, vm) == Ok(vm.To(vm.pos + 1, s + [r]))
  {
    hide FixedAt, Capacity;
    ByteAt(sec, vm.pos);
    assert vm.stack[..|vm.stack| - 2] == s;
    ModUnique(second, top, q, r);
  }

  /** shra divides by a power of two, truncating towards zero. */
  lemma ShraStep(ctx: Context, sec: Section, vm: Vm, s: seq<word>, a: word, n: word, q: int, r: int)
    requires vm.pos < |sec.data| && sec.data[vm.pos] == 0x26 && vm.stack == s + [a, n]
    requires var z := ToSigned(a);
      z == Pow2(n) * q + r && (z >= 0 ==> 0 <= r < Pow2(n)) && (z <= 0 ==> 0 - Pow2(n) < r <= 0)
    ensures Step(ctx, sec, vm) == Ok(vm.To(vm.pos + 1, s + [q % TWO64]))
  {
    hide FixedAt, Capacity, ShiftArith, ToSigned, Pow2;
    ByteAt(sec, vm.pos);
    assert vm.stack[..|vm.stack| - 2] == s;
    ShiftIs(a, n, q, r);
  }

  lemma ShiftIs(a: word, n: word, q: int, r: int)
    requires var z := ToSigned(a);
      z == Pow2(n) * q + r && (z >= 0 ==> 0 <= r < Pow2(n)) && (z <= 0 ==> 0 - Pow2(n) < r <= 0)
    ensures ShiftArith(a, n) == q % TWO64
  {
    hide Pow2, Shr;
    var z, p := ToSigned(a), Pow2(n);
    ShiftOfMagnitude(if z < 0 then -z else z, n);
    QuotientFits(if z < 0 then -z else z, p);
    if z < 0 {
      SignsMultiply(z, p, q, r);
      ModUnique(-z, p, -q, -r);
      WrapNegated(-q);
    } else {
      ModUnique(z, p, q, r);
    }
  }

  // ---------- jumps ----------

  /** The two bytes of a signed distance. */
  function DistanceBytes(lsb: bool, d: int): seq<byte>
    requires -0x8000 <= d < 0x8000
  {
    var low, high := d % 256, (if d < 0 then d + 0x1_0000 else d) / 256;
    if lsb then [low, high] else [high, low]
  }

  /** skip and a bra that finds no zero go the distance from behind their operand, forwards or backwards; a
      bra that finds zero goes on. In front of the expression there is nothing to execute. */
  lemma JumpSteps(ctx: Context, sec: Section, vm: Vm, s: seq<word>, c: word, d: int)
    requires -0x8000 <= d < 0x8000 && vm.stack == s + [c] && vm.pos < |sec.data|
    requires At(sec.data, vm.pos + 1, DistanceBytes(sec.lsb, d))
    ensures sec.data[vm.pos] == 0x2f ==>
      Step(ctx, sec, vm) == if vm.pos + 3 + d < 0 then Err(Undefined) else Ok(vm.To(vm.pos + 3 + d, vm.stack))
    ensures sec.data[vm.pos] == 0x28 ==>
      Step(ctx, sec, vm) ==
        if c == 0 then Ok(vm.To(vm.pos + 3, s))
        else if vm.pos + 3 + d < 0 then Err(Undefined)
        else Ok(vm.To(vm.pos + 3 + d, s))
  {
    hide FixedAt, Capacity;
    ByteAt(sec, vm.pos);
    DistanceIsRead(sec, vm.pos + 1, d);
    assert vm.stack[..|vm.stack| - 1] == s;
  }

  lemma DistanceIsRead(sec: Section, pos: nat, d: int)
    requires -0x8000 <= d < 0x8000 && At(sec.data, pos, DistanceBytes(sec.lsb, d))
    ensures Signed16At(sec, pos) == Ok((d, pos + 2))
  {
    var bs := sec.data[pos..pos + 2];
    assert LittleEndian(bs[1..]) == bs[1] && LittleEndian(bs[1..][1..]) == 0;
    assert BigEndian(bs[..1]) == bs[0] && BigEndian(bs[..1][..0]) == 0;
  }

  // ---------- what is refused ----------

  /** The calls, push_object_address and the pieces of composite locations are known and not implemented;
      fbreg, which the program evaluates, is not modelled. Any other byte that is no operation fails. */
  lemma RefusedOperations(ctx: Context, sec: Section, vm: Vm)
    requires vm.pos < |sec.data|
    ensures var op := sec.data[vm.pos];
      && (op in {0x93, 0x97, 0x98, 0x99, 0x9a, 0x9d} ==> Step(ctx, sec, vm) == Err(NotImplemented))
      && (op in {0x00, 0x01, 0x02, 0x04, 0x05, 0x07} || op >= 0xa0 ==> Step(ctx, sec, vm) == Err(ExprError))
  {
    hide FixedAt;
    ByteAt(sec, vm.pos);
  }
}
