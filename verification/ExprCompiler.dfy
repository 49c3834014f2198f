/** A compiler from expression trees to DWARF expression bytes, correct for the machine as it is. */
module ExprCompiler {
  import opened Words
  import opened Sections
  import opened Expressions
  import opened SmallVectors
  import Leb128

  datatype Exp =
    | Lit(n: nat)
    | Addr(a: word)
    | Fixed(v: nat, size: nat)
    | SignedFixed(z: int, size: nat)
    | Uleb(w: word)
    | Sleb(z: int)
    | BaseReg(r: nat, off: int)
    | BaseRegX(rx: word, off: int)
    | Cfa
    | Deref(e: Exp)
    | DerefSized(e: Exp, size: nat)
    | Unary1(uop: UnOp, e: Exp)
    | Binary2(bop: BinOp, left: Exp, right: Exp)
    | Swapped(bop: BinOp, left: Exp, right: Exp)
    | Twice(bop: BinOp, e: Exp)
    | PlusConst(e: Exp, w: word)
    | If(cond: Exp, thn: Exp, els: Exp)

  /** What the expression denotes. */
  function Meaning(ctx: Context, addrSize: nat, e: Exp): word {
    match e
    case Lit(n) => Wrap(n)
    case Addr(a) => a
    case Fixed(v, _) => Wrap(v)
    case SignedFixed(z, _) => Wrap(z)
    case Uleb(w) => w
    case Sleb(z) => Wrap(z)
    case BaseReg(r, off) => Wrap(ctx.reg(r) + off)
    case BaseRegX(r, off) => Wrap(ctx.reg(r % TWO32) + off)
    case Cfa => Wrap(ctx.reg(6) + 16)
    case Deref(a) => ctx.derefSize(Meaning(ctx, addrSize, a), addrSize)
    case DerefSized(a, n) => ctx.derefSize(Meaning(ctx, addrSize, a), n)
    case Unary1(op, a) => Unary(op, Meaning(ctx, addrSize, a))
    case Binary2(op, a, b) => Binary(op, Meaning(ctx, addrSize, a), Meaning(ctx, addrSize, b))
    case Swapped(op, a, b) => Binary(op, Meaning(ctx, addrSize, a), Meaning(ctx, addrSize, b))
    case Twice(op, a) => Binary(op, Meaning(ctx, addrSize, a), Meaning(ctx, addrSize, a))
    case PlusConst(a, w) => Wrap(Meaning(ctx, addrSize, a) + w)
    case If(c, t, f) =>
      if Meaning(ctx, addrSize, c) != 0 then Meaning(ctx, addrSize, t) else Meaning(ctx, addrSize, f)
  }

  function UnOpcode(op: UnOp): byte { match op case Abs => 0x19 case Neg => 0x1f case Not => 0x20 }

  function BinOpcode(op: BinOp): byte {
    match op
    case And => 0x1a case Minus => 0x1c case Mul => 0x1e case Or => 0x21 case Plus => 0x22
    case Shl_ => 0x24 case Shr_ => 0x25 case Xor => 0x27 case Le => 0x2c
  }

  function UnsignedConstOp(size: nat): byte {
    if size == 1 then 0x08 else if size == 2 then 0x0a else if size == 4 then 0x0c else 0x0e
  }

  function SignedConstOp(size: nat): byte {
    if size == 1 then 0x09 else if size == 2 then 0x0b else if size == 4 then 0x0d else 0x0f
  }

  /** The two's complement bytes of a signed number. */
  function SignedBytes(lsb: bool, z: int, n: nat): seq<byte> {
    FixedBytes(lsb, if z < 0 then (if Pow2(8 * n) + z < 0 then 0 else Pow2(8 * n) + z) else z, n)
  }

  /** The operation and operands of a leaf. */
  function LeafBytes(sec: Section, e: Exp): seq<byte> {
    match e
    case Lit(n) => [(0x30 + n) % 256]
    case Addr(a) => [0x03] + FixedBytes(sec.lsb, a, sec.addrSize)
    case Fixed(v, size) => [UnsignedConstOp(size)] + FixedBytes(sec.lsb, v, size)
    case SignedFixed(z, size) => [SignedConstOp(size)] + SignedBytes(sec.lsb, z, size)
    case Uleb(w) => [0x10] + Leb128.EncodeUnsigned(w)
    case Sleb(z) => [0x11] + Leb128.EncodeSigned(z)
    case BaseReg(r, off) => [(0x70 + r) % 256] + Leb128.EncodeSigned(off)
    case BaseRegX(r, off) => [0x92] + (Leb128.EncodeUnsigned(r) + Leb128.EncodeSigned(off))
    case _ => [0x9c]
  }

  function Branch(sec: Section, op: byte, distance: nat): seq<byte> {
    [op] + FixedBytes(sec.lsb, distance, 2)
  }

  /** Reverse Polish code; the conditional is a forward `bra` over the else part, which skips the then
      part. */
  function Compile(sec: Section, e: Exp): seq<byte> {
    match e
    case Deref(a) => Compile(sec, a) + [0x06]
    case DerefSized(a, n) => Compile(sec, a) + [0x94, n % 256]
    case Unary1(op, a) => Compile(sec, a) + [UnOpcode(op)]
    case Binary2(op, a, b) => Compile(sec, a) + (Compile(sec, b) + [BinOpcode(op)])
    case Swapped(op, a, b) => Compile(sec, b) + (Compile(sec, a) + ([0x16] + [BinOpcode(op)]))
    case Twice(op, a) => Compile(sec, a) + ([0x12] + [BinOpcode(op)])
    case PlusConst(a, w) => Compile(sec, a) + ([0x23] + Leb128.EncodeUnsigned(w))
    case If(c, t, f) =>
      var thn, els := Compile(sec, t), Compile(sec, f);
      Compile(sec, c) + (Branch(sec, 0x28, |els| + 3) + (els + (Branch(sec, 0x2f, |thn|) + thn)))
    case _ => LeafBytes(sec, e)
  }

  predicate IsLeaf(e: Exp) {
    e.Lit? || e.Addr? || e.Fixed? || e.SignedFixed? || e.Uleb? || e.Sleb? || e.BaseReg? || e.BaseRegX? || e.Cfa?
  }

  /** Operands fit their encodings, and branches their 16-bit distances. */
  predicate Fits(sec: Section, e: Exp) {
    match e
    case Lit(n) => n < 32
    case Addr(a) => sec.addrSize in {1, 2, 4, 8} && a < Pow2(8 * sec.addrSize)
    case Fixed(v, size) => size in {1, 2, 4, 8} && v < Pow2(8 * size)
    case SignedFixed(z, size) => size in {1, 2, 4, 8} && 0 - Pow2(8 * size) <= 2 * z < Pow2(8 * size)
    case Sleb(z) => -TWO63 <= z < TWO63
    case BaseReg(r, off) => r < 32 && -TWO63 <= off < TWO63
    case BaseRegX(_, off) => -TWO63 <= off < TWO63
    case Deref(a) => Fits(sec, a)
    case DerefSized(a, n) => n <= sec.addrSize && n < 256 && Fits(sec, a)
    case Unary1(_, a) => Fits(sec, a)
    case Binary2(_, a, b) => Fits(sec, a) && Fits(sec, b)
    case Swapped(_, a, b) => Fits(sec, a) && Fits(sec, b)
    case Twice(_, a) => Fits(sec, a)
    case PlusConst(a, _) => Fits(sec, a)
    case If(c, t, f) =>
      && Fits(sec, c) && Fits(sec, t) && Fits(sec, f)
      && |Compile(sec, f)| + 3 < 0x8000 && |Compile(sec, t)| < 0x8000
    case _ => true
  }

  /** How many operations the compiled code executes. */
  function Steps(ctx: Context, addrSize: nat, e: Exp): nat {
    match e
    case Deref(a) => Steps(ctx, addrSize, a) + 1
    case DerefSized(a, _) => Steps(ctx, addrSize, a) + 1
    case Unary1(_, a) => Steps(ctx, addrSize, a) + 1
    case Binary2(_, a, b) => Steps(ctx, addrSize, a) + Steps(ctx, addrSize, b) + 1
    case Swapped(_, a, b) => Steps(ctx, addrSize, b) + Steps(ctx, addrSize, a) + 2
    case Twice(_, a) => Steps(ctx, addrSize, a) + 2
    case PlusConst(a, _) => Steps(ctx, addrSize, a) + 1
    case If(c, t, f) =>
      Steps(ctx, addrSize, c) + 1
      + if Meaning(ctx, addrSize, c) != 0 then Steps(ctx, addrSize, t) else Steps(ctx, addrSize, f) + 1
    case _ => 1
  }

  /** The room the stack has after the code has run on `k` words and room for `cap`; none when a dup
      refers to a word in a block that its push frees. */
  function Room(ctx: Context, addrSize: nat, e: Exp, k: nat, cap: nat): (r: Option<nat>)
    ensures r.Some? ==> r.value > k
    decreases e, 0
  {
    match e
    case Deref(a) => Room(ctx, addrSize, a, k, cap)
    case DerefSized(a, _) => Room(ctx, addrSize, a, k, cap)
    case Unary1(_, a) => Room(ctx, addrSize, a, k, cap)
    case PlusConst(a, _) => Room(ctx, addrSize, a, k, cap)
    case Binary2(_, a, b) => RoomThen(ctx, addrSize, Room(ctx, addrSize, a, k, cap), b, k + 1)
    case Swapped(_, a, b) => RoomThen(ctx, addrSize, Room(ctx, addrSize, b, k, cap), a, k + 1)
    case Twice(_, a) =>
      var c := Room(ctx, addrSize, a, k, cap);
      if c.None? || (k + 1 == c.value && c.value > INLINE) then None else Some(Capacity(c.value, k + 2))
    case If(c, t, f) =>
      RoomThen(ctx, addrSize, Room(ctx, addrSize, c, k, cap), if Meaning(ctx, addrSize, c) != 0 then t else f, k)
    case _ => Some(Capacity(cap, k + 1))
  }

  function RoomThen(ctx: Context, addrSize: nat, room: Option<nat>, e: Exp, k: nat): (r: Option<nat>)
    ensures r.Some? ==> r.value > k
    decreases e, 1
  {
    if room.None? then None else Room(ctx, addrSize, e, k, room.value)
  }

  // ---------- one operation ----------

  lemma OpAlone(sec: Section, pos: nat, op: byte)
    requires At(sec.data, pos, [op])
    ensures FixedAt(sec, pos, 1) == Ok((op, pos + 1)) && pos < |sec.data|
  {
    assert [op] + [] == [op];
    ByteIsRead(sec, pos, op, []);
  }

  /** Reading a two's complement number gives the word of its value. */
  lemma SignedFixedRoundTrip(sec: Section, pos: nat, z: int, n: nat)
    requires n in {1, 2, 4, 8} && 0 - Pow2(8 * n) <= 2 * z < Pow2(8 * n)
    requires At(sec.data, pos, SignedBytes(sec.lsb, z, n))
    ensures SignedFixedAt(sec, pos, n) == Ok((Wrap(z), pos + n))
  {
    hide Pow2, SignExtend, FixedBytes, At;
    WordBound(n);
    var v := if z < 0 then Pow2(8 * n) + z else z;
    SignExtends(z, n);
    FixedRoundTrip(sec, pos, v, n);
  }

  lemma SignExtends(z: int, n: nat)
    requires n in {1, 2, 4, 8} && 0 - Pow2(8 * n) <= 2 * z < Pow2(8 * n)
    ensures var v := if z < 0 then Pow2(8 * n) + z else z;
      0 <= v < Pow2(8 * n) && v < TWO64 && SignExtend(v, n) == Wrap(z)
  {
    hide Pow2;
    WordBound(n);
    if z >= 0 { ModUnique(z, TWO64, 0, z); }
  }

  lemma WordBound(n: nat)
    requires n in {1, 2, 4, 8}
    ensures Pow2(8 * n) <= TWO64 && Pow2(8 * n) % 2 == 0
  {
    hide Pow2;
    Pow2Is64();
    if n < 8 { Pow2Below(8 * n, 64); }
    Pow2Even(8 * n);
  }

  lemma Pow2Even(k: nat)
    requires k > 0
    ensures Pow2(k) % 2 == 0
  {}

  lemma LiteralStep(ctx: Context, sec: Section, vm: Vm, op: word, v: word, next: nat)
    requires FixedAt(sec, vm.pos, 1) == Ok((op, vm.pos + 1))
    requires IsLiteralOp(op) && LiteralAt(sec, op, vm.pos + 1) == Ok((v, next))
    ensures Step(ctx, sec, vm) == Ok(vm.To(next, vm.stack + [v]))
  {
    hide FixedAt, LiteralAt;
  }

  lemma BaseStep(ctx: Context, sec: Section, vm: Vm, op: word, v: word, next: nat)
    requires FixedAt(sec, vm.pos, 1) == Ok((op, vm.pos + 1))
    requires IsBaseOp(op) && BaseAt(ctx, sec, op, vm.pos + 1) == Ok((v, next))
    ensures Step(ctx, sec, vm) == Ok(vm.To(next, vm.stack + [v]))
  {
    hide FixedAt, BaseAt;
  }

  lemma LitPushes(ctx: Context, sec: Section, n: nat, vm: Vm)
    requires n < 32 && At(sec.data, vm.pos, [0x30 + n])
    ensures Step(ctx, sec, vm) == Ok(vm.To(vm.pos + 1, vm.stack + [n]))
  {
    hide At, FixedAt, Step;
    OpAlone(sec, vm.pos, 0x30 + n);
    LiteralStep(ctx, sec, vm, 0x30 + n, n, vm.pos + 1);
  }

  lemma AddrPushes(ctx: Context, sec: Section, a: word, vm: Vm)
    requires sec.addrSize in {1, 2, 4, 8} && a < Pow2(8 * sec.addrSize)
    requires At(sec.data, vm.pos, [0x03] + FixedBytes(sec.lsb, a, sec.addrSize))
    ensures Step(ctx, sec, vm) == Ok(vm.To(vm.pos + 1 + sec.addrSize, vm.stack + [a]))
  {
    hide At, FixedAt, Step, Pow2, FixedBytes;
    ByteIsRead(sec, vm.pos, 0x03, FixedBytes(sec.lsb, a, sec.addrSize));
    FixedRoundTrip(sec, vm.pos + 1, a, sec.addrSize);
    LiteralStep(ctx, sec, vm, 0x03, a, vm.pos + 1 + sec.addrSize);
  }

  lemma FixedPushes(ctx: Context, sec: Section, v: nat, size: nat, vm: Vm)
    requires size in {1, 2, 4, 8} && v < Pow2(8 * size)
    requires At(sec.data, vm.pos, [UnsignedConstOp(size)] + FixedBytes(sec.lsb, v, size))
    ensures Step(ctx, sec, vm) == Ok(vm.To(vm.pos + 1 + size, vm.stack + [Wrap(v)]))
  {
    hide At, FixedAt, Step, Pow2, FixedBytes;
    WordBound(size);
    ByteIsRead(sec, vm.pos, UnsignedConstOp(size), FixedBytes(sec.lsb, v, size));
    FixedRoundTrip(sec, vm.pos + 1, v, size);
    LiteralStep(ctx, sec, vm, UnsignedConstOp(size), v, vm.pos + 1 + size);
  }

  lemma SignedFixedPushes(ctx: Context, sec: Section, z: int, size: nat, vm: Vm)
    requires size in {1, 2, 4, 8} && 0 - Pow2(8 * size) <= 2 * z < Pow2(8 * size)
    requires At(sec.data, vm.pos, [SignedConstOp(size)] + SignedBytes(sec.lsb, z, size))
    ensures Step(ctx, sec, vm) == Ok(vm.To(vm.pos + 1 + size, vm.stack + [Wrap(z)]))
  {
    hide At, FixedAt, Step, Pow2, SignedFixedAt, SignedBytes;
    ByteIsRead(sec, vm.pos, SignedConstOp(size), SignedBytes(sec.lsb, z, size));
    SignedFixedRoundTrip(sec, vm.pos + 1, z, size);
    LiteralStep(ctx, sec, vm, SignedConstOp(size), Wrap(z), vm.pos + 1 + size);
  }

  lemma FixedLeafPushes(ctx: Context, sec: Section, e: Exp, vm: Vm)
    requires (e.Lit? || e.Addr? || e.Fixed? || e.SignedFixed?) && Fits(sec, e)
    requires At(sec.data, vm.pos, LeafBytes(sec, e))
    ensures Step(ctx, sec, vm)
            == Ok(vm.To(vm.pos + |LeafBytes(sec, e)|, vm.stack + [Meaning(ctx, sec.addrSize, e)]))
  {
    hide At, Step, Pow2, FixedBytes, SignedBytes, UnsignedConstOp, SignedConstOp;
    match e
    case Lit(n) => LitPushes(ctx, sec, n, vm);
    case Addr(a) => AddrPushes(ctx, sec, a, vm);
    case Fixed(w, size) => FixedPushes(ctx, sec, w, size, vm);
    case SignedFixed(z, size) =>
      SignedBytesLength(sec.lsb, z, size);
      SignedFixedPushes(ctx, sec, z, size, vm);
  }

  lemma RegXPushes(ctx: Context, sec: Section, e: Exp, vm: Vm)
    requires e.BaseRegX? && Fits(sec, e) && At(sec.data, vm.pos, LeafBytes(sec, e))
    ensures Step(ctx, sec, vm)
            == Ok(vm.To(vm.pos + |LeafBytes(sec, e)|, vm.stack + [Meaning(ctx, sec.addrSize, e)]))
  {
    hide At, FixedAt, UnsignedAt, SignedAt, Step, Dispatch;
    hide Leb128.EncodeUnsigned, Leb128.EncodeSigned, Leb128.Terminated, Leb128.Unsigned, Leb128.Signed;
    var v, next := Meaning(ctx, sec.addrSize, e), vm.pos + |LeafBytes(sec, e)|;
    var r, off := e.rx, e.off;
    var a, b := Leb128.EncodeUnsigned(r), Leb128.EncodeSigned(off);
    ByteIsRead(sec, vm.pos, 0x92, a + b);
    AtSplit(sec.data, vm.pos + 1, a, b);
    UnsignedRoundTrip(sec, vm.pos + 1, a, r);
    SignedRoundTrip(sec, vm.pos + 1 + |a|, b, off);
    BaseStep(ctx, sec, vm, 0x92, v, next);
  }

  lemma LebLeafPushes(ctx: Context, sec: Section, e: Exp, vm: Vm)
    requires (e.Uleb? || e.Sleb? || e.BaseReg? || e.BaseRegX? || e.Cfa?) && Fits(sec, e)
    requires At(sec.data, vm.pos, LeafBytes(sec, e))
    ensures Step(ctx, sec, vm)
            == Ok(vm.To(vm.pos + |LeafBytes(sec, e)|, vm.stack + [Meaning(ctx, sec.addrSize, e)]))
  {
    hide At, FixedAt, UnsignedAt, SignedAt, Step, Dispatch;
    hide Leb128.EncodeUnsigned, Leb128.EncodeSigned, Leb128.Terminated, Leb128.Unsigned, Leb128.Signed;
    var v, next := Meaning(ctx, sec.addrSize, e), vm.pos + |LeafBytes(sec, e)|;
    match e
    case Cfa =>
      OpAlone(sec, vm.pos, 0x9c);
      BaseStep(ctx, sec, vm, 0x9c, v, next);
    case Uleb(w) =>
      ByteIsRead(sec, vm.pos, 0x10, Leb128.EncodeUnsigned(w));
      UnsignedRoundTrip(sec, vm.pos + 1, Leb128.EncodeUnsigned(w), w);
      LiteralStep(ctx, sec, vm, 0x10, v, next);
    case Sleb(z) =>
      ByteIsRead(sec, vm.pos, 0x11, Leb128.EncodeSigned(z));
      SignedRoundTrip(sec, vm.pos + 1, Leb128.EncodeSigned(z), z);
      LiteralStep(ctx, sec, vm, 0x11, v, next);
    case BaseReg(r, off) =>
      ByteIsRead(sec, vm.pos, 0x70 + r, Leb128.EncodeSigned(off));
      SignedRoundTrip(sec, vm.pos + 1, Leb128.EncodeSigned(off), off);
      BaseStep(ctx, sec, vm, 0x70 + r, v, next);
    case BaseRegX(_, _) => RegXPushes(ctx, sec, e, vm);
  }

  lemma LeafPushes(ctx: Context, sec: Section, e: Exp, vm: Vm)
    requires IsLeaf(e) && Fits(sec, e) && At(sec.data, vm.pos, LeafBytes(sec, e))
    ensures vm.pos < |sec.data|
    ensures Step(ctx, sec, vm)
            == Ok(vm.To(vm.pos + |LeafBytes(sec, e)|, vm.stack + [Meaning(ctx, sec.addrSize, e)]))
  {
    hide LeafBytes, Meaning, Step;
    LeafNonempty(sec, e);
    if e.Lit? || e.Addr? || e.Fixed? || e.SignedFixed? {
      FixedLeafPushes(ctx, sec, e, vm);
    } else {
      LebLeafPushes(ctx, sec, e, vm);
    }
  }

  lemma SignedBytesLength(lsb: bool, z: int, n: nat)
    ensures |SignedBytes(lsb, z, n)| == n
  {}

  lemma UnaryStep(ctx: Context, sec: Section, vm: Vm, op: UnOp, s: seq<word>, a: word)
    requires At(sec.data, vm.pos, [UnOpcode(op)]) && vm.stack == s + [a]
    ensures vm.pos < |sec.data|
    ensures Step(ctx, sec, vm) == Ok(vm.To(vm.pos + 1, s + [Unary(op, a)]))
  {
    hide At, FixedAt, Unary;
    OpAlone(sec, vm.pos, UnOpcode(op));
    assert vm.stack[..|vm.stack| - 1] == s;
  }

  lemma BinaryStep(ctx: Context, sec: Section, vm: Vm, op: BinOp, s: seq<word>, a: word, b: word)
    requires At(sec.data, vm.pos, [BinOpcode(op)]) && vm.stack == s + [a] + [b]
    ensures vm.pos < |sec.data|
    ensures Step(ctx, sec, vm) == Ok(vm.To(vm.pos + 1, s + [Binary(op, a, b)]))
  {
    hide At, FixedAt, Binary;
    OpAlone(sec, vm.pos, BinOpcode(op));
    assert vm.stack[..|vm.stack| - 2] == s;
  }

  /** swap exchanges the two top elements, dup repeats the top one. */
  lemma SwapStep(ctx: Context, sec: Section, vm: Vm, s: seq<word>, a: word, b: word)
    requires At(sec.data, vm.pos, [0x16]) && vm.stack == s + [a] + [b]
    ensures vm.pos < |sec.data|
    ensures Step(ctx, sec, vm) == Ok(vm.To(vm.pos + 1, s + [b] + [a]))
  {
    hide At, FixedAt;
    OpAlone(sec, vm.pos, 0x16);
    assert vm.stack[..|vm.stack| - 2] == s;
    assert s + [b, a] == s + [b] + [a];
  }

  lemma DupStep(ctx: Context, sec: Section, vm: Vm, s: seq<word>, a: word)
    requires At(sec.data, vm.pos, [0x12]) && vm.stack == s + [a]
    ensures vm.pos < |sec.data|
    ensures Step(ctx, sec, vm) ==
      if vm.Frees() then Err(Undefined) else Ok(vm.To(vm.pos + 1, s + [a] + [a]))
  {
    hide At, FixedAt;
    OpAlone(sec, vm.pos, 0x12);
  }

  lemma DerefStep(ctx: Context, sec: Section, vm: Vm, s: seq<word>, a: word)
    requires At(sec.data, vm.pos, [0x06]) && vm.stack == s + [a]
    ensures vm.pos < |sec.data|
    ensures Step(ctx, sec, vm) == Ok(vm.To(vm.pos + 1, s + [ctx.derefSize(a, sec.addrSize)]))
  {
    hide At, FixedAt;
    OpAlone(sec, vm.pos, 0x06);
    assert vm.stack[..|vm.stack| - 1] == s;
  }

  lemma DerefSizedStep(ctx: Context, sec: Section, vm: Vm, s: seq<word>, a: word, n: byte)
    requires At(sec.data, vm.pos, [0x94, n]) && vm.stack == s + [a] && n <= sec.addrSize
    ensures vm.pos < |sec.data|
    ensures Step(ctx, sec, vm) == Ok(vm.To(vm.pos + 2, s + [ctx.derefSize(a, n)]))
  {
    hide At, FixedAt;
    assert [0x94, n] == [0x94] + [n];
    ByteIsRead(sec, vm.pos, 0x94, [n]);
    AtInside(sec.data, vm.pos, [0x94, n]);
    OpAlone(sec, vm.pos + 1, n);
    assert vm.stack[..|vm.stack| - 1] == s;
  }

  lemma PlusConstStep(ctx: Context, sec: Section, vm: Vm, s: seq<word>, a: word, w: word)
    requires At(sec.data, vm.pos, [0x23] + Leb128.EncodeUnsigned(w)) && vm.stack == s + [a]
    ensures vm.pos < |sec.data|
    ensures Step(ctx, sec, vm)
            == Ok(vm.To(vm.pos + 1 + |Leb128.EncodeUnsigned(w)|, s + [Wrap(a + w)]))
  {
    hide At, FixedAt, UnsignedAt, Leb128.EncodeUnsigned, Leb128.Terminated, Leb128.Unsigned;
    AtInside(sec.data, vm.pos, [0x23] + Leb128.EncodeUnsigned(w));
    ByteIsRead(sec, vm.pos, 0x23, Leb128.EncodeUnsigned(w));
    UnsignedRoundTrip(sec, vm.pos + 1, Leb128.EncodeUnsigned(w), w);
    assert vm.stack[..|vm.stack| - 1] == s;
  }

  lemma AtInside(data: seq<byte>, pos: nat, bs: seq<byte>)
    requires At(data, pos, bs) && bs != []
    ensures pos < |data|
  {}

  lemma DistanceAt(sec: Section, pos: nat, op: byte, distance: nat)
    requires At(sec.data, pos, Branch(sec, op, distance)) && distance < 0x8000
    ensures pos < |sec.data| && FixedAt(sec, pos, 1) == Ok((op, pos + 1))
    ensures Signed16At(sec, pos + 1) == Ok((distance, pos + 3))
  {
    hide At, FixedAt, FixedBytes, Pow2;
    Pow2Is32();
    AtInside(sec.data, pos, Branch(sec, op, distance));
    ByteIsRead(sec, pos, op, FixedBytes(sec.lsb, distance, 2));
    FixedRoundTrip(sec, pos + 1, distance, 2);
  }

  lemma BraStep(ctx: Context, sec: Section, vm: Vm, s: seq<word>, c: word, distance: nat)
    requires At(sec.data, vm.pos, Branch(sec, 0x28, distance)) && distance < 0x8000 && vm.stack == s + [c]
    ensures vm.pos < |sec.data|
    ensures Step(ctx, sec, vm) == Ok(vm.To(vm.pos + 3 + (if c != 0 then distance else 0), s))
  {
    hide At, FixedAt, Signed16At, Branch;
    DistanceAt(sec, vm.pos, 0x28, distance);
    assert vm.stack[..|vm.stack| - 1] == s;
  }

  lemma SkipStep(ctx: Context, sec: Section, vm: Vm, distance: nat)
    requires At(sec.data, vm.pos, Branch(sec, 0x2f, distance)) && distance < 0x8000
    ensures vm.pos < |sec.data|
    ensures Step(ctx, sec, vm) == Ok(vm.To(vm.pos + 3 + distance, vm.stack))
  {
    hide At, FixedAt, Signed16At, Branch;
    DistanceAt(sec, vm.pos, 0x2f, distance);
  }

  // ---------- the whole tree ----------

  /** From `vm` the machine gets to `to` in `n` operations, whatever fuel is left then. */
  ghost predicate Leads(ctx: Context, sec: Section, vm: Vm, n: nat, to: Vm) {
    forall k: nat :: Run(ctx, sec, vm, n + k) == Run(ctx, sec, to, k)
  }

  lemma LeadsOne(ctx: Context, sec: Section, vm: Vm, to: Vm)
    requires vm.pos < |sec.data| && Step(ctx, sec, vm) == Ok(to)
    ensures Leads(ctx, sec, vm, 1, to)
  {
    hide Step;
  }

  lemma LeadsThen(ctx: Context, sec: Section, a: Vm, m: nat, b: Vm, n: nat, c: Vm)
    requires Leads(ctx, sec, a, m, b) && Leads(ctx, sec, b, n, c)
    ensures Leads(ctx, sec, a, m + n, c)
  {
    hide Run;
    forall k: nat ensures Run(ctx, sec, a, m + n + k) == Run(ctx, sec, c, k) {
      assert Run(ctx, sec, a, m + (n + k)) == Run(ctx, sec, b, n + k);
    }
  }

  /** One more operation after a run. */
  lemma LeadsStep(ctx: Context, sec: Section, a: Vm, m: nat, b: Vm, c: Vm)
    requires Leads(ctx, sec, a, m, b) && b.pos < |sec.data| && Step(ctx, sec, b) == Ok(c)
    ensures Leads(ctx, sec, a, m + 1, c)
  {
    hide Step, Run, Leads;
    LeadsOne(ctx, sec, b, c);
    LeadsThen(ctx, sec, a, m, b, 1, c);
  }

  /** From `vm` the machine fails for want of a meaning within `n` operations. */
  ghost predicate Fails(ctx: Context, sec: Section, vm: Vm, n: nat) {
    forall fuel: nat :: fuel >= n ==> Run(ctx, sec, vm, fuel) == Failed(Undefined)
  }

  lemma FailsOne(ctx: Context, sec: Section, vm: Vm)
    requires vm.pos < |sec.data| && Step(ctx, sec, vm) == Err(Undefined)
    ensures Fails(ctx, sec, vm, 1)
  {
    hide Step;
  }

  lemma FailsLater(ctx: Context, sec: Section, a: Vm, m: nat, b: Vm, n: nat, more: nat)
    requires Leads(ctx, sec, a, m, b) && Fails(ctx, sec, b, n)
    ensures Fails(ctx, sec, a, m + n + more)
  {
    hide Run;
    forall fuel: nat | fuel >= m + n + more ensures Run(ctx, sec, a, fuel) == Failed(Undefined) {
      assert Run(ctx, sec, a, m + (fuel - m)) == Run(ctx, sec, b, fuel - m);
    }
  }

  lemma FailsAnyway(ctx: Context, sec: Section, a: Vm, m: nat, more: nat)
    requires Fails(ctx, sec, a, m)
    ensures Fails(ctx, sec, a, m + more)
  {
    hide Run;
  }

  function Pushed(vm: Vm, n: nat, v: word, cap: nat): Vm { Vm(vm.pos + n, vm.stack + [v], vm.loc, cap) }

  /** Compiler correctness: wherever the code of an expression lies and whatever is on the stack, running
      it pushes the expression's value and leaves the stack beneath untouched, or fails, and it fails
      exactly when a dup on the way has no room. */
  lemma {:induction false} CompiledCodeComputes(ctx: Context, sec: Section, e: Exp, vm: Vm)
    requires Fits(sec, e) && At(sec.data, vm.pos, Compile(sec, e))
    ensures match Room(ctx, sec.addrSize, e, |vm.stack|, vm.cap)
            case Some(c) => Leads(ctx, sec, vm, Steps(ctx, sec.addrSize, e),
                                  Pushed(vm, |Compile(sec, e)|, Meaning(ctx, sec.addrSize, e), c))
            case None => Fails(ctx, sec, vm, Steps(ctx, sec.addrSize, e))
    decreases e, 2
  {
    hide At, Step, Run, Leads, Fails, LeafBytes, Compile, Meaning, Steps, Fits, Room, Capacity;
    if IsLeaf(e) {
      UnfoldLeaf(ctx, sec, e);
      LeafPushes(ctx, sec, e, vm);
      LeadsOne(ctx, sec, vm, vm.To(vm.pos + |Compile(sec, e)|, vm.stack + [Meaning(ctx, sec.addrSize, e)]));
    } else {
      match e
      case Deref(_) => ComputeDeref(ctx, sec, e, vm);
      case DerefSized(_, _) => ComputeDerefSized(ctx, sec, e, vm);
      case Unary1(_, _) => ComputeUnary(ctx, sec, e, vm);
      case Twice(_, _) => ComputeTwice(ctx, sec, e, vm);
      case PlusConst(_, _) => ComputePlusConst(ctx, sec, e, vm);
      case Binary2(_, _, _) => ComputeBinary(ctx, sec, e, vm);
      case Swapped(_, _, _) => ComputeSwapped(ctx, sec, e, vm);
      case If(_, _, _) => ComputeIf(ctx, sec, e, vm);
    }
  }

  /** The code of the expression lies where the machine stands. */
  predicate Ready(sec: Section, e: Exp, vm: Vm) { Fits(sec, e) && At(sec.data, vm.pos, Compile(sec, e)) }

  /** Running it pushes the value, or fails where it has no room. */
  ghost predicate Computes(ctx: Context, sec: Section, e: Exp, vm: Vm) {
    match Room(ctx, sec.addrSize, e, |vm.stack|, vm.cap)
    case Some(c) => Leads(ctx, sec, vm, Steps(ctx, sec.addrSize, e),
                          Pushed(vm, |Compile(sec, e)|, Meaning(ctx, sec.addrSize, e), c))
    case None => Fails(ctx, sec, vm, Steps(ctx, sec.addrSize, e))
  }

  /** Within the room there is, the capacity stays. */
  lemma StaysRoomy(vm: Vm, pos: nat, s: seq<word>)
    requires |s| <= vm.cap
    ensures vm.To(pos, s) == vm.(pos := pos, stack := s)
  {}

  // The defining equations, one constructor at a time.

  lemma UnfoldLeaf(ctx: Context, sec: Section, e: Exp)
    requires IsLeaf(e)
    ensures Compile(sec, e) == LeafBytes(sec, e) && Steps(ctx, sec.addrSize, e) == 1
    ensures forall k: nat, cap: nat :: Room(ctx, sec.addrSize, e, k, cap) == Some(Capacity(cap, k + 1))
  {}

  lemma UnfoldDeref(ctx: Context, sec: Section, a: Exp)
    ensures var (e, n) := (Deref(a), sec.addrSize);
      && Compile(sec, e) == Compile(sec, a) + [0x06]
      && Fits(sec, e) == Fits(sec, a)
      && Steps(ctx, n, e) == Steps(ctx, n, a) + 1
      && Meaning(ctx, n, e) == ctx.derefSize(Meaning(ctx, n, a), n)
    ensures forall k: nat, cap: nat ::
      Room(ctx, sec.addrSize, Deref(a), k, cap) == Room(ctx, sec.addrSize, a, k, cap)
  {
    hide LeafBytes, Branch, BinOpcode, UnOpcode, Binary, Unary, Wrap, Pow2, FixedBytes;
    hide Leb128.EncodeUnsigned, Leb128.EncodeSigned;
  }

  lemma UnfoldDerefSized(ctx: Context, sec: Section, a: Exp, k: nat)
    ensures var (e, n) := (DerefSized(a, k), sec.addrSize);
      && Compile(sec, e) == Compile(sec, a) + [0x94, k % 256]
      && Fits(sec, e) == (k <= sec.addrSize && k < 256 && Fits(sec, a))
      && Steps(ctx, n, e) == Steps(ctx, n, a) + 1
      && Meaning(ctx, n, e) == ctx.derefSize(Meaning(ctx, n, a), k)
    ensures forall n: nat, cap: nat ::
      Room(ctx, sec.addrSize, DerefSized(a, k), n, cap) == Room(ctx, sec.addrSize, a, n, cap)
  {
    hide LeafBytes, Branch, BinOpcode, UnOpcode, Binary, Unary, Wrap, Pow2, FixedBytes;
    hide Leb128.EncodeUnsigned, Leb128.EncodeSigned;
  }

  lemma UnfoldUnary1(ctx: Context, sec: Section, op: UnOp, a: Exp)
    ensures var (e, n) := (Unary1(op, a), sec.addrSize);
      && Compile(sec, e) == Compile(sec, a) + [UnOpcode(op)]
      && Fits(sec, e) == Fits(sec, a)
      && Steps(ctx, n, e) == Steps(ctx, n, a) + 1
      && Meaning(ctx, n, e) == Unary(op, Meaning(ctx, n, a))
    ensures forall k: nat, cap: nat ::
      Room(ctx, sec.addrSize, Unary1(op, a), k, cap) == Room(ctx, sec.addrSize, a, k, cap)
  {
    hide LeafBytes, Branch, BinOpcode, UnOpcode, Binary, Unary, Wrap, Pow2, FixedBytes;
    hide Leb128.EncodeUnsigned, Leb128.EncodeSigned;
  }

  lemma UnfoldTwice(ctx: Context, sec: Section, op: BinOp, a: Exp)
    ensures var (e, n) := (Twice(op, a), sec.addrSize);
      && Compile(sec, e) == Compile(sec, a) + ([0x12] + [BinOpcode(op)])
      && Fits(sec, e) == Fits(sec, a)
      && Steps(ctx, n, e) == Steps(ctx, n, a) + 2
      && Meaning(ctx, n, e) == Binary(op, Meaning(ctx, n, a), Meaning(ctx, n, a))
    ensures forall k: nat, cap: nat ::
      Room(ctx, sec.addrSize, Twice(op, a), k, cap) ==
        var c := Room(ctx, sec.addrSize, a, k, cap);
        if c.None? || (k + 1 == c.value && c.value > INLINE) then None else Some(Capacity(c.value, k + 2))
  {
    hide LeafBytes, Branch, BinOpcode, UnOpcode, Binary, Unary, Wrap, Pow2, FixedBytes;
    hide Leb128.EncodeUnsigned, Leb128.EncodeSigned;
  }

  lemma UnfoldPlusConst(ctx: Context, sec: Section, a: Exp, w: word)
    ensures var (e, n) := (PlusConst(a, w), sec.addrSize);
      && Compile(sec, e) == Compile(sec, a) + ([0x23] + Leb128.EncodeUnsigned(w))
      && Fits(sec, e) == Fits(sec, a)
      && Steps(ctx, n, e) == Steps(ctx, n, a) + 1
      && Meaning(ctx, n, e) == Wrap(Meaning(ctx, n, a) + w)
    ensures forall k: nat, cap: nat ::
      Room(ctx, sec.addrSize, PlusConst(a, w), k, cap) == Room(ctx, sec.addrSize, a, k, cap)
  {
    hide LeafBytes, Branch, BinOpcode, UnOpcode, Binary, Unary, Wrap, Pow2, FixedBytes;
    hide Leb128.EncodeUnsigned, Leb128.EncodeSigned;
  }

  lemma UnfoldBinary2(ctx: Context, sec: Section, op: BinOp, a: Exp, b: Exp)
    ensures var (e, n) := (Binary2(op, a, b), sec.addrSize);
      && Compile(sec, e) == Compile(sec, a) + (Compile(sec, b) + [BinOpcode(op)])
      && Fits(sec, e) == (Fits(sec, a) && Fits(sec, b))
      && Steps(ctx, n, e) == Steps(ctx, n, a) + Steps(ctx, n, b) + 1
      && Meaning(ctx, n, e) == Binary(op, Meaning(ctx, n, a), Meaning(ctx, n, b))
    ensures forall k: nat, cap: nat ::
      Room(ctx, sec.addrSize, Binary2(op, a, b), k, cap) ==
        RoomThen(ctx, sec.addrSize, Room(ctx, sec.addrSize, a, k, cap), b, k + 1)
  {
    hide LeafBytes, Branch, BinOpcode, UnOpcode, Binary, Unary, Wrap, Pow2, FixedBytes;
    hide Leb128.EncodeUnsigned, Leb128.EncodeSigned;
  }

  lemma UnfoldSwapped(ctx: Context, sec: Section, op: BinOp, a: Exp, b: Exp)
    ensures var (e, n) := (Swapped(op, a, b), sec.addrSize);
      && Compile(sec, e) == Compile(sec, b) + (Compile(sec, a) + ([0x16] + [BinOpcode(op)]))
      && Fits(sec, e) == (Fits(sec, a) && Fits(sec, b))
      && Steps(ctx, n, e) == Steps(ctx, n, b) + Steps(ctx, n, a) + 2
      && Meaning(ctx, n, e) == Binary(op, Meaning(ctx, n, a), Meaning(ctx, n, b))
    ensures forall k: nat, cap: nat ::
      Room(ctx, sec.addrSize, Swapped(op, a, b), k, cap) ==
        RoomThen(ctx, sec.addrSize, Room(ctx, sec.addrSize, b, k, cap), a, k + 1)
  {
    hide LeafBytes, Branch, BinOpcode, UnOpcode, Binary, Unary, Wrap, Pow2, FixedBytes;
    hide Leb128.EncodeUnsigned, Leb128.EncodeSigned;
  }

  lemma UnfoldIf(ctx: Context, sec: Section, c: Exp, t: Exp, f: Exp)
    ensures var (e, n) := (If(c, t, f), sec.addrSize);
      && Compile(sec, e) == Compile(sec, c) + (Branch(sec, 0x28, |Compile(sec, f)| + 3)
      + (Compile(sec, f) + (Branch(sec, 0x2f, |Compile(sec, t)|) + Compile(sec, t))))
      && Fits(sec, e) == (Fits(sec, c) && Fits(sec, t) && Fits(sec, f)
      && |Compile(sec, f)| + 3 < 0x8000 && |Compile(sec, t)| < 0x8000)
      && Steps(ctx, n, e) == Steps(ctx, n, c) + 1
      + (if Meaning(ctx, n, c) != 0 then Steps(ctx, n, t) else Steps(ctx, n, f) + 1)
      && Meaning(ctx, n, e) == if Meaning(ctx, n, c) != 0 then Meaning(ctx, n, t) else Meaning(ctx, n, f)
    ensures forall k: nat, cap: nat ::
      Room(ctx, sec.addrSize, If(c, t, f), k, cap) ==
        RoomThen(ctx, sec.addrSize, Room(ctx, sec.addrSize, c, k, cap),
                 if Meaning(ctx, sec.addrSize, c) != 0 then t else f, k)
  {
    hide Compile, Fits, Steps, Meaning, Room, RoomThen, Branch;
    IfCode(sec, c, t, f);
    IfMeaning(ctx, sec, c, t, f);
    forall k: nat, cap: nat
      ensures Room(ctx, sec.addrSize, If(c, t, f), k, cap) ==
        RoomThen(ctx, sec.addrSize, Room(ctx, sec.addrSize, c, k, cap),
                 if Meaning(ctx, sec.addrSize, c) != 0 then t else f, k)
    {
      IfRoom(ctx, sec.addrSize, c, t, f, k, cap);
    }
  }

  lemma IfCode(sec: Section, c: Exp, t: Exp, f: Exp)
    ensures Compile(sec, If(c, t, f)) == Compile(sec, c) + (Branch(sec, 0x28, |Compile(sec, f)| + 3)
      + (Compile(sec, f) + (Branch(sec, 0x2f, |Compile(sec, t)|) + Compile(sec, t))))
    ensures Fits(sec, If(c, t, f)) == (Fits(sec, c) && Fits(sec, t) && Fits(sec, f)
      && |Compile(sec, f)| + 3 < 0x8000 && |Compile(sec, t)| < 0x8000)
  {
    hide LeafBytes, Branch, BinOpcode, UnOpcode, Pow2, FixedBytes, Leb128.EncodeUnsigned, Leb128.EncodeSigned;
  }

  lemma IfMeaning(ctx: Context, sec: Section, c: Exp, t: Exp, f: Exp)
    ensures var (e, n) := (If(c, t, f), sec.addrSize);
      && Steps(ctx, n, e) == Steps(ctx, n, c) + 1
         + (if Meaning(ctx, n, c) != 0 then Steps(ctx, n, t) else Steps(ctx, n, f) + 1)
      && Meaning(ctx, n, e) == if Meaning(ctx, n, c) != 0 then Meaning(ctx, n, t) else Meaning(ctx, n, f)
  {
    hide Binary, Unary, Wrap;
  }

  lemma IfRoom(ctx: Context, addrSize: nat, c: Exp, t: Exp, f: Exp, k: nat, cap: nat)
    ensures Room(ctx, addrSize, If(c, t, f), k, cap) ==
      RoomThen(ctx, addrSize, Room(ctx, addrSize, c, k, cap), if Meaning(ctx, addrSize, c) != 0 then t else f, k)
  {
    hide Meaning;
  }

  /** One operation after the operand, on the word it left. */
  lemma OneMore(ctx: Context, sec: Section, e: Exp, a: Exp, vm: Vm)
    requires Computes(ctx, sec, a, vm) && Steps(ctx, sec.addrSize, e) == Steps(ctx, sec.addrSize, a) + 1
    requires Room(ctx, sec.addrSize, e, |vm.stack|, vm.cap) == Room(ctx, sec.addrSize, a, |vm.stack|, vm.cap)
    requires match Room(ctx, sec.addrSize, a, |vm.stack|, vm.cap)
             case None => true
             case Some(c) =>
               var vm1 := Pushed(vm, |Compile(sec, a)|, Meaning(ctx, sec.addrSize, a), c);
               && vm1.pos < |sec.data|
               && Step(ctx, sec, vm1) ==
                    Ok(vm1.To(vm.pos + |Compile(sec, e)|, vm.stack + [Meaning(ctx, sec.addrSize, e)]))
    ensures Computes(ctx, sec, e, vm)
  {
    hide At, Step, Run, Leads, Fails, Compile, Meaning, Steps, Fits, Room, Capacity;
    match Room(ctx, sec.addrSize, a, |vm.stack|, vm.cap) {
      case None => FailsAnyway(ctx, sec, vm, Steps(ctx, sec.addrSize, a), 1);
      case Some(c) =>
        var vm1 := Pushed(vm, |Compile(sec, a)|, Meaning(ctx, sec.addrSize, a), c);
        StaysRoomy(vm1, vm.pos + |Compile(sec, e)|, vm.stack + [Meaning(ctx, sec.addrSize, e)]);
        LeadsStep(ctx, sec, vm, Steps(ctx, sec.addrSize, a), vm1,
                  Pushed(vm, |Compile(sec, e)|, Meaning(ctx, sec.addrSize, e), c));
    }
  }

  lemma {:induction false} ComputeDeref(ctx: Context, sec: Section, e: Exp, vm: Vm)
    requires e.Deref? && Ready(sec, e, vm)
    ensures Computes(ctx, sec, e, vm)
    decreases e, 1
  {
    hide At, Step, Run, Leads, Fails, Compile, Meaning, Steps, Fits, Room, Capacity;
    var a := e.e;
    UnfoldDeref(ctx, sec, a);
    var code, v := Compile(sec, a), Meaning(ctx, sec.addrSize, a);
    AtSplit(sec.data, vm.pos, code, [0x06]);
    CompiledCodeComputes(ctx, sec, a, vm);
    var room := Room(ctx, sec.addrSize, a, |vm.stack|, vm.cap);
    if room.Some? { DerefStep(ctx, sec, Pushed(vm, |code|, v, room.value), vm.stack, v); }
    OneMore(ctx, sec, e, a, vm);
  }

  lemma {:induction false} ComputeDerefSized(ctx: Context, sec: Section, e: Exp, vm: Vm)
    requires e.DerefSized? && Ready(sec, e, vm)
    ensures Computes(ctx, sec, e, vm)
    decreases e, 1
  {
    hide At, Step, Run, Leads, Fails, Compile, Meaning, Steps, Fits, Room, Capacity;
    var a, n := e.e, e.size;
    UnfoldDerefSized(ctx, sec, a, n);
    var code, v := Compile(sec, a), Meaning(ctx, sec.addrSize, a);
    AtSplit(sec.data, vm.pos, code, [0x94, n % 256]);
    CompiledCodeComputes(ctx, sec, a, vm);
    var room := Room(ctx, sec.addrSize, a, |vm.stack|, vm.cap);
    if room.Some? { DerefSizedStep(ctx, sec, Pushed(vm, |code|, v, room.value), vm.stack, v, n); }
    OneMore(ctx, sec, e, a, vm);
  }

  lemma {:induction false} ComputeUnary(ctx: Context, sec: Section, e: Exp, vm: Vm)
    requires e.Unary1? && Ready(sec, e, vm)
    ensures Computes(ctx, sec, e, vm)
    decreases e, 1
  {
    hide At, Step, Run, Leads, Fails, Compile, Meaning, Steps, Fits, Room, Capacity, UnOpcode, Unary;
    var op, a := e.uop, e.e;
    UnfoldUnary1(ctx, sec, op, a);
    var code, v := Compile(sec, a), Meaning(ctx, sec.addrSize, a);
    AtSplit(sec.data, vm.pos, code, [UnOpcode(op)]);
    CompiledCodeComputes(ctx, sec, a, vm);
    var room := Room(ctx, sec.addrSize, a, |vm.stack|, vm.cap);
    if room.Some? { UnaryStep(ctx, sec, Pushed(vm, |code|, v, room.value), op, vm.stack, v); }
    OneMore(ctx, sec, e, a, vm);
  }

  lemma {:induction false} ComputePlusConst(ctx: Context, sec: Section, e: Exp, vm: Vm)
    requires e.PlusConst? && Ready(sec, e, vm)
    ensures Computes(ctx, sec, e, vm)
    decreases e, 1
  {
    hide At, Step, Run, Leads, Fails, Compile, Meaning, Steps, Fits, Room, Capacity;
    hide Leb128.EncodeUnsigned, Leb128.Terminated, Leb128.Unsigned;
    var a, w: word := e.e, e.w;
    UnfoldPlusConst(ctx, sec, a, w);
    var code, v := Compile(sec, a), Meaning(ctx, sec.addrSize, a);
    AtSplit(sec.data, vm.pos, code, [0x23] + Leb128.EncodeUnsigned(w));
    CompiledCodeComputes(ctx, sec, a, vm);
    var room := Room(ctx, sec.addrSize, a, |vm.stack|, vm.cap);
    if room.Some? { PlusConstStep(ctx, sec, Pushed(vm, |code|, v, room.value), vm.stack, v, w); }
    OneMore(ctx, sec, e, a, vm);
  }

  /** The codes of two operands, one after the other. */
  lemma {:induction false} ComputeBoth(ctx: Context, sec: Section, e: Exp, a: Exp, b: Exp, vm: Vm)
    requires a < e && b < e
    requires Ready(sec, a, vm) && Fits(sec, b) && At(sec.data, vm.pos + |Compile(sec, a)|, Compile(sec, b))
    ensures var n := Steps(ctx, sec.addrSize, a) + Steps(ctx, sec.addrSize, b);
      match RoomThen(ctx, sec.addrSize, Room(ctx, sec.addrSize, a, |vm.stack|, vm.cap), b, |vm.stack| + 1)
      case None => Fails(ctx, sec, vm, n)
      case Some(c) => Leads(ctx, sec, vm, n, Both(ctx, sec, a, b, vm, c))
    decreases e, 0
  {
    hide At, Step, Run, Leads, Fails, Compile, Meaning, Steps, Fits, Room, Capacity;
    var n1, n2 := Steps(ctx, sec.addrSize, a), Steps(ctx, sec.addrSize, b);
    var room := Room(ctx, sec.addrSize, a, |vm.stack|, vm.cap);
    CompiledCodeComputes(ctx, sec, a, vm);
    if room.None? {
      FailsAnyway(ctx, sec, vm, n1, n2);
    } else {
      var vm1 := Pushed(vm, |Compile(sec, a)|, Meaning(ctx, sec.addrSize, a), room.value);
      CompiledCodeComputes(ctx, sec, b, vm1);
      var room1 := Room(ctx, sec.addrSize, b, |vm1.stack|, vm1.cap);
      if room1.None? {
        FailsLater(ctx, sec, vm, n1, vm1, n2, 0);
      } else {
        LeadsThen(ctx, sec, vm, n1, vm1, n2, Both(ctx, sec, a, b, vm, room1.value));
      }
    }
  }

  function Both(ctx: Context, sec: Section, a: Exp, b: Exp, vm: Vm, cap: nat): Vm {
    Vm(vm.pos + |Compile(sec, a)| + |Compile(sec, b)|,
       vm.stack + [Meaning(ctx, sec.addrSize, a)] + [Meaning(ctx, sec.addrSize, b)], vm.loc, cap)
  }

  lemma {:induction false} ComputeBinary(ctx: Context, sec: Section, e: Exp, vm: Vm)
    requires e.Binary2? && Ready(sec, e, vm)
    ensures Computes(ctx, sec, e, vm)
    decreases e, 1
  {
    hide At, Step, Run, Leads, Fails, Compile, Meaning, Steps, Fits, Room, Capacity, BinOpcode, Binary, RoomThen;
    var op, a, b := e.bop, e.left, e.right;
    UnfoldBinary2(ctx, sec, op, a, b);
    var ca, cb := Compile(sec, a), Compile(sec, b);
    var v, w := Meaning(ctx, sec.addrSize, a), Meaning(ctx, sec.addrSize, b);
    var n := Steps(ctx, sec.addrSize, a) + Steps(ctx, sec.addrSize, b);
    AtSplit(sec.data, vm.pos, ca, cb + [BinOpcode(op)]);
    AtSplit(sec.data, vm.pos + |ca|, cb, [BinOpcode(op)]);
    ComputeBoth(ctx, sec, e, a, b, vm);
    match Room(ctx, sec.addrSize, e, |vm.stack|, vm.cap) {
      case None => FailsAnyway(ctx, sec, vm, n, 1);
      case Some(c) =>
        var vm2 := Both(ctx, sec, a, b, vm, c);
        BinaryStep(ctx, sec, vm2, op, vm.stack, v, w);
        StaysRoomy(vm2, vm2.pos + 1, vm.stack + [Binary(op, v, w)]);
        LeadsStep(ctx, sec, vm, n, vm2, Pushed(vm, |ca| + |cb| + 1, Binary(op, v, w), c));
    }
  }

  lemma {:induction false} ComputeSwapped(ctx: Context, sec: Section, e: Exp, vm: Vm)
    requires e.Swapped? && Ready(sec, e, vm)
    ensures Computes(ctx, sec, e, vm)
    decreases e, 1
  {
    hide At, Step, Run, Leads, Fails, Compile, Meaning, Steps, Fits, Room, Capacity, BinOpcode, Binary, RoomThen;
    var op, a, b := e.bop, e.left, e.right;
    UnfoldSwapped(ctx, sec, op, a, b);
    var ca, cb := Compile(sec, a), Compile(sec, b);
    var v, w := Meaning(ctx, sec.addrSize, a), Meaning(ctx, sec.addrSize, b);
    var n := Steps(ctx, sec.addrSize, b) + Steps(ctx, sec.addrSize, a);
    AtSplit(sec.data, vm.pos, cb, ca + ([0x16] + [BinOpcode(op)]));
    AtSplit(sec.data, vm.pos + |cb|, ca, [0x16] + [BinOpcode(op)]);
    ComputeBoth(ctx, sec, e, b, a, vm);
    match Room(ctx, sec.addrSize, e, |vm.stack|, vm.cap) {
      case None => FailsAnyway(ctx, sec, vm, n, 2);
      case Some(c) =>
        var vm2 := Both(ctx, sec, b, a, vm, c);
        TwoWords(ctx, sec, b, a, vm, c);
        SwapThenBinary(ctx, sec, vm2, op, vm.stack, w, v);
        LeadsThen(ctx, sec, vm, n, vm2, 2, Pushed(vm, |cb| + |ca| + 2, Binary(op, v, w), c));
    }
  }

  /** A block of code with two results has room for both. */
  lemma TwoWords(ctx: Context, sec: Section, a: Exp, b: Exp, vm: Vm, c: nat)
    requires RoomThen(ctx, sec.addrSize, Room(ctx, sec.addrSize, a, |vm.stack|, vm.cap), b, |vm.stack| + 1) == Some(c)
    ensures |vm.stack| + 2 <= c
  {}

  lemma SwapThenBinary(ctx: Context, sec: Section, vm: Vm, op: BinOp, s: seq<word>, w: word, v: word)
    requires At(sec.data, vm.pos, [0x16] + [BinOpcode(op)]) && vm.stack == s + [w] + [v] && |s| + 2 <= vm.cap
    ensures Leads(ctx, sec, vm, 2, vm.(pos := vm.pos + 2, stack := s + [Binary(op, v, w)]))
  {
    hide At, Step, Run, Leads, BinOpcode, Binary, Capacity;
    AtSplit(sec.data, vm.pos, [0x16], [BinOpcode(op)]);
    SwapStep(ctx, sec, vm, s, w, v);
    var vm1 := vm.(pos := vm.pos + 1, stack := s + [v] + [w]);
    StaysRoomy(vm, vm1.pos, vm1.stack);
    LeadsOne(ctx, sec, vm, vm1);
    BinaryStep(ctx, sec, vm1, op, s, v, w);
    StaysRoomy(vm1, vm.pos + 2, s + [Binary(op, v, w)]);
    LeadsStep(ctx, sec, vm, 1, vm1, vm.(pos := vm.pos + 2, stack := s + [Binary(op, v, w)]));
  }

  lemma {:induction false} ComputeTwice(ctx: Context, sec: Section, e: Exp, vm: Vm)
    requires e.Twice? && Ready(sec, e, vm)
    ensures Computes(ctx, sec, e, vm)
    decreases e, 1
  {
    hide At, Step, Run, Leads, Fails, Compile, Meaning, Steps, Fits, Room, Capacity, BinOpcode, Binary;
    var op, a := e.bop, e.e;
    UnfoldTwice(ctx, sec, op, a);
    var ca, v, n := Compile(sec, a), Meaning(ctx, sec.addrSize, a), Steps(ctx, sec.addrSize, a);
    AtSplit(sec.data, vm.pos, ca, [0x12] + [BinOpcode(op)]);
    AtSplit(sec.data, vm.pos + |ca|, [0x12], [BinOpcode(op)]);
    CompiledCodeComputes(ctx, sec, a, vm);
    var room := Room(ctx, sec.addrSize, a, |vm.stack|, vm.cap);
    if room.None? {
      FailsAnyway(ctx, sec, vm, n, 2);
    } else {
      var vm1 := Pushed(vm, |ca|, v, room.value);
      DupStep(ctx, sec, vm1, vm.stack, v);
      if vm1.Frees() {
        FailsOne(ctx, sec, vm1);
        FailsLater(ctx, sec, vm, n, vm1, 1, 1);
      } else {
        var vm2 := vm1.To(vm1.pos + 1, vm.stack + [v] + [v]);
        LeadsStep(ctx, sec, vm, n, vm1, vm2);
        BinaryStep(ctx, sec, vm2, op, vm.stack, v, v);
        CapacityHolds(room.value, |vm.stack| + 2);
        StaysRoomy(vm2, vm2.pos + 1, vm.stack + [Binary(op, v, v)]);
        LeadsStep(ctx, sec, vm, n + 1, vm2,
                  Pushed(vm, |ca| + 2, Binary(op, v, v), Capacity(room.value, |vm.stack| + 2)));
      }
    }
  }

  lemma CapacityHolds(cap: nat, n: nat)
    ensures Capacity(cap, n) >= n && Capacity(cap, n) >= cap && (n <= cap ==> Capacity(cap, n) == cap)
  {}

  lemma BranchLength(sec: Section, op: byte, distance: nat)
    ensures |Branch(sec, op, distance)| == 3
  {}

  lemma {:induction false} ComputeIf(ctx: Context, sec: Section, e: Exp, vm: Vm)
    requires e.If? && Ready(sec, e, vm)
    ensures Computes(ctx, sec, e, vm)
    decreases e, 1
  {
    hide At, Step, Run, Leads, Fails, Compile, Meaning, Steps, Fits, Room, Capacity, Branch;
    var c, t, f := e.cond, e.thn, e.els;
    UnfoldIf(ctx, sec, c, t, f);
    var cc, ct, cf := Compile(sec, c), Compile(sec, t), Compile(sec, f);
    BranchLength(sec, 0x28, |cf| + 3);
    BranchLength(sec, 0x2f, |ct|);
    var p1 := vm.pos + |cc|;
    IfParts(sec, vm.pos, cc, cf, ct);
    var v, n := Meaning(ctx, sec.addrSize, c), Steps(ctx, sec.addrSize, c);
    CompiledCodeComputes(ctx, sec, c, vm);
    var room := Room(ctx, sec.addrSize, c, |vm.stack|, vm.cap);
    if room.None? {
      FailsAnyway(ctx, sec, vm, n, Steps(ctx, sec.addrSize, e) - n);
    } else {
      var vm1 := Pushed(vm, |cc|, v, room.value);
      BraStep(ctx, sec, vm1, vm.stack, v, |cf| + 3);
      var vm2 := Vm(p1 + 3 + (if v != 0 then |cf| + 3 else 0), vm.stack, vm.loc, room.value);
      StaysRoomy(vm1, vm2.pos, vm.stack);
      LeadsStep(ctx, sec, vm, n, vm1, vm2);
      if v != 0 {
        ComputeThen(ctx, sec, vm, n + 1, t, vm2);
      } else {
        ComputeElse(ctx, sec, vm, n + 1, f, vm2, |ct|);
      }
    }
  }

  /** The branch that ends the code. */
  lemma {:induction false} ComputeThen(ctx: Context, sec: Section, vm: Vm, n: nat, e: Exp, vm2: Vm)
    requires Ready(sec, e, vm2) && Leads(ctx, sec, vm, n, vm2)
    ensures match Room(ctx, sec.addrSize, e, |vm2.stack|, vm2.cap)
            case None => Fails(ctx, sec, vm, n + Steps(ctx, sec.addrSize, e))
            case Some(c) => Leads(ctx, sec, vm, n + Steps(ctx, sec.addrSize, e),
                                  Pushed(vm2, |Compile(sec, e)|, Meaning(ctx, sec.addrSize, e), c))
    decreases e, 4
  {
    hide At, Step, Run, Leads, Fails, Compile, Meaning, Steps, Fits, Room, Capacity;
    CompiledCodeComputes(ctx, sec, e, vm2);
    match Room(ctx, sec.addrSize, e, |vm2.stack|, vm2.cap) {
      case None => FailsLater(ctx, sec, vm, n, vm2, Steps(ctx, sec.addrSize, e), 0);
      case Some(c) =>
        LeadsThen(ctx, sec, vm, n, vm2, Steps(ctx, sec.addrSize, e),
                  Pushed(vm2, |Compile(sec, e)|, Meaning(ctx, sec.addrSize, e), c));
    }
  }

  /** The branch that skips the other one. */
  lemma {:induction false} ComputeElse(ctx: Context, sec: Section, vm: Vm, n: nat, e: Exp, vm2: Vm, distance: nat)
    requires Ready(sec, e, vm2) && Leads(ctx, sec, vm, n, vm2) && distance < 0x8000
    requires At(sec.data, vm2.pos + |Compile(sec, e)|, Branch(sec, 0x2f, distance))
    ensures match Room(ctx, sec.addrSize, e, |vm2.stack|, vm2.cap)
            case None => Fails(ctx, sec, vm, n + Steps(ctx, sec.addrSize, e) + 1)
            case Some(c) => Leads(ctx, sec, vm, n + Steps(ctx, sec.addrSize, e) + 1,
                                  Pushed(vm2, |Compile(sec, e)| + 3 + distance, Meaning(ctx, sec.addrSize, e), c))
    decreases e, 5
  {
    hide At, Step, Run, Leads, Fails, Compile, Meaning, Steps, Fits, Room, Capacity, Branch;
    ComputeThen(ctx, sec, vm, n, e, vm2);
    match Room(ctx, sec.addrSize, e, |vm2.stack|, vm2.cap) {
      case None => FailsAnyway(ctx, sec, vm, n + Steps(ctx, sec.addrSize, e), 1);
      case Some(c) =>
        var vm3 := Pushed(vm2, |Compile(sec, e)|, Meaning(ctx, sec.addrSize, e), c);
        SkipStep(ctx, sec, vm3, distance);
        StaysRoomy(vm3, vm3.pos + 3 + distance, vm3.stack);
        LeadsStep(ctx, sec, vm, n + Steps(ctx, sec.addrSize, e), vm3, vm3.(pos := vm3.pos + 3 + distance));
    }
  }

  lemma IfParts(sec: Section, pos: nat, cc: seq<byte>, cf: seq<byte>, ct: seq<byte>)
    requires At(sec.data, pos, cc + (Branch(sec, 0x28, |cf| + 3) + (cf + (Branch(sec, 0x2f, |ct|) + ct))))
    ensures var p1 := pos + |cc|;
      && At(sec.data, pos, cc) && At(sec.data, p1, Branch(sec, 0x28, |cf| + 3)) && At(sec.data, p1 + 3, cf)
      && At(sec.data, p1 + 3 + |cf|, Branch(sec, 0x2f, |ct|)) && At(sec.data, p1 + 3 + |cf| + 3, ct)
  {
    hide At, Branch;
    var bra, skip := Branch(sec, 0x28, |cf| + 3), Branch(sec, 0x2f, |ct|);
    BranchLength(sec, 0x28, |cf| + 3);
    BranchLength(sec, 0x2f, |ct|);
    AtSplit(sec.data, pos, cc, bra + (cf + (skip + ct)));
    AtSplit(sec.data, pos + |cc|, bra, cf + (skip + ct));
    AtSplit(sec.data, pos + |cc| + 3, cf, skip + ct);
    AtSplit(sec.data, pos + |cc| + 3 + |cf|, skip, ct);
  }

  lemma {:induction false} CompileNonempty(sec: Section, e: Exp)
    ensures Compile(sec, e) != []
  {
    hide LeafBytes;
    LeafNonempty(sec, e);
  }

  lemma LeafNonempty(sec: Section, e: Exp)
    ensures LeafBytes(sec, e) != []
  {}

  /** Evaluating a compiled expression ends, whatever arguments lie beneath: at the address that the tree
      denotes if there is room for every dup on the way, and without a meaning otherwise. */
  lemma EvaluatingCompiledCode(ctx: Context, sec: Section, e: Exp, args: seq<word>, extra: nat)
    requires Fits(sec, e) && sec.data == Compile(sec, e)
    ensures Evaluate(ctx, sec, args, Steps(ctx, sec.addrSize, e) + extra) ==
      if Room(ctx, sec.addrSize, e, |args|, Capacity(INLINE, |args|)).Some?
      then Value(Address(Meaning(ctx, sec.addrSize, e))) else Error(Undefined)
  {
    hide Compile, Meaning, Steps, Fits, Step, Room, Capacity, Reversed;
    CompileNonempty(sec, e);
    ReversedLength(args);
    var vm, n := Start(args), Steps(ctx, sec.addrSize, e);
    assert At(sec.data, 0, sec.data);
    CompiledCodeComputes(ctx, sec, e, vm);
    match Room(ctx, sec.addrSize, e, |args|, vm.cap) {
      case None => assert Run(ctx, sec, vm, n + extra) == Failed(Undefined);
      case Some(c) =>
        var to := Pushed(vm, |sec.data|, Meaning(ctx, sec.addrSize, e), c);
        assert Run(ctx, sec, vm, n + extra) == Run(ctx, sec, to, extra);
        assert Run(ctx, sec, to, extra) == Finished(to);
    }
  }

  lemma {:induction false} ReversedLength(args: seq<word>)
    ensures |Reversed(args)| == |args|
  {
    if args != [] { ReversedLength(args[1..]); }
  }

  // ---------- when there is room ----------

  /** How many words the code has on the stack at most. */
  function Depth(e: Exp): (n: nat)
    ensures n >= 1
  {
    match e
    case Deref(a) => Depth(a)
    case DerefSized(a, _) => Depth(a)
    case Unary1(_, a) => Depth(a)
    case PlusConst(a, _) => Depth(a)
    case Binary2(_, a, b) => if Depth(a) > Depth(b) then Depth(a) else Depth(b) + 1
    case Swapped(_, a, b) => if Depth(b) > Depth(a) then Depth(b) else Depth(a) + 1
    case Twice(_, a) => if Depth(a) > 1 then Depth(a) else 2
    case If(c, t, f) =>
      var m := if Depth(t) > Depth(f) then Depth(t) else Depth(f);
      if Depth(c) > m then Depth(c) else m
    case _ => 1
  }

  predicate HasDup(e: Exp) {
    match e
    case Deref(a) => HasDup(a)
    case DerefSized(a, _) => HasDup(a)
    case Unary1(_, a) => HasDup(a)
    case PlusConst(a, _) => HasDup(a)
    case Binary2(_, a, b) => HasDup(a) || HasDup(b)
    case Swapped(_, a, b) => HasDup(a) || HasDup(b)
    case Twice(_, _) => true
    case If(c, t, f) => HasDup(c) || HasDup(t) || HasDup(f)
    case _ => false
  }

  /** There is room for code without dup, and for any that needs no more than there is already. */
  lemma {:induction false} ThereIsRoom(ctx: Context, addrSize: nat, e: Exp, k: nat, cap: nat)
    requires !HasDup(e) || k + Depth(e) <= cap
    ensures Roomy(Room(ctx, addrSize, e, k, cap), k + Depth(e), cap)
    decreases e, 1
  {
    hide Meaning, Capacity, Room, Depth, HasDup;
    match e
    case Deref(a) => OneOperand(ctx, addrSize, e, a, k, cap);
    case DerefSized(a, _) => OneOperand(ctx, addrSize, e, a, k, cap);
    case Unary1(_, a) => OneOperand(ctx, addrSize, e, a, k, cap);
    case PlusConst(a, _) => OneOperand(ctx, addrSize, e, a, k, cap);
    case Binary2(_, a, b) =>
      TwoOperands(ctx, addrSize, e, k, cap);
      RoomForBoth(ctx, addrSize, e, a, b, k, cap);
    case Swapped(_, a, b) =>
      TwoOperands(ctx, addrSize, e, k, cap);
      RoomForBoth(ctx, addrSize, e, b, a, k, cap);
    case Twice(_, _) =>
      TwiceHasDup(e);
      RoomForTwice(ctx, addrSize, e, k, cap);
    case If(_, _, _) => RoomForIf(ctx, addrSize, e, k, cap);
    case _ => RoomForLeaf(ctx, addrSize, e, k, cap);
  }

  lemma RoomForLeaf(ctx: Context, addrSize: nat, e: Exp, k: nat, cap: nat)
    requires IsLeaf(e)
    ensures Roomy(Room(ctx, addrSize, e, k, cap), k + Depth(e), cap)
  {
    hide Capacity;
    CapacityHolds(cap, k + 1);
  }

  lemma {:induction false} OneOperand(ctx: Context, addrSize: nat, e: Exp, a: Exp, k: nat, cap: nat)
    requires (e.Deref? || e.DerefSized? || e.Unary1? || e.PlusConst?) && e.e == a
    requires !HasDup(e) || k + Depth(e) <= cap
    ensures Roomy(Room(ctx, addrSize, e, k, cap), k + Depth(e), cap)
    decreases e, 0
  {
    hide Meaning, Capacity;
    ThereIsRoom(ctx, addrSize, a, k, cap);
  }

  lemma TwoOperands(ctx: Context, addrSize: nat, e: Exp, k: nat, cap: nat)
    requires e.Binary2? || e.Swapped?
    ensures var (a, b) := if e.Binary2? then (e.left, e.right) else (e.right, e.left);
      && HasDup(e) == (HasDup(a) || HasDup(b))
      && Depth(e) == (if Depth(a) > Depth(b) then Depth(a) else Depth(b) + 1)
      && Room(ctx, addrSize, e, k, cap) == RoomThen(ctx, addrSize, Room(ctx, addrSize, a, k, cap), b, k + 1)
  {
    hide Meaning, Capacity, RoomThen;
  }

  lemma TwiceHasDup(e: Exp)
    requires e.Twice?
    ensures HasDup(e)
  {}

  lemma {:induction false} RoomForTwice(ctx: Context, addrSize: nat, e: Exp, k: nat, cap: nat)
    requires e.Twice? && k + Depth(e) <= cap
    ensures Roomy(Room(ctx, addrSize, e, k, cap), k + Depth(e), cap)
    decreases e, 0
  {
    hide Meaning, Capacity, HasDup;
    ThereIsRoom(ctx, addrSize, e.e, k, cap);
    CapacityHolds(cap, k + 2);
  }

  lemma {:induction false} RoomForIf(ctx: Context, addrSize: nat, e: Exp, k: nat, cap: nat)
    requires e.If? && (!HasDup(e) || k + Depth(e) <= cap)
    ensures Roomy(Room(ctx, addrSize, e, k, cap), k + Depth(e), cap)
    decreases e, 0
  {
    hide Meaning, Capacity;
    ThereIsRoom(ctx, addrSize, e.cond, k, cap);
    ThereIsRoom(ctx, addrSize, if Meaning(ctx, addrSize, e.cond) != 0 then e.thn else e.els, k,
                Room(ctx, addrSize, e.cond, k, cap).value);
  }

  /** There is room, and no more than there was if `need` words are all there was need for. */
  predicate Roomy(room: Option<nat>, need: nat, cap: nat) {
    room.Some? && room.value >= cap && (need <= cap ==> room.value == cap)
  }

  lemma {:induction false} RoomForBoth(ctx: Context, addrSize: nat, e: Exp, a: Exp, b: Exp, k: nat, cap: nat)
    requires a < e && b < e
    requires !HasDup(a) || k + Depth(a) <= cap
    requires !HasDup(b) || k + 1 + Depth(b) <= cap
    ensures Roomy(RoomThen(ctx, addrSize, Room(ctx, addrSize, a, k, cap), b, k + 1),
                  k + if Depth(a) > Depth(b) then Depth(a) else Depth(b) + 1, cap)
    decreases e, 0
  {
    hide Meaning, Capacity, Room, Depth, HasDup;
    ThereIsRoom(ctx, addrSize, a, k, cap);
    ThereIsRoom(ctx, addrSize, b, k + 1, Room(ctx, addrSize, a, k, cap).value);
  }

  /** The case that has none: over fifteen arguments, doubling 1 needs a seventeenth word while it refers
      to the sixteenth. */
  lemma DupWithoutRoom(ctx: Context, sec: Section, args: seq<word>, extra: nat)
    requires |args| == 15 && sec.data == [0x31, 0x12, 0x22]
    ensures Evaluate(ctx, sec, args, 3 + extra) == Error(Undefined)
  {
    hide Evaluate, Capacity;
    var e := Twice(Plus, Lit(1));
    assert Compile(sec, e) == sec.data;
    assert Capacity(INLINE, 15) == 16 && Capacity(16, 16) == 16 by { SixteenWords(); }
    EvaluatingCompiledCode(ctx, sec, e, args, extra);
  }

  lemma SixteenWords()
    ensures Capacity(INLINE, 15) == 16 && Capacity(16, 16) == 16
  {
    assert Grown(16, 15) == 16;
  }
}
