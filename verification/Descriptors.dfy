/** Location descriptors (section 2.6.1.1 of DWARF Version 4): what evaluating them from their bytes gives. */
module Descriptors {
  import opened Words
  import opened Sections
  import opened Expressions
  import opened ExprCompiler
  import opened Operations
  import opened SmallVectors
  import Leb128

  /** DW_OP_reg0 to DW_OP_reg31, DW_OP_regx, DW_OP_implicit_value and DW_OP_stack_value. */
  const REG0: byte := 0x50
  const REGX: byte := 0x90
  const IMPLICIT_VALUE: byte := 0x9e
  const STACK_VALUE: byte := 0x9f

  lemma DescriptorStep(ctx: Context, sec: Section, vm: Vm, op: byte)
    requires 0x50 <= op <= 0x6f || op in {0x90, 0x9e, 0x9f}
    requires FixedAt(sec, vm.pos, 1) == Ok((op, vm.pos + 1))
    ensures Step(ctx, sec, vm) ==
      match Locate(sec, op, vm.pos + 1, vm.stack)
      case Ok(r) => Ok(vm.(pos := r.1, loc := Some(r.0)))
      case Err(e) => Err(e)
  {
    hide FixedAt, UnsignedAt, Locate;
  }

  /** The machine at the end of the expression. */
  lemma EvaluatesTo(ctx: Context, sec: Section, args: seq<word>, n: nat, to: Vm, extra: nat)
    requires sec.data != [] && Leads(ctx, sec, Start(args), n, to) && to.pos >= |sec.data| && to.loc.Some?
    ensures Evaluate(ctx, sec, args, n + extra) == Value(to.loc.value)
  {
    hide Step, Start;
    assert Run(ctx, sec, Start(args), n + extra) == Run(ctx, sec, to, extra);
  }

  lemma DataIsAt(data: seq<byte>)
    ensures At(data, 0, data)
  {}

  /** A register descriptor names its register, whatever the arguments. */
  lemma RegisterIsNamed(ctx: Context, sec: Section, k: nat, args: seq<word>, extra: nat)
    requires k < 32 && sec.data == [REG0 + k]
    ensures Evaluate(ctx, sec, args, 1 + extra) == Value(Register(k))
  {
    hide At, FixedAt, Step, Leads, Locate;
    DataIsAt(sec.data);
    var vm := Start(args);
    OpAlone(sec, 0, REG0 + k);
    DescriptorStep(ctx, sec, vm, REG0 + k);
    var to := vm.(pos := 1, loc := Some(Register(k)));
    RegLocates(sec, k, vm.stack);
    LeadsOne(ctx, sec, vm, to);
    EvaluatesTo(ctx, sec, args, 1, to, extra);
  }

  lemma RegLocates(sec: Section, k: nat, s: seq<word>)
    requires k < 32
    ensures Locate(sec, REG0 + k, 1, s) == Ok((Register(k), 1))
  {}

  /** So does regx, its number being any LEB128 encoding. */
  lemma RegxIsNamed(ctx: Context, sec: Section, bs: seq<byte>, r: word, args: seq<word>, extra: nat)
    requires sec.data == [REGX] + bs && Leb128.Terminated(bs) && Leb128.Unsigned(bs) == r
    ensures Evaluate(ctx, sec, args, 1 + extra) == Value(Register(r))
  {
    hide At, FixedAt, UnsignedAt, Step, Leads, Leb128.Terminated, Leb128.Unsigned;
    DataIsAt(sec.data);
    var vm := Start(args);
    ByteIsRead(sec, 0, REGX, bs);
    UnsignedRoundTrip(sec, 1, bs, r);
    DescriptorStep(ctx, sec, vm, REGX);
    var to := vm.(pos := 1 + |bs|, loc := Some(Register(r)));
    LeadsOne(ctx, sec, vm, to);
    EvaluatesTo(ctx, sec, args, 1, to, extra);
  }

  /** The code of an expression tree with stack_value behind it gives the tree's value itself. */
  lemma CompiledValue(ctx: Context, sec: Section, e: Exp, args: seq<word>, extra: nat)
    requires Fits(sec, e) && sec.data == Compile(sec, e) + [STACK_VALUE]
    ensures Evaluate(ctx, sec, args, Steps(ctx, sec.addrSize, e) + 1 + extra) ==
      if Room(ctx, sec.addrSize, e, |args|, Capacity(INLINE, |args|)).Some?
      then Value(Literal(Meaning(ctx, sec.addrSize, e))) else Error(Undefined)
  {
    hide At, FixedAt, Compile, Meaning, Steps, Fits, Step, Room, Capacity, Reversed, Run, Leads;
    DataIsAt(sec.data);
    AtSplit(sec.data, 0, Compile(sec, e), [STACK_VALUE]);
    ReversedLength(args);
    var vm, n := Start(args), Steps(ctx, sec.addrSize, e);
    CompiledCodeComputes(ctx, sec, e, vm);
    match Room(ctx, sec.addrSize, e, |args|, vm.cap) {
      case None => RunFails(ctx, sec, vm, n, n + 1 + extra);
      case Some(c) =>
        var last := Pushed(vm, |Compile(sec, e)|, Meaning(ctx, sec.addrSize, e), c);
        OpAlone(sec, last.pos, STACK_VALUE);
        DescriptorStep(ctx, sec, last, STACK_VALUE);
        var to := last.(pos := last.pos + 1, loc := Some(Literal(Meaning(ctx, sec.addrSize, e))));
        LeadsStep(ctx, sec, vm, n, last, to);
        EvaluatesTo(ctx, sec, args, n + 1, to, extra);
    }
  }

  lemma RunFails(ctx: Context, sec: Section, vm: Vm, n: nat, fuel: nat)
    requires Fails(ctx, sec, vm, n) && fuel >= n
    ensures Run(ctx, sec, vm, fuel) == Failed(Undefined)
  {
    hide Run;
  }

  /** On an empty stack there is no value. */
  lemma NoValue(ctx: Context, sec: Section, extra: nat)
    requires sec.data == [STACK_VALUE]
    ensures Evaluate(ctx, sec, [], 1 + extra) == Error(ExprError)
  {
    hide At, FixedAt, Step, Capacity;
    DataIsAt(sec.data);
    OpAlone(sec, 0, STACK_VALUE);
    DescriptorStep(ctx, sec, Start([]), STACK_VALUE);
  }

  // ---------- arguments ----------

  lemma {:induction false} ReversedAt(args: seq<word>, n: nat)
    requires n < |args|
    ensures |Reversed(args)| == |args| && Reversed(args)[|args| - 1 - n] == args[n]
  {
    ReversedLength(args);
    if n > 0 {
      ReversedLength(args[1..]);
      ReversedAt(args[1..], n - 1);
    }
  }

  /** Argument n is n below the top of the stack, where pick finds it; without room its push has no meaning. */
  lemma ArgumentsAreInOrder(ctx: Context, sec: Section, args: seq<word>, n: byte, extra: nat)
    requires n < |args| && sec.data == [0x15, n]
    ensures Evaluate(ctx, sec, args, 1 + extra) ==
      if |args| > INLINE && |args| == Capacity(INLINE, |args|) then Error(Undefined) else Value(Address(args[n]))
  {
    hide At, Step, Capacity, Reversed;
    DataIsAt(sec.data);
    ReversedAt(args, n);
    var vm, k := Start(args), |args| - 1 - n;
    assert vm.stack == vm.stack[..k] + [args[n]] + vm.stack[k + 1..];
    PickStep(ctx, sec, vm, vm.stack[..k], args[n], vm.stack[k + 1..], n);
    RunOnce(ctx, sec, vm, extra);
  }

  /** No expression has no location; an expression that leaves nothing on the stack has no result. */
  lemma NothingToGive(ctx: Context, sec: Section, args: seq<word>, extra: nat)
    ensures sec.data == [] ==> Evaluate(ctx, sec, args, extra) == Value(Empty)
    ensures sec.data == [0x96] && args == [] ==> Evaluate(ctx, sec, args, 1 + extra) == Error(ExprError)
  {
    hide FixedAt, Capacity;
    if sec.data == [0x96] && args == [] {
      ByteAt(sec, 0);
      RunOnce(ctx, sec, Start([]), extra);
    }
  }

  // ---------- implicit values ----------

  /** The place and length of the block, from the machine on; and evaluation goes on with the block's own
      bytes. A block that is not all there, or is empty at the very end, is refused. */
  lemma ImplicitStep(ctx: Context, sec: Section, vm: Vm, bs: seq<byte>, len: word)
    requires Leb128.Terminated(bs) && Leb128.Unsigned(bs) == len && At(sec.data, vm.pos, [IMPLICIT_VALUE] + bs)
    ensures var block := vm.pos + 1 + |bs|;
      Step(ctx, sec, vm) ==
        if block < |sec.data| && block + len <= |sec.data| then
          Ok(vm.(pos := block, loc := Some(Implicit(block, len))))
        else Err(Underflow)
  {
    hide At, FixedAt, UnsignedAt, Leb128.Terminated, Leb128.Unsigned;
    AtEnds(sec.data, vm.pos, [IMPLICIT_VALUE] + bs);
    ByteIsRead(sec, vm.pos, IMPLICIT_VALUE, bs);
    UnsignedRoundTrip(sec, vm.pos + 1, bs, len);
    DescriptorStep(ctx, sec, vm, IMPLICIT_VALUE);
  }

  lemma AtEnds(data: seq<byte>, pos: nat, bs: seq<byte>)
    requires At(data, pos, bs)
    ensures pos + |bs| <= |data|
  {}

  /** A small literal is an operation that pushes a number and touches nothing else. */
  predicate Harmless(b: byte) { 0x30 <= b <= 0x4f || b == 0x96 }

  lemma {:induction false} HarmlessRuns(ctx: Context, sec: Section, vm: Vm, fuel: nat)
    requires vm.pos <= |sec.data| && fuel >= |sec.data| - vm.pos
    requires forall i :: vm.pos <= i < |sec.data| ==> Harmless(sec.data[i])
    ensures Run(ctx, sec, vm, fuel).Finished? && Run(ctx, sec, vm, fuel).vm.loc == vm.loc
    decreases fuel
  {
    hide FixedAt, Step;
    if vm.pos < |sec.data| {
      HarmlessStep(ctx, sec, vm);
      HarmlessRuns(ctx, sec, Step(ctx, sec, vm).value, fuel - 1);
    }
  }

  lemma HarmlessStep(ctx: Context, sec: Section, vm: Vm)
    requires vm.pos < |sec.data| && Harmless(sec.data[vm.pos])
    ensures var r := Step(ctx, sec, vm); r.Ok? && r.value.pos == vm.pos + 1 && r.value.loc == vm.loc
  {
    hide FixedAt, Capacity;
    OneByteAt(sec.data, vm.pos);
    OpAlone(sec, vm.pos, sec.data[vm.pos]);
  }

  lemma OneByteAt(data: seq<byte>, pos: nat)
    requires pos < |data|
    ensures At(data, pos, [data[pos]])
  {}

  /** implicit_value gives the place and length of its block; the block's bytes are executed too, so this is
      for blocks that do no harm. */
  lemma ImplicitValue(ctx: Context, sec: Section, bs: seq<byte>, block: seq<byte>, args: seq<word>, extra: nat)
    requires |block| < TWO64 && Leb128.Terminated(bs) && Leb128.Unsigned(bs) == |block|
    requires sec.data == [IMPLICIT_VALUE] + bs + block && forall b :: b in block ==> Harmless(b)
    ensures Evaluate(ctx, sec, args, 1 + |block| + extra) ==
      if block == [] then Error(Underflow) else Value(Implicit(1 + |bs|, |block|))
  {
    hide At, Step, Leb128.Terminated, Leb128.Unsigned, Run, Start, Harmless, Evaluate;
    EvaluateRuns(ctx, sec, args, 1 + |block| + extra);
    var vm := Start(args);
    StartsAtZero(args);
    DataIsAt(sec.data);
    AtSplit(sec.data, 0, [IMPLICIT_VALUE] + bs, block);
    ImplicitStep(ctx, sec, vm, bs, |block|);
    RunOnce(ctx, sec, vm, |block| + extra);
    if block != [] {
      BlockIsBehind(sec.data, bs, block);
      HarmlessRuns(ctx, sec, Step(ctx, sec, vm).value, |block| + extra);
    }
  }

  lemma EvaluateRuns(ctx: Context, sec: Section, args: seq<word>, fuel: nat)
    requires sec.data != []
    ensures var r := Run(ctx, sec, Start(args), fuel);
      && (r.Failed? ==> Evaluate(ctx, sec, args, fuel) == Error(r.error))
      && (r.Finished? && r.vm.loc.Some? ==> Evaluate(ctx, sec, args, fuel) == Value(r.vm.loc.value))
  {
    hide Run, Start;
  }

  lemma BlockIsBehind(data: seq<byte>, bs: seq<byte>, block: seq<byte>)
    requires data == [IMPLICIT_VALUE] + bs + block && forall b :: b in block ==> Harmless(b)
    ensures forall i :: 1 + |bs| <= i < |data| ==> Harmless(data[i])
  {
    hide Harmless;
    forall i | 1 + |bs| <= i < |data| ensures Harmless(data[i]) {
      assert data[i] == block[i - 1 - |bs|];
    }
  }

  lemma StartsAtZero(args: seq<word>)
    ensures Start(args).pos == 0
  {}

  lemma RunOnce(ctx: Context, sec: Section, vm: Vm, fuel: nat)
    requires vm.pos < |sec.data|
    ensures var r := Step(ctx, sec, vm);
      Run(ctx, sec, vm, 1 + fuel) == if r.Ok? then Run(ctx, sec, r.value, fuel) else Failed(r.error)
  {
    hide Step;
  }
}
