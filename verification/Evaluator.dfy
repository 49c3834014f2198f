/** `expr::evaluate`: one loop over a cursor and a growable stack. */
module Evaluator {
  import opened Words
  import opened Sections
  import opened Expressions
  import opened SmallVectors

  type Stack = SmallVector<word>

  /** A method's outcome on the stack agrees with what the specification makes of its contents. */
  ghost predicate Made(spec: Result<seq<word>>, r: Result<()>, stack: Stack)
    requires stack.Valid()
    reads stack, stack.base
  {
    match spec
    case Ok(s) => r == Ok(()) && stack.Contents() == s
    case Err(e) => r == Err(e)
  }

  ghost predicate MadeAt(spec: Result<(seq<word>, nat)>, r: Result<()>, stack: Stack, cur: Cursor)
    requires stack.Valid()
    reads stack, stack.base, cur
  {
    match spec
    case Ok(p) => r == Ok(()) && stack.Contents() == p.0 && cur.pos == p.1
    case Err(e) => r == Err(e)
  }

  method SignedFixed(cur: Cursor, n: nat) returns (r: Result<word>)
    requires n in {1, 2, 4, 8}
    modifies cur
    ensures Reads(SignedFixedAt(cur.sec, old(cur.pos), n), r, cur.pos)
  {
    var v := cur.Fixed(n);
    if v.Err? { return v; }
    return Ok(SignExtend(v.value, n));
  }

  /** Section 2.5.1.1. */
  method DoLiteral(op: word, cur: Cursor) returns (r: Result<word>)
    requires IsLiteralOp(op)
    modifies cur
    ensures Reads(LiteralAt(cur.sec, op, old(cur.pos)), r, cur.pos)
  {
    hide SignedFixedAt, FixedAt, AddressAt, UnsignedAt, SignedAt;
    if op >= 0x30 { r := Ok(op - 0x30); }
    else if op == 0x03 { r := cur.Address(); }
    else if op == 0x08 { r := cur.Fixed(1); }
    else if op == 0x0a { r := cur.Fixed(2); }
    else if op == 0x0c { r := cur.Fixed(4); }
    else if op == 0x0e { r := cur.Fixed(8); }
    else if op == 0x09 { r := SignedFixed(cur, 1); }
    else if op == 0x0b { r := SignedFixed(cur, 2); }
    else if op == 0x0d { r := SignedFixed(cur, 4); }
    else if op == 0x0f { r := SignedFixed(cur, 8); }
    else if op == 0x10 { r := cur.Uleb128(); }
    else {
      var s := cur.Sleb128();
      if s.Err? { return Err(s.error); }
      r := Ok(Wrap(s.value));
    }
  }

  /** Section 2.5.1.2. */
  method DoBase(ctx: Context, op: word, cur: Cursor) returns (r: Result<word>)
    requires IsBaseOp(op)
    modifies cur
    ensures Reads(BaseAt(ctx, cur.sec, op, old(cur.pos)), r, cur.pos)
  {
    hide UnsignedAt, SignedAt;
    if op == 0x9c { return Ok(Wrap(ctx.reg(6) + 16)); }
    var regnum := 0;
    if op == 0x92 {
      var n := cur.Uleb128();
      if n.Err? { return n; }
      regnum := n.value % TWO32;
    } else {
      regnum := op - 0x70;
    }
    var off := cur.Sleb128();
    if off.Err? { return Err(off.error); }
    return Ok(Wrap(ctx.reg(regnum) + off.value));
  }

  /** Section 2.5.1.3, the operations without operands. */
  method DoStack(op: word, stack: Stack) returns (r: Result<()>)
    requires IsStackOp(op) && stack.Valid()
    modifies stack, stack.base
    ensures stack.Valid() && (stack.base == old(stack.base) || fresh(stack.base))
    ensures Made(StackOpIn(op, old(stack.Contents()), old(stack.Frees())), r, stack)
    ensures stack.base.Length == Capacity(old(stack.base.Length), stack.end)
  {
    if op == 0x12 {
      if stack.Empty() { return Err(ExprError); }
      r := stack.PushRevAt(0);
      return;
    }
    if op == 0x13 {
      if stack.Empty() { return Err(ExprError); }
      stack.PopBack();
      return Ok(());
    }
    if op == 0x14 {
      if stack.Size() < 2 { return Err(ExprError); }
      r := stack.PushRevAt(1);
      return;
    }
    if op == 0x16 {
      if stack.Size() < 2 { return Err(ExprError); }
      SwapTop(stack);
      return Ok(());
    }
    if stack.Size() < 3 { return Err(ExprError); }
    RotateTop(stack);
    return Ok(());
  }

  method SwapTop(stack: Stack)
    requires stack.Valid() && stack.Size() >= 2
    modifies stack.base
    ensures stack.Valid()
    ensures var s := old(stack.Contents()); stack.Contents() == s[..|s| - 2] + [s[|s| - 1], s[|s| - 2]]
  {
    var tmp := stack.Back();
    stack.SetRevAt(0, stack.RevAt(1));
    stack.SetRevAt(1, tmp);
  }

  method RotateTop(stack: Stack)
    requires stack.Valid() && stack.Size() >= 3
    modifies stack.base
    ensures stack.Valid()
    ensures var s := old(stack.Contents()); stack.Contents() == s[..|s| - 3] + [s[|s| - 1], s[|s| - 3], s[|s| - 2]]
  {
    var tmp := stack.Back();
    stack.SetRevAt(0, stack.RevAt(1));
    stack.SetRevAt(1, stack.RevAt(2));
    stack.SetRevAt(2, tmp);
  }

  /** Replacing the top element. */
  method SetTop(stack: Stack, x: word)
    requires stack.Valid() && !stack.Empty()
    modifies stack.base
    ensures stack.Valid() && stack.Contents() == old(stack.Contents())[..old(stack.end) - 1] + [x]
  {
    ghost var s := stack.Contents();
    stack.SetRevAt(0, x);
    assert stack.Contents() == s[..|s| - 1] + [x];
  }

  /** Popping the top and replacing the element beneath: the shape of every binary operator. */
  method PopAndSet(stack: Stack, x: word)
    requires stack.Valid() && stack.Size() >= 2
    modifies stack`end, stack.base
    ensures stack.Valid() && stack.base == old(stack.base)
    ensures stack.Contents() == old(stack.Contents())[..old(stack.end) - 2] + [x]
  {
    ghost var s := stack.Contents();
    stack.PopBack();
    SetTop(stack, x);
    assert stack.Contents() == s[..|s| - 2] + [x];
  }

  /** Sections 2.5.1.4 and the comparisons of 2.5.1.5. */
  method DoArith(op: word, stack: Stack) returns (r: Result<()>)
    requires IsArithOp(op) && stack.Valid()
    modifies stack, stack.base
    ensures stack.Valid() && stack.base == old(stack.base)
    ensures Made(Arith(op, old(stack.Contents())), r, stack)
  {
    hide Unary, Binary, Divide, ShiftArith;
    var unary := UnOpOf(op);
    if unary.Some? {
      if stack.Empty() { return Err(ExprError); }
      SetTop(stack, Unary(unary.value, stack.Back()));
      return Ok(());
    }
    if stack.Size() < 2 { return Err(ExprError); }
    var tmp1, tmp2 := stack.Back(), stack.RevAt(1);
    var binary := BinOpOf(op);
    if binary.Some? {
      PopAndSet(stack, Binary(binary.value, tmp2, tmp1));
    } else if op == 0x1b {
      var q := Divide(tmp1, tmp2);
      if q.Err? { return Err(q.error); }
      PopAndSet(stack, q.value);
    } else if op == 0x1d {
      if tmp1 == 0 { return Err(Undefined); }
      PopAndSet(stack, tmp2 % tmp1);
    } else {
      PopAndSet(stack, ShiftArith(tmp2, tmp1));
    }
    return Ok(());
  }

  method ReadDerefSize(op: word, cur: Cursor) returns (r: Result<nat>)
    modifies cur
    ensures Reads(DerefSizeAt(cur.sec, op, old(cur.pos)), r, cur.pos)
  {
    if op == 0x06 || op == 0x18 { return Ok(cur.sec.addrSize); }
    var n := cur.Fixed(1);
    if n.Err? { return Err(n.error); }
    if n.value > cur.sec.addrSize { return Err(ExprError); }
    return Ok(n.value);
  }

  /** pick: a copy of the element its byte operand counts from the top. */
  method DoPick(ctx: Context, op: word, cur: Cursor, stack: Stack) returns (r: Result<()>)
    requires op == 0x15 && stack.Valid()
    modifies cur, stack, stack.base
    ensures stack.Valid() && (stack.base == old(stack.base) || fresh(stack.base))
    ensures MadeAt(MixedIn(ctx, cur.sec, op, old(cur.pos), old(stack.Contents()), old(stack.Frees())), r, stack, cur)
    ensures stack.base.Length == Capacity(old(stack.base.Length), stack.end)
  {
    hide FixedAt, UnsignedAt, DerefSizeAt, Wrap;
    var n := cur.Fixed(1);
    if n.Err? { return Err(n.error); }
    if stack.Size() < n.value { return Err(ExprError); }
    if stack.Size() == n.value { return Err(Undefined); }
    r := stack.PushRevAt(n.value);
  }

  /** form_tls_address and plus_uconst: the top element is replaced. */
  method DoTop(ctx: Context, op: word, cur: Cursor, stack: Stack) returns (r: Result<()>)
    requires op in {0x9b, 0x23} && stack.Valid()
    modifies cur, stack, stack.base
    ensures stack.Valid() && stack.base == old(stack.base)
    ensures MadeAt(MixedIn(ctx, cur.sec, op, old(cur.pos), old(stack.Contents()), old(stack.Frees())), r, stack, cur)
  {
    hide FixedAt, UnsignedAt, DerefSizeAt, Wrap;
    if op == 0x9b {
      if stack.Empty() { return Err(ExprError); }
      SetTop(stack, ctx.tlsAddress(stack.Back()));
      return Ok(());
    }
    var n := cur.Uleb128();
    if n.Err? { return Err(n.error); }
    if stack.Empty() { return Err(ExprError); }
    SetTop(stack, Wrap(stack.Back() + n.value));
    return Ok(());
  }

  method DoDeref(ctx: Context, op: word, cur: Cursor, stack: Stack) returns (r: Result<()>)
    requires IsMixedOp(op) && op !in {0x15, 0x9b, 0x23} && stack.Valid()
    modifies cur, stack, stack.base
    ensures stack.Valid() && stack.base == old(stack.base)
    ensures MadeAt(MixedIn(ctx, cur.sec, op, old(cur.pos), old(stack.Contents()), old(stack.Frees())), r, stack, cur)
  {
    hide FixedAt, UnsignedAt, DerefSizeAt, Wrap;
    var n := ReadDerefSize(op, cur);
    if n.Err? { return Err(n.error); }
    if op == 0x06 || op == 0x94 {
      if stack.Empty() { return Err(ExprError); }
      SetTop(stack, ctx.derefSize(stack.Back(), n.value));
      return Ok(());
    }
    if stack.Size() < 2 { return Err(ExprError); }
    PopAndSet(stack, ctx.xderefSize(stack.Back(), stack.RevAt(1), n.value));
    return Ok(());
  }

  method DoMixed(ctx: Context, op: word, cur: Cursor, stack: Stack) returns (r: Result<()>)
    requires IsMixedOp(op) && stack.Valid()
    modifies cur, stack, stack.base
    ensures stack.Valid() && (stack.base == old(stack.base) || fresh(stack.base))
    ensures MadeAt(MixedIn(ctx, cur.sec, op, old(cur.pos), old(stack.Contents()), old(stack.Frees())), r, stack, cur)
    ensures stack.base.Length == Capacity(old(stack.base.Length), stack.end)
  {
    hide Mixed, MadeAt;
    if op == 0x15 {
      r := DoPick(ctx, op, cur, stack);
    } else if op == 0x9b || op == 0x23 {
      r := DoTop(ctx, op, cur, stack);
    } else {
      r := DoDeref(ctx, op, cur, stack);
    }
  }

  /** skip and bra: the cursor is replaced by one at the target. */
  method DoControl(op: word, cur: Cursor, stack: Stack) returns (r: Result<()>)
    requires op in {0x28, 0x2f} && stack.Valid()
    modifies cur, stack`end
    ensures stack.Valid() && stack.base == old(stack.base)
    ensures MadeAt(Control(cur.sec, op, old(cur.pos), old(stack.Contents())), r, stack, cur)
  {
    hide FixedAt;
    var n := cur.Fixed(2);
    if n.Err? { return Err(n.error); }
    var off: int := n.value;
    if off >= 0x8000 { off := off - 0x1_0000; }
    if op == 0x28 {
      if stack.Empty() { return Err(ExprError); }
      var tmp2 := stack.Back();
      stack.PopBack();
      if tmp2 == 0 { return Ok(()); }
    }
    if cur.pos + off < 0 { return Err(Undefined); }
    cur.pos := cur.pos + off;
    return Ok(());
  }

  /** Sections 2.6.1.1.2 and 2.6.1.1.3. */
  method DoLocate(op: word, cur: Cursor, stack: Stack) returns (r: Result<Location>)
    requires IsLocationOp(op) && stack.Valid()
    modifies cur
    ensures Reads(Locate(cur.sec, op, old(cur.pos), stack.Contents()), r, cur.pos)
  {
    if 0x50 <= op <= 0x6f { return Ok(Register(op - 0x50)); }
    if op == 0x9f {
      if stack.Empty() { return Err(ExprError); }
      return Ok(Literal(stack.Back()));
    }
    var n := cur.Uleb128();
    if n.Err? { return Err(n.error); }
    if op == 0x90 { return Ok(Register(n.value)); }
    var enough := cur.Ensure(n.value);
    if enough.Err? { return Err(enough.error); }
    return Ok(Implicit(cur.pos, n.value));
  }

  /** The state of the loop as a machine of the specification. */
  function View(cur: Cursor, stack: Stack, loc: Option<Location>): Vm
    requires stack.end <= stack.base.Length
    reads cur, stack, stack.base
  {
    Vm(cur.pos, stack.Contents(), loc, stack.base.Length)
  }

  /** The operations that push a value from outside the stack. */
  method DoPushed(ctx: Context, op: word, cur: Cursor) returns (r: Result<word>)
    requires IsLiteralOp(op) || IsBaseOp(op)
    modifies cur
    ensures Reads(if IsLiteralOp(op) then LiteralAt(cur.sec, op, old(cur.pos))
                  else BaseAt(ctx, cur.sec, op, old(cur.pos)), r, cur.pos)
  {
    hide LiteralAt, BaseAt;
    if IsLiteralOp(op) { r := DoLiteral(op, cur); } else { r := DoBase(ctx, op, cur); }
  }

  /** One round of the switch. */
  method DoOp(ctx: Context, op: word, cur: Cursor, stack: Stack, loc: Option<Location>)
      returns (r: Result<Option<Location>>)
    requires stack.Valid() && stack.min == INLINE
    modifies cur, stack, stack.base
    ensures stack.Valid() && (stack.base == old(stack.base) || fresh(stack.base))
    ensures match Dispatch(ctx, cur.sec, op, old(View(cur, stack, loc)))
            case Ok(vm) => r.Ok? && View(cur, stack, r.value) == vm
            case Err(e) => r == Err(e)
  {
    hide LiteralAt, BaseAt, StackOpIn, Arith, MixedIn, Control, Locate;
    if IsLiteralOp(op) || IsBaseOp(op) {
      var v := DoPushed(ctx, op, cur);
      if v.Err? { return Err(v.error); }
      stack.PushBack(v.value);
      return Ok(loc);
    } else if IsLocationOp(op) && !IsStackOp(op) && !IsArithOp(op) && !IsMixedOp(op) {
      var l := DoLocate(op, cur, stack);
      if l.Err? { return Err(l.error); }
      return Ok(Some(l.value));
    }
    var done: Result<()> := Ok(());
    if IsStackOp(op) {
      done := DoStack(op, stack);
    } else if IsArithOp(op) {
      done := DoArith(op, stack);
    } else if IsMixedOp(op) {
      done := DoMixed(ctx, op, cur, stack);
    } else if op == 0x28 || op == 0x2f {
      done := DoControl(op, cur, stack);
    } else if op != 0x96 {
      done := Err(if IsUnsupportedOp(op) then NotImplemented else ExprError);
    }
    if done.Err? { return Err(done.error); }
    return Ok(loc);
  }

  /** The initial stack: the arguments in reverse, so that the first one is the top. */
  method PushArguments(args: seq<word>) returns (stack: Stack)
    ensures fresh(stack) && fresh(stack.base) && stack.Valid() && stack.min == INLINE
    ensures stack.Contents() == Reversed(args) && stack.base.Length == Capacity(INLINE, |args|)
  {
    stack := new SmallVector<word>(INLINE);
    if |args| > 0 {
      stack.Reserve(|args|);
      var i := |args|;
      while i > 0
        invariant 0 <= i <= |args|
        invariant fresh(stack) && fresh(stack.base) && stack.Valid() && stack.min == INLINE
        invariant stack.Contents() == Reversed(args[i..]) && stack.end == |args| - i
        invariant stack.base.Length == Capacity(INLINE, |args|) >= |args|
      {
        i := i - 1;
        assert args[i..] == [args[i]] + args[i + 1..];
        stack.PushBack(args[i]);
      }
      assert args[0..] == args;
    }
  }

  method Evaluate(ctx: Context, sec: Section, args: seq<word>, fuel: nat) returns (r: Evaluated)
    ensures r == Expressions.Evaluate(ctx, sec, args, fuel)
  {
    hide Dispatch, Reversed;
    var stack := PushArguments(args);
    var cur := new Cursor(sec, 0);
    if cur.End() { return Value(Empty); }
    var loc: Option<Location> := None;
    ghost var start := View(cur, stack, loc);
    var left := fuel;
    while !cur.End()
      invariant fresh(cur) && fresh(stack) && fresh(stack.base) && stack.Valid() && stack.min == INLINE
      invariant cur.sec == sec
      invariant Run(ctx, sec, View(cur, stack, loc), left) == Run(ctx, sec, start, fuel)
      decreases left
    {
      if left == 0 { return StillRunning; }
      var op := cur.Fixed(1);
      var next := DoOp(ctx, op.value, cur, stack, loc);
      if next.Err? { return Error(next.error); }
      loc := next.value;
      left := left - 1;
    }
    if loc.Some? { return Value(loc.value); }
    if stack.Empty() { return Error(ExprError); }
    return Value(Address(stack.Back()));
  }
}
