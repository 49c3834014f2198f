/** What the debugger's commands do to the tracee, and why the tracee cannot tell. */
module Stepping {
  import opened Words
  import opened Sections
  import opened Breakpoints

  datatype State<D> = State(mem: Memory, pc: nat, data: D, bps: map<nat, Saved>, trace: seq<nat>)

  // ---------- the commands ----------

  function SetBp<D>(s: State<D>, a: nat): State<D> {
    s.(mem := EnableMem(s.mem, a), bps := s.bps[a := Saved(true, Peek(s.mem, a))])
  }

  function RemoveBp<D>(s: State<D>, a: nat): Result<State<D>> {
    if a !in s.bps then Err(OutOfRange)
    else
      var b := s.bps[a];
      Ok(s.(mem := if b.enabled then Poke(s.mem, a, b.staging) else s.mem, bps := s.bps - {a}))
  }

  /** One instruction, and the signal that stops the tracee after it. */
  function Execute<D>(cpu: Cpu<D>, s: State<D>): (r: (State<D>, Signal))
    ensures r.1.TrapBreakpoint? ==> r.0.pc > 0
    ensures r.0.mem == s.mem && r.0.bps == s.bps
  {
    if s.pc >= |s.mem| then (s, Segv)
    else if s.mem[s.pc] == TRAP then (s.(pc := s.pc + 1), TrapBreakpoint)
    else
      var (pc, data) := cpu.exec(s.mem, s.pc, s.data);
      (s.(pc := pc, data := data, trace := s.trace + [s.pc]), TrapTrace)
  }

  function Handle<D>(r: (State<D>, Signal)): State<D>
    requires r.1.TrapBreakpoint? ==> r.0.pc > 0
  {
    if r.1.TrapBreakpoint? then r.0.(pc := r.0.pc - 1) else r.0
  }

  function SingleStep<D>(cpu: Cpu<D>, s: State<D>): State<D> { Handle(Execute(cpu, s)) }

  /** After a hit the debugger looks up the line to show; that throws when there is none. */
  predicate NoLineAt<D>(cpu: Cpu<D>, pc: nat) { !cpu.entry(pc - cpu.load) }

  /** A single step that hits a trap, and no line there: the exception cuts the command short. */
  predicate StepThrows<D>(cpu: Cpu<D>, s: State<D>) {
    Execute(cpu, s).1.TrapBreakpoint? && NoLineAt(cpu, SingleStep(cpu, s).pc)
  }

  /** With the breakpoint under the pc lifted. */
  function Lifted<D>(s: State<D>): State<D>
    requires s.pc in s.bps
  {
    var b := s.bps[s.pc];
    s.(mem := Poke(s.mem, s.pc, b.staging), bps := s.bps[s.pc := b.(enabled := false)])
  }

  predicate StepOverThrows<D>(cpu: Cpu<D>, s: State<D>) {
    s.pc in s.bps && s.bps[s.pc].enabled && StepThrows(cpu, Lifted(s))
  }

  function StepOverBp<D>(cpu: Cpu<D>, s: State<D>): State<D> {
    var at := s.pc;
    if at in s.bps && s.bps[at].enabled then
      var s1 := SingleStep(cpu, Lifted(s));
      if StepThrows(cpu, Lifted(s)) then s1
      else s1.(mem := EnableMem(s1.mem, at), bps := s1.bps[at := Saved(true, Peek(s1.mem, at))])
    else s
  }

  function CheckedStep<D>(cpu: Cpu<D>, s: State<D>): State<D> {
    if s.pc in s.bps then StepOverBp(cpu, s) else SingleStep(cpu, s)
  }

  predicate CheckedStepThrows<D>(cpu: Cpu<D>, s: State<D>) {
    if s.pc in s.bps then StepOverThrows(cpu, s) else StepThrows(cpu, s)
  }

  /** The tracee runs freely; `fuel` bounds how many instructions it retires before a signal. The
      flag is false when it is still running then. */
  function Cont<D>(cpu: Cpu<D>, s: State<D>, fuel: nat): (State<D>, bool)
    decreases fuel
  {
    if fuel == 0 then (s, false)
    else
      var r := Execute(cpu, s);
      if r.1.TrapTrace? then Cont(cpu, r.0, fuel - 1) else (Handle(r), true)
  }

  function Continue<D>(cpu: Cpu<D>, s: State<D>, fuel: nat): (State<D>, bool) {
    if StepOverThrows(cpu, s) then (StepOverBp(cpu, s), true) else Cont(cpu, StepOverBp(cpu, s), fuel)
  }

  /** A tracee stopped inside the code stands on a trap; the command throws if there is no line there. */
  predicate Lost<D>(cpu: Cpu<D>, t: State<D>) { t.pc < |t.mem| && NoLineAt(cpu, t.pc) }

  /** The addresses of the list that are neither mapped nor listed before. */
  function Fresh(keys: set<nat>, addrs: seq<nat>): (r: seq<nat>)
    ensures Distinct(r) && forall a :: a in r <==> a in addrs && a !in keys
  {
    if addrs == [] then []
    else
      var n := |addrs| - 1;
      var p := Fresh(keys, addrs[..n]);
      assert addrs == addrs[..n] + [addrs[n]];
      if addrs[n] in keys || addrs[n] in p then p else p + [addrs[n]]
  }

  predicate Distinct(s: seq<nat>) { forall i, j :: 0 <= i < j < |s| ==> s[i] != s[j] }

  function Without(addrs: seq<nat>, start: nat): seq<nat> {
    if addrs == [] then []
    else
      var n := |addrs| - 1;
      if addrs[n] == start then Without(addrs[..n], start) else Without(addrs[..n], start) + [addrs[n]]
  }

  lemma WithoutSnoc(addrs: seq<nat>, a: nat, start: nat)
    ensures Without(addrs + [a], start) == if a == start then Without(addrs, start) else Without(addrs, start) + [a]
  {
    assert (addrs + [a])[..|addrs|] == addrs;
  }

  lemma FreshSnoc(keys: set<nat>, addrs: seq<nat>, a: nat)
    ensures var p := Fresh(keys, addrs);
      Fresh(keys, addrs + [a]) == if a in keys || a in p then p else p + [a]
  {
    assert (addrs + [a])[..|addrs|] == addrs;
  }

  function Elems(s: seq<nat>): set<nat> { set x | x in s }

  function SetAll<D>(s: State<D>, batch: seq<nat>): (r: State<D>)
    ensures r.bps.Keys == s.bps.Keys + Elems(batch)
  {
    if batch == [] then s
    else
      var n := |batch| - 1;
      assert batch == batch[..n] + [batch[n]];
      SetBp(SetAll(s, batch[..n]), batch[n])
  }

  /** Removing the first `k` addresses of the batch, in order. */
  function RemoveUpTo<D>(s: State<D>, batch: seq<nat>, k: nat): Result<State<D>>
    requires k <= |batch|
  {
    if k == 0 then Ok(s)
    else
      var t :- RemoveUpTo(s, batch, k - 1);
      RemoveBp(t, batch[k - 1])
  }

  /** How a command ends. `NoLine` is the exception of the line look-up, which leaves everything as it is. */
  datatype Outcome<D> =
    | Stopped(s: State<D>)
    | StillRunning(s: State<D>)
    | NoLine(s: State<D>)
    | Threw(error: Error)

  /** Plant the fresh addresses, continue, remove what was planted: `step_over` and `step_out`. */
  function Temporary<D>(cpu: Cpu<D>, s: State<D>, addrs: seq<nat>, fuel: nat): Outcome<D> {
    var batch := Fresh(s.bps.Keys, addrs);
    var (t, stopped) := Continue(cpu, SetAll(s, batch), fuel);
    if !stopped then StillRunning(t)
    else if Lost(cpu, t) then NoLine(t)
    else
      match RemoveUpTo(t, batch, |batch|)
      case Ok(u) => Stopped(u)
      case Err(e) => Threw(e)
  }

  function StepOut<D>(cpu: Cpu<D>, s: State<D>, fuel: nat): Outcome<D> {
    Temporary(cpu, s, [cpu.ret(s.data)], fuel)
  }

  /** `lines` are the load addresses of the function's line rows, `start` the current row's. */
  function StepOver<D>(cpu: Cpu<D>, s: State<D>, lines: seq<nat>, start: nat, fuel: nat): Outcome<D> {
    Temporary(cpu, s, Without(lines, start) + [cpu.ret(s.data)], fuel)
  }

  // ---------- the undebugged program ----------

  datatype Program<!D> = Program(cpu: Cpu<D>, code: Memory, starts: set<nat>, pc0: nat, data0: D)

  datatype Run<D> = Run(trace: seq<nat>, pc: nat, data: D)

  /** The first `n` instructions of the program running alone. */
  function Native<D>(p: Program<D>, n: nat): Run<D> {
    if n == 0 then Run([], p.pc0, p.data0)
    else
      var r := Native(p, n - 1);
      if r.pc >= |p.code| then r
      else
        var (pc, data) := p.cpu.exec(p.code, r.pc, r.data);
        Run(r.trace + [r.pc], pc, data)
  }

  ghost predicate SameWindow(m1: Memory, m2: Memory, pc: nat, n: nat) {
    |m1| == |m2| && pc + n <= |m1| && m1[pc..pc + n] == m2[pc..pc + n]
  }

  /** An instruction's length and effect depend on its own bytes only. */
  ghost predicate Local<D(!new)>(cpu: Cpu<D>) {
    forall m1: Memory, m2: Memory, pc: nat, d: D :: SameWindow(m1, m2, pc, cpu.len(m1, pc)) ==>
      cpu.exec(m1, pc, d) == cpu.exec(m2, pc, d)
  }

  /** From instruction starts control only reaches instruction starts (or leaves the code), no
      instruction spans another's start, and none is a native trap. */
  ghost predicate WellFormed<D(!new)>(p: Program<D>) {
    && Local(p.cpu)
    && (p.pc0 in p.starts || p.pc0 >= |p.code|)
    && (forall a :: a in p.starts ==>
        && a + p.cpu.len(p.code, a) <= |p.code| && a < |p.code| && p.code[a] != TRAP
        && (forall b :: b in p.starts ==> !(a < b < a + p.cpu.len(p.code, a)))
        && (forall d: D :: var pc := p.cpu.exec(p.code, a, d).0; pc in p.starts || pc >= |p.code|))
  }

  // ---------- the invariant ----------

  /** The code with a trap at every address of the set. */
  function Overlay(code: Memory, traps: set<nat>): (m: Memory)
    ensures |m| == |code|
    ensures forall i :: 0 <= i < |code| ==> m[i] == if i in traps then TRAP else code[i]
  {
    seq(|code|, i requires 0 <= i < |code| => if i in traps then TRAP else code[i])
  }

  /** Memory is the code plus exactly the mapped traps; the tracee is where it would be undebugged. */
  ghost predicate Transparent<D>(p: Program<D>, s: State<D>) {
    && s.mem == Overlay(p.code, s.bps.Keys)
    && (forall a :: a in s.bps ==> a in p.starts && InRange(p.code, a) && s.bps[a].enabled)
    && (s.pc in p.starts || s.pc >= |p.code|)
    && Native(p, |s.trace|) == Run(s.trace, s.pc, s.data)
  }

  /** The saved word of `a` is memory as it would be with only the trap at `a` taken away. */
  ghost predicate SavedRight<D>(p: Program<D>, s: State<D>, a: nat)
    requires a in s.bps
  {
    s.bps[a].staging == Peek(Overlay(p.code, s.bps.Keys - {a}), a)
  }

  ghost predicate Inv<D>(p: Program<D>, s: State<D>) {
    Transparent(p, s) && forall a :: a in s.bps ==> SavedRight(p, s, a)
  }

  // ---------- one breakpoint toggle ----------

  lemma TakeAway(code: Memory, traps: set<nat>, a: nat)
    requires InRange(code, a)
    ensures Poke(Overlay(code, traps), a, Peek(Overlay(code, traps - {a}), a)) == Overlay(code, traps - {a})
  {
    var m, m0 := Overlay(code, traps), Overlay(code, traps - {a});
    PokeOfPeek(m, m0, a);
    assert m[..a] == m0[..a];
    assert m[a + 8..] == m0[a + 8..];
    assert m0 == m0[..a] + m0[a..a + 8] + m0[a + 8..];
  }

  lemma PutBack(code: Memory, traps: set<nat>, a: nat)
    requires InRange(code, a)
    ensures EnableMem(Overlay(code, traps), a) == Overlay(code, traps + {a})
  {
    EnablePatchesOneByte(Overlay(code, traps), a);
    assert Overlay(code, traps)[a := TRAP] == Overlay(code, traps + {a});
  }

  lemma TrapFree<D(!new)>(p: Program<D>, a: nat)
    requires WellFormed(p) && a in p.starts
    ensures a < |p.code| && p.code[a] != TRAP
  {
  }

  lemma NativeNext<D>(p: Program<D>, s: State<D>)
    requires s.pc < |p.code| && Native(p, |s.trace|) == Run(s.trace, s.pc, s.data)
    ensures var (pc, data) := p.cpu.exec(p.code, s.pc, s.data);
      Native(p, |s.trace + [s.pc]|) == Run(s.trace + [s.pc], pc, data)
  {
    assert |s.trace + [s.pc]| - 1 == |s.trace|;
  }

  /** Where no trap is in the way, the patched memory executes like the original code. */
  lemma ExecuteIsNative<D(!new)>(p: Program<D>, s: State<D>)
    requires WellFormed(p) && s.mem == Overlay(p.code, s.bps.Keys) && s.bps.Keys <= p.starts
    requires s.pc in p.starts && s.pc !in s.bps
    requires Native(p, |s.trace|) == Run(s.trace, s.pc, s.data)
    ensures var r := Execute(p.cpu, s);
      && r.1 == TrapTrace && r.0.trace == s.trace + [s.pc]
      && (r.0.pc in p.starts || r.0.pc >= |p.code|)
      && Native(p, |r.0.trace|) == Run(r.0.trace, r.0.pc, r.0.data)
  {
    hide Native;
    var n := p.cpu.len(p.code, s.pc);
    assert p.code[s.pc..s.pc + n] == s.mem[s.pc..s.pc + n];
    assert SameWindow(p.code, s.mem, s.pc, n);
    assert p.cpu.exec(p.code, s.pc, s.data) == p.cpu.exec(s.mem, s.pc, s.data);
    NativeNext(p, s);
  }

  /** Stepping over a breakpoint whose saved word is right leaves memory and map as they were. */
  lemma StepOverBpKeeps<D(!new)>(p: Program<D>, s: State<D>)
    requires WellFormed(p) && Transparent(p, s)
    requires s.pc in s.bps ==> SavedRight(p, s, s.pc)
    ensures var r := StepOverBp(p.cpu, s);
      && Transparent(p, r) && r.mem == s.mem && r.bps == s.bps
      && r.trace == if s.pc in s.bps then s.trace + [s.pc] else s.trace
  {
    hide Native, WellFormed, Overlay, Peek, Poke, EnableMem;
    if s.pc in s.bps {
      var at := s.pc;
      var keys := s.bps.Keys;
      TakeAway(p.code, keys, at);
      var b := s.bps[at];
      var s0 := s.(mem := Poke(s.mem, at, b.staging), bps := s.bps[at := b.(enabled := false)]);
      var bare := s0.(bps := s.bps - {at});
      assert bare.bps.Keys == keys - {at};
      ExecuteIsNative(p, bare);
      PutBack(p.code, keys - {at}, at);
      assert keys - {at} + {at} == keys;
      assert StepOverBp(p.cpu, s).bps == s.bps;
    }
  }

  lemma SingleStepKeeps<D(!new)>(p: Program<D>, s: State<D>)
    requires WellFormed(p) && Transparent(p, s) && s.pc !in s.bps
    ensures var r := SingleStep(p.cpu, s); Transparent(p, r) && r.mem == s.mem && r.bps == s.bps
  {
    if s.pc in p.starts { ExecuteIsNative(p, s); }
  }

  /** Running freely: the tracee stops at the first mapped address it reaches, and at no other. */
  lemma {:induction false} ContKeeps<D(!new)>(p: Program<D>, s: State<D>, fuel: nat)
    requires WellFormed(p) && Transparent(p, s)
    ensures var (r, stopped) := Cont(p.cpu, s, fuel);
      && Transparent(p, r) && r.mem == s.mem && r.bps == s.bps
      && s.trace <= r.trace
      && (forall i :: |s.trace| <= i < |r.trace| ==> r.trace[i] !in s.bps)
      && (stopped ==> r.pc in s.bps || r.pc >= |p.code|)
    decreases fuel
  {
    hide Native, WellFormed;
    if fuel > 0 {
      if s.pc in p.starts { TrapFree(p, s.pc); }
      if s.pc in p.starts && s.pc !in s.bps {
        ExecuteIsNative(p, s);
        ContKeeps(p, Execute(p.cpu, s).0, fuel - 1);
      }
    }
  }

  /** `continue`: one step off the breakpoint it stands on, then on to the next one reached. */
  lemma ContinueKeeps<D(!new)>(p: Program<D>, s: State<D>, fuel: nat)
    requires WellFormed(p) && Transparent(p, s)
    requires s.pc in s.bps ==> SavedRight(p, s, s.pc)
    ensures var (r, stopped) := Continue(p.cpu, s, fuel);
      && Transparent(p, r) && r.mem == s.mem && r.bps == s.bps
      && s.trace <= r.trace
      && (forall i :: |s.trace| <= i < |r.trace| && r.trace[i] in s.bps ==> i == |s.trace| && r.trace[i] == s.pc)
      && (stopped ==> r.pc in s.bps || r.pc >= |p.code|)
  {
    StepOverBpKeeps(p, s);
    ContKeeps(p, StepOverBp(p.cpu, s), fuel);
  }

  // ---------- when setting and removing are safe ----------

  /** No mapped breakpoint has `a` among the seven bytes its saved word covers besides its own. */
  predicate Uncovered<D>(s: State<D>, a: nat) { forall m :: m in s.bps ==> !(m < a < m + 8) }

  lemma PeekDiffers(m1: Memory, m2: Memory, a: nat, x: nat)
    requires |m1| == |m2| && InRange(m1, a) && a <= x < a + 8 && m1[x] != m2[x]
    ensures Peek(m1, a) != Peek(m2, a)
  {
    BytesOfValue(m1[a..a + 8]);
    BytesOfValue(m2[a..a + 8]);
    assert m1[x] == m1[a..a + 8][x - a] && m2[x] == m2[a..a + 8][x - a];
  }

  lemma PeekAgrees(m1: Memory, m2: Memory, a: nat)
    requires |m1| == |m2|
    requires forall x :: a <= x < a + 8 && x < |m1| ==> m1[x] == m2[x]
    ensures Peek(m1, a) == Peek(m2, a)
  {
    if InRange(m1, a) { assert m1[a..a + 8] == m2[a..a + 8]; }
  }

  /** A change of the mapped set at `a` spoils the saved word of `m` exactly when m's window has it. */
  lemma SavedWordStale(code: Memory, traps: set<nat>, a: nat, m: nat)
    requires InRange(code, a) && InRange(code, m) && a != m && a !in traps && code[a] != TRAP
    ensures Peek(Overlay(code, traps - {m}), m) == Peek(Overlay(code, traps + {a} - {m}), m)
            <==> !(m < a < m + 8)
  {
    var m1, m2 := Overlay(code, traps - {m}), Overlay(code, traps + {a} - {m});
    if m < a < m + 8 {
      PeekDiffers(m1, m2, m, a);
    } else {
      PeekAgrees(m1, m2, m);
    }
  }

  /** Memory stays the overlay whenever one more instruction start is mapped. */
  lemma SetKeepsTransparent<D(!new)>(p: Program<D>, s: State<D>, a: nat)
    requires Transparent(p, s) && a in p.starts && InRange(p.code, a)
    ensures Transparent(p, SetBp(s, a)) && SetBp(s, a).bps.Keys == s.bps.Keys + {a}
  {
    hide Native, Overlay, Peek, EnableMem;
    PutBack(p.code, s.bps.Keys, a);
    assert SetBp(s, a).bps.Keys == s.bps.Keys + {a};
  }

  /** Setting a breakpoint keeps the invariant exactly when it is new and in nobody's window. */
  lemma SetIsSafeExactlyWhen<D(!new)>(p: Program<D>, s: State<D>, a: nat)
    requires WellFormed(p) && Inv(p, s) && a in p.starts && InRange(p.code, a)
    ensures Inv(p, SetBp(s, a)) <==> a !in s.bps && Uncovered(s, a)
  {
    TrapFree(p, a);
    SetKeepsTransparent(p, s, a);
    var t := SetBp(s, a);
    var keys := s.bps.Keys;
    assert s.mem == Overlay(p.code, keys);
    hide Transparent, WellFormed, Overlay, Peek;
    if a in s.bps {
      PeekDiffers(s.mem, Overlay(p.code, t.bps.Keys - {a}), a, a);
      assert !SavedRight(p, t, a);
    } else {
      assert t.bps.Keys - {a} == keys;
      assert SavedRight(p, t, a);
      forall m | m in s.bps ensures SavedRight(p, t, m) <==> !(m < a < m + 8) {
        StillSavedRight(p, s, t, a, m);
      }
    }
  }

  /** Mapping or unmapping `a` leaves the saved word of `m` right exactly outside m's window. */
  lemma StillSavedRight<D(!new)>(p: Program<D>, s: State<D>, t: State<D>, a: nat, m: nat)
    requires Transparent(p, s) && m in s.bps && m in t.bps && s.bps[m] == t.bps[m] && SavedRight(p, s, m)
    requires InRange(p.code, a) && a != m && a < |p.code| && p.code[a] != TRAP
    requires (a !in s.bps && t.bps.Keys == s.bps.Keys + {a}) || (a in s.bps && t.bps.Keys == s.bps.Keys - {a})
    ensures SavedRight(p, t, m) <==> !(m < a < m + 8)
  {
    if a in s.bps {
      assert t.bps.Keys + {a} == s.bps.Keys;
      SavedWordStale(p.code, t.bps.Keys, a, m);
    } else {
      SavedWordStale(p.code, s.bps.Keys, a, m);
    }
  }

  lemma RemoveKeepsTransparent<D(!new)>(p: Program<D>, s: State<D>, a: nat)
    requires Transparent(p, s) && a in s.bps && SavedRight(p, s, a)
    ensures var r := RemoveBp(s, a);
      r.Ok? && Transparent(p, r.value) && r.value.bps == s.bps - {a}
  {
    hide Native, Overlay, Peek, Poke;
    TakeAway(p.code, s.bps.Keys, a);
    assert RemoveBp(s, a).value.bps.Keys == s.bps.Keys - {a};
  }

  /** Removing one always takes its own trap away; the others' saved words stay right exactly when
      nobody's window has it. */
  lemma RemoveIsSafeExactlyWhen<D(!new)>(p: Program<D>, s: State<D>, a: nat)
    requires WellFormed(p) && Inv(p, s) && a in s.bps
    ensures RemoveBp(s, a).Ok? && Transparent(p, RemoveBp(s, a).value)
    ensures Inv(p, RemoveBp(s, a).value) <==> Uncovered(s, a)
  {
    TrapFree(p, a);
    RemoveKeepsTransparent(p, s, a);
    var t := RemoveBp(s, a).value;
    forall m | m in t.bps ensures SavedRight(p, t, m) <==> !(m < a < m + 8) {
      StillSavedRight(p, s, t, a, m);
    }
  }

  /** Toggling writes the saved word's byte over whatever stands at a covered address. */
  lemma ToggleWrites(mem: Memory, bare: Memory, m: nat, a: nat)
    requires |mem| == |bare| && InRange(mem, m) && m < a < m + 8
    ensures var mem0 := Poke(mem, m, Peek(bare, m));
      |mem0| == |mem| && |EnableMem(mem0, m)| == |mem| && mem0[a] == bare[a] == EnableMem(mem0, m)[a]
  {
    hide Peek, Poke;
    PokeOfPeek(mem, bare, m);
    var mem0 := Poke(mem, m, Peek(bare, m));
    assert mem0[a] == bare[m..m + 8][a - m];
    EnablePatchesOneByte(mem0, m);
  }

  /** Lifting a breakpoint whose saved byte is no trap uncovers an instruction. */
  lemma LiftedSteps<D>(cpu: Cpu<D>, s: State<D>, bare: Memory)
    requires s.pc in s.bps && InRange(s.mem, s.pc) && |bare| == |s.mem| && bare[s.pc] != TRAP
    requires s.bps[s.pc].staging == Peek(bare, s.pc)
    ensures !StepOverThrows(cpu, s)
  {
    hide Peek, Poke;
    PokeOfPeek(s.mem, bare, s.pc);
    assert Lifted(s).mem[s.pc] == bare[s.pc..s.pc + 8][0];
  }

  lemma StepOverBpMem<D>(cpu: Cpu<D>, s: State<D>)
    requires s.pc in s.bps && s.bps[s.pc].enabled && !StepOverThrows(cpu, s)
    ensures var r := StepOverBp(cpu, s);
      && r.mem == EnableMem(Poke(s.mem, s.pc, s.bps[s.pc].staging), s.pc)
      && r.bps.Keys == s.bps.Keys
      && forall a :: a in s.bps ==> r.bps[a].enabled == s.bps[a].enabled
  {
    hide Peek, Poke, EnableMem;
  }

  /** What goes wrong inside a window: stepping off `m` silently erases the trap at `a`. */
  lemma CoveredTrapIsLost<D(!new)>(p: Program<D>, s: State<D>, m: nat, a: nat)
    requires WellFormed(p) && Inv(p, s) && s.pc == m && m in s.bps
    requires a in p.starts && InRange(p.code, a) && a !in s.bps && m < a < m + 8
    ensures var t := StepOverBp(p.cpu, SetBp(s, a));
      && |t.mem| == |p.code| && a in t.bps && t.bps[a].enabled
      && t.mem[a] == p.code[a] != TRAP
  {
    TrapFree(p, a);
    assert SavedRight(p, s, m);
    TrapFree(p, m);
    hide Native, WellFormed, Overlay, Peek, Poke, EnableMem;
    PutBack(p.code, s.bps.Keys, a);
    LiftedSteps(p.cpu, SetBp(s, a), Overlay(p.code, s.bps.Keys - {m}));
    StepOverBpMem(p.cpu, SetBp(s, a));
    hide StepOverBp;
    ToggleWrites(SetBp(s, a).mem, Overlay(p.code, s.bps.Keys - {m}), m, a);
  }

  /** The same for removing: stepping off `m` later plants the removed trap at `a` again, unmapped. */
  lemma RemovedTrapComesBack<D(!new)>(p: Program<D>, s: State<D>, m: nat, a: nat)
    requires WellFormed(p) && Inv(p, s) && s.pc == m && m in s.bps && a in s.bps && m < a < m + 8
    ensures RemoveBp(s, a).Ok? && RemoveBp(s, a).value.mem == Overlay(p.code, s.bps.Keys - {a})
    ensures var t := StepOverBp(p.cpu, RemoveBp(s, a).value);
      && |t.mem| == |p.code| && a !in t.bps && t.mem[a] == TRAP != p.code[a]
  {
    TrapFree(p, a);
    assert SavedRight(p, s, m) && SavedRight(p, s, a);
    TrapFree(p, m);
    hide Native, WellFormed, Overlay, Peek, Poke, EnableMem;
    RemoveKeepsTransparent(p, s, a);
    var r := RemoveBp(s, a).value;
    assert r.bps.Keys == s.bps.Keys - {a};
    LiftedSteps(p.cpu, r, Overlay(p.code, s.bps.Keys - {m}));
    StepOverBpMem(p.cpu, r);
    hide StepOverBp;
    ToggleWrites(r.mem, Overlay(p.code, s.bps.Keys - {m}), m, a);
  }

  /** Setting a mapped breakpoint again saves the trap itself: removing it leaves the trap behind. */
  lemma SetTwiceLeavesTrap<D(!new)>(p: Program<D>, s: State<D>, a: nat)
    requires WellFormed(p) && Inv(p, s) && a in s.bps
    ensures var t := RemoveBp(SetBp(s, a), a);
      t.Ok? && a !in t.value.bps && t.value.mem[a] == TRAP != p.code[a]
  {
    var m := s.mem;
    EnablePatchesOneByte(m, a);
    PokeOfPeek(m[a := TRAP], m, a);
    assert m[a..a + 8][0] == TRAP;
  }
}
