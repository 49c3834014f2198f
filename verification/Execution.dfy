/** What no planting order and no overlap of breakpoints can spoil: the instructions the tracee retires. */
module Execution {
  import opened Words
  import opened Sections
  import opened Breakpoints
  import opened Stepping
  import opened Transparency

  /** The code, but for traps at some instruction starts, whether mapped or not. */
  ghost predicate Patched<D>(p: Program<D>, m: Memory) {
    |m| == |p.code| && forall i :: 0 <= i < |m| ==> m[i] == p.code[i] || (m[i] == TRAP && i in p.starts)
  }

  /** A word saved from such a memory, at whatever time. */
  ghost predicate Kept<D>(p: Program<D>, a: nat, w: word) { exists m: Memory :: Patched(p, m) && w == Peek(m, a) }

  /** The tracee is where it would be undebugged; of memory and map no more is said. */
  ghost predicate Loose<D>(p: Program<D>, s: State<D>) {
    && Patched(p, s.mem)
    && (forall a :: a in s.bps ==> a in p.starts && InRange(p.code, a) && Kept(p, a, s.bps[a].staging))
    && (s.pc in p.starts || s.pc >= |p.code|)
    && Native(p, |s.trace|) == Run(s.trace, s.pc, s.data)
  }

  lemma PokeKeeps<D>(p: Program<D>, m: Memory, a: nat, w: word)
    requires Patched(p, m) && InRange(p.code, a) && Kept(p, a, w)
    ensures Patched(p, Poke(m, a, w))
  {
    hide Peek, Poke;
    var m0: Memory :| Patched(p, m0) && w == Peek(m0, a);
    PokeOfPeek(m, m0, a);
    var r := m[..a] + m0[a..a + 8] + m[a + 8..];
    forall i | 0 <= i < |r| ensures r[i] == p.code[i] || (r[i] == TRAP && i in p.starts) {
      assert r[i] == if a <= i < a + 8 then m0[i] else m[i];
    }
  }

  lemma EnableKeeps<D>(p: Program<D>, m: Memory, a: nat)
    requires Patched(p, m) && a in p.starts
    ensures Patched(p, EnableMem(m, a)) && Kept(p, a, Peek(m, a))
  {
    hide Peek, EnableMem;
    EnablePatchesOneByte(m, a);
  }

  /** Off a trap, patched memory executes like the code: no instruction spans another's start. */
  lemma PatchedExecutes<D(!new)>(p: Program<D>, s: State<D>)
    requires WellFormed(p) && Patched(p, s.mem) && s.pc in p.starts && s.mem[s.pc] != TRAP
    requires Native(p, |s.trace|) == Run(s.trace, s.pc, s.data)
    ensures var (t, signal) := Execute(p.cpu, s);
      && signal == TrapTrace && (t.pc in p.starts || t.pc >= |p.code|)
      && Native(p, |t.trace|) == Run(t.trace, t.pc, t.data)
  {
    hide Native;
    var n := p.cpu.len(p.code, s.pc);
    assert p.code[s.pc..s.pc + n] == s.mem[s.pc..s.pc + n];
    assert SameWindow(p.code, s.mem, s.pc, n);
    assert p.cpu.exec(p.code, s.pc, s.data) == p.cpu.exec(s.mem, s.pc, s.data);
    NativeNext(p, s);
  }

  lemma StepIsLoose<D(!new)>(p: Program<D>, s: State<D>)
    requires WellFormed(p) && Loose(p, s)
    ensures Loose(p, SingleStep(p.cpu, s)) && s.trace <= SingleStep(p.cpu, s).trace
    ensures Execute(p.cpu, s).1.TrapTrace? ==> SingleStep(p.cpu, s) == Execute(p.cpu, s).0
  {
    hide Native, Kept, Patched;
    PatchedSize(p, s.mem);
    if s.pc in p.starts && s.mem[s.pc] != TRAP { PatchedExecutes(p, s); }
  }

  lemma PatchedSize<D>(p: Program<D>, m: Memory)
    requires Patched(p, m)
    ensures |m| == |p.code|
  {}

  lemma {:induction false} ContIsLoose<D(!new)>(p: Program<D>, s: State<D>, fuel: nat)
    requires WellFormed(p) && Loose(p, s)
    ensures Loose(p, Cont(p.cpu, s, fuel).0) && s.trace <= Cont(p.cpu, s, fuel).0.trace
    ensures Cont(p.cpu, s, fuel).0.bps == s.bps
    decreases fuel
  {
    hide Loose, WellFormed;
    if fuel > 0 {
      StepIsLoose(p, s);
      if Execute(p.cpu, s).1.TrapTrace? { ContIsLoose(p, Execute(p.cpu, s).0, fuel - 1); }
    }
  }

  lemma LiftedIsLoose<D(!new)>(p: Program<D>, s: State<D>)
    requires Loose(p, s) && s.pc in s.bps
    ensures Loose(p, Lifted(s)) && Lifted(s).bps.Keys == s.bps.Keys
  {
    hide Native, Kept, Patched, Poke;
    PokeKeeps(p, s.mem, s.pc, s.bps[s.pc].staging);
    assert Lifted(s).bps.Keys == s.bps.Keys;
  }

  lemma EnabledIsLoose<D(!new)>(p: Program<D>, s: State<D>, a: nat)
    requires Loose(p, s) && a in p.starts && InRange(p.code, a)
    ensures Loose(p, SetBp(s, a)) && SetBp(s, a).bps.Keys == s.bps.Keys + {a}
  {
    hide Native, Kept, Patched, Peek, EnableMem;
    EnableKeeps(p, s.mem, a);
    assert SetBp(s, a).bps.Keys == s.bps.Keys + {a};
  }

  lemma StepOverIsLoose<D(!new)>(p: Program<D>, s: State<D>)
    requires WellFormed(p) && Loose(p, s)
    ensures var t := StepOverBp(p.cpu, s); Loose(p, t) && s.trace <= t.trace && t.bps.Keys == s.bps.Keys
  {
    hide Native, Kept, Patched, Poke, Peek, EnableMem, WellFormed;
    if s.pc in s.bps && s.bps[s.pc].enabled {
      LiftedIsLoose(p, s);
      StepIsLoose(p, Lifted(s));
      var s1 := SingleStep(p.cpu, Lifted(s));
      EnabledIsLoose(p, s1, s.pc);
      assert s1.bps.Keys + {s.pc} == s.bps.Keys;
    }
  }

  lemma ContinueIsLoose<D(!new)>(p: Program<D>, s: State<D>, fuel: nat)
    requires WellFormed(p) && Loose(p, s)
    ensures var t := Continue(p.cpu, s, fuel).0; Loose(p, t) && s.trace <= t.trace && t.bps.Keys == s.bps.Keys
  {
    hide Loose, WellFormed, StepOverBp, StepOverThrows;
    StepOverIsLoose(p, s);
    ContIsLoose(p, StepOverBp(p.cpu, s), fuel);
  }

  lemma RemovedIsLoose<D(!new)>(p: Program<D>, s: State<D>, a: nat)
    requires Loose(p, s) && a in s.bps
    ensures var r := RemoveBp(s, a);
      r.Ok? && Loose(p, r.value) && r.value.trace == s.trace && r.value.bps.Keys == s.bps.Keys - {a}
  {
    hide Native, Kept, Patched, Poke;
    PokeKeeps(p, s.mem, a, s.bps[a].staging);
  }

  lemma {:induction false} AllSetIsLoose<D(!new)>(p: Program<D>, s: State<D>, batch: seq<nat>)
    requires Loose(p, s) && forall a :: a in batch ==> a in p.starts && InRange(p.code, a)
    ensures Loose(p, SetAll(s, batch)) && SetAll(s, batch).trace == s.trace
  {
    hide Loose;
    if batch != [] {
      var n := |batch| - 1;
      assert batch == batch[..n] + [batch[n]];
      AllSetIsLoose(p, s, batch[..n]);
      EnabledIsLoose(p, SetAll(s, batch[..n]), batch[n]);
    }
  }

  lemma {:induction false} AllRemovedIsLoose<D(!new)>(p: Program<D>, s: State<D>, batch: seq<nat>, k: nat)
    requires Loose(p, s) && k <= |batch| && Distinct(batch) && forall a :: a in batch ==> a in s.bps
    ensures var r := RemoveUpTo(s, batch, k);
      && r.Ok? && Loose(p, r.value) && r.value.trace == s.trace
      && (forall i :: k <= i < |batch| ==> batch[i] in r.value.bps)
    decreases k
  {
    hide Loose;
    if k > 0 {
      AllRemovedIsLoose(p, s, batch, k - 1);
      RemovedIsLoose(p, RemoveUpTo(s, batch, k - 1).value, batch[k - 1]);
    }
  }

  /** The only guard: breakpoints, temporary ones included, are set on instruction starts in range. */
  predicate OnStart<D>(p: Program<D>, a: nat) { a in p.starts && InRange(p.code, a) }

  predicate OnStarts<D>(p: Program<D>, s: State<D>, c: Command) {
    match c
    case Break(a) => OnStart(p, a)
    case Finish(_) => forall a :: a in Fresh(s.bps.Keys, [p.cpu.ret(s.data)]) ==> OnStart(p, a)
    case Next(lines, start, _) =>
      forall a :: a in Fresh(s.bps.Keys, Without(lines, start) + [p.cpu.ret(s.data)]) ==> OnStart(p, a)
    case _ => true
  }

  predicate AllOnStarts<D>(p: Program<D>, s: State<D>, cs: seq<Command>)
    decreases |cs|
  {
    cs == [] || (
      && OnStarts(p, s, cs[0])
      && match Apply(p.cpu, s, cs[0])
         case Stopped(t) => AllOnStarts(p, t, cs[1..])
         case _ => true
    )
  }

  lemma TemporaryIsLoose<D(!new)>(p: Program<D>, s: State<D>, addrs: seq<nat>, fuel: nat)
    requires WellFormed(p) && Loose(p, s) && forall a :: a in Fresh(s.bps.Keys, addrs) ==> OnStart(p, a)
    ensures var r := Temporary(p.cpu, s, addrs, fuel); !r.Threw? && Loose(p, r.s) && s.trace <= r.s.trace
  {
    hide Loose, WellFormed, Continue, Fresh, SetAll, RemoveUpTo;
    var batch := Fresh(s.bps.Keys, addrs);
    AllSetIsLoose(p, s, batch);
    ContinueIsLoose(p, SetAll(s, batch), fuel);
    var (t, stopped) := Continue(p.cpu, SetAll(s, batch), fuel);
    forall a | a in batch ensures a in t.bps { assert a in t.bps.Keys; }
    AllRemovedIsLoose(p, t, batch, |batch|);
  }

  /** Only removing what is not there throws, beside the line look-up. */
  lemma CommandIsLoose<D(!new)>(p: Program<D>, s: State<D>, c: Command)
    requires WellFormed(p) && Loose(p, s) && OnStarts(p, s, c)
    ensures var r := Apply(p.cpu, s, c);
      if c.Remove? && c.addr !in s.bps then r == Threw(OutOfRange)
      else !r.Threw? && Loose(p, r.s) && s.trace <= r.s.trace
  {
    hide Loose, WellFormed, Continue, Temporary, StepOverBp, SingleStep, Fresh, Without;
    match c
    case Break(a) => EnabledIsLoose(p, s, a);
    case Remove(a) => if a in s.bps { RemovedIsLoose(p, s, a); }
    case StepInstruction =>
      StepOverIsLoose(p, s);
      StepIsLoose(p, s);
    case ContinueCmd(fuel) => ContinueIsLoose(p, s, fuel);
    case Finish(fuel) => TemporaryIsLoose(p, s, [p.cpu.ret(s.data)], fuel);
    case Next(lines, start, fuel) => TemporaryIsLoose(p, s, Without(lines, start) + [p.cpu.ret(s.data)], fuel);
  }

  lemma {:induction false} SessionIsLoose<D(!new)>(p: Program<D>, s: State<D>, cs: seq<Command>)
    requires WellFormed(p) && Loose(p, s) && AllOnStarts(p, s, cs)
    ensures var r := Session(p.cpu, s, cs); if r.Threw? then r.error == OutOfRange else Loose(p, r.s)
    decreases |cs|
  {
    hide WellFormed, Loose, Apply, OnStarts;
    if cs != [] {
      CommandIsLoose(p, s, cs[0]);
      var r := Apply(p.cpu, s, cs[0]);
      if r.Stopped? { SessionIsLoose(p, r.s, cs[1..]); }
    }
  }

  /** Whatever breakpoints are set, removed and planted on instruction starts, in whatever order and however
      their words overlap: the instructions retired are a prefix of any long enough undebugged run, whose pc
      and data at that point the tracee has, and memory is the code but for traps at instruction starts. */
  lemma ExecutionIsNative<D(!new)>(p: Program<D>, cs: seq<Command>, n: nat)
    requires WellFormed(p) && AllOnStarts(p, Launch(p), cs)
    ensures var r := Session(p.cpu, Launch(p), cs);
      if r.Threw? then r.error == OutOfRange
      else
        && Native(p, |r.s.trace|) == Run(r.s.trace, r.s.pc, r.s.data)
        && (n >= |r.s.trace| ==> r.s.trace <= Native(p, n).trace)
        && Patched(p, r.s.mem)
  {
    hide WellFormed, Session, AllOnStarts;
    LaunchIsLoose(p);
    SessionIsLoose(p, Launch(p), cs);
    var r := Session(p.cpu, Launch(p), cs);
    if !r.Threw? && n >= |r.s.trace| { NativeGrows(p, |r.s.trace|, n); }
  }

  lemma LaunchIsLoose<D(!new)>(p: Program<D>)
    requires WellFormed(p)
    ensures Loose(p, Launch(p))
  {}
}
