/** What each command of the debugger makes of the tracee, in terms of its map, its pc and its code alone. */
module Commands {
  import opened Words
  import opened Sections
  import opened Breakpoints
  import opened Stepping
  import opened Transparency

  // ---------- commands that run the tracee ----------

  /** The traps in memory when `planted` joins the map: the step off a trap under the pc writes back the
      eight bytes saved there, and erases the planted ones among them. */
  function TrapsWith<D>(s: State<D>, planted: set<nat>): set<nat> {
    var mapped := s.bps.Keys;
    if s.pc in mapped + planted then mapped + (set a | a in planted && !(s.pc < a < s.pc + 8)) else mapped + planted
  }

  /** A run with `planted` added: it comes to a stop only at one of the traps or outside the code, and has
      retired no trapped instruction but the one it stood on. Stopped where there is a line, memory and map
      are as before; stopped where there is none, or still running after `fuel` more instructions, everything
      planted is still there. */
  ghost predicate RunsInto<D>(p: Program<D>, s: State<D>, planted: set<nat>, fuel: nat, out: Outcome<D>) {
    var traps := TrapsWith(s, planted);
    match out
    case Stopped(t) =>
      && StopsAt(p, s, t, traps, true) && (t.pc < |p.code| ==> p.cpu.entry(t.pc - p.cpu.load))
      && t.bps == s.bps && t.mem == s.mem
    case NoLine(t) =>
      && StopsAt(p, s, t, traps, true) && t.pc < |p.code| && !p.cpu.entry(t.pc - p.cpu.load)
      && t.bps.Keys == s.bps.Keys + planted && t.mem == Overlay(p.code, traps)
    case StillRunning(t) =>
      && StopsAt(p, s, t, traps, false) && |t.trace| >= |s.trace| + fuel
      && t.bps.Keys == s.bps.Keys + planted && t.mem == Overlay(p.code, traps)
    case Threw(_) => false
  }

  lemma {:induction false} ContRetires<D>(cpu: Cpu<D>, s: State<D>, fuel: nat)
    ensures var (r, stopped) := Cont(cpu, s, fuel); !stopped ==> |r.trace| == |s.trace| + fuel
    decreases fuel
  {
    if fuel > 0 && Execute(cpu, s).1.TrapTrace? { ContRetires(cpu, Execute(cpu, s).0, fuel - 1); }
  }

  lemma SetAllTrace<D>(s: State<D>, batch: seq<nat>)
    ensures SetAll(s, batch).trace == s.trace
  {
    if batch != [] { SetAllTrace(s, batch[..|batch| - 1]); }
  }

  lemma StepOffTrace<D>(cpu: Cpu<D>, s: State<D>)
    ensures |StepOverBp(cpu, s).trace| >= |s.trace|
  {
    hide Poke, EnableMem, Peek;
  }

  /** Running on for `fuel` instructions. */
  lemma ContinueRetires<D>(cpu: Cpu<D>, s: State<D>, batch: seq<nat>, fuel: nat)
    ensures var (r, stopped) := Continue(cpu, SetAll(s, batch), fuel);
      !stopped ==> |r.trace| >= |s.trace| + fuel
  {
    hide SetAll, Cont, StepOverBp;
    SetAllTrace(s, batch);
    StepOffTrace(cpu, SetAll(s, batch));
    ContRetires(cpu, StepOverBp(cpu, SetAll(s, batch)), fuel);
  }

  lemma TrapsAreLeft<D>(s: State<D>, addrs: seq<nat>)
    ensures TrapsLeft(s, Fresh(s.bps.Keys, addrs)) == TrapsWith(s, Elems(addrs))
    ensures s.bps.Keys + Elems(Fresh(s.bps.Keys, addrs)) == s.bps.Keys + Elems(addrs)
  {
    hide Fresh;
  }

  lemma PlantedRuns<D(!new)>(p: Program<D>, s: State<D>, addrs: seq<nat>, fuel: nat)
    requires WellFormed(p) && Inv(p, s) && TemporaryOk(p, s, addrs)
    ensures RunsInto(p, s, Elems(addrs), fuel, Temporary(p.cpu, s, addrs, fuel))
  {
    hide WellFormed, Overlay, Native, Fresh, SetAll, Continue, RemoveUpTo, TrapsLeft, TrapsWith, TemporaryOk, StopsAt;
    TemporaryKeeps(p, s, addrs, fuel);
    TrapsAreLeft(s, addrs);
    ContinueRetires(p.cpu, s, Fresh(s.bps.Keys, addrs), fuel);
    CodeLength(p, s);
  }

  lemma CodeLength<D>(p: Program<D>, s: State<D>)
    requires Inv(p, s)
    ensures |s.mem| == |p.code|
  {}

  /** `finish` runs into the map with the return address added. */
  lemma FinishRunsInto<D(!new)>(p: Program<D>, s: State<D>, fuel: nat)
    requires WellFormed(p) && Inv(p, s) && Allowed(p, s, Finish(fuel))
    ensures RunsInto(p, s, {p.cpu.ret(s.data)}, fuel, Apply(p.cpu, s, Finish(fuel)))
  {
    hide WellFormed, Inv, RunsInto, Temporary, TemporaryOk;
    PlantedRuns(p, s, [p.cpu.ret(s.data)], fuel);
    assert Elems([p.cpu.ret(s.data)]) == {p.cpu.ret(s.data)};
  }

  lemma {:induction false} WithoutIs(lines: seq<nat>, start: nat)
    ensures forall a :: a in Without(lines, start) <==> a in lines && a != start
  {
    if lines != [] {
      var n := |lines| - 1;
      WithoutIs(lines[..n], start);
      assert lines == lines[..n] + [lines[n]];
    }
  }

  /** `next` runs into the map with the return address added, and every line of the function but the current
      one. */
  lemma NextRunsInto<D(!new)>(p: Program<D>, s: State<D>, lines: seq<nat>, start: nat, fuel: nat)
    requires WellFormed(p) && Inv(p, s) && Allowed(p, s, Next(lines, start, fuel))
    ensures RunsInto(p, s, {p.cpu.ret(s.data)} + (set a | a in lines && a != start), fuel,
                     Apply(p.cpu, s, Next(lines, start, fuel)))
  {
    hide WellFormed, Inv, RunsInto, Temporary, TemporaryOk, Without;
    var ret := p.cpu.ret(s.data);
    WithoutIs(lines, start);
    PlantedRuns(p, s, Without(lines, start) + [ret], fuel);
    assert Elems(Without(lines, start) + [ret]) == {ret} + (set a | a in lines && a != start);
  }

  /** `continue` runs into the map as it is. */
  lemma ContinueRunsInto<D(!new)>(p: Program<D>, s: State<D>, fuel: nat)
    requires WellFormed(p) && Inv(p, s)
    ensures RunsInto(p, s, {}, fuel, Apply(p.cpu, s, ContinueCmd(fuel)))
  {
    hide WellFormed, Inv, RunsInto, Continue;
    PlantedRuns(p, s, [], fuel);
    assert Elems([]) == {};
    assert SetAll(s, []) == s;
  }

  // ---------- commands that do not ----------

  /** `stepi` retires the instruction at the pc, if there is one, and changes nothing else. */
  lemma StepRetiresOne<D(!new)>(p: Program<D>, s: State<D>)
    requires WellFormed(p) && Inv(p, s)
    ensures var out := Apply(p.cpu, s, StepInstruction);
      && (out.Stopped? || out.NoLine?) && (out.Stopped? <==> p.cpu.entry(out.s.pc))
      && out.s.mem == s.mem && out.s.bps == s.bps
      && out.s.trace == (if s.pc < |p.code| then s.trace + [s.pc] else s.trace)
      && Native(p, |out.s.trace|) == Run(out.s.trace, out.s.pc, out.s.data)
  {
    hide WellFormed, Overlay, Native, Peek, Poke, EnableMem;
    StartsAreInCode(p, s);
    if s.pc in s.bps {
      assert SavedRight(p, s, s.pc);
      StepOverBpKeeps(p, s);
      assert SetAll(s, []) == s;
      StepOff(p, s, []);
    } else if s.pc in p.starts {
      ExecuteIsNative(p, s);
    }
  }

  /** `break` puts the trap at one address and maps it; `remove` puts the code's byte back there and unmaps
      it, or throws when it is not mapped. Nothing else changes. */
  lemma BreakAndRemove<D(!new)>(p: Program<D>, s: State<D>, a: nat)
    requires WellFormed(p) && Inv(p, s) && a in p.starts && InRange(p.code, a)
    ensures var out := Apply(p.cpu, s, Break(a));
      && out.Stopped? && out.s == s.(mem := s.mem[a := TRAP], bps := out.s.bps)
      && out.s.bps.Keys == s.bps.Keys + {a} && out.s.bps[a].enabled
      && forall b :: b in s.bps && b != a ==> out.s.bps[b] == s.bps[b]
    ensures Apply(p.cpu, s, Remove(a)) ==
      if a in s.bps then Stopped(s.(mem := s.mem[a := p.code[a]], bps := s.bps - {a})) else Threw(OutOfRange)
  {
    hide WellFormed, Overlay, Native, Peek, Poke, EnableMem;
    EnablePatchesOneByte(s.mem, a);
    if a in s.bps {
      assert SavedRight(p, s, a);
      TakeAway(p.code, s.bps.Keys, a);
      OneTrapLess(p.code, s.bps.Keys, a);
    }
  }

  lemma OneTrapLess(code: Memory, traps: set<nat>, a: nat)
    requires a < |code|
    ensures Overlay(code, traps - {a}) == Overlay(code, traps)[a := code[a]]
  {
    assert forall i :: 0 <= i < |code| ==> Overlay(code, traps - {a})[i] == Overlay(code, traps)[a := code[a]][i];
  }

  lemma StartsAreInCode<D(!new)>(p: Program<D>, s: State<D>)
    requires WellFormed(p) && Inv(p, s)
    ensures s.pc in p.starts <==> s.pc < |p.code|
    ensures s.pc in s.bps ==> s.pc in p.starts
    ensures |s.mem| == |p.code|
  {}
}
