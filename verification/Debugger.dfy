/** The debugger object: it holds the breakpoints by address and drives the tracee. */
module DebuggerObject {
  import opened Words
  import opened Breakpoints
  import opened Stepping

  class Debugger<D> {
    const tracee: Tracee<D>
    var bps: map<nat, Breakpoint<D>>

    constructor (tracee: Tracee<D>)
      ensures Valid() && this.tracee == tracee && bps == map[]
    {
      this.tracee := tracee;
      bps := map[];
    }

    ghost predicate Valid()
      reads this
    {
      forall a :: a in bps ==> bps[a].addr == a && bps[a].tracee == tracee
    }

    /** The objects this debugger may change. */
    ghost function Repr(): set<object>
      reads this
    {
      {this, tracee} + bps.Values
    }

    /** Breakpoint objects not in the set have been allocated since. */
    twostate predicate NewSince(values: set<Breakpoint<D>>)
      reads this
    {
      forall o :: o in bps.Values ==> o in values || fresh(o)
    }

    function View(): State<D>
      reads this, tracee, bps.Values
    {
      State(tracee.mem, tracee.pc, tracee.data, map a | a in bps :: bps[a].Snapshot(), tracee.trace)
    }

    method SetBreakpointAtAddress(addr: nat)
      requires Valid()
      modifies this, tracee
      ensures Valid() && NewSince(old(bps.Values))
      ensures View() == SetBp(old(View()), addr)
    {
      hide Peek, EnableMem;
      var bp := new Breakpoint(tracee, addr);
      bp.Enable();
      assert forall a :: a in bps ==> bps[a].Snapshot() == old(bps[a].Snapshot());
      bps := bps[addr := bp];
      assert View().bps.Keys == SetBp(old(View()), addr).bps.Keys;
      assert View().bps == SetBp(old(View()), addr).bps;
    }

    method DisableMapped(addr: nat)
      requires Valid() && addr in bps
      modifies tracee, bps[addr]
      ensures var s := old(View());
        View() == s.(mem := Poke(s.mem, addr, s.bps[addr].staging),
                     bps := s.bps[addr := s.bps[addr].(enabled := false)])
    {
      ghost var s := View();
      bps[addr].Disable();
      assert View().bps == s.bps[addr := s.bps[addr].(enabled := false)];
    }

    method EnableMapped(addr: nat)
      requires Valid() && addr in bps
      modifies tracee, bps[addr]
      ensures var s := old(View());
        View() == s.(mem := EnableMem(s.mem, addr), bps := s.bps[addr := Saved(true, Peek(s.mem, addr))])
    {
      ghost var s := View();
      bps[addr].Enable();
      assert View().bps == s.bps[addr := Saved(true, Peek(s.mem, addr))];
    }

    method RemoveBreakpoint(addr: nat) returns (r: Result<()>)
      requires Valid()
      modifies Repr()
      ensures Valid() && bps.Values <= old(bps.Values)
      ensures match RemoveBp(old(View()), addr)
              case Ok(s) => r == Ok(()) && View() == s
              case Err(e) => r == Err(e) && View() == old(View())
    {
      if addr !in bps { return Err(OutOfRange); }
      if bps[addr].enabled {
        bps[addr].Disable();
      }
      bps := bps - {addr};
      assert View().bps == RemoveBp(old(View()), addr).value.bps;
      return Ok(());
    }

    /** PTRACE_SINGLESTEP: the tracee executes one instruction or is stopped by it. */
    method PtraceStep() returns (signal: Signal)
      requires Valid()
      modifies tracee
      ensures (View(), signal) == Execute(tracee.cpu, old(View()))
    {
      if tracee.pc >= |tracee.mem| {
        signal := Segv;
      } else if tracee.mem[tracee.pc] == TRAP {
        tracee.pc := tracee.pc + 1;
        signal := TrapBreakpoint;
      } else {
        tracee.trace := tracee.trace + [tracee.pc];
        var (pc, data) := tracee.cpu.exec(tracee.mem, tracee.pc, tracee.data);
        tracee.pc := pc;
        tracee.data := data;
        signal := TrapTrace;
      }
      assert View().bps == old(View()).bps;
    }

    /** After a hit the pc goes back onto the trap, and the line there is looked up to be shown. */
    method HandleSigtrap(signal: Signal) returns (r: Result<()>)
      requires Valid() && (signal.TrapBreakpoint? ==> tracee.pc > 0)
      modifies tracee
      ensures View() == Handle((old(View()), signal))
      ensures r == if signal.TrapBreakpoint? && NoLineAt(tracee.cpu, tracee.pc) then Err(OutOfRange) else Ok(())
    {
      r := Ok(());
      match signal
      case TrapBreakpoint =>
        tracee.pc := tracee.pc - 1;
        if !tracee.cpu.entry(tracee.pc - tracee.cpu.load) { r := Err(OutOfRange); }
      case TrapTrace =>
      case Segv =>
    }

    method SingleStepInstruction() returns (r: Result<()>)
      requires Valid()
      modifies tracee
      ensures View() == SingleStep(tracee.cpu, old(View()))
      ensures r == if StepThrows(tracee.cpu, old(View())) then Err(OutOfRange) else Ok(())
    {
      var signal := PtraceStep();
      r := HandleSigtrap(signal);
    }

    method StepOverBreakpoint() returns (r: Result<()>)
      requires Valid()
      modifies Repr()
      ensures Valid() && bps == old(bps)
      ensures View() == StepOverBp(tracee.cpu, old(View()))
      ensures r == if StepOverThrows(tracee.cpu, old(View())) then Err(OutOfRange) else Ok(())
    {
      hide Poke, Peek, EnableMem, StepThrows;
      if tracee.pc in bps {
        var at := tracee.pc;
        if bps[at].enabled {
          DisableMapped(at);
          r := SingleStepInstruction();
          if r.Err? { return; }
          EnableMapped(at);
        }
      }
      return Ok(());
    }

    method SingleStepInstructionWithBreakpointCheck() returns (r: Result<()>)
      requires Valid()
      modifies Repr()
      ensures Valid() && bps == old(bps)
      ensures View() == CheckedStep(tracee.cpu, old(View()))
      ensures r == if CheckedStepThrows(tracee.cpu, old(View())) then Err(OutOfRange) else Ok(())
    {
      if tracee.pc in bps {
        r := StepOverBreakpoint();
      } else {
        r := SingleStepInstruction();
      }
    }

    /** PTRACE_CONT and the wait after it, for at most `fuel` retired instructions. */
    method PtraceCont(fuel: nat) returns (stopped: bool, r: Result<()>)
      requires Valid()
      modifies tracee
      ensures (View(), stopped) == Cont(tracee.cpu, old(View()), fuel)
      ensures r == if stopped && Lost(tracee.cpu, View()) then Err(OutOfRange) else Ok(())
    {
      var left := fuel;
      while left > 0
        invariant Cont(tracee.cpu, View(), left) == Cont(tracee.cpu, old(View()), fuel)
      {
        var signal := PtraceStep();
        if signal != TrapTrace {
          r := HandleSigtrap(signal);
          return true, r;
        }
        left := left - 1;
      }
      return false, Ok(());
    }

    method ContinueExecution(fuel: nat) returns (stopped: bool, r: Result<()>)
      requires Valid()
      modifies Repr()
      ensures Valid() && bps == old(bps)
      ensures (View(), stopped) == Continue(tracee.cpu, old(View()), fuel)
      ensures r == if stopped && Lost(tracee.cpu, View()) then Err(OutOfRange) else Ok(())
    {
      r := StepOverBreakpoint();
      if r.Err? { return true, r; }
      stopped, r := PtraceCont(fuel);
    }

    /** Sets the address unless it is mapped already, and remembers it for deletion. */
    method SetFresh(addr: nat, toDelete: seq<nat>) returns (toDelete': seq<nat>)
      requires Valid()
      modifies this, tracee
      ensures Valid() && NewSince(old(bps.Values))
      ensures if addr in old(View()).bps then View() == old(View()) && toDelete' == toDelete
              else View() == SetBp(old(View()), addr) && toDelete' == toDelete + [addr]
    {
      toDelete' := toDelete;
      if addr !in bps {
        SetBreakpointAtAddress(addr);
        toDelete' := toDelete + [addr];
      }
    }

    method RemoveAll(toDelete: seq<nat>) returns (r: Result<()>)
      requires Valid()
      modifies Repr()
      ensures Valid()
      ensures match RemoveUpTo(old(View()), toDelete, |toDelete|)
              case Ok(s) => r == Ok(()) && View() == s
              case Err(e) => r == Err(e)
    {
      r := Ok(());
      for i := 0 to |toDelete|
        invariant Valid() && bps.Values <= old(bps.Values)
        invariant r == Ok(()) && RemoveUpTo(old(View()), toDelete, i) == Ok(View())
      {
        r := RemoveBreakpoint(toDelete[i]);
        if r.Err? {
          RemoveFailed(old(View()), toDelete, i + 1);
          return;
        }
      }
    }

    /** The shared shape of an outcome: stopped with this view, still running, or one of the exceptions. */
    ghost predicate Reached(out: Outcome<D>, stopped: bool, r: Result<()>)
      reads this, tracee, bps.Values
    {
      match out
      case Stopped(s) => stopped && r == Ok(()) && View() == s
      case StillRunning(s) => !stopped && r == Ok(()) && View() == s
      case NoLine(s) => stopped && r == Err(OutOfRange) && View() == s
      case Threw(e) => r == Err(e)
    }

    method StepOut(fuel: nat) returns (stopped: bool, r: Result<()>)
      requires Valid()
      modifies Repr()
      ensures Valid()
      ensures Reached(Stepping.StepOut(tracee.cpu, old(View()), fuel), stopped, r)
    {
      r := Ok(());
      var returnAddress := tracee.cpu.ret(tracee.data);
      ghost var s := View();
      FreshOne(s.bps.Keys, returnAddress);
      var shouldRemove := false;
      if returnAddress !in bps {
        SetBreakpointAtAddress(returnAddress);
        shouldRemove := true;
      }
      assert View() == SetAll(s, Fresh(s.bps.Keys, [returnAddress]));
      stopped, r := ContinueExecution(fuel);
      if r.Err? { return; }
      if stopped && shouldRemove {
        ghost var u := View();
        r := RemoveBreakpoint(returnAddress);
        assert RemoveUpTo(u, [returnAddress], 0) == Ok(u);
      }
    }

    /** Breakpoints on the rows of the function, except the row the tracee is on. */
    method PlantLines(lines: seq<nat>, start: nat) returns (toDelete: seq<nat>)
      requires Valid()
      modifies this, tracee
      ensures Valid() && NewSince(old(bps.Values))
      ensures toDelete == Fresh(old(View()).bps.Keys, Without(lines, start))
      ensures View() == SetAll(old(View()), toDelete)
    {
      hide View, Valid, Fresh, Without, SetAll, SetBp;
      toDelete := [];
      ghost var s := View();
      PlantNothing(s, start);
      assert lines[..0] == [];
      for i := 0 to |lines|
        invariant Valid() && NewSince(old(bps.Values))
        invariant toDelete == Fresh(s.bps.Keys, Without(lines[..i], start)) && View() == SetAll(s, toDelete)
      {
        WithoutSnoc(lines[..i], lines[i], start);
        assert lines[..i + 1] == lines[..i] + [lines[i]];
        FreshSnoc(s.bps.Keys, Without(lines[..i], start), lines[i]);
        if lines[i] != start {
          SetAllSnoc(s, toDelete, lines[i]);
          toDelete := SetFresh(lines[i], toDelete);
        }
      }
      assert lines[..|lines|] == lines;
    }

    method StepOver(lines: seq<nat>, start: nat, fuel: nat) returns (stopped: bool, r: Result<()>)
      requires Valid()
      modifies Repr()
      ensures Valid()
      ensures Reached(Stepping.StepOver(tracee.cpu, old(View()), lines, start, fuel), stopped, r)
    {
      hide Valid, Fresh, Without, SetAll, Continue, RemoveUpTo;
      var toDelete := PlantWithReturn(lines, start);
      stopped, r := ContinueExecution(fuel);
      if r.Err? { return; }
      if stopped {
        r := RemoveAll(toDelete);
      }
    }

    /** The breakpoints of the lines, then one at the return address. */
    method PlantWithReturn(lines: seq<nat>, start: nat) returns (toDelete: seq<nat>)
      requires Valid()
      modifies this, tracee
      ensures Valid() && NewSince(old(bps.Values))
      ensures toDelete == Fresh(old(View()).bps.Keys, Without(lines, start) + [tracee.cpu.ret(old(View()).data)])
      ensures View() == SetAll(old(View()), toDelete)
    {
      hide Valid, Fresh, Without, SetAll, SetBp;
      ghost var s := View();
      toDelete := PlantLines(lines, start);
      SetAllData(s, toDelete);
      var returnAddress := tracee.cpu.ret(tracee.data);
      FreshSnoc(s.bps.Keys, Without(lines, start), returnAddress);
      SetAllSnoc(s, toDelete, returnAddress);
      toDelete := SetFresh(returnAddress, toDelete);
    }
  }

  // ---------- the loops' specifications, one element at a time ----------

  lemma {:induction false} RemoveFailed<D>(s: State<D>, batch: seq<nat>, k: nat)
    requires k <= |batch| && RemoveUpTo(s, batch, k).Err?
    ensures RemoveUpTo(s, batch, |batch|) == RemoveUpTo(s, batch, k)
    decreases |batch| - k
  {
    if k < |batch| { RemoveFailed(s, batch, k + 1); }
  }

  lemma SetAllSnoc<D>(s: State<D>, batch: seq<nat>, a: nat)
    ensures SetAll(s, batch + [a]) == SetBp(SetAll(s, batch), a)
    ensures SetAll(s, batch).bps.Keys == s.bps.Keys + Elems(batch)
  {
    assert (batch + [a])[..|batch|] == batch;
  }

  lemma PlantNothing<D>(s: State<D>, start: nat)
    ensures SetAll(s, []) == s && Fresh(s.bps.Keys, Without([], start)) == []
  {}

  lemma FreshOne(keys: set<nat>, a: nat)
    ensures Fresh(keys, [a]) == if a in keys then [] else [a]
  {
    FreshSnoc(keys, [], a);
    assert [] + [a] == [a];
  }

  lemma {:induction false} SetAllData<D>(s: State<D>, batch: seq<nat>)
    ensures SetAll(s, batch).data == s.data
  {
    if batch != [] { SetAllData(s, batch[..|batch| - 1]); }
  }
}
