/** Whole debugging sessions: temporary breakpoints restore memory, and no command is noticed. */
module Transparency {
  import opened Words
  import opened Sections
  import opened Breakpoints
  import opened Stepping

  // ---------- planting and removing a batch ----------

  /** No address is planted after one that lies in the seven bytes above it. */
  predicate NoneBelowEarlier(batch: seq<nat>) {
    forall i, j :: 0 <= j < i < |batch| ==> !(batch[i] < batch[j] < batch[i] + 8)
  }

  predicate Plantable<D>(s: State<D>, batch: seq<nat>) {
    Distinct(batch) && forall a :: a in batch ==> a !in s.bps && InRange(s.mem, a)
  }

  lemma ElemsSnoc(batch: seq<nat>, k: nat)
    requires 0 < k <= |batch|
    ensures Elems(batch[..k]) == Elems(batch[..k - 1]) + {batch[k - 1]}
  {
    assert batch[..k] == batch[..k - 1] + [batch[k - 1]];
  }

  /** Planting, in any order, adds exactly the batch's traps. */
  lemma {:induction false} SetAllState<D>(s: State<D>, batch: seq<nat>)
    requires Plantable(s, batch)
    ensures var t := SetAll(s, batch);
      && t == s.(mem := t.mem, bps := t.bps) && t.mem == Overlay(s.mem, Elems(batch))
      && (forall a :: a in s.bps ==> t.bps[a] == s.bps[a])
  {
    if batch == [] {
      assert Overlay(s.mem, {}) == s.mem;
    } else {
      var n := |batch| - 1;
      ElemsSnoc(batch, |batch|);
      assert batch[..|batch|] == batch;
      SetAllState(s, batch[..n]);
      PutBack(s.mem, Elems(batch[..n]), batch[n]);
    }
  }

  /** Each saved word is memory as it was when that address was planted. */
  lemma {:induction false} SetAllSaved<D>(s: State<D>, batch: seq<nat>, i: nat)
    requires Plantable(s, batch) && i < |batch|
    ensures batch[i] in SetAll(s, batch).bps
    ensures SetAll(s, batch).bps[batch[i]] == Saved(true, Peek(Overlay(s.mem, Elems(batch[..i])), batch[i]))
  {
    var n := |batch| - 1;
    PlantableInit(s, batch);
    assert batch[..n][..if i < n then i else 0] == batch[..if i < n then i else 0];
    SetAllState(s, batch[..n]);
    assert SetAll(s, batch) == SetBp(SetAll(s, batch[..n]), batch[n]);
    hide Peek, Overlay, EnableMem, Elems, Plantable, SetAll;
    if i < n {
      SetAllSaved(s, batch[..n], i);
    }
  }

  lemma PlantableInit<D>(s: State<D>, batch: seq<nat>)
    requires Plantable(s, batch) && batch != []
    ensures Plantable(s, batch[..|batch| - 1])
    ensures forall i :: 0 <= i < |batch| - 1 ==> batch[i] != batch[|batch| - 1]
  {
  }

  /** The last of the first `k` batch addresses whose word covers `x`, or -1. */
  function LastCover(batch: seq<nat>, k: nat, x: nat): (i: int)
    requires k <= |batch|
    ensures -1 <= i < k
    ensures i >= 0 ==> batch[i] <= x < batch[i] + 8
    ensures forall j :: i < j < k ==> !(batch[j] <= x < batch[j] + 8)
  {
    if k == 0 then -1
    else if batch[k - 1] <= x < batch[k - 1] + 8 then k - 1
    else LastCover(batch, k - 1, x)
  }

  /** A byte after removing the first `k` from memory `now`: as the last word written over it had it. */
  function Unpatched(now: Memory, mem: Memory, batch: seq<nat>, k: nat, x: nat): byte
    requires k <= |batch| && x < |mem| == |now|
  {
    var i := LastCover(batch, k, x);
    if i < 0 then now[x] else Overlay(mem, Elems(batch[..i]))[x]
  }

  function UnpatchedMem(now: Memory, mem: Memory, batch: seq<nat>, k: nat): (m: Memory)
    requires k <= |batch| && |now| == |mem|
    ensures |m| == |mem| && forall x :: 0 <= x < |mem| ==> m[x] == Unpatched(now, mem, batch, k, x)
  {
    seq(|mem|, x requires 0 <= x < |mem| => Unpatched(now, mem, batch, k, x))
  }

  lemma WriteBack(now: Memory, mem: Memory, batch: seq<nat>, k: nat)
    requires 0 < k <= |batch| && |now| == |mem| && InRange(mem, batch[k - 1])
    ensures var a := batch[k - 1];
      Poke(UnpatchedMem(now, mem, batch, k - 1), a, Peek(Overlay(mem, Elems(batch[..k - 1])), a))
      == UnpatchedMem(now, mem, batch, k)
  {
    hide Peek, Poke, Overlay, UnpatchedMem;
    var a, m, o := batch[k - 1], UnpatchedMem(now, mem, batch, k - 1), Overlay(mem, Elems(batch[..k - 1]));
    PokeOfPeek(m, o, a);
    var r, u := m[..a] + o[a..a + 8] + m[a + 8..], UnpatchedMem(now, mem, batch, k);
    forall x | 0 <= x < |mem| ensures r[x] == u[x] {
      assert r[x] == if a <= x < a + 8 then o[x] else m[x];
    }
    assert r == u;
  }

  /** Removing writes saved words only: whatever memory is by then, each byte a saved word covers ends as
      the last of them has it. */
  lemma {:induction false} RemoveUpToState<D>(s: State<D>, t: State<D>, batch: seq<nat>, k: nat)
    requires Plantable(s, batch) && k <= |batch| && |t.mem| == |s.mem| && t.bps == SetAll(s, batch).bps
    ensures RemoveUpTo(t, batch, k) ==
      Ok(t.(mem := UnpatchedMem(t.mem, s.mem, batch, k), bps := t.bps - Elems(batch[..k])))
  {
    hide Peek, Poke, Overlay, SetAll, UnpatchedMem, RemoveBp, Plantable, Elems;
    if k == 0 {
      NothingRemoved(t, s.mem, batch);
    } else {
      PlantedOnce(s, batch, k);
      RemoveUpToState(s, t, batch, k - 1);
      SetAllSaved(s, batch, k - 1);
      WriteBack(t.mem, s.mem, batch, k);
      ElemsSnoc(batch, k);
      RemoveOne(t, UnpatchedMem(t.mem, s.mem, batch, k - 1), Elems(batch[..k - 1]), batch[k - 1]);
    }
  }

  lemma NothingRemoved<D>(t: State<D>, mem: Memory, batch: seq<nat>)
    requires |t.mem| == |mem|
    ensures t == t.(mem := UnpatchedMem(t.mem, mem, batch, 0), bps := t.bps - Elems(batch[..0]))
  {
    assert UnpatchedMem(t.mem, mem, batch, 0) == t.mem;
    assert Elems(batch[..0]) == {};
    assert t.bps - {} == t.bps;
  }

  lemma PlantedOnce<D>(s: State<D>, batch: seq<nat>, k: nat)
    requires Plantable(s, batch) && 0 < k <= |batch|
    ensures InRange(s.mem, batch[k - 1]) && batch[k - 1] !in Elems(batch[..k - 1])
  {
    assert batch[k - 1] in batch;
  }

  lemma RemoveOne<D>(t: State<D>, mem: Memory, gone: set<nat>, a: nat)
    requires a in t.bps && a !in gone && t.bps[a].enabled
    ensures RemoveBp(t.(mem := mem, bps := t.bps - gone), a) ==
      Ok(t.(mem := Poke(mem, a, t.bps[a].staging), bps := t.bps - (gone + {a})))
  {
    assert t.bps - gone - {a} == t.bps - (gone + {a});
  }

  /** Planting a batch and removing it in the same order restores memory and the breakpoint map
      exactly when no address was planted after one in the seven bytes above it. Whether the traps
      themselves survived in between does not matter. */
  lemma BatchRestoresExactlyWhen<D>(s: State<D>, t: State<D>, batch: seq<nat>)
    requires Plantable(s, batch) && forall a :: a in batch ==> s.mem[a] != TRAP
    requires |t.mem| == |s.mem| && forall x :: 0 <= x < |s.mem| && x !in batch ==> t.mem[x] == s.mem[x]
    requires t.bps == SetAll(s, batch).bps
    ensures RemoveUpTo(t, batch, |batch|).Ok?
    ensures RemoveUpTo(t, batch, |batch|).value == t.(mem := s.mem, bps := s.bps) <==> NoneBelowEarlier(batch)
  {
    hide RemoveUpTo, SetAll, UnpatchedMem, Overlay, NoneBelowEarlier;
    SetAllState(s, batch);
    RemoveUpToState(s, t, batch, |batch|);
    UnpatchedExactlyWhen(t.mem, s.mem, batch);
    assert batch[..|batch|] == batch;
    MapRestored(s, t.bps, Elems(batch));
  }

  lemma MapRestored<D>(s: State<D>, bps: map<nat, Saved>, planted: set<nat>)
    requires bps.Keys == s.bps.Keys + planted && s.bps.Keys !! planted
    requires forall a :: a in s.bps ==> bps[a] == s.bps[a]
    ensures bps - planted == s.bps
  {
  }

  lemma UnpatchedExactlyWhen(now: Memory, mem: Memory, batch: seq<nat>)
    requires Distinct(batch) && forall a :: a in batch ==> a < |mem| && mem[a] != TRAP
    requires |now| == |mem| && forall x :: 0 <= x < |mem| && x !in batch ==> now[x] == mem[x]
    ensures UnpatchedMem(now, mem, batch, |batch|) == mem <==> NoneBelowEarlier(batch)
  {
    hide Overlay, UnpatchedMem;
    var n, r := |batch|, UnpatchedMem(now, mem, batch, |batch|);
    if NoneBelowEarlier(batch) {
      forall x | 0 <= x < |mem| ensures r[x] == mem[x] {
        var i := LastCover(batch, n, x);
        assert i < 0 ==> x !in batch;
        assert i >= 0 ==> x !in batch[..i];
      }
      assert r == mem;
    } else {
      var i, j :| 0 <= j < i < n && batch[i] < batch[j] < batch[i] + 8;
      var x := batch[j];
      assert x in batch;
      assert batch[..LastCover(batch, n, x)][j] == x;
    }
  }

  /** Ascending line addresses are always safe, even when their words overlap. */
  lemma AscendingIsSafe(batch: seq<nat>)
    requires forall i, j :: 0 <= j < i < |batch| ==> batch[j] < batch[i]
    ensures NoneBelowEarlier(batch)
  {
  }

  /** A return address planted last is safe exactly when no line address is in the 7 bytes above it. */
  lemma ReturnAddressLast(lines: seq<nat>, ret: nat)
    requires forall i, j :: 0 <= j < i < |lines| ==> lines[j] < lines[i]
    ensures NoneBelowEarlier(lines + [ret]) <==> forall a :: a in lines ==> !(ret < a < ret + 8)
  {
    var b := lines + [ret];
    assert b[|lines|] == ret;
    assert forall i :: 0 <= i < |lines| ==> b[i] == lines[i];
    if NoneBelowEarlier(b) {
      forall a | a in lines ensures !(ret < a < ret + 8) {
        var j :| 0 <= j < |lines| && lines[j] == a;
        assert !(b[|lines|] < b[j] < b[|lines|] + 8);
      }
    } else {
      var i, j :| 0 <= j < i < |b| && b[i] < b[j] < b[i] + 8;
      assert b[j] in lines;
    }
  }

  // ---------- step over and step out ----------

  /** What a caller can check before a command that plants the fresh ones of `addrs`. */
  predicate TemporaryOk<D>(p: Program<D>, s: State<D>, addrs: seq<nat>) {
    var batch := Fresh(s.bps.Keys, addrs);
    NoneBelowEarlier(batch) && forall a :: a in batch ==> a in p.starts && InRange(p.code, a)
  }

  /** The planted traps that the step off the breakpoint under the pc erases: those its word covers. */
  function Erased<D>(s: State<D>, batch: seq<nat>): set<nat> {
    if s.pc in s.bps || s.pc in batch then set a | a in batch && s.pc < a < s.pc + 8 else {}
  }

  function TrapsLeft<D>(s: State<D>, batch: seq<nat>): set<nat> {
    s.bps.Keys + Elems(batch) - Erased(s, batch)
  }

  lemma {:induction false} SetAllTransparent<D(!new)>(p: Program<D>, s: State<D>, batch: seq<nat>)
    requires Transparent(p, s) && forall a :: a in batch ==> a in p.starts && InRange(p.code, a)
    ensures Transparent(p, SetAll(s, batch))
  {
    if batch != [] {
      var n := |batch| - 1;
      assert batch == batch[..n] + [batch[n]];
      assert forall a :: a in batch[..n] ==> a in batch;
      SetAllTransparent(p, s, batch[..n]);
      SetKeepsTransparent(p, SetAll(s, batch[..n]), batch[n]);
    }
  }

  /** The word saved at the pc is memory without its own trap and without the planted ones it covers. */
  lemma StandingWord<D(!new)>(p: Program<D>, s: State<D>, batch: seq<nat>)
    requires Inv(p, s) && Plantable(s, batch) && NoneBelowEarlier(batch)
    ensures var t := SetAll(s, batch);
      s.pc in t.bps ==> t.bps[s.pc] == Saved(true, Peek(Overlay(p.code, TrapsLeft(s, batch) - {s.pc}), s.pc))
  {
    hide Peek, Overlay, SetAll, Native, NoneBelowEarlier, Plantable;
    var t, pc := SetAll(s, batch), s.pc;
    SetAllState(s, batch);
    if pc in s.bps {
      assert SavedRight(p, s, pc);
      SameWord(p, s, batch, s.bps.Keys - {pc});
    } else if pc in batch {
      var i :| 0 <= i < |batch| && batch[i] == pc;
      SetAllSaved(s, batch, i);
      BeforeIsElsewhere(s, batch, i);
      OverlayTwice(p.code, s.bps.Keys, Elems(batch[..i]));
      SameWord(p, s, batch, s.bps.Keys + Elems(batch[..i]));
    }
  }

  lemma OverlayTwice(code: Memory, a: set<nat>, b: set<nat>)
    ensures Overlay(Overlay(code, a), b) == Overlay(code, a + b)
  {
    assert forall i :: 0 <= i < |code| ==> Overlay(Overlay(code, a), b)[i] == Overlay(code, a + b)[i];
  }

  /** Two sets of traps that agree inside the word at the pc. */
  lemma SameWord<D>(p: Program<D>, s: State<D>, batch: seq<nat>, traps: set<nat>)
    requires Plantable(s, batch) && (s.pc in s.bps || s.pc in batch) && s.pc !in traps
    requires forall x :: s.pc < x < s.pc + 8 ==> (x in traps <==> x in s.bps)
    ensures Peek(Overlay(p.code, traps), s.pc) == Peek(Overlay(p.code, TrapsLeft(s, batch) - {s.pc}), s.pc)
  {
    hide Peek;
    PeekAgrees(Overlay(p.code, traps), Overlay(p.code, TrapsLeft(s, batch) - {s.pc}), s.pc);
  }

  /** None of those planted before `batch[i]` lies in its word. */
  lemma BeforeIsElsewhere<D>(s: State<D>, batch: seq<nat>, i: nat)
    requires Plantable(s, batch) && NoneBelowEarlier(batch) && i < |batch|
    ensures forall x :: x in batch[..i] ==> x in batch && !(batch[i] <= x < batch[i] + 8)
  {
    forall x | x in batch[..i] ensures x in batch && !(batch[i] <= x < batch[i] + 8) {
      var j :| 0 <= j < i && batch[j] == x;
    }
  }

  lemma TakeAwayCovered(code: Memory, traps: set<nat>, gone: set<nat>, a: nat)
    requires InRange(code, a) && a in gone && forall x :: x in gone ==> a <= x < a + 8
    ensures Poke(Overlay(code, traps), a, Peek(Overlay(code, traps - gone), a)) == Overlay(code, traps - gone)
  {
    hide Peek, Poke, Overlay;
    var m, m0 := Overlay(code, traps), Overlay(code, traps - gone);
    PokeOfPeek(m, m0, a);
    assert m[..a] == m0[..a];
    assert m[a + 8..] == m0[a + 8..];
    assert m0 == m0[..a] + m0[a..a + 8] + m0[a + 8..];
  }

  function Only(bps: map<nat, Saved>, keys: set<nat>): map<nat, Saved> { map a | a in bps && a in keys :: bps[a] }

  /** The tracee runs on memory alone. */
  lemma {:induction false} ContIgnoresMap<D>(cpu: Cpu<D>, s: State<D>, bps: map<nat, Saved>, fuel: nat)
    ensures var (r, stopped) := Cont(cpu, s, fuel); Cont(cpu, s.(bps := bps), fuel) == (r.(bps := bps), stopped)
    decreases fuel
  {
    if fuel > 0 && Execute(cpu, s).1.TrapTrace? { ContIgnoresMap(cpu, Execute(cpu, s).0, bps, fuel - 1); }
  }

  /** The step off: the map is unchanged, and memory has exactly the traps left. */
  lemma StepOff<D(!new)>(p: Program<D>, s: State<D>, batch: seq<nat>)
    requires WellFormed(p) && Inv(p, s) && Plantable(s, batch) && NoneBelowEarlier(batch)
    requires Transparent(p, SetAll(s, batch))
    ensures var t := SetAll(s, batch); var u := StepOverBp(p.cpu, t);
      && !StepOverThrows(p.cpu, t)
      && u.bps == t.bps && u.mem == Overlay(p.code, TrapsLeft(s, batch))
      && u.trace == (if s.pc in t.bps then s.trace + [s.pc] else s.trace)
      && (u.pc in p.starts || u.pc >= |p.code|) && Native(p, |u.trace|) == Run(u.trace, u.pc, u.data)
      && (s.pc in t.bps ==> u.pc == p.cpu.exec(p.code, s.pc, s.data).0)
  {
    hide Native, WellFormed, Overlay, Peek, Poke, EnableMem, SetAll, Plantable, NoneBelowEarlier;
    var t := SetAll(s, batch);
    SetAllFields(s, batch);
    if s.pc in t.bps {
      StandingWord(p, s, batch);
      StepOffBreakpoint(p, t, TrapsLeft(s, batch));
    } else {
      assert TrapsLeft(s, batch) == t.bps.Keys;
    }
  }

  lemma SetAllFields<D>(s: State<D>, batch: seq<nat>)
    requires Plantable(s, batch)
    ensures var t := SetAll(s, batch);
      && t.pc == s.pc && t.data == s.data && t.trace == s.trace && |t.mem| == |s.mem|
      && t.bps.Keys == s.bps.Keys + Elems(batch)
  {
    SetAllState(s, batch);
  }

  lemma StepOffBreakpoint<D(!new)>(p: Program<D>, t: State<D>, left: set<nat>)
    requires WellFormed(p) && Transparent(p, t) && t.pc in t.bps && t.pc in left && left <= t.bps.Keys
    requires forall a :: a in t.bps.Keys - left ==> t.pc < a < t.pc + 8
    requires t.bps[t.pc] == Saved(true, Peek(Overlay(p.code, left - {t.pc}), t.pc))
    ensures var u := StepOverBp(p.cpu, t);
      && !StepOverThrows(p.cpu, t)
      && u.bps == t.bps && u.mem == Overlay(p.code, left) && u.trace == t.trace + [t.pc]
      && (u.pc in p.starts || u.pc >= |p.code|) && Native(p, |u.trace|) == Run(u.trace, u.pc, u.data)
      && u.pc == p.cpu.exec(p.code, t.pc, t.data).0
  {
    hide Native, WellFormed, Overlay, Peek, Poke, EnableMem;
    var at, keys := t.pc, t.bps.Keys;
    var gone := keys - left + {at};
    TakeAwayCovered(p.code, keys, gone, at);
    assert keys - gone == left - {at};
    var s0 := Lifted(t);
    var bare := s0.(bps := Only(t.bps, left - {at}));
    assert bare.bps.Keys == left - {at};
    ExecuteIsNative(p, bare);
    ExecutesTo(p, bare);
    PutBack(p.code, left - {at}, at);
    assert left - {at} + {at} == left;
    assert StepOverBp(p.cpu, t).bps == t.bps;
  }

  lemma ExecutesTo<D(!new)>(p: Program<D>, s: State<D>)
    requires WellFormed(p) && s.mem == Overlay(p.code, s.bps.Keys) && s.bps.Keys <= p.starts
    requires s.pc in p.starts && s.pc !in s.bps
    ensures Execute(p.cpu, s).0.pc == p.cpu.exec(p.code, s.pc, s.data).0
  {
    var n := p.cpu.len(p.code, s.pc);
    assert p.code[s.pc..s.pc + n] == s.mem[s.pc..s.pc + n];
    assert SameWindow(p.code, s.mem, s.pc, n);
  }

  /** Every planted trap survives the step off exactly when the word saved at the pc covers none. */
  lemma TrapsSurviveExactlyWhen<D(!new)>(p: Program<D>, s: State<D>, addrs: seq<nat>)
    requires WellFormed(p) && Inv(p, s) && TemporaryOk(p, s, addrs)
    ensures var batch := Fresh(s.bps.Keys, addrs); var t := SetAll(s, batch);
      StepOverBp(p.cpu, t).mem == t.mem
      <==> (s.pc in s.bps || s.pc in batch ==> forall a :: a in batch ==> !(s.pc < a < s.pc + 8))
  {
    hide WellFormed, Native, SetAll, StepOverBp, Peek, Fresh, NoneBelowEarlier, Overlay;
    var batch := Fresh(s.bps.Keys, addrs);
    var t := SetAll(s, batch);
    SetAllTransparent(p, s, batch);
    SetAllFields(s, batch);
    StepOff(p, s, batch);
    if a :| a in Erased(s, batch) {
      TrapFree(p, a);
      assert t.mem[a] == TRAP && Overlay(p.code, TrapsLeft(s, batch))[a] != TRAP;
    } else {
      assert TrapsLeft(s, batch) == t.bps.Keys;
    }
  }

  /** Running freely with only some of the mapped traps in memory. */
  lemma RunsOn<D(!new)>(p: Program<D>, u: State<D>, left: set<nat>, fuel: nat)
    requires WellFormed(p) && left <= u.bps.Keys && u.mem == Overlay(p.code, left)
    requires forall a :: a in u.bps ==> a in p.starts && InRange(p.code, a) && u.bps[a].enabled
    requires (u.pc in p.starts || u.pc >= |p.code|) && Native(p, |u.trace|) == Run(u.trace, u.pc, u.data)
    ensures var (r, stopped) := Cont(p.cpu, u, fuel);
      && r.bps == u.bps && r.mem == u.mem && u.trace <= r.trace
      && (r.pc in p.starts || r.pc >= |p.code|) && Native(p, |r.trace|) == Run(r.trace, r.pc, r.data)
      && (forall i :: |u.trace| <= i < |r.trace| ==> r.trace[i] !in left)
      && (stopped ==> r.pc in left || r.pc >= |p.code|)
  {
    hide WellFormed, Native, Cont, Overlay;
    var v := u.(bps := Only(u.bps, left));
    assert v.bps.Keys == left;
    ContKeeps(p, v, fuel);
    ContIgnoresMap(p.cpu, u, v.bps, fuel);
    ContKeepsMap(p.cpu, u, fuel);
  }

  lemma {:induction false} ContKeepsMap<D>(cpu: Cpu<D>, s: State<D>, fuel: nat)
    ensures Cont(cpu, s, fuel).0.bps == s.bps
    decreases fuel
  {
    if fuel > 0 && Execute(cpu, s).1.TrapTrace? { ContKeepsMap(cpu, Execute(cpu, s).0, fuel - 1); }
  }

  /** The first instruction of such a run, where no trap is left. */
  lemma RunsFirst<D(!new)>(p: Program<D>, u: State<D>, left: set<nat>, fuel: nat)
    requires WellFormed(p) && left <= u.bps.Keys && u.mem == Overlay(p.code, left) && fuel > 0
    requires forall a :: a in u.bps ==> a in p.starts && InRange(p.code, a) && u.bps[a].enabled
    requires u.pc in p.starts && u.pc !in left && Native(p, |u.trace|) == Run(u.trace, u.pc, u.data)
    ensures u.trace + [u.pc] <= Cont(p.cpu, u, fuel).0.trace
  {
    hide WellFormed, Native, Overlay;
    var v := u.(bps := Only(u.bps, left));
    assert v.bps.Keys == left;
    ExecuteIsNative(p, v);
    ExecuteIgnoresMap(p.cpu, u, v.bps);
    RunsOn(p, Execute(p.cpu, u).0, left, fuel - 1);
  }

  lemma ExecuteIgnoresMap<D>(cpu: Cpu<D>, s: State<D>, bps: map<nat, Saved>)
    ensures var r := Execute(cpu, s); Execute(cpu, s.(bps := bps)) == (r.0.(bps := bps), r.1)
  {}

  /** The run of a temporary command: it stops at the first trap left that it reaches after the first
      instruction, or outside the code, and the map is still the one with everything planted. */
  lemma TemporaryRuns<D(!new)>(p: Program<D>, s: State<D>, addrs: seq<nat>, fuel: nat)
    requires WellFormed(p) && Inv(p, s) && TemporaryOk(p, s, addrs)
    ensures var batch := Fresh(s.bps.Keys, addrs);
      var (u, stopped) := Continue(p.cpu, SetAll(s, batch), fuel);
      && u.bps == SetAll(s, batch).bps && u.mem == Overlay(p.code, TrapsLeft(s, batch))
      && StopsAt(p, s, u, TrapsLeft(s, batch), stopped)
  {
    hide WellFormed, Overlay, Native, SetAll, Fresh, StepOverBp, NoneBelowEarlier, TrapsLeft, Cont, Inv;
    var batch := Fresh(s.bps.Keys, addrs);
    TemporaryStepsOff(p, s, addrs);
    RunsOn(p, StepOverBp(p.cpu, SetAll(s, batch)), TrapsLeft(s, batch), fuel);
  }

  /** The state a temporary command runs on from. */
  lemma TemporaryStepsOff<D(!new)>(p: Program<D>, s: State<D>, addrs: seq<nat>)
    requires WellFormed(p) && Inv(p, s) && TemporaryOk(p, s, addrs)
    ensures var batch := Fresh(s.bps.Keys, addrs); var t := SetAll(s, batch); var u := StepOverBp(p.cpu, t);
      && !StepOverThrows(p.cpu, t)
      && u.bps == t.bps && TrapsLeft(s, batch) <= u.bps.Keys && u.mem == Overlay(p.code, TrapsLeft(s, batch))
      && (forall a :: a in u.bps ==> a in p.starts && InRange(p.code, a) && u.bps[a].enabled)
      && (u.pc in p.starts || u.pc >= |p.code|) && Native(p, |u.trace|) == Run(u.trace, u.pc, u.data)
      && u.trace == (if s.pc in t.bps then s.trace + [s.pc] else s.trace)
      && (s.pc in t.bps ==> u.pc == p.cpu.exec(p.code, s.pc, s.data).0)
  {
    hide WellFormed, Overlay, Native, SetAll, Fresh, StepOverBp, NoneBelowEarlier, Peek;
    var batch := Fresh(s.bps.Keys, addrs);
    SetAllTransparent(p, s, batch);
    SetAllFields(s, batch);
    StepOff(p, s, batch);
  }

  /** Where and how a run from `s` ended in `t`, the traps in memory being `traps`. */
  ghost predicate StopsAt<D>(p: Program<D>, s: State<D>, t: State<D>, traps: set<nat>, stopped: bool) {
    && (t.pc in p.starts || t.pc >= |p.code|) && Native(p, |t.trace|) == Run(t.trace, t.pc, t.data)
    && s.trace <= t.trace
    && (forall i :: |s.trace| <= i < |t.trace| && t.trace[i] in traps ==> i == |s.trace| && t.trace[i] == s.pc)
    && (stopped ==> t.pc in traps || t.pc >= |p.code|)
  }

  /** Memory has just the traps left, and everything planted is still mapped and enabled. */
  ghost predicate Planted<D>(p: Program<D>, s: State<D>, t: State<D>, batch: seq<nat>) {
    && t.mem == Overlay(p.code, TrapsLeft(s, batch))
    && TrapsLeft(s, batch) <= t.bps.Keys == s.bps.Keys + Elems(batch)
    && (forall a :: a in t.bps ==> t.bps[a].enabled)
  }

  /** `step_over` and `step_out` stop at the first trap left that is reached, or outside the code. If there
      is a line there to show, they leave every mapped breakpoint, every byte and the execution right. If
      there is none they throw, exactly then, and leave everything planted. */
  lemma TemporaryKeeps<D(!new)>(p: Program<D>, s: State<D>, addrs: seq<nat>, fuel: nat)
    requires WellFormed(p) && Inv(p, s) && TemporaryOk(p, s, addrs)
    ensures var batch := Fresh(s.bps.Keys, addrs);
      match Temporary(p.cpu, s, addrs, fuel)
      case Stopped(t) =>
        && Inv(p, t) && t.bps == s.bps && t.mem == s.mem && StopsAt(p, s, t, TrapsLeft(s, batch), true)
        && !Lost(p.cpu, t)
      case NoLine(t) =>
        && Planted(p, s, t, batch) && StopsAt(p, s, t, TrapsLeft(s, batch), true)
        && t.pc in TrapsLeft(s, batch) && NoLineAt(p.cpu, t.pc)
      case StillRunning(t) => Planted(p, s, t, batch) && StopsAt(p, s, t, TrapsLeft(s, batch), false)
      case Threw(_) => false
  {
    hide WellFormed, Overlay, Peek, Poke, Native, SetAll, Fresh, Continue, RemoveUpTo, NoneBelowEarlier;
    var batch := Fresh(s.bps.Keys, addrs);
    var (u, stopped) := Continue(p.cpu, SetAll(s, batch), fuel);
    SetAllTransparent(p, s, batch);
    TemporaryRuns(p, s, addrs, fuel);
    if stopped {
      forall a | a in batch ensures s.mem[a] != TRAP { TrapFree(p, a); }
      BatchRestoresExactlyWhen(s, u, batch);
    }
  }

  /** What an erased trap does: standing on a breakpoint whose word covers a planted line, and control
      going there next, `step_over` runs past that line. */
  lemma StepOverRunsPast<D(!new)>(p: Program<D>, s: State<D>, lines: seq<nat>, start: nat, fuel: nat, a: nat)
    requires WellFormed(p) && Inv(p, s) && s.pc in s.bps && fuel > 0
    requires TemporaryOk(p, s, Without(lines, start) + [p.cpu.ret(s.data)])
    requires a in lines && a != start && a !in s.bps && s.pc < a < s.pc + 8
    requires p.cpu.exec(p.code, s.pc, s.data).0 == a
    ensures match StepOver(p.cpu, s, lines, start, fuel)
            case Stopped(t) => s.trace + [s.pc, a] <= t.trace
            case StillRunning(t) => s.trace + [s.pc, a] <= t.trace
            case NoLine(t) => s.trace + [s.pc, a] <= t.trace
            case Threw(_) => false
  {
    hide WellFormed, Overlay, Native, SetAll, Fresh, Without, RemoveUpTo, NoneBelowEarlier, StepOverBp, Cont, Inv;
    var addrs := Without(lines, start) + [p.cpu.ret(s.data)];
    var batch := Fresh(s.bps.Keys, addrs);
    WithoutKeeps(lines, start, a);
    TemporaryStepsOff(p, s, addrs);
    var u := StepOverBp(p.cpu, SetAll(s, batch));
    RunsFirst(p, u, TrapsLeft(s, batch), fuel);
    assert u.trace + [a] == s.trace + [s.pc, a];
    TemporaryKeeps(p, s, addrs, fuel);
    if Temporary(p.cpu, s, addrs, fuel).Stopped? {
      RemovalKeepsTrace(Continue(p.cpu, SetAll(s, batch), fuel).0, batch, |batch|);
    }
  }

  lemma {:induction false} WithoutKeeps(lines: seq<nat>, start: nat, a: nat)
    requires a in lines && a != start
    ensures a in Without(lines, start)
  {
    var n := |lines| - 1;
    assert lines == lines[..n] + [lines[n]];
    if lines[n] != a { WithoutKeeps(lines[..n], start, a); }
  }

  lemma {:induction false} RemovalKeepsTrace<D>(t: State<D>, batch: seq<nat>, k: nat)
    requires k <= |batch| && RemoveUpTo(t, batch, k).Ok?
    ensures RemoveUpTo(t, batch, k).value.trace == t.trace
  {
    if k > 0 { RemovalKeepsTrace(t, batch, k - 1); }
  }

  // ---------- sessions ----------

  datatype Command =
    | Break(addr: nat)
    | Remove(addr: nat)
    | StepInstruction
    | ContinueCmd(fuel: nat)
    | Finish(fuel: nat)
    | Next(lines: seq<nat>, start: nat, fuel: nat)

  /** `stepi` shows the line of where it gets to, and looks it up without subtracting the load address. */
  function Apply<D>(cpu: Cpu<D>, s: State<D>, c: Command): Outcome<D> {
    match c
    case Break(a) => Stopped(SetBp(s, a))
    case Remove(a) => (match RemoveBp(s, a) case Ok(t) => Stopped(t) case Err(e) => Threw(e))
    case StepInstruction =>
      var t := CheckedStep(cpu, s);
      if CheckedStepThrows(cpu, s) || !cpu.entry(t.pc) then NoLine(t) else Stopped(t)
    case ContinueCmd(fuel) =>
      var (t, stopped) := Continue(cpu, s, fuel);
      if !stopped then StillRunning(t) else if Lost(cpu, t) then NoLine(t) else Stopped(t)
    case Finish(fuel) => StepOut(cpu, s, fuel)
    case Next(lines, start, fuel) => StepOver(cpu, s, lines, start, fuel)
  }

  /** The guards: breakpoints go on fresh instruction starts that no mapped word covers; only mapped
      ones that no other mapped word covers are removed; temporary batches are safe. */
  predicate Allowed<D>(p: Program<D>, s: State<D>, c: Command) {
    match c
    case Break(a) => a in p.starts && InRange(p.code, a) && a !in s.bps && Uncovered(s, a)
    case Remove(a) => a in s.bps && Uncovered(s, a)
    case StepInstruction => true
    case ContinueCmd(_) => true
    case Finish(_) => TemporaryOk(p, s, [p.cpu.ret(s.data)])
    case Next(lines, start, _) => TemporaryOk(p, s, Without(lines, start) + [p.cpu.ret(s.data)])
  }

  /** Memory has the traps of a part of the mapped set; only a run that has not come to a stop after a
      temporary command can lack some. */
  ghost predicate Running<D>(p: Program<D>, t: State<D>, traps: set<nat>) {
    && traps <= t.bps.Keys && t.mem == Overlay(p.code, traps)
    && (forall a :: a in t.bps ==> t.bps[a].enabled)
    && Native(p, |t.trace|) == Run(t.trace, t.pc, t.data)
  }

  ghost predicate SomeRunning<D>(p: Program<D>, t: State<D>) { exists traps :: Running(p, t, traps) }

  /** There is no line to show for an address, as looked up after a hit or as looked up by `stepi`. */
  predicate Unlined<D>(cpu: Cpu<D>, pc: nat) { NoLineAt(cpu, pc) || !cpu.entry(pc) }

  lemma CommandKeeps<D(!new)>(p: Program<D>, s: State<D>, c: Command)
    requires WellFormed(p) && Inv(p, s) && Allowed(p, s, c)
    ensures match Apply(p.cpu, s, c)
            case Stopped(t) => Inv(p, t) && s.trace <= t.trace
            case StillRunning(t) => SomeRunning(p, t) && s.trace <= t.trace
            case NoLine(t) => SomeRunning(p, t) && s.trace <= t.trace && Unlined(p.cpu, t.pc)
            case Threw(_) => false
  {
    hide WellFormed, Overlay, Native, EnableMem, SingleStep, StepOverBp, Continue, Temporary, Transparent, TrapsLeft;
    hide Peek, Fresh, Without, SetAll, NoneBelowEarlier;
    match c
    case Break(a) => SetIsSafeExactlyWhen(p, s, a);
    case Remove(a) => RemoveIsSafeExactlyWhen(p, s, a);
    case StepInstruction => StepKeeps(p, s);
    case ContinueCmd(fuel) => RunKeeps(p, s, fuel);
    case Finish(fuel) => TemporaryIsRunning(p, s, [p.cpu.ret(s.data)], fuel);
    case Next(lines, start, fuel) => TemporaryIsRunning(p, s, Without(lines, start) + [p.cpu.ret(s.data)], fuel);
  }

  lemma StepKeeps<D(!new)>(p: Program<D>, s: State<D>)
    requires WellFormed(p) && Inv(p, s)
    ensures var t := CheckedStep(p.cpu, s); Inv(p, t) && Running(p, t, t.bps.Keys) && s.trace <= t.trace
    ensures CheckedStepThrows(p.cpu, s) ==> NoLineAt(p.cpu, CheckedStep(p.cpu, s).pc)
  {
    if s.pc in s.bps {
      assert SavedRight(p, s, s.pc);
      StepOverBpKeeps(p, s);
    } else {
      SingleStepKeeps(p, s);
    }
  }

  lemma RunKeeps<D(!new)>(p: Program<D>, s: State<D>, fuel: nat)
    requires WellFormed(p) && Inv(p, s)
    ensures var t := Continue(p.cpu, s, fuel).0; Inv(p, t) && Running(p, t, t.bps.Keys) && s.trace <= t.trace
  {
    hide WellFormed, Native, Overlay, Peek, Continue;
    if s.pc in s.bps { assert SavedRight(p, s, s.pc); }
    ContinueKeeps(p, s, fuel);
  }

  lemma TemporaryIsRunning<D(!new)>(p: Program<D>, s: State<D>, addrs: seq<nat>, fuel: nat)
    requires WellFormed(p) && Inv(p, s) && TemporaryOk(p, s, addrs)
    ensures match Temporary(p.cpu, s, addrs, fuel)
            case Stopped(t) => Inv(p, t) && s.trace <= t.trace
            case StillRunning(t) => Running(p, t, TrapsLeft(s, Fresh(s.bps.Keys, addrs))) && s.trace <= t.trace
            case NoLine(t) =>
              && Running(p, t, TrapsLeft(s, Fresh(s.bps.Keys, addrs))) && s.trace <= t.trace
              && NoLineAt(p.cpu, t.pc)
            case Threw(_) => false
  {
    hide WellFormed, Overlay, Native, Temporary, TrapsLeft, Fresh, Inv, TemporaryOk;
    TemporaryKeeps(p, s, addrs, fuel);
  }

  /** A session ends early when the tracee keeps running or a command throws, as nothing catches that. */
  function Session<D>(cpu: Cpu<D>, s: State<D>, cs: seq<Command>): Outcome<D>
    decreases |cs|
  {
    if cs == [] then Stopped(s)
    else
      match Apply(cpu, s, cs[0])
      case Stopped(t) => Session(cpu, t, cs[1..])
      case StillRunning(t) => StillRunning(t)
      case NoLine(t) => NoLine(t)
      case Threw(e) => Threw(e)
  }

  predicate AllAllowed<D>(p: Program<D>, s: State<D>, cs: seq<Command>)
    decreases |cs|
  {
    cs == [] || (
      && Allowed(p, s, cs[0])
      && match Apply(p.cpu, s, cs[0])
         case Stopped(t) => AllAllowed(p, t, cs[1..])
         case _ => true
    )
  }

  lemma {:induction false} SessionKeeps<D(!new)>(p: Program<D>, s: State<D>, cs: seq<Command>)
    requires WellFormed(p) && Inv(p, s) && AllAllowed(p, s, cs)
    ensures match Session(p.cpu, s, cs)
            case Stopped(t) => Inv(p, t)
            case StillRunning(t) => SomeRunning(p, t)
            case NoLine(t) => SomeRunning(p, t) && Unlined(p.cpu, t.pc)
            case Threw(_) => false
    decreases |cs|
  {
    hide WellFormed, SomeRunning, Apply, Overlay, Native, Inv, Allowed;
    if cs != [] {
      CommandKeeps(p, s, cs[0]);
      var r := Apply(p.cpu, s, cs[0]);
      if r.Stopped? { SessionKeeps(p, r.s, cs[1..]); }
    }
  }

  lemma {:induction false} NativeGrows<D>(p: Program<D>, m: nat, n: nat)
    requires m <= n
    ensures Native(p, m).trace <= Native(p, n).trace
    decreases n
  {
    if m < n { NativeGrows(p, m, n - 1); }
  }

  function Launch<D>(p: Program<D>): State<D> { State(p.code, p.pc0, p.data0, map[], []) }

  /** Debugging is transparent over whole sessions: whatever allowed commands are given, at every prompt
      memory is the original code with a trap at exactly the mapped addresses; always every mapped
      breakpoint is enabled, and the instructions retired are a prefix of any long enough undebugged
      run, whose pc and data at that point the tracee has. A tracee left running after a temporary
      command may lack planted traps, never have others. The only exception is that of the line look-up,
      where there is no line to show. */
  lemma DebuggingIsTransparent<D(!new)>(p: Program<D>, cs: seq<Command>, n: nat)
    requires WellFormed(p) && AllAllowed(p, Launch(p), cs)
    ensures var r := Session(p.cpu, Launch(p), cs);
      && !r.Threw?
      && (r.Stopped? ==> r.s.mem == Overlay(p.code, r.s.bps.Keys))
      && (r.NoLine? ==> Unlined(p.cpu, r.s.pc))
      && (exists traps :: traps <= r.s.bps.Keys && r.s.mem == Overlay(p.code, traps))
      && (forall a :: a in r.s.bps ==> r.s.bps[a].enabled)
      && Native(p, |r.s.trace|) == Run(r.s.trace, r.s.pc, r.s.data)
      && (n >= |r.s.trace| ==> r.s.trace <= Native(p, n).trace)
  {
    hide WellFormed, Session, AllAllowed;
    var s0 := Launch(p);
    LaunchIsRight(p);
    SessionKeeps(p, s0, cs);
    var r := Session(p.cpu, s0, cs);
    if n >= |r.s.trace| { NativeGrows(p, |r.s.trace|, n); }
  }

  lemma LaunchIsRight<D(!new)>(p: Program<D>)
    requires WellFormed(p)
    ensures Inv(p, Launch(p))
  {
    assert Overlay(p.code, {}) == p.code;
  }

  /** An instruction at 0 and one at 1 that leaves the code, in a function that returns to 0. */
  function Straight(): Program<()> {
    var cpu := Cpu((_, _) => 1, (_, pc, _) => (if pc == 0 then 1 else 9, ()), _ => 0, 0, _ => true);
    Program(cpu, seq(9, _ => 0x90), {0, 1}, 0, ())
  }

  /** The shortest session in which `next` runs past a line: from a breakpoint at 0, the line at 1. */
  lemma NextRunsPast(fuel: nat)
    requires fuel > 0
    ensures var (p, cs) := (Straight(), [Break(0), Next([0, 1], 0, fuel)]);
      var r := Session(p.cpu, Launch(p), cs);
      && WellFormed(p) && AllAllowed(p, Launch(p), cs) && !r.Threw? && [0, 1] <= r.s.trace
  {
    hide Straight, WellFormed, TemporaryOk, Overlay, EnableMem, Peek, Poke, Native, Session, AllAllowed, Inv;
    hide StepOver;
    var p, cs := Straight(), [Break(0), Next([0, 1], 0, fuel)];
    var s := SetBp(Launch(p), 0);
    StraightIsWellFormed();
    LaunchIsRight(p);
    FirstBreak(Launch(p));
    CommandKeeps(p, Launch(p), Break(0));
    StraightIsOk(s);
    TwoCommands(p, Launch(p), cs, s);
    StepOverRunsPast(p, s, [0, 1], 0, fuel, 1);
    assert s.trace + [0, 1] == [0, 1];
  }

  lemma StraightIsWellFormed()
    ensures var p := Straight(); WellFormed(p) && p.pc0 == 0 && forall d :: p.cpu.exec(p.code, 0, d).0 == 1
  {}

  lemma FirstBreak(s: State<()>)
    requires s.bps == map[]
    ensures Allowed(Straight(), s, Break(0))
  {}

  lemma TwoCommands<D>(p: Program<D>, s: State<D>, cs: seq<Command>, t: State<D>)
    requires |cs| == 2 && Allowed(p, s, cs[0]) && Apply(p.cpu, s, cs[0]) == Stopped(t) && Allowed(p, t, cs[1])
    ensures AllAllowed(p, s, cs) && Session(p.cpu, s, cs) == Apply(p.cpu, t, cs[1])
  {
    hide Allowed, Apply;
    assert cs[1..][0] == cs[1] && cs[1..][1..] == [];
    assert Session(p.cpu, t, cs[1..]) == Apply(p.cpu, t, cs[1]);
    assert AllAllowed(p, t, cs[1..]);
  }

  lemma StraightIsOk(s: State<()>)
    requires s.bps.Keys == {0}
    ensures TemporaryOk(Straight(), s, Without([0, 1], 0) + [Straight().cpu.ret(s.data)])
  {
    hide Straight, Without, Fresh;
    StraightBatch();
    OneStart();
  }

  lemma StraightBatch()
    ensures Fresh({0}, Without([0, 1], 0) + [0]) == [1]
  {
    hide Without, Fresh;
    NoneWithout(0);
    WithoutSnoc([], 0, 0);
    WithoutSnoc([0], 1, 0);
    NoneFresh({0});
    FreshSnoc({0}, [], 1);
    FreshSnoc({0}, [1], 0);
    assert [] + [0] == [0] && [0] + [1] == [0, 1] && [] + [1] == [1];
  }

  lemma OneStart()
    ensures var p := Straight(); 1 in p.starts && InRange(p.code, 1) && forall d :: p.cpu.ret(d) == 0
  {}

  lemma NoneWithout(start: nat)
    ensures Without([], start) == []
  {}

  lemma NoneFresh(keys: set<nat>)
    ensures Fresh(keys, []) == []
  {}
}
