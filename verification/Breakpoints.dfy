/** Software breakpoints: the word a debugger saves, patches and restores. */
module Breakpoints {
  import opened Words
  import opened Sections

  const TRAP: byte := 0xcc

  type Memory = seq<byte>

  /** PTRACE_PEEKDATA: the little-endian word at `a`; a failing request yields -1. */
  function Peek(mem: Memory, a: nat): word {
    if a + 8 <= |mem| then
      Fixed8Bound(true, mem[a..a + 8]);
      LittleEndian(mem[a..a + 8])
    else TWO64 - 1
  }

  /** PTRACE_POKEDATA: all eight bytes are written, or none when the request fails. */
  function Poke(mem: Memory, a: nat, w: word): (r: Memory)
    ensures |r| == |mem|
  {
    if a + 8 <= |mem| then mem[..a] + FixedBytes(true, w, 8) + mem[a + 8..] else mem
  }

  /** `(staging & ~0xff) | 0xcc` */
  function Instrument(staging: word): word {
    Bits(BitOr, Bits(BitAnd, staging, TWO64 - 0x100), TRAP)
  }

  datatype Saved = Saved(enabled: bool, staging: word)

  function EnableMem(mem: Memory, a: nat): Memory { Poke(mem, a, Instrument(Peek(mem, a))) }

  /** `a` and the next seven bytes are mapped. */
  predicate InRange(mem: Memory, a: nat) { a + 8 <= |mem| }

  // ---------- what the word operations do to bytes ----------

  lemma {:induction false} BytesOfValue(bs: seq<byte>)
    ensures FixedBytes(true, LittleEndian(bs), |bs|) == bs
  {
    if bs != [] {
      BytesOfValue(bs[1..]);
      ModUnique(LittleEndian(bs), 256, LittleEndian(bs[1..]), bs[0]);
    }
  }

  lemma {:induction false} AndAllOnes(a: nat, n: nat)
    requires a < Pow2(n)
    ensures Bitwise(BitAnd, a, Pow2(n) - 1) == a
  {
    if n > 0 {
      AndAllOnes(a / 2, n - 1);
      AndOdd(a, Pow2(n - 1) - 1);
    }
  }

  lemma AndOdd(a: nat, h: nat)
    ensures Bitwise(BitAnd, a, 2 * h + 1) == 2 * Bitwise(BitAnd, a / 2, h) + a % 2
  {
    assert (2 * h + 1) / 2 == h && (2 * h + 1) % 2 == 1;
  }

  /** Clearing the low `k` bits. */
  lemma {:induction false} AndHigh(a: nat, k: nat, n: nat)
    requires k <= n && a < Pow2(n)
    ensures Pow2(k) <= Pow2(n)
    ensures Bitwise(BitAnd, a, Pow2(n) - Pow2(k)) == a / Pow2(k) * Pow2(k)
  {
    if k == 0 {
      AndAllOnes(a, n);
    } else {
      assert Pow2(n) == 2 * Pow2(n - 1) && Pow2(k) == 2 * Pow2(k - 1);
      AndHigh(a / 2, k - 1, n - 1);
      AndHighStep(a, Pow2(k - 1), Pow2(n - 1));
    }
  }

  lemma AndHighStep(a: nat, p: nat, h: nat)
    requires 1 <= p <= h && Bitwise(BitAnd, a / 2, h - p) == a / 2 / p * p
    ensures Bitwise(BitAnd, a, 2 * h - 2 * p) == a / (2 * p) * (2 * p)
  {
    hide Bitwise;
    AndEven(a, h - p);
    DivDiv(a, 2, p);
    Doubled(a / 2 / p, p);
  }

  lemma Doubled(q: int, p: int)
    ensures q * (2 * p) == 2 * (q * p)
  {}

  lemma AndEven(a: nat, h: nat)
    ensures Bitwise(BitAnd, a, 2 * h) == 2 * Bitwise(BitAnd, a / 2, h)
  {
    if a != 0 || h != 0 {
      assert (2 * h) / 2 == h && (2 * h) % 2 == 0;
    }
  }

  lemma DivDiv(a: nat, b: int, c: int)
    requires b > 0 && c > 0
    ensures b * c > 0 && a / (b * c) == a / b / c
  {
    MulMono(1, b, c);
    var q, r, s := a / b / c, a / b % c, a % b;
    assert a / b == c * q + r;
    MulMono(r + 1, c, b);
    Distribute(b, c, q, r);
    ModUnique(a, b * c, q, b * r + s);
  }

  lemma Distribute(b: int, c: int, q: int, r: int)
    ensures b * (c * q + r) == q * (b * c) + b * r
    ensures (r + 1) * b == b * r + b
  {}

  /** The patched word differs from the saved one in its first byte only, which becomes the trap. */
  lemma InstrumentBytes(bs: seq<byte>)
    requires |bs| == 8
    ensures 0 <= LittleEndian(bs) < TWO64
    ensures FixedBytes(true, Instrument(LittleEndian(bs)), 8) == bs[0 := TRAP]
  {
    Fixed8Bound(true, bs);
    var w := LittleEndian(bs);
    ClearLowByte(w);
    assert bs[0 := TRAP][1..] == bs[1..];
    assert LittleEndian(bs[0 := TRAP]) == TRAP + 256 * LittleEndian(bs[1..]);
    ModUnique(w, 256, LittleEndian(bs[1..]), bs[0]);
    BytesOfValue(bs[0 := TRAP]);
  }

  lemma ClearLowByte(w: word)
    ensures Instrument(w) == w / 256 * 256 + TRAP
  {
    hide Pow2, Bitwise;
    Pow2Is64();
    Pow2Is8();
    AndHigh(w, 8, 64);
    var q := w / 256;
    OrDisjoint(TRAP, q, 8);
    OrCommutes(TRAP, q * 256);
  }

  /** Enabling changes exactly one byte of memory. */
  lemma EnablePatchesOneByte(mem: Memory, a: nat)
    ensures EnableMem(mem, a) == if InRange(mem, a) then mem[a := TRAP] else mem
  {
    if InRange(mem, a) {
      InstrumentBytes(mem[a..a + 8]);
      var m := EnableMem(mem, a);
      assert m == mem[..a] + mem[a..a + 8][0 := TRAP] + mem[a + 8..];
    }
  }

  /** Writing back a saved word restores the eight bytes that stood there when it was saved. */
  lemma PokeOfPeek(mem: Memory, old_: Memory, a: nat)
    requires |old_| == |mem|
    ensures Poke(mem, a, Peek(old_, a)) ==
            if InRange(mem, a) then mem[..a] + old_[a..a + 8] + mem[a + 8..] else mem
  {
    if InRange(mem, a) { BytesOfValue(old_[a..a + 8]); }
  }

  // ---------- the tracee and the breakpoint object ----------

  datatype Signal = TrapTrace | TrapBreakpoint | Segv

  /** The processor: the length of the instruction at an address, what executing it does, and the
      return address found one word above the frame pointer; and the program on it: where it is loaded and
      for which offsets its line tables have an entry. `D` is everything but code and pc. */
  datatype Cpu<!D> = Cpu(
    len: (Memory, nat) -> nat,
    exec: (Memory, nat, D) -> (nat, D),
    ret: D -> nat,
    load: nat,
    entry: int -> bool)

  /** The debugged process; `trace` logs the addresses of the instructions it has retired. */
  class Tracee<D> {
    const cpu: Cpu<D>
    var mem: Memory
    var pc: nat
    var data: D
    var trace: seq<nat>

    constructor (cpu: Cpu<D>, mem: Memory, pc: nat, data: D)
      ensures this.cpu == cpu && this.mem == mem && this.pc == pc && this.data == data && trace == []
    {
      this.cpu := cpu;
      this.mem := mem;
      this.pc := pc;
      this.data := data;
      trace := [];
    }
  }

  class Breakpoint<D> {
    const tracee: Tracee<D>
    const addr: nat
    var enabled: bool
    var staging: word

    constructor (tracee: Tracee<D>, addr: nat)
      ensures this.tracee == tracee && this.addr == addr && Snapshot() == Saved(false, 0)
    {
      this.tracee := tracee;
      this.addr := addr;
      enabled := false;
      staging := 0;
    }

    function Snapshot(): Saved
      reads this
    {
      Saved(enabled, staging)
    }

    method Enable()
      modifies this, tracee`mem
      ensures tracee.mem == EnableMem(old(tracee.mem), addr)
      ensures Snapshot() == Saved(true, Peek(old(tracee.mem), addr))
    {
      staging := Peek(tracee.mem, addr);
      var replaced := Instrument(staging);
      tracee.mem := Poke(tracee.mem, addr, replaced);
      enabled := true;
    }

    method Disable()
      modifies this, tracee`mem
      ensures tracee.mem == Poke(old(tracee.mem), addr, old(staging))
      ensures Snapshot() == Saved(false, old(staging))
    {
      tracee.mem := Poke(tracee.mem, addr, staging);
      enabled := false;
    }
  }
}
