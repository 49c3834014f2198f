/** A growable array that keeps its first `Min` elements inside the object. */
module SmallVectors {
  import opened Words

  /** The first doubling of `target` that holds `n` elements. */
  function Grown(target: nat, n: nat): (c: nat)
    requires target > 0
    ensures c >= n && c >= target
    ensures target < n ==> c >= 2 * target
    decreases n - target
  {
    if target >= n then target else Grown(2 * target, n)
  }

  function Capacity(cap: nat, n: nat): nat {
    if n <= cap then cap else Grown(if cap == 0 then 1 else cap, n)
  }

  /** Capacities are the inline size, or a power of two times it (times one, when that is nothing). */
  ghost predicate Doubled(min: nat, cap: nat) {
    cap == min || exists k :: cap == (if min == 0 then 1 else min) * Pow2(k)
  }

  lemma {:induction false} GrownDoubles(unit: nat, k: nat, n: nat)
    requires unit > 0 && unit * Pow2(k) > 0
    ensures exists j :: Grown(unit * Pow2(k), n) == unit * Pow2(j)
    decreases n - unit * Pow2(k)
  {
    if unit * Pow2(k) < n {
      MulAssoc(unit, 2, Pow2(k));
      MulAssoc(2, unit, Pow2(k));
      assert unit * Pow2(k + 1) == 2 * (unit * Pow2(k));
      GrownDoubles(unit, k + 1, n);
    }
  }

  lemma CapacityDoubles(min: nat, cap: nat, n: nat)
    requires Doubled(min, cap)
    ensures Doubled(min, Capacity(cap, n))
  {
    if n > cap {
      var unit := if min == 0 then 1 else min;
      var k: nat := 0;
      if cap != min { k :| cap == unit * Pow2(k); }
      assert Pow2(0) == 1;
      var target := if cap == 0 then 1 else cap;
      if cap == 0 { if cap != min { MulMono(1, unit, Pow2(k)); } k := 0; }
      assert target == unit * Pow2(k);
      GrownDoubles(unit, k, n);
    }
  }

  class SmallVector<T(0)> {
    const min: nat
    const buf: array<T>     // the storage inside the object
    var base: array<T>      // `buf`, or a heap block
    var end: nat
    var copies: nat         // elements moved by reallocations

    ghost predicate Valid()
      reads this
    {
      && buf.Length == min && end <= base.Length
      && min <= base.Length && copies <= base.Length - min
      && Doubled(min, base.Length) && (base != buf ==> base.Length > min)
    }

    function Contents(): seq<T>
      requires end <= base.Length
      reads this, base
    {
      base[..end]
    }

    constructor (min: nat)
      ensures Valid() && this.min == min && fresh(buf) && base == buf && Contents() == [] && copies == 0
    {
      this.min := min;
      buf := new T[min];
      base := buf;
      end := 0;
      copies := 0;
    }

    method Reserve(n: nat)
      requires Valid()
      modifies this`base, this`end, this`copies
      ensures Valid() && Contents() == old(Contents()) && end == old(end)
      ensures base.Length == Capacity(old(base.Length), n)
      ensures copies == old(copies) + if n > old(base.Length) then old(end) else 0
      ensures if n > old(base.Length) then fresh(base) else base == old(base)
    {
      if n <= base.Length { return; }
      CapacityDoubles(min, base.Length, n);
      var target := base.Length;
      if target == 0 { target := 1; }
      while target < n
        invariant target > 0 && Grown(target, n) == Capacity(base.Length, n)
        decreases n - target
      {
        target := 2 * target;
      }
      var newbuf := new T[target];
      var i := 0;
      while i < end
        invariant 0 <= i <= end && newbuf[..i] == base[..i]
        modifies newbuf
      {
        newbuf[i] := base[i];
        i := i + 1;
      }
      copies := copies + end;
      base := newbuf;
    }

    method PushBack(x: T)
      requires Valid()
      modifies this`base, this`end, this`copies, base
      ensures Valid() && Contents() == old(Contents()) + [x] && (base == old(base) || fresh(base))
      ensures base.Length == Capacity(old(base.Length), old(end) + 1)
      ensures copies == old(copies) + if old(end) == old(base.Length) then old(end) else 0
    {
      Reserve(end + 1);
      base[end] := x;
      end := end + 1;
    }

    /** Whether growing by one would free the block that the elements are in. */
    predicate Frees()
      reads this
    {
      end == base.Length && base != buf
    }

    /** `push_back(revat(n))`: the argument refers into the vector's own storage, and by the time it is
        copied that storage may have been freed. */
    method PushRevAt(n: nat) returns (r: Result<()>)
      requires Valid() && n < end
      modifies this`base, this`end, this`copies, base
      ensures Valid() && (base == old(base) || fresh(base))
      ensures r == if old(Frees()) then Err(Undefined) else Ok(())
      ensures Contents() == old(Contents()) + if r.Ok? then [old(RevAt(n))] else []
      ensures base.Length == Capacity(old(base.Length), end)
    {
      if Frees() { return Err(Undefined); }
      PushBack(RevAt(n));
      return Ok(());
    }

    method PopBack()
      requires Valid() && end > 0
      modifies this`end
      ensures Valid() && Contents() == old(Contents())[..old(end) - 1]
    {
      end := end - 1;
    }

    method Clear()
      requires Valid()
      modifies this`end
      ensures Valid() && Contents() == []
    {
      end := 0;
    }

    function Size(): nat reads this { end }

    predicate Empty() reads this { end == 0 }

    /** `revat(n)`: the n-th element from the back. */
    function RevAt(n: nat): T
      requires n < end <= base.Length
      reads this, base
      ensures RevAt(n) == Contents()[|Contents()| - 1 - n]
    {
      base[end - 1 - n]
    }

    function Back(): T
      requires 0 < end <= base.Length
      reads this, base
      ensures Back() == Contents()[|Contents()| - 1]
    {
      base[end - 1]
    }

    /** Assigning through the reference that `revat(n)` returns. */
    method SetRevAt(n: nat, x: T)
      requires Valid() && n < end
      modifies base
      ensures Valid() && Contents() == old(Contents())[old(end) - 1 - n := x]
    {
      base[end - 1 - n] := x;
    }

    /** `operator=`: the contents become those of the vector assigned, which may be this one. */
    method Assign(o: SmallVector<T>)
      requires Valid() && o.Valid() && (o == this || base != o.base)
      modifies this`base, this`end, this`copies, base
      ensures Valid() && Contents() == old(o.Contents()) && (base == old(base) || fresh(base))
    {
      hide Doubled;
      var osize := o.end;
      ghost var s := o.Contents();
      Clear();
      Reserve(osize);
      var i := 0;
      while i < osize
        invariant 0 <= i <= osize && forall k :: 0 <= k < i ==> base[k] == s[k]
        invariant forall k :: 0 <= k < osize ==> o.base[k] == s[k]
        modifies base
      {
        base[i] := o.base[i];
        i := i + 1;
      }
      end := osize;
    }

    /** The move constructor: inline elements are copied, a heap block changes hands. */
    constructor Move(o: SmallVector<T>)
      requires o.Valid()
      modifies o`base, o`end, o`copies
      ensures Valid() && o.Valid() && min == o.min
      ensures Contents() == old(o.Contents()) && o.Contents() == [] && o.base == o.buf
      ensures fresh(base) || base == old(o.base)
    {
      min := o.min;
      buf := new T[o.min];
      base := buf;
      end := 0;
      copies := 0;
      new;
      if o.base == o.buf {
        var i := 0;
        while i < o.end
          invariant 0 <= i <= o.end && base[..i] == o.base[..i]
          modifies base
        {
          base[i] := o.base[i];
          i := i + 1;
        }
        end := o.end;
        o.end := 0;
        o.copies := 0;
      } else {
        base := o.base;
        end := o.end;
        copies := o.copies;
        o.base := o.buf;
        o.end := 0;
        o.copies := 0;
      }
    }
  }

  // ---------- the cost of pushing ----------

  /** The capacity after, and the elements moved by, `n` pushes into a fresh vector. */
  function CapacityAfter(min: nat, n: nat): nat {
    if n == 0 then min else Capacity(CapacityAfter(min, n - 1), n)
  }

  function CopiesAfter(min: nat, n: nat): nat {
    if n == 0 then 0
    else CopiesAfter(min, n - 1) + if n - 1 == CapacityAfter(min, n - 1) then n - 1 else 0
  }

  /** The capacity stays below twice the size once it has grown, and every reallocation moved half of
      the capacity it left behind. */
  lemma {:induction false} PushesSoFar(min: nat, n: nat)
    ensures CapacityAfter(min, n) >= n && CapacityAfter(min, n) >= min
    ensures CapacityAfter(min, n) == min || CapacityAfter(min, n) < 2 * n
    ensures CopiesAfter(min, n) <= CapacityAfter(min, n) - min
  {
    if n > 0 {
      PushesSoFar(min, n - 1);
      var cap := CapacityAfter(min, n - 1);
      if n > cap {
        assert cap == n - 1;
        if cap > 0 { assert Grown(2 * cap, n) == 2 * cap; } else { assert Grown(1, 1) == 1; }
      }
    }
  }

  /** n pushes from empty move fewer than 2n elements in all. */
  lemma PushesAreLinear(min: nat, n: nat)
    requires n > 0
    ensures CopiesAfter(min, n) < 2 * n
  {
    PushesSoFar(min, n);
  }

  /** The bound is met in practice by the vector itself. */
  method PushMany<T(0)>(min: nat, xs: seq<T>) returns (v: SmallVector<T>)
    ensures v.Valid() && v.Contents() == xs && v.base.Length == CapacityAfter(min, |xs|)
    ensures v.copies == CopiesAfter(min, |xs|)
  {
    v := new SmallVector<T>(min);
    for i := 0 to |xs|
      invariant fresh(v) && fresh(v.base) && v.Valid() && v.Contents() == xs[..i]
      invariant v.base.Length == CapacityAfter(min, i) && v.copies == CopiesAfter(min, i)
    {
      v.PushBack(xs[i]);
    }
    assert xs[..|xs|] == xs;
  }
}
