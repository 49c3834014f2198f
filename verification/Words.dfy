/** 64-bit machine words as integers, with the shifts and bitwise operators the program uses. */
module Words {
  type byte = n: int | 0 <= n < 256

  const TWO64: int := 0x1_0000_0000_0000_0000
  const TWO63: int := 0x8000_0000_0000_0000
  const TWO32: int := 0x1_0000_0000

  type word = n: int | 0 <= n < 0x1_0000_0000_0000_0000

  datatype Error =
    | Underflow          // underflow_error: read past the end of a section
    | FormatError        // format_error
    | LogicError         // logic_error
    | TypeMismatch       // value_type_mismatch
    | OutOfRange         // out_of_range
    | ExprError          // expr_error
    | NotImplemented     // runtime_error, "not implemented"
    | Undefined          // C++ gives the operation no meaning (division by zero, a read outside the section)
    | NoEnd              // a loop or a recursion that never comes to its end

  datatype Result<+T> = Ok(value: T) | Err(error: Error) {
    predicate IsFailure() { Err? }

    function PropagateFailure<U>(): Result<U>
      requires Err?
    {
      Err(error)
    }

    function Extract(): T
      requires Ok?
    {
      value
    }
  }

  datatype Option<+T> = None | Some(value: T)

  function Pow2(k: nat): (p: nat)
    ensures p >= 1
  {
    if k == 0 then 1 else 2 * Pow2(k - 1)
  }

  lemma {:induction false} Pow2Add(a: nat, b: nat)
    ensures Pow2(a + b) == Pow2(a) * Pow2(b)
  {
    if a > 0 {
      Pow2Add(a - 1, b);
      assert Pow2(a + b) == 2 * Pow2((a - 1) + b);
    }
  }

  lemma Pow2Is8()
    ensures Pow2(8) == 256 && Pow2(7) == 128
  {
  }

  lemma Pow2Is32()
    ensures Pow2(32) == TWO32 && Pow2(16) == 0x1_0000 && Pow2(1) == 2
  {
    Pow2Is8();
    assert Pow2(1) == 2;
    hide Pow2;
    Pow2Add(8, 8);
    Pow2Add(16, 16);
  }

  lemma Pow2Is64()
    ensures Pow2(64) == TWO64 && Pow2(63) == TWO63
  {
    hide Pow2;
    Pow2Is32();
    Pow2Add(32, 32);
    Pow2Add(63, 1);
  }

  /** Two's complement: the signed reading of a 64-bit word, and back. */
  function ToSigned(w: word): (z: int)
    ensures -TWO63 <= z < TWO63
  {
    if w < TWO63 then w else w - TWO64
  }

  function Wrap(z: int): word { z % TWO64 }

  /** The word `x << k`: bits pushed past bit 63 are lost. */
  function Shl(x: word, k: nat): word { x * Pow2(k) % TWO64 }

  function Negate(x: word): word { if x == 0 then 0 else TWO64 - x }

  function Shr(x: word, k: nat): word
  {
    ShrBound(x, k);
    x / Pow2(k)
  }

  lemma ShrBound(x: nat, k: nat)
    ensures 0 <= x / Pow2(k) <= x
  {
    DivBound(x, Pow2(k));
  }

  lemma DivBound(x: nat, p: int)
    requires p >= 1
    ensures 0 <= x / p <= x
  {
    MulMono(1, p, x / p);
  }

  datatype BitOp = BitAnd | BitOr | BitXor

  function OnBits(op: BitOp, p: bool, q: bool): bool
  {
    match op
    case BitAnd => p && q
    case BitOr => p || q
    case BitXor => p != q
  }

  /** `a op b`, bit by bit. */
  function Bitwise(op: BitOp, a: nat, b: nat): (r: nat)
    decreases a + b
  {
    if a == 0 && b == 0 then 0
    else 2 * Bitwise(op, a / 2, b / 2) + if OnBits(op, a % 2 == 1, b % 2 == 1) then 1 else 0
  }

  lemma {:induction false} BitwiseBound(op: BitOp, a: nat, b: nat, k: nat)
    requires a < Pow2(k) && b < Pow2(k)
    ensures Bitwise(op, a, b) < Pow2(k)
  {
    if k > 0 {
      BitwiseBound(op, a / 2, b / 2, k - 1);
    }
  }

  function Bits(op: BitOp, a: word, b: word): word
  {
    Pow2Is64();
    BitwiseBound(op, a, b, 64);
    Bitwise(op, a, b)
  }

  lemma {:induction false} OrZero(a: nat)
    ensures Bitwise(BitOr, a, 0) == a && Bitwise(BitOr, 0, a) == a
  {
    if a > 0 { OrZero(a / 2); }
  }

  /** OR of two numbers that share no bit is their sum. */
  lemma {:induction false} OrDisjoint(a: nat, b: nat, k: nat)
    requires a < Pow2(k)
    ensures Bitwise(BitOr, a, b * Pow2(k)) == a + b * Pow2(k)
  {
    var c := b * Pow2(k);
    if k == 0 {
      OrZero(b);
    } else {
      var h := b * Pow2(k - 1);
      assert c == 2 * h by { assert Pow2(k) == 2 * Pow2(k - 1); }
      OrDisjoint(a / 2, b, k - 1);
      if a != 0 || c != 0 {
        assert c / 2 == h && c % 2 == 0;
      }
    }
  }

  lemma {:induction false} OrCommutes(a: nat, b: nat)
    ensures Bitwise(BitOr, a, b) == Bitwise(BitOr, b, a)
    decreases a + b
  {
    if a != 0 || b != 0 { OrCommutes(a / 2, b / 2); }
  }

  lemma Pow2Below(a: nat, b: nat)
    requires a < b
    ensures Pow2(a) < Pow2(b)
  {
    Pow2Add(b - a, a);
    assert Pow2(b - a) >= 2;
    MulMono(2, Pow2(b - a), Pow2(a));
  }

  /** A number below 2^k plus a multiple of 2^k that fits in n bits still fits in n bits. */
  lemma SumOfDisjoint(a: nat, m: nat, k: nat, n: nat)
    requires a < Pow2(k) && m * Pow2(k) < Pow2(n) && k <= n
    ensures a + m * Pow2(k) < Pow2(n)
  {
    Pow2Add(n - k, k);
    SumFits(a, m, Pow2(k), Pow2(n - k));
  }

  lemma SumFits(a: nat, m: nat, p: nat, q: nat)
    requires a < p && m * p < q * p
    ensures a + m * p < q * p
  {
    if m >= q { MulMono(q, m, p); }
    assert (m + 1) * p == m * p + p;
    MulMono(m + 1, q, p);
  }

  /** A word shifted left by `k` bits is a multiple of 2^k even after the high bits are dropped. */
  lemma ShlMultiple(x: word, k: nat) returns (m: nat)
    ensures Shl(x, k) == m * Pow2(k)
    ensures k >= 64 ==> m == 0
  {
    Pow2Is64();
    if k >= 64 {
      Pow2Add(k - 64, 64);
      MulAssoc(x, Pow2(k - 64), TWO64);
      ModOfMultiple(x * Pow2(k - 64), TWO64);
      m := 0;
    } else {
      Pow2Add(64 - k, k);
      m := RemainderOfMultiple(x, Pow2(k), Pow2(64 - k));
    }
  }

  lemma MulAssoc(a: int, b: int, c: int)
    ensures a * (b * c) == (a * b) * c
  {}

  lemma MulPred(a: int, b: int)
    ensures (a - 1) * b == a * b - b
  {}

  lemma MulMono(a: int, b: int, c: int)
    requires a <= b && c >= 0
    ensures a * c <= b * c && c * a <= c * b
  {
    assert (b - a) * c >= 0;
  }

  lemma DivLess(n: nat, a: int, p: int)
    requires a > 0 && n < a * p
    ensures n / a < p
  {
    if n / a >= p { MulMono(p, n / a, a); }
  }

  lemma RemainderOfMultiple(x: nat, p: nat, q: nat) returns (m: nat)
    requires p >= 1 && q >= 1
    ensures q * p >= 1
    ensures (x * p) % (q * p) == m * p
  {
    m := x % q;
    MulMono(1, p, q);
    calc {
      x * p;
      (q * (x / q) + m) * p;
      (x / q) * (q * p) + m * p;
    }
    MulMono(m + 1, q, p);
    ModUnique(x * p, q * p, x / q, m * p);
  }

  lemma ModOfMultiple(a: int, n: int)
    requires n > 0
    ensures (a * n) % n == 0
  {
    ModUnique(a * n, n, a, 0);
  }

  /** The quotient and remainder are the only ones that fit. */
  lemma ModUnique(x: int, n: int, q: int, r: int)
    requires n > 0 && x == q * n + r && 0 <= r < n
    ensures x / n == q && x % n == r
  {
    var d, s := x / n, x % n;
    assert x == d * n + s && 0 <= s < n;
    assert (d + 1) * n == d * n + n;
    assert (q + 1) * n == q * n + n;
    if q > d {
      MulMono(d + 1, q, n);
    } else if q < d {
      MulMono(q + 1, d, n);
    }
  }

  lemma ModAddMultiple(x: int, k: int, n: int)
    requires n > 0
    ensures (x + k * n) % n == x % n
  {
    ModUnique(x + k * n, n, x / n + k, x % n);
  }

  /** Wrapping an operand first does not change a wrapped sum. */
  lemma ModAddMod(a: int, b: int, n: int)
    requires n > 0
    ensures (a + b % n) % n == (a + b) % n
  {
    assert a + b % n == (a + b) + (-(b / n)) * n;
    ModAddMultiple(a + b, -(b / n), n);
  }
}
