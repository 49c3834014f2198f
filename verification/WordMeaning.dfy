/** What the stack machine's operators mean: arithmetic modulo 2^64 on the signed readings, logic bit by bit. */
module WordMeaning {
  import opened Words
  import opened Expressions

  ghost predicate Congruent(x: int, y: int) { (x - y) % TWO64 == 0 }

  lemma CongruentBy(x: int, y: int, k: int)
    requires x == y + k * TWO64
    ensures Congruent(x, y)
  {
    ModOfMultiple(k, TWO64);
  }

  lemma Quotient(x: int, y: int) returns (k: int)
    requires Congruent(x, y)
    ensures x == y + k * TWO64
  {
    k := (x - y) / TWO64;
  }

  lemma ReadingsAgree(w: word)
    ensures Congruent(ToSigned(w), w) && Congruent(w, ToSigned(w))
  {
    CongruentBy(ToSigned(w), w, if w < TWO63 then 0 else -1);
    CongruentBy(w, ToSigned(w), if w < TWO63 then 0 else 1);
  }

  lemma WrapAgrees(z: int)
    ensures Congruent(Wrap(z), z)
  {
    CongruentBy(Wrap(z), z, -(z / TWO64));
  }

  lemma Chain(x: int, y: int, z: int)
    requires Congruent(x, y) && Congruent(y, z)
    ensures Congruent(x, z)
  {
    var j := Quotient(x, y);
    var k := Quotient(y, z);
    CongruentBy(x, z, j + k);
  }

  function Signed(op: BinOp, x: int, y: int): int
    requires op in {Plus, Minus, Mul}
  {
    match op case Plus => x + y case Minus => x - y case _ => x * y
  }

  lemma SignedKeeps(op: BinOp, x: int, y: int, x': int, y': int)
    requires op in {Plus, Minus, Mul} && Congruent(x, x') && Congruent(y, y')
    ensures Congruent(Signed(op, x, y), Signed(op, x', y'))
  {
    hide Congruent;
    var j := Quotient(x, x');
    var k := Quotient(y, y');
    match op {
      case Plus => CongruentBy(x + y, x' + y', j + k);
      case Minus => CongruentBy(x - y, x' - y', j - k);
      case _ =>
        Product(x', j, y', k);
        CongruentBy(x * y, x' * y', x' * k + j * y' + j * k * TWO64);
    }
  }

  lemma Product(a: int, j: int, b: int, k: int)
    ensures (a + j * TWO64) * (b + k * TWO64) == a * b + (a * k + j * b + j * k * TWO64) * TWO64
  {
    var n: int := TWO64;
    MulAssoc(j, n, b);
    assert (a + j * n) * (b + k * n) == a * b + a * (k * n) + (j * n) * b + (j * n) * (k * n);
    MulAssoc(a, k, n);
    MulAssoc(j * n, k, n);
    assert (j * n) * k == (j * k) * n;
    assert (j * n) * b == (j * b) * n;
    assert (a * k + j * b + j * k * n) * n == (a * k) * n + (j * b) * n + (j * k * n) * n;
  }

  /** plus, minus and mul are signed arithmetic up to a multiple of 2^64, neg negates up to one, and abs
      is the absolute value except for the most negative number, which it keeps. */
  lemma ArithmeticIsModular(a: word, b: word)
    ensures forall op :: op in {Plus, Minus, Mul} ==>
      Congruent(ToSigned(Binary(op, a, b)), Signed(op, ToSigned(a), ToSigned(b)))
    ensures Congruent(ToSigned(Unary(Neg, a)), -ToSigned(a))
    ensures var z := ToSigned(a); ToSigned(Unary(Abs, a)) == if z == -TWO63 then z else if z < 0 then -z else z
  {
    forall op | op in {Plus, Minus, Mul}
      ensures Congruent(ToSigned(Binary(op, a, b)), Signed(op, ToSigned(a), ToSigned(b)))
    {
      ModularOne(op, a, b);
    }
    NegIsModular(a);
  }

  lemma ModularOne(op: BinOp, a: word, b: word)
    requires op in {Plus, Minus, Mul}
    ensures Congruent(ToSigned(Binary(op, a, b)), Signed(op, ToSigned(a), ToSigned(b)))
  {
    hide Congruent, ToSigned;
    var r := Binary(op, a, b);
    assert r == Wrap(Signed(op, a, b));
    ReadingsAgree(r);
    ReadingsAgree(a);
    ReadingsAgree(b);
    WrapAgrees(Signed(op, a, b));
    Chain(ToSigned(r), r, Signed(op, a, b));
    SignedKeeps(op, a, b, ToSigned(a), ToSigned(b));
    Chain(ToSigned(r), Signed(op, a, b), Signed(op, ToSigned(a), ToSigned(b)));
  }

  lemma NegIsModular(a: word)
    ensures Congruent(ToSigned(Negate(a)), -ToSigned(a))
  {
    CongruentBy(ToSigned(Negate(a)), -ToSigned(a), if a == TWO63 then -1 else 0);
  }

  // ---------- bits ----------

  /** Bit `k` of a number. */
  predicate BitAt(n: nat, k: nat) { if k == 0 then n % 2 == 1 else BitAt(n / 2, k - 1) }

  lemma {:induction false} NoBits(k: nat)
    ensures !BitAt(0, k)
  {
    if k > 0 { NoBits(k - 1); }
  }

  lemma {:induction false} BitwiseBit(op: BitOp, a: nat, b: nat, k: nat)
    ensures BitAt(Bitwise(op, a, b), k) == OnBits(op, BitAt(a, k), BitAt(b, k))
    decreases k
  {
    if a == 0 && b == 0 {
      NoBits(k);
    } else if k > 0 {
      BitwiseBit(op, a / 2, b / 2, k - 1);
      assert Bitwise(op, a, b) / 2 == Bitwise(op, a / 2, b / 2);
    }
  }

  lemma {:induction false} ShiftedUp(x: nat, n: nat, k: nat)
    ensures BitAt(x * Pow2(n), k) == (k >= n && BitAt(x, k - n))
    decreases n
  {
    if n > 0 {
      var h := x * Pow2(n - 1);
      assert x * Pow2(n) == 2 * h;
      if k > 0 { ShiftedUp(x, n - 1, k - 1); }
    }
  }

  lemma {:induction false} ShiftedDown(x: nat, n: nat, k: nat)
    ensures x / Pow2(n) >= 0 && BitAt(x / Pow2(n), k) == BitAt(x, k + n)
    decreases n
  {
    ShrBound(x, n);
    if n > 0 {
      ShiftedDown(x / 2, n - 1, k);
      HalvesFirst(x, n);
    }
  }

  lemma HalvesFirst(x: nat, n: nat)
    requires n > 0
    ensures x / Pow2(n) == x / 2 / Pow2(n - 1)
  {
    var p := Pow2(n - 1);
    var q, r := x / 2 / p, x / 2 % p;
    assert x == 2 * (p * q + r) + x % 2;
    MulAssoc(q, 2, p);
    ModUnique(x, 2 * p, q, 2 * r + x % 2);
  }

  lemma {:induction false} CutBits(x: nat, n: nat, k: nat)
    ensures x % Pow2(n) >= 0 && BitAt(x % Pow2(n), k) == (k < n && BitAt(x, k))
    decreases n
  {
    if n == 0 {
      NoBits(k);
    } else {
      var p := Pow2(n - 1);
      var q, r := x / 2 / p, x / 2 % p;
      assert x == 2 * (p * q + r) + x % 2;
      MulAssoc(q, 2, p);
      ModUnique(x, 2 * p, q, 2 * r + x % 2);
      if k > 0 { CutBits(x / 2, n - 1, k - 1); }
    }
  }

  /** and, or, xor and not work on each bit alone; the shifts move every bit, filling with zeros and
      dropping what leaves the word, for any distance. */
  lemma LogicIsBitByBit(a: word, b: word, k: nat)
    requires k < 64
    ensures BitAt(Binary(And, a, b), k) == (BitAt(a, k) && BitAt(b, k))
    ensures BitAt(Binary(Or, a, b), k) == (BitAt(a, k) || BitAt(b, k))
    ensures BitAt(Binary(Xor, a, b), k) == (BitAt(a, k) != BitAt(b, k))
    ensures BitAt(Unary(Not, a), k) == !BitAt(a, k)
    ensures BitAt(Binary(Shl_, a, b), k) == (k >= b && BitAt(a, k - b))
    ensures BitAt(Binary(Shr_, a, b), k) == (k + b < 64 && BitAt(a, k + b))
  {
    BitwiseBit(BitAnd, a, b, k);
    BitwiseBit(BitOr, a, b, k);
    BitwiseBit(BitXor, a, b, k);
    Flipped(a, k);
    ShiftBits(a, b, k);
  }

  lemma Flipped(a: word, k: nat)
    requires k < 64
    ensures BitAt(TWO64 - 1 - a, k) == !BitAt(a, k)
  {
    hide Pow2;
    Pow2Is64();
    FlippedBelow(a, 64, k);
  }

  lemma {:induction false} FlippedBelow(a: nat, n: nat, k: nat)
    requires a < Pow2(n) && k < n
    ensures BitAt(Pow2(n) - 1 - a, k) == !BitAt(a, k)
    decreases n
  {
    assert (Pow2(n) - 1 - a) / 2 == Pow2(n - 1) - 1 - a / 2;
    if k > 0 { FlippedBelow(a / 2, n - 1, k - 1); }
  }

  lemma ShiftBits(a: word, b: word, k: nat)
    requires k < 64
    ensures BitAt(Binary(Shl_, a, b), k) == (k >= b && BitAt(a, k - b))
    ensures BitAt(Binary(Shr_, a, b), k) == (k + b < 64 && BitAt(a, k + b))
  {
    hide Pow2, BitAt;
    NoBits(k);
    Pow2Is64();
    if b < 64 {
      ShiftedUp(a, b, k);
      CutBits(a * Pow2(b), 64, k);
      ShiftedDown(a, b, k);
    }
    ModUnique(a, TWO64, 0, a);
    CutBits(a, 64, k + b);
  }
}
