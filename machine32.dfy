/** The 32-bit `int` arithmetic both optimisation passes compute with: two's
    complement values, products and left shifts that wrap around modulo 2^32,
    logical right shifts on the unsigned reinterpretation, and bitwise `and`
    on the 32-bit patterns. */
module Machine32 {
  import opened Instructions

  const Two32: int := 0x1_0000_0000

  /** The `int` a mathematical integer wraps to: the representative of its
      class modulo 2^32 that lies in the 32-bit range. */
  function Wrap(x: int): (r: Int32)
    ensures (r - x) % Two32 == 0
    ensures MinInt32 <= x <= MaxInt32 ==> r == x
  {
    var m := (x + 0x8000_0000) % Two32;
    assert x + 0x8000_0000 == Two32 * ((x + 0x8000_0000) / Two32) + m;
    m - 0x8000_0000
  }

  /** Two 32-bit values in the same class modulo 2^32 are equal. */
  lemma WrapUnique(x: int, r: Int32)
    requires (r - x) % Two32 == 0
    ensures Wrap(x) == r
  {
    var w := Wrap(x);
    assert (w - r) % Two32 == 0 by {
      assert w - r == (w - x) - (r - x);
    }
    assert -Two32 < w - r < Two32;
  }

  /** `static_cast<unsigned int>`: the same bit pattern read as unsigned. */
  function Unsigned(x: Int32): (u: nat)
    ensures u < Two32 && (u - x) % Two32 == 0 && (x - u) % Two32 == 0
    ensures x >= 0 ==> u == x
  {
    if x < 0 then x + Two32 else x
  }

  function Pow2(k: nat): (p: nat)
    ensures p >= 1
  {
    if k == 0 then 1 else 2 * Pow2(k - 1)
  }

  /** `lhs * rhs` on `int`, wrapping where the product overflows. */
  function MulWrap(a: Int32, b: Int32): (r: Int32)
    ensures (r - a * b) % Two32 == 0
    ensures MinInt32 <= a * b <= MaxInt32 ==> r == a * b
  {
    Wrap(a * b)
  }

  /** `lhs << k` on `int` for `0 <= k < 32`: the product with 2^k, wrapped. */
  function ShlWrap(a: Int32, k: nat): (r: Int32)
    requires k < 32
    ensures (r - a * Pow2(k)) % Two32 == 0
    ensures MinInt32 <= a * Pow2(k) <= MaxInt32 ==> r == a * Pow2(k)
  {
    Wrap(a * Pow2(k))
  }

  /** `static_cast<unsigned int>(lhs) >> k` stored back into an `int`: a
      shift by at least one gives the non-negative quotient of the unsigned
      reading by 2^k; a shift by zero gives `a` back. */
  function ShrLogical(a: Int32, k: nat): (r: Int32)
    requires k < 32
    ensures k >= 1 ==> r >= 0 && r == Unsigned(a) / Pow2(k)
    ensures k == 0 ==> r == a
    ensures a >= 0 ==> r == a / Pow2(k)
  {
    var q := Unsigned(a) / Pow2(k);
    QuotientFits(a, k);
    assert k >= 1 ==> Wrap(q) == q;
    Wrap(q)
  }

  lemma QuotientFits(a: Int32, k: nat)
    ensures 0 <= Unsigned(a) / Pow2(k) && (k >= 1 ==> Unsigned(a) / Pow2(k) <= MaxInt32)
    ensures k == 0 ==> Wrap(Unsigned(a) / Pow2(k)) == a
  {
    var u, d := Unsigned(a), Pow2(k);
    if k >= 1 {
      assert d == 2 * Pow2(k - 1);
      DivByAtLeastTwo(u, d);
    } else {
      assert d == 1;
      WrapUnique(u, a);
    }
  }

  lemma DivByAtLeastTwo(u: nat, d: nat)
    requires d >= 2 && u < Two32
    ensures 0 <= u / d <= MaxInt32
  {
    var q, m := u / d, u % d;
    assert u == d * q + m && 0 <= m < d;
    MulAtLeast(d, q);
  }

  /** `d` copies of `q` weigh at least two copies and at least `d`. */
  lemma {:induction false} MulAtLeast(d: nat, q: nat)
    requires d >= 2
    ensures d * q >= 2 * q && (q >= 1 ==> d * q >= d)
    decreases d
  {
    if d > 2 {
      MulAtLeast(d - 1, q);
      assert d * q == (d - 1) * q + q;
    }
  }

  /** Bitwise `and` of two non-negative integers, one binary digit at a time
      from the lowest. */
  function AndNat(x: nat, y: nat): (r: nat)
    decreases x
  {
    if x == 0 || y == 0 then 0
    else 2 * AndNat(x / 2, y / 2) + (if x % 2 == 1 && y % 2 == 1 then 1 else 0)
  }

  /** `lhs & rhs` on `int`: the bitwise and of the two 32-bit patterns. */
  function AndBits(a: Int32, b: Int32): (r: Int32)
    ensures (r - AndNat(Unsigned(a), Unsigned(b))) % Two32 == 0
  {
    Wrap(AndNat(Unsigned(a), Unsigned(b)))
  }
  /** `std::to_string` of an int. */
  function DecimalString(x: int): (s: string)
    ensures s != []
  {
    if x < 0 then "-" + Digits(-x) else Digits(x)
  }

  function Digits(n: nat): (s: string)
    ensures s != []
    decreases n
  {
    if n < 10 then [DigitChar(n)] else Digits(n / 10) + [DigitChar(n % 10)]
  }

  function DigitChar(d: nat): char
    requires d < 10
  {
    "0123456789"[d]
  }

  lemma {:induction false} AndNatBelow(x: nat, y: nat)
    ensures AndNat(x, y) <= x && AndNat(x, y) <= y
    decreases x
  {
    if x != 0 && y != 0 {
      AndNatBelow(x / 2, y / 2);
    }
  }

  lemma {:induction false} AndNatSymmetric(x: nat, y: nat)
    ensures AndNat(x, y) == AndNat(y, x)
    decreases x
  {
    if x != 0 && y != 0 {
      AndNatSymmetric(x / 2, y / 2);
    }
  }

  lemma {:induction false} AndNatSelf(x: nat)
    ensures AndNat(x, x) == x
    decreases x
  {
    if x != 0 {
      AndNatSelf(x / 2);
    }
  }

  /** Anding with `n` one bits keeps any value of at most `n` bits. */
  lemma {:induction false} AndNatOnes(x: nat, n: nat)
    requires x < Pow2(n)
    ensures AndNat(x, Pow2(n) - 1) == x
    decreases n
  {
    if x != 0 {
      assert n >= 1;
      assert (Pow2(n) - 1) / 2 == Pow2(n - 1) - 1 && (Pow2(n) - 1) % 2 == 1;
      AndNatOnes(x / 2, n - 1);
    }
  }

  lemma {:induction false} Pow2Increasing(a: nat, b: nat)
    requires a < b
    ensures Pow2(a) < Pow2(b)
    decreases b
  {
    if a < b - 1 {
      Pow2Increasing(a, b - 1);
    }
  }

  lemma {:induction false} Pow2Add(a: nat, b: nat)
    ensures Pow2(a + b) == Pow2(a) * Pow2(b)
    decreases a
  {
    if a > 0 {
      Pow2Add(a - 1, b);
    }
  }

  lemma Pow2Of31()
    ensures Pow2(31) == 0x8000_0000 && Pow2(32) == Two32
  {
    assert Pow2(4) == 16;
    Pow2Add(4, 4);
    Pow2Add(8, 8);
    Pow2Add(16, 15);
    Pow2Add(16, 16);
  }

  /** The bitwise facts the peephole rules rely on: `and` with 0 gives 0,
      with -1 (all ones) gives the other operand, with itself gives itself,
      and the order of the operands does not matter. */
  lemma AndFacts(a: Int32, b: Int32)
    ensures AndBits(a, 0) == 0 && AndBits(0, b) == 0
    ensures AndBits(a, -1) == a && AndBits(-1, b) == b
    ensures AndBits(a, a) == a
    ensures AndBits(a, b) == AndBits(b, a)
  {
    AndAllOnes(a);
    AndAllOnes(b);
    AndSelf(a);
    AndNatSymmetric(Unsigned(a), Unsigned(b));
  }

  lemma AndAllOnes(a: Int32)
    ensures AndBits(a, -1) == a && AndBits(-1, a) == a
  {
    var u := Unsigned(a);
    assert AndNat(u, Unsigned(-1)) == u by {
      Pow2Of31();
      AndNatOnes(u, 32);
    }
    assert AndNat(Unsigned(-1), u) == u by {
      AndNatSymmetric(Unsigned(-1), u);
    }
    assert Wrap(u) == a by {
      WrapUnique(u, a);
    }
  }

  lemma AndSelf(a: Int32)
    ensures AndBits(a, a) == a
  {
    AndNatSelf(Unsigned(a));
    WrapUnique(Unsigned(a), a);
  }
}
