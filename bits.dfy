/** Python's integer bit operators on unbounded integers: `>>`, `&` and a
    single-bit test.  Python integers behave as infinite two's-complement
    words, so a right shift is floor division by a power of two, which is
    Dafny's `/` for a positive divisor. */
module Bits {

  function Pow2(k: nat): (r: nat)
    ensures r >= 1
  {
    if k == 0 then 1 else 2 * Pow2(k - 1)
  }

  lemma {:induction false} Pow2Add(a: nat, b: nat)
    ensures Pow2(a + b) == Pow2(a) * Pow2(b)
    decreases a
  {
    if a > 0 {
      Pow2Add(a - 1, b);
    }
  }

  /** `x >> k`. */
  function Shr(x: int, k: nat): (r: int)
    ensures x >= 0 ==> 0 <= r <= x
  {
    DivShrinks(x, Pow2(k));
    x / Pow2(k)
  }

  lemma DivShrinks(x: int, d: int)
    requires d >= 1
    ensures x >= 0 ==> 0 <= x / d <= x
  {
    if x >= 0 {
      var q := x / d;
      assert x == q * d + x % d;
      if q >= 1 {
        MulAtLeast(q, d);
      }
    }
  }

  /** Bit `k` of `x`, that is `(x >> k) & 1`. */
  function Bit(x: int, k: nat): (r: nat)
    ensures r < 2
  {
    Shr(x, k) % 2
  }

  /** `a & b` on non-negative integers. */
  function And(a: nat, b: nat): (r: nat)
    decreases a
  {
    if a == 0 || b == 0 then 0
    else 2 * And(a / 2, b / 2) + (if a % 2 == 1 && b % 2 == 1 then 1 else 0)
  }

  /** Masking with `2^k - 1` keeps the `k` low-order bits. */
  lemma {:induction false} AndLowMask(a: nat, k: nat)
    ensures And(a, Pow2(k) - 1) == a % Pow2(k)
    decreases k
  {
    if k == 0 {
      AndNoMask(a);
    } else {
      AndLowMask(a / 2, k - 1);
      AndLowMaskStep(a, k);
    }
  }

  lemma AndNoMask(a: nat)
    ensures And(a, Pow2(0) - 1) == a % Pow2(0)
  {
    assert Pow2(0) == 1;
  }

  lemma AndLowMaskStep(a: nat, k: nat)
    requires k >= 1 && And(a / 2, Pow2(k - 1) - 1) == (a / 2) % Pow2(k - 1)
    ensures And(a, Pow2(k) - 1) == a % Pow2(k)
  {
    var m := Pow2(k - 1);
    assert Pow2(k) == 2 * m;
    AndOddMask(a, m, 2 * m - 1, m - 1);
  }

  /** One step of `AndLowMask`: the mask `b == 2m - 1` keeps bit 0 and
      shifts to the mask `h == m - 1`. */
  lemma AndOddMask(a: nat, m: nat, b: nat, h: nat)
    requires m >= 1 && h == m - 1 && b == 2 * m - 1
    requires And(a / 2, h) == (a / 2) % m
    ensures And(a, b) == a % (2 * m)
  {
    if a > 0 {
      DivModUnique(b, 2, h, 1);
      ModHalf(a, m);
    } else {
      DivModUnique(0, 2 * m, 0, 0);
    }
  }

  lemma MulAtLeast(k: int, d: int)
    requires k >= 1 && d >= 1
    ensures k * d >= d
  {
  }

  /** Quotient and remainder are determined by `a == q * d + r`. */
  lemma DivModUnique(a: int, d: int, q: int, r: int)
    requires d >= 1 && 0 <= r < d && a == q * d + r
    ensures a / d == q && a % d == r
  {
    var q0, r0 := a / d, a % d;
    assert a == q0 * d + r0;
    var k := q - q0;
    assert k * d == r0 - r by {
      assert q * d - q0 * d == (q - q0) * d;
    }
    if k >= 1 {
      MulAtLeast(k, d);
    } else if k <= -1 {
      MulAtLeast(-k, d);
    }
  }

  lemma ModHalf(a: nat, m: nat)
    requires m >= 1
    ensures 2 * ((a / 2) % m) + a % 2 == a % (2 * m)
  {
    var h := a / 2;
    var q := h / m;
    assert h == q * m + h % m;
    assert a == 2 * h + a % 2;
    assert a == q * (2 * m) + (2 * (h % m) + a % 2);
    DivModUnique(a, 2 * m, q, 2 * (h % m) + a % 2);
  }

  /** Masking with a single power of two tests that bit. */
  lemma {:induction false} AndPow2(a: nat, k: nat)
    ensures And(a, Pow2(k)) == Bit(a, k) * Pow2(k)
    decreases k
  {
    if k == 0 {
      AndOne(a);
    } else {
      var p := Pow2(k - 1);
      var b := Bit(a / 2, k - 1);
      AndPow2(a / 2, k - 1);
      AndEven(a, p);
      ShrHalf(a, k - 1);
      assert 2 * (b * p) == b * (2 * p);
    }
  }

  lemma {:induction false} AndComm(a: nat, b: nat)
    ensures And(a, b) == And(b, a)
    decreases a
  {
    if a != 0 && b != 0 {
      AndComm(a / 2, b / 2);
    }
  }

  /** The same, case by case: the power itself when the bit is set,
      zero otherwise. */
  lemma AndPow2Cases(a: nat, k: nat)
    ensures And(a, Pow2(k)) == if Bit(a, k) == 1 then Pow2(k) else 0
  {
    AndPow2(a, k);
    BitTimes(Bit(a, k), Pow2(k));
  }

  lemma BitTimes(b: nat, p: nat)
    requires b < 2
    ensures b * p == if b == 1 then p else 0
  {
    if b == 0 {
      assert b * p == 0;
    }
  }

  lemma AndOne(a: nat)
    ensures And(a, Pow2(0)) == Bit(a, 0) * Pow2(0)
  {
    if a > 0 {
      assert And(a / 2, 0) == 0;
    }
  }

  /** An even mask drops bit 0 and shifts. */
  lemma AndEven(a: nat, m: nat)
    requires m >= 1
    ensures And(a, 2 * m) == 2 * And(a / 2, m)
  {
    assert (2 * m) / 2 == m && (2 * m) % 2 == 0;
  }

  lemma ShrHalf(a: int, k: nat)
    ensures Shr(a / 2, k) == Shr(a, k + 1)
  {
    DivDiv(a, 2, Pow2(k));
  }

  lemma DivDiv(a: int, b: int, c: int)
    requires b >= 1 && c >= 1
    ensures a / b / c == a / (b * c)
  {
    var q, r := a / b, a % b;
    var q2, r2 := q / c, q % c;
    assert a == q * b + r;
    assert q == q2 * c + r2;
    MulDistributes(q2 * c, r2, b);
    MulRegroups(q2, c, b);
    assert a == q2 * (b * c) + (r2 * b + r);
    MulMonotone(r2, c - 1, b);
    MulDistributes(c - 1, 1, b);
    assert r2 * b + r < c * b;
    DivModUnique(a, b * c, q2, r2 * b + r);
  }

  lemma MulDistributes(x: int, y: int, b: int)
    ensures (x + y) * b == x * b + y * b
  {
  }

  lemma MulRegroups(x: int, c: int, b: int)
    ensures x * c * b == x * (b * c)
  {
  }

  lemma MulMonotone(x: int, y: int, b: int)
    requires x <= y && b >= 0
    ensures x * b <= y * b
  {
    MulDistributes(x, y - x, b);
    assert (y - x) * b >= 0;
  }

  /** Shifting by `a` then by `b` is shifting by `a + b`. */
  lemma ShrShr(x: int, a: nat, b: nat)
    ensures Shr(Shr(x, a), b) == Shr(x, a + b)
  {
    DivDiv(x, Pow2(a), Pow2(b));
    Pow2Add(a, b);
  }

  /** Bit `k` of `a & b` is set exactly when it is set in both. */
  lemma {:induction false} AndBit(a: nat, b: nat, k: nat)
    ensures Bit(And(a, b), k) == if Bit(a, k) == 1 && Bit(b, k) == 1 then 1 else 0
    decreases k
  {
    if a == 0 || b == 0 {
      assert Shr(0, k) == 0;
    } else {
      var c, h := And(a, b), And(a / 2, b / 2);
      var low := if a % 2 == 1 && b % 2 == 1 then 1 else 0;
      assert c == 2 * h + low;
      DivModUnique(c, 2, h, low);
      if k == 0 {
        assert Pow2(0) == 1;
        assert Shr(c, 0) == c && Shr(a, 0) == a && Shr(b, 0) == b;
      } else {
        AndBit(a / 2, b / 2, k - 1);
        ShrHalf(a, k - 1);
        ShrHalf(b, k - 1);
        ShrHalf(c, k - 1);
      }
    }
  }

  /** Two numbers with the same bits are equal. */
  lemma {:induction false} BitsEqual(a: nat, b: nat)
    requires forall k: nat :: Bit(a, k) == Bit(b, k)
    ensures a == b
    decreases a + b
  {
    assert Pow2(0) == 1;
    assert a % 2 == Bit(a, 0) && b % 2 == Bit(b, 0);
    if a != 0 || b != 0 {
      forall k: nat ensures Bit(a / 2, k) == Bit(b / 2, k) {
        ShrHalf(a, k);
        ShrHalf(b, k);
        assert Bit(a, k + 1) == Bit(b, k + 1);
      }
      BitsEqual(a / 2, b / 2);
    }
  }

  /** `a & b == a` says that every bit set in `a` is set in `b`. */
  lemma AndCovers(a: nat, b: nat)
    ensures And(a, b) == a <==> forall k: nat :: Bit(a, k) == 1 ==> Bit(b, k) == 1
  {
    if And(a, b) == a {
      forall k: nat | Bit(a, k) == 1 ensures Bit(b, k) == 1 {
        AndBit(a, b, k);
      }
    }
    if forall k: nat :: Bit(a, k) == 1 ==> Bit(b, k) == 1 {
      forall k: nat ensures Bit(And(a, b), k) == Bit(a, k) {
        AndBit(a, b, k);
      }
      BitsEqual(And(a, b), a);
    }
  }

  /** `x & 1` is the low-order bit. */
  lemma AndOneMod(x: nat)
    ensures And(x, 1) == x % 2
  {
    AndPow2(x, 0);
    assert Pow2(0) == 1;
  }

  /** The `k` low-order bits of `x`, added up bit by bit. */
  function LowBits(x: nat, k: nat): nat {
    if k == 0 then 0 else LowBits(x, k - 1) + Bit(x, k - 1) * Pow2(k - 1)
  }

  /** A number's low-order bits add up to its remainder by `2^k`. */
  lemma {:induction false} LowBitsMod(x: nat, k: nat)
    ensures LowBits(x, k) == x % Pow2(k)
    decreases k
  {
    if k == 0 {
      assert Pow2(0) == 1;
    } else {
      LowBitsMod(x, k - 1);
      ModDouble(x, Pow2(k - 1));
    }
  }

  /** The remainder by `2p` adds the next bit above the remainder by `p`. */
  lemma ModDouble(x: nat, p: nat)
    requires p >= 1
    ensures x % (2 * p) == x % p + ((x / p) % 2) * p
  {
    var q := x / p;
    var b := q % 2;
    assert x == q * p + x % p;
    assert q == 2 * (q / 2) + b;
    assert x == (q / 2) * (2 * p) + (b * p + x % p) by {
      assert q * p == (2 * (q / 2) + b) * p;
    }
    assert b * p <= p by {
      if b == 1 {} else { assert b == 0; }
    }
    DivModUnique(x, 2 * p, q / 2, b * p + x % p);
  }
}
