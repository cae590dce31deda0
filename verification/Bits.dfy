/** Bitwise operations on natural numbers, and how they act modulo powers of two. */
module Bits {

  function Pow2(k: nat): (p: nat)
    ensures p > 0
  {
    if k == 0 then 1 else 2 * Pow2(k - 1)
  }

  function Xor(a: nat, b: nat): nat
    decreases a + b
  {
    if a == 0 && b == 0 then 0 else (a % 2 + b % 2) % 2 + 2 * Xor(a / 2, b / 2)
  }

  function And(a: nat, b: nat): nat {
    if a == 0 || b == 0 then 0 else (a % 2) * (b % 2) + 2 * And(a / 2, b / 2)
  }

  function Or(a: nat, b: nat): nat
    decreases a + b
  {
    if a == 0 && b == 0 then 0
    else (if a % 2 == 0 && b % 2 == 0 then 0 else 1) + 2 * Or(a / 2, b / 2)
  }

  function Shr(v: nat, s: nat): nat {
    if s == 0 then v else Shr(v / 2, s - 1)
  }

  predicate BitAt(v: nat, i: nat) {
    if i == 0 then v % 2 == 1 else BitAt(v / 2, i - 1)
  }

  // ---- powers of two ---------------------------------------------------------------------------

  lemma {:induction false} Pow2Add(a: nat, b: nat)
    ensures Pow2(a + b) == Pow2(a) * Pow2(b)
  {
    if a > 0 {
      Pow2Add(a - 1, b);
      assert Pow2(a + b) == 2 * (Pow2(a - 1) * Pow2(b));
    }
  }

  lemma Pow2Grows(a: nat, b: nat)
    requires a <= b
    ensures Pow2(a) <= Pow2(b)
    ensures a < b ==> 2 * Pow2(a) <= Pow2(b)
  {
    if a < b {
      Pow2Grows(a, b - 1);
    }
  }

  lemma Pow2Word()
    ensures Pow2(8) == 256 && Pow2(32) == 0x1_0000_0000 && Pow2(63) == 0x8000_0000_0000_0000
    ensures Pow2(64) == 0x1_0000_0000_0000_0000
  {
    assert Pow2(4) == 16;
    Pow2Add(4, 4);
    Pow2Add(8, 8);
    Pow2Add(16, 16);
    Pow2Add(32, 31);
    assert Pow2(32) == 2 * Pow2(31);
  }

  lemma NonNegativeProduct(a: int, b: int)
    requires a >= 0 && b >= 0
    ensures a * b >= 0
  {
  }

  lemma MultipleIsFar(d: int, m: int)
    requires m > 0 && d != 0
    ensures d * m >= m || d * m <= -m
  {
    if d > 0 {
      NonNegativeProduct(d - 1, m);
    } else {
      NonNegativeProduct(-1 - d, m);
    }
  }

  lemma ModUnique(a: int, m: nat, q: int, r: nat)
    requires m > 0 && a == q * m + r && r < m
    ensures a % m == r && a / m == q
  {
    var d := a / m - q;
    assert d * m == r - a % m by { assert a == a / m * m + a % m; }
    if d != 0 {
      MultipleIsFar(d, m);
    }
  }

  /** The low bit and the remaining low bits of a number. */
  lemma ModSplit(a: nat, k: nat)
    requires k > 0
    ensures a % Pow2(k) % 2 == a % 2
    ensures a % Pow2(k) / 2 == (a / 2) % Pow2(k - 1)
  {
    DoubleModulus(a, Pow2(k - 1));
  }

  lemma DoubleModulus(a: nat, p: nat)
    requires p > 0
    ensures a % (2 * p) == a % 2 + 2 * (a / 2 % p)
    ensures a / (2 * p) == a / 2 / p
  {
    var q, r := a / 2 / p, a / 2 % p;
    assert a / 2 == q * p + r;
    assert a == q * (2 * p) + (a % 2 + 2 * r) by { assert q * (2 * p) == 2 * (q * p); }
    ModUnique(a, 2 * p, q, a % 2 + 2 * r);
  }

  /** Reducing modulo 2^j and then modulo a smaller 2^k. */
  lemma ModMod(a: nat, j: nat, k: nat)
    requires k <= j
    ensures a % Pow2(j) % Pow2(k) == a % Pow2(k)
  {
    Pow2Add(j - k, k);
    ModOfMultiple(a, Pow2(j - k), Pow2(k));
  }

  lemma ModOfMultiple(a: nat, m: nat, p: nat)
    requires m > 0 && p > 0
    ensures m * p > 0 && a % (m * p) % p == a % p
  {
    assert m * p > 0;
    var q, r := a / (m * p), a % (m * p);
    var s, t := r / p, r % p;
    assert a == q * (m * p) + r && r == s * p + t;
    assert q * (m * p) == (q * m) * p;
    assert a == (q * m + s) * p + t by { assert (q * m + s) * p == (q * m) * p + s * p; }
    ModUnique(a, p, q * m + s, t);
  }

  // ---- exclusive or --------------------------------------------------------------------------------

  lemma XorHalves(a: nat, b: nat)
    ensures Xor(a, b) % 2 == (a % 2 + b % 2) % 2
    ensures Xor(a, b) / 2 == Xor(a / 2, b / 2)
  {
  }

  lemma {:induction false} XorMod(a: nat, b: nat, k: nat)
    ensures Xor(a, b) % Pow2(k) == Xor(a % Pow2(k), b % Pow2(k))
  {
    if k > 0 {
      var a', b' := a % Pow2(k), b % Pow2(k);
      ModSplit(a, k);
      ModSplit(b, k);
      ModSplit(Xor(a, b), k);
      XorHalves(a, b);
      XorHalves(a', b');
      XorMod(a / 2, b / 2, k - 1);
      SameHalves(Xor(a, b) % Pow2(k), Xor(a', b'));
    }
  }

  lemma SameHalves(x: nat, y: nat)
    requires x % 2 == y % 2 && x / 2 == y / 2
    ensures x == y
  {
  }

  lemma {:induction false} XorTwice(a: nat, b: nat)
    ensures Xor(Xor(a, b), b) == a
    decreases a + b
  {
    if a != 0 || b != 0 {
      XorTwice(a / 2, b / 2);
    }
  }

  lemma {:induction false} XorCommutes(a: nat, b: nat)
    ensures Xor(a, b) == Xor(b, a)
    decreases a + b
  {
    if a != 0 || b != 0 {
      XorCommutes(a / 2, b / 2);
    }
  }

  /** Modulo 2^k, xor with a fixed number is injective. */
  lemma XorInjective(a: nat, b: nat, c: nat, k: nat)
    ensures Xor(a, c) % Pow2(k) == Xor(b, c) % Pow2(k) <==> a % Pow2(k) == b % Pow2(k)
  {
    XorMod(a, c, k);
    XorMod(b, c, k);
    XorTwice(a % Pow2(k), c % Pow2(k));
    XorTwice(b % Pow2(k), c % Pow2(k));
  }

  // ---- multiplication by an odd number ----------------------------------------------------------------

  lemma OddFactor(d: int, m: nat, p: nat)
    requires m % 2 == 1 && p > 0 && (d * m) % (2 * p) == 0
    ensures d % 2 == 0 && (d / 2 * m) % p == 0
  {
    var q, h := d * m / (2 * p), m / 2;
    assert d * m == q * (2 * p);
    assert q * (2 * p) == 2 * (q * p);
    assert d * m == 2 * (d * h) + d by { assert m == 2 * h + 1; }
    var e := d / 2;
    assert d == 2 * e;
    assert d * m == 2 * (e * m);
    ModUnique(e * m, p, q, 0);
  }

  lemma DoubleOfMultiple(d: int, p: nat)
    requires p > 0 && d % 2 == 0 && d / 2 % p == 0
    ensures d % (2 * p) == 0
  {
    var f := d / 2 / p;
    assert d / 2 == f * p;
    assert d == f * (2 * p) by { assert f * (2 * p) == 2 * (f * p); }
    ModUnique(d, 2 * p, f, 0);
  }

  lemma {:induction false} OddCancels(d: int, m: nat, k: nat)
    requires m % 2 == 1 && (d * m) % Pow2(k) == 0
    ensures d % Pow2(k) == 0
    decreases k
  {
    if k > 0 {
      OddFactor(d, m, Pow2(k - 1));
      OddCancels(d / 2, m, k - 1);
      DoubleOfMultiple(d, Pow2(k - 1));
    }
  }

  lemma ModEqual(a: nat, b: nat, m: nat)
    requires m > 0
    ensures a % m == b % m <==> (a - b) % m == 0
  {
    var q, r := a / m, a % m;
    var s, t := b / m, b % m;
    if r == t {
      assert a - b == (q - s) * m + 0;
      ModUnique(a - b, m, q - s, 0);
    }
    if (a - b) % m == 0 {
      var u := (a - b) / m;
      assert a == (u + s) * m + t;
      ModUnique(a, m, u + s, t);
    }
  }

  lemma MultipleTimes(d: int, m: int, p: nat)
    requires p > 0 && d % p == 0
    ensures (d * m) % p == 0
  {
    var q := d / p;
    assert d == q * p;
    assert d * m == (q * m) * p;
    ModUnique(d * m, p, q * m, 0);
  }

  /** Modulo 2^k, multiplication by an odd number is injective. */
  lemma OddInjective(a: nat, b: nat, m: nat, k: nat)
    requires m % 2 == 1
    ensures (a * m) % Pow2(k) == (b * m) % Pow2(k) <==> a % Pow2(k) == b % Pow2(k)
  {
    ModEqual(a * m, b * m, Pow2(k));
    ModEqual(a, b, Pow2(k));
    assert a * m - b * m == (a - b) * m;
    if (a - b) % Pow2(k) == 0 {
      MultipleTimes(a - b, m, Pow2(k));
    } else if ((a - b) * m) % Pow2(k) == 0 {
      OddCancels(a - b, m, k);
    }
  }

  // ---- masks ---------------------------------------------------------------------------------------

  lemma {:induction false} AndMask(h: nat, k: nat)
    ensures And(h, Pow2(k) - 1) == h % Pow2(k)
    decreases k
  {
    if k > 0 {
      ModSplit(h, k);
      assert (Pow2(k) - 1) % 2 == 1 && (Pow2(k) - 1) / 2 == Pow2(k - 1) - 1;
      AndMask(h / 2, k - 1);
    }
  }

  lemma {:induction false} AndBound(h: nat, m: nat)
    ensures And(h, m) <= m
    decreases m
  {
    if h != 0 && m != 0 {
      AndBound(h / 2, m / 2);
    }
  }

  // ---- bits ----------------------------------------------------------------------------------------

  lemma {:induction false} BitOr(a: nat, b: nat, i: nat)
    ensures BitAt(Or(a, b), i) <==> BitAt(a, i) || BitAt(b, i)
    decreases i
  {
    if i > 0 {
      if a == 0 && b == 0 {
        BitOr(0, 0, i - 1);
      } else {
        BitOr(a / 2, b / 2, i - 1);
        assert Or(a, b) / 2 == Or(a / 2, b / 2);
      }
    }
  }

  lemma {:induction false} BitShift(v: nat, s: nat, i: nat)
    ensures BitAt(Shr(v, s), i) == BitAt(v, i + s)
    decreases s
  {
    if s > 0 {
      BitShift(v / 2, s - 1, i);
    }
  }

  lemma {:induction false} NoBits(i: nat)
    ensures !BitAt(0, i)
  {
    if i > 0 {
      NoBits(i - 1);
    }
  }

  lemma {:induction false} HighBit(v: nat, n: nat, i: nat)
    requires v < Pow2(n) && i >= n
    ensures !BitAt(v, i)
    decreases n
  {
    if n == 0 {
      NoBits(i);
    } else {
      HighBit(v / 2, n - 1, i - 1);
    }
  }

  /** The highest set bit. */
  lemma {:induction false} TopBit(v: nat) returns (n: nat)
    ensures v < Pow2(n)
    ensures n > 0 ==> Pow2(n - 1) <= v && BitAt(v, n - 1)
  {
    if v == 0 {
      n := 0;
    } else {
      n := TopBit(v / 2);
      n := n + 1;
      if n == 1 {
        assert v == 1;
      }
    }
  }

  /** A number without bits from position `n` on is below 2^n. */
  lemma {:induction false} BitsBound(v: nat, n: nat)
    requires forall i: nat :: i >= n ==> !BitAt(v, i)
    ensures v < Pow2(n)
    decreases n
  {
    if n == 0 {
      var top := TopBit(v);
    } else {
      forall i: nat | i >= n - 1 ensures !BitAt(v / 2, i) {
        assert !BitAt(v, i + 1);
      }
      BitsBound(v / 2, n - 1);
    }
  }

  /** A number below 2^n whose bits below `n` are all set is 2^n - 1. */
  lemma {:induction false} AllOnes(v: nat, n: nat)
    requires v < Pow2(n)
    requires forall i: nat :: i < n ==> BitAt(v, i)
    ensures v == Pow2(n) - 1
    decreases n
  {
    if n > 0 {
      forall i: nat | i < n - 1 ensures BitAt(v / 2, i) {
        assert BitAt(v, i + 1);
      }
      AllOnes(v / 2, n - 1);
      assert BitAt(v, 0);
    }
  }

  lemma {:induction false} OnesBit(n: nat, i: nat)
    requires i < n
    ensures BitAt(Pow2(n) - 1, i)
    decreases n
  {
    assert (Pow2(n) - 1) % 2 == 1 && (Pow2(n) - 1) / 2 == Pow2(n - 1) - 1;
    if i > 0 {
      OnesBit(n - 1, i - 1);
    }
  }
}
