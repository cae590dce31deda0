/** Hashing and capacity rounding of src/table.c, in 64-bit arithmetic. */
module Hash {
  import opened Basics
  import opened Bits

  /** A character of a C string: any byte but the terminator. */
  type CChar = c: int | 1 <= c < 256 witness 1
  type Key = seq<CChar>

  const OFFSET_BASIS: nat := 0x84222325cbf29ce4
  const PRIME: nat := 0x100000001b3

  /** The value of a `char` converted to size_t: bytes from 128 on are sign-extended where `char` is signed. */
  function Promote(c: CChar, signed: bool): nat {
    if signed && c >= 128 then WORD - 256 + c else c
  }

  function HashStep(h: nat, c: CChar, signed: bool): nat {
    Xor(h, Promote(c, signed)) * PRIME % WORD
  }

  function HashFrom(h: nat, key: Key, signed: bool): nat
    decreases |key|
  {
    if key == [] then h else HashFrom(HashStep(h, key[0], signed), key[1..], signed)
  }

  function Hash(key: Key, signed: bool): nat { HashFrom(OFFSET_BASIS, key, signed) }

  /** `hash_string(key) & (capacity - 1)`. */
  function BucketIndex(key: Key, signed: bool, capacity: nat): (i: nat)
    requires capacity > 0
    ensures i < capacity
  {
    AndBound(Hash(key, signed), capacity - 1);
    And(Hash(key, signed), capacity - 1)
  }

  method HashString(key: Key, signed: bool) returns (hash: nat)
    ensures hash == Hash(key, signed)
  {
    hash := OFFSET_BASIS;
    var i := 0;
    while i < |key|
      invariant i <= |key| && HashFrom(hash, key[i..], signed) == Hash(key, signed)
    {
      assert key[i..][0] == key[i] && key[i..][1..] == key[i + 1..];
      hash := HashStep(hash, key[i], signed);
      i := i + 1;
    }
  }

  // ---- which keys share a bucket -----------------------------------------------------------------------

  /** One step keeps numbers apart, or together, modulo 2^k. */
  lemma StepInjective(g: nat, h: nat, c: CChar, signed: bool, k: nat)
    requires k <= 64
    ensures HashStep(g, c, signed) % Pow2(k) == HashStep(h, c, signed) % Pow2(k) <==> g % Pow2(k) == h % Pow2(k)
  {
    var p := Promote(c, signed);
    Pow2Word();
    ModMod(Xor(g, p) * PRIME, 64, k);
    ModMod(Xor(h, p) * PRIME, 64, k);
    OddInjective(Xor(g, p), Xor(h, p), PRIME, k);
    XorInjective(g, h, p, k);
  }

  /** From equal states, two characters lead apart exactly when they differ modulo 2^k. */
  lemma StepSeparates(h: nat, c: CChar, d: CChar, signed: bool, k: nat)
    requires k <= 64
    ensures HashStep(h, c, signed) % Pow2(k) == HashStep(h, d, signed) % Pow2(k)
       <==> Promote(c, signed) % Pow2(k) == Promote(d, signed) % Pow2(k)
  {
    var p, q := Promote(c, signed), Promote(d, signed);
    Pow2Word();
    XorCommutes(h, p);
    XorCommutes(h, q);
    ModMod(Xor(h, p) * PRIME, 64, k);
    ModMod(Xor(h, q) * PRIME, 64, k);
    OddInjective(Xor(h, p), Xor(h, q), PRIME, k);
    XorInjective(p, q, h, k);
  }

  lemma PromoteLow(c: CChar, signed: bool)
    ensures Promote(c, signed) % Pow2(8) == c
  {
    Pow2Word();
  }

  /** Sign extension does not matter: promoted characters agree modulo 2^k exactly when the bytes do. */
  lemma PromoteMod(c: CChar, d: CChar, signed: bool, k: nat)
    ensures Promote(c, signed) % Pow2(k) == Promote(d, signed) % Pow2(k) <==> c % Pow2(k) == d % Pow2(k)
  {
    PromoteLow(c, signed);
    PromoteLow(d, signed);
    if k <= 8 {
      ModMod(Promote(c, signed), 8, k);
      ModMod(Promote(d, signed), 8, k);
    } else {
      ModMod(Promote(c, signed), k, 8);
      ModMod(Promote(d, signed), k, 8);
      BytesApart(c, d, k);
    }
  }

  lemma BytesApart(c: CChar, d: CChar, k: nat)
    requires k >= 8
    ensures c % Pow2(k) == d % Pow2(k) <==> c == d
  {
    Pow2Word();
    Pow2Grows(8, k);
    ModUnique(c, Pow2(k), 0, c);
    ModUnique(d, Pow2(k), 0, d);
  }

  lemma {:induction false} TailInjective(g: nat, h: nat, key: Key, signed: bool, k: nat)
    requires k <= 64
    ensures HashFrom(g, key, signed) % Pow2(k) == HashFrom(h, key, signed) % Pow2(k) <==> g % Pow2(k) == h % Pow2(k)
    decreases |key|
  {
    if key != [] {
      StepInjective(g, h, key[0], signed, k);
      TailInjective(HashStep(g, key[0], signed), HashStep(h, key[0], signed), key[1..], signed, k);
    }
  }

  lemma {:induction false} OneCharFrom(h: nat, a: Key, b: Key, p: nat, signed: bool, k: nat)
    requires k <= 64 && p < |a| && |a| == |b| && b[..p] == a[..p] && b[p + 1..] == a[p + 1..]
    ensures HashFrom(h, a, signed) % Pow2(k) == HashFrom(h, b, signed) % Pow2(k) <==> a[p] % Pow2(k) == b[p] % Pow2(k)
    decreases |a|
  {
    if p == 0 {
      assert a[1..] == b[1..];
      TailInjective(HashStep(h, a[0], signed), HashStep(h, b[0], signed), a[1..], signed, k);
      StepSeparates(h, a[0], b[0], signed, k);
      PromoteMod(a[0], b[0], signed, k);
    } else {
      assert a[0] == a[..p][0] == b[..p][0] == b[0];
      assert a[1..][..p - 1] == a[..p][1..] && b[1..][..p - 1] == b[..p][1..];
      assert a[1..][p..] == a[p + 1..] && b[1..][p..] == b[p + 1..];
      OneCharFrom(HashStep(h, a[0], signed), a[1..], b[1..], p - 1, signed, k);
    }
  }

  /** Two keys of equal length that differ in one character share a bucket of a power-of-two table exactly
      when the two characters agree modulo the capacity. So with 256 buckets or more they never do. */
  lemma OneCharacterApart(a: Key, b: Key, p: nat, signed: bool, k: nat)
    requires k <= 64 && p < |a| && |a| == |b| && b[..p] == a[..p] && b[p + 1..] == a[p + 1..] && a[p] != b[p]
    ensures BucketIndex(a, signed, Pow2(k)) == BucketIndex(b, signed, Pow2(k)) <==> a[p] % Pow2(k) == b[p] % Pow2(k)
    ensures k >= 8 ==> BucketIndex(a, signed, Pow2(k)) != BucketIndex(b, signed, Pow2(k))
  {
    AndMask(Hash(a, signed), k);
    AndMask(Hash(b, signed), k);
    OneCharFrom(OFFSET_BASIS, a, b, p, signed, k);
    if k >= 8 {
      BytesApart(a[p], b[p], k);
    }
  }

  /** The mask is a remainder. */
  lemma MaskIsRemainder(key: Key, signed: bool, k: nat)
    ensures BucketIndex(key, signed, Pow2(k)) == Hash(key, signed) % Pow2(k)
  {
    AndMask(Hash(key, signed), k);
  }

  // ---- rounding the capacity up ------------------------------------------------------------------------

  function Smear(v: nat, shift: nat): nat { Or(v, Shr(v, shift)) }

  function SmearAll(v: nat): nat { Smear(Smear(Smear(Smear(Smear(v, 1), 2), 4), 8), 16) }

  /** next_power_of_2 on a size_t. */
  function RoundUp(v: nat): nat
    requires v < WORD
  {
    Succ(SmearAll(Pred(v)))
  }

  /** Subtracting and adding one in a size_t. */
  function Pred(v: nat): nat { (v + WORD - 1) % WORD }

  function Succ(v: nat): nat { (v + 1) % WORD }

  method NextPowerOf2(count: nat) returns (v: nat)
    requires count < WORD
    ensures v == RoundUp(count)
  {
    v := count;
    v := Pred(v);
    v := Or(v, Shr(v, 1));
    v := Or(v, Shr(v, 2));
    v := Or(v, Shr(v, 4));
    v := Or(v, Shr(v, 8));
    v := Or(v, Shr(v, 16));
    v := Succ(v);
  }

  /** The least power of two that is at least `v`. */
  ghost predicate IsLeastPower(r: nat, v: nat) {
    exists t: nat :: r == Pow2(t) && r >= v && (t == 0 || Pow2(t - 1) < v)
  }

  /** Some bit of `v` is set at one of the positions i .. i+n-1. */
  ghost predicate Near(v: nat, i: nat, n: nat) {
    exists j: nat :: i <= j < i + n && BitAt(v, j)
  }

  /** Below its highest set bit, `v` has no 32 zero bits in a row. */
  ghost predicate NoGap(v: nat) {
    forall i: nat, j: nat :: i <= j && BitAt(v, j) ==> Near(v, i, 32)
  }

  /** The bits of `v` are those of `w`, each spread over the `n - 1` lower positions. */
  ghost predicate Spread(v: nat, w: nat, n: nat) {
    forall i: nat :: BitAt(v, i) <==> Near(w, i, n)
  }

  lemma SmearSpreads(v: nat, w: nat, n: nat)
    requires Spread(v, w, n)
    ensures Spread(Smear(v, n), w, 2 * n)
  {
    forall i: nat ensures BitAt(Smear(v, n), i) <==> Near(w, i, 2 * n) {
      BitOr(v, Shr(v, n), i);
      BitShift(v, n, i);
      assert BitAt(v, i) <==> Near(w, i, n);
      assert BitAt(v, i + n) <==> Near(w, i + n, n);
      if j: nat :| i <= j < i + 2 * n && BitAt(w, j) {
        assert j < i + n ==> Near(w, i, n);
        assert j >= i + n ==> Near(w, i + n, n);
      }
    }
  }

  lemma SmearAllSpreads(w: nat)
    ensures Spread(SmearAll(w), w, 32)
  {
    assert Spread(w, w, 1) by {
      forall i: nat ensures BitAt(w, i) <==> Near(w, i, 1) {
        assert BitAt(w, i) ==> i <= i < i + 1;
      }
    }
    SmearSpreads(w, w, 1);
    SmearSpreads(Smear(w, 1), w, 2);
    SmearSpreads(Smear(Smear(w, 1), 2), w, 4);
    SmearSpreads(Smear(Smear(Smear(w, 1), 2), 4), w, 8);
    SmearSpreads(Smear(Smear(Smear(Smear(w, 1), 2), 4), 8), w, 16);
  }

  lemma SmearStaysBelow(s: nat, w: nat, n: nat)
    requires Spread(s, w, 32) && w < Pow2(n)
    ensures s < Pow2(n)
  {
    forall i: nat | i >= n ensures !BitAt(s, i) {
      if Near(w, i, 32) {
        var j: nat :| i <= j < i + 32 && BitAt(w, j);
        HighBit(w, n, j);
      }
    }
    BitsBound(s, n);
  }

  lemma SmearKeepsBit(s: nat, w: nat, i: nat)
    requires Spread(s, w, 32) && BitAt(w, i)
    ensures BitAt(s, i)
  {
    assert i <= i < i + 32;
    assert Near(w, i, 32);
  }

  /** Without a gap, smearing fills everything below the highest bit. */
  lemma SmearFills(s: nat, w: nat, n: nat)
    requires Spread(s, w, 32) && w < Pow2(n) && (n > 0 ==> BitAt(w, n - 1)) && NoGap(w)
    ensures s == Pow2(n) - 1
  {
    SmearStaysBelow(s, w, n);
    forall i: nat | i < n ensures BitAt(s, i) {
      var j: nat := n - 1;
      assert i <= j && BitAt(w, j);
      assert Near(w, i, 32);
    }
    AllOnes(s, n);
  }

  /** And if it fills everything there was no gap. */
  lemma FilledHadNoGap(s: nat, w: nat, n: nat)
    requires Spread(s, w, 32) && w < Pow2(n) && s == Pow2(n) - 1
    ensures NoGap(w)
  {
    forall i: nat, j: nat | i <= j && BitAt(w, j) ensures Near(w, i, 32) {
      if j >= n {
        HighBit(w, n, j);
      } else {
        OnesBit(n, i);
        assert BitAt(s, i);
      }
    }
  }

  lemma {:induction false} BitBelow(v: nat, i: nat)
    requires BitAt(v, i)
    ensures Pow2(i) <= v
  {
    if i > 0 {
      BitBelow(v / 2, i - 1);
    }
  }

  /** Strictly between two neighbouring powers of two there is none. */
  lemma NoPowerBetween(r: nat, n: nat, t: nat)
    requires n > 0 && Pow2(n - 1) < r < Pow2(n)
    ensures r != Pow2(t)
  {
    if t < n {
      Pow2Grows(t, n - 1);
    } else {
      Pow2Grows(n, t);
    }
  }

  /** The smeared number plus one, as long as it does not wrap. */
  lemma SmearPlusOne(v: nat, n: nat)
    requires 1 <= v && v - 1 < Pow2(n) && (n > 0 ==> Pow2(n - 1) <= v - 1 && BitAt(v - 1, n - 1))
    ensures SmearAll(v - 1) < Pow2(n)
    ensures NoGap(v - 1) ==> SmearAll(v - 1) + 1 == Pow2(n) && IsLeastPower(Pow2(n), v)
    ensures !NoGap(v - 1) ==> SmearAll(v - 1) + 1 < Pow2(n) && !IsLeastPower(SmearAll(v - 1) + 1, v)
  {
    var w: nat := v - 1;
    var s := SmearAll(w);
    SmearAllSpreads(w);
    SmearStaysBelow(s, w, n);
    if NoGap(w) {
      SmearFills(s, w, n);
    } else {
      if s == Pow2(n) - 1 {
        FilledHadNoGap(s, w, n);
      }
      assert n > 0;
      SmearKeepsBit(s, w, n - 1);
      BitBelow(s, n - 1);
      forall t: nat ensures s + 1 != Pow2(t) {
        NoPowerBetween(s + 1, n, t);
      }
    }
  }

  lemma Wrapping(v: nat)
    ensures 1 <= v < WORD ==> Pred(v) == v - 1
    ensures v == 0 ==> Pred(v) == Pow2(64) - 1
    ensures v + 1 < WORD ==> Succ(v) == v + 1
    ensures v + 1 == Pow2(64) ==> Succ(v) == 0
  {
    Pow2Word();
  }

  /** Rounding a size_t up gives the least power of two exactly for the non-zero numbers up to 2^63 whose
      predecessor has no 32 zero bits in a row below its highest bit. */
  lemma RoundUpIff(v: nat)
    requires v < WORD
    ensures IsLeastPower(RoundUp(v), v) <==> 1 <= v <= 0x8000_0000_0000_0000 && NoGap(v - 1)
  {
    if v == 0 {
      Wrapping(v);
      Wrapping(Pow2(64) - 1);
      RoundUpWraps(v, 64);
    } else {
      var n := TopBit(v - 1);
      TopBitOfWord(v - 1, n);
      Wrapping(v);
      SmearPlusOne(v, n);
      Wrapping(SmearAll(v - 1));
    }
  }

  lemma TopBitOfWord(w: nat, n: nat)
    requires w < WORD && w < Pow2(n) && (n > 0 ==> Pow2(n - 1) <= w)
    ensures Pow2(n) <= WORD == Pow2(64)
    ensures w < 0x8000_0000_0000_0000 ==> Pow2(n) < WORD
    ensures w >= 0x8000_0000_0000_0000 ==> Pow2(n) == WORD
  {
    Pow2Word();
    if n > 64 {
      Pow2Grows(64, n - 1);
    } else if n < 64 {
      Pow2Grows(n, 63);
    }
  }

  lemma NoGapInOnes(n: nat)
    ensures NoGap(Pow2(n) - 1)
  {
    var w: nat := Pow2(n) - 1;
    forall i: nat, j: nat | i <= j && BitAt(w, j) ensures Near(w, i, 32) {
      if j >= n {
        HighBit(w, n, j);
      } else {
        OnesBit(n, i);
        assert i <= i < i + 32 && BitAt(w, i);
      }
    }
  }

  lemma SmearOnes(n: nat)
    ensures SmearAll(Pow2(n) - 1) == Pow2(n) - 1
  {
    NoGapInOnes(n);
    SmearAllSpreads(Pow2(n) - 1);
    if n > 0 {
      OnesBit(n, n - 1);
    }
    SmearFills(SmearAll(Pow2(n) - 1), Pow2(n) - 1, n);
  }

  /** A number whose predecessor is all ones wraps around to zero. */
  lemma RoundUpWraps(v: nat, n: nat)
    requires v < WORD && Pred(v) == Pow2(n) - 1 && Succ(Pow2(n) - 1) == 0
    ensures RoundUp(v) == 0
  {
    SmearOnes(n);
  }

  /** It gives zero, a table without buckets, exactly for zero and for the numbers above 2^63 without such a gap. */
  lemma RoundUpZeroIff(v: nat)
    requires v < WORD
    ensures RoundUp(v) == 0 <==> v == 0 || (v > 0x8000_0000_0000_0000 && NoGap(v - 1))
  {
    if v == 0 {
      Wrapping(v);
      Wrapping(Pow2(64) - 1);
      RoundUpWraps(v, 64);
    } else {
      var n := TopBit(v - 1);
      TopBitOfWord(v - 1, n);
      Wrapping(v);
      SmearPlusOne(v, n);
      Wrapping(SmearAll(v - 1));
    }
  }

  /** Numbers of up to 32 bits have no room for a gap. */
  lemma NarrowHasNoGap(w: nat)
    requires w < Pow2(32)
    ensures NoGap(w)
  {
    forall i: nat, j: nat | i <= j && BitAt(w, j) ensures Near(w, i, 32) {
      if j >= 32 {
        HighBit(w, 32, j);
      } else {
        assert i <= j < i + 32;
      }
    }
  }

  lemma PowerHasGap()
    ensures !NoGap(Pow2(32))
  {
    var w, top: nat := Pow2(32), 32;
    PowerBit(32);
    assert 0 <= top && BitAt(w, top);
    if Near(w, 0, 32) {
      var j: nat :| 0 <= j < 32 && BitAt(w, j);
      LowBitOfPower(32, j);
    }
  }

  /** So it is right from 1 to 2^32. */
  lemma RoundUpRange(v: nat)
    requires 1 <= v <= 0x1_0000_0000
    ensures IsLeastPower(RoundUp(v), v)
  {
    Pow2Word();
    RoundUpIff(v);
    NarrowHasNoGap(v - 1);
  }

  /** And the range cannot be extended on either side. */
  lemma RoundUpRangeIsTight(v: nat)
    requires v == 0 || v == 0x1_0000_0001
    ensures !IsLeastPower(RoundUp(v), v)
  {
    Pow2Word();
    RoundUpIff(v);
    PowerHasGap();
  }

  lemma {:induction false} PowerBit(n: nat)
    ensures BitAt(Pow2(n), n)
  {
    if n > 0 {
      assert Pow2(n) / 2 == Pow2(n - 1);
      PowerBit(n - 1);
    }
  }

  lemma {:induction false} LowBitOfPower(n: nat, i: nat)
    requires i < n
    ensures !BitAt(Pow2(n), i)
  {
    assert Pow2(n) / 2 == Pow2(n - 1) && Pow2(n) % 2 == 0;
    if i > 0 {
      LowBitOfPower(n - 1, i - 1);
    }
  }
}
