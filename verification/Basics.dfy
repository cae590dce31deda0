/** Shared vocabulary: optional values, and counting and gathering over sequences. */
module Basics {

  datatype Option<+T> = None | Some(value: T)

  const WORD: nat := 0x1_0000_0000_0000_0000   // the number of values of a 64-bit size_t

  function Indicator(b: bool): nat { if b then 1 else 0 }

  ghost predicate Distinct<T>(xs: seq<T>) {
    forall i, j :: 0 <= i < j < |xs| ==> xs[i] != xs[j]
  }

  lemma DistinctAppend<T>(xs: seq<T>, ys: seq<T>)
    requires Distinct(xs) && Distinct(ys) && forall x <- xs :: x !in ys
    ensures Distinct(xs + ys)
  {
    forall i, j | 0 <= i < j < |xs + ys| ensures (xs + ys)[i] != (xs + ys)[j] {
      if i < |xs| <= j {
        assert xs[i] in xs && ys[j - |xs|] in ys;
      }
    }
  }

  /** The rows one after the other. */
  function Flat<T>(rows: seq<seq<T>>): seq<T> {
    if rows == [] then [] else Flat(rows[..|rows| - 1]) + rows[|rows| - 1]
  }

  /** How many elements of `xs` satisfy `p`. */
  function Count<T>(xs: seq<T>, p: T -> bool): nat {
    if xs == [] then 0 else Indicator(p(xs[0])) + Count(xs[1..], p)
  }

  lemma {:induction false} CountUpdate<T>(xs: seq<T>, i: nat, x: T, p: T -> bool)
    requires i < |xs|
    ensures Count(xs[i := x], p) + Indicator(p(xs[i])) == Count(xs, p) + Indicator(p(x))
  {
    if i == 0 {
      assert xs[i := x][1..] == xs[1..];
    } else {
      assert xs[i := x][1..] == xs[1..][i - 1 := x];
      CountUpdate(xs[1..], i - 1, x, p);
    }
  }

  lemma {:induction false} CountBounds<T>(xs: seq<T>, p: T -> bool)
    ensures Count(xs, p) <= |xs|
    ensures Count(xs, p) == 0 <==> forall i :: 0 <= i < |xs| ==> !p(xs[i])
  {
    if xs != [] {
      CountBounds(xs[1..], p);
      assert forall i :: 0 <= i < |xs| - 1 ==> xs[1..][i] == xs[i + 1];
      assert forall i :: 0 < i < |xs| ==> xs[i] == xs[1..][i - 1];
    }
  }

  /** Turning `p` on at some positions and off at none can only raise the count, and raises it
      as soon as one position turns on. */
  lemma {:induction false} CountGrows<T>(xs: seq<T>, ys: seq<T>, p: T -> bool)
    requires |xs| == |ys|
    requires forall i :: 0 <= i < |xs| ==> p(xs[i]) ==> p(ys[i])
    ensures Count(xs, p) <= Count(ys, p)
    ensures (exists i :: 0 <= i < |xs| && !p(xs[i]) && p(ys[i])) ==> Count(xs, p) < Count(ys, p)
  {
    if xs != [] {
      CountGrows(xs[1..], ys[1..], p);
      if i :| 0 <= i < |xs| && !p(xs[i]) && p(ys[i]) && i > 0 {
        assert !p(xs[1..][i - 1]) && p(ys[1..][i - 1]);
      }
    }
  }

  lemma {:induction false} CountSame<T>(xs: seq<T>, ys: seq<T>, p: T -> bool)
    requires |xs| == |ys|
    requires forall i :: 0 <= i < |xs| ==> p(xs[i]) == p(ys[i])
    ensures Count(xs, p) == Count(ys, p)
  {
    CountGrows(xs, ys, p);
    CountGrows(ys, xs, p);
  }

  /** How many elements of `xs` hold `u`, each element holding at most one thing. */
  function Holding<T, U(==)>(xs: seq<T>, hand: T -> Option<U>, u: U): nat {
    if xs == [] then 0 else Indicator(hand(xs[0]) == Some(u)) + Holding(xs[1..], hand, u)
  }

  lemma {:induction false} HoldingUpdate<T, U>(xs: seq<T>, i: nat, x: T, hand: T -> Option<U>, u: U)
    requires i < |xs|
    ensures Holding(xs[i := x], hand, u) + Indicator(hand(xs[i]) == Some(u))
         == Holding(xs, hand, u) + Indicator(hand(x) == Some(u))
  {
    if i == 0 {
      assert xs[i := x][1..] == xs[1..];
    } else {
      assert xs[i := x][1..] == xs[1..][i - 1 := x];
      HoldingUpdate(xs[1..], i - 1, x, hand, u);
    }
  }

  lemma {:induction false} HoldingSame<T, U>(xs: seq<T>, ys: seq<T>, hand: T -> Option<U>, u: U)
    requires |xs| == |ys|
    requires forall i :: 0 <= i < |xs| ==> hand(xs[i]) == hand(ys[i])
    ensures Holding(xs, hand, u) == Holding(ys, hand, u)
  {
    if xs != [] {
      HoldingSame(xs[1..], ys[1..], hand, u);
    }
  }

  lemma {:induction false} HoldingNone<T, U>(xs: seq<T>, hand: T -> Option<U>, u: U)
    ensures Holding(xs, hand, u) == 0 <==> forall i :: 0 <= i < |xs| ==> hand(xs[i]) != Some(u)
  {
    if xs != [] {
      HoldingNone(xs[1..], hand, u);
      assert forall i :: 0 <= i < |xs| - 1 ==> xs[1..][i] == xs[i + 1];
      assert forall i :: 0 < i < |xs| ==> xs[i] == xs[1..][i - 1];
    }
  }

  // ---- C strings -----------------------------------------------------------------------------------------

  const NUL: char := '\0'

  /** The buffer holds `s` as a C string from position `at` on. */
  ghost predicate StringAt(buffer: seq<char>, at: nat, s: string) {
    && at + |s| < |buffer| && buffer[at + |s|] == NUL
    && forall i :: 0 <= i < |s| ==> s[i] != NUL && buffer[at + i] == s[i]
  }

  ghost predicate HoldsString(buffer: seq<char>, s: string) { StringAt(buffer, 0, s) }
}
