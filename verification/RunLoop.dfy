/** The run loop of src/run_loop.c: periodic firing by a 64-bit accumulator per entry.

    The accumulator is unsigned, so the test `acc <= 0` holds only at exactly zero, and an entry whose deadline
    is overshot wraps around to almost 2^64 instead of firing late. Times are in microseconds. */
module RunLoop {
  import opened Basics
  import opened IntrusiveList

  const MAX_WAIT: nat := 1_000_000
  const SECOND: real := 1_000_000.0
  const INT64: nat := 0x8000_0000_0000_0000   // an entry's interval is an int64_t below this

  /** An entry's accumulator and how often its function was called. */
  datatype Clock = Clock(acc: nat, fires: nat)

  /** Addition and subtraction in a uint64_t. */
  function Plus(a: nat, b: nat): nat { (a + b) % WORD }

  function Minus(a: nat, b: nat): nat { (a + (WORD - b % WORD)) % WORD }

  /** What one pass does to an entry (lines 80-84). */
  function Tick(c: Clock, interval: nat, delta: nat): Clock {
    var acc := Minus(c.acc, delta);
    if acc == 0 then Clock(Plus(acc, interval), c.fires + 1) else Clock(acc, c.fires)
  }

  function Ticks(c: Clock, interval: nat, deltas: seq<nat>): Clock {
    if deltas == [] then c else Tick(Ticks(c, interval, deltas[..|deltas| - 1]), interval, deltas[|deltas| - 1])
  }

  function Sum(deltas: seq<nat>): nat {
    if deltas == [] then 0 else Sum(deltas[..|deltas| - 1]) + deltas[|deltas| - 1]
  }

  /** No pass came later than the deadline the entry was waiting for. */
  predicate NoOvershoot(c: Clock, interval: nat, deltas: seq<nat>) {
    deltas == [] ||
    (NoOvershoot(c, interval, deltas[..|deltas| - 1]) &&
     deltas[|deltas| - 1] <= Ticks(c, interval, deltas[..|deltas| - 1]).acc)
  }

  /** How many of the deadlines acc, acc + interval, acc + 2 * interval, ... are not after `time`. */
  function Deadlines(acc: nat, interval: nat, time: nat): nat
    requires interval > 0
  {
    if time < acc then 0 else (time - acc) / interval + 1
  }

  lemma MulMono(a: int, b: int, c: nat)
    requires a <= b
    ensures a * c <= b * c
  {
    assert (b - a) * c >= 0;
    assert (b - a) * c == b * c - a * c;
  }

  lemma DeadlinesMeans(acc: nat, interval: nat, time: nat, k: nat)
    requires interval > 0
    ensures k < Deadlines(acc, interval, time) <==> acc + k * interval <= time
  {
    MulMono(0, k, interval);
    if time >= acc {
      var q, r := (time - acc) / interval, (time - acc) % interval;
      assert time - acc == q * interval + r;
      if k <= q {
        MulMono(k, q, interval);
      } else {
        MulMono(q + 1, k, interval);
        assert (q + 1) * interval == q * interval + interval;
      }
    }
  }

  // ---- accounting ----------------------------------------------------------------------------------------

  lemma MinusPlus(a: nat, b: nat)
    ensures (Minus(a, b) + b) % WORD == a % WORD
  {
    var q := b / WORD;
    assert b == q * WORD + b % WORD;
    var x := a + (WORD - b % WORD);
    var p := x / WORD;
    assert x == p * WORD + Minus(a, b);
    assert Minus(a, b) + b == a + (q + 1 - p) * WORD;
    ModShift(a, q + 1 - p);
  }

  lemma ModShift(a: int, k: int)
    ensures (a + k * WORD) % WORD == a % WORD
  {
  }

  lemma ModAdd(a: nat, b: nat, c: nat)
    requires a % WORD == b % WORD
    ensures (a + c) % WORD == (b + c) % WORD
  {
    var p, q := a / WORD, b / WORD;
    assert a + c == (b + c) + (p - q) * WORD;
    ModShift(b + c, p - q);
  }

  lemma Refilled(acc: nat, interval: nat, delta: nat)
    requires delta % WORD == acc % WORD
    ensures (Plus(0, interval) + delta) % WORD == (acc + interval) % WORD
  {
    ModAdd(delta, acc, interval);
    ModAdd(Plus(0, interval), interval, delta);
  }

  /** One tick, modulo 2^64. */
  lemma TickAccounting(c: Clock, interval: nat, delta: nat)
    ensures var d := Tick(c, interval, delta);
      (d.acc + delta) % WORD == (c.acc + (d.fires - c.fires) * interval) % WORD
  {
    var d := Tick(c, interval, delta);
    MinusPlus(c.acc, delta);
    if Minus(c.acc, delta) == 0 {
      Refilled(c.acc, interval, delta);
      assert (d.fires - c.fires) * interval == interval;
    } else {
      assert (d.fires - c.fires) * interval == 0;
    }
  }

  lemma Distribute(m: nat, n: nat, k: nat)
    ensures m * k >= 0 && n * k >= 0 && (m + n) * k == m * k + n * k
  {
  }

  lemma AccountingStep(b: nat, c: nat, d: nat, sum: nat, last: nat, m: nat, n: nat)
    requires (b + sum) % WORD == (c + m) % WORD && (d + last) % WORD == (b + n) % WORD
    ensures (d + (sum + last)) % WORD == (c + (m + n)) % WORD
  {
    ModAdd(d + last, b + n, sum);
    ModAdd(b + sum, c + m, n);
    assert d + last + sum == d + (sum + last) && b + n + sum == b + sum + n && c + m + n == c + (m + n);
  }

  /** Over any run of passes the accumulator is what it started with, minus the time that passed, plus one
      interval per call, modulo 2^64. */
  lemma {:induction false} Accounting(c: Clock, interval: nat, deltas: seq<nat>)
    ensures var d := Ticks(c, interval, deltas);
      d.fires >= c.fires && (d.acc + Sum(deltas)) % WORD == (c.acc + (d.fires - c.fires) * interval) % WORD
    decreases |deltas|
  {
    if deltas != [] {
      var front, last := deltas[..|deltas| - 1], deltas[|deltas| - 1];
      Accounting(c, interval, front);
      var b, d := Ticks(c, interval, front), Ticks(c, interval, deltas);
      TickAccounting(b, interval, last);
      Distribute(b.fires - c.fires, d.fires - b.fires, interval);
      AccountingStep(b.acc, c.acc, d.acc, Sum(front), last, (b.fires - c.fires) * interval, (d.fires - b.fires) * interval);
    }
  }

  /** Without an overshoot the accounting is exact, not only modulo 2^64. */
  ghost predicate OnTime(c: Clock, interval: nat, time: nat, d: Clock, passes: nat) {
    d.fires >= c.fires &&
    d.acc == c.acc + (d.fires - c.fires) * interval - time &&
    (d.fires > c.fires ==> d.acc <= interval) &&
    (passes > 0 ==> d.acc > 0)
  }

  /** After an overshoot the entry is one turn of the counter behind. */
  ghost predicate Behind(c: Clock, interval: nat, time: nat, d: Clock) {
    d.fires >= c.fires &&
    d.acc == c.acc + (d.fires - c.fires) * interval - time + WORD &&
    c.acc + (d.fires - c.fires) * interval < time
  }

  lemma TickOnTime(c: Clock, interval: nat, time: nat, d: Clock, passes: nat, delta: nat)
    requires 0 < interval < WORD && c.acc < WORD && OnTime(c, interval, time, d, passes) && delta <= d.acc < WORD
    ensures OnTime(c, interval, time + delta, Tick(d, interval, delta), passes + 1)
  {
    assert Minus(d.acc, delta) == d.acc - delta;
    if d.acc == delta {
      var n := d.fires - c.fires;
      assert (n + 1) * interval == n * interval + interval;
    }
  }

  lemma TickTooLate(c: Clock, interval: nat, time: nat, d: Clock, passes: nat, delta: nat)
    requires 0 < interval < WORD && OnTime(c, interval, time, d, passes) && d.acc < delta && time + delta < WORD
    ensures Behind(c, interval, time + delta, Tick(d, interval, delta))
  {
    assert Minus(d.acc, delta) == d.acc - delta + WORD;
  }

  lemma TickBehind(c: Clock, interval: nat, time: nat, d: Clock, delta: nat)
    requires Behind(c, interval, time, d) && time + delta < WORD
    ensures Behind(c, interval, time + delta, Tick(d, interval, delta))
  {
    var n := d.fires - c.fires;
    assert n * interval >= 0;
    assert delta < d.acc < WORD;
    assert Minus(d.acc, delta) == d.acc - delta;
  }

  lemma {:induction false} OnTimeOrBehind(c: Clock, interval: nat, deltas: seq<nat>)
    requires 0 < interval < WORD && c.acc < WORD
    ensures var d := Ticks(c, interval, deltas);
      d.acc < WORD &&
      (NoOvershoot(c, interval, deltas) ==> OnTime(c, interval, Sum(deltas), d, |deltas|)) &&
      (!NoOvershoot(c, interval, deltas) && Sum(deltas) < WORD ==> Behind(c, interval, Sum(deltas), d))
    decreases |deltas|
  {
    if deltas != [] {
      var front, last := deltas[..|deltas| - 1], deltas[|deltas| - 1];
      OnTimeOrBehind(c, interval, front);
      var b := Ticks(c, interval, front);
      if NoOvershoot(c, interval, front) {
        if last <= b.acc {
          TickOnTime(c, interval, Sum(front), b, |front|, last);
        } else if Sum(deltas) < WORD {
          TickTooLate(c, interval, Sum(front), b, |front|, last);
        }
      } else if Sum(deltas) < WORD {
        TickBehind(c, interval, Sum(front), b, last);
      }
    }
  }

  /** An entry that was overshot falls silent: it is not called again until the counter could have come around. */
  lemma {:induction false} SilentAfterOvershoot(c: Clock, interval: nat, front: seq<nat>, more: seq<nat>)
    requires 0 < interval < WORD && c.acc < WORD
    requires !NoOvershoot(c, interval, front) && Sum(front + more) < WORD
    ensures Ticks(c, interval, front + more).fires == Ticks(c, interval, front).fires
    ensures !NoOvershoot(c, interval, front + more)
    decreases |more|
  {
    if more == [] {
      assert front + more == front;
    } else {
      var all, last := front + more, more[|more| - 1];
      assert all[..|all| - 1] == front + more[..|more| - 1];
      SilentAfterOvershoot(c, interval, front, more[..|more| - 1]);
      OnTimeOrBehind(c, interval, all[..|all| - 1]);
      SilentStep(c, interval, Sum(all[..|all| - 1]), Ticks(c, interval, all[..|all| - 1]), last);
    }
  }

  lemma SilentStep(c: Clock, interval: nat, time: nat, d: Clock, delta: nat)
    requires Behind(c, interval, time, d) && d.acc < WORD && time + delta < WORD
    ensures Tick(d, interval, delta).fires == d.fires
  {
    MulMono(0, d.fires - c.fires, interval);
    assert delta < d.acc;
    assert Minus(d.acc, delta) == d.acc - delta;
  }

  lemma OnTimeCount(acc: nat, interval: nat, time: nat, d: Clock, passes: nat)
    requires interval > 0 && passes > 0 && OnTime(Clock(acc, 0), interval, time, d, passes)
    ensures d.fires == Deadlines(acc, interval, time)
  {
    DeadlinesMeans(acc, interval, time, d.fires);
    if d.fires > 0 {
      DeadlinesMeans(acc, interval, time, d.fires - 1);
      assert d.fires * interval == (d.fires - 1) * interval + interval;
    }
  }

  /** After at least one pass, and before the counter could have come around, an entry has been called once for
      every deadline reached exactly when no pass overshot; else too seldom. */
  lemma CalledOncePerDeadlineIff(acc: nat, interval: nat, deltas: seq<nat>)
    requires 0 < interval < WORD && acc < WORD && deltas != [] && Sum(deltas) < WORD
    ensures Ticks(Clock(acc, 0), interval, deltas).fires == Deadlines(acc, interval, Sum(deltas))
       <==> NoOvershoot(Clock(acc, 0), interval, deltas)
    ensures !NoOvershoot(Clock(acc, 0), interval, deltas) ==>
      Ticks(Clock(acc, 0), interval, deltas).fires < Deadlines(acc, interval, Sum(deltas))
  {
    var c, time := Clock(acc, 0), Sum(deltas);
    var d := Ticks(c, interval, deltas);
    OnTimeOrBehind(c, interval, deltas);
    if NoOvershoot(c, interval, deltas) {
      OnTimeCount(acc, interval, time, d, |deltas|);
    } else {
      DeadlinesMeans(acc, interval, time, d.fires);
    }
  }

  /** Without an overshoot the same holds over any length of time. */
  lemma CalledOncePerDeadline(acc: nat, interval: nat, deltas: seq<nat>)
    requires 0 < interval < WORD && acc < WORD && deltas != [] && NoOvershoot(Clock(acc, 0), interval, deltas)
    ensures Ticks(Clock(acc, 0), interval, deltas).fires == Deadlines(acc, interval, Sum(deltas))
  {
    OnTimeOrBehind(Clock(acc, 0), interval, deltas);
    OnTimeCount(acc, interval, Sum(deltas), Ticks(Clock(acc, 0), interval, deltas), |deltas|);
  }

  // ---- the same in terms of pass times -------------------------------------------------------------------

  /** Some pass comes exactly at `time`. */
  predicate Hit(deltas: seq<nat>, time: nat) {
    deltas != [] && (Sum(deltas) == time || Hit(deltas[..|deltas| - 1], time))
  }

  /** A pass comes exactly at every deadline reached. */
  ghost predicate AllHit(acc: nat, interval: nat, deltas: seq<nat>) {
    forall k: nat :: acc + k * interval <= Sum(deltas) ==> Hit(deltas, acc + k * interval)
  }

  lemma HitOn(front: seq<nat>, last: nat, time: nat)
    ensures Hit(front + [last], time) <==> Hit(front, time) || Sum(front) + last == time
  {
    assert (front + [last])[..|front|] == front;
  }

  lemma {:induction false} HitsAreReached(deltas: seq<nat>, time: nat)
    requires Hit(deltas, time)
    ensures time <= Sum(deltas)
    decreases |deltas|
  {
    if Sum(deltas) != time {
      HitsAreReached(deltas[..|deltas| - 1], time);
    }
  }

  /** One more pass: the deadlines it reaches are none, or the next one exactly, if it does not overshoot. */
  lemma NextDeadlines(acc: nat, interval: nat, time: nat, d: Clock, passes: nat, delta: nat, k: nat)
    requires interval > 0 && OnTime(Clock(acc, 0), interval, time, d, passes) && delta <= d.acc
    requires passes == 0 ==> time == 0 && d == Clock(acc, 0)
    requires time < acc + k * interval <= time + delta || (passes == 0 && acc + k * interval <= delta)
    ensures acc + k * interval == time + delta
  {
    assert (k + 1) * interval == k * interval + interval;
    if k < d.fires {
      MulMono(k + 1, d.fires, interval);
    } else {
      MulMono(d.fires, k, interval);
    }
  }

  lemma HitNext(acc: nat, interval: nat, front: seq<nat>, last: nat, k: nat)
    requires 0 < interval < WORD && acc < WORD && NoOvershoot(Clock(acc, 0), interval, front)
    requires front != [] ==> AllHit(acc, interval, front)
    requires last <= Ticks(Clock(acc, 0), interval, front).acc && acc + k * interval <= Sum(front) + last
    ensures Hit(front + [last], acc + k * interval)
  {
    var time := acc + k * interval;
    HitOn(front, last, time);
    if front == [] || time > Sum(front) {
      OnTimeOrBehind(Clock(acc, 0), interval, front);
      NextDeadlines(acc, interval, Sum(front), Ticks(Clock(acc, 0), interval, front), |front|, last, k);
    }
  }

  /** An overshoot passes a deadline by. */
  lemma MissedNext(acc: nat, interval: nat, front: seq<nat>, last: nat)
    requires 0 < interval < WORD && acc < WORD && NoOvershoot(Clock(acc, 0), interval, front)
    requires last > Ticks(Clock(acc, 0), interval, front).acc
    ensures !AllHit(acc, interval, front + [last])
  {
    var d := Ticks(Clock(acc, 0), interval, front);
    OnTimeOrBehind(Clock(acc, 0), interval, front);
    var missed := acc + d.fires * interval;
    assert missed == Sum(front) + d.acc;
    HitOn(front, last, missed);
    if Hit(front, missed) {
      HitsAreReached(front, missed);
    }
    SumOn(front, last);
  }

  lemma SumOn(front: seq<nat>, last: nat)
    ensures Sum(front + [last]) == Sum(front) + last
  {
    assert (front + [last])[..|front|] == front;
  }

  lemma AllHitStep(acc: nat, interval: nat, front: seq<nat>, last: nat)
    requires 0 < interval < WORD && acc < WORD && NoOvershoot(Clock(acc, 0), interval, front)
    requires front != [] ==> AllHit(acc, interval, front)
    ensures AllHit(acc, interval, front + [last]) <==> last <= Ticks(Clock(acc, 0), interval, front).acc
  {
    if last <= Ticks(Clock(acc, 0), interval, front).acc {
      SumOn(front, last);
      forall k: nat | acc + k * interval <= Sum(front + [last]) ensures Hit(front + [last], acc + k * interval) {
        HitNext(acc, interval, front, last, k);
      }
    } else {
      MissedNext(acc, interval, front, last);
    }
  }

  /** No pass overshoots exactly when every deadline reached has a pass at its very microsecond. */
  lemma {:induction false} NoOvershootIff(acc: nat, interval: nat, deltas: seq<nat>)
    requires 0 < interval < WORD && acc < WORD && deltas != []
    ensures NoOvershoot(Clock(acc, 0), interval, deltas) <==> AllHit(acc, interval, deltas)
    decreases |deltas|
  {
    var front, last := deltas[..|deltas| - 1], deltas[|deltas| - 1];
    assert deltas == front + [last];
    if front != [] {
      NoOvershootIff(acc, interval, front);
    }
    if NoOvershoot(Clock(acc, 0), interval, front) {
      AllHitStep(acc, interval, front, last);
    } else {
      var k: nat :| acc + k * interval <= Sum(front) && !Hit(front, acc + k * interval);
      StaysMissed(front, last, acc + k * interval);
    }
  }

  lemma StaysMissed(front: seq<nat>, last: nat, time: nat)
    requires front != [] && time <= Sum(front) && !Hit(front, time)
    ensures time <= Sum(front + [last]) && !Hit(front + [last], time)
  {
    HitOn(front, last, time);
    assert (front + [last])[..|front|] == front;
    assert front[..|front|] == front;
  }

  // ---- the published wait --------------------------------------------------------------------------------

  /** The least accumulator, starting from UINT64_MAX (lines 75-87). */
  function Least(accs: seq<nat>): nat {
    if accs == [] then WORD - 1
    else
      var before, last := Least(accs[..|accs| - 1]), accs[|accs| - 1];
      if last < before then last else before
  }

  /** How long the loop waits before its next pass (line 90). */
  function Published(accs: seq<nat>): nat {
    var least := Least(accs);
    if least < MAX_WAIT then least else MAX_WAIT
  }

  lemma LeastStep(accs: seq<nat>, acc: nat)
    ensures Least(accs + [acc]) == if acc < Least(accs) then acc else Least(accs)
  {
    assert (accs + [acc])[..|accs|] == accs;
  }

  lemma {:induction false} LeastIsLeast(accs: seq<nat>)
    ensures Least(accs) < WORD && forall acc <- accs :: Least(accs) <= acc
    ensures Least(accs) == WORD - 1 || Least(accs) in accs
    decreases |accs|
  {
    if accs != [] {
      LeastIsLeast(accs[..|accs| - 1]);
      assert accs == accs[..|accs| - 1] + [accs[|accs| - 1]];
    }
  }

  /** A pass after `delta` overshoots none of these accumulators. */
  predicate InTime(accs: seq<nat>, delta: nat) { forall acc <- accs :: delta <= acc }

  /** The published wait is in time for all the entries it was computed from, and no longer wait up to the cap is. */
  lemma PublishedIsLongest(accs: seq<nat>, wait: nat)
    requires wait <= MAX_WAIT
    ensures (forall delta: nat :: delta <= wait ==> InTime(accs, delta)) <==> wait <= Published(accs)
  {
    LeastIsLeast(accs);
    if forall delta: nat :: delta <= wait ==> InTime(accs, delta) {
      assert InTime(accs, wait);
    }
  }

  /** An entry registered after the wait was published is safe exactly when its accumulator is no smaller; else
      the next pass, at the end of the wait, overshoots it. */
  lemma RegisteredInTimeIff(accs: seq<nat>, acc: nat, interval: nat)
    ensures (forall delta: nat :: delta <= Published(accs) ==> InTime(accs + [acc], delta)) <==> Published(accs) <= acc
    ensures NoOvershoot(Clock(acc, 0), interval, [Published(accs)]) <==> Published(accs) <= acc
  {
    LeastIsLeast(accs);
    var wait, now := Published(accs), accs + [acc];
    assert now[|accs|] == acc && acc in now;
    assert InTime(now, wait) ==> wait <= acc;
    assert [wait][..0] == [];
  }

  /** Every pass of the run comes within the wait published just before it. */
  predicate Punctual(clocks: seq<Clock>, intervals: seq<nat>, deltas: seq<nat>)
    requires |clocks| == |intervals|
  {
    deltas == [] ||
    (Punctual(clocks, intervals, deltas[..|deltas| - 1]) &&
     deltas[|deltas| - 1] <= Published(Accs(clocks, intervals, deltas[..|deltas| - 1])))
  }

  /** All accumulators after a run. */
  function Accs(clocks: seq<Clock>, intervals: seq<nat>, deltas: seq<nat>): (accs: seq<nat>)
    requires |clocks| == |intervals|
    ensures |accs| == |clocks|
    ensures forall i :: 0 <= i < |clocks| ==> accs[i] == Ticks(clocks[i], intervals[i], deltas).acc
  {
    seq(|clocks|, i requires 0 <= i < |clocks| => Ticks(clocks[i], intervals[i], deltas).acc)
  }

  /** A loop that is always woken within its published wait calls every entry once per deadline. */
  lemma {:induction false} PunctualNeverOvershoots(clocks: seq<Clock>, intervals: seq<nat>, deltas: seq<nat>, i: nat)
    requires |clocks| == |intervals| && i < |clocks| && Punctual(clocks, intervals, deltas)
    ensures NoOvershoot(clocks[i], intervals[i], deltas)
    decreases |deltas|
  {
    if deltas != [] {
      var front := deltas[..|deltas| - 1];
      PunctualNeverOvershoots(clocks, intervals, front, i);
      var accs := Accs(clocks, intervals, front);
      LeastIsLeast(accs);
      assert accs[i] in accs;
    }
  }

  // ---- what the clock shows ------------------------------------------------------------------------------

  /** The time of the last pass. */
  function LastTime(t: nat, times: seq<nat>): nat { if times == [] then t else times[|times| - 1] }

  /** The time between the passes, in 64-bit arithmetic. */
  function Deltas(t: nat, times: seq<nat>): seq<nat> {
    if times == [] then []
    else
      var front := times[..|times| - 1];
      Deltas(t, front) + [Minus(times[|times| - 1], LastTime(t, front))]
  }

  lemma DeltasStep(t: nat, times: seq<nat>, time: nat)
    ensures Deltas(t, times + [time]) == Deltas(t, times) + [Minus(time, LastTime(t, times))]
    ensures LastTime(t, times + [time]) == time
  {
    assert (times + [time])[..|times|] == times;
  }

  lemma TicksStep(deltas: seq<nat>, delta: nat)
    ensures forall c, interval ::
      Ticks(c, interval, deltas + [delta]) == Tick(Ticks(c, interval, deltas), interval, delta)
  {
    assert (deltas + [delta])[..|deltas|] == deltas;
  }

  /** For a clock that does not go back, the deltas add up to the time elapsed. */
  lemma {:induction false} DeltasAddUp(t: nat, times: seq<nat>)
    requires forall i, j :: 0 <= i <= j < |times| ==> t <= times[i] <= times[j] < WORD
    ensures Sum(Deltas(t, times)) == LastTime(t, times) - t
    decreases |times|
  {
    if times != [] {
      var front, time := times[..|times| - 1], times[|times| - 1];
      DeltasAddUp(t, front);
      var deltas := Deltas(t, front);
      assert Deltas(t, times)[..|deltas|] == deltas;
      assert Minus(time, LastTime(t, front)) == time - LastTime(t, front);
    }
  }

  // ---- the loop on the heap ------------------------------------------------------------------------------

  /** The period of `freq`, in whole microseconds. */
  ghost predicate IsPeriod(interval: nat, freq: real) {
    interval > 0 && interval as real * freq <= SECOND < (interval + 1) as real * freq
  }

  lemma PeriodMeans(freq: real)
    requires 0.0 < freq <= SECOND && SECOND / freq < INT64 as real
    ensures var interval := (SECOND / freq).Floor; 0 < interval < INT64 && IsPeriod(interval, freq)
  {
    var q := SECOND / freq;
    assert q * freq == SECOND;
    Truncated(freq, q, q.Floor);
  }

  lemma Truncated(freq: real, q: real, n: int)
    requires 0.0 < freq <= SECOND && q * freq == SECOND && q < INT64 as real
    requires n as real <= q < (n + 1) as real
    ensures 0 < n < INT64 && IsPeriod(n, freq)
  {
    var low, high := n as real, (n + 1) as real;
    ScaleMono(q, 1.0, freq);
    ScaleMono(low, q, freq);
    ScaleMono(q, high, freq);
    assert low * freq <= SECOND < high * freq;
  }

  lemma ScaleMono(a: real, b: real, x: real)
    requires x > 0.0
    ensures a <= b ==> a * x <= b * x
    ensures a < b ==> a * x < b * x
  {
  }

  class Program {
    const interval: nat      // microseconds between calls, positive
    var acc: nat             // a uint64_t
    ghost var fires: nat     // how often the function was called

    constructor (interval: nat, acc: nat)
      ensures this.interval == interval && this.acc == acc && fires == 0
    {
      this.interval, this.acc, fires := interval, acc, 0;
    }

    ghost function Now(): Clock
      reads this
    {
      Clock(acc, fires)
    }

    /** Lines 80-84. */
    method Advance(delta: nat)
      modifies this`acc, this`fires
      ensures Now() == Tick(old(Now()), interval, delta)
    {
      acc := Minus(acc, delta);
      if acc <= 0 {
        fires := fires + 1;
        acc := Plus(acc, interval);
      }
    }
  }

  /** Lines 160-164. */
  method NewProgram(freq: real, random: nat) returns (p: Program)
    requires 0.0 < freq <= SECOND && SECOND / freq < INT64 as real
    ensures fresh(p) && 0 < p.interval < INT64 && IsPeriod(p.interval, freq)
    ensures p.acc == random % p.interval && p.fires == 0
  {
    PeriodMeans(freq);
    var interval := (SECOND / freq).Floor;
    p := new Program(interval, random % interval);
  }

  ghost function AccsOf(ps: seq<Program>): (accs: seq<nat>)
    reads ps
    ensures |accs| == |ps| && forall i :: 0 <= i < |ps| ==> accs[i] == ps[i].acc
  {
    seq(|ps|, i requires 0 <= i < |ps| reads ps => ps[i].acc)
  }

  ghost function TickedBy(ps: seq<Program>, delta: nat): (clocks: seq<Clock>)
    reads ps
    ensures |clocks| == |ps| && forall i :: 0 <= i < |ps| ==> clocks[i] == Tick(ps[i].Now(), ps[i].interval, delta)
  {
    seq(|ps|, i requires 0 <= i < |ps| reads ps => Tick(ps[i].Now(), ps[i].interval, delta))
  }

  ghost function AccsIn(clocks: seq<Clock>): (accs: seq<nat>)
    ensures |accs| == |clocks| && forall i :: 0 <= i < |clocks| ==> accs[i] == clocks[i].acc
  {
    seq(|clocks|, i requires 0 <= i < |clocks| => clocks[i].acc)
  }

  /** The first `i` entries have ticked, to the clocks that are wanted of all of them. */
  ghost predicate Swept(ps: seq<Program>, want: seq<Clock>, i: nat, delta: nat)
    reads ps
  {
    && i <= |ps| == |want|
    && (forall j :: 0 <= j < i ==> ps[j].Now() == want[j])
    && (forall j :: i <= j < |ps| ==> Tick(ps[j].Now(), ps[j].interval, delta) == want[j])
  }

  /** The body of the traversal for one entry. */
  method Visit(p: Program, delta: nat, least: nat, ghost ps: seq<Program>, ghost want: seq<Clock>, ghost i: nat)
    returns (newLeast: nat)
    requires Swept(ps, want, i, delta) && i < |ps| && p == ps[i] && Distinct(ps)
    requires least == Least(AccsIn(want)[..i])
    modifies p
    ensures Swept(ps, want, i + 1, delta) && newLeast == Least(AccsIn(want)[..i + 1])
  {
    p.Advance(delta);
    newLeast := if p.acc < least then p.acc else least;
    assert AccsIn(want)[i] == p.Now().acc;
    LeastStep(AccsIn(want)[..i], p.acc);
    assert AccsIn(want)[..i + 1] == AccsIn(want)[..i] + [p.acc];
  }

  lemma RemoveItem<T>(ns: seq<Node<T>>, k: nat)
    requires (forall n <- ns :: n.item.Some?) && Distinct(ns) && Distinct(Items(ns)) && k < |ns|
    ensures var rest := ns[..k] + ns[k + 1..];
      (forall n <- rest :: n in ns && n.item.Some?) && Distinct(rest) && Distinct(Items(rest))
  {
    DistinctRemove(ns, k);
    DistinctRemove(Items(ns), k);
    assert Items(ns[..k] + ns[k + 1..]) == Items(ns)[..k] + Items(ns)[k + 1..];
  }

  class Loop {
    const programs: Node<Program>   // the sentinel of the ring of entries
    var t: nat                      // the time of the last pass
    var interval: nat               // the wait it published
    ghost var entries: seq<Node<Program>>

    ghost function Ring(): seq<Node<Program>>
      reads this
    {
      [programs] + entries + [programs]
    }

    ghost function At(k: nat): Node<Program>
      requires k < |Ring()|
      reads this
    {
      Ring()[k]
    }

    ghost predicate Valid()
      reads this, programs, entries
    {
      programs !in entries && Distinct(entries) && Linked(Ring()) &&
      (forall n <- entries :: n.item.Some? && 0 < n.item.value.interval < INT64) && Distinct(Items(entries))
    }

    /** cc_run_loop_new. */
    constructor (now: nat)
      ensures Valid() && entries == [] && t == now && fresh(programs)
    {
      programs := new Node<Program>(None);
      t, interval, entries := now, 0, [];
      new;
      programs.next, programs.prev := programs, programs;
    }

    /** cc_run_loop_register: the entry gets the interval of its frequency, rounded down, a random part of it to
        start with, and the tail of the ring. */
    method Register(freq: real, random: nat) returns (entry: Node<Program>)
      requires Valid() && 0.0 < freq <= SECOND && SECOND / freq < INT64 as real
      modifies this`entries, programs`prev, At(|entries|)`next
      ensures Valid() && entries == old(entries) + [entry] && entry.item.Some? && fresh(entry)
      ensures var p := entry.item.value;
        fresh(p) && IsPeriod(p.interval, freq) && p.acc == random % p.interval && p.fires == 0
    {
      var program := NewProgram(freq, random);
      entry := new Node<Program>(Some(program));
      Append(entry);
    }

    /** Lines 167-171. */
    method Append(entry: Node<Program>)
      requires Valid() && entry != programs && entry !in entries && entry.item.Some?
      requires entry.item.value !in Items(entries) && 0 < entry.item.value.interval < INT64
      modifies this`entries, entry`prev, entry`next, programs`prev, At(|entries|)`next
      ensures Valid() && entries == old(entries) + [entry]
    {
      Apart(programs, entries, Ring());
      ghost var ring := Ring();
      LinkBefore(entry, programs, ring, |entries|, At(|entries|));
      entries := entries + [entry];
      assert Ring() == ring[..|ring| - 1] + [entry] + ring[|ring| - 1..];
    }

    /** cc_run_loop_unregister: the entry leaves the ring, the others keep their order. */
    method Unregister(entry: Node<Program>)
      requires Valid() && entry in entries
      modifies this`entries, entry, At(IndexOf(entries, entry))`next, At(IndexOf(entries, entry) + 2)`prev
      ensures Valid() && entry.prev == null && entry.next == null
      ensures var k := IndexOf(old(entries), entry); entries == old(entries)[..k] + old(entries)[k + 1..]
    {
      Detach(entry, IndexOf(entries, entry));
    }

    /** Lines 187-189. */
    method Detach(entry: Node<Program>, ghost k: nat)
      requires Valid() && k < |entries| && entry == entries[k]
      modifies this`entries, entry, At(k)`next, At(k + 2)`prev
      ensures Valid() && entry.prev == null && entry.next == null
      ensures entries == old(entries)[..k] + old(entries)[k + 1..]
    {
      ghost var ring := Ring();
      RemoveItem(entries, k);
      Apart(programs, entries, ring);
      LinkAround(entry, ring, k, At(k), At(k + 2));
      entries := entries[..k] + entries[k + 1..];
      assert Ring() == ring[..k + 1] + ring[k + 2..];
    }

    /** The traversal of the ring. */
    method Sweep(delta: nat) returns (least: nat)
      requires Valid()
      modifies Items(entries)
      ensures Valid()
      ensures forall p <- Items(entries) :: p.Now() == Tick(old(p.Now()), p.interval, delta)
      ensures least == Least(AccsOf(Items(entries)))
    {
      ghost var ring, ps := Ring(), Items(entries);
      ghost var want := TickedBy(ps, delta);
      Apart(programs, entries, ring);
      least := WORD - 1;
      assert ring[0] == programs;
      var prog := programs.next;
      ghost var i := 0;
      while prog != programs
        invariant i <= |ps| && prog == ring[i + 1] && Linked(ring)
        invariant Swept(ps, want, i, delta) && least == Least(AccsIn(want)[..i])
        decreases |ps| - i
      {
        assert prog == entries[i] && prog.next == ring[i + 2];
        least := Visit(prog.item.value, delta, least, ps, want, i);
        prog := prog.next;
        i := i + 1;
      }
      assert AccsIn(want)[..i] == AccsOf(ps);
    }

    /** One pass (lines 70-90): every entry ticks once, by the time since the last pass, and the wait until the
        next one is published. */
    method Pass(newT: nat)
      requires Valid() && newT < WORD && t < WORD
      modifies this`t, this`interval, Items(entries)
      ensures Valid() && t == newT && entries == old(entries)
      ensures forall p <- Items(entries) :: p.Now() == Tick(old(p.Now()), p.interval, Minus(newT, old(t)))
      ensures interval == Published(AccsOf(Items(entries)))
    {
      var delta := Minus(newT, t);
      t := newT;
      var least := Sweep(delta);
      interval := if least < MAX_WAIT then least else MAX_WAIT;
    }

    /** The loop of loop_thread, whose clock reads the given times: every entry ticks through all the passes. */
    method Run(times: seq<nat>)
      requires Valid() && t < WORD && forall time <- times :: time < WORD
      modifies this`t, this`interval, Items(entries)
      ensures Valid() && entries == old(entries) && t == LastTime(old(t), times)
      ensures forall p <- Items(entries) :: p.Now() == Ticks(old(p.Now()), p.interval, Deltas(old(t), times))
      ensures times != [] ==> interval == Published(AccsOf(Items(entries)))
    {
      ghost var deltas: seq<nat> := [];
      for i := 0 to |times|
        invariant Valid() && entries == old(entries) && t == LastTime(old(t), times[..i]) < WORD
        invariant deltas == Deltas(old(t), times[..i])
        invariant forall p <- Items(entries) :: p.Now() == Ticks(old(p.Now()), p.interval, deltas)
        invariant i > 0 ==> interval == Published(AccsOf(Items(entries)))
      {
        assert times[..i + 1] == times[..i] + [times[i]] && times[i] in times;
        DeltasStep(old(t), times[..i], times[i]);
        TicksStep(deltas, Minus(times[i], t));
        Pass(times[i]);
        deltas := Deltas(old(t), times[..i + 1]);
      }
      assert times[..|times|] == times;
    }
  }
}
