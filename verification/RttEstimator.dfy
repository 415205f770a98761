/**
 The round-trip estimator of the TCP sender: a smoothed round trip kept eightfold, a mean deviation
 kept fourfold, and the retransmission timeout computed from them, all in whole ticks.
 */
module RttEstimator {

  const RTT_SHIFT := 3
  const RTTVAR_SHIFT := 2

  /** `est` is 0 until the first sample. */
  datatype Rtt = Rtt(est: int, dev: int, timeout: int)

  /** An arithmetic shift of a C int to the right. */
  function Shr(x: int, n: nat): int
  {
    if n == 0 then x else Shr(x, n - 1) / 2
  }

  function Shl(x: int, n: nat): int
  {
    if n == 0 then x else Shl(x, n - 1) * 2
  }

  lemma {:induction false} ShrIs(x: int)
    ensures Shr(x, RTT_SHIFT) == x / 8 && Shr(x, RTTVAR_SHIFT) == x / 4
  {
    assert Shr(x, 1) == x / 2;
    assert Shr(x, 2) == x / 2 / 2;
    assert Shr(x, 3) == x / 2 / 2 / 2;
  }

  lemma {:induction false} ShlIs(x: int)
    ensures Shl(x, RTT_SHIFT) == 8 * x && Shl(x, RTTVAR_SHIFT - 1) == 2 * x
  {
    assert Shl(x, 1) == 2 * x;
    assert Shl(x, 2) == 4 * x;
  }

  function Abs(x: int): int
  {
    if x < 0 then -x else x
  }

  /** The estimator after a sample, in plain division. */
  function Update(e: Rtt, rtt: int): Rtt
  {
    if e.est == 0 then Rtt(8 * rtt, 2 * rtt, Rto(8 * rtt, 2 * rtt))
    else
      var delta := (rtt - 1) - e.est / 8;
      var est := if e.est + delta <= 0 then 1 else e.est + delta;
      var dev := if e.dev + (Abs(delta) - e.dev / 4) <= 0 then 1 else e.dev + (Abs(delta) - e.dev / 4);
      Rtt(est, dev, Rto(est, dev))
  }

  function Rto(est: int, dev: int): int
  {
    est / 8 + dev
  }

  class Estimator {
    var est: int
    var dev: int
    var timeout: int

    ghost function Value(): Rtt
      reads this
    {
      Rtt(est, dev, timeout)
    }

    method RtoUpdate(rtt: int)
      modifies this
      ensures Value() == Update(old(Value()), rtt)
    {
      ShrIs(est);
      ShrIs(dev);
      ShlIs(rtt);
      if est != 0 {
        var delta := (rtt - 1) - Shr(est, RTT_SHIFT);
        est := est + delta;
        if est <= 0 {
          est := 1;
        }
        delta := if delta < 0 then -delta else delta;
        delta := delta - Shr(dev, RTTVAR_SHIFT);
        dev := dev + delta;
        if dev <= 0 {
          dev := 1;
        }
      } else {
        est := Shl(rtt, RTT_SHIFT);
        dev := Shl(rtt, RTTVAR_SHIFT - 1);
      }
      ShrIs(est);
      timeout := Shr(est, RTT_SHIFT) + dev;
    }
  }

  // ---------- what a sample does ----------

  /** The first sample: the round trip eightfold, half of it fourfold as deviation, and three times it as timeout. */
  lemma {:induction false} FirstSample(e: Rtt, r: int)
    requires e.est == 0
    ensures var e' := Update(e, r); e'.est == 8 * r && 4 * r == 2 * e'.dev && e'.timeout == 3 * r
  {
  }

  /**
   Every later one: seven eighths of the old estimate and an eighth of the sample, three quarters of the old deviation
   and a quarter of how far the sample is off, each up to the rounding of one division.
   */
  lemma {:induction false} LaterSample(e: Rtt, r: int)
    requires e.est >= 1 && e.dev >= 1 && r >= 1
    ensures var e', off := Update(e, r), Abs((r - 1) - e.est / 8);
            && 7 * e.est + 8 * (r - 1) <= 8 * e'.est <= 7 * e.est + 8 * (r - 1) + 7
            && 3 * e.dev + 4 * off <= 4 * e'.dev <= 3 * e.dev + 4 * off + 3
            && 8 * (e'.timeout - e'.dev) <= e'.est < 8 * (e'.timeout - e'.dev + 1)
  {
  }

  /** A sample that is longer by `d` makes the timeout longer by `d` and an eighth of it, up to one tick. */
  lemma {:induction false} JumpRaises(e: Rtt, r: int, d: nat)
    requires e.est >= 1 && e.dev >= 1 && r - 1 >= e.est / 8
    ensures var u, v := Update(e, r), Update(e, r + d);
            v.dev == u.dev + d && v.est == u.est + d && d + d / 8 <= v.timeout - u.timeout <= d + d / 8 + 1
  {
  }

  /** A round trip of one tick and then one of ten. */
  lemma {:induction false} OneThenTen(e: Rtt)
    requires e.est == 0
    ensures Update(Update(e, 1), 10) == Rtt(16, 10, 12)
  {
  }

  // ---------- bounds over all runs ----------

  /** The estimator after its first and all later samples, oldest first. */
  function After(e: Rtt, samples: seq<int>): Rtt
    decreases samples
  {
    if samples == [] then e else Update(After(e, samples[..|samples| - 1]), samples[|samples| - 1])
  }

  predicate Bounded(e: Rtt, most: int)
  {
    1 <= e.est <= 8 * most && 1 <= e.dev <= 4 * most && e.timeout == Rto(e.est, e.dev)
  }

  /** Neither clamp of `Update` is taken. */
  predicate Unclamped(e: Rtt, rtt: int)
  {
    e.est != 0 ==>
      var delta := (rtt - 1) - e.est / 8;
      e.est + delta > 0 && e.dev + (Abs(delta) - e.dev / 4) > 0
  }

  lemma {:induction false} UpdateBounded(e: Rtt, rtt: int, most: int)
    requires 1 <= rtt <= most && (e.est == 0 || Bounded(e, most))
    ensures Bounded(Update(e, rtt), most) && Unclamped(e, rtt)
  {
  }

  /** Whatever the samples in 1..most, every estimate stays within its range and no clamp is ever taken. */
  lemma {:induction false} RunBounded(e: Rtt, samples: seq<int>, most: int)
    requires e.est == 0 && samples != []
    requires forall i :: 0 <= i < |samples| ==> 1 <= samples[i] <= most
    ensures Bounded(After(e, samples), most) && 1 <= After(e, samples).timeout <= 5 * most
    ensures Unclamped(After(e, samples[..|samples| - 1]), samples[|samples| - 1])
  {
    var early, last := samples[..|samples| - 1], samples[|samples| - 1];
    if early != [] {
      RunBounded(e, early, most);
    }
    UpdateBounded(After(e, early), last, most);
  }

  // ---------- a steady round trip ----------

  /** The estimator after `n` samples that are all `r`. */
  function Steady(e: Rtt, r: int, n: nat): Rtt
    decreases n
  {
    if n == 0 then e else Steady(Update(e, r), r, n - 1)
  }

  /** How far `est` is from the range in which the sample `r` leaves it. */
  function Distance(est: int, r: int): nat
  {
    if est < 8 * (r - 1) then 8 * (r - 1) - est else if est > 8 * r - 1 then est - (8 * r - 1) else 0
  }

  /** A sample moves the estimate towards its range, never past it, and then leaves it there. */
  lemma {:induction false} Approaches(e: Rtt, r: int)
    requires e.est >= 1 && e.dev >= 1 && r >= 1
    ensures var e' := Update(e, r);
            && e'.est >= 1 && e'.dev >= 1
            && (e.est < 8 * (r - 1) ==> e.est < e'.est <= 8 * (r - 1))
            && (e.est > 8 * r - 1 ==> 8 * r - 1 <= e'.est < e.est)
            && (8 * (r - 1) <= e.est <= 8 * r - 1 ==> e'.est == e.est)
            && (Distance(e.est, r) > 0 ==> Distance(e'.est, r) < Distance(e.est, r))
            && (Distance(e.est, r) == 0 ==> e'.dev == e.dev - e.dev / 4)
  {
  }

  lemma {:induction false} SteadyEst(e: Rtt, r: int, n: nat, most: int)
    requires Bounded(e, most) && 1 <= r <= most && Distance(e.est, r) <= n
    ensures Bounded(Steady(e, r, n), most) && Distance(Steady(e, r, n).est, r) == 0
    decreases n
  {
    if n > 0 {
      Approaches(e, r);
      UpdateBounded(e, r, most);
      SteadyEst(Update(e, r), r, n - 1, most);
    }
  }

  lemma {:induction false} SteadyDev(e: Rtt, r: int, n: nat, most: int)
    requires Bounded(e, most) && 1 <= r <= most && Distance(e.est, r) == 0 && e.dev <= n + 3
    ensures var e' := Steady(e, r, n);
            Bounded(e', most) && e'.est == e.est && 1 <= e'.dev <= 3
    decreases n
  {
    if n == 0 {
    } else {
      Approaches(e, r);
      UpdateBounded(e, r, most);
      SteadyDev(Update(e, r), r, n - 1, most);
    }
  }

  lemma {:induction false} SteadyAdd(e: Rtt, r: int, m: nat, n: nat)
    ensures Steady(e, r, m + n) == Steady(Steady(e, r, m), r, n)
    decreases m
  {
    if m == 0 {
    } else {
      SteadyAdd(Update(e, r), r, m - 1, n);
    }
  }

  /** From any state it can be in, the timeout settles within two ticks above a steady round trip. */
  lemma {:induction false} TimeoutSettles(e: Rtt, r: int, n: nat, most: int)
    requires Bounded(e, most) && 1 <= r <= most && n >= 12 * most
    ensures var e' := Steady(e, r, n); 8 * (r - 1) <= e'.est <= 8 * r - 1 && r <= e'.timeout <= r + 2
  {
    var k := 8 * most;
    SteadyEst(e, r, k, most);
    SteadyAdd(e, r, k, n - k);
    SteadyDev(Steady(e, r, k), r, n - k, most);
  }
}
