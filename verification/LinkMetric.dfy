/** Metrics and their averages: smoothing (route.c, util.c), round-trip times (message.c), link costs
    (neighbour.c). */
module Smoothing {
  import opened Common

  /** roughly, for the outcome `random` of the random number generator. */
  function Roughly(value: int, random: nat): int {
    if value < 0 then -RoughlyPositive(-value, random) else RoughlyPositive(value, random)
  }

  function RoughlyPositive(value: nat, random: nat): int {
    if value <= 1 then value else value * 3 / 4 + random % (value / 2)
  }

  /** Between three and five quarters of the value, with its sign. */
  lemma RoughlyBounds(value: int, random: nat)
    ensures value >= 0 ==> 3 * value - 3 <= 4 * Roughly(value, random) <= 5 * value
    ensures value <= 0 ==> 5 * value <= 4 * Roughly(value, random) <= 3 * value + 3
  {
  }

  /** All values from three quarters on, as many as half the value, come out, and no others; up to 1 it is exact. */
  lemma RoughlySpreads(value: nat, v: int)
    ensures (exists random: nat :: Roughly(value, random) == v) <==>
            if value <= 1 then v == value else value * 3 / 4 <= v < value * 3 / 4 + value / 2
    ensures forall random: nat :: Roughly(0 - value, random) == 0 - Roughly(value, random)
  {
    if value >= 2 {
      if value * 3 / 4 <= v < value * 3 / 4 + value / 2 {
        var random: nat := v - value * 3 / 4;
        assert random % (value / 2) == random;
        assert Roughly(value, random) == v;
      }
    } else {
      assert Roughly(value, 0) == value;
    }
  }

  /** two_to_the_one_over_hl: 2^(1/halfLife), in units of 1/0x10000. */
  function TwoToTheOneOver(halfLife: int): int
    requires halfLife > 0
  {
    if halfLife == 1 then 131072
    else if halfLife == 2 then 92682
    else if halfLife == 3 then 82570
    else if halfLife == 4 then 77935
    else 0x10000 + 45426 / halfLife
  }

  /** The product in the second loop of route_smoothed_metric. */
  function Product(halfLife: int, diff: int, random: nat): int
    requires halfLife > 0
  {
    Roughly(diff, random) * (TwoToTheOneOver(halfLife) - 0x10000)
  }

  /** One step of that loop, as it is meant. */
  function Fraction(halfLife: int, diff: int, random: nat): int
    requires halfLife > 0
  {
    Quotient(Product(halfLife, diff, random), 0x10000)
  }

  /** A signed int that wraps. */
  function Int32(x: int): int { (x + 0x8000_0000) % 0x1_0000_0000 - 0x8000_0000 }

  /** The same in an int, if it wraps when it overflows. */
  function Step(halfLife: int, diff: int, random: nat): int
    requires halfLife > 0
  {
    Quotient(Int32(Product(halfLife, diff, random)), 0x10000)
  }

  predicate Overflows(halfLife: int, diff: int, random: nat)
    requires halfLife > 0
  {
    !(-0x8000_0000 <= Product(halfLife, diff, random) < 0x8000_0000)
  }

  /** `s` lies between the two others. */
  predicate Between(s: int, a: int, b: int) { Min(a, b) <= s <= Max(a, b) }

  function Distance(a: int, b: int): nat { if a >= b then a - b else b - a }

  /** A half-life closes at least three eighths of the difference, up to rounding, and never overshoots. */
  lemma HalfCloses(diff: int, random: nat)
    ensures var step := Quotient(Roughly(diff, random), 2);
            Between(step, 0, diff) && 8 * Distance(diff, step) <= 5 * Distance(diff, 0) + 8
  {
  }

  /** A step never overshoots, unless the half-life is a single second. */
  lemma FractionStaysBetween(halfLife: int, diff: int, random: nat)
    requires halfLife >= 2
    ensures Between(Fraction(halfLife, diff, random), 0, diff)
  {
    RoughlyBounds(diff, random);
    var f := TwoToTheOneOver(halfLife) - 0x10000;
    var r := Roughly(diff, random);
    Factor(halfLife);
    if diff >= 0 {
      Scaled(r, f, diff);
    } else {
      Scaled(-r, f, -diff);
      Negated(r, f);
    }
    hide Roughly, TwoToTheOneOver;
  }

  lemma Factor(halfLife: int)
    requires halfLife >= 2
    ensures 0 <= TwoToTheOneOver(halfLife) - 0x10000 <= 27146
    ensures halfLife > 2 ==> TwoToTheOneOver(halfLife) - 0x10000 <= 17034
  {
    if halfLife > 4 { assert 0 <= 45426 / halfLife <= 45426 / 5; }
  }

  /** With a half-life of two seconds the product overflows if the rough difference is at least 79109. */
  lemma OverflowsFrom(halfLife: int, diff: int, random: nat)
    requires halfLife >= 2 && -0xFFFF <= diff <= 0xFFFF
    ensures Overflows(halfLife, diff, random) <==> halfLife == 2 && Distance(Roughly(diff, random), 0) >= 79109
  {
    hide Roughly, TwoToTheOneOver;
    RoughlyBounds(diff, random);
    Factor(halfLife);
    var r, f := Roughly(diff, random), TwoToTheOneOver(halfLife) - 0x10000;
    if halfLife == 2 {
      assert f == 27146 by { TwoSeconds(); }
    } else {
      Raised(f, 17034, if r >= 0 then r else -r);
      Negated(r, f);
    }
  }

  lemma TwoSeconds()
    ensures TwoToTheOneOver(2) - 0x10000 == 27146
  {
  }

  /** Some random number makes the product overflow exactly if the half-life is two seconds and the difference at least
      63288: less than the difference between the metric of a retracted route and that of the same route restored. */
  lemma OverflowsExactly(halfLife: int, diff: int)
    requires halfLife >= 2 && -0xFFFF <= diff <= 0xFFFF
    ensures (exists random: nat :: Overflows(halfLife, diff, random)) <==> halfLife == 2 && Distance(diff, 0) >= 63288
  {
    hide Overflows;
    var d := Distance(diff, 0);
    if d >= 2 {
      OwnRemainder(d / 2);
      LargestRough(diff);
      OverflowsFrom(halfLife, diff, d / 2 - 1);
    }
    forall random: nat ensures Overflows(halfLife, diff, random) ==> halfLife == 2 && d >= 63288 {
      OverflowsFrom(halfLife, diff, random);
      RoughAtMost(diff, random);
    }
  }

  lemma LargestRough(diff: int)
    requires Distance(diff, 0) >= 2
    ensures var d := Distance(diff, 0);
            d >= 63288 ==> Distance(Roughly(diff, d / 2 - 1), 0) >= 79109
  {
    var d := Distance(diff, 0);
    OwnRemainder(d / 2);
  }

  lemma RoughAtMost(diff: int, random: nat)
    ensures Distance(diff, 0) < 63288 ==> Distance(Roughly(diff, random), 0) < 79109
  {
    var d := Distance(diff, 0);
    if d >= 2 {
      assert random % (d / 2) <= d / 2 - 1;
    }
  }

  /** Whether or not the product overflows and wraps, the value that is stored in an unsigned short is the one that is
      meant, or one closer to the metric; so it lies between the old value and the metric. */
  lemma StoredStaysBetween(halfLife: int, smoothed: U16, metric: U16, random: nat)
    requires halfLife >= 2
    ensures var stored := (smoothed + Step(halfLife, metric - smoothed, random)) % 0x1_0000;
            && Between(stored, smoothed, metric)
            && Distance(stored, smoothed + Fraction(halfLife, metric - smoothed, random)) <= 1
  {
    hide Roughly, TwoToTheOneOver, Int32, Quotient, Between, Distance;
    var diff := metric - smoothed;
    RoughlyBounds(diff, random);
    Factor(halfLife);
    var r, f := Roughly(diff, random), TwoToTheOneOver(halfLife) - 0x10000;
    if diff >= 0 {
      Scaled(r, f, diff);
      Rounded(r, f, diff);
    } else {
      Scaled(-r, f, -diff);
      Rounded(-r, f, -diff);
      Negated(r, f);
    }
    StoredWrapped(r * f, smoothed, metric);
  }

  /** The product is at most 2^16 times the difference, and less than 2^32. */
  lemma Rounded(r: int, f: int, v: int)
    requires 0 <= f <= 27146 && 0 <= v <= 0xFFFF && 3 * v - 3 <= 4 * r <= 5 * v
    ensures 0 <= r * f <= 0x10000 * v && r * f < 0x1_0000_0000
  {
    Raised(f, 27146, r);
  }

  /** Taking the quotient after wrapping: off by 2^16, and by one if there is a remainder. */
  lemma WrappedQuotient(product: int)
    requires 0 <= product < 0x1_0000_0000
    ensures var a, b := Quotient(Int32(product), 0x10000), product / 0x10000;
            a == b || a == b - 0x10000 || (a == b + 1 - 0x10000 && product > 0x10000 * b)
    ensures var a, b := Quotient(Int32(-product), 0x10000), product / 0x10000;
            a == -b || a == 0x10000 - b || (a == 0x10000 - b - 1 && product > 0x10000 * b)
  {
    if product >= 0x8000_0000 {
      assert Int32(product) == product - 0x1_0000_0000;
    } else {
      assert Int32(product) == product;
    }
    if product > 0x8000_0000 {
      assert Int32(-product) == 0x1_0000_0000 - product;
    } else {
      assert Int32(-product) == -product;
    }
    hide Int32;
  }

  lemma StoredWrapped(product: int, smoothed: U16, metric: U16)
    requires if metric >= smoothed then 0 <= product <= 0x10000 * (metric - smoothed)
             else 0 <= -product <= 0x10000 * (smoothed - metric)
    ensures var stored := (smoothed + Quotient(Int32(product), 0x10000)) % 0x1_0000;
            Between(stored, smoothed, metric) && Distance(stored, smoothed + Quotient(product, 0x10000)) <= 1
  {
    hide Int32;
    var size := if product >= 0 then product else -product;
    WrappedQuotient(size);
    assert Quotient(product, 0x10000) == if product >= 0 then size / 0x10000 else -(size / 0x10000);
    assert product < 0 ==> product == -size;
    Stored(smoothed, metric, Quotient(Int32(product), 0x10000), size / 0x10000, size);
  }

  lemma Stored(smoothed: U16, metric: U16, a: int, b: int, size: int)
    requires 0 <= b && 0x10000 * b <= size <= 0x10000 * Distance(metric, smoothed)
    requires if metric >= smoothed
             then a == b || a == b - 0x10000 || (a == b + 1 - 0x10000 && size > 0x10000 * b)
             else a == -b || a == 0x10000 - b || (a == 0x10000 - b - 1 && size > 0x10000 * b)
    ensures var stored := (smoothed + a) % 0x1_0000;
            Between(stored, smoothed, metric)
            && Distance(stored, if metric >= smoothed then smoothed + b else smoothed - b) <= 1
  {
    assert b <= Distance(metric, smoothed);
    assert size > 0x10000 * b ==> b + 1 <= Distance(metric, smoothed);
  }

  lemma Negated(r: int, f: int)
    ensures -r * f == -(r * f)
  {
  }

  lemma Scaled(r: int, f: int, v: int)
    requires 0 <= f <= 27146 && v >= 0 && 3 * v - 3 <= 4 * r <= 5 * v
    ensures 0 <= r * f && 0 <= r * f / 0x10000 <= v
  {
    Raised(f, 27146, r);
    Share(r * f, r, v);
  }

  lemma Raised(f: int, g: int, r: int)
    requires 0 <= f <= g && 0 <= r
    ensures 0 <= r * f <= r * g
  {
  }

  lemma Share(product: int, r: int, v: int)
    requires 0 <= product <= r * 27146 && 4 * r <= 5 * v
    ensures 0 <= product / 0x10000 <= v
  {
  }

  /** With a half-life of one second a step may overshoot, by as much as the random number says. */
  lemma OneSecondStep(diff: int, random: nat)
    ensures var d := Distance(diff, 0);
            Between(Fraction(1, diff, random), 0, diff) <==> d <= 1 || random % (d / 2) <= d - d * 3 / 4
  {
    var r := Roughly(diff, random);
    assert TwoToTheOneOver(1) - 0x10000 == 0x10000;
    Unscaled(r);
    assert Fraction(1, diff, random) == r;
  }

  lemma Unscaled(r: int)
    ensures Quotient(r * 0x10000, 0x10000) == r
  {
  }

  /** Which differences are smaller than the largest step. */
  lemma Excess(d: nat, random: nat)
    requires d >= 2
    ensures d == 8 || d >= 10 ==> d / 2 - 1 > d - d * 3 / 4
    ensures !(d == 8 || d >= 10) ==> random % (d / 2) <= d - d * 3 / 4
  {
    var n := d / 2;
    assert random % n <= n - 1;
  }

  lemma OwnRemainder(n: nat)
    requires n > 0
    ensures (n - 1) % n == n - 1
  {
  }

  /** Exactly the differences of 8 and of 10 and more can be overshot. */
  lemma OneSecondOvershoots(diff: int)
    ensures (exists random: nat :: !Between(Fraction(1, diff, random), 0, diff)) <==>
            Distance(diff, 0) == 8 || Distance(diff, 0) >= 10
  {
    var d := Distance(diff, 0);
    if d == 8 || d >= 10 {
      var random: nat := d / 2 - 1;
      OneSecondStep(diff, random);
      OwnRemainder(d / 2);
      Excess(d, random);
      assert !Between(Fraction(1, diff, random), 0, diff);
    }
    forall random: nat
      ensures d == 8 || d >= 10 || Between(Fraction(1, diff, random), 0, diff)
    {
      OneSecondStep(diff, random);
      if d >= 2 { Excess(d, random); }
    }
    hide Fraction, Between, Distance;
  }

  /** What route_smoothed_metric returns when no time has passed since the last call. */
  function AtOnce(halfLife: int, metric: U16, smoothed: U16): U16 {
    if halfLife <= 0 || metric >= INFINITY || -4 < metric - smoothed < 4 then metric else smoothed
  }

  /** The difference before and after one half-life: three to five eighths of it are left, up to rounding. */
  predicate OneHalf(d: nat, after: nat) { 3 * d <= 8 * after <= 5 * d + 8 }

  /** How much of the difference a second closes, in units of 1/0x10000: 2^(1/halfLife) - 1. */
  function Rate(halfLife: int): int
    requires halfLife > 0
  {
    TwoToTheOneOver(halfLife) - 0x10000
  }

  /** The difference before and after one second: it closes by three to five quarters of what it should, up to
      rounding and the wrap of the product. */
  predicate OneSecond(halfLife: int, d: nat, after: nat)
    requires halfLife > 0
  {
    && after <= d
    && (3 * d - 3) * Rate(halfLife) - 0x80000 <= 0x40000 * (d - after) <= 5 * d * Rate(halfLife) + 0x40000
  }

  /** The rates are the roots of two, rounded up for two seconds, down for three and four; from five seconds on, the
      first terms of their series, with 45426 for the logarithm of two. */
  lemma RatesAreRoots(halfLife: int)
    requires halfLife > 0
    ensures var t := TwoToTheOneOver(halfLife);
            && (halfLife == 1 ==> t == 2 * 0x10000)
            && (halfLife == 2 ==> (t - 1) * (t - 1) < 2 * 0x1_0000_0000 < t * t)
            && (halfLife == 3 ==> t * t * t < 2 * 0x1_0000_0000_0000 < (t + 1) * (t + 1) * (t + 1))
            && (halfLife == 4 ==> t * t * t * t < 2 * 0x1_0000_0000_0000_0000
                                  < (t + 1) * (t + 1) * (t + 1) * (t + 1))
            && (halfLife >= 5 ==> 45426 - halfLife < halfLife * (t - 0x10000) <= 45426)
  {
    if halfLife >= 5 { WholePart(45426, halfLife); }
  }

  lemma WholePart(a: nat, w: nat)
    requires w > 0
    ensures a - w < w * (a / w) <= a
  {
  }

  /** A course of differences: `k` half-lives, then `n` seconds. */
  ghost predicate Course(chain: seq<nat>, halfLife: int, k: nat, n: nat) {
    && halfLife > 0 && |chain| == k + n + 1
    && (forall i :: 0 <= i < k ==> OneHalf(chain[i], chain[i + 1]))
    && forall i :: k <= i < k + n ==> OneSecond(halfLife, chain[i], chain[i + 1])
  }

  /** A half-life takes three to five eighths off the difference. */
  lemma HalfLeaves(smoothed: U16, metric: U16, random: nat)
    ensures var after := smoothed + Quotient(Roughly(metric - smoothed, random), 2);
            Between(after, smoothed, metric) && OneHalf(Distance(metric, smoothed), Distance(metric, after))
  {
    HalfCloses(metric - smoothed, random);
  }

  lemma SecondLeaves(halfLife: int, smoothed: U16, metric: U16, random: nat)
    requires halfLife >= 2
    ensures var stored := (smoothed + Step(halfLife, metric - smoothed, random)) % 0x1_0000;
            Between(stored, smoothed, metric)
            && OneSecond(halfLife, Distance(metric, smoothed), Distance(metric, stored))
  {
    hide Roughly, TwoToTheOneOver, Int32, Step;
    StoredStaysBetween(halfLife, smoothed, metric, random);
    FractionStaysBetween(halfLife, metric - smoothed, random);
    FractionSize(halfLife, metric - smoothed, random);
  }

  lemma FractionSize(halfLife: int, diff: int, random: nat)
    requires halfLife >= 2
    ensures var size := Distance(Fraction(halfLife, diff, random), 0);
            var d := Distance(diff, 0);
            (3 * d - 3) * Rate(halfLife) - 0x40000 <= 0x40000 * size <= 5 * d * Rate(halfLife)
  {
    hide Roughly, TwoToTheOneOver;
    RoughlyBounds(diff, random);
    Factor(halfLife);
    var r, f, d := Roughly(diff, random), Rate(halfLife), Distance(diff, 0);
    var size := if r >= 0 then r else -r;
    Negated(r, f);
    FractionOf(size, f, d);
    Raised(0, f, size);
  }

  lemma Ordered(a: int, b: int, f: int)
    ensures a <= b && f >= 0 ==> a * f <= b * f
  {
  }

  lemma FractionOf(size: int, f: int, d: nat)
    requires 0 <= size && f >= 0 && 3 * d - 3 <= 4 * size <= 5 * d
    ensures (3 * d - 3) * f - 0x40000 <= 0x40000 * (size * f / 0x10000) <= 5 * d * f
  {
    Ordered(3 * d - 3, 4 * size, f);
    Ordered(4 * size, 5 * d, f);
    var q := size * f / 0x10000;
    assert 0x10000 * q <= size * f < 0x10000 * q + 0x10000;
    assert 4 * size * f == 4 * (size * f);
  }

  predicate Closed(metric: int, smoothed: int, smoothed0: int) {
    8 * Distance(metric, smoothed) <= 5 * Distance(metric, smoothed0) + 8
  }

  /** The smoothed metric has gone a course from what it was, towards the metric. */
  ghost predicate Gone(course: seq<nat>, halfLife: int, k: nat, n: nat, smoothed0: U16, smoothed: U16, metric: U16) {
    && Course(course, halfLife, k, n) && Between(smoothed, smoothed0, metric)
    && course[0] == Distance(metric, smoothed0) && course[k + n] == Distance(metric, smoothed)
    && (k + n == 0 ==> smoothed == smoothed0) && (k > 0 ==> Closed(metric, smoothed, smoothed0))
  }

  lemma GoneNowhere(halfLife: int, smoothed0: U16, metric: U16)
    requires halfLife > 0
    ensures Gone([Distance(metric, smoothed0)], halfLife, 0, 0, smoothed0, smoothed0, metric)
  {
  }

  lemma GoneHalf(course: seq<nat>, halfLife: int, k: nat, smoothed0: U16, smoothed: U16, metric: U16, after: U16)
    requires Gone(course, halfLife, k, 0, smoothed0, smoothed, metric) && Between(after, smoothed, metric)
    requires OneHalf(Distance(metric, smoothed), Distance(metric, after))
    ensures Gone(course + [Distance(metric, after)], halfLife, k + 1, 0, smoothed0, after, metric)
  {
    hide OneSecond;
  }

  lemma GoneSecond(course: seq<nat>, halfLife: int, k: nat, n: nat, smoothed0: U16, smoothed: U16, metric: U16,
                   after: U16)
    requires Gone(course, halfLife, k, n, smoothed0, smoothed, metric) && Between(after, smoothed, metric)
    requires OneSecond(halfLife, Distance(metric, smoothed), Distance(metric, after))
    ensures Gone(course + [Distance(metric, after)], halfLife, k, n + 1, smoothed0, after, metric)
  {
    hide OneHalf, OneSecond;
  }

  lemma GoneAll(course: seq<nat>, halfLife: int, k: nat, n: nat, smoothed0: U16, smoothed: U16, metric: U16)
    requires Gone(course, halfLife, k, n, smoothed0, smoothed, metric)
    ensures Course(course, halfLife, k, n) && Between(smoothed, smoothed0, metric)
    ensures course[0] == Distance(metric, smoothed0) && course[|course| - 1] == Distance(metric, smoothed)
    ensures k + n == 0 ==> smoothed == smoothed0
    ensures k > 0 ==> Closed(metric, smoothed, smoothed0)
  {
    hide OneHalf, OneSecond;
  }

  lemma WholeHalfLives(t: int, halfLife: int, k: nat)
    requires halfLife > 0 && k * halfLife <= t < k * halfLife + halfLife
    ensures t / halfLife == k && t % halfLife == t - k * halfLife
  {
    var q := t / halfLife;
    assert t == halfLife * q + t % halfLife && halfLife * q == q * halfLife;
    assert (q + 1) * halfLife == q * halfLife + halfLife && (k + 1) * halfLife == k * halfLife + halfLife;
    Ordered(q + 1, k, halfLife);
    Ordered(k + 1, q, halfLife);
  }

  /** route_smoothed_metric: the smoothed metric is brought to the current second. Whatever the random numbers, it
      ends between what it was and the metric, and once a half-life has passed the difference has shrunk by three
      eighths, up to rounding; asking again within the second gives the same answer. `course` are the differences on the
      way: one for each half-life that has passed, and one for each second that is left. */
  method RouteSmoothedMetric(metric: U16, smoothed0: U16, time0: int, now: int, halfLife: int)
    returns (smoothed: U16, time: int, ghost course: seq<nat>)
    ensures time == now && Between(smoothed, smoothed0, metric)
    ensures halfLife <= 0 || metric >= INFINITY || time0 > now || smoothed0 == metric ==> smoothed == metric
    ensures 0 < halfLife <= now - time0 ==> Closed(metric, smoothed, smoothed0)
    ensures time0 == now ==> smoothed == AtOnce(halfLife, metric, smoothed0)
    ensures AtOnce(halfLife, metric, smoothed) == smoothed
    ensures halfLife > 0 && metric < INFINITY && time0 <= now && smoothed0 != metric ==>
              && Course(course, halfLife, (now - time0) / halfLife, (now - time0) % halfLife)
              && course[0] == Distance(metric, smoothed0)
              && var rest := course[|course| - 1]; Distance(metric, smoothed) == if rest < 4 then 0 else rest
  {
    hide Quotient, Roughly, Fraction, Step, TwoToTheOneOver, OneHalf, OneSecond, Gone, Course;
    smoothed, time, course := smoothed0, time0, [Distance(metric, smoothed0)];
    if halfLife <= 0 || metric >= INFINITY || time > now || smoothed == metric {
      smoothed, time := metric, now;
    } else {
      ghost var k: nat, n: nat := 0, 0;
      GoneNowhere(halfLife, smoothed0, metric);
      while time <= now - halfLife
        invariant time == time0 + k * halfLife <= now && Gone(course, halfLife, k, 0, smoothed0, smoothed, metric)
        decreases now - time
      {
        var random: nat := *;
        HalfLeaves(smoothed, metric, random);
        GoneHalf(course, halfLife, k, smoothed0, smoothed, metric,
                 smoothed + Quotient(Roughly(metric - smoothed, random), 2));
        smoothed := smoothed + Quotient(Roughly(metric - smoothed, random), 2);
        time := time + halfLife;
        course, k := course + [Distance(metric, smoothed)], k + 1;
      }
      WholeHalfLives(now - time0, halfLife, k);
      while time < now
        invariant now - (now - time0) % halfLife + n == time <= now
        invariant Gone(course, halfLife, k, n, smoothed0, smoothed, metric)
        decreases now - time
      {
        var random: nat := *;
        SecondLeaves(halfLife, smoothed, metric, random);
        GoneSecond(course, halfLife, k, n, smoothed0, smoothed, metric,
                   (smoothed + Step(halfLife, metric - smoothed, random)) % 0x1_0000);
        smoothed := (smoothed + Step(halfLife, metric - smoothed, random)) % 0x1_0000;
        time := time + 1;
        course, n := course + [Distance(metric, smoothed)], n + 1;
      }
      GoneAll(course, halfLife, k, n, smoothed0, smoothed, metric);
      if -4 < metric - smoothed < 4 {
        smoothed := metric;
      }
    }
  }
}

/** The running average of the round-trip time, in microseconds. */
module RoundTripTime {
  import opened Common

  const TWO_TO_THE_32 := 0x1_0000_0000

  /** The weighted sum; `decay` is the weight of the sample, in units of 1/256. */
  function Sum(decay: nat, sample: nat, rtt: nat): nat
    requires 1 <= decay <= 256
  {
    Heavier(decay, 0, sample);
    Heavier(256 - decay, 0, rtt);
    decay * sample + (256 - decay) * rtt
  }

  lemma Heavier(weight: nat, a: nat, b: nat)
    requires a <= b
    ensures weight * a <= weight * b
  {
  }

  /** What is added to round towards the sample. */
  function Up(sample: nat, rtt: nat): nat { if rtt >= sample then 0 else 255 }

  /** The average of message.c, in 32-bit arithmetic. */
  function Average(decay: nat, sample: nat, rtt: nat): nat
    requires 1 <= decay <= 256
  {
    var sum := Sum(decay, sample, rtt) % TWO_TO_THE_32;
    (sum + Up(sample, rtt)) % TWO_TO_THE_32 / 256
  }

  /** The average without wrap-around. */
  function Exact(decay: nat, sample: nat, rtt: nat): nat
    requires 1 <= decay <= 256
  {
    (Sum(decay, sample, rtt) + Up(sample, rtt)) / 256
  }

  /** 2^24 microseconds, about 17 seconds. */
  const LIMIT := 0x100_0000

  /** The 32-bit sum does not wrap. */
  predicate Fits(decay: nat, sample: nat, rtt: nat)
    requires 1 <= decay <= 256
  {
    Sum(decay, sample, rtt) + Up(sample, rtt) < TWO_TO_THE_32
  }

  function Rounds(decay: nat, sample: nat, rtt: nat, n: nat): nat
    requires 1 <= decay <= 256
  {
    if n == 0 then rtt else Average(decay, sample, Rounds(decay, sample, rtt, n - 1))
  }

  /** What is computed is right exactly when the sum does not wrap; it is right modulo 2^24 in any case. */
  lemma AverageExactly(decay: nat, sample: nat, rtt: nat)
    requires 1 <= decay <= 256
    ensures Average(decay, sample, rtt) == Exact(decay, sample, rtt) <==> Fits(decay, sample, rtt)
    ensures Average(decay, sample, rtt) == Exact(decay, sample, rtt) % LIMIT
  {
    hide Sum;
    AddWraps(Sum(decay, sample, rtt), Up(sample, rtt));
    HighBits(Sum(decay, sample, rtt) + Up(sample, rtt));
  }

  /** Without wrap-around, the average moves from the old value by the weight of the sample, in units of 256, to
      within one microsecond, and is rounded towards the sample. */
  lemma AverageWeighs(decay: nat, sample: nat, rtt: nat)
    requires 1 <= decay <= 256 && Fits(decay, sample, rtt)
    ensures var moved := 256 * (Average(decay, sample, rtt) - rtt);
            if sample > rtt then decay * (sample - rtt) <= moved < decay * (sample - rtt) + 256
            else decay * (sample - rtt) - 256 < moved <= decay * (sample - rtt)
  {
    AverageExactly(decay, sample, rtt);
    Difference(decay, sample, rtt);
    hide Average;
  }

  lemma AddWraps(sum: nat, up: nat)
    ensures (sum % TWO_TO_THE_32 + up) % TWO_TO_THE_32 == (sum + up) % TWO_TO_THE_32
  {
    var q, r := sum / TWO_TO_THE_32, sum % TWO_TO_THE_32;
    Remainder(TWO_TO_THE_32, q, r + up);
  }

  lemma Remainder(w: nat, q: nat, r: nat)
    requires w in {TWO_TO_THE_32, LIMIT}
    ensures (q * w + r) % w == r % w
  {
  }

  lemma HighBits(n: nat)
    ensures n % TWO_TO_THE_32 / 256 == n / 256 % LIMIT
    ensures n / 256 % LIMIT == n / 256 <==> n < TWO_TO_THE_32
  {
    var q, r := n / TWO_TO_THE_32, n % TWO_TO_THE_32;
    assert n / 256 == q * LIMIT + r / 256;
    Remainder(LIMIT, q, r / 256);
  }

  lemma Weighted(decay: nat, d: nat)
    requires 1 <= decay <= 256
    ensures d <= decay * d <= 256 * d
  {
  }

  lemma Difference(decay: int, sample: int, rtt: int)
    ensures decay * sample + (256 - decay) * rtt == 256 * rtt + decay * (sample - rtt)
    ensures decay * (sample - rtt) == -(decay * (rtt - sample))
  {
  }

  /** The sum is the old value, moved by the weight of the difference. */
  lemma WeightedSum(decay: nat, sample: nat, rtt: nat) returns (move: nat)
    requires 1 <= decay <= 256
    ensures Apart(sample, rtt) <= move <= 256 * Apart(sample, rtt)
    ensures Sum(decay, sample, rtt) == if sample >= rtt then 256 * rtt + move else 256 * rtt - move
  {
    Difference(decay, sample, rtt);
    Weighted(decay, Apart(sample, rtt));
    move := decay * Apart(sample, rtt);
  }

  function Apart(a: nat, b: nat): nat { if a >= b then a - b else b - a }

  /** As long as the sum does not wrap, the average lies between the old value and the sample, and strictly closer to
      the sample if they differ: that is what the rounding is for. */
  lemma Closer(decay: nat, sample: nat, rtt: nat)
    requires 1 <= decay <= 256 && Fits(decay, sample, rtt)
    ensures var r := Average(decay, sample, rtt);
            && (rtt > sample ==> sample <= r < rtt)
            && (rtt < sample ==> rtt < r <= sample)
            && (rtt == sample ==> r == rtt)
  {
    AverageExactly(decay, sample, rtt);
    var move := WeightedSum(decay, sample, rtt);
    hide Average;
  }

  /** A sum that fits still fits in the next round. */
  lemma StillFits(decay: nat, sample: nat, rtt: nat)
    requires 1 <= decay <= 256 && sample < LIMIT && Fits(decay, sample, rtt)
    ensures Fits(decay, sample, Average(decay, sample, rtt))
  {
    Closer(decay, sample, rtt);
    var r := Average(decay, sample, rtt);
    Heavier(256 - decay, r, Max(rtt, sample));
    var move := WeightedSum(decay, sample, sample);
    hide Average;
  }

  /** A constant sample is reached within as many rounds as it is away, once the first round does not wrap. */
  lemma {:induction false} Converges(decay: nat, sample: nat, rtt: nat, n: nat)
    requires 1 <= decay <= 256 && sample < LIMIT && Fits(decay, sample, rtt)
    ensures Fits(decay, sample, Rounds(decay, sample, rtt, n))
    ensures Apart(Rounds(decay, sample, rtt, n), sample) <= Max(0, Apart(rtt, sample) - n)
    ensures n >= Apart(rtt, sample) ==> Rounds(decay, sample, rtt, n) == sample
  {
    if n > 0 {
      Converges(decay, sample, rtt, n - 1);
      StillFits(decay, sample, Rounds(decay, sample, rtt, n - 1));
      Closer(decay, sample, Rounds(decay, sample, rtt, n - 1));
      hide Fits, Average;
    }
  }

  /** A round-trip time keeps its own average exactly when it is below the limit: beyond, the sum wraps. */
  lemma StableExactly(decay: nat, rtt: nat)
    requires 1 <= decay <= 256
    ensures Average(decay, rtt, rtt) == rtt <==> rtt < LIMIT
  {
  }
}

/** The cost of a link to a neighbour. */
module LinkCost {
  import opened Common

  const TWO_TO_THE_32 := 0x1_0000_0000

  /** Which of the last Hellos were received: bit `i` of the word, counting from the least significant. The latest
      is bit 15. */
  type Reach = r: seq<bool> | |r| == 16 witness seq(16, _ => false)

  function Value(bits: seq<bool>): nat {
    if bits == [] then 0 else (if bits[0] then 1 else 0) + 2 * Value(bits[1..])
  }

  function TwoTo(n: nat): nat { if n == 0 then 1 else 2 * TwoTo(n - 1) }

  lemma {:induction false} ValueBounds(bits: seq<bool>)
    ensures Value(bits) < TwoTo(|bits|)
  {
    if bits != [] { ValueBounds(bits[1..]); }
  }

  lemma {:induction false} ValueGrows(bits: seq<bool>, i: nat)
    requires i < |bits| && !bits[i]
    ensures Value(bits[i := true]) == Value(bits) + TwoTo(i)
  {
    if i > 0 {
      assert bits[i := true][1..] == bits[1..][i - 1 := true];
      ValueGrows(bits[1..], i - 1);
    } else {
      assert bits[0 := true][1..] == bits[1..];
    }
  }

  /** The weighted history of Hellos: the two latest count as much as the third. */
  function History(reach: Reach): int {
    (if reach[15] then 0x2000 else 0) + (if reach[14] then 0x2000 else 0) + Value(reach[..14])
  }

  /** The cost of the interface, weighted by the history of Hellos. */
  function Weighted(reach: Reach, cost: U16): nat {
    HistoryBounds(reach);
    0x8000 * cost / (History(reach) + 1)
  }

  /** Twenty thousand times what the cost has risen to. */
  function Product(cost: nat, delay: nat): nat
    requires delay >= 40000
  {
    cost * (delay - 20000) + 10000
  }

  /** The cost rises while no Hello is heard; 32-bit arithmetic. */
  function Late(cost: nat, delay: nat): nat {
    if delay >= 40000 then Product(cost, delay) % TWO_TO_THE_32 / 20000 else cost
  }

  /** The same, without wrap-around. */
  function ExactLate(cost: nat, delay: nat): nat {
    if delay >= 40000 then Product(cost, delay) / 20000 else cost
  }

  /** The product does not wrap, or what is left of it is still beyond every metric. */
  predicate Fits(cost: nat, delay: nat) {
    delay >= 40000 ==>
      Product(cost, delay) < TWO_TO_THE_32 || Product(cost, delay) % TWO_TO_THE_32 >= 20000 * INFINITY
  }

  /** neighbour_rxcost, with `delay` milliseconds since the last Hello; `lq` is the flag IF_LQ. */
  function RxCost(lq: bool, reach: Reach, delay: nat, cost: U16): int {
    if (forall i :: 4 <= i < 16 ==> !reach[i]) || delay >= 180000 then INFINITY
    else if lq then Min(Late(Weighted(reach, cost), delay), INFINITY)
    else if reach[15] && reach[14] then cost
    else if !reach[15] && !reach[14] then INFINITY
    else if reach[13] then cost
    else INFINITY
  }

  lemma HistoryBounds(reach: Reach)
    ensures 0 <= History(reach) <= 0x7FFF
  {
    ValueBounds(reach[..14]);
    assert TwoTo(14) == 0x4000;
  }

  /** One more Hello in the history counts for something. */
  lemma HistoryGrows(reach: Reach, i: nat)
    requires i < 16 && !reach[i]
    ensures History(reach[i := true]) > History(reach)
  {
    if i < 14 {
      ValueGrows(reach[..14], i);
      assert reach[i := true][..14] == reach[..14][i := true];
      Positive(i);
    } else {
      assert reach[i := true][..14] == reach[..14];
    }
  }

  lemma Positive(n: nat)
    ensures TwoTo(n) > 0
  {
  }

  /** The cost of a late Hello is right exactly when the product does not wrap, or wraps to something that is infinite
      all the same. */
  lemma LateExactly(cost: nat, delay: nat)
    ensures Min(Late(cost, delay), INFINITY) == Min(ExactLate(cost, delay), INFINITY) <==> Fits(cost, delay)
  {
  }

  lemma LateIsDearer(cost: nat, delay: nat)
    ensures ExactLate(cost, delay) >= cost
  {
    if delay >= 40000 {
      Times(cost, 20000, delay - 20000);
      AtLeast(Product(cost, delay), 20000, cost);
    }
  }

  lemma LateKeepsOrder(less: nat, more: nat, delay: nat)
    requires less <= more && Fits(more, delay)
    ensures Min(Late(less, delay), INFINITY) <= Min(Late(more, delay), INFINITY)
  {
    if delay >= 40000 {
      Times(delay - 20000, less, more);
      WrapKeepsOrder(Product(less, delay), Product(more, delay));
    }
    hide Product;
  }

  lemma WrapKeepsOrder(less: nat, more: nat)
    requires less <= more && (more < TWO_TO_THE_32 || more % TWO_TO_THE_32 >= 20000 * INFINITY)
    ensures Min(less % TWO_TO_THE_32 / 20000, INFINITY) <= Min(more % TWO_TO_THE_32 / 20000, INFINITY)
  {
  }

  /** Unless the product wraps, the cost is at least that of the interface, however late the Hello. */
  lemma AtLeastInterface(lq: bool, reach: Reach, delay: nat, cost: U16)
    requires lq ==> Fits(Weighted(reach, cost), delay)
    ensures cost <= RxCost(lq, reach, delay, cost) <= INFINITY
  {
    HistoryBounds(reach);
    var n := History(reach) + 1;
    Times(cost, n, 0x8000);
    AtLeast(0x8000 * cost, n, cost);
    LateExactly(Weighted(reach, cost), delay);
    LateIsDearer(Weighted(reach, cost), delay);
    hide Late, ExactLate, Fits;
  }

  /** Unless the product wraps, one more Hello in the history never raises the cost, however late. */
  lemma NeverRises(lq: bool, reach: Reach, i: nat, delay: nat, cost: U16)
    requires i < 16 && !reach[i] && (lq ==> Fits(Weighted(reach, cost), delay))
    ensures RxCost(lq, reach[i := true], delay, cost) <= RxCost(lq, reach, delay, cost)
  {
    assert forall k :: 0 <= k < 16 && reach[k] ==> reach[i := true][k];
    WeightedFalls(reach, i, cost);
    var less, more := Weighted(reach[i := true], cost), Weighted(reach, cost);
    if lq {
      LateKeepsOrder(less, more, delay);
    }
    hide Weighted, Late, Fits;
  }

  lemma WeightedFalls(reach: Reach, i: nat, cost: U16)
    requires i < 16 && !reach[i]
    ensures Weighted(reach[i := true], cost) <= Weighted(reach, cost)
  {
    HistoryGrows(reach, i);
    HistoryBounds(reach);
    Antitone(0x8000 * cost, History(reach) + 1, History(reach[i := true]) + 1);
  }

  /** The product does wrap: a link of interface cost 96, of whose Hellos only one is remembered, gets
      a cost of 2 when it was last heard 43 seconds ago. */
  lemma LateCostWraps(reach: Reach)
    requires reach == seq(16, i => i == 4)
    ensures RxCost(true, reach, 43211, 96) == 2
  {
    var none := seq(14, _ => false);
    assert reach[..14] == none[4 := true];
    NoValue(none);
    ValueGrows(none, 4);
    assert TwoTo(4) == 16;
    assert History(reach) == 16 && reach[4];
    assert 0x8000 * 96 / 17 == 185042;
  }

  lemma {:induction false} NoValue(bits: seq<bool>)
    requires forall i :: 0 <= i < |bits| ==> !bits[i]
    ensures Value(bits) == 0
  {
    if bits != [] { NoValue(bits[1..]); }
  }

  // ---- division

  lemma Times(p: nat, a: nat, b: nat)
    requires a <= b
    ensures 0 <= p * a <= p * b
  {
  }

  lemma AtLeast(a: nat, n: nat, c: nat)
    requires n > 0 && c * n <= a
    ensures c <= a / n
  {
    if a / n < c { Beyond(a, n, c); }
  }

  lemma Beyond(a: nat, n: nat, c: nat)
    requires n > 0 && a / n < c
    ensures a < c * n
  {
    var q := a / n;
    Times(n, q + 1, c);
    assert a == q * n + a % n;
    assert n * (q + 1) == q * n + n && n * c == c * n;
  }

  lemma Antitone(a: nat, m: nat, n: nat)
    requires 0 < m <= n
    ensures a / n <= a / m
  {
    Times(a / n, m, n);
    assert a / n * n <= a;
    AtLeast(a, m, a / n);
  }

  lemma Monotone(a: nat, b: nat, w: nat)
    requires a <= b && w > 0
    ensures 0 <= a / w <= b / w
  {
    assert a / w * w <= a;
    AtLeast(b, w, a / w);
  }

  lemma Whole(p: nat, w: nat)
    requires w > 0
    ensures p * w / w == p
  {
    AtLeast(p * w, w, p);
    var q: nat := p * w / w;
    assert q * w <= p * w;
    if q > p { Grows(p, q, w); }
  }

  lemma Grows(a: nat, b: nat, w: nat)
    requires w > 0 && a < b
    ensures a * w < b * w
  {
  }

  // ---- round-trip time

  /** The part of the penalty for `d` out of `w` microseconds. */
  function Share(penalty: nat, d: nat, w: nat): int
    requires w > 0
  {
    penalty * d / w
  }

  lemma ShareRises(penalty: nat, d: nat, e: nat, w: nat)
    requires d <= e <= w && w > 0
    ensures 0 <= Share(penalty, d, w) <= Share(penalty, e, w) <= penalty
  {
    Times(penalty, d, e);
    Times(penalty, e, w);
    Monotone(penalty * d, penalty * e, w);
    Monotone(penalty * e, penalty * w, w);
    Whole(penalty, w);
  }

  /** neighbour_rttcost, for a valid round-trip time: linear between the two bounds. */
  function RttCost(penalty: nat, min: nat, max: nat, rtt: nat): int {
    if penalty == 0 || rtt <= min then 0
    else if rtt <= max then Share(penalty, rtt - min, max - min)
    else penalty
  }

  /** The cost never falls when the round-trip time rises, and never exceeds the penalty. */
  lemma RttCostRises(penalty: nat, min: nat, max: nat, rtt: nat, more: nat)
    requires rtt <= more
    ensures 0 <= RttCost(penalty, min, max, rtt) <= RttCost(penalty, min, max, more) <= penalty
  {
    hide Share;
    if min < rtt <= max {
      ShareRises(penalty, rtt - min, if more <= max then more - min else max - min, max - min);
    }
    if min < more <= max {
      ShareRises(penalty, more - min, max - min, max - min);
    }
  }

  /** The product of the two directions: plain ETX. */
  function Etx(a: nat, b: nat): nat {
    (a * b + 128) / 256
  }

  /** neighbour_cost, for an interface that is up. */
  function Cost(lq: bool, txcost: U16, rxcost: U16, rttcost: nat): int {
    if txcost >= INFINITY || rxcost >= INFINITY then INFINITY
    else
      var cost := if !lq || (txcost < 256 && rxcost < 256) then txcost else Etx(Max(txcost, 256), Max(rxcost, 256));
      Min(cost + rttcost, INFINITY)
  }

  /** The product fits in 32 bits, and is at least either factor. */
  lemma EtxBounds(a: nat, b: nat)
    requires 256 <= a <= 0xFFFF && 256 <= b <= 0xFFFF
    ensures a * b + 128 < 0x1_0000_0000
    ensures Etx(a, b) >= a && Etx(a, b) >= b
  {
    Times(a, 256, b);
    Times(b, 256, a);
    Times(a, b, 0xFFFF);
    var product := a * b;
    assert b * a == product;
    assert 256 * a <= product && 256 * b <= product <= 0xFFFF * 0xFFFF;
  }

  /** The cost of a link is at least what the neighbour told us, hence at least 1 if that is; and with link quality
      at least what we measure, once either is worse than 256. */
  lemma CostBounds(lq: bool, txcost: U16, rxcost: U16, rttcost: nat)
    ensures txcost <= Cost(lq, txcost, rxcost, rttcost) <= INFINITY
    ensures lq && (txcost >= 256 || rxcost >= 256) ==> rxcost <= Cost(lq, txcost, rxcost, rttcost)
    ensures rttcost <= Cost(lq, txcost, rxcost, rttcost) || Cost(lq, txcost, rxcost, rttcost) == INFINITY
  {
    EtxBounds(Max(txcost, 256), Max(rxcost, 256));
    hide Etx;
  }

  // ---------------------------------------------------------------- exact values

  /** The plain product of the two directions, where 256 stands for a direction that loses nothing; without link
      quality, or if both are better than that, what the neighbour told us. */
  function Losses(lq: bool, txcost: U16, rxcost: U16): nat {
    if !lq || (txcost < 256 && rxcost < 256) then 256 * txcost
    else
      Times(Max(txcost, 256), 0, Max(rxcost, 256));
      Max(txcost, 256) * Max(rxcost, 256)
  }

  /** The cost is that product in units of 256, to the nearest whole number, and the cost of the round-trip time; it
      is infinite exactly if one direction is or the sum is too large. */
  lemma CostExactly(lq: bool, txcost: U16, rxcost: U16, rttcost: nat)
    ensures var cost, losses := Cost(lq, txcost, rxcost, rttcost), Losses(lq, txcost, rxcost);
            && (cost >= INFINITY <==>
                  txcost >= INFINITY || rxcost >= INFINITY || losses + 128 + 256 * rttcost >= 256 * INFINITY)
            && (cost < INFINITY ==> -128 <= losses + 256 * rttcost - 256 * cost < 128)
  {
  }

  /** A link that loses nothing costs what the neighbour told us; one that loses half of the packets each way four times
      the base cost of 256. */
  lemma CostOfGoodAndBad(txcost: U16)
    ensures txcost <= 256 ==> Cost(true, txcost, txcost, 0) == txcost
    ensures Cost(true, 512, 512, 0) == 1024
  {
  }

  /** The cost of the round-trip time: nothing up to the lower bound, the penalty above the upper one, and in between in
      proportion, rounded down. */
  lemma RttCostExactly(penalty: nat, min: nat, max: nat, rtt: nat)
    ensures rtt <= min ==> RttCost(penalty, min, max, rtt) == 0
    ensures rtt > max && rtt > min ==> RttCost(penalty, min, max, rtt) == penalty
    ensures min < rtt <= max ==>
              var cost := RttCost(penalty, min, max, rtt);
              (max - min) * cost <= penalty * (rtt - min) < (max - min) * (cost + 1)
  {
    if min < rtt <= max {
      Divided(penalty * (rtt - min), max - min);
    }
  }

  lemma Divided(a: int, w: int)
    requires w > 0
    ensures w * (a / w) <= a < w * (a / w + 1)
  {
  }

  /** No Hello among the last twelve, or none for three minutes. */
  predicate Silent(reach: Reach, delay: nat) { (forall i :: 4 <= i < 16 ==> !reach[i]) || delay >= 180000 }

  /** Without link quality: the cost of the interface if of the last three Hellos at most one was lost, and not both
      of the last two. Otherwise infinite. */
  lemma RxCostPlain(reach: Reach, delay: nat, cost: U16)
    ensures RxCost(false, reach, delay, cost)
            == if !Silent(reach, delay) && (reach[15] || reach[14]) && (reach[13] || (reach[15] && reach[14])) then cost
               else INFINITY
  {
  }

  /** With link quality: as long as a Hello was heard in the last 40 seconds, the cost of the interface, divided by
      the weight of the Hellos that were heard; exactly the cost of the interface if none was lost. */
  lemma RxCostInTime(reach: Reach, delay: nat, cost: U16)
    requires delay < 40000 && !Silent(reach, delay)
    ensures var n, rx := History(reach) + 1, RxCost(true, reach, delay, cost);
            && (rx < INFINITY ==> n * rx <= 0x8000 * cost < n * (rx + 1))
            && (rx >= INFINITY ==> 0x8000 * cost >= n * INFINITY)
    ensures (forall i :: 0 <= i < 16 ==> reach[i]) ==> RxCost(true, reach, delay, cost) == cost
  {
    HistoryBounds(reach);
    Divided(0x8000 * cost, History(reach) + 1);
    if Weighted(reach, cost) >= INFINITY {
      Times(History(reach) + 1, INFINITY, Weighted(reach, cost));
    }
    if forall i :: 0 <= i < 16 ==> reach[i] {
      FullValue(reach[..14]);
      assert TwoTo(14) == 0x4000;
    }
  }

  lemma {:induction false} FullValue(bits: seq<bool>)
    requires forall i :: 0 <= i < |bits| ==> bits[i]
    ensures Value(bits) == TwoTo(|bits|) - 1
  {
    if bits != [] { FullValue(bits[1..]); }
  }

  /** The bits of the history weigh as in the word: the two latest a quarter of the whole each, the next one as much,
      and so on by halves. */
  lemma HistoryWeights(reach: Reach, i: nat)
    requires i < 16 && !reach[i]
    ensures History(reach[i := true]) - History(reach) == if i >= 13 then 0x2000 else TwoTo(i)
  {
    if i < 14 {
      ValueGrows(reach[..14], i);
      assert reach[i := true][..14] == reach[..14][i := true];
      assert TwoTo(13) == 0x2000;
    } else {
      assert reach[i := true][..14] == reach[..14];
    }
  }

  /** From 40 seconds on the cost grows in proportion to the time since 20 seconds after the last Hello: it is itself
      at 40 seconds, and has doubled at 60. */
  lemma LateGrows(cost: nat, delay: nat)
    requires delay >= 40000
    ensures var late := ExactLate(cost, delay);
            20000 * late - 10000 <= cost * (delay - 20000) < 20000 * late + 10000
    ensures ExactLate(cost, 40000) == cost && ExactLate(cost, 60000) == 2 * cost
  {
    Divided(Product(cost, delay), 20000);
  }
}
