/**
  The server's side of one request (ttp_accept_retransmit in server/protocol.c)
  and the inter-packet delay it controls. Delays are reals: rounding of the
  C doubles is not modelled.
*/
module RateControl {
  import opened Wire

  datatype Parameters = Parameters(
    ipdTime: nat,              // the target delay, param->ipd_time
    errorRate: nat,            // the threshold
    slowerNum: nat, slowerDen: nat,
    fasterNum: nat, fasterDen: nat,
    blockCount: nat)

  /** The two fractions are well formed and the threshold is not 100 %, where the code divides by zero. */
  ghost predicate ValidParameters(p: Parameters) {
    p.slowerDen > 0 && p.fasterDen > 0 && p.errorRate != 100000
  }

  function MinR(a: real, b: real): real { if a < b then a else b }

  function MaxR(a: real, b: real): real { if a > b then a else b }

  function Target(p: Parameters): real { p.ipdTime as real }

  function Faster(p: Parameters): real
    requires p.fasterDen > 0
  {
    p.fasterNum as real / p.fasterDen as real
  }

  /** How far above the threshold a report lies. */
  function Excess(p: Parameters, rate: nat): real
    requires p.errorRate != 100000
  {
    (1.0 + rate as real - p.errorRate as real) / (100000.0 - p.errorRate as real)
  }

  function Slower(p: Parameters, rate: nat): real
    requires ValidParameters(p)
  {
    1.0 + (p.slowerNum as real / p.slowerDen as real - 1.0) * Excess(p, rate)
  }

  /** The delay after one error-rate report. */
  function Adjust(p: Parameters, x: real, rate: nat): real
    requires ValidParameters(p)
  {
    MaxR(MinR(if rate > p.errorRate then x * Slower(p, rate) else x * Faster(p), 10000.0), Target(p))
  }

  function AdjustAll(p: Parameters, x: real, rates: seq<nat>): real
    requires ValidParameters(p)
    decreases |rates|
  {
    if rates == [] then x else AdjustAll(p, Adjust(p, x, rates[0]), rates[1..])
  }

  /** ttp_open_transfer starts at three times the target. */
  function InitialDelay(p: Parameters): real { 3.0 * Target(p) }

  // ----- one request -----------------------------------------------------------------

  class ServerSession {
    const p: Parameters
    var ipdCurrent: real
    var block: nat

    constructor (p: Parameters)
      requires ValidParameters(p)
      ensures this.p == p && ipdCurrent == 3.0 * p.ipdTime as real == InitialDelay(p) && block == 0
    {
      this.p := p;
      ipdCurrent := 3.0 * p.ipdTime as real;
      block := 0;
    }

    /** `resend`: the block to build and send again at once; `ok` is false for a refused restart. */
    method AcceptRetransmit(r: Request) returns (ok: bool, resend: seq<nat>)
      requires ValidParameters(p) && r != Stop
      modifies this
      ensures ipdCurrent == if r.ErrorRate? then Adjust(p, old(ipdCurrent), r.rate) else old(ipdCurrent)
      ensures block == if r.Restart? && 1 <= r.block <= p.blockCount then r.block else old(block)
      ensures ok <==> (r.Restart? ==> 1 <= r.block <= p.blockCount)
      ensures resend == if r.Retransmit? then [r.block] else []
    {
      ok, resend := true, [];
      match r
      case ErrorRate(rate) =>
        if rate > p.errorRate {
          var factor1 := p.slowerNum as real / p.slowerDen as real - 1.0;
          var factor2 := (1.0 + rate as real - p.errorRate as real) / (100000.0 - p.errorRate as real);
          ipdCurrent := ipdCurrent * (1.0 + factor1 * factor2);
        } else {
          ipdCurrent := ipdCurrent * (p.fasterNum as real / p.fasterDen as real);
        }
        ipdCurrent := MaxR(MinR(ipdCurrent, 10000.0), p.ipdTime as real);
      case Restart(b) =>
        if b == 0 || b > p.blockCount {
          ok := false;
        } else {
          block := b;
        }
      case Retransmit(b) => resend := [b];
    }
  }

  // ----- bounds over every feedback sequence ---------------------------------------------

  /** The delay stays between the target and the larger of 10 ms and the initial delay. */
  lemma {:induction false} DelayBounds(p: Parameters, rates: seq<nat>)
    requires ValidParameters(p)
    ensures p.ipdTime as real <= AdjustAll(p, InitialDelay(p), rates) <= MaxR(10000.0, 3.0 * p.ipdTime as real)
    ensures rates == [] ==> AdjustAll(p, InitialDelay(p), rates) == 3.0 * p.ipdTime as real
  {
    BoundsFrom(p, InitialDelay(p), rates);
  }

  lemma {:induction false} BoundsFrom(p: Parameters, x: real, rates: seq<nat>)
    requires ValidParameters(p)
    requires Target(p) <= x <= MaxR(10000.0, InitialDelay(p))
    ensures Target(p) <= AdjustAll(p, x, rates) <= MaxR(10000.0, InitialDelay(p))
    decreases |rates|
  {
    if rates != [] {
      BoundsFrom(p, Adjust(p, x, rates[0]), rates[1..]);
    }
  }

  // ----- slowing down under high loss ------------------------------------------------------

  lemma DivideMonotone(a: real, b: real, d: real)
    requires a <= b && d > 0.0
    ensures a / d <= b / d
  {
    var q, r := a / d, b / d;
    assert q * d == a && r * d == b;
    if r < q {
      PositiveProduct(q - r, d);
    }
  }

  lemma DivideStrict(a: real, b: real, d: real)
    requires a < b && d > 0.0
    ensures a / d < b / d
  {
    var q, r := a / d, b / d;
    assert q * d == a && r * d == b;
    if r < q {
      PositiveProduct(q - r, d);
    }
  }

  lemma MulStrict(a: real, b: real, c: real)
    requires 0.0 < a && b < c
    ensures a * b < a * c
  {
    PositiveProduct(a, c - b);
    assert a * (c - b) == a * c - a * b;
  }

  /** The slow-down fraction less one: what a report of 99999 adds. */
  function Step(p: Parameters): real
    requires p.slowerDen > 0
  {
    p.slowerNum as real / p.slowerDen as real - 1.0
  }

  lemma StepRange(p: Parameters)
    requires p.slowerDen > 0
    ensures Step(p) >= 0.0 <==> p.slowerNum >= p.slowerDen
    ensures Step(p) > 0.0 <==> p.slowerNum > p.slowerDen
  {
    QuotientRange(p.slowerNum as real, p.slowerDen as real, Step(p) + 1.0);
  }

  /**
    With a slow-down fraction of at least one, a report above the threshold never
    shortens the delay, and more loss never lengthens it less. With a fraction above
    one every report above the threshold lengthens it, and more loss lengthens it more.
  */
  lemma SlowerGrows(p: Parameters, r1: nat, r2: nat)
    requires ValidParameters(p) && p.slowerDen <= p.slowerNum && p.errorRate < 100000
    requires p.errorRate < r1 <= r2
    ensures 1.0 <= Slower(p, r1) <= Slower(p, r2)
    ensures p.slowerDen < p.slowerNum ==> 1.0 < Slower(p, r1) && (r1 < r2 ==> Slower(p, r1) < Slower(p, r2))
  {
    ExcessGrows(p, r1, r2);
    StepRange(p);
    SlowerIs(p, r1);
    SlowerIs(p, r2);
    Growth(Step(p), Excess(p, r1), Excess(p, r2));
  }

  lemma SlowerIs(p: Parameters, rate: nat)
    requires ValidParameters(p)
    ensures Slower(p, rate) == 1.0 + Step(p) * Excess(p, rate)
  {
  }

  lemma Growth(f: real, e1: real, e2: real)
    requires 0.0 <= f && 0.0 < e1 <= e2
    ensures 1.0 <= 1.0 + f * e1 <= 1.0 + f * e2
    ensures 0.0 < f ==> 1.0 < 1.0 + f * e1 && (e1 < e2 ==> f * e1 < f * e2)
  {
    MulLeft(f, 0.0, e1);
    MulLeft(f, e1, e2);
    if 0.0 < f {
      MulStrict(f, 0.0, e1);
      if e1 < e2 {
        MulStrict(f, e1, e2);
      }
    }
  }

  lemma ExcessGrows(p: Parameters, r1: nat, r2: nat)
    requires p.errorRate < 100000 && p.errorRate < r1 <= r2
    ensures 0.0 < Excess(p, r1) <= Excess(p, r2)
    ensures r1 < r2 ==> Excess(p, r1) < Excess(p, r2)
  {
    var d := 100000.0 - p.errorRate as real;
    DivideStrict(0.0, 1.0 + r1 as real - p.errorRate as real, d);
    DivideMonotone(1.0 + r1 as real - p.errorRate as real, 1.0 + r2 as real - p.errorRate as real, d);
    if r1 < r2 {
      DivideStrict(1.0 + r1 as real - p.errorRate as real, 1.0 + r2 as real - p.errorRate as real, d);
    }
  }

  lemma DifferenceOfQuotients(a: real, d: real)
    requires d != 0.0
    ensures (a + 1.0) / d - a / d == 1.0 / d
  {
    var q, r, u := (a + 1.0) / d, a / d, 1.0 / d;
    assert q * d == a + 1.0 && r * d == a && u * d == 1.0;
    assert (q - r - u) * d == 0.0;
  }

  lemma ProductOfQuotient(f: real, u: real, d: real)
    requires d != 0.0 && u * d == 1.0
    ensures f * u == f / d
  {
    var q := f / d;
    assert q * d == f;
    Product3(q, d, u);
    assert q * (d * u) == q;
  }

  lemma Distribute(f: real, a: real, b: real)
    ensures f * (a + b) == f * a + f * b
  {
  }

  /** Each further unit of loss adds the same amount; with FullSlowdownAt this fixes every slow-down. */
  lemma EachUnitAddsTheSame(p: Parameters, rate: nat)
    requires ValidParameters(p)
    ensures Slower(p, rate + 1) - Slower(p, rate) ==
            (p.slowerNum as real / p.slowerDen as real - 1.0) / (100000.0 - p.errorRate as real)
  {
    var f, d := Step(p), 100000.0 - p.errorRate as real;
    var a := 1.0 + rate as real - p.errorRate as real;
    assert (rate + 1) as real == rate as real + 1.0;
    DifferenceOfQuotients(a, d);
    ProductOfQuotient(f, 1.0 / d, d);
    assert Excess(p, rate + 1) == Excess(p, rate) + 1.0 / d;
    SlowerIs(p, rate);
    SlowerIs(p, rate + 1);
    Distribute(f, Excess(p, rate), 1.0 / d);
  }

  /**
    One report above the threshold, with a fraction above one: a delay below the cap
    of 10 ms grows, and so it does by a report just above the threshold.
  */
  lemma LossLengthens(p: Parameters, x: real, rate: nat)
    requires ValidParameters(p) && p.slowerDen < p.slowerNum && p.errorRate < 100000
    requires p.errorRate < rate && 0.0 < x < 10000.0
    ensures Adjust(p, x, rate) > x
    ensures Target(p) <= x * Slower(p, rate) <= 10000.0 ==> Adjust(p, x, rate) == x * Slower(p, rate)
  {
    SlowerGrows(p, rate, rate);
    MulStrict(x, 1.0, Slower(p, rate));
  }

  lemma WholeQuotient(d: real)
    requires d > 0.0
    ensures d / d == 1.0
  {
  }

  /** The whole fraction is applied at 99999, one short of a report of total loss. */
  lemma FullSlowdownAt(p: Parameters)
    requires ValidParameters(p) && p.errorRate < 99999
    ensures Slower(p, 99999) == p.slowerNum as real / p.slowerDen as real
  {
    WholeQuotient(100000.0 - p.errorRate as real);
    assert Excess(p, 99999) == 1.0;
  }

  // ----- convergence under low loss ---------------------------------------------------------

  function Pow(f: real, k: nat): real {
    if k == 0 then 1.0 else f * Pow(f, k - 1)
  }

  /** Reports at or below the threshold. */
  ghost predicate QuietReports(p: Parameters, rates: seq<nat>) {
    forall i :: 0 <= i < |rates| ==> rates[i] <= p.errorRate
  }

  // The arguments about repeated scaling treat the scaling as a function, so
  // that no step of them multiplies.

  function Settle(scale: real -> real, target: real, x: real, k: nat): real {
    if k == 0 then x else MaxR(MinR(scale(Settle(scale, target, x, k - 1)), 10000.0), target)
  }

  function Iterate(scale: real -> real, x: real, k: nat): real {
    if k == 0 then x else scale(Iterate(scale, x, k - 1))
  }

  function Times(f: real): real -> real {
    (y: real) => y * f
  }

  /** The states a clamped update can produce. */
  ghost predicate Clamped(target: real, x: real) {
    0.0 <= target <= x <= MaxR(10000.0, target)
  }

  ghost predicate Shrinking(scale: real -> real) {
    forall y :: 0.0 <= y ==> 0.0 <= scale(y) <= y
  }

  /** Clamping after every step is clamping once, for a scaling that shrinks. */
  lemma {:induction false} SettleIsClampedIterate(scale: real -> real, target: real, x: real, k: nat)
    requires Shrinking(scale) && Clamped(target, x)
    ensures 0.0 <= Iterate(scale, x, k) <= x
    ensures Settle(scale, target, x, k) == MaxR(target, Iterate(scale, x, k))
  {
    if k > 0 {
      SettleIsClampedIterate(scale, target, x, k - 1);
    }
  }

  ghost predicate Growing(scale: real -> real) {
    forall y :: 0.0 <= y ==> y <= scale(y)
  }

  /** The same for a scaling that grows, against the cap. */
  lemma {:induction false} SettleOfGrowing(scale: real -> real, target: real, x: real, k: nat)
    requires Growing(scale) && Clamped(target, x)
    ensures x <= Iterate(scale, x, k)
    ensures Settle(scale, target, x, k) == MaxR(target, MinR(Iterate(scale, x, k), 10000.0))
  {
    if k > 0 {
      SettleOfGrowing(scale, target, x, k - 1);
    }
  }

  function Sum(d: real, k: nat): real {
    if k == 0 then 0.0 else Sum(d, k - 1) + d
  }

  /** When each step takes off at least d, k steps take off k of them, or reach the target. */
  lemma {:induction false} SettleDescends(scale: real -> real, target: real, x: real, d: real, k: nat)
    requires Shrinking(scale) && Clamped(target, x) && d >= 0.0
    requires forall y :: target <= y ==> scale(y) <= y - d
    ensures Clamped(target, Settle(scale, target, x, k))
    ensures Settle(scale, target, x, k) == target || Settle(scale, target, x, k) <= x - Sum(d, k)
  {
    if k > 0 {
      SettleDescends(scale, target, x, d, k - 1);
    }
  }

  /** A scaling that does not shrink above the target never reaches it. */
  lemma {:induction false} SettleStaysAbove(scale: real -> real, target: real, x: real, k: nat)
    requires Clamped(target, x) && x > target
    requires forall y :: y > target ==> scale(y) > target
    ensures Clamped(target, Settle(scale, target, x, k)) && Settle(scale, target, x, k) > target
  {
    if k > 0 {
      SettleStaysAbove(scale, target, x, k - 1);
    }
  }

  // ----- the scaling by a fraction ---------------------------------------------------------------

  lemma QuietStep(p: Parameters, y: real, rate: nat)
    requires ValidParameters(p) && rate <= p.errorRate
    ensures Adjust(p, y, rate) == MaxR(MinR(Times(Faster(p))(y), 10000.0), Target(p))
  {
  }

  lemma {:induction false} AdjustAllSnoc(p: Parameters, x: real, rates: seq<nat>, rate: nat)
    requires ValidParameters(p)
    ensures AdjustAll(p, x, rates + [rate]) == Adjust(p, AdjustAll(p, x, rates), rate)
    decreases |rates|
  {
    if rates == [] {
      assert (rates + [rate])[1..] == [];
    } else {
      assert (rates + [rate])[1..] == rates[1..] + [rate];
      AdjustAllSnoc(p, Adjust(p, x, rates[0]), rates[1..], rate);
    }
  }

  /** Only the number of quiet reports matters. */
  lemma {:induction false} QuietIsSettle(p: Parameters, x: real, rates: seq<nat>)
    requires ValidParameters(p) && QuietReports(p, rates)
    ensures AdjustAll(p, x, rates) == Settle(Times(Faster(p)), Target(p), x, |rates|)
    decreases |rates|
  {
    if rates != [] {
      var k := |rates| - 1;
      QuietIsSettle(p, x, rates[..k]);
      assert rates == rates[..k] + [rates[k]];
      AdjustAllSnoc(p, x, rates[..k], rates[k]);
      QuietStep(p, AdjustAll(p, x, rates[..k]), rates[k]);
      SettleUnfold(Times(Faster(p)), Target(p), x, |rates|);
    }
  }

  lemma SettleUnfold(scale: real -> real, target: real, x: real, k: nat)
    requires k > 0
    ensures Settle(scale, target, x, k) == MaxR(MinR(scale(Settle(scale, target, x, k - 1)), 10000.0), target)
  {
  }

  lemma MulLeft(a: real, b: real, c: real)
    requires 0.0 <= a && b <= c
    ensures a * b <= a * c
  {
  }

  lemma TimesIs(f: real, y: real)
    ensures Times(f)(y) == y * f
  {
  }

  lemma ProductWithin(y: real, f: real)
    requires 0.0 <= y && 0.0 <= f <= 1.0
    ensures 0.0 <= y * f <= y
  {
    MulLeft(y, 0.0, f);
    MulLeft(y, f, 1.0);
  }

  lemma ProductAbove(y: real, f: real)
    requires 0.0 <= y && 1.0 <= f
    ensures y <= y * f
  {
    MulLeft(y, 1.0, f);
  }

  lemma TimesShrinks(f: real)
    requires 0.0 <= f <= 1.0
    ensures Shrinking(Times(f))
  {
    forall y | 0.0 <= y ensures 0.0 <= Times(f)(y) <= y {
      TimesIs(f, y);
      ProductWithin(y, f);
    }
  }

  lemma Product3(x: real, y: real, f: real)
    ensures (x * y) * f == x * (f * y)
  {
  }

  lemma {:induction false} IterateTimes(f: real, x: real, k: nat)
    ensures Iterate(Times(f), x, k) == x * Pow(f, k)
  {
    if k > 0 {
      IterateTimes(f, x, k - 1);
      Product3(x, Pow(f, k - 1), f);
    }
  }

  /** Where a quotient lies. */
  lemma QuotientRange(a: real, d: real, q: real)
    requires a >= 0.0 && d > 0.0 && q * d == a
    ensures q >= 0.0
    ensures q <= 1.0 <==> a <= d
    ensures q < 1.0 <==> a < d
    ensures q == 0.0 <==> a == 0.0
  {
    if q < 0.0 {
      PositiveProduct(-q, d);
    } else if 0.0 < q {
      PositiveProduct(q, d);
    }
    assert (1.0 - q) * d == d - a;
    if q < 1.0 {
      PositiveProduct(1.0 - q, d);
    } else if q > 1.0 {
      PositiveProduct(q - 1.0, d);
      assert (q - 1.0) * d == a - d;
    }
  }

  lemma FasterRange(p: Parameters)
    requires p.fasterDen > 0
    ensures Faster(p) >= 0.0
    ensures Faster(p) <= 1.0 <==> p.fasterNum <= p.fasterDen
    ensures Faster(p) < 1.0 <==> p.fasterNum < p.fasterDen
    ensures Faster(p) == 0.0 <==> p.fasterNum == 0
  {
    QuotientRange(p.fasterNum as real, p.fasterDen as real, Faster(p));
  }

  /** x scaled k times by the speed-up factor. */
  function Decayed(p: Parameters, x: real, k: nat): real
    requires p.fasterDen > 0
  {
    x * Pow(Faster(p), k)
  }

  /**
    Quiet reports after a clamped update scale the delay by the same fraction each
    time, until the target or the 10 ms cap stops it.
  */
  lemma QuietExactly(p: Parameters, x: real, rates: seq<nat>)
    requires ValidParameters(p) && Clamped(Target(p), x) && QuietReports(p, rates)
    ensures AdjustAll(p, x, rates) == MaxR(Target(p), MinR(Decayed(p, x, |rates|), 10000.0))
  {
    var f, target := Faster(p), Target(p);
    FasterRange(p);
    QuietIsSettle(p, x, rates);
    DecayedIterates(p, x, |rates|);
    if p.fasterNum <= p.fasterDen {
      TimesShrinks(f);
      SettleIsClampedIterate(Times(f), target, x, |rates|);
    } else {
      TimesGrows(f);
      SettleOfGrowing(Times(f), target, x, |rates|);
    }
  }

  lemma TimesGrows(f: real)
    requires f >= 1.0
    ensures Growing(Times(f))
  {
    forall y | 0.0 <= y ensures y <= Times(f)(y) {
      TimesIs(f, y);
      ProductAbove(y, f);
    }
  }

  lemma DecayedIterates(p: Parameters, x: real, k: nat)
    requires p.fasterDen > 0
    ensures Iterate(Times(Faster(p)), x, k) == Decayed(p, x, k)
  {
    IterateTimes(Faster(p), x, k);
  }

  lemma TimesTakesOff(f: real, target: real, d: real)
    requires 0.0 <= f <= 1.0 && d == (1.0 - f) * target
    ensures forall y :: target <= y ==> Times(f)(y) <= y - d
  {
    forall y | target <= y ensures Times(f)(y) <= y - d {
      TimesIs(f, y);
      ProductTakesOff(y, f, target);
    }
  }

  lemma ProductTakesOff(y: real, f: real, target: real)
    requires f <= 1.0 && target <= y
    ensures y * f <= y - (1.0 - f) * target
  {
    MulLeft(1.0 - f, target, y);
    assert y * f + (1.0 - f) * y == y;
  }

  lemma {:induction false} SumIsProduct(d: real, k: nat)
    ensures Sum(d, k) == d * k as real
  {
    if k > 0 {
      SumIsProduct(d, k - 1);
      assert k as real == (k - 1) as real + 1.0;
      assert d * k as real == d * (k - 1) as real + d;
    }
  }

  lemma Archimedes(a: real, d: real) returns (k: nat)
    requires d > 0.0
    ensures Sum(d, k) >= a
  {
    if a <= 0.0 {
      k := 0;
    } else {
      var q := a / d;
      k := q.Floor + 1;
      SumIsProduct(d, k);
      MulLeft(d, q, k as real);
      assert d * q == a;
    }
  }

  lemma PositiveProduct(a: real, b: real)
    requires a > 0.0 && b > 0.0
    ensures a * b > 0.0
  {
  }

  /** With a real speed-up and a positive target the target is reached. */
  lemma TimesReaches(f: real, target: real, x: real) returns (k: nat)
    requires 0.0 <= f < 1.0 && Clamped(target, x) && (target > 0.0 || f == 0.0)
    ensures Settle(Times(f), target, x, k) == target
  {
    if f == 0.0 {
      SettleUnfold(Times(f), target, x, 1);
      assert Times(f)(x) == 0.0;
      k := 1;
    } else {
      var d := (1.0 - f) * target;
      PositiveProduct(1.0 - f, target);
      k := Archimedes(x - target, d);
      TimesShrinks(f);
      TimesTakesOff(f, target, d);
      SettleDescends(Times(f), target, x, d, k);
    }
  }

  lemma TimesStaysAbove(f: real, target: real)
    requires target >= 0.0 && (f >= 1.0 || (target == 0.0 && f > 0.0))
    ensures forall y :: y > target ==> Times(f)(y) > target
  {
    forall y | y > target ensures Times(f)(y) > target {
      TimesIs(f, y);
      if f >= 1.0 {
        ProductAbove(y, f);
      } else {
        PositiveProduct(y, f);
      }
    }
  }

  ghost predicate ReachedAfter(p: Parameters, x: real, k: nat)
    requires ValidParameters(p)
  {
    forall rates :: QuietReports(p, rates) && |rates| == k ==> AdjustAll(p, x, rates) == Target(p)
  }

  /** Exactly when quiet reports bring a raised delay back to the target. */
  lemma QuietReachesIff(p: Parameters, x: real)
    requires ValidParameters(p) && Clamped(Target(p), x) && x > Target(p)
    ensures (exists k: nat :: ReachedAfter(p, x, k)) <==>
            p.fasterNum < p.fasterDen && (p.ipdTime >= 1 || p.fasterNum == 0)
  {
    FasterRange(p);
    if p.fasterNum < p.fasterDen && (p.ipdTime >= 1 || p.fasterNum == 0) {
      var k := TimesReaches(Faster(p), Target(p), x);
      forall rates | QuietReports(p, rates) && |rates| == k ensures AdjustAll(p, x, rates) == Target(p) {
        QuietIsSettle(p, x, rates);
      }
      assert ReachedAfter(p, x, k);
    } else {
      TimesStaysAbove(Faster(p), Target(p));
      forall k: nat ensures !ReachedAfter(p, x, k) {
        var rates: seq<nat> := seq(k, _ => 0);
        QuietIsSettle(p, x, rates);
        SettleStaysAbove(Times(Faster(p)), Target(p), x, k);
        assert AdjustAll(p, x, rates) != Target(p);
      }
    }
  }
}
