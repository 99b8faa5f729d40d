/**
  Choosing the amount of parity from the loss rate (core-supervisor/src/fec_engine.rs,
  `FecConfig::for_loss` and `AdaptiveFec`), in exact arithmetic.
 */
module AdaptiveFec {
  import opened ErasureCode

  datatype Config = Config(k: nat, m: nat, shardSize: nat, targetLoss: real)

  /** The controller's state: the current configuration and the smoothed loss rate. */
  datatype State = State(config: Config, ewma: real)

  function Clamp(x: real, lo: real, hi: real): real {
    if x < lo then lo else if x > hi then hi else x
  }

  function MaxReal(x: real, y: real): real {
    if x < y then y else x
  }

  function Ceil(x: real): int {
    -((-x).Floor)
  }

  function Ratio(k: nat, t: real): real
    requires t < 1.0
  {
    k as real * t / (1.0 - t)
  }

  /** k * t / (1 - t), rounded up, and at least one. */
  function ParityFor(k: nat, t: real): (m: nat)
    requires 0.0 <= t < 1.0
    ensures m >= 1
  {
    var m := Ceil(Ratio(k, t));
    if m < 1 then 1 else m
  }

  function ForLoss(k: nat, lossRate: real, shardSize: nat): Config {
    var loss := Clamp(lossRate, 0.0, 0.9);
    Config(k, ParityFor(k, loss), shardSize, loss)
  }

  function NewController(k: nat, shardSize: nat): State {
    State(ForLoss(k, 0.3, shardSize), 0.05)
  }

  const ALPHA := 0.2

  function Target(s: State, loss: real): (t: real)
    ensures 0.05 <= t <= 0.5
  {
    var ewma := s.ewma * (1.0 - ALPHA) + loss * ALPHA;
    Clamp(MaxReal(MaxReal(ewma * 1.2, Clamp(loss, 0.0, 0.5)), s.config.targetLoss), 0.05, 0.5)
  }

  function Room(k: nat): nat {
    if k < MAX_TOTAL_SHARDS then MAX_TOTAL_SHARDS - k else 0
  }

  function NewParity(s: State, loss: real): nat {
    var m := ParityFor(s.config.k, Target(s, loss));
    if Room(s.config.k) < m then Room(s.config.k) else m
  }

  /** One observed loss rate. */
  function ObserveLoss(s: State, loss: real): State {
    var m := NewParity(s, loss);
    var config := if m != s.config.m && m > 0 then s.config.(m := m, targetLoss := Target(s, loss)) else s.config;
    State(config, s.ewma * (1.0 - ALPHA) + loss * ALPHA)
  }

  function ObserveAll(s: State, losses: seq<real>): State {
    if losses == [] then s else ObserveLoss(ObserveAll(s, losses[..|losses| - 1]), losses[|losses| - 1])
  }

  // ---- The parity chosen for a loss rate survives that loss rate ----

  lemma CeilBound(x: real)
    ensures x <= Ceil(x) as real < x + 1.0
  {
  }

  lemma QuotientBound(a: real, d: real, q: real)
    requires d > 0.0 && a / d <= q
    ensures a <= q * d
  {
    assert a == a / d * d;
  }

  lemma BoundQuotient(a: real, d: real, q: real)
    requires d > 0.0 && a <= q * d
    ensures a / d <= q
  {
    assert a == a / d * d;
  }

  lemma CeilAtMost(x: real, n: int)
    ensures Ceil(x) <= n <==> x <= n as real
  {
    CeilBound(x);
  }

  lemma LossSplit(k: nat, t: real, n: nat)
    ensures k as real * t <= n as real * (1.0 - t) <==> t * (k + n) as real <= n as real
  {
    assert t * (k + n) as real == k as real * t + t * n as real;
    assert n as real * (1.0 - t) == n as real - t * n as real;
  }

  /** The parity chosen is the least, from one on, that makes up for losing a fraction t of all shards. */
  lemma ParityIsLeast(k: nat, t: real, n: nat)
    requires 0.0 <= t < 1.0 && n >= 1
    ensures ParityFor(k, t) <= n <==> t * (k + n) as real <= n as real
  {
    LossSplit(k, t, n);
    CeilAtMost(Ratio(k, t), n);
    if Ratio(k, t) <= n as real {
      QuotientBound(k as real * t, 1.0 - t, n as real);
    }
    if k as real * t <= n as real * (1.0 - t) {
      BoundQuotient(k as real * t, 1.0 - t, n as real);
    }
  }

  /** The configuration made for a loss rate, cut to [0, 0.9], has the least parity that makes up for it. */
  lemma ForLossIsLeast(k: nat, lossRate: real, shardSize: nat, n: nat)
    requires n >= 1
    ensures var c := ForLoss(k, lossRate, shardSize);
            var t := if lossRate < 0.0 then 0.0 else if lossRate > 0.9 then 0.9 else lossRate;
            c.k == k && c.shardSize == shardSize && c.targetLoss == t &&
            (1 <= c.m <= n <==> t * (k + n) as real <= n as real)
  {
    ParityIsLeast(k, Clamp(lossRate, 0.0, 0.9), n);
  }

  /** Losing a fraction t of all k + m shards loses at most m of them. */
  lemma LossIsCovered(k: nat, t: real)
    requires 0.0 <= t < 1.0
    ensures (t * (k + ParityFor(k, t)) as real).Floor <= ParityFor(k, t)
  {
    var m := ParityFor(k, t);
    var a := k as real * t;
    CeilBound(Ratio(k, t));
    QuotientBound(a, 1.0 - t, m as real);
    assert t * (k + m) as real == a + t * m as real;
    assert m as real * (1.0 - t) == m as real - t * m as real;
  }

  /** Every rate that is not cut back by the clamp is covered by the configuration made for it. */
  lemma ForLossCovers(k: nat, loss: real, shardSize: nat)
    requires 0.0 <= loss <= 0.9
    ensures var c := ForLoss(k, loss, shardSize); (loss * (c.k + c.m) as real).Floor <= c.m
  {
    LossIsCovered(k, loss);
  }

  // ---- Redundancy never shrinks ----

  lemma RatioTimes(k: nat, t: real)
    requires t < 1.0
    ensures Ratio(k, t) * (1.0 - t) == k as real * t
  {
  }

  lemma RatioMonotone(k: nat, s: real, t: real)
    requires 0.0 <= s <= t < 1.0
    ensures Ratio(k, s) <= Ratio(k, t)
  {
    var p, q, x, y, c := 1.0 - s, 1.0 - t, Ratio(k, s), Ratio(k, t), k as real;
    RatioTimes(k, s);
    RatioTimes(k, t);
    if x > y {
      // c s q == x p q > y q p == c t p, against s q <= t p
      Cross(x, y, p, q);
      assert c * (s * q) == c * s * q && c * (t * p) == c * t * p;
      assert s * q <= t * p;
      Cross2(c, s * q, t * p);
    }
  }

  lemma Cross(x: real, y: real, p: real, q: real)
    requires x > y && p > 0.0 && q > 0.0
    ensures x * p * q > y * q * p
  {
    assert (x - y) * (p * q) > 0.0;
  }

  lemma Cross2(k: real, a: real, b: real)
    requires k >= 0.0 && a <= b
    ensures k * a <= k * b
  {
    assert k * (b - a) >= 0.0;
  }

  lemma CeilMonotone(x: real, y: real)
    requires x <= y
    ensures Ceil(x) <= Ceil(y)
  {
    CeilBound(x);
    CeilBound(y);
  }

  lemma ParityMonotone(k: nat, s: real, t: real)
    requires 0.0 <= s <= t < 1.0
    ensures ParityFor(k, s) <= ParityFor(k, t)
  {
    RatioMonotone(k, s, t);
    CeilMonotone(Ratio(k, s), Ratio(k, t));
  }

  /** The code can be built, and its parity is no more than its target asks for. */
  ghost predicate Sound(s: State) {
    && Supported(s.config.k, s.config.m)
    && 0.0 <= s.config.targetLoss <= 0.5
    && s.config.m <= ParityFor(s.config.k, s.config.targetLoss)
  }

  lemma ObserveKeeps(s: State, loss: real)
    requires Sound(s)
    ensures var s' := ObserveLoss(s, loss);
            && Sound(s') && s'.config.k == s.config.k
            && s'.config.m >= s.config.m && s'.config.targetLoss >= s.config.targetLoss
  {
    ParityMonotone(s.config.k, s.config.targetLoss, Target(s, loss));
  }

  /** Over every run of observations, parity and target only grow, and the code stays realisable. */
  lemma {:induction false} RunNeverReducesRedundancy(s: State, losses: seq<real>)
    requires Sound(s)
    ensures var s' := ObserveAll(s, losses);
            && Sound(s') && s'.config.k == s.config.k
            && s'.config.m >= s.config.m && s'.config.targetLoss >= s.config.targetLoss
    decreases |losses|
  {
    if losses != [] {
      var init := losses[..|losses| - 1];
      RunNeverReducesRedundancy(s, init);
      ObserveKeeps(ObserveAll(s, init), losses[|losses| - 1]);
    }
  }

  // ---- Redundancy follows the loss ----

  function Smoothed(e: real, losses: seq<real>): real {
    if losses == [] then e
    else Smoothed(e, losses[..|losses| - 1]) * 0.8 + losses[|losses| - 1] * 0.2
  }

  function Power(n: nat): real {
    if n == 0 then 1.0 else 0.8 * Power(n - 1)
  }

  /** Each loss counts for a fifth, and four fifths less with every one that follows. */
  function WeightedSum(losses: seq<real>): real {
    if losses == [] then 0.0 else 0.2 * Power(|losses| - 1) * losses[0] + WeightedSum(losses[1..])
  }

  lemma {:induction false} WeightedSumLast(losses: seq<real>, last: real)
    ensures WeightedSum(losses + [last]) == 0.8 * WeightedSum(losses) + 0.2 * last
    decreases |losses|
  {
    var all := losses + [last];
    if losses == [] {
      assert all[1..] == [];
    } else {
      assert all[1..] == losses[1..] + [last];
      WeightedSumLast(losses[1..], last);
      ScaleTerm(Power(|losses| - 1), losses[0]);
    }
  }

  lemma ScaleTerm(p: real, x: real)
    ensures 0.2 * (0.8 * p) * x == 0.8 * (0.2 * p * x)
  {
  }

  lemma {:induction false} SmoothedSum(e: real, losses: seq<real>)
    ensures Smoothed(e, losses) == Power(|losses|) * e + WeightedSum(losses)
    decreases |losses|
  {
    if losses != [] {
      var n := |losses| - 1;
      SmoothedSum(e, losses[..n]);
      WeightedSumLast(losses[..n], losses[n]);
      assert losses == losses[..n] + [losses[n]];
      ScalePower(Power(n), e);
    }
  }

  lemma ScalePower(p: real, e: real)
    ensures 0.8 * p * e == 0.8 * (p * e)
  {
  }

  /** Over every run the smoothed rate is the weighted sum of the losses observed and the rate before. */
  lemma {:induction false} EwmaIsWeightedSum(s: State, losses: seq<real>)
    ensures ObserveAll(s, losses).ewma == Power(|losses|) * s.ewma + WeightedSum(losses)
    ensures ObserveAll(s, losses).ewma == Smoothed(s.ewma, losses)
    decreases |losses|
  {
    SmoothedSum(s.ewma, losses);
    if losses != [] {
      EwmaIsWeightedSum(s, losses[..|losses| - 1]);
    }
  }

  /** What the last observation calls for: the loss itself, and 1.2 times the smoothed rate, between 0.05 and 0.5. */
  function Called(e: real, losses: seq<real>): real
    requires losses != []
  {
    Clamp(MaxReal(Smoothed(e, losses) * 1.2, losses[|losses| - 1]), 0.05, 0.5)
  }

  /** The highest rate called for in a run, and t0 before it. */
  function Peak(t0: real, e: real, losses: seq<real>): real {
    if losses == [] then t0 else MaxReal(Peak(t0, e, losses[..|losses| - 1]), Called(e, losses))
  }

  lemma {:induction false} PeakBounds(t0: real, e: real, losses: seq<real>, i: nat)
    requires 0.0 <= t0 <= 0.5 && i < |losses|
    ensures t0 <= Peak(t0, e, losses) <= 0.5
    ensures losses[i] <= 0.5 ==> losses[i] <= Peak(t0, e, losses)
    ensures losses[i] > 0.5 ==> Peak(t0, e, losses) == 0.5
    ensures Smoothed(e, losses[..i + 1]) * 1.2 <= 0.5 ==> Smoothed(e, losses[..i + 1]) * 1.2 <= Peak(t0, e, losses)
    ensures Smoothed(e, losses[..i + 1]) * 1.2 > 0.5 ==> Peak(t0, e, losses) == 0.5
    decreases |losses|
  {
    var n := |losses| - 1;
    if i < n {
      PeakBounds(t0, e, losses[..n], i);
      assert losses[..n][..i + 1] == losses[..i + 1];
    } else {
      assert losses[..n + 1] == losses;
      if n > 0 {
        PeakBounds(t0, e, losses[..n], 0);
      }
    }
  }

  /** The least parity, from one on and within the room there is, for a rate t. */
  function Fitting(k: nat, t: real): nat
    requires 0.0 <= t < 1.0
  {
    if Room(k) < ParityFor(k, t) then Room(k) else ParityFor(k, t)
  }

  lemma FittingMonotone(k: nat, s: real, t: real)
    requires 0.0 <= s < 1.0 && 0.0 <= t < 1.0
    ensures Fitting(k, MaxReal(s, t)) == if Fitting(k, s) < Fitting(k, t) then Fitting(k, t) else Fitting(k, s)
  {
    if s < t {
      ParityMonotone(k, s, t);
    } else {
      ParityMonotone(k, t, s);
    }
  }

  /** The code is the one its target calls for. */
  ghost predicate Settled(s: State) {
    && 0 < s.config.k < MAX_TOTAL_SHARDS
    && 0.05 <= s.config.targetLoss <= 0.5
    && s.config.m == Fitting(s.config.k, s.config.targetLoss)
  }

  lemma TargetIs(s: State, loss: real, e: real)
    requires 0.05 <= s.config.targetLoss <= 0.5 && e == s.ewma * 0.8 + loss * 0.2
    ensures Target(s, loss) == MaxReal(s.config.targetLoss, Clamp(MaxReal(e * 1.2, loss), 0.05, 0.5))
  {
  }

  lemma ObserveSettled(s: State, loss: real, called: real)
    requires Settled(s) && called == Clamp(MaxReal((s.ewma * 0.8 + loss * 0.2) * 1.2, loss), 0.05, 0.5)
    ensures var s' := ObserveLoss(s, loss);
            && Settled(s') && s'.config.k == s.config.k
            && s'.config.m == Fitting(s.config.k, MaxReal(s.config.targetLoss, called))
  {
    TargetIs(s, loss, s.ewma * 0.8 + loss * 0.2);
  }

  lemma {:induction false} RunSettles(s: State, losses: seq<real>)
    requires Settled(s)
    ensures var s' := ObserveAll(s, losses);
            && Settled(s') && s'.config.k == s.config.k
            && 0.05 <= Peak(s.config.targetLoss, s.ewma, losses) <= 0.5
            && s'.config.m == Fitting(s.config.k, Peak(s.config.targetLoss, s.ewma, losses))
    decreases |losses|
  {
    if losses != [] {
      var n := |losses| - 1;
      var before, t0, k := ObserveAll(s, losses[..n]), s.config.targetLoss, s.config.k;
      RunSettles(s, losses[..n]);
      EwmaIsWeightedSum(s, losses[..n]);
      ObserveSettled(before, losses[n], Called(s.ewma, losses));
      FittingMonotone(k, before.config.targetLoss, Called(s.ewma, losses));
      FittingMonotone(k, Peak(t0, s.ewma, losses[..n]), Called(s.ewma, losses));
    }
  }

  /** Against n shards of parity: m is no more exactly if n makes up for the rate, or leaves no room. */
  ghost predicate LeastFor(k: nat, m: nat, rate: real, n: nat) {
    m <= n <==> k + n >= 255 || rate * (k + n) as real <= n as real
  }

  lemma FittingIsLeast(k: nat, t: real, n: nat, m: nat)
    requires 0.0 <= t < 1.0 && n >= 1 && k < MAX_TOTAL_SHARDS && m == Fitting(k, t)
    ensures m >= 1 && LeastFor(k, m, t, n)
  {
    ParityIsLeast(k, t, n);
  }

  /**
    After every run parity is the least that makes up for the highest rate called for so far, or all
    there is room for.
   */
  lemma RunFollowsPeak(s: State, losses: seq<real>, n: nat)
    requires Settled(s) && n >= 1
    ensures var c, peak := ObserveAll(s, losses).config, Peak(s.config.targetLoss, s.ewma, losses);
            c.k == s.config.k && c.m >= 1 && LeastFor(c.k, c.m, peak, n)
  {
    RunSettles(s, losses);
    var c, peak := ObserveAll(s, losses).config, Peak(s.config.targetLoss, s.ewma, losses);
    FittingIsLeast(c.k, peak, n, c.m);
  }

  lemma CoveredBelow(t: real, l: real, n: nat, m: nat)
    requires l <= t && (t * n as real).Floor <= m
    ensures (l * n as real).Floor <= m
  {
    assert (t - l) * n as real >= 0.0;
  }

  /** The rate, up to a half, loses no more shards than there is parity for; or the code is as large as it can be. */
  ghost predicate Covers(c: Config, rate: real) {
    var l := if rate > 0.5 then 0.5 else rate;
    c.k + c.m == 255 || (l * (c.k + c.m) as real).Floor <= c.m
  }

  /** There is parity for a rate t, or no room for more. */
  ghost predicate Reaches(c: Config, t: real) {
    c.k + c.m == 255 || (t * (c.k + c.m) as real).Floor <= c.m
  }

  lemma FittingReaches(c: Config, t: real)
    requires 0.0 <= t < 1.0 && c.k < MAX_TOTAL_SHARDS && c.m == Fitting(c.k, t)
    ensures Reaches(c, t)
  {
    if c.k + c.m != 255 {
      LossIsCovered(c.k, t);
    }
  }

  lemma CoversBelow(c: Config, t: real, rate: real)
    requires 0.05 <= t <= 0.5 && (rate <= t || t == 0.5) && Reaches(c, t)
    ensures Covers(c, rate)
  {
    if c.k + c.m != 255 {
      CoveredBelow(t, if rate > 0.5 then 0.5 else rate, c.k + c.m, c.m);
    }
  }

  lemma ObservedParity(s: State, loss: real)
    requires Sound(s)
    ensures var c := ObserveLoss(s, loss).config; c.k == s.config.k && c.m == Fitting(c.k, Target(s, loss))
  {
  }

  lemma TargetCovers(s: State, loss: real, e: real)
    requires e == s.ewma * 0.8 + loss * 0.2
    ensures loss <= Target(s, loss) || Target(s, loss) == 0.5
    ensures e * 1.2 <= Target(s, loss) || Target(s, loss) == 0.5
  {
  }

  lemma ObserveReaches(s: State, loss: real, c: Config)
    requires Sound(s) && c == ObserveLoss(s, loss).config
    ensures Reaches(c, Target(s, loss))
  {
    ObservedParity(s, loss);
    FittingReaches(c, Target(s, loss));
  }

  lemma BothCovered(c: Config, t: real, loss: real, smoothed: real)
    requires 0.05 <= t <= 0.5 && Reaches(c, t) && (loss <= t || t == 0.5) && (smoothed <= t || t == 0.5)
    ensures Covers(c, loss) && Covers(c, smoothed)
  {
    CoversBelow(c, t, loss);
    CoversBelow(c, t, smoothed);
  }

  /** An observation leaves enough parity for the loss observed, and for 1.2 times the smoothed rate. */
  lemma ObserveCovers(s: State, loss: real)
    requires Sound(s)
    ensures var s' := ObserveLoss(s, loss);
            Covers(s'.config, loss) && Covers(s'.config, s'.ewma * 1.2)
  {
    var s' := ObserveLoss(s, loss);
    ObserveReaches(s, loss, s'.config);
    TargetCovers(s, loss, s'.ewma);
    BothCovered(s'.config, Target(s, loss), loss, s'.ewma * 1.2);
  }

  // ---- New controllers ----

  /** The code of a new controller exceeds the field bound from k == 179 on. */
  lemma InitialCode(k: nat, shardSize: nat)
    ensures k + NewController(k, shardSize).config.m > MAX_TOTAL_SHARDS <==> k >= 179
  {
    var r := Ratio(k, 0.3);
    RatioTimes(k, 0.3);
    assert r * 0.7 == k as real * 0.3;
    CeilBound(r);
    if k <= 178 {
      assert r <= 76.5;
    } else {
      assert r >= 76.5;
    }
  }

  /** A new controller with at most 178 data shards is settled, for a rate of 0.3 and smoothed loss 0.05. */
  lemma NewIsSettled(k: nat, shardSize: nat)
    requires 0 < k <= 178
    ensures var s := NewController(k, shardSize);
            Settled(s) && s.config.k == k && s.config.targetLoss == 0.3 && s.ewma == 0.05
  {
    InitialCode(k, shardSize);
  }

  /** The values of k for which a new controller asks for more shards than there is room for, and some room is left. */
  predicate TooLarge(k: nat) {
    179 <= k <= 254
  }

  lemma FirstObservation(k: nat, shardSize: nat, loss: real)
    requires TooLarge(k)
    ensures var s := NewController(k, shardSize);
            var s' := ObserveLoss(s, loss);
            Sound(s') && s'.config.k == k && s'.config.m == MAX_TOTAL_SHARDS - k < s.config.m
  {
    InitialCode(k, shardSize);
    ParityMonotone(k, 0.3, Target(NewController(k, shardSize), loss));
  }

  lemma {:induction false} ObserveFirst(s: State, losses: seq<real>)
    requires losses != []
    ensures ObserveAll(s, losses) == ObserveAll(ObserveLoss(s, losses[0]), losses[1..])
    decreases |losses|
  {
    var n := |losses| - 1;
    if n > 0 {
      ObserveFirst(s, losses[..n]);
      assert losses[..n][1..] == losses[1..][..n - 1];
    }
  }

  lemma ZeroOver(d: real)
    requires d > 0.0
    ensures 0.0 / d == 0.0
  {
  }

  lemma ParityForNone(t: real)
    requires 0.0 <= t < 1.0
    ensures ParityFor(0, t) == 1
  {
    ZeroOver(1.0 - t);
    assert 0 as real * t == 0.0;
  }

  lemma StepAdjustsNothing(s: State, loss: real)
    requires (s.config.k == 0 && s.config.m == 1) || s.config.k >= MAX_TOTAL_SHARDS
    ensures ObserveLoss(s, loss).config == s.config
  {
    ParityForNone(Target(s, loss));
  }

  lemma {:induction false} NothingToAdjust(s: State, losses: seq<real>)
    requires (s.config.k == 0 && s.config.m == 1) || s.config.k >= MAX_TOTAL_SHARDS
    ensures ObserveAll(s, losses).config == s.config
    decreases |losses|
  {
    if losses != [] {
      var n := |losses| - 1;
      NothingToAdjust(s, losses[..n]);
      StepAdjustsNothing(ObserveAll(s, losses[..n]), losses[n]);
    }
  }

  lemma TooLargeSettles(k: nat, shardSize: nat, losses: seq<real>)
    requires TooLarge(k) && losses != []
    ensures ObserveAll(NewController(k, shardSize), losses).config.m == MAX_TOTAL_SHARDS - k
  {
    var s := NewController(k, shardSize);
    FirstObservation(k, shardSize, losses[0]);
    ObserveFirst(s, losses);
    RunNeverReducesRedundancy(ObserveLoss(s, losses[0]), losses[1..]);
  }

  lemma OtherwiseKeeps(k: nat, shardSize: nat, losses: seq<real>)
    requires !TooLarge(k)
    ensures ObserveAll(NewController(k, shardSize), losses).config.m >= NewController(k, shardSize).config.m
  {
    var s := NewController(k, shardSize);
    if k == 0 || k >= MAX_TOTAL_SHARDS {
      NothingToAdjust(s, losses);
    } else {
      InitialCode(k, shardSize);
      RunNeverReducesRedundancy(s, losses);
    }
  }

  /**
    A new controller has less parity than it started with after some run exactly for those k, and then
    after every run.
   */
  lemma NewControllerLosesParity(k: nat, shardSize: nat, losses: seq<real>)
    ensures var s := NewController(k, shardSize);
            ObserveAll(s, losses).config.m < s.config.m <==> losses != [] && TooLarge(k)
  {
    if losses != [] && TooLarge(k) {
      TooLargeSettles(k, shardSize, losses);
      FirstObservation(k, shardSize, losses[0]);
    } else if losses != [] {
      OtherwiseKeeps(k, shardSize, losses);
    }
  }

  /** No observation of a run lowers parity, except the first one for those k. */
  lemma ParityDropsOnce(k: nat, shardSize: nat, losses: seq<real>, loss: real)
    ensures var s := ObserveAll(NewController(k, shardSize), losses);
            ObserveLoss(s, loss).config.m < s.config.m <==> losses == [] && TooLarge(k)
  {
    var s := NewController(k, shardSize);
    var all := losses + [loss];
    assert all[..|losses|] == losses;
    if TooLarge(k) {
      FirstObservation(k, shardSize, all[0]);
      TooLargeSettles(k, shardSize, all);
      if losses != [] {
        TooLargeSettles(k, shardSize, losses);
      }
    } else if k == 0 || k >= MAX_TOTAL_SHARDS {
      NothingToAdjust(s, losses);
      NothingToAdjust(s, all);
    } else {
      InitialCode(k, shardSize);
      RunNeverReducesRedundancy(s, losses);
      ObserveKeeps(ObserveAll(s, losses), loss);
    }
  }

  /** With 200 data shards, 86 parity shards become 55 at the first observation, whatever it is. */
  lemma ParityLostAt200(shardSize: nat, loss: real)
    ensures var s := NewController(200, shardSize);
            s.config.m == 86 && ObserveLoss(s, loss).config.m == 55
  {
    var r := Ratio(200, 0.3);
    RatioTimes(200, 0.3);
    assert r * 0.7 == 60.0;
    CeilBound(r);
    FirstObservation(200, shardSize, loss);
  }

  /** The controller object: each observation is one step of the state machine above. */
  class Controller {
    var config: Config
    var lossEwma: real

    ghost function View(): State
      reads this
    {
      State(config, lossEwma)
    }

    constructor (k: nat, shardSize: nat)
      ensures View() == NewController(k, shardSize)
      ensures Supported(config.k, config.m) ==> Sound(View())
    {
      config := ForLoss(k, 0.3, shardSize);
      lossEwma := 0.05;
    }

    method Observe(loss: real)
      modifies this
      ensures View() == ObserveLoss(old(View()), loss)
      ensures lossEwma == old(lossEwma) * 0.8 + loss * 0.2
      ensures old(Sound(View())) ==> Covers(config, loss) && Covers(config, lossEwma * 1.2)
      ensures old(Sound(View())) ==>
              Sound(View()) && config.m >= old(config.m) && config.targetLoss >= old(config.targetLoss)
    {
      ghost var before := View();
      var target := Target(State(config, lossEwma), loss);
      lossEwma := lossEwma * (1.0 - ALPHA) + loss * ALPHA;
      var newM := ParityFor(config.k, target);
      newM := if Room(config.k) < newM then Room(config.k) else newM;
      if newM != config.m && newM > 0 {
        config := config.(m := newM, targetLoss := target);
      }
      if Sound(before) {
        ObserveKeeps(before, loss);
        ObserveCovers(before, loss);
      }
    }
  }
}
