/** How reinforcement moves an edge weight (`query/reinforce.go`, `model/edge.go`). */
module WeightDynamics {
  import opened RealPower

  datatype EventType = Recall | Search | Show | Add | Update | Link | Delete

  datatype ReinforceConfig = ReinforceConfig(
    boostAmount: real,
    showBoost: real,
    updateBoost: real,
    linkBoost: real,
    decayFactor: real,
    minWeight: real,
    maxWeight: real)
  {
    /** The configured boost, or the general amount where none is configured. */
    function BoostForAction(action: EventType): real {
      match action
      case Show => if showBoost > 0.0 then showBoost else boostAmount
      case Update => if updateBoost > 0.0 then updateBoost else boostAmount
      case Link => if linkBoost > 0.0 then linkBoost else boostAmount
      case _ => boostAmount
    }

    function Decay(): real {
      if decayFactor <= 0.0 || decayFactor > 1.0 then 1.0 else decayFactor
    }

    function MinW(): real {
      if minWeight <= 0.0 then 0.01 else minWeight
    }

    /** The ceiling first, then the floor. */
    function Clamp(x: real): real {
      var capped := if x > maxWeight then maxWeight else x;
      if capped < MinW() then MinW() else capped
    }

    /** One touch: decay, then boost, then the bounds. */
    function Touch(w: real, boost: real): real {
      Clamp(w * Decay() + boost)
    }

    function TouchMany(w: real, boosts: seq<real>): real
      decreases boosts
    {
      if boosts == [] then w else TouchMany(Touch(w, boosts[0]), boosts[1..])
    }
  }

  /** A touch in numbers: what decay and boost make of the weight, unless that is above the
      maximum or below the minimum, which is 0.01 where none is set. A decay factor that is not
      between 0 and 1 counts as 1, and the minimum wins over the maximum. */
  lemma TouchMeans(cfg: ReinforceConfig, w: real, boost: real)
    ensures var raised := w * (if 0.0 < cfg.decayFactor <= 1.0 then cfg.decayFactor else 1.0) + boost;
      var low := if cfg.minWeight > 0.0 then cfg.minWeight else 0.01;
      && (low <= raised <= cfg.maxWeight ==> cfg.Touch(w, boost) == raised)
      && (low <= cfg.maxWeight < raised ==> cfg.Touch(w, boost) == cfg.maxWeight)
      && (raised < low || cfg.maxWeight < low ==> cfg.Touch(w, boost) == low)
  {
  }

  const DEFAULT_CONFIG := ReinforceConfig(0.0, 0.02, 0.05, 0.05, 0.90, 0.01, 1.0)

  function Abs(x: real): real {
    if x < 0.0 then -x else x
  }

  predicate IsAction(action: EventType) {
    action == Show || action == Update || action == Link || action == Delete
  }

  // Any configuration contracts towards its equilibrium, or the bound that is in between.

  /** The weight that decay and boost leave where it is. */
  predicate IsEquilibrium(cfg: ReinforceConfig, boost: real, e: real) {
    e == e * cfg.Decay() + boost
  }

  function Repeat(boost: real, n: nat): (boosts: seq<real>)
    ensures |boosts| == n
  {
    seq(n, _ => boost)
  }

  lemma AbsScale(x: real, d: real)
    requires 0.0 <= d
    ensures Abs(x * d) == d * Abs(x)
  {
    if x >= 0.0 {
      MulMono(d, 0.0, x);
    } else {
      MulMono(d, x, 0.0);
    }
  }

  /** Before the bounds apply, the distance to the equilibrium shrinks by the decay. */
  lemma RaisedDistance(w: real, d: real, boost: real, e: real)
    requires e == e * d + boost
    ensures w * d + boost - e == (w - e) * d
  {
  }

  /** The bounds never take two weights further apart. */
  lemma ClampNears(cfg: ReinforceConfig, x: real, y: real)
    ensures Abs(cfg.Clamp(x) - cfg.Clamp(y)) <= Abs(x - y)
  {
  }

  /** There is one equilibrium whenever weights decay. */
  lemma EquilibriumIs(cfg: ReinforceConfig, boost: real, e: real)
    requires cfg.Decay() < 1.0
    ensures IsEquilibrium(cfg, boost, e) <==> e == boost / (1.0 - cfg.Decay())
  {
    Solve(e, cfg.Decay(), boost);
  }

  lemma Solve(e: real, d: real, boost: real)
    requires d < 1.0
    ensures e == e * d + boost <==> e == boost / (1.0 - d)
  {
    var q, r := boost / (1.0 - d), 1.0 - d;
    assert q * r == boost;
    assert e * r == e - e * d;
    Cancel(e, q, r);
  }

  lemma Cancel(x: real, y: real, r: real)
    requires r > 0.0
    ensures x * r == y * r <==> x == y
  {
  }

  /** What decay and boost make of a weight lies between it and the equilibrium. */
  lemma RaisedBetween(cfg: ReinforceConfig, boost: real, e: real, w: real) returns (x: real)
    requires IsEquilibrium(cfg, boost, e)
    ensures cfg.Touch(w, boost) == cfg.Clamp(x) && (w <= x <= e || e <= x <= w)
  {
    assert 0.0 <= cfg.Decay() <= 1.0;
    hide ReinforceConfig.Decay, ReinforceConfig.Clamp;
    x := w * cfg.Decay() + boost;
    Between(w, cfg.Decay(), boost, e);
  }

  /** Where the bounds put the equilibrium a touch changes nothing. */
  lemma BoundedIsFixed(cfg: ReinforceConfig, boost: real, e: real)
    requires IsEquilibrium(cfg, boost, e)
    ensures cfg.Touch(cfg.Clamp(e), boost) == cfg.Clamp(e)
  {
    hide IsEquilibrium, ReinforceConfig.Touch;
    var x := RaisedBetween(cfg, boost, e, cfg.Clamp(e));
    ClampedBetween(cfg, x, e);
  }

  lemma ClampedBetween(cfg: ReinforceConfig, x: real, e: real)
    requires cfg.Clamp(e) <= x <= e || e <= x <= cfg.Clamp(e)
    ensures cfg.Clamp(x) == cfg.Clamp(e)
  {
  }

  lemma NoTouch(cfg: ReinforceConfig, boost: real, w: real)
    ensures cfg.TouchMany(w, Repeat(boost, 0)) == w && Pow(cfg.Decay(), 0) == 1.0
  {
  }

  lemma Unfold(cfg: ReinforceConfig, boost: real, w: real, n: nat)
    requires n > 0
    ensures cfg.TouchMany(w, Repeat(boost, n)) == cfg.TouchMany(cfg.Touch(w, boost), Repeat(boost, n - 1))
    ensures Pow(cfg.Decay(), n) == cfg.Decay() * Pow(cfg.Decay(), n - 1)
    ensures 0.0 < cfg.Decay() <= 1.0 && 0.0 <= Pow(cfg.Decay(), n - 1) <= 1.0
  {
    assert Repeat(boost, n)[1..] == Repeat(boost, n - 1);
    PowInUnit(cfg.Decay(), n - 1);
  }

  /** One touch shrinks the distance to where the bounds put the equilibrium by the decay. */
  lemma TouchContracts(cfg: ReinforceConfig, boost: real, e: real, w: real)
    requires IsEquilibrium(cfg, boost, e)
    ensures Abs(cfg.Touch(w, boost) - cfg.Clamp(e)) <= cfg.Decay() * Abs(w - cfg.Clamp(e))
  {
    hide ReinforceConfig.Touch, ReinforceConfig.Clamp, ReinforceConfig.Decay, IsEquilibrium, Abs;
    BoundedIsFixed(cfg, boost, e);
    TouchNears(cfg, boost, w, cfg.Clamp(e));
  }

  lemma TouchNears(cfg: ReinforceConfig, boost: real, w: real, v: real)
    ensures Abs(cfg.Touch(w, boost) - cfg.Touch(v, boost)) <= cfg.Decay() * Abs(w - v)
  {
    hide ReinforceConfig.Touch, ReinforceConfig.Clamp, ReinforceConfig.Decay, Abs;
    var x, y := RaisedApart(cfg, boost, w, v);
    ClampNears(cfg, x, y);
  }

  lemma RaisedApart(cfg: ReinforceConfig, boost: real, w: real, v: real) returns (x: real, y: real)
    ensures cfg.Touch(w, boost) == cfg.Clamp(x) && cfg.Touch(v, boost) == cfg.Clamp(y)
    ensures Abs(x - y) == cfg.Decay() * Abs(w - v)
  {
    assert cfg.Decay() >= 0.0;
    hide ReinforceConfig.Clamp, ReinforceConfig.Decay, Abs;
    x, y := w * cfg.Decay() + boost, v * cfg.Decay() + boost;
    Apart(w, v, cfg.Decay(), boost);
  }

  lemma Apart(w: real, v: real, d: real, boost: real)
    requires 0.0 <= d
    ensures Abs((w * d + boost) - (v * d + boost)) == d * Abs(w - v)
  {
    assert (w * d + boost) - (v * d + boost) == (w - v) * d;
    AbsScale(w - v, d);
  }

  lemma PowStep(x: real, p: real, v: real, d: real, w: real, q: real)
    requires x <= p * v && v <= d * w && 0.0 <= p && q == d * p
    ensures x <= q * w
  {
    MulMono(p, v, d * w);
    assert p * (d * w) == (d * p) * w;
  }

  /** After `n` equal touches at most `Decay()^n` of the distance is left, whatever the weight
      and the bounds. */
  lemma {:induction false} Contraction(cfg: ReinforceConfig, boost: real, e: real, w: real, n: nat)
    requires IsEquilibrium(cfg, boost, e)
    ensures Abs(cfg.TouchMany(w, Repeat(boost, n)) - cfg.Clamp(e)) <= Pow(cfg.Decay(), n) * Abs(w - cfg.Clamp(e))
    decreases n
  {
    hide Pow, IsEquilibrium, ReinforceConfig.Touch, ReinforceConfig.TouchMany, ReinforceConfig.Decay,
         ReinforceConfig.MinW, ReinforceConfig.Clamp, Abs;
    if n == 0 {
      NoTouch(cfg, boost, w);
    } else {
      Unfold(cfg, boost, w, n);
      var v, c := cfg.Touch(w, boost), cfg.Clamp(e);
      Contraction(cfg, boost, e, v, n - 1);
      TouchContracts(cfg, boost, e, w);
      PowStep(Abs(cfg.TouchMany(w, Repeat(boost, n)) - c), Pow(cfg.Decay(), n - 1), Abs(v - c), cfg.Decay(), Abs(w - c),
              Pow(cfg.Decay(), n));
    }
  }

  /** Within the bounds a touch moves a weight along the segment to the equilibrium. */
  lemma TouchIsAffine(cfg: ReinforceConfig, boost: real, e: real, w: real)
    requires IsEquilibrium(cfg, boost, e) && cfg.MinW() <= e <= cfg.maxWeight
    requires w <= cfg.maxWeight && (cfg.MinW() <= w || cfg.MinW() <= w * cfg.Decay() + boost)
    ensures cfg.Touch(w, boost) == e + cfg.Decay() * (w - e)
    ensures cfg.MinW() <= cfg.Touch(w, boost) <= cfg.maxWeight
  {
    Between(w, cfg.Decay(), boost, e);
  }

  lemma FromAbove(w: real, d: real, e: real, raised: real)
    requires raised - e == (w - e) * d && 0.0 <= d <= 1.0 && e <= w
    ensures e <= raised
    ensures raised <= w
  {
    Shrink(w - e, d);
    assert (w - e) * d <= w - e;
    assert raised - e <= w - e;
  }

  lemma FromBelow(w: real, d: real, e: real, raised: real)
    requires raised - e == (w - e) * d && 0.0 <= d <= 1.0 && w <= e
    ensures raised <= e
    ensures w <= raised
  {
    Shrink(e - w, d);
    assert (w - e) * d == -((e - w) * d);
    assert (e - w) * d <= e - w;
    assert e - raised <= e - w;
  }

  lemma Between(w: real, d: real, boost: real, e: real)
    requires e == e * d + boost && 0.0 <= d <= 1.0
    ensures w * d + boost == e + d * (w - e)
    ensures w <= w * d + boost <= e || e <= w * d + boost <= w
  {
    RaisedDistance(w, d, boost, e);
    if e <= w {
      FromAbove(w, d, e, w * d + boost);
    } else {
      FromBelow(w, d, e, w * d + boost);
    }
  }

  /** The exact weight after `n` equal touches that no bound interferes with. */
  lemma {:induction false} ClosedForm(cfg: ReinforceConfig, boost: real, e: real, w: real, n: nat)
    requires IsEquilibrium(cfg, boost, e) && cfg.MinW() <= e <= cfg.maxWeight
    requires w <= cfg.maxWeight && (cfg.MinW() <= w || cfg.MinW() <= w * cfg.Decay() + boost)
    ensures cfg.TouchMany(w, Repeat(boost, n)) == e + Pow(cfg.Decay(), n) * (w - e)
    decreases n
  {
    hide Pow, IsEquilibrium, ReinforceConfig.Touch, ReinforceConfig.TouchMany, ReinforceConfig.Decay,
         ReinforceConfig.MinW;
    if n == 0 {
      NoTouch(cfg, boost, w);
    } else {
      Unfold(cfg, boost, w, n);
      var v := cfg.Touch(w, boost);
      TouchIsAffine(cfg, boost, e, w);
      ClosedForm(cfg, boost, e, v, n - 1);
      ClosedStep(cfg.TouchMany(w, Repeat(boost, n)), e, Pow(cfg.Decay(), n - 1), v, cfg.Decay(), w,
                 Pow(cfg.Decay(), n));
    }
  }

  lemma ClosedStep(x: real, e: real, p: real, v: real, d: real, w: real, q: real)
    requires x == e + p * (v - e) && v == e + d * (w - e) && q == d * p
    ensures x == e + q * (w - e)
  {
    assert v - e == d * (w - e);
    assert p * (d * (w - e)) == (d * p) * (w - e);
  }

  // The default configuration.

  predicate DefaultBoosts(boosts: seq<real>) {
    forall b :: b in boosts ==> b in {0.0, 0.02, 0.05}
  }

  /** These are the amounts the actions earn. */
  lemma DefaultBoostsAreActions(action: EventType)
    requires IsAction(action)
    ensures DEFAULT_CONFIG.BoostForAction(action) ==
            if action == Show then 0.02 else if action == Delete then 0.0 else 0.05
    ensures DefaultBoosts([DEFAULT_CONFIG.BoostForAction(action)])
  {
  }

  /** Repeating one action follows the exact curve to 0.2 or 0.5. */
  lemma DefaultClosedForm(action: EventType, w: real, n: nat)
    requires action == Show || action == Update || action == Link
    requires 0.0 <= w <= 1.0
    ensures var e := if action == Show then 0.2 else 0.5;
      DEFAULT_CONFIG.TouchMany(w, Repeat(DEFAULT_CONFIG.BoostForAction(action), n)) == e + Pow(0.9, n) * (w - e)
  {
    DefaultBoostsAreActions(action);
    ClosedForm(DEFAULT_CONFIG, DEFAULT_CONFIG.BoostForAction(action), if action == Show then 0.2 else 0.5, w, n);
  }

  /** Its bounds are 0.01 and 1. */
  lemma DefaultBounds(w: real, boost: real)
    ensures 0.01 <= DEFAULT_CONFIG.Touch(w, boost) <= 1.0
    ensures DEFAULT_CONFIG.Touch(w, boost) == 0.01 <==> w * 0.9 + boost <= 0.01
    ensures DEFAULT_CONFIG.Touch(w, boost) == 1.0 <==> w * 0.9 + boost >= 1.0
  {
  }

  lemma DefaultTouch(w: real, boost: real)
    requires 0.0 <= w <= 1.0 && boost in {0.0, 0.02, 0.05}
    ensures 0.01 <= DEFAULT_CONFIG.Touch(w, boost) <= 0.95
    ensures DEFAULT_CONFIG.Touch(w, boost) - 0.5 <= 0.9 * (w - 0.5)
  {
  }

  /** Under the default configuration one half is an upper barrier for any mix of
      actions: what a weight has above it shrinks geometrically, and a weight below it
      stays below. After the first touch a weight never leaves [0.01, 0.95]. */
  lemma {:induction false} HalfIsABarrier(w: real, boosts: seq<real>)
    requires 0.0 <= w <= 1.0 && DefaultBoosts(boosts)
    ensures DEFAULT_CONFIG.TouchMany(w, boosts) - 0.5 <= Pow(0.9, |boosts|) * (w - 0.5)
    ensures boosts != [] ==> 0.01 <= DEFAULT_CONFIG.TouchMany(w, boosts) <= 0.95
    decreases |boosts|
  {
    hide Pow, ReinforceConfig.Touch, ReinforceConfig.TouchMany;
    if boosts == [] {
      NoTouches(w);
    } else {
      var v, n := DEFAULT_CONFIG.Touch(w, boosts[0]), |boosts| - 1;
      UnfoldDefault(w, boosts);
      HalfIsABarrier(v, boosts[1..]);
      PowStep(DEFAULT_CONFIG.TouchMany(w, boosts) - 0.5, Pow(0.9, n), v - 0.5, 0.9, w - 0.5, Pow(0.9, n + 1));
    }
  }

  lemma NoTouches(w: real)
    ensures DEFAULT_CONFIG.TouchMany(w, []) == w && Pow(0.9, 0) == 1.0
  {
  }

  lemma UnfoldDefault(w: real, boosts: seq<real>)
    requires 0.0 <= w <= 1.0 && DefaultBoosts(boosts) && boosts != []
    ensures var v := DEFAULT_CONFIG.Touch(w, boosts[0]);
      && DEFAULT_CONFIG.TouchMany(w, boosts) == DEFAULT_CONFIG.TouchMany(v, boosts[1..])
      && DEFAULT_CONFIG.TouchMany(v, []) == v
      && 0.01 <= v <= 0.95 && v - 0.5 <= 0.9 * (w - 0.5)
    ensures Pow(0.9, |boosts|) == 0.9 * Pow(0.9, |boosts| - 1) && 0.0 <= Pow(0.9, |boosts| - 1)
    ensures DefaultBoosts(boosts[1..])
  {
    assert boosts[0] in boosts && forall b :: b in boosts[1..] ==> b in boosts;
    DefaultTouch(w, boosts[0]);
    PowInUnit(0.9, |boosts| - 1);
  }

  /** So a boost does not lift a weight above the neutral 0.5: an updated or linked edge
      is above it exactly when it was before, and a shown edge only then. */
  lemma BoostedAboveNeutral(w: real, action: EventType)
    requires 0.0 <= w <= 1.0 && IsAction(action)
    ensures var v := DEFAULT_CONFIG.Touch(w, DEFAULT_CONFIG.BoostForAction(action));
      && (action == Update || action == Link ==> (v > 0.5 <==> w > 0.5))
      && (action == Show ==> (v > 0.5 <==> w > 8.0 / 15.0))
      && (action == Delete ==> (v > 0.5 <==> w > 5.0 / 9.0))
  {
  }
}
