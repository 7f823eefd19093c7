/** Pump efficiency: the measured watts per cubed speed against a quadratic laid
    through three baseline points, over the reals. */
module Efficiency {

  datatype Profile =
    Profile(configured: bool, rpmLow: int, kLow: real, rpmMed: int, kMed: real, rpmHigh: int, kHigh: real)

  datatype Pump = Pump(ok: bool, rpm: int, watts: int, profile: Profile)

  /** Unconfigured stands for AQ_UNKNOWN; Undefined for a division by zero. */
  datatype Health = Unconfigured | Undefined | Percent(pct: real)

  /** One Lagrange term: 1 at a, 0 at b and c. */
  function Term(x: real, a: real, b: real, c: real): real
    requires a != b && a != c
  {
    ((x - b) * (x - c)) / ((a - b) * (a - c))
  }

  /** The target at speed x of the curve through three baseline points. */
  function TargetK(x: real, x0: real, y0: real, x1: real, y1: real, x2: real, y2: real): real
    requires x0 != x1 && x0 != x2 && x1 != x2
  {
    y0 * Term(x, x0, x1, x2) + y1 * Term(x, x1, x0, x2) + y2 * Term(x, x2, x0, x1)
  }

  predicate DistinctRpms(p: Profile) {
    p.rpmLow != p.rpmMed && p.rpmLow != p.rpmHigh && p.rpmMed != p.rpmHigh
  }

  function Target(p: Profile, x: real): real
    requires DistinctRpms(p)
  {
    TargetK(x, p.rpmLow as real, p.kLow, p.rpmMed as real, p.kMed, p.rpmHigh as real, p.kHigh)
  }

  /** calculate_flow_efficiency_pct */
  function FlowEfficiency(pump: Pump): Health {
    var p := pump.profile;
    if !p.configured || p.kLow <= 0.0 || p.kMed <= 0.0 || p.kHigh <= 0.0 then Unconfigured
    else if !pump.ok || pump.rpm < 1000 || pump.watts <= 0 then Percent(0.0)
    else if !DistinctRpms(p) then Undefined
    else
      var x := pump.rpm as real;
      var target := Target(p, x);
      if target == 0.0 then Undefined
      else Percent((LiveK(pump.watts as real, Cube(x)) / target) * 100.0)
  }

  function Cube(x: real): (c: real)
    requires x > 0.0
    ensures c > 0.0
  {
    NonZeroProduct(x, x);
    x * x * x
  }

  function LiveK(watts: real, cube: real): real
    requires cube > 0.0
  {
    (watts / cube) * 1000000000.0
  }

  function Quadratic(a: real, b: real, c: real, x: real): real {
    a * (x * x) + b * x + c
  }

  // ------------------------------------------------------------------- theorems

  /** The common denominator of the three terms. */
  function Denominator(x0: real, x1: real, x2: real): real {
    (x0 - x1) * (x0 - x2) * (x1 - x2)
  }

  /** What a term becomes over it, up to sign. */
  function Numerator(x: real, b: real, c: real): real {
    (x - b) * (x - c) * (b - c)
  }

  lemma NonZeroProduct(u: real, v: real)
    requires u != 0.0 && v != 0.0
    ensures u * v != 0.0
  {
  }

  /** One term over the common denominator. */
  lemma TermOver(x: real, a: real, b: real, c: real)
    requires a != b && a != c && b != c
    ensures Denominator(a, b, c) != 0.0 && Term(x, a, b, c) * Denominator(a, b, c) == Numerator(x, b, c)
  {
    var n, d := (x - b) * (x - c), (a - b) * (a - c);
    NonZeroProduct(a - b, a - c);
    NonZeroProduct(d, b - c);
    assert (n / d) * d == n;
    assert (n / d) * (d * (b - c)) == ((n / d) * d) * (b - c);
  }

  /** The three terms over it. */
  lemma LagrangeTerms(x: real, x0: real, x1: real, x2: real)
    requires x0 != x1 && x0 != x2 && x1 != x2
    ensures var d := Denominator(x0, x1, x2);
            && d != 0.0
            && Term(x, x0, x1, x2) * d == Numerator(x, x1, x2)
            && Term(x, x1, x0, x2) * d == -Numerator(x, x0, x2)
            && Term(x, x2, x0, x1) * d == Numerator(x, x0, x1)
  {
    TermOver(x, x0, x1, x2);
    TermOver(x, x1, x0, x2);
    TermOver(x, x2, x0, x1);
    Reordered(x0, x1, x2);
  }

  lemma Reordered(x0: real, x1: real, x2: real)
    ensures Denominator(x1, x0, x2) == -Denominator(x0, x1, x2)
    ensures Denominator(x2, x0, x1) == Denominator(x0, x1, x2)
  {
  }

  /** The numerators sum to the denominator, also when weighted by the points and by
      their squares. */
  lemma Identities(x: real, x0: real, x1: real, x2: real)
    ensures var u, v, w := Numerator(x, x1, x2), -Numerator(x, x0, x2), Numerator(x, x0, x1);
            var d := Denominator(x0, x1, x2);
            && u + v + w == d
            && x0 * u + x1 * v + x2 * w == x * d
            && (x0 * x0) * u + (x1 * x1) * v + (x2 * x2) * w == (x * x) * d
  {
  }

  lemma Cancel(u: real, v: real, d: real)
    requires u * d == v * d && d != 0.0
    ensures u == v
  {
    assert (u - v) * d == 0.0;
  }

  /** Weights whose products with d sum, weighted, to total times d. */
  lemma Weighted(p: real, q: real, r: real, t0: real, t1: real, t2: real, d: real, u: real, v: real, w: real,
                 total: real)
    requires d != 0.0 && t0 * d == u && t1 * d == v && t2 * d == w && p * u + q * v + r * w == total * d
    ensures p * t0 + q * t1 + r * t2 == total
  {
    assert (p * t0 + q * t1 + r * t2) * d == p * (t0 * d) + q * (t1 * d) + r * (t2 * d);
    Cancel(p * t0 + q * t1 + r * t2, total, d);
  }

  /** Weights that have the moments of d at the point x give every quadratic at x. */
  lemma FromMoments(a: real, b: real, c: real, x: real, x0: real, x1: real, x2: real,
                    u: real, v: real, w: real, d: real)
    requires u + v + w == d
    requires x0 * u + x1 * v + x2 * w == x * d
    requires (x0 * x0) * u + (x1 * x1) * v + (x2 * x2) * w == (x * x) * d
    ensures Quadratic(a, b, c, x0) * u + Quadratic(a, b, c, x1) * v + Quadratic(a, b, c, x2) * w ==
            Quadratic(a, b, c, x) * d
  {
    Spread(a, b, c, x0, u);
    Spread(a, b, c, x1, v);
    Spread(a, b, c, x2, w);
    Spread(a, b, c, x, d);
    Gathered(a, b, c, (x0 * x0) * u, (x1 * x1) * v, (x2 * x2) * w, (x * x) * d,
             x0 * u, x1 * v, x2 * w, x * d, u, v, w, d);
  }

  lemma Gathered(a: real, b: real, c: real, p0: real, p1: real, p2: real, p: real,
                 q0: real, q1: real, q2: real, q: real, t0: real, t1: real, t2: real, t: real)
    requires p0 + p1 + p2 == p && q0 + q1 + q2 == q && t0 + t1 + t2 == t
    ensures (a * p0 + b * q0 + c * t0) + (a * p1 + b * q1 + c * t1) + (a * p2 + b * q2 + c * t2) ==
            a * p + b * q + c * t
  {
    assert a * p == a * (p0 + p1 + p2) && b * q == b * (q0 + q1 + q2) && c * t == c * (t0 + t1 + t2);
  }

  lemma Spread(a: real, b: real, c: real, x: real, t: real)
    ensures Quadratic(a, b, c, x) * t == a * ((x * x) * t) + b * (x * t) + c * t
  {
  }

  lemma Interpolated(a: real, b: real, c: real, x: real, x0: real, x1: real, x2: real,
                     t0: real, t1: real, t2: real, d: real, u: real, v: real, w: real)
    requires d != 0.0 && t0 * d == u && t1 * d == v && t2 * d == w
    requires u + v + w == d
    requires x0 * u + x1 * v + x2 * w == x * d
    requires (x0 * x0) * u + (x1 * x1) * v + (x2 * x2) * w == (x * x) * d
    ensures Quadratic(a, b, c, x0) * t0 + Quadratic(a, b, c, x1) * t1 + Quadratic(a, b, c, x2) * t2 ==
            Quadratic(a, b, c, x)
  {
    FromMoments(a, b, c, x, x0, x1, x2, u, v, w, d);
    Weighted(Quadratic(a, b, c, x0), Quadratic(a, b, c, x1), Quadratic(a, b, c, x2), t0, t1, t2, d, u, v, w,
             Quadratic(a, b, c, x));
  }

  /** Lagrange interpolation of the three values of a quadratic is that quadratic. */
  lemma QuadraticReproduced(a: real, b: real, c: real, x: real, x0: real, x1: real, x2: real)
    requires x0 != x1 && x0 != x2 && x1 != x2
    ensures TargetK(x, x0, Quadratic(a, b, c, x0), x1, Quadratic(a, b, c, x1), x2, Quadratic(a, b, c, x2)) ==
            Quadratic(a, b, c, x)
  {
    LagrangeTerms(x, x0, x1, x2);
    Identities(x, x0, x1, x2);
    Interpolated(a, b, c, x, x0, x1, x2, Term(x, x0, x1, x2), Term(x, x1, x0, x2), Term(x, x2, x0, x1),
                 Denominator(x0, x1, x2), Numerator(x, x1, x2), -Numerator(x, x0, x2), Numerator(x, x0, x1));
  }

  /** The curve passes through each baseline point. */
  lemma HitsBaselines(x0: real, y0: real, x1: real, y1: real, x2: real, y2: real)
    requires x0 != x1 && x0 != x2 && x1 != x2
    ensures TargetK(x0, x0, y0, x1, y1, x2, y2) == y0
    ensures TargetK(x1, x0, y0, x1, y1, x2, y2) == y1
    ensures TargetK(x2, x0, y0, x1, y1, x2, y2) == y2
  {
    AtOwnPoint(x0, x1, x2);
    AtOwnPoint(x1, x0, x2);
    AtOwnPoint(x2, x0, x1);
  }

  lemma AtOwnPoint(a: real, b: real, c: real)
    requires a != b && a != c && b != c
    ensures Term(a, a, b, c) == 1.0 && Term(b, a, b, c) == 0.0 && Term(c, a, b, c) == 0.0
  {
    var d := (a - b) * (a - c);
    NonZeroProduct(a - b, a - c);
    assert d / d == 1.0;
    assert (b - b) * (b - c) == 0.0 && (c - b) * (c - c) == 0.0;
    assert 0.0 / d == 0.0;
  }

  /** For a configured, running pump whose baselines lie on a quadratic that is not zero
      at its speed, the reading is exactly 100 percent if and only if its power is the
      one the quadratic gives at that speed. */
  lemma Reads100WhenOnCurve(pump: Pump, a: real, b: real, c: real)
    requires var p := pump.profile;
             && p.configured && p.kLow > 0.0 && p.kMed > 0.0 && p.kHigh > 0.0 && DistinctRpms(p)
             && p.kLow == Quadratic(a, b, c, p.rpmLow as real)
             && p.kMed == Quadratic(a, b, c, p.rpmMed as real)
             && p.kHigh == Quadratic(a, b, c, p.rpmHigh as real)
    requires pump.ok && pump.rpm >= 1000 && pump.watts > 0
    requires Quadratic(a, b, c, pump.rpm as real) != 0.0
    ensures FlowEfficiency(pump) == Percent(100.0) <==>
            pump.watts as real * 1000000000.0 == Quadratic(a, b, c, pump.rpm as real) * Cube(pump.rpm as real)
  {
    var p, x := pump.profile, pump.rpm as real;
    QuadraticReproduced(a, b, c, x, p.rpmLow as real, p.rpmMed as real, p.rpmHigh as real);
    var k, watts := Quadratic(a, b, c, x), pump.watts as real;
    assert Target(p, x) == k;
    assert FlowEfficiency(pump) == Percent((LiveK(watts, Cube(x)) / k) * 100.0);
    LiveEqualsTarget(watts, Cube(x), k);
    RatioOne(LiveK(watts, Cube(x)), k);
  }

  /** There the reading is the measured power as a percentage of the curve's. */
  lemma ReadingExactly(pump: Pump, a: real, b: real, c: real)
    requires var p := pump.profile;
             && p.configured && p.kLow > 0.0 && p.kMed > 0.0 && p.kHigh > 0.0 && DistinctRpms(p)
             && p.kLow == Quadratic(a, b, c, p.rpmLow as real)
             && p.kMed == Quadratic(a, b, c, p.rpmMed as real)
             && p.kHigh == Quadratic(a, b, c, p.rpmHigh as real)
    requires pump.ok && pump.rpm >= 1000 && pump.watts > 0
    requires Quadratic(a, b, c, pump.rpm as real) != 0.0
    ensures var r, x := FlowEfficiency(pump), pump.rpm as real;
            r.Percent? && r.pct * (Quadratic(a, b, c, x) * (x * x * x)) == 100.0 * (pump.watts as real * 1000000000.0)
  {
    var p, x := pump.profile, pump.rpm as real;
    QuadraticReproduced(a, b, c, x, p.rpmLow as real, p.rpmMed as real, p.rpmHigh as real);
    var k, watts := Quadratic(a, b, c, x), pump.watts as real;
    assert Target(p, x) == k;
    assert FlowEfficiency(pump) == Percent((LiveK(watts, Cube(x)) / k) * 100.0);
    RatioTimes(watts, Cube(x), k);
  }

  lemma RatioTimes(watts: real, cube: real, k: real)
    requires cube > 0.0 && k != 0.0
    ensures ((LiveK(watts, cube) / k) * 100.0) * (k * cube) == 100.0 * (watts * 1000000000.0)
  {
    var live := LiveK(watts, cube);
    assert (watts / cube) * cube == watts;
    assert live * cube == ((watts / cube) * cube) * 1000000000.0;
    assert (live / k) * k == live;
    assert ((live / k) * 100.0) * (k * cube) == 100.0 * (((live / k) * k) * cube);
  }

  /** When there is no such reading: none at all without a complete profile, and zero for a
      pump that is not running well. */
  lemma NoReading(pump: Pump)
    ensures var p := pump.profile;
            var complete := p.configured && p.kLow > 0.0 && p.kMed > 0.0 && p.kHigh > 0.0;
            && (FlowEfficiency(pump) == Unconfigured <==> !complete)
            && (complete && !(pump.ok && pump.rpm >= 1000 && pump.watts > 0) ==> FlowEfficiency(pump) == Percent(0.0))
  {
  }

  lemma LiveEqualsTarget(watts: real, cube: real, k: real)
    requires cube > 0.0
    ensures LiveK(watts, cube) == k <==> watts * 1000000000.0 == k * cube
  {
    var live := LiveK(watts, cube);
    assert (watts / cube) * cube == watts;
    assert live * cube == ((watts / cube) * cube) * 1000000000.0;
    if watts * 1000000000.0 == k * cube {
      Cancel(live, k, cube);
    }
  }

  lemma RatioOne(u: real, k: real)
    requires k != 0.0
    ensures (u / k) * 100.0 == 100.0 <==> u == k
  {
    assert k / k == 1.0 && (u / k) * k == u;
  }
}
