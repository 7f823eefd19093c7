/** Clamping of requested setpoints and pump speeds, and what the clamp keeps true
    over any sequence of requests on a panel with two temperatures for one heater. */
module Setpoints {
  import opened Division

  const TEMP_UNKNOWN := -999

  const HEATER_MAX_F := 104
  const HEATER_MIN_F := 36
  const FREEZE_PT_MAX_F := 42
  const FREEZE_PT_MIN_F := 34
  const CHILLER_MAX_F := 104
  const CHILLER_MIN_F := 34
  const HEATER_MAX_C := 40
  const HEATER_MIN_C := 0
  const FREEZE_PT_MAX_C := 5
  const FREEZE_PT_MIN_C := 1
  const CHILLER_MAX_C := 40
  const CHILLER_MIN_C := 0
  const SWG_PERCENT_MAX := 101
  const SWG_PERCENT_MIN := 0

  datatype Kind = PoolHeater | SpaHeater | Freeze | Chiller | Swg | Unknown

  /** The panel as far as the check reads it; `single` for one heater with two
      temperatures, of which the first must stay above the second. */
  datatype Panel = Panel(single: bool, celsius: bool, pool: int, spa: int)

  /** C's integer division, towards zero. */
  function CDiv(a: int, b: int): int
    requires b > 0
  {
    if a >= 0 then a / b else -((-a) / b)
  }

  /** roundTo */
  function RoundTo(num: int, denominator: int): int
    requires denominator > 0
  {
    CDiv(num + denominator / 2, denominator) * denominator
  }

  function HeaterMax(celsius: bool): int { if celsius then HEATER_MAX_C else HEATER_MAX_F }
  function HeaterMin(celsius: bool): int { if celsius then HEATER_MIN_C else HEATER_MIN_F }

  /** The lowest and highest value setpoint_check lets through. */
  function Bounds(kind: Kind, p: Panel): (int, int) {
    match kind
    case PoolHeater =>
      var min := if p.single then HeaterMin(p.celsius) + 1 else HeaterMin(p.celsius);
      (if p.single && p.spa != TEMP_UNKNOWN && min <= p.spa then p.spa + 1 else min, HeaterMax(p.celsius))
    case SpaHeater =>
      var max := if p.single then HeaterMax(p.celsius) - 1 else HeaterMax(p.celsius);
      (HeaterMin(p.celsius), if p.single && p.pool != TEMP_UNKNOWN && max >= p.pool then p.pool - 1 else max)
    case Freeze => if p.celsius then (FREEZE_PT_MIN_C, FREEZE_PT_MAX_C) else (FREEZE_PT_MIN_F, FREEZE_PT_MAX_F)
    case Chiller => if p.celsius then (CHILLER_MIN_C, CHILLER_MAX_C) else (CHILLER_MIN_F, CHILLER_MAX_F)
    case Swg => (SWG_PERCENT_MIN, SWG_PERCENT_MAX)
    case Unknown => (0, 0)
  }

  /** setpoint_check */
  function SetpointCheck(kind: Kind, value: int, p: Panel): int {
    var (min, max) := Bounds(kind, p);
    var clamped := if value > max then max else if value < min then min else value;
    if kind.Swg? then RoundTo(clamped, 5) else clamped
  }

  /** RPM_check */
  function RpmCheck(variableFlow: bool, value: int): int {
    if variableFlow then
      if value > 130 then 130 else if value < 15 then 15 else RoundTo(value, 5)
    else
      if value > 3450 then 3450 else if value < 600 then 600 else RoundTo(value, 5)
  }

  function Distance(a: int, b: int): nat {
    if a > b then a - b else b - a
  }

  // -------------------------------------------------------------------- rounding

  /** For numbers that are not negative roundTo gives the nearest multiple. */
  lemma RoundToNearest(num: int, denominator: int, other: int)
    requires num >= 0 && denominator > 0
    ensures RoundTo(num, denominator) % denominator == 0
    ensures Distance(RoundTo(num, denominator), num) <= Distance(other * denominator, num)
  {
    var d, a := denominator, num + denominator / 2;
    var q := a / d;
    assert a == d * q + a % d;
    assert RoundTo(num, d) == q * d == d * q;
    assert (q * d) % d == 0 by { MultipleRemainder(q, d); }
    if other > q {
      Mono(other, q + 1, d);
    } else if other < q {
      Mono(q - 1, other, d);
    }
  }

  lemma Mono(a: int, b: int, d: int)
    requires a >= b && d > 0
    ensures a * d >= b * d && (b + 1) * d == b * d + d && (b - 1) * d == b * d - d
    ensures (a + 1) * d == a * d + d && (a - 1) * d == a * d - d
    ensures d * a == a * d && d * b == b * d
  {
    assert (a - b) * d >= 0;
  }

  function Nearest(value: int, min: int, max: int): int {
    if value > max then max else if value < min then min else value
  }

  /** A chlorinator percentage comes out between 0 and 100 as the nearest multiple of 5 to
      the request clamped to 0 to 101: so 101, the boost value the clamp lets through,
      becomes 100, as does every request from 98 on. */
  lemma SwgInFives(value: int, p: Panel, other: int)
    ensures var r, v := SetpointCheck(Swg, value, p), Nearest(value, SWG_PERCENT_MIN, SWG_PERCENT_MAX);
            && 0 <= r <= 100 && r % 5 == 0
            && Distance(r, v) <= Distance(5 * other, v)
            && (r == 100 <==> value >= 98)
  {
    RoundToNearest(Nearest(value, SWG_PERCENT_MIN, SWG_PERCENT_MAX), 5, other);
  }

  /** Pump speeds: in range, in steps of 5, and the nearest step to a request in range. */
  lemma RpmInFives(variableFlow: bool, value: int, other: int)
    ensures var r, lo, hi := RpmCheck(variableFlow, value), if variableFlow then 15 else 600,
                             if variableFlow then 130 else 3450;
            && lo <= r <= hi && r % 5 == 0
            && (lo <= value <= hi ==> Distance(r, value) <= Distance(5 * other, value))
            && (value > hi ==> r == hi) && (value < lo ==> r == lo)
  {
    if value >= 0 {
      RoundToNearest(value, 5, other);
    }
  }

  // -------------------------------------------------------------------- clamping

  /** Whenever some value is allowed, the result is allowed, nearest to the request, and
      the request itself if that is allowed. */
  lemma ClampIsNearest(kind: Kind, value: int, p: Panel, other: int)
    requires !kind.Swg?
    requires var (min, max) := Bounds(kind, p); min <= other <= max
    ensures var (min, max) := Bounds(kind, p);
            var r := SetpointCheck(kind, value, p);
            && min <= r <= max && Distance(r, value) <= Distance(other, value)
            && (r == value <==> min <= value <= max)
  {
  }

  /** What a request becomes, in numbers: kind by kind, in either unit, on either panel. */
  lemma ClampedTo(value: int, p: Panel)
    ensures SetpointCheck(Freeze, value, p) == if p.celsius then Nearest(value, 1, 5) else Nearest(value, 34, 42)
    ensures SetpointCheck(Chiller, value, p) == if p.celsius then Nearest(value, 0, 40) else Nearest(value, 34, 104)
    ensures SetpointCheck(Unknown, value, p) == 0
    ensures !p.single ==>
              && SetpointCheck(PoolHeater, value, p) == SetpointCheck(SpaHeater, value, p)
              && SetpointCheck(SpaHeater, value, p) ==
                 (if p.celsius then Nearest(value, 0, 40) else Nearest(value, 36, 104))
    ensures p.single ==>
              && SetpointCheck(PoolHeater, value, p) ==
                 (if p.celsius then Nearest(value, AboveSpa(1, p.spa), 40)
                  else Nearest(value, AboveSpa(37, p.spa), 104))
              && SetpointCheck(SpaHeater, value, p) ==
                 (if p.celsius then Nearest(value, 0, BelowPool(39, p.pool))
                  else Nearest(value, 36, BelowPool(103, p.pool)))
  {
  }

  /** The lowest first temperature, if the second is known to be at least as high. */
  function AboveSpa(lowest: int, spa: int): int {
    if spa != TEMP_UNKNOWN && spa >= lowest then spa + 1 else lowest
  }

  function BelowPool(highest: int, pool: int): int {
    if pool != TEMP_UNKNOWN && pool <= highest then pool - 1 else highest
  }

  /** On a single-device panel, whatever is asked for, the first temperature comes out
      above a known second one if and only if that one is below the heater's maximum. */
  lemma PoolStaysAbove(p: Panel)
    requires p.single && p.spa != TEMP_UNKNOWN
    ensures (forall value :: SetpointCheck(PoolHeater, value, p) > p.spa) <==> p.spa < HeaterMax(p.celsius)
  {
    if p.spa >= HeaterMax(p.celsius) {
      assert SetpointCheck(PoolHeater, p.spa + 1, p) == HeaterMax(p.celsius);
    }
  }

  /** And the second comes out below a known first one if and only if that one is above
      the heater's minimum. */
  lemma SpaStaysBelow(p: Panel)
    requires p.single && p.pool != TEMP_UNKNOWN
    ensures (forall value :: SetpointCheck(SpaHeater, value, p) < p.pool) <==> p.pool > HeaterMin(p.celsius)
  {
    if p.pool <= HeaterMin(p.celsius) {
      assert SetpointCheck(SpaHeater, p.pool - 1, p) >= p.pool;
    }
  }

  // ------------------------------------------------------------------ whole runs

  datatype Request = Request(forSpa: bool, value: int)

  /** A filtered request becomes the panel's setpoint. */
  function Accept(p: Panel, r: Request): Panel {
    if r.forSpa then p.(spa := SetpointCheck(SpaHeater, r.value, p))
    else p.(pool := SetpointCheck(PoolHeater, r.value, p))
  }

  function AcceptAll(p: Panel, requests: seq<Request>): Panel {
    if requests == [] then p else Accept(AcceptAll(p, requests[..|requests| - 1]), requests[|requests| - 1])
  }

  /** Known temperatures in range, the first above the second. */
  predicate Safe(p: Panel) {
    && (p.pool != TEMP_UNKNOWN ==> HeaterMin(p.celsius) < p.pool <= HeaterMax(p.celsius))
    && (p.spa != TEMP_UNKNOWN ==> HeaterMin(p.celsius) <= p.spa < HeaterMax(p.celsius))
    && (p.pool != TEMP_UNKNOWN && p.spa != TEMP_UNKNOWN ==> p.spa < p.pool)
  }

  /** Any sequence of requests, starting with nothing known (or from any safe panel),
      keeps a single-device panel safe, and there is always some value to choose. */
  lemma {:induction false} RequestsKeepSafe(p: Panel, requests: seq<Request>)
    requires p.single && Safe(p)
    ensures var q := AcceptAll(p, requests);
            && q.single && q.celsius == p.celsius && Safe(q)
            && Bounds(PoolHeater, q).0 <= Bounds(PoolHeater, q).1
            && Bounds(SpaHeater, q).0 <= Bounds(SpaHeater, q).1
  {
    if requests == [] {
    } else {
      RequestsKeepSafe(p, requests[..|requests| - 1]);
    }
  }

  /** Every safe pair of temperatures can be asked for: from any safe panel at most three
      requests set it. */
  lemma SafePairsReachable(p: Panel, pool: int, spa: int)
    requires p.single && Safe(p) && Safe(Panel(true, p.celsius, pool, spa))
    requires pool != TEMP_UNKNOWN && spa != TEMP_UNKNOWN
    ensures var raised := Accept(p, Request(false, HeaterMax(p.celsius)));
            var q := Accept(Accept(raised, Request(true, spa)), Request(false, pool));
            q.pool == pool && q.spa == spa
  {
  }

  /** The units must not change under way: 30 degrees Celsius, read as Fahrenheit, leaves
      no room below it. */
  lemma UnitsChangeBreaksOrder()
    ensures var p := AcceptAll(Panel(true, true, TEMP_UNKNOWN, TEMP_UNKNOWN), [Request(false, 30)]);
            Safe(p) && p.pool == 30 &&
            !Safe(Accept(p.(celsius := false), Request(true, 20)))
  {
    var none := Panel(true, true, TEMP_UNKNOWN, TEMP_UNKNOWN);
    assert [Request(false, 30)][..0] == [];
    assert AcceptAll(none, []) == none;
  }
}
