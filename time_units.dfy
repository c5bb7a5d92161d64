/** The expiry delay: `TimeUnit.valueOf(unit).toMillis(delay)`.

    `valueOf` accepts exactly the names of the seven `java.util.concurrent.TimeUnit` constants
    and throws for anything else, `null` included. `toMillis` divides (truncating toward zero)
    for units finer than a millisecond and multiplies for coarser ones, saturating at
    `Long.MAX_VALUE` / `Long.MIN_VALUE` instead of overflowing. The configured delay is a Java
    `int`, 30 when absent. */
module TimeUnits {
  import opened Base

  datatype TimeUnit = Nanoseconds | Microseconds | Milliseconds | Seconds | Minutes | Hours | Days

  function Name(u: TimeUnit): string {
    match u
    case Nanoseconds => "NANOSECONDS"
    case Microseconds => "MICROSECONDS"
    case Milliseconds => "MILLISECONDS"
    case Seconds => "SECONDS"
    case Minutes => "MINUTES"
    case Hours => "HOURS"
    case Days => "DAYS"
  }

  /** `TimeUnit.valueOf`; `None` when it throws (unknown name, or `null`). It is the inverse of
      `name`: a name is accepted exactly when it is a constant's name, and then it yields that
      constant. */
  function ValueOf(name: Option<string>): (r: Option<TimeUnit>)
    ensures r.Some? ==> name == Some(Name(r.value))
    ensures r.None? ==> forall u :: name != Some(Name(u))
  {
    match name
    case None => None
    case Some(s) =>
      if s == "NANOSECONDS" then Some(Nanoseconds)
      else if s == "MICROSECONDS" then Some(Microseconds)
      else if s == "MILLISECONDS" then Some(Milliseconds)
      else if s == "SECONDS" then Some(Seconds)
      else if s == "MINUTES" then Some(Minutes)
      else if s == "HOURS" then Some(Hours)
      else if s == "DAYS" then Some(Days)
      else None
  }

  const LongMax: int := 0x7fff_ffff_ffff_ffff
  const LongMin: int := -0x8000_0000_0000_0000

  type Long = x: int | LongMin <= x <= LongMax
  type Int = x: int | -0x8000_0000 <= x <= 0x7fff_ffff

  /** What `toMillis` computes for coarse units, stated without the overflow guard. */
  function Saturate(x: int): Long {
    if x > LongMax then LongMax else if x < LongMin then LongMin else x
  }

  predicate IsCoarse(u: TimeUnit) {
    u == Seconds || u == Minutes || u == Hours || u == Days
  }

  /** Milliseconds per unit, for the units of a millisecond or more. */
  function MillisPer(u: TimeUnit): nat
    requires IsCoarse(u) || u == Milliseconds
  {
    match u
    case Milliseconds => 1
    case Seconds => 1000
    case Minutes => 60 * 1000
    case Hours => 60 * 60 * 1000
    case Days => 24 * 60 * 60 * 1000
  }

  /** Units per millisecond, for the units finer than a millisecond. */
  function PerMilli(u: TimeUnit): nat
    requires u == Nanoseconds || u == Microseconds
  {
    if u == Nanoseconds then 1000 * 1000 else 1000
  }

  /** Java's `long` division by a positive divisor: truncation toward zero. */
  function JavaDiv(d: int, m: nat): int
    requires m > 0
  {
    if d >= 0 then d / m else -((-d) / m)
  }

  /** `unit.toMillis(d)`: division for fine units; for coarse ones the guard `d > MAX / m` then
      `d < -(MAX / m)` before multiplying. */
  function ToMillis(u: TimeUnit, d: Long): (r: Long)
    ensures u == Milliseconds ==> r == d
    ensures d >= 0 ==> r >= 0
    ensures d <= 0 ==> r <= 0
  {
    match u
    case Nanoseconds => JavaDiv(d, PerMilli(u))
    case Microseconds => JavaDiv(d, PerMilli(u))
    case Milliseconds => d
    case _ => Guarded(d, MillisPer(u))
  }

  function Guarded(d: Long, m: nat): Long
    requires m > 0
  {
    var over := LongMax / m;
    if d > over then LongMax else if d < -over then LongMin else d * m
  }

  /** The guard is exactly saturation of the product, for each coarse ratio. */
  lemma GuardIsSaturation(d: Long, m: nat)
    requires m == 1000 || m == 60 * 1000 || m == 60 * 60 * 1000 || m == 24 * 60 * 60 * 1000
    ensures Guarded(d, m) == Saturate(d * m)
  {
    var over := LongMax / m;
    if m == 1000 {
      assert over == 9223372036854775;
    } else if m == 60 * 1000 {
      assert over == 153722867280912;
    } else if m == 60 * 60 * 1000 {
      assert over == 2562047788015;
    } else {
      assert over == 106751991167;
    }
  }

  /** For coarse units `toMillis` is the product, saturated at the bounds of a `long`. */
  lemma ToMillisCoarse(u: TimeUnit, d: Long)
    requires IsCoarse(u)
    ensures ToMillis(u, d) == Saturate(d * MillisPer(u))
  {
    GuardIsSaturation(d, MillisPer(u));
  }

  /** For fine units `toMillis` is the quotient rounded toward zero. */
  lemma ToMillisFine(u: TimeUnit, d: Long)
    requires u == Nanoseconds || u == Microseconds
    ensures var r := ToMillis(u, d);
            && (d >= 0 ==> 0 <= r && r * PerMilli(u) <= d < (r + 1) * PerMilli(u))
            && (d < 0 ==> r <= 0 && (r - 1) * PerMilli(u) < d <= r * PerMilli(u))
  {
  }

  /** A delay that fits in a Java `int` never reaches the saturation bound, whatever the unit. */
  lemma IntDelayIsExact(u: TimeUnit, d: Int)
    requires IsCoarse(u) || u == Milliseconds
    ensures ToMillis(u, d) == d * MillisPer(u)
  {
    if IsCoarse(u) {
      ToMillisCoarse(u, d);
    }
  }

  const DefaultDelay: Int := 30

  /** The two configuration values the scheduler reads; `None` when the key is absent. */
  datatype ExpirationConfig = ExpirationConfig(delay: Option<Int>, unit: Option<string>)

  /** `config().getInteger("object.expiration.delay", 30)`. */
  function Delay(c: ExpirationConfig): Int {
    c.delay.GetOr(DefaultDelay)
  }

  /** The timer delay in milliseconds: `None` when `valueOf` throws, that is when the unit is
      absent or not a constant's name. The delay (30 when absent) is multiplied exactly for units
      of a millisecond or more, since an `int` delay never saturates, and divided toward zero for
      finer ones. */
  function ExpirationMillis(c: ExpirationConfig): (r: Option<Long>)
    ensures r.None? <==> ValueOf(c.unit).None?
    ensures r.Some? ==> var u := ValueOf(c.unit).value;
              && c.unit == Some(Name(u))
              && (IsCoarse(u) || u == Milliseconds ==> r.value == c.delay.GetOr(DefaultDelay) * MillisPer(u))
              && (u == Nanoseconds || u == Microseconds ==> r.value == JavaDiv(c.delay.GetOr(DefaultDelay), PerMilli(u)))
  {
    match ValueOf(c.unit)
    case None => None
    case Some(u) =>
      if IsCoarse(u) || u == Milliseconds then
        IntDelayIsExact(u, Delay(c));
        Some(ToMillis(u, Delay(c)))
      else Some(ToMillis(u, Delay(c)))
  }

  /** With no delay configured and minutes as the unit, objects live thirty minutes; the
      configuration of the service's own test (15 minutes) gives 900000 ms; a missing unit fails. */
  lemma ExpirationExamples()
    ensures ExpirationMillis(ExpirationConfig(None, Some("MINUTES"))) == Some(30 * 60 * 1000)
    ensures ExpirationMillis(ExpirationConfig(Some(15), Some("MINUTES"))) == Some(900000)
    ensures ExpirationMillis(ExpirationConfig(Some(15), None)).None?
    ensures ExpirationMillis(ExpirationConfig(Some(15), Some("minutes"))).None?
  {
  }
}
