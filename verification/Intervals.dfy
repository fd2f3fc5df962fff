/**
 PostgreSQL intervals, three counts that need not agree in sign, and their normal forms
 (crates/nodus_executor/src/datetime.rs). The parts are modelled by unbounded integers.
 */
module Intervals {
  import opened Arithmetic

  const MICROS_PER_SECOND := 1_000_000
  const MICROS_PER_MINUTE := 60 * MICROS_PER_SECOND
  const MICROS_PER_HOUR := 60 * MICROS_PER_MINUTE
  const MICROS_PER_DAY := 24 * MICROS_PER_HOUR
  const DAYS_PER_MONTH := 30

  datatype Interval = Interval(months: int, days: int, micros: int) {

    function Negate(): Interval {
      Interval(-months, -days, -micros)
    }

    /** Microseconds in all, counting 30 days to a month. */
    function Span(): int {
      (months * DAYS_PER_MONTH + days) * MICROS_PER_DAY + micros
    }
  }

  /** Division that rounds toward zero, as on machine integers. */
  function Quot(a: int, b: int): (q: int)
    requires b > 0
  {
    if a >= 0 then a / b else -((-a) / b)
  }

  /** The remainder that goes with it: it has the sign of `a`. */
  function Rem(a: int, b: int): (r: int)
    requires b > 0
  {
    a - Quot(a, b) * b
  }

  lemma DivideParts(a: nat, b: int)
    requires b > 0
    ensures 0 <= a - a / b * b < b
    ensures 0 <= a / b
  {
    DivBetween(a, b);
    Distribute(a / b, 1, b);
    DivMonotone(0, a, b);
  }

  lemma QuotRem(a: int, b: int)
    requires b > 0
    ensures a == Quot(a, b) * b + Rem(a, b)
    ensures -b < Rem(a, b) < b
    ensures a >= 0 ==> Rem(a, b) >= 0 && Quot(a, b) >= 0
    ensures a <= 0 ==> Rem(a, b) <= 0 && Quot(a, b) <= 0
  {
    if a >= 0 { DivideParts(a, b); } else { DivideParts(-a, b); }
  }

  /** `justify_hours`. */
  method JustifyHours(iv: Interval) returns (r: Interval)
    ensures r.Span() == iv.Span() && r.months == iv.months
    ensures -MICROS_PER_DAY < r.micros < MICROS_PER_DAY
    ensures !(r.days > 0 && r.micros < 0) && !(r.days < 0 && r.micros > 0)
  {
    hide Quot, Rem;
    QuotRem(iv.micros, MICROS_PER_DAY);
    var days, micros := iv.days + Quot(iv.micros, MICROS_PER_DAY), Rem(iv.micros, MICROS_PER_DAY);
    if days > 0 && micros < 0 {
      micros, days := micros + MICROS_PER_DAY, days - 1;
    } else if days < 0 && micros > 0 {
      micros, days := micros - MICROS_PER_DAY, days + 1;
    }
    r := Interval(iv.months, days, micros);
  }

  /** `justify_days`. */
  method JustifyDays(iv: Interval) returns (r: Interval)
    ensures r.Span() == iv.Span() && r.micros == iv.micros
    ensures -DAYS_PER_MONTH < r.days < DAYS_PER_MONTH
    ensures !(r.months > 0 && r.days < 0) && !(r.months < 0 && r.days > 0)
  {
    hide Quot, Rem;
    QuotRem(iv.days, DAYS_PER_MONTH);
    var months, days := iv.months + Quot(iv.days, DAYS_PER_MONTH), Rem(iv.days, DAYS_PER_MONTH);
    if months > 0 && days < 0 {
      days, months := days + DAYS_PER_MONTH, months - 1;
    } else if months < 0 && days > 0 {
      days, months := days - DAYS_PER_MONTH, months + 1;
    }
    r := Interval(months, days, iv.micros);
  }

  /** All parts of one sign, under thirty days and under one day of time. */
  predicate Canonical(iv: Interval) {
    && -DAYS_PER_MONTH < iv.days < DAYS_PER_MONTH
    && -MICROS_PER_DAY < iv.micros < MICROS_PER_DAY
    && ((iv.months >= 0 && iv.days >= 0 && iv.micros >= 0) || (iv.months <= 0 && iv.days <= 0 && iv.micros <= 0))
  }

  /** `justify_interval`, as a function: what the step-by-step method computes. */
  function Justified(iv: Interval): Interval {
    var months := iv.months + Quot(iv.days, DAYS_PER_MONTH);
    var days := Rem(iv.days, DAYS_PER_MONTH) + Quot(iv.micros, MICROS_PER_DAY);
    var micros := Rem(iv.micros, MICROS_PER_DAY);
    OneSign(months + Quot(days, DAYS_PER_MONTH), Rem(days, DAYS_PER_MONTH), micros)
  }

  // The two sign corrections at the end.
  function OneSign(months: int, days: int, micros: int): Interval {
    var (m, d) :=
      if months > 0 && (days < 0 || (days == 0 && micros < 0)) then (months - 1, days + DAYS_PER_MONTH)
      else if months < 0 && (days > 0 || (days == 0 && micros > 0)) then (months + 1, days - DAYS_PER_MONTH)
      else (months, days);
    if d > 0 && micros < 0 then Interval(m, d - 1, micros + MICROS_PER_DAY)
    else if d < 0 && micros > 0 then Interval(m, d + 1, micros - MICROS_PER_DAY)
    else Interval(m, d, micros)
  }

  method Justify(iv: Interval) returns (r: Interval)
    ensures r == Justified(iv)
    ensures r.Span() == iv.Span() && Canonical(r)
  {
    var months, days, micros := iv.months, iv.days, iv.micros;
    months := months + Quot(days, DAYS_PER_MONTH);
    days := Rem(days, DAYS_PER_MONTH);
    days := days + Quot(micros, MICROS_PER_DAY);
    micros := Rem(micros, MICROS_PER_DAY);
    months := months + Quot(days, DAYS_PER_MONTH);
    days := Rem(days, DAYS_PER_MONTH);
    if months > 0 && (days < 0 || (days == 0 && micros < 0)) {
      days, months := days + DAYS_PER_MONTH, months - 1;
    } else if months < 0 && (days > 0 || (days == 0 && micros > 0)) {
      days, months := days - DAYS_PER_MONTH, months + 1;
    }
    if days > 0 && micros < 0 {
      micros, days := micros + MICROS_PER_DAY, days - 1;
    } else if days < 0 && micros > 0 {
      micros, days := micros - MICROS_PER_DAY, days + 1;
    }
    r := Interval(months, days, micros);
    JustifyMeaning(iv);
  }

  /** Justifying keeps the length and yields the canonical form. */
  lemma JustifyMeaning(iv: Interval)
    ensures Justified(iv).Span() == iv.Span()
    ensures Canonical(Justified(iv))
  {
    hide Quot, Rem;
    QuotRem(iv.days, DAYS_PER_MONTH);
    QuotRem(iv.micros, MICROS_PER_DAY);
    QuotRem(Rem(iv.days, DAYS_PER_MONTH) + Quot(iv.micros, MICROS_PER_DAY), DAYS_PER_MONTH);
  }

  /** No two canonical intervals have the same length. */
  lemma CanonicalUnique(a: Interval, b: Interval)
    requires Canonical(a) && Canonical(b) && a.Span() == b.Span()
    ensures a == b
  {
    SameParts(a.months * DAYS_PER_MONTH + a.days, a.micros, b.months * DAYS_PER_MONTH + b.days, b.micros, MICROS_PER_DAY);
    SameParts(a.months, a.days, b.months, b.days, DAYS_PER_MONTH);
  }

  // Two numbers written as q·d + r with r below d, both parts of one sign.
  lemma SameParts(q: int, r: int, q': int, r': int, d: int)
    requires d > 0 && -d < r < d && -d < r' < d
    requires (q >= 0 && r >= 0) || (q <= 0 && r <= 0)
    requires (q' >= 0 && r' >= 0) || (q' <= 0 && r' <= 0)
    requires q * d + r == q' * d + r'
    ensures q == q' && r == r'
  {
    if q < q' { MulLe(q + 1, q', d); Distribute(q, 1, d); }
    if q' < q { MulLe(q' + 1, q, d); Distribute(q', 1, d); }
  }

  /** Two intervals justify equally exactly when they are equally long. */
  lemma JustifyEqualIffSpan(a: Interval, b: Interval)
    ensures Justified(a) == Justified(b) <==> a.Span() == b.Span()
  {
    hide Justified, Canonical, Interval.Span;
    JustifyMeaning(a);
    JustifyMeaning(b);
    if a.Span() == b.Span() { CanonicalUnique(Justified(a), Justified(b)); }
  }

  /** Canonical intervals are the fixed points, so justifying twice is justifying once. */
  lemma JustifyFixedPoints(iv: Interval)
    ensures Justified(iv) == iv <==> Canonical(iv)
    ensures Justified(Justified(iv)) == Justified(iv)
  {
    hide Justified, Canonical, Interval.Span;
    JustifyMeaning(iv);
    JustifyMeaning(Justified(iv));
    CanonicalUnique(Justified(Justified(iv)), Justified(iv));
    if Canonical(iv) { CanonicalUnique(Justified(iv), iv); }
  }
}
