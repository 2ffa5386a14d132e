/** Counting a coverage source: the summary, and the percentage that decimal arithmetic rounds to one place. */
module CoverageSummary {
  import opened CoverageLedger
  import Lists

  datatype Summary = Summary(applicable: nat, full: nat, partial: nat, policyReview: nat, uncovered: nat, excluded: nat, tenths: nat)

  function CountOf(items: seq<Item>, status: CoverageStatus): (n: nat)
    ensures n <= |items|
    ensures n == |items| <==> forall i :: 0 <= i < |items| ==> items[i].status == status
    ensures n == 0 <==> forall i :: 0 <= i < |items| ==> items[i].status != status
  {
    if items == [] then 0
    else CountOf(items[..|items| - 1], status) + if items[|items| - 1].status == status then 1 else 0
  }

  /** Decimal division keeps 28 significant digits: for a quotient up to one, an integer number of units of
      10^-28 or smaller, `scale` times smaller. */
  const UNIT := 10_000_000_000_000_000_000_000_000_000

  /** `m` units are as close to `full / applicable` as units get, however ties are broken. */
  predicate Quotient(m: int, full: int, applicable: int, units: int) {
    -applicable <= 2 * (m * applicable - full * units) <= applicable
  }

  /** A quotient of `m` units, times one hundred, quantized half up to one decimal place; counted in tenths. */
  function Quantize(m: nat, units: nat): nat
    requires units > 0
  {
    (2000 * m + units) / (2 * units)
  }

  /** Exact half-up rounding of the true percentage, in tenths. */
  predicate HalfUp(tenths: int, full: int, applicable: int) {
    2 * applicable * tenths <= 2000 * full + applicable < 2 * applicable * (tenths + 1)
  }

  lemma Scale(a: int, b: int, c: int)
    requires a <= b && c >= 0
    ensures a * c <= b * c
  {
  }

  lemma Unscale(a: int, x: int)
    requires a > 0
    ensures a * x >= 0 <==> x >= 0
    ensures a * x < 0 <==> x < 0
  {
    if x >= 0 { Scale(0, x, a); } else { Scale(x, -1, a); }
  }

  lemma MultipleIsFar(a: int, k: int)
    requires a > 0 && k != 0
    ensures k * a >= a || k * a <= -a
  {
    if k >= 1 { Scale(1, k, a); } else { Scale(k, -1, a); }
  }

  lemma Scaled(t: int, m: int, u: int, full: int, applicable: int)
    ensures applicable * (2000 * m + u - 2 * u * t)
            == u * (2000 * full + applicable - 2 * applicable * t) + 2000 * (m * applicable - full * u)
  {
    assert applicable * (2000 * m + u - 2 * u * t) == 2000 * (m * applicable) + u * applicable - 2 * (u * t * applicable);
    assert u * (2000 * full + applicable - 2 * applicable * t) == 2000 * (full * u) + u * applicable - 2 * (u * t * applicable);
  }

  /** At an exact tie the quotient is itself a whole number of units, so the division commits no error. */
  lemma TieIsExact(t: int, m: int, u: int, full: int, applicable: int)
    requires 2000 * full + applicable == 2 * applicable * t && u % 2000 == 0
    requires applicable > 0 && Quotient(m, full, applicable, u)
    ensures m * applicable == full * u
  {
    var w := u / 2000;
    var k := m - (2 * t - 1) * w;
    assert full * u == (2000 * full) * w;
    assert 2000 * full == (2 * t - 1) * applicable;
    assert (2 * t - 1) * applicable * w == (2 * t - 1) * w * applicable;
    assert k * applicable == m * applicable - (2 * t - 1) * w * applicable;
    if k != 0 { MultipleIsFar(applicable, k); }
  }

  /** How far the rounded value is off, in terms of the tie distance `s` and the division error `d`. */
  lemma BelowBound(a: int, u: int, s: int, d: int, low: int)
    requires 0 < a && 1000 * a < u && 0 <= s && -a <= 2 * d && (s == 0 ==> d == 0)
    requires a * low == u * s + 2000 * d
    ensures low >= 0
  {
    if s > 0 { Scale(1, s, u); }
    Unscale(a, low);
  }

  lemma AboveBound(a: int, u: int, s: int, d: int, low: int)
    requires 0 < a && 1000 * a < u && s <= 2 * a - 1 && 2 * d <= a
    requires a * low == u * s + 2000 * d
    ensures low < 2 * u
  {
    Scale(s, 2 * a - 1, u);
    assert (2 * a - 1) * u == 2 * (u * a) - u;
    assert a * (low - 2 * u) == a * low - 2 * (u * a);
    Unscale(a, low - 2 * u);
  }

  /** The rounding error of the division never reaches the digit that is kept. */
  lemma RoundsHalfUp(t: int, m: int, u: int, full: int, applicable: int)
    requires 0 < applicable && 1000 * applicable < u && u % 2000 == 0
    requires Quotient(m, full, applicable, u) && HalfUp(t, full, applicable)
    ensures 2 * u * t <= 2000 * m + u < 2 * u * (t + 1)
  {
    var d, s := m * applicable - full * u, 2000 * full + applicable - 2 * applicable * t;
    var low := 2000 * m + u - 2 * u * t;
    Scaled(t, m, u, full, applicable);
    Next(applicable, t);
    Next(u, t);
    if s == 0 { TieIsExact(t, m, u, full, applicable); }
    BelowBound(applicable, u, s, d, low);
    AboveBound(applicable, u, s, d, low);
  }

  lemma Next(x: int, t: int)
    ensures 2 * x * (t + 1) == 2 * x * t + 2 * x
  {
  }

  /** The value of a decimal quotient, `m` units each one `units`-th. */
  datatype Ratio = Ratio(m: nat, units: nat)

  type Division = (nat, nat) -> Ratio

  /** Division to 28 significant digits or better. */
  ghost predicate DecimalDivision(divide: Division) {
    forall full: nat, applicable: nat :: full <= applicable && 0 < applicable ==> Precise(divide(full, applicable), full, applicable)
  }

  predicate Precise(r: Ratio, full: nat, applicable: nat) {
    r.units >= UNIT && r.units % UNIT == 0 && Quotient(r.m, full, applicable, r.units)
  }

  lemma PercentIsHalfUp(r: Ratio, full: nat, applicable: nat)
    requires 0 < applicable <= 512 && Precise(r, full, applicable)
    ensures HalfUp(Quantize(r.m, r.units), full, applicable)
  {
    var t := (2000 * full + applicable) / (2 * applicable);
    assert HalfUp(t, full, applicable);
    var n := r.units / UNIT;
    assert r.units % 2000 == 0 by {
      assert UNIT == 2000 * 5_000_000_000_000_000_000_000_000;
      assert r.units == 2000 * (n * 5_000_000_000_000_000_000_000_000);
    }
    RoundsHalfUp(t, r.m, r.units, full, applicable);
    FloorIs(2000 * r.m + r.units, 2 * r.units, t);
  }

  lemma FloorIs(x: nat, y: nat, t: int)
    requires y > 0 && y * t <= x < y * (t + 1)
    ensures x / y == t
  {
    var q := x / y;
    if q != t { MultipleIsFar(y, q - t); }
    assert y * q <= x < y * (q + 1);
    assert (q - t) * y == y * q - y * t;
  }

  lemma {:induction false} CountsSplit(items: seq<Item>)
    ensures CountOf(items, FullCoverage) + CountOf(items, PartialCoverage) + CountOf(items, PolicyReview)
            + CountOf(items, Uncovered) + CountOf(items, Excluded) == |items|
  {
    if items != [] { CountsSplit(items[..|items| - 1]); }
  }

  ghost function Places(items: seq<Item>, status: CoverageStatus): set<int> {
    set i | 0 <= i < |items| && items[i].status == status
  }

  /** The count is the number of items with that very status. */
  lemma {:induction false} CountIsPlaces(items: seq<Item>, status: CoverageStatus)
    ensures CountOf(items, status) == |Places(items, status)|
  {
    if items == [] {
      assert Places(items, status) == {};
    } else {
      CountIsPlaces(items[..|items| - 1], status);
      PlacesGrow(items, status);
    }
  }

  lemma PlacesGrow(items: seq<Item>, status: CoverageStatus)
    requires items != []
    ensures var n := |items| - 1;
            |Places(items, status)| == |Places(items[..n], status)| + if items[n].status == status then 1 else 0
  {
    var n := |items| - 1;
    var front := items[..n];
    forall i ensures i in Places(items, status) <==> i in Places(front, status) || (i == n && items[n].status == status) {
      if 0 <= i < n { assert front[i] == items[i]; }
    }
    assert Places(items, status) == Places(front, status) + if items[n].status == status then {n} else {};
  }

  /** Every count of a summary, spelled out. */
  ghost predicate Tallies(s: Summary, items: seq<Item>) {
    && s.full == |set i | 0 <= i < |items| && items[i].status == FullCoverage|
    && s.partial == |set i | 0 <= i < |items| && items[i].status == PartialCoverage|
    && s.policyReview == |set i | 0 <= i < |items| && items[i].status == PolicyReview|
    && s.uncovered == |set i | 0 <= i < |items| && items[i].status == Uncovered|
    && s.excluded == |set i | 0 <= i < |items| && items[i].status == Excluded|
  }

  /** `Counter(item.status for item in items)` */
  method CountStatuses(items: seq<Item>) returns (counts: map<CoverageStatus, nat>)
    ensures forall status :: Counted(counts, status) == CountOf(items, status)
  {
    counts := map[];
    for i := 0 to |items|
      invariant forall status :: Counted(counts, status) == CountOf(items[..i], status)
    {
      Lists.PrefixOfPrefix(items, i);
      counts := counts[items[i].status := Counted(counts, items[i].status) + 1];
    }
    Lists.Whole(items);
  }

  method Percent(full: nat, applicable: nat, divide: Division) returns (tenths: nat)
    requires full <= applicable <= 512 && DecimalDivision(divide)
    ensures if applicable == 0 then tenths == 0 else HalfUp(tenths, full, applicable)
  {
    if applicable == 0 { return 0; }
    var r := divide(full, applicable);
    assert Precise(r, full, applicable);
    PercentIsHalfUp(r, full, applicable);
    tenths := Quantize(r.m, r.units);
  }

  /** Every item is counted once, and the percentage is the exact half-up rounding of the share of full items. */
  method SummarizeSource(items: seq<Item>, divide: Division) returns (s: Summary)
    requires |items| <= 512 && DecimalDivision(divide)
    ensures Tallies(s, items)
    ensures s.applicable == s.full + s.partial + s.policyReview + s.uncovered
    ensures s.applicable + s.excluded == |items|
    ensures if s.applicable == 0 then s.tenths == 0 else HalfUp(s.tenths, s.full, s.applicable)
  {
    var counts := CountStatuses(items);
    CountsSplit(items);
    var full, partial := Counted(counts, FullCoverage), Counted(counts, PartialCoverage);
    var review, uncovered := Counted(counts, PolicyReview), Counted(counts, Uncovered);
    var applicable := full + partial + review + uncovered;
    var tenths := Percent(full, applicable, divide);
    s := Summary(applicable, full, partial, review, uncovered, Counted(counts, Excluded), tenths);
    CountIsPlaces(items, FullCoverage);
    CountIsPlaces(items, PartialCoverage);
    CountIsPlaces(items, PolicyReview);
    CountIsPlaces(items, Uncovered);
    CountIsPlaces(items, Excluded);
  }

  function Counted(counts: map<CoverageStatus, nat>, status: CoverageStatus): nat {
    if status in counts then counts[status] else 0
  }

  /** More full items never lower the percentage. */
  lemma PercentIsMonotone(t: int, u: int, full: int, more: int, applicable: int)
    requires applicable > 0 && full <= more && HalfUp(t, full, applicable) && HalfUp(u, more, applicable)
    ensures t <= u
  {
    if t >= u + 1 { Scale(u + 1, t, 2 * applicable); }
  }

  /** Within the ledger's limit of 512 items, 100.0 means all applicable items and 0.0 means none. */
  lemma EndsAreExact(t: int, full: nat, applicable: nat)
    requires 0 < applicable <= 512 && full <= applicable && HalfUp(t, full, applicable)
    ensures t == 1000 <==> full == applicable
    ensures t == 0 <==> full == 0
    ensures 0 <= t <= 1000
  {
    PercentIsMonotone(0, t, 0, full, applicable);
    PercentIsMonotone(t, 1000, full, applicable, applicable);
    if full == applicable { PercentIsMonotone(1000, t, applicable, full, applicable); }
    if full == 0 { PercentIsMonotone(t, 0, full, 0, applicable); }
  }

  /** With 2000 applicable items, one of them not full still shows as 100.0. */
  lemma EndsBlurBeyondTheLimit()
    ensures HalfUp(1000, 1999, 2000)
  {
  }
}
