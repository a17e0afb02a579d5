/** Percentage and grade helpers. Numbers are exact: integers and Dafny reals. */
module Utils {
  import opened DbTypes
  import Constants

  /**
   * `Math.round(n / d)`: the nearest integer to the exact quotient, halves
   * rounded up (towards positive infinity). Scaled by 2|d|, the result `r`
   * satisfies r - 1/2 <= n/d < r + 1/2.
   */
  function RoundRatio(n: int, d: int): (r: int)
    requires d != 0
    ensures var (m, a) := Normalize(n, d); 2 * a * r - a <= 2 * m < 2 * a * r + a
  {
    var (m, a) := Normalize(n, d);
    DivBounds(2 * m + a, 2 * a);
    (2 * m + a) / (2 * a)
  }

  /** The same quotient with a positive denominator. */
  function Normalize(n: int, d: int): (int, int) {
    if d > 0 then (n, d) else (-n, -d)
  }

  /** Floor division brackets its dividend. */
  lemma DivBounds(x: int, b: int)
    requires b > 0
    ensures b * (x / b) <= x < b * (x / b) + b
  {
  }

  /** `calculatePercentage(current, total)`: 0 for an empty total, else the rounded share out of 100. */
  function CalculatePercentage(current: int, total: int): (r: int)
    ensures total == 0 ==> r == 0
    ensures total > 0 ==> 2 * total * r - total <= 200 * current < 2 * total * r + total
  {
    if total == 0 then 0 else RoundRatio(100 * current, total)
  }

  /** A share of a positive total that does not exceed it rounds to a value in 0..100. */
  lemma PercentageInRange(current: int, total: int)
    requires 0 <= current <= total && total > 0
    ensures 0 <= CalculatePercentage(current, total) <= 100
  {
    var r := CalculatePercentage(current, total);
    if r < 0 {
      MulMonotone(total, r, -1);
    }
    if r > 100 {
      MulMonotone(total, 101, r);
    }
  }

  lemma MulMonotone(a: int, x: int, y: int)
    requires a > 0 && x <= y
    ensures a * x <= a * y
  {
    assert a * y - a * x == a * (y - x);
  }

  /** `getGradeFromPercentage` */
  function GradeFromPercentage(p: real): (g: Grade)
    ensures g == A <==> p >= 90.0
    ensures g == B <==> 80.0 <= p < 90.0
    ensures g == C <==> 70.0 <= p < 80.0
    ensures g == D <==> 60.0 <= p < 70.0
    ensures g == F <==> p < 60.0
  {
    if p >= 90.0 then A
    else if p >= 80.0 then B
    else if p >= 70.0 then C
    else if p >= 60.0 then D
    else F
  }

  /** Position of a grade from worst (F) to best (A). */
  function RankOf(g: Grade): nat {
    match g
    case F => 0
    case D => 1
    case C => 2
    case B => 3
    case A => 4
  }

  /** A higher percentage never earns a worse grade. */
  lemma GradeMonotone(p: real, q: real)
    requires p <= q
    ensures RankOf(GradeFromPercentage(p)) <= RankOf(GradeFromPercentage(q))
  {
  }

  /** The grade a badge tile shows for its points, written inline in the badge grid. */
  function BadgeGridGrade(points: int): (g: Grade)
    ensures g == GradeFromPercentage(points as real)
  {
    if points >= 90 then A
    else if points >= 80 then B
    else if points >= 70 then C
    else if points >= 60 then D
    else F
  }

  /** The first `GRADE_CRITERIA` band that contains `n`, if any. */
  function BandOf(n: int, bands: seq<Constants.GradeBand>): (r: Wrappers.Option<Constants.GradeBand>)
    ensures r.Some? ==> r.value in bands && Constants.InBand(r.value, n)
    ensures r.None? ==> forall i :: 0 <= i < |bands| ==> !Constants.InBand(bands[i], n)
  {
    if |bands| == 0 then Wrappers.None
    else if Constants.InBand(bands[0], n) then Wrappers.Some(bands[0])
    else BandOf(n, bands[1..])
  }

  /**
   * On the integers 0..100 the computed grade is the grade of the band that
   * contains the percentage; outside that range no band applies.
   */
  lemma GradeAgreesWithCriteria(n: int)
    ensures 0 <= n <= 100 ==>
              && BandOf(n, Constants.GradeCriteria).Some?
              && BandOf(n, Constants.GradeCriteria).value.grade == GradeFromPercentage(n as real)
    ensures !(0 <= n <= 100) ==> BandOf(n, Constants.GradeCriteria).None?
  {
    Constants.BandsCover(n);
    var r := BandOf(n, Constants.GradeCriteria);
    if r.Some? {
      var b := r.value;
      assert b == Constants.GradeCriteria[0] || b == Constants.GradeCriteria[1] || b == Constants.GradeCriteria[2]
        || b == Constants.GradeCriteria[3] || b == Constants.GradeCriteria[4];
    }
  }
}
