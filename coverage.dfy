/** `coverage_score` of utils.py: the best inner-product score of a search
    (nominally in [-1, 1]) mapped linearly onto a percentage, clamped to
    0..100 and rounded to one decimal. Scores are modelled as exact reals. */
module Coverage {

  /** `max(scores)` for a non-empty list. */
  function MaxScore(scores: seq<real>): (top: real)
    requires scores != []
    ensures top in scores
    ensures forall k :: 0 <= k < |scores| ==> scores[k] <= top
  {
    if |scores| == 1 then scores[0]
    else
      var rest := MaxScore(scores[1..]);
      if scores[0] >= rest then scores[0] else rest
  }

  /** `max(0.0, min(1.0, x))`. */
  function Clamp01(x: real): (y: real)
    ensures 0.0 <= y <= 1.0
    ensures 0.0 <= x <= 1.0 ==> y == x
    ensures x < 0.0 ==> y == 0.0
    ensures x > 1.0 ==> y == 1.0
  {
    if x < 0.0 then 0.0 else if x > 1.0 then 1.0 else x
  }

  /** The percentage before rounding: `max(0, min(1, (top + 1) / 2)) * 100`. */
  function CoveragePct(scores: seq<real>): (pct: real)
    requires scores != []
    ensures 0.0 <= pct <= 100.0
    ensures -1.0 <= MaxScore(scores) <= 1.0 ==> pct == (MaxScore(scores) + 1.0) * 50.0
    ensures MaxScore(scores) <= -1.0 ==> pct == 0.0
    ensures MaxScore(scores) >= 1.0 ==> pct == 100.0
  {
    Clamp01((MaxScore(scores) + 1.0) / 2.0) * 100.0
  }

  /** Python's `round(x, 1)` on an exact value: the nearest multiple of
      0.1, ties to the even tenth. */
  function Round1(x: real): (y: real)
    ensures -0.05 <= y - x <= 0.05
    ensures (y * 10.0).Floor as real == y * 10.0
  {
    var r := x * 10.0;
    var n := r.Floor;
    var frac := r - n as real;
    var m := if frac > 0.5 then n + 1 else if frac < 0.5 then n else if n % 2 == 0 then n else n + 1;
    m as real / 10.0
  }

  /** `coverage_score(scores)`: 0.0 for no scores, else the rounded percentage. */
  function CoverageScore(scores: seq<real>): (score: real)
    ensures 0.0 <= score <= 100.0
    ensures scores == [] ==> score == 0.0
  {
    if scores == [] then 0.0
    else
      var pct := CoveragePct(scores);
      Round1Monotone(0.0, pct);
      Round1Monotone(pct, 100.0);
      Round1Exact(0);
      Round1Exact(1000);
      Round1(pct)
  }

  // ---------------------------------------------------------------------
  // Rounding

  /** Rounding never reverses the order of two values. */
  lemma Round1Monotone(x: real, y: real)
    requires x <= y
    ensures Round1(x) <= Round1(y)
  {
    var rx, ry := x * 10.0, y * 10.0;
    var nx, ny := rx.Floor, ry.Floor;
    assert nx <= ny;
  }

  /** A value that already has one decimal is left unchanged. */
  lemma Round1Exact(m: int)
    ensures Round1(m as real / 10.0) == m as real / 10.0
  {
    var x := m as real / 10.0;
    assert x * 10.0 == m as real;
    assert (x * 10.0).Floor == m;
  }

  /** No multiple of 0.1 is closer to `x` than `Round1(x)`; on a tie the
      even tenth is taken. */
  lemma Round1Nearest(x: real, m: int)
    ensures Abs(Round1(x) - x) <= Abs(m as real / 10.0 - x)
    ensures Abs(Round1(x) - x) == Abs(m as real / 10.0 - x) && m as real / 10.0 != Round1(x)
        ==> (Round1(x) * 10.0).Floor % 2 == 0
  {
    var r := x * 10.0;
    var n := r.Floor;
    var frac := r - n as real;
    var mm := if frac > 0.5 then n + 1 else if frac < 0.5 then n else if n % 2 == 0 then n else n + 1;
    assert Round1(x) == mm as real / 10.0;
    assert Round1(x) * 10.0 == mm as real;
    ScaledDistance(mm, x);
    ScaledDistance(m, x);
    assert 0.0 <= frac < 1.0;
    if m <= n {
      assert Abs(m as real - r) == r - m as real >= frac;
    } else {
      assert Abs(m as real - r) == m as real - r >= 1.0 - frac;
    }
  }

  lemma ScaledDistance(m: int, x: real)
    ensures Abs(m as real / 10.0 - x) == Abs(m as real - x * 10.0) / 10.0
  {
  }

  function Abs(x: real): real {
    if x < 0.0 then -x else x
  }

  // ---------------------------------------------------------------------
  // The score

  /** The score depends on the scores only through their maximum and grows
      with it. */
  lemma CoverageMonotone(a: seq<real>, b: seq<real>)
    requires a != [] && b != []
    requires MaxScore(a) <= MaxScore(b)
    ensures CoveragePct(a) <= CoveragePct(b)
    ensures CoverageScore(a) <= CoverageScore(b)
  {
    Round1Monotone(CoveragePct(a), CoveragePct(b));
  }

  /** Reordering the scores does not change the score. */
  lemma CoveragePermutation(a: seq<real>, b: seq<real>)
    requires a != [] && multiset(a) == multiset(b)
    ensures b != []
    ensures MaxScore(a) == MaxScore(b)
    ensures CoverageScore(a) == CoverageScore(b)
  {
    assert |b| == |multiset(b)| == |multiset(a)| == |a|;
    var ta, tb := MaxScore(a), MaxScore(b);
    assert ta in multiset(b);
    assert tb in multiset(a);
  }

  /** An extra search result can only raise the score. */
  lemma CoverageAddScore(a: seq<real>, s: real)
    requires a != []
    ensures MaxScore(a) <= MaxScore(a + [s])
    ensures CoverageScore(a) <= CoverageScore(a + [s])
  {
    var t := MaxScore(a);
    assert t == (a + [s])[IndexOf(a, t)];
    CoverageMonotone(a, a + [s]);
  }

  function IndexOf(a: seq<real>, t: real): (k: nat)
    requires t in a
    ensures k < |a| && a[k] == t
  {
    if a[0] == t then 0 else 1 + IndexOf(a[1..], t)
  }

  /** The application's low-coverage warning `coverage < 60` fires exactly
      when the best score is below 0.199: 59.95% already rounds up to 60.0. */
  lemma LowCoverageThreshold(scores: seq<real>)
    requires scores != []
    ensures CoverageScore(scores) < 60.0 <==> MaxScore(scores) < 0.199
  {
    var top, pct := MaxScore(scores), CoveragePct(scores);
    Round1Exact(599);
    Round1Exact(600);
    if top < 0.199 {
      assert pct < 59.95;
      Round1Below(pct);
    } else {
      assert pct >= 59.95;
      Round1Monotone(59.95, pct);
      assert Round1(59.95) == 60.0;
    }
  }

  lemma Round1Below(x: real)
    requires x < 59.95
    ensures Round1(x) <= 59.9
  {
    var r := x * 10.0;
    assert r < 599.5;
    assert r.Floor <= 599;
  }

  /** The endpoints and the middle of the score range, and the 60% mark. */
  lemma CoverageExamples()
    ensures CoverageScore([1.0]) == 100.0
    ensures CoverageScore([-1.0]) == 0.0
    ensures CoverageScore([0.0]) == 50.0
    ensures CoverageScore([0.2]) == 60.0
    ensures CoverageScore([0.5, -0.3]) == 75.0
    ensures CoverageScore([2.5]) == 100.0
  {
    Round1Exact(1000);
    Round1Exact(0);
    Round1Exact(500);
    Round1Exact(600);
    Round1Exact(750);
    assert MaxScore([0.5, -0.3]) == 0.5 by {
      assert [0.5, -0.3][1..] == [-0.3];
    }
  }
}
