/** Arithmetic behind charts and statistics: rounding, order statistics, and what each SQL aggregate means over rows. */
module Stats {
  import opened Wrappers
  import opened Incidents

  // --- rounding, in hundredths, on exact rationals ---

  lemma {:induction false} MulLe(x: int, y: int, q: nat)
    requires x <= y
    ensures x * q <= y * q
  {
    assert y * q - x * q == (y - x) * q;
  }

  /** A quotient is at least k exactly when the dividend is at least k divisors. */
  lemma {:induction false} DivAtLeast(a: int, q: nat, k: int)
    requires q > 0
    ensures a / q >= k <==> a >= k * q
  {
    var p := a / q;
    assert a == p * q + a % q;
    if p >= k {
      MulLe(k, p, q);
    } else {
      MulLe(p + 1, k, q);
      assert (p + 1) * q == p * q + q;
    }
  }

  /** `math.Round(num / den)`, half away from zero. */
  function Round(num: int, den: nat): (r: int)
    requires den > 0
  {
    if num >= 0 then (2 * num + den) / (2 * den) else -((2 * -num + den) / (2 * den))
  }

  lemma {:induction false} RoundNearest(num: int, den: nat)
    requires den > 0
    ensures -(den as int) <= 2 * (Round(num, den) * den - num) <= den
  {
    var a := if num >= 0 then num else -num;
    var r := (2 * a + den) / (2 * den);
    assert r * (2 * den) <= 2 * a + den < (r + 1) * (2 * den);
    assert (r + 1) * (2 * den) == r * (2 * den) + 2 * den;
    assert r * (2 * den) == 2 * (r * den);
    if num < 0 { assert (-r) * den == -(r * den); }
  }

  lemma {:induction false} RoundMonotone(a: nat, b: nat, den: nat)
    requires den > 0 && a <= b
    ensures Round(a, den) <= Round(b, den)
  {
    DivAtLeast(2 * a + den, 2 * den, Round(a, den));
    DivAtLeast(2 * b + den, 2 * den, Round(a, den));
  }

  /** Halfway goes up. */
  lemma {:induction false} RoundHalfUp(k: nat, den: nat)
    requires den > 0
    ensures Round(2 * k * den + den, 2 * den) == k + 1
  {
    var num := 2 * k * den + den;
    DivAtLeast(2 * num + 2 * den, 4 * den, k + 1);
    DivAtLeast(2 * num + 2 * den, 4 * den, k + 2);
    assert 2 * num + 2 * den == (k + 1) * (4 * den) && (k + 2) * (4 * den) == (k + 1) * (4 * den) + 4 * den;
  }

  /** Uptime in hundredths of a percent. */
  function Percent(ok: nat, n: nat): (p: int) { if n == 0 then 0 else Round(10000 * ok, n) }

  /** The shown percentage is within 0.005 of the true one, between 0 and 100, and grows with the successes. */
  lemma {:induction false} PercentAccurate(ok: nat, n: nat, ok': nat)
    requires n > 0 && ok <= ok' <= n
    ensures -(n as int) <= 2 * (Percent(ok, n) * n - 10000 * ok) <= n
    ensures 0 <= Percent(ok, n) <= Percent(ok', n) <= 10000
  {
    RoundNearest(10000 * ok, n);
    RoundMonotone(0, 10000 * ok, n);
    RoundMonotone(10000 * ok, 10000 * ok', n);
    RoundMonotone(10000 * ok', 10000 * n, n);
    RoundWhole(0, n);
    RoundWhole(10000, n);
  }

  lemma {:induction false} RoundWhole(k: nat, n: nat)
    requires n > 0
    ensures Round(k * n, n) == k
  {
    DivAtLeast(2 * (k * n) + n, 2 * n, k);
    DivAtLeast(2 * (k * n) + n, 2 * n, k + 1);
    assert k * (2 * n) == 2 * (k * n) && (k + 1) * (2 * n) == 2 * (k * n) + 2 * n;
    assert k * n >= 0;
  }

  /** With f > 0 failures, 100 is shown exactly when there were at least 20000 checks per failure. */
  lemma {:induction false} ShowsHundredIff(f: nat, n: nat)
    requires 0 < f <= n
    ensures Percent(n - f, n) == 10000 <==> n >= 20000 * f
  {
    var num := 2 * (10000 * (n - f)) + n;
    DivAtLeast(num, 2 * n, 10000);
    DivAtLeast(num, 2 * n, 10001);
  }

  // --- order statistics ---

  function InsertSorted(x: int, xs: seq<int>): (r: seq<int>)
    ensures multiset(r) == multiset(xs) + multiset{x}
  {
    if xs == [] || x <= xs[0] then
      assert [x] + xs == [x] + xs;
      [x] + xs
    else
      assert xs == [xs[0]] + xs[1..];
      [xs[0]] + InsertSorted(x, xs[1..])
  }

  /** `ORDER BY`. */
  function Sort(xs: seq<int>): (r: seq<int>)
    ensures multiset(r) == multiset(xs)
    ensures |r| == |xs|
  {
    if xs == [] then []
    else
      assert xs == [xs[0]] + xs[1..];
      var r := InsertSorted(xs[0], Sort(xs[1..]));
      assert |multiset(r)| == |multiset(xs)|;
      r
  }

  ghost predicate Ascending(xs: seq<int>) { forall i, j | 0 <= i < j < |xs| :: xs[i] <= xs[j] }

  lemma {:induction false} InsertAscending(x: int, xs: seq<int>)
    requires Ascending(xs)
    ensures Ascending(InsertSorted(x, xs))
  {
    if xs != [] && x > xs[0] {
      InsertAscending(x, xs[1..]);
      InsertHead(x, xs[1..]);
      AscendingCons(xs[0], InsertSorted(x, xs[1..]));
    } else if xs != [] {
      AscendingCons(x, xs);
    }
  }

  lemma {:induction false} InsertHead(x: int, xs: seq<int>)
    ensures InsertSorted(x, xs) != []
    ensures InsertSorted(x, xs)[0] == if xs == [] || x <= xs[0] then x else xs[0]
  {
  }

  lemma {:induction false} AscendingCons(x: int, xs: seq<int>)
    requires xs != [] && Ascending(xs) && x <= xs[0]
    ensures Ascending([x] + xs)
  {
    var r := [x] + xs;
    forall i, j | 0 <= i < j < |r| ensures r[i] <= r[j] {
      assert r[j] == xs[j - 1] && xs[0] <= xs[j - 1];
      if i > 0 { assert r[i] == xs[i - 1]; }
    }
  }

  lemma {:induction false} SortAscending(xs: seq<int>)
    ensures Ascending(Sort(xs))
  {
    if xs != [] {
      SortAscending(xs[1..]);
      InsertAscending(xs[0], Sort(xs[1..]));
    }
  }

  function CountBelow(xs: seq<int>, v: int): (n: nat) {
    if xs == [] then 0 else (if xs[0] < v then 1 else 0) + CountBelow(xs[1..], v)
  }

  /** v is the r-th smallest value: in the sample, fewer than r values below it, at least r values not above it. */
  ghost predicate IsRank(xs: seq<int>, r: int, v: int) {
    v in xs && CountBelow(xs, v) < r <= CountBelow(xs, v + 1)
  }

  lemma {:induction false} CountInsert(x: int, xs: seq<int>, v: int)
    ensures CountBelow(InsertSorted(x, xs), v) == CountBelow(xs, v) + if x < v then 1 else 0
  {
    if xs != [] && x > xs[0] {
      CountInsert(x, xs[1..], v);
      assert InsertSorted(x, xs)[1..] == InsertSorted(x, xs[1..]);
    } else {
      assert InsertSorted(x, xs)[1..] == xs;
    }
  }

  lemma {:induction false} CountSort(xs: seq<int>, v: int)
    ensures CountBelow(Sort(xs), v) == CountBelow(xs, v)
  {
    if xs != [] {
      CountSort(xs[1..], v);
      CountInsert(xs[0], Sort(xs[1..]), v);
    }
  }

  lemma {:induction false} CountAscending(xs: seq<int>, i: nat, v: int)
    requires Ascending(xs) && i <= |xs|
    ensures (forall k | i <= k < |xs| :: xs[k] >= v) ==> CountBelow(xs, v) <= i
    ensures (forall k | 0 <= k < i :: xs[k] < v) ==> CountBelow(xs, v) >= i
  {
    if xs != [] {
      if i == 0 {
        CountAscending(xs[1..], 0, v);
        assert (forall k | 0 <= k < |xs| :: xs[k] >= v) ==> forall k | 0 <= k < |xs[1..]| :: xs[1..][k] >= v;
      } else {
        CountAscending(xs[1..], i - 1, v);
        assert (forall k | i <= k < |xs| :: xs[k] >= v) ==> forall k | i - 1 <= k < |xs[1..]| :: xs[1..][k] >= v;
        assert (forall k | 0 <= k < i :: xs[k] < v) ==> forall k | 0 <= k < i - 1 :: xs[1..][k] < v;
      }
    }
  }

  lemma {:induction false} SortMember(xs: seq<int>, i: nat)
    requires i < |xs|
    ensures Sort(xs)[i] in xs
  {
    assert Sort(xs)[i] in multiset(Sort(xs));
  }

  lemma {:induction false} RankInAscending(s: seq<int>, r: nat)
    requires Ascending(s) && 1 <= r <= |s|
    ensures CountBelow(s, s[r - 1]) < r <= CountBelow(s, s[r - 1] + 1)
  {
    assert forall k | r - 1 <= k < |s| :: s[k] >= s[r - 1];
    CountAscending(s, r - 1, s[r - 1]);
    assert forall k | 0 <= k < r :: s[k] < s[r - 1] + 1;
    CountAscending(s, r, s[r - 1] + 1);
  }

  lemma {:induction false} CountsOfSorted(xs: seq<int>, r: nat)
    requires 1 <= r <= |xs|
    ensures CountBelow(xs, Sort(xs)[r - 1]) < r <= CountBelow(xs, Sort(xs)[r - 1] + 1)
  {
    var s := Sort(xs);
    SortAscending(xs);
    RankInAscending(s, r);
    CountSort(xs, s[r - 1]);
    CountSort(xs, s[r - 1] + 1);
  }

  /** The value at a position of the sorted sample is the order statistic of that rank. */
  lemma {:induction false} SortedIsRank(xs: seq<int>, r: nat)
    requires 1 <= r <= |xs|
    ensures IsRank(xs, r, Sort(xs)[r - 1])
  {
    CountsOfSorted(xs, r);
    SortMember(xs, r - 1);
  }

  /** There is only one value of a rank. */
  lemma {:induction false} RankUnique(xs: seq<int>, r: int, v: int, v': int)
    requires IsRank(xs, r, v) && IsRank(xs, r, v')
    ensures v == v'
  {
    if v < v' { CountMonotone(xs, v + 1, v'); }
    if v' < v { CountMonotone(xs, v' + 1, v); }
  }

  lemma {:induction false} CountMonotone(xs: seq<int>, v: int, v': int)
    requires v <= v'
    ensures CountBelow(xs, v) <= CountBelow(xs, v')
  {
    if xs != [] { CountMonotone(xs[1..], v, v'); }
  }

  // --- percentiles ---

  /** `MAX(1, n * 95 / 100)`. */
  function P95Cut(n: nat): nat { if n * 95 / 100 < 1 then 1 else n * 95 / 100 }

  function MaxOf(xs: seq<int>): (m: int)
    requires xs != []
  {
    if |xs| == 1 then xs[0] else if MaxOf(xs[..|xs| - 1]) > xs[|xs| - 1] then MaxOf(xs[..|xs| - 1]) else xs[|xs| - 1]
  }

  /** The window query on one bucket: MAX over the rows whose number in latency order is at most the cut; NULL reads as 0. */
  function WindowP95(xs: seq<int>): (v: int) {
    if xs == [] then 0 else MaxOf(Sort(xs)[..P95Cut(|xs|)])
  }

  lemma {:induction false} MaxOfAscending(xs: seq<int>)
    requires xs != [] && Ascending(xs)
    ensures MaxOf(xs) == xs[|xs| - 1]
  {
    if |xs| > 1 { MaxOfAscending(xs[..|xs| - 1]); }
  }

  lemma {:induction false} MaxOfPrefix(s: seq<int>, k: nat)
    requires Ascending(s) && 1 <= k <= |s|
    ensures MaxOf(s[..k]) == s[k - 1]
  {
    MaxOfAscending(s[..k]);
  }

  lemma {:induction false} CutInRange(n: nat)
    requires n > 0
    ensures 1 <= P95Cut(n) <= n && P95Cut(n) == if 95 * n / 100 < 1 then 1 else 95 * n / 100
  {
  }

  lemma {:induction false} WindowP95Position(xs: seq<int>)
    requires xs != []
    ensures 1 <= P95Cut(|xs|) <= |xs| && WindowP95(xs) == Sort(xs)[P95Cut(|xs|) - 1]
  {
    SortAscending(xs);
    CutInRange(|xs|);
    MaxOfPrefix(Sort(xs), P95Cut(|xs|));
  }

  /** The window query yields the order statistic at rank max(1, floor(95n / 100)), and nothing else is one. */
  lemma {:induction false} WindowP95IsRank(xs: seq<int>, v: int)
    requires xs != []
    ensures IsRank(xs, if 95 * |xs| / 100 < 1 then 1 else 95 * |xs| / 100, v) <==> v == WindowP95(xs)
  {
    WindowP95Position(xs);
    CutInRange(|xs|);
    SortedIsRank(xs, P95Cut(|xs|));
    if IsRank(xs, P95Cut(|xs|), v) { RankUnique(xs, P95Cut(|xs|), v, WindowP95(xs)); }
  }

  /**
   * `percentile`: offset floor(q * n), q in hundredths, clamped to the last of the n rows counted; 0 for none. The row is
   * then read from `later`, to which rows may have been added; none means that there is no such row.
   */
  method Percentile(n: nat, later: seq<int>, q: nat) returns (v: Option<int>)
    ensures v == PercentileAt(n, later, q)
    ensures n == 0 ==> v == Some(0)
    ensures n > 0 ==>
      var rank := if q * n / 100 >= n then n else q * n / 100 + 1;
      if rank <= |later| then v.Some? && IsRank(later, rank, v.value) else v == None
  {
    if n == 0 { return Some(0); }
    RankRange(n, q);
    var offset := q * n / 100;
    if offset >= n { offset := n - 1; }
    assert offset + 1 == PercentileRank(n, q);
    if offset >= |later| { return None; }
    SortedIsRank(later, offset + 1);
    v := Some(Sort(later)[offset]);
  }

  lemma {:induction false} RankRange(n: nat, q: nat)
    requires n > 0
    ensures 1 <= PercentileRank(n, q) <= n
  {
    assert q * n >= 0;
  }

  /** The rank (from 1) `percentile` reads. */
  function PercentileRank(n: nat, q: nat): (r: int) { if q * n / 100 >= n then n else q * n / 100 + 1 }

  function PercentileAt(n: nat, later: seq<int>, q: nat): (v: Option<int>) {
    if n == 0 then Some(0)
    else if PercentileRank(n, q) > |later| then None
    else
      RankRange(n, q);
      Some(Sort(later)[PercentileRank(n, q) - 1])
  }

  /** Of a sample that does not change meanwhile. */
  function PercentileOf(xs: seq<int>, q: nat): (v: int)
    ensures PercentileAt(|xs|, xs, q) == Some(v)
  {
    if xs == [] then 0
    else
      RankRange(|xs|, q);
      Sort(xs)[PercentileRank(|xs|, q) - 1]
  }

  /** The statistics page's p95 is the next rank up from the chart's, or the same for a single row; so never below it. */
  lemma {:induction false} SeriesP95VersusMetrics(xs: seq<int>)
    requires xs != []
    ensures PercentileRank(|xs|, 95) == P95Cut(|xs|) + if |xs| == 1 then 0 else 1
    ensures WindowP95(xs) <= PercentileOf(xs, 95)
  {
    WindowP95Position(xs);
    SortAscending(xs);
  }

  lemma {:induction false} RankGrows(n: nat, q: nat, q': nat)
    requires q <= q' && n > 0
    ensures 1 <= PercentileRank(n, q) <= PercentileRank(n, q') <= n
  {
    MulLe(q, q', n);
  }

  /** Percentiles are ordered as their quantiles are: p50 <= p95 <= p99. */
  lemma {:induction false} PercentilesOrdered(xs: seq<int>, q: nat, q': nat)
    requires q <= q'
    ensures PercentileOf(xs, q) <= PercentileOf(xs, q')
  {
    if xs != [] {
      SortAscending(xs);
      RankGrows(|xs|, q, q');
    }
  }

  // --- rows ---

  function Filter(rows: seq<CheckRow>, p: CheckRow -> bool): (r: seq<CheckRow>) {
    if rows == [] then []
    else Filter(rows[..|rows| - 1], p) + if p(rows[|rows| - 1]) then [rows[|rows| - 1]] else []
  }

  lemma {:induction false} FilterSame(rows: seq<CheckRow>, p: CheckRow -> bool, q: CheckRow -> bool)
    requires forall r | r in rows :: p(r) == q(r)
    ensures Filter(rows, p) == Filter(rows, q)
  {
    if rows != [] {
      assert forall r | r in rows[..|rows| - 1] :: r in rows;
      assert rows[|rows| - 1] in rows;
      FilterSame(rows[..|rows| - 1], p, q);
    }
  }

  /** `COALESCE(SUM(up), 0)`. */
  function CountUp(rows: seq<CheckRow>): (n: nat)
    ensures n <= |rows|
  {
    if rows == [] then 0 else CountUp(rows[..|rows| - 1]) + if rows[|rows| - 1].up then 1 else 0
  }

  /** Response times of the successful rows that have one. */
  function Latencies(rows: seq<CheckRow>): (xs: seq<int>) {
    if rows == [] then []
    else
      var r := rows[|rows| - 1];
      Latencies(rows[..|rows| - 1]) + if r.up && r.responseMs.Some? then [r.responseMs.value] else []
  }

  function Sum(xs: seq<int>): int { if xs == [] then 0 else Sum(xs[..|xs| - 1]) + xs[|xs| - 1] }

  /** `AVG(CASE WHEN up = 1 THEN response_ms END)` rounded to hundredths; NULL reads as 0. */
  function AvgCenti(rows: seq<CheckRow>): int {
    if Latencies(rows) == [] then 0 else Round(100 * Sum(Latencies(rows)), |Latencies(rows)|)
  }

  datatype Uptime = Uptime(checks: nat, successful: nat, failed: int, percent: int)

  function UptimeSince(rows: seq<CheckRow>, since: int): (u: Uptime) {
    var g := Filter(rows, (r: CheckRow) => r.ts >= since);
    Uptime(|g|, CountUp(g), |g| - CountUp(g), Percent(CountUp(g), |g|))
  }

  /** The positions below n at which something holds. */
  function Positions(n: nat, holds: int -> bool): (ps: set<int>) { set i | 0 <= i < n && holds(i) }

  lemma {:induction false} PositionsStep(n: nat, holds: int -> bool)
    ensures |Positions(n + 1, holds)| == |Positions(n, holds)| + if holds(n) then 1 else 0
  {
    assert Positions(n + 1, holds) == Positions(n, holds) + if holds(n) then {n} else {};
  }

  lemma {:induction false} PositionsSame(n: nat, holds: int -> bool, holds': int -> bool)
    requires forall i | 0 <= i < n :: holds(i) == holds'(i)
    ensures Positions(n, holds) == Positions(n, holds')
  {
  }

  lemma {:induction false} PositionsSplit(n: nat, holds: int -> bool, a: int -> bool, b: int -> bool)
    requires forall i | 0 <= i < n :: (holds(i) <==> a(i) || b(i)) && !(a(i) && b(i))
    ensures |Positions(n, holds)| == |Positions(n, a)| + |Positions(n, b)|
  {
    assert Positions(n, holds) == Positions(n, a) + Positions(n, b) && Positions(n, a) !! Positions(n, b);
  }

  /** Rows at which something holds, by position. */
  function RowsWhere(rows: seq<CheckRow>, holds: CheckRow -> bool): (ps: set<int>) {
    Positions(|rows|, i => 0 <= i < |rows| && holds(rows[i]))
  }

  lemma {:induction false} RowsWhereLast(rows: seq<CheckRow>, holds: CheckRow -> bool)
    requires rows != []
    ensures |RowsWhere(rows, holds)| == |RowsWhere(rows[..|rows| - 1], holds)| + if holds(rows[|rows| - 1]) then 1 else 0
  {
    var n := |rows| - 1;
    PositionsStep(n, i => 0 <= i < |rows| && holds(rows[i]));
    PositionsSame(n, i => 0 <= i < |rows| && holds(rows[i]), i => 0 <= i < |rows[..n]| && holds(rows[..n][i]));
  }

  /** `WHERE` and `GROUP BY` keep each row that qualifies, as often as it is there, and no other. */
  lemma {:induction false} FilterContents(rows: seq<CheckRow>, p: CheckRow -> bool, r: CheckRow)
    ensures multiset(Filter(rows, p))[r] == if p(r) then multiset(rows)[r] else 0
  {
    if rows != [] {
      var n := |rows| - 1;
      var last, f := rows[n], Filter(rows[..n], p);
      FilterContents(rows[..n], p, r);
      assert rows == rows[..n] + [last];
      if p(last) { assert multiset(f + [last]) == multiset(f) + multiset{last}; } else { assert f + [] == f; }
    }
  }

  /** What a filter keeps, and the successes among it, counted by position. */
  lemma {:induction false} FilterCounts(rows: seq<CheckRow>, p: CheckRow -> bool)
    ensures |Filter(rows, p)| == |RowsWhere(rows, p)|
    ensures CountUp(Filter(rows, p)) == |RowsWhere(rows, r => p(r) && r.up)|
  {
    if rows == [] {
      assert RowsWhere(rows, p) == {} && RowsWhere(rows, r => p(r) && r.up) == {};
    } else {
      var n := |rows| - 1;
      var last, f := rows[n], Filter(rows[..n], p);
      FilterCounts(rows[..n], p);
      RowsWhereLast(rows, p);
      RowsWhereLast(rows, r => p(r) && r.up);
      if p(last) { assert (f + [last])[..|f|] == f; } else { assert f + [] == f; }
    }
  }

  /**
   * Uptime of a site's ticks: exactly those from `since` on are counted, as successful those that were up and as failed the
   * others, and the percentage shown is within half a hundredth of the true one, or 0 without any.
   */
  lemma {:induction false} UptimeOfTicks(ticks: seq<Tick>, since: int)
    ensures var u, n := UptimeSince(Run(ticks).checks, since), |ticks|;
      && u.checks == |Positions(n, i => 0 <= i < n && ticks[i].ts >= since)|
      && u.successful == |Positions(n, i => 0 <= i < n && ticks[i].ts >= since && ticks[i].up)|
      && u.failed == |Positions(n, i => 0 <= i < n && ticks[i].ts >= since && !ticks[i].up)|
      && (u.checks == 0 ==> u.percent == 0)
      && (u.checks > 0 ==> -(u.checks as int) <= 2 * (u.percent * u.checks - 10000 * u.successful) <= u.checks)
  {
    var u := UptimeSince(Run(ticks).checks, since);
    if u.checks > 0 { PercentAccurate(u.successful, u.checks, u.checks); }
    var rows, p, n := Run(ticks).checks, (r: CheckRow) => r.ts >= since, |ticks|;
    LogIsComplete(ticks);
    FilterCounts(rows, p);
    PositionsSame(n, i => 0 <= i < |rows| && p(rows[i]), i => 0 <= i < n && ticks[i].ts >= since);
    var up := (r: CheckRow) => p(r) && r.up;
    PositionsSame(n, i => 0 <= i < |rows| && up(rows[i]), i => 0 <= i < n && ticks[i].ts >= since && ticks[i].up);
    PositionsSplit(n, i => 0 <= i < n && ticks[i].ts >= since, i => 0 <= i < n && ticks[i].ts >= since && ticks[i].up,
                   i => 0 <= i < n && ticks[i].ts >= since && !ticks[i].up);
  }

  // --- the sample behind means and percentiles ---

  /** The sample holds each response time as often as there are successful rows with it: none for failed rows, none for rows without. */
  lemma {:induction false} SampleIsSuccesses(rows: seq<CheckRow>, v: int)
    ensures multiset(Latencies(rows))[v] == |RowsWhere(rows, (r: CheckRow) => r.up && r.responseMs == Some(v))|
  {
    if rows == [] {
      assert RowsWhere(rows, (r: CheckRow) => r.up && r.responseMs == Some(v)) == {};
    } else {
      var n := |rows| - 1;
      var r, xs := rows[n], Latencies(rows[..n]);
      SampleIsSuccesses(rows[..n], v);
      RowsWhereLast(rows, (r: CheckRow) => r.up && r.responseMs == Some(v));
      if r.up && r.responseMs.Some? {
        assert multiset(xs + [r.responseMs.value]) == multiset(xs) + multiset{r.responseMs.value};
      } else {
        assert xs + [] == xs;
      }
    }
  }

  /** The same checks, but for the response times of failed ones. */
  ghost predicate SameButFailedTimes(a: seq<CheckRow>, b: seq<CheckRow>) {
    |a| == |b| && forall i | 0 <= i < |a| :: a[i].ts == b[i].ts && a[i].up == b[i].up && (a[i].up ==> a[i] == b[i])
  }

  lemma {:induction false} SameSnoc(a: seq<CheckRow>, b: seq<CheckRow>, x: CheckRow, y: CheckRow)
    requires SameButFailedTimes(a, b) && SameButFailedTimes([x], [y])
    ensures SameButFailedTimes(a + [x], b + [y])
  {
    assert [x][0] == x && [y][0] == y;
  }

  lemma {:induction false} FilterIgnoresFailedTimes(a: seq<CheckRow>, b: seq<CheckRow>, p: CheckRow -> bool)
    requires SameButFailedTimes(a, b) && forall r: CheckRow, r': CheckRow | r.ts == r'.ts && r.up == r'.up :: p(r) == p(r')
    ensures SameButFailedTimes(Filter(a, p), Filter(b, p))
  {
    if a != [] {
      var n := |a| - 1;
      assert a[n].ts == b[n].ts && a[n].up == b[n].up && p(a[n]) == p(b[n]);
      FilterIgnoresFailedTimes(a[..n], b[..n], p);
      SameSnoc(Filter(a[..n], p), Filter(b[..n], p), a[n], b[n]);
    }
  }

  lemma {:induction false} SampleIgnoresFailedTimes(a: seq<CheckRow>, b: seq<CheckRow>)
    requires SameButFailedTimes(a, b)
    ensures Latencies(a) == Latencies(b) && CountUp(a) == CountUp(b)
  {
    if a != [] {
      var n := |a| - 1;
      SampleIgnoresFailedTimes(a[..n], b[..n]);
    }
  }

  /** How long a failed check took, or whether that is known, changes no figure of the statistics page. */
  lemma {:induction false} MetricsIgnoreFailedTimes(a: nat -> seq<CheckRow>, b: nat -> seq<CheckRow>, k: nat, since: int, q: nat)
    requires SameButFailedTimes(a(k), b(k)) && SameButFailedTimes(a(k + 1), b(k + 1))
    ensures AvgCenti(Since(a(k), since)) == AvgCenti(Since(b(k), since)) && |Since(a(k), since)| == |Since(b(k), since)|
    ensures PercentileSince(a, k, since, q) == PercentileSince(b, k, since, q)
  {
    var p := (r: CheckRow) => r.ts >= since;
    FilterIgnoresFailedTimes(a(k), b(k), p);
    FilterIgnoresFailedTimes(a(k + 1), b(k + 1), p);
    SampleIgnoresFailedTimes(Since(a(k), since), Since(b(k), since));
    SampleIgnoresFailedTimes(Since(a(k + 1), since), Since(b(k + 1), since));
  }

  /** A total: nothing for nothing, a value for itself, and the totals of the parts for the whole. */
  lemma {:induction false} SumAdds(a: seq<int>, b: seq<int>, x: int)
    ensures Sum([]) == 0 && Sum([x]) == x && Sum(a + b) == Sum(a) + Sum(b)
  {
    assert [x][..0] == [];
    if b == [] {
      assert a + b == a;
    } else {
      assert (a + b)[..|a + b| - 1] == a + b[..|b| - 1];
      SumAdds(a, b[..|b| - 1], x);
    }
  }

  lemma {:induction false} OneMore(x: int, n: nat)
    ensures x * (n + 1) == x * n + x
  {
  }

  lemma {:induction false} SumBounds(xs: seq<int>, lo: int, hi: int)
    requires forall x | x in xs :: lo <= x <= hi
    ensures lo * |xs| <= Sum(xs) <= hi * |xs|
  {
    if xs != [] {
      var n := |xs| - 1;
      assert xs[n] in xs && forall x | x in xs[..n] :: x in xs;
      SumBounds(xs[..n], lo, hi);
      OneMore(lo, n);
      OneMore(hi, n);
    }
  }

  lemma {:induction false} RoundBetween(lo: nat, num: nat, hi: nat, n: nat)
    requires n > 0 && lo * n <= num <= hi * n
    ensures lo <= Round(num, n) <= hi
  {
    assert lo * n >= 0 && hi * n >= 0;
    RoundMonotone(lo * n, num, n);
    RoundMonotone(num, hi * n, n);
    RoundWhole(lo, n);
    RoundWhole(hi, n);
  }

  lemma {:induction false} RoundedTotal(lo: nat, total: nat, hi: nat, n: nat)
    requires n > 0 && lo * n <= total <= hi * n
    ensures -(n as int) <= 2 * (Round(100 * total, n) * n - 100 * total) <= n
    ensures 100 * lo <= Round(100 * total, n) <= 100 * hi
  {
    assert (100 * lo) * n == 100 * (lo * n) && (100 * hi) * n == 100 * (hi * n);
    RoundNearest(100 * total, n);
    RoundBetween(100 * lo, 100 * total, 100 * hi, n);
  }

  /** The shown mean is within half a hundredth of the true one, and between the least and the greatest response time of the sample. */
  lemma {:induction false} MeanAccurate(rows: seq<CheckRow>, lo: nat, hi: nat)
    requires Latencies(rows) != [] && forall x | x in Latencies(rows) :: lo <= x <= hi
    ensures var xs, shown := Latencies(rows), AvgCenti(rows);
      && -(|xs| as int) <= 2 * (shown * |xs| - 100 * Sum(xs)) <= |xs|
      && 100 * lo <= shown <= 100 * hi
  {
    var xs := Latencies(rows);
    SumBounds(xs, lo, hi);
    assert lo * |xs| >= 0;
    RoundedTotal(lo, Sum(xs), hi, |xs|);
  }

  /** With no successful row that has a response time, mean and percentiles read 0. */
  lemma {:induction false} EmptySample(rows: seq<CheckRow>, q: nat)
    requires forall i | 0 <= i < |rows| :: !rows[i].up || rows[i].responseMs.None?
    ensures Latencies(rows) == [] && AvgCenti(rows) == 0 && WindowP95(Latencies(rows)) == 0
    ensures PercentileAt(|Latencies(rows)|, Latencies(rows), q) == Some(0)
  {
    if rows != [] { EmptySample(rows[..|rows| - 1], q); }
  }

  datatype Metrics = Metrics(checks: nat, successful: nat, failed: int, avg: int, p50: int, p95: int, p99: int)

  function Since(rows: seq<CheckRow>, since: int): (g: seq<CheckRow>) { Filter(rows, (r: CheckRow) => r.ts >= since) }

  /** The p-th percentile as its two statements see the table. */
  function PercentileSince(table: nat -> seq<CheckRow>, first: nat, since: int, q: nat): (v: Option<int>) {
    PercentileAt(|Latencies(Since(table(first), since))|, Latencies(Since(table(first + 1), since)), q)
  }

  /**
   * Counts span every row; latency figures only the successful ones. Statement k sees the rows `table(k)`: one for counts
   * and mean, two for each percentile. With no row added or removed meanwhile the percentiles are in order.
   */
  method MetricsSince(table: nat -> seq<CheckRow>, since: int) returns (m: Option<Metrics>)
    ensures m.None? <==>
      PercentileSince(table, 1, since, 50).None? || PercentileSince(table, 3, since, 95).None? || PercentileSince(table, 5, since, 99).None?
    ensures m.Some? ==> var g := Since(table(0), since);
      && m.value.checks == |g| && m.value.successful == CountUp(g) && m.value.failed == m.value.checks - m.value.successful
      && m.value.avg == AvgCenti(g)
      && Some(m.value.p50) == PercentileSince(table, 1, since, 50)
      && Some(m.value.p95) == PercentileSince(table, 3, since, 95)
      && Some(m.value.p99) == PercentileSince(table, 5, since, 99)
    ensures (forall k :: table(k) == table(0)) ==> m.Some? && m.value.p50 <= m.value.p95 <= m.value.p99
  {
    var g := Since(table(0), since);
    var p50 := Percentile(|Latencies(Since(table(1), since))|, Latencies(Since(table(2), since)), 50);
    var p95 := Percentile(|Latencies(Since(table(3), since))|, Latencies(Since(table(4), since)), 95);
    var p99 := Percentile(|Latencies(Since(table(5), since))|, Latencies(Since(table(6), since)), 99);
    if forall k :: table(k) == table(0) { OneSnapshot(table, since); }
    if p50.None? || p95.None? || p99.None? { return None; }
    m := Some(Metrics(|g|, CountUp(g), |g| - CountUp(g), AvgCenti(g), p50.value, p95.value, p99.value));
  }

  lemma {:induction false} OneSnapshot(table: nat -> seq<CheckRow>, since: int)
    requires forall k :: table(k) == table(0)
    ensures var xs := Latencies(Since(table(0), since));
      && PercentileSince(table, 1, since, 50) == Some(PercentileOf(xs, 50))
      && PercentileSince(table, 3, since, 95) == Some(PercentileOf(xs, 95))
      && PercentileSince(table, 5, since, 99) == Some(PercentileOf(xs, 99))
      && PercentileOf(xs, 50) <= PercentileOf(xs, 95) <= PercentileOf(xs, 99)
  {
    var xs := Latencies(Since(table(0), since));
    assert forall k :: Latencies(Since(table(k), since)) == xs;
    PercentilesOrdered(xs, 50, 95);
    PercentilesOrdered(xs, 95, 99);
  }
}
