/** Bucketed uptime and latency: the clamped, grouped queries against plain time intervals. */
module Series {
  import opened Wrappers
  import opened Incidents
  import opened Stats

  datatype Point = Point(ts: int, checks: nat, successful: nat, uptime: int, avg: int, p95: int)

  const DEFAULT_BUCKETS := 96
  const MAX_BUCKETS := 1000

  function ClampBuckets(buckets: int): (n: nat)
    ensures 1 <= n <= 1000
    ensures 1 <= buckets <= 1000 ==> n == buckets
    ensures buckets <= 0 ==> n == 96
  {
    if buckets <= 0 then DEFAULT_BUCKETS else if buckets > MAX_BUCKETS then MAX_BUCKETS else buckets
  }

  /** Where the buckets of a chart lie. */
  datatype Grid = Grid(from: int, to: int, buckets: nat, width: nat)

  function Width(from: int, to: int, buckets: nat): (w: nat)
    requires buckets > 0 && from <= to
    ensures w >= 1 && to - from <= buckets * w
    ensures forall v: nat | v >= 1 && to - from <= buckets * v :: w <= v
  {
    var span := if to - from < 1 then 1 else to - from;
    DivAtLeast(span + buckets - 1, buckets, 1);
    var w := (span + buckets - 1) / buckets;
    CeilCovers(span, buckets);
    CeilLeast(span, buckets);
    w
  }

  lemma {:induction false} CeilCovers(span: nat, n: nat)
    requires n > 0
    ensures span <= n * ((span + n - 1) / n)
  {
    var w := (span + n - 1) / n;
    assert span + n - 1 == w * n + (span + n - 1) % n;
  }

  lemma {:induction false} CeilLeast(span: nat, n: nat)
    requires n > 0
    ensures forall v: nat | span <= n * v :: (span + n - 1) / n <= v
  {
    forall v: nat | span <= n * v ensures (span + n - 1) / n <= v {
      DivAtLeast(span + n - 1, n, v + 1);
      assert (v + 1) * n == n * v + n;
    }
  }

  ghost predicate GridOk(g: Grid) {
    g.buckets > 0 && g.width > 0 && g.from <= g.to && g.to - g.from <= g.buckets * g.width
  }

  function Start(g: Grid, i: int): int { g.from + i * g.width }

  // --- the naive definition ---

  /** Bucket i is `[Start(i), Start(i) + width)` up to `to`; the last one also takes `to` itself when the buckets end there exactly. */
  predicate Belongs(g: Grid, i: int, ts: int) {
    || (Start(g, i) <= ts < Start(g, i) + g.width && ts <= g.to)
    || (i == g.buckets - 1 && ts == g.to && g.buckets * g.width == g.to - g.from)
  }

  function Bucket(rows: seq<CheckRow>, g: Grid, i: int): (r: seq<CheckRow>) {
    Filter(rows, (r: CheckRow) => Belongs(g, i, r.ts))
  }

  function NaivePoint(rows: seq<CheckRow>, g: Grid, i: int): (p: Point) {
    var b := Bucket(rows, g, i);
    Point(Start(g, i), |b|, CountUp(b), Percent(CountUp(b), |b|), AvgCenti(b), WindowP95(Latencies(b)))
  }

  // --- the queries ---

  predicate Selected(g: Grid, ts: int) { g.from <= ts <= g.to }

  /** `MIN((ts - from) / width, last)`. */
  function Key(g: Grid, ts: int): int
    requires g.width > 0
  {
    var q := (ts - g.from) / g.width;
    if q < g.buckets - 1 then q else g.buckets - 1
  }

  /** The rows of group b. */
  function Group(rows: seq<CheckRow>, g: Grid, b: int): (r: seq<CheckRow>)
    requires g.width > 0
  {
    Filter(rows, (r: CheckRow) => Selected(g, r.ts) && Key(g, r.ts) == b)
  }

  /** The positions that hold, in order. */
  function Trues(flags: seq<bool>): (ks: seq<int>)
    ensures forall k | k in ks :: 0 <= k < |flags|
  {
    if flags == [] then []
    else Trues(flags[..|flags| - 1]) + if flags[|flags| - 1] then [|flags| - 1] else []
  }

  /** The group keys of a query's result, in order: every selected row's key lies in [0, buckets), see `KeyInRange`. */
  function Present(rows: seq<CheckRow>, g: Grid, latency: bool): (ks: seq<int>)
    requires g.width > 0
    ensures forall k | k in ks :: 0 <= k < g.buckets
  {
    Trues(seq(g.buckets, b requires 0 <= b < g.buckets => HasRows(rows, g, latency, b)))
  }

  /** Group b has rows; for the percentile query, successful ones with a latency. */
  predicate HasRows(rows: seq<CheckRow>, g: Grid, latency: bool, b: int)
    requires g.width > 0
  {
    if latency then Latencies(Group(rows, g, b)) != [] else Group(rows, g, b) != []
  }

  /** A row of the counts query; the mean is NULL or a sum over a count. */
  datatype CountRow = CountRow(b: int, n: nat, ok: nat, avg: Option<(int, nat)>)

  function CountRowOf(rows: seq<CheckRow>, g: Grid, b: int): CountRow
    requires g.width > 0
  {
    var r := Group(rows, g, b);
    var xs := Latencies(r);
    CountRow(b, |r|, CountUp(r), if xs == [] then None else Some((Sum(xs), |xs|)))
  }

  function CountsQuery(rows: seq<CheckRow>, g: Grid): (rs: seq<CountRow>)
    requires g.width > 0
  {
    var ks := Present(rows, g, false);
    seq(|ks|, j requires 0 <= j < |ks| => CountRowOf(rows, g, ks[j]))
  }

  datatype P95Row = P95Row(b: int, p95: int)

  function P95Query(rows: seq<CheckRow>, g: Grid): (rs: seq<P95Row>)
    requires g.width > 0
  {
    var ks := Present(rows, g, true);
    seq(|ks|, j requires 0 <= j < |ks| => P95Row(ks[j], WindowP95(Latencies(Group(rows, g, ks[j])))))
  }

  // --- queries against the definition ---

  lemma {:induction false} KeyInRange(g: Grid, ts: int)
    requires GridOk(g) && Selected(g, ts)
    ensures 0 <= Key(g, ts) < g.buckets
  {
    DivAtLeast(ts - g.from, g.width, 0);
  }

  /** Clamping puts a selected row in exactly the bucket it belongs to. */
  lemma {:induction false} KeyIffBelongs(g: Grid, i: int, ts: int)
    requires GridOk(g) && 0 <= i < g.buckets
    ensures Belongs(g, i, ts) <==> Selected(g, ts) && Key(g, ts) == i
  {
    var d, w, n := ts - g.from, g.width, g.buckets;
    DivAtLeast(d, w, i);
    DivAtLeast(d, w, i + 1);
    DivAtLeast(d, w, n - 1);
    DivAtLeast(d, w, n);
    assert (i + 1) * w == i * w + w;
    assert (n - 1) * w + w == n * w;
    MulLe(0, i, w);
    MulLe(i + 1, n, w);
  }

  lemma {:induction false} GroupIsBucket(rows: seq<CheckRow>, g: Grid, i: int)
    requires GridOk(g) && 0 <= i < g.buckets
    ensures Group(rows, g, i) == Bucket(rows, g, i)
  {
    forall r | r in rows ensures (Selected(g, r.ts) && Key(g, r.ts) == i) == Belongs(g, i, r.ts) {
      KeyIffBelongs(g, i, r.ts);
    }
    FilterSame(rows, (r: CheckRow) => Selected(g, r.ts) && Key(g, r.ts) == i, (r: CheckRow) => Belongs(g, i, r.ts));
  }

  lemma {:induction false} TruesAscend(flags: seq<bool>)
    ensures var ks := Trues(flags);
      && (forall i, j | 0 <= i < j < |ks| :: ks[i] < ks[j])
      && (forall b :: b in ks <==> 0 <= b < |flags| && flags[b])
  {
    if flags != [] {
      var n := |flags| - 1;
      TruesAscend(flags[..n]);
      var rest := Trues(flags[..n]);
      forall j | 0 <= j < |rest| ensures rest[j] < n { assert rest[j] in rest; }
    }
  }

  /** A query's keys ascend, and are exactly those of the groups that have rows. */
  lemma {:induction false} PresentKeys(rows: seq<CheckRow>, g: Grid, latency: bool)
    requires g.width > 0
    ensures var ks := Present(rows, g, latency);
      && (forall i, j | 0 <= i < j < |ks| :: ks[i] < ks[j])
      && (forall b :: b in ks <==> 0 <= b < g.buckets && HasRows(rows, g, latency, b))
  {
    TruesAscend(seq(g.buckets, b requires 0 <= b < g.buckets => HasRows(rows, g, latency, b)));
  }

  // --- the method ---

  /** The point before any query: an empty bucket. */
  function Blank(g: Grid, i: int): Point { Point(Start(g, i), 0, 0, 0, 0, 0) }

  /** The point once counts and mean are in. */
  function Counted(rows: seq<CheckRow>, g: Grid, i: int): Point { NaivePoint(rows, g, i).(p95 := 0) }

  lemma {:induction false} EmptyBuckets(rows: seq<CheckRow>, g: Grid, i: int)
    requires GridOk(g) && 0 <= i < g.buckets
    ensures !HasRows(rows, g, false, i) ==> Counted(rows, g, i) == Blank(g, i)
    ensures !HasRows(rows, g, true, i) ==> NaivePoint(rows, g, i) == Counted(rows, g, i)
  {
    GroupIsBucket(rows, g, i);
  }

  /** What one row of the counts query writes into its point. */
  function Filled(p: Point, row: CountRow): Point
    requires row.avg.Some? ==> row.avg.value.1 > 0
  {
    var p' := p.(checks := row.n, successful := row.ok);
    var p'' := if row.n > 0 then p'.(uptime := Percent(row.ok, row.n)) else p';
    p''.(avg := if row.avg.None? then 0 else Round(100 * row.avg.value.0, row.avg.value.1))
  }

  lemma {:induction false} FilledIsCounted(rows: seq<CheckRow>, g: Grid, b: int)
    requires GridOk(g) && 0 <= b < g.buckets
    ensures Filled(Blank(g, b), CountRowOf(rows, g, b)) == Counted(rows, g, b)
  {
    GroupIsBucket(rows, g, b);
  }

  /** What point i holds once the counts rows with keys `written` are in. */
  function AfterCounts(rows: seq<CheckRow>, g: Grid, written: seq<int>, i: int): Point {
    if i in written then Counted(rows, g, i) else Blank(g, i)
  }

  /** The naive point with counts and mean of `rows` and the percentile of `later` ones. */
  function PointOf(rows: seq<CheckRow>, later: seq<CheckRow>, g: Grid, i: int): Point {
    Counted(rows, g, i).(p95 := NaivePoint(later, g, i).p95)
  }

  function AfterP95(rows: seq<CheckRow>, later: seq<CheckRow>, g: Grid, written: seq<int>, i: int): Point {
    if i in written then PointOf(rows, later, g, i) else Counted(rows, g, i)
  }

  /** The j-th key is in range, has rows, and no earlier row of the result had it. */
  lemma {:induction false} NextKey(rows: seq<CheckRow>, g: Grid, latency: bool, j: nat)
    requires g.width > 0 && j < |Present(rows, g, latency)|
    ensures var ks := Present(rows, g, latency);
      && 0 <= ks[j] < g.buckets && ks[j] !in ks[..j] && ks[..j + 1] == ks[..j] + [ks[j]]
  {
    var ks := Present(rows, g, latency);
    PresentKeys(rows, g, latency);
    assert ks[j] in ks;
  }

  /** Once every row is in, the buckets no row wrote are right as they are. */
  lemma {:induction false} AllWritten(rows: seq<CheckRow>, g: Grid, i: int)
    requires GridOk(g) && 0 <= i < g.buckets
    ensures AfterCounts(rows, g, Present(rows, g, false), i) == Counted(rows, g, i)
    ensures i !in Present(rows, g, true) ==> NaivePoint(rows, g, i).p95 == 0
  {
    PresentKeys(rows, g, false);
    PresentKeys(rows, g, true);
    EmptyBuckets(rows, g, i);
  }

  method FillCounts(points: array<Point>, rows: seq<CheckRow>, g: Grid)
    requires GridOk(g) && points.Length == g.buckets
    requires forall i | 0 <= i < g.buckets :: points[i] == Blank(g, i)
    modifies points
    ensures forall i | 0 <= i < g.buckets :: points[i] == Counted(rows, g, i)
  {
    var result := CountsQuery(rows, g);
    ghost var ks := Present(rows, g, false);
    var j := 0;
    while j < |result|
      invariant 0 <= j <= |result| == |ks|
      invariant forall i | 0 <= i < g.buckets :: points[i] == AfterCounts(rows, g, ks[..j], i)
    {
      var row := result[j];
      NextKey(rows, g, false, j);
      FilledIsCounted(rows, g, ks[j]);
      if 0 <= row.b < points.Length { points[row.b] := Filled(points[row.b], row); }
      j := j + 1;
    }
    assert ks[..j] == ks;
    forall i | 0 <= i < g.buckets ensures points[i] == Counted(rows, g, i) { AllWritten(rows, g, i); }
  }

  lemma {:induction false} P95Written(rows: seq<CheckRow>, g: Grid, b: int)
    requires GridOk(g) && 0 <= b < g.buckets
    ensures WindowP95(Latencies(Group(rows, g, b))) == NaivePoint(rows, g, b).p95
  {
    GroupIsBucket(rows, g, b);
  }

  /** `rows` are those the counts were taken of, `later` those there are by now. */
  method FillSeriesP95(points: array<Point>, ghost rows: seq<CheckRow>, later: seq<CheckRow>, g: Grid)
    requires GridOk(g) && points.Length == g.buckets
    requires forall i | 0 <= i < g.buckets :: points[i] == Counted(rows, g, i)
    modifies points
    ensures forall i | 0 <= i < g.buckets :: points[i] == PointOf(rows, later, g, i)
  {
    var result := P95Query(later, g);
    ghost var ks := Present(later, g, true);
    var j := 0;
    while j < |result|
      invariant 0 <= j <= |result| == |ks|
      invariant forall i | 0 <= i < g.buckets :: points[i] == AfterP95(rows, later, g, ks[..j], i)
    {
      var row := result[j];
      NextKey(later, g, true, j);
      P95Written(later, g, ks[j]);
      if 0 <= row.b < points.Length { points[row.b] := points[row.b].(p95 := row.p95); }
      j := j + 1;
    }
    assert ks[..j] == ks;
    forall i | 0 <= i < g.buckets ensures points[i] == PointOf(rows, later, g, i) { AllWritten(later, g, i); }
  }

  /** `MIN(ts)`. */
  function FirstTs(rows: seq<CheckRow>): (t: int)
    requires rows != []
    ensures forall r | r in rows :: t <= r.ts
    ensures exists r | r in rows :: r.ts == t
  {
    if |rows| == 1 then
      assert rows[0] in rows;
      rows[0].ts
    else
      var t := FirstTs(rows[..|rows| - 1]);
      var last := rows[|rows| - 1];
      assert last in rows && forall r | r in rows :: r in rows[..|rows| - 1] || r == last;
      if last.ts < t then last.ts else t
  }

  /** Where a window starts: at `since`, or for "all" at the first row; never after now. */
  function From(rows: seq<CheckRow>, since: int, now: int): (from: int)
    requires since > 0 || rows != []
    ensures from <= now
  {
    var from := if since <= 0 then FirstTs(rows) else since;
    if from > now then now else from
  }

  function GridOf(rows: seq<CheckRow>, since: int, buckets: int, now: int): (g: Grid)
    requires since > 0 || rows != []
    ensures GridOk(g) && g.to == now
    ensures since > 0 ==> g.from == if since > now then now else since
    ensures since <= 0 ==> g.from == if FirstTs(rows) > now then now else FirstTs(rows)
    ensures g.buckets == if buckets <= 0 then 96 else if buckets > 1000 then 1000 else buckets
    ensures g.width >= 1 && forall v: nat | v >= 1 && g.to - g.from <= g.buckets * v :: g.width <= v
  {
    var from := From(rows, since, now);
    Grid(from, now, ClampBuckets(buckets), Width(from, now, ClampBuckets(buckets)))
  }

  /**
   * Every point of the chart is the naive one; "all" of nothing is an empty chart. The table may grow between the queries:
   * the first row is looked for in `rows`, the counts are taken of `counted`, the percentiles of `later`.
   */
  method SeriesOf(rows: seq<CheckRow>, counted: seq<CheckRow>, later: seq<CheckRow>, since: int, buckets: int, now: int)
    returns (from: int, width: int, points: array<Point>)
    ensures fresh(points)
    ensures since <= 0 && rows == [] ==> from == now && width == 1 && points.Length == 0
    ensures since > 0 || rows != [] ==>
      var g := GridOf(rows, since, buckets, now);
      && from == g.from && width == g.width && points.Length == g.buckets
      && (forall i | 0 <= i < g.buckets :: points[i] == PointOf(counted, later, g, i))
      && (counted == later ==> forall i | 0 <= i < g.buckets :: points[i] == NaivePoint(counted, g, i))
  {
    var n := buckets;
    if n <= 0 { n := DEFAULT_BUCKETS; }
    if n > MAX_BUCKETS { n := MAX_BUCKETS; }
    from := since;
    if from <= 0 {
      if rows == [] {
        points := new Point[0];
        return now, 1, points;
      }
      from := FirstTs(rows);
    }
    if from > now { from := now; }
    width := Width(from, now, n);
    var g := Grid(from, now, n, width);
    points := new Point[n];
    var i := 0;
    while i < n
      invariant 0 <= i <= n
      invariant forall k | 0 <= k < i :: points[k] == Blank(g, k)
    {
      points[i] := Point(from + i * width, 0, 0, 0, 0, 0);
      i := i + 1;
    }
    FillCounts(points, counted, g);
    FillSeriesP95(points, counted, later, g);
  }

  // --- what a point shows ---

  /** The row lies in interval i of the window; the last interval also takes the window's end when the intervals end there exactly. */
  predicate InInterval(g: Grid, i: int, r: CheckRow) {
    var from := g.from + i * g.width;
    r.ts <= g.to && (from <= r.ts < from + g.width || (i == g.buckets - 1 && from + g.width == g.to == r.ts))
  }

  /** A point counts the rows of its interval, from the rows themselves; its time is the interval's start. */
  lemma {:induction false} PointCounts(rows: seq<CheckRow>, g: Grid, i: nat)
    requires GridOk(g) && i < g.buckets
    ensures var p := NaivePoint(rows, g, i);
      && p.ts == g.from + i * g.width
      && p.checks == |RowsWhere(rows, r => InInterval(g, i, r))|
      && p.successful == |RowsWhere(rows, r => InInterval(g, i, r) && r.up)|
      && p.uptime == Percent(p.successful, p.checks)
  {
    var p, q := (r: CheckRow) => Belongs(g, i, r.ts), (r: CheckRow) => InInterval(g, i, r);
    FilterCounts(rows, p);
    forall r: CheckRow ensures p(r) == q(r) {
      if i == g.buckets - 1 { assert g.buckets * g.width == i * g.width + g.width; }
    }
    RowsWhereSame(rows, p, q);
    RowsWhereSame(rows, r => p(r) && r.up, r => InInterval(g, i, r) && r.up);
  }

  lemma {:induction false} RowsWhereSame(rows: seq<CheckRow>, p: CheckRow -> bool, q: CheckRow -> bool)
    requires forall r :: p(r) == q(r)
    ensures RowsWhere(rows, p) == RowsWhere(rows, q)
  {
    PositionsSame(|rows|, i => 0 <= i < |rows| && p(rows[i]), i => 0 <= i < |rows| && q(rows[i]));
  }

  /** How long a failed check took changes no point. */
  lemma {:induction false} PointIgnoresFailedTimes(a: seq<CheckRow>, b: seq<CheckRow>, g: Grid, i: int)
    requires SameButFailedTimes(a, b)
    ensures NaivePoint(a, g, i) == NaivePoint(b, g, i)
  {
    FilterIgnoresFailedTimes(a, b, (r: CheckRow) => Belongs(g, i, r.ts));
    SampleIgnoresFailedTimes(Bucket(a, g, i), Bucket(b, g, i));
  }

  // --- conservation ---

  /** Buckets from 0 up to k that a timestamp belongs to, counted. */
  function Homes(g: Grid, k: nat, ts: int): (n: nat) {
    if k == 0 then 0 else Homes(g, k - 1, ts) + if Belongs(g, k - 1, ts) then 1 else 0
  }

  /** Each selected row lands in exactly one bucket, any other in none. */
  lemma {:induction false} OneHome(g: Grid, k: nat, ts: int)
    requires GridOk(g) && k <= g.buckets
    ensures Homes(g, k, ts) == if Selected(g, ts) && Key(g, ts) < k then 1 else 0
  {
    if k > 0 {
      OneHome(g, k - 1, ts);
      KeyIffBelongs(g, k - 1, ts);
    }
    if Selected(g, ts) { KeyInRange(g, ts); }
  }

  function SumChecks(rows: seq<CheckRow>, g: Grid, k: nat): (n: nat) {
    if k == 0 then 0 else SumChecks(rows, g, k - 1) + NaivePoint(rows, g, k - 1).checks
  }

  function SumSuccessful(rows: seq<CheckRow>, g: Grid, k: nat): (n: nat) {
    if k == 0 then 0 else SumSuccessful(rows, g, k - 1) + NaivePoint(rows, g, k - 1).successful
  }

  lemma {:induction false} FilterSnoc(rows: seq<CheckRow>, r: CheckRow, p: CheckRow -> bool)
    ensures Filter(rows + [r], p) == Filter(rows, p) + if p(r) then [r] else []
    ensures CountUp(Filter(rows + [r], p)) == CountUp(Filter(rows, p)) + if p(r) && r.up then 1 else 0
  {
    assert (rows + [r])[..|rows|] == rows;
    var b := Filter(rows, p);
    if p(r) { assert (b + [r])[..|b|] == b; } else { assert b + [] == b; }
  }

  lemma {:induction false} SumsSnoc(rows: seq<CheckRow>, r: CheckRow, g: Grid, k: nat)
    ensures SumChecks(rows + [r], g, k) == SumChecks(rows, g, k) + Homes(g, k, r.ts)
    ensures SumSuccessful(rows + [r], g, k) == SumSuccessful(rows, g, k) + if r.up then Homes(g, k, r.ts) else 0
  {
    if k > 0 {
      SumsSnoc(rows, r, g, k - 1);
      FilterSnoc(rows, r, (x: CheckRow) => Belongs(g, k - 1, x.ts));
    }
  }

  function SelectedRows(rows: seq<CheckRow>, g: Grid): seq<CheckRow> { Filter(rows, (r: CheckRow) => Selected(g, r.ts)) }

  /** Checks and successes over all points are those of the window: none lost, none counted twice. */
  lemma {:induction false} ChecksConserved(rows: seq<CheckRow>, g: Grid)
    requires GridOk(g)
    ensures SumChecks(rows, g, g.buckets) == |SelectedRows(rows, g)|
    ensures SumSuccessful(rows, g, g.buckets) == CountUp(SelectedRows(rows, g))
  {
    if rows == [] {
      NothingToSum(g, g.buckets);
    } else {
      var before, r := rows[..|rows| - 1], rows[|rows| - 1];
      assert rows == before + [r];
      ChecksConserved(before, g);
      SumsSnoc(before, r, g, g.buckets);
      OneHome(g, g.buckets, r.ts);
      FilterSnoc(before, r, (x: CheckRow) => Selected(g, x.ts));
      if Selected(g, r.ts) { KeyInRange(g, r.ts); }
    }
  }

  lemma {:induction false} NothingToSum(g: Grid, k: nat)
    ensures SumChecks([], g, k) == 0 && SumSuccessful([], g, k) == 0
  {
    if k > 0 { NothingToSum(g, k - 1); }
  }

  /** A point that starts after the window's end is empty. */
  lemma {:induction false} LatePointsEmpty(rows: seq<CheckRow>, g: Grid, i: nat)
    requires GridOk(g) && i < g.buckets && Start(g, i) > g.to
    ensures NaivePoint(rows, g, i) == Blank(g, i)
  {
    if i == g.buckets - 1 { assert Start(g, i) + g.width == g.from + g.buckets * g.width; }
    FilterNone(rows, (r: CheckRow) => Belongs(g, i, r.ts));
  }

  lemma {:induction false} FilterNone(rows: seq<CheckRow>, p: CheckRow -> bool)
    requires forall r | r in rows :: !p(r)
    ensures Filter(rows, p) == []
  {
    if rows != [] {
      assert forall r | r in rows[..|rows| - 1] :: r in rows;
      assert rows[|rows| - 1] in rows;
      FilterNone(rows[..|rows| - 1], p);
    }
  }

  lemma {:induction false} FilterFewer(rows: seq<CheckRow>, p: CheckRow -> bool, q: CheckRow -> bool)
    requires forall r | r in rows :: p(r) ==> q(r)
    ensures |Filter(rows, p)| <= |Filter(rows, q)|
    ensures |Filter(rows, p)| == |Filter(rows, q)| <==> forall r | r in rows :: p(r) == q(r)
  {
    if rows != [] {
      var before, last := rows[..|rows| - 1], rows[|rows| - 1];
      assert last in rows && forall r | r in before :: r in rows;
      assert forall r | r in rows :: r in before || r == last;
      FilterFewer(before, p, q);
    }
  }

  /** Rows a statistics window counts. */
  predicate InWindow(rows: seq<CheckRow>, since: int, r: CheckRow) { r in rows && since <= r.ts }

  /** A window that starts no later than now: the chart totals equal `Uptime` exactly when no row of the window is later than now. */
  lemma {:induction false} TotalsMatchUptime(rows: seq<CheckRow>, since: int, buckets: int, now: int)
    requires since > 0 || rows != []
    requires since <= now && (since <= 0 ==> forall r | r in rows :: since <= r.ts)
    ensures var g, u := GridOf(rows, since, buckets, now), UptimeSince(rows, since);
      && (SumChecks(rows, g, g.buckets) == u.checks <==> forall r | InWindow(rows, since, r) :: r.ts <= now)
      && ((forall r | InWindow(rows, since, r) :: r.ts <= now) ==>
            SumSuccessful(rows, g, g.buckets) == u.successful && Percent(SumSuccessful(rows, g, g.buckets), SumChecks(rows, g, g.buckets)) == u.percent)
  {
    var g := GridOf(rows, since, buckets, now);
    ChecksConserved(rows, g);
    var p, q := (r: CheckRow) => Selected(g, r.ts), (r: CheckRow) => r.ts >= since;
    assert forall r | r in rows :: From(rows, since, now) <= r.ts <= now <==> since <= r.ts <= now;
    FilterFewer(rows, p, q);
    assert (forall r | r in rows :: p(r) == q(r)) <==> forall r | InWindow(rows, since, r) :: r.ts <= now;
    if forall r | InWindow(rows, since, r) :: r.ts <= now { FilterSame(rows, p, q); }
  }

  /**
   * A window said to start after now is charted from now: the chart counts the rows at now itself, `Uptime` those from
   * `since` on. With no row later than now the totals are equal exactly when no row is at now.
   */
  lemma {:induction false} FutureWindow(rows: seq<CheckRow>, since: int, buckets: int, now: int)
    requires since > 0 && since > now
    ensures var g, u := GridOf(rows, since, buckets, now), UptimeSince(rows, since);
      && g.from == g.to == now
      && SumChecks(rows, g, g.buckets) == |Filter(rows, (r: CheckRow) => r.ts == now)|
      && ((forall r | r in rows :: r.ts <= now) ==>
            u.checks == 0 && (SumChecks(rows, g, g.buckets) == u.checks <==> forall r | r in rows :: r.ts != now))
  {
    var g := GridOf(rows, since, buckets, now);
    ChecksConserved(rows, g);
    var p, q, none := (r: CheckRow) => Selected(g, r.ts), (r: CheckRow) => r.ts == now, (r: CheckRow) => r.ts >= since;
    FilterSame(rows, p, q);
    if forall r | r in rows :: r.ts <= now {
      FilterNone(rows, none);
      FilterFewer(rows, none, q);
      assert (forall r | r in rows :: none(r) == q(r)) <==> forall r | r in rows :: r.ts != now;
    }
  }
}
