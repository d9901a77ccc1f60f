/** Report logic of the stage-age view (`ui/tabs_metrics.py`): one row per
    bundle, the table ordered by days in the current stage (most first), and
    a bar chart of the fifteen longest-waiting bundles. */
module MetricsTab {
  import opened Wrappers
  import opened Records
  import Seqs
  import Transforms

  /** The number of bars in the chart. */
  const TopCount := 15

  datatype Row = Row(
    bundleName: string,
    projectName: string,
    policyName: string,
    currentStage: string,
    currentStageAssignee: string,
    days: int)

  /** The row of one bundle at the instant `now`. */
  function MetricsRow(b: Bundle, now: Instant): (r: Row)
    ensures r.currentStageAssignee != ""
    ensures r.days < 0 <==> Transforms.LastUpdated(b).None? || Transforms.LastUpdated(b).value > now
  {
    Transforms.DaysInCurrentStageSpec(b, now);
    Row(OrEmpty(b.name), OrEmpty(b.projectName), OrEmpty(b.policyName), OrEmpty(b.stage),
        Transforms.CurrentStageAssignee(b), Transforms.DaysInCurrentStage(b, now))
  }

  /** The `rows.append(...)` loop, one row per bundle in input order. */
  method Rows(bundles: seq<Bundle>, now: Instant) returns (rows: seq<Row>)
    ensures rows == AllRows(bundles, now)
  {
    rows := [];
    for i := 0 to |bundles|
      invariant rows == AllRows(bundles[..i], now)
    {
      assert bundles[..i + 1][..i] == bundles[..i];
      rows := rows + [MetricsRow(bundles[i], now)];
    }
    assert bundles[..|bundles|] == bundles;
  }

  function Days(r: Row): int { r.days }

  /** `df.sort_values("Days in Current Stage", ascending=False)`, taken as a stable sort. */
  function Table(rows: seq<Row>): (r: seq<Row>)
    ensures multiset(r) == multiset(rows)
    ensures forall i, j :: 0 <= i < j < |r| ==> r[i].days >= r[j].days
  {
    Seqs.AtLeastIsTotalPreorder();
    Seqs.Sort(rows, Days, Seqs.AtLeast)
  }

  predicate NonNegative(r: Row) { r.days >= 0 }

  /** The rows with a non-negative count, most days first (earlier rows first on ties). */
  function Ranked(rows: seq<Row>): (r: seq<Row>)
    ensures multiset(r) <= multiset(rows)
    ensures multiset(r) == multiset(Seqs.Filter(rows, NonNegative))
    ensures forall x :: x in r <==> x in rows && NonNegative(x)
    ensures forall i, j :: 0 <= i < j < |r| ==> r[i].days >= r[j].days
  {
    var kept := Seqs.Filter(rows, NonNegative);
    Seqs.AtLeastIsTotalPreorder();
    var r := Seqs.Sort(kept, Days, Seqs.AtLeast);
    Seqs.SameElements(kept, r);
    r
  }

  /** `df[df[days] >= 0].nlargest(15, days)`. */
  function Top(rows: seq<Row>): (r: seq<Row>)
    ensures |r| <= TopCount && |r| <= |Ranked(rows)| && r == Ranked(rows)[..|r|]
  {
    var ranked := Ranked(rows);
    if |ranked| <= TopCount then
      assert ranked[..|ranked|] == ranked;
      ranked
    else ranked[..TopCount]
  }

  /** The chart rows are the leading rows of the ranking. */
  lemma TopIsPrefix(rows: seq<Row>)
    ensures |Top(rows)| <= TopCount
    ensures |Top(rows)| <= |Ranked(rows)| && Top(rows) == Ranked(rows)[..|Top(rows)|]
    ensures |Top(rows)| == |Ranked(rows)| || |Top(rows)| == TopCount
  {
  }

  /** A row with a non-negative count is ranked as often as it occurs in
      the input, and a negative one never. */
  lemma RankedCount(rows: seq<Row>, x: Row)
    ensures multiset(Ranked(rows))[x] == if x.days >= 0 then multiset(rows)[x] else 0
  {
    Seqs.FilterCount(rows, NonNegative, x);
  }

  /** The chart has `min(15, n)` bars, `n` the number of input rows with a
      non-negative count, repeated rows included. */
  lemma TopBarCount(rows: seq<Row>)
    ensures var n := |Seqs.Filter(rows, NonNegative)|;
      |Top(rows)| == if n <= TopCount then n else TopCount
  {
    var ranked := Ranked(rows);
    assert |ranked| == |multiset(ranked)|;
    TopIsPrefix(rows);
  }

  /** The chart rows are drawn from the input without repeating any row more often than it occurs. */
  lemma TopSubMultiset(rows: seq<Row>)
    ensures multiset(Top(rows)) <= multiset(rows)
  {
    var ranked := Ranked(rows);
    var top := Top(rows);
    TopIsPrefix(rows);
    assert ranked == top + ranked[|top|..];
    assert multiset(ranked) == multiset(top) + multiset(ranked[|top|..]);
  }

  /** Every chart row comes from the input and has a non-negative count; the
      rows are ordered most days first. */
  lemma TopMembers(rows: seq<Row>)
    ensures forall x :: x in Top(rows) ==> x in rows && x.days >= 0
    ensures forall i, j :: 0 <= i < j < |Top(rows)| ==> Top(rows)[i].days >= Top(rows)[j].days
  {
    var ranked := Ranked(rows);
    var top := Top(rows);
    TopIsPrefix(rows);
    forall x | x in top ensures x in ranked {
      var k :| 0 <= k < |top| && top[k] == x;
      assert ranked[k] == x;
    }
  }

  /** There are no chart rows exactly when no row has a non-negative count. */
  lemma TopEmptyIff(rows: seq<Row>)
    ensures Top(rows) == [] <==> forall x :: x in rows ==> x.days < 0
  {
    var ranked := Ranked(rows);
    var top := Top(rows);
    TopIsPrefix(rows);
    if top == [] {
      assert ranked == [];
    } else {
      assert top[0] in ranked;
    }
  }

  /** No non-negative row left out of the chart has more days than a row in it. */
  lemma TopKeepsLargest(rows: seq<Row>)
    ensures forall i, j :: 0 <= i < |Top(rows)| <= j < |Ranked(rows)| ==> Ranked(rows)[j].days <= Top(rows)[i].days
  {
    TopIsPrefix(rows);
  }

  /** One bar of the chart: the bundle name and its days. */
  datatype Bar = Bar(bundleName: string, days: int)

  function BarOf(r: Row): Bar { Bar(r.bundleName, r.days) }

  /** The chart: one bar per row of `Top`, or no chart when there is none. */
  function Chart(rows: seq<Row>): (c: Option<seq<Bar>>)
    ensures c.None? <==> Top(rows) == []
    ensures c.Some? ==> |c.value| == |Top(rows)| <= TopCount
    ensures c.Some? ==> forall k :: 0 <= k < |c.value| ==> c.value[k] == BarOf(Top(rows)[k])
  {
    var top := Top(rows);
    if top == [] then None else Some(seq(|top|, k requires 0 <= k < |top| => BarOf(top[k])))
  }

  /** No chart exactly when no row is non-negative; otherwise at most fifteen
      bars, each with a non-negative count, most days first. */
  lemma ChartSpec(rows: seq<Row>)
    ensures Chart(rows).None? <==> forall x :: x in rows ==> x.days < 0
    ensures Chart(rows).Some? ==> var bars := Chart(rows).value;
      && |bars| <= TopCount
      && (forall k :: 0 <= k < |bars| ==> bars[k].days >= 0)
      && (forall i, j :: 0 <= i < j < |bars| ==> bars[i].days >= bars[j].days)
  {
    var top := Top(rows);
    TopIsPrefix(rows);
    TopMembers(rows);
    TopEmptyIff(rows);
    if top != [] {
      var bars := Chart(rows).value;
      forall k | 0 <= k < |bars| ensures bars[k].days >= 0 {
        assert top[k] in top;
      }
    }
  }

  /** The rows of all bundles, in input order. */
  function AllRows(bundles: seq<Bundle>, now: Instant): (rows: seq<Row>)
    ensures |rows| == |bundles|
  {
    if bundles == [] then [] else AllRows(bundles[..|bundles| - 1], now) + [MetricsRow(bundles[|bundles| - 1], now)]
  }

  /** Row `k` is the row of bundle `k`. */
  lemma {:induction false} AllRowsAt(bundles: seq<Bundle>, now: Instant, k: int)
    requires 0 <= k < |bundles|
    ensures AllRows(bundles, now)[k] == MetricsRow(bundles[k], now)
    decreases |bundles|
  {
    if k < |bundles| - 1 {
      AllRowsAt(bundles[..|bundles| - 1], now, k);
    }
  }

  /** Every bundle has its row, and every row belongs to a bundle. */
  lemma AllRowsMembers(bundles: seq<Bundle>, now: Instant)
    ensures forall b :: b in bundles ==> MetricsRow(b, now) in AllRows(bundles, now)
    ensures forall x :: x in AllRows(bundles, now) ==> exists b :: b in bundles && x == MetricsRow(b, now)
  {
    var rows := AllRows(bundles, now);
    forall b | b in bundles ensures MetricsRow(b, now) in rows {
      var k :| 0 <= k < |bundles| && bundles[k] == b;
      AllRowsAt(bundles, now, k);
    }
    forall x | x in rows ensures exists b :: b in bundles && x == MetricsRow(b, now) {
      var k :| 0 <= k < |rows| && rows[k] == x;
      AllRowsAt(bundles, now, k);
      assert bundles[k] in bundles;
    }
  }

  datatype View = NoBundles | Report(table: seq<Row>, chart: Option<seq<Bar>>)

  /** `render` after the bundles are fetched; `now` stands for the wall clock. */
  method Render(bundles: seq<Bundle>, now: Instant) returns (v: View)
    ensures bundles == [] <==> v == NoBundles
    ensures v.Report? ==> v.table == Table(AllRows(bundles, now)) && v.chart == Chart(AllRows(bundles, now))
  {
    var rows := Rows(bundles, now);
    if rows == [] {
      return NoBundles;
    }
    v := Report(Table(rows), Chart(rows));
  }
}
