/**
  The figures the dashboard derives from the cleaned table: the three
  headline numbers (`total_companies_invested`, `total_investments`,
  `total_fundings`), the data behind the market pie chart, the status and
  rounds histograms, the funding line chart and the debt scatter plot.
  Amounts are exact integers: the `round` of the totals and the scaling to
  billions are not part of this model.
 */
module Metrics {
  import opened Sequences
  import opened PyText
  import opened Cells
  import opened Frames
  import Pipeline

  const Name := "name"
  const Status := "status"
  const DebtFinancing := "debt_financing"
  const RoundColumns := ["round_A", "round_B", "round_C", "round_D", "round_E", "round_F", "round_G", "round_H"]

  /** The scatter plot shows amounts below 30 billion dollars. */
  const ScatterCap := 30 * 1_000_000_000

  /** A column of integers. `sum` and the comparisons of the source need
      numbers: a string among them makes pandas raise `TypeError`. */
  predicate IntColumn(t: Frame, col: string) {
    WellFormed(t) && col in t.columns && forall i :: 0 <= i < |t.rows| ==> t.rows[i][col].IntVal?
  }

  predicate IntColumns(t: Frame, cols: seq<string>) {
    forall j :: 0 <= j < |cols| ==> IntColumn(t, cols[j])
  }

  /** The integers of a numeric column, top to bottom. */
  function Amounts(t: Frame, col: string): (a: seq<int>)
    requires IntColumn(t, col)
    ensures |a| == |t.rows|
    ensures forall i :: 0 <= i < |t.rows| ==> a[i] == t.rows[i][col].i
  {
    seq(|t.rows|, i requires 0 <= i < |t.rows| => t.rows[i][col].i)
  }

  /** `data[col].sum()`. */
  function ColumnSum(t: Frame, col: string): (total: int)
    requires IntColumn(t, col)
    ensures t.rows == [] ==> total == 0
    ensures (forall i :: 0 <= i < |t.rows| ==> t.rows[i][col].i >= 0) ==> total >= 0
  {
    SumNonNegative(Amounts(t, col));
    Sum(Amounts(t, col))
  }

  // ---------------------------------------------------------------------
  // Totals and the rounds histogram
  // ---------------------------------------------------------------------

  /** `data[select].sum()` as (column, sum) pairs: the data of
      `rounds_histogram`. */
  function RoundsHistogram(t: Frame, select: seq<string>): (bars: seq<(string, int)>)
    requires IntColumns(t, select)
    ensures |bars| == |select|
    ensures forall j :: 0 <= j < |select| ==> bars[j].0 == select[j] && bars[j].1 == Sum(Amounts(t, select[j]))
  {
    seq(|select|, j requires 0 <= j < |select| => (select[j], ColumnSum(t, select[j])))
  }

  /** The heights of a chart's bars or points, left to right. */
  function BarValues(bars: seq<(string, int)>): (vs: seq<int>)
    ensures |vs| == |bars|
    ensures forall j :: 0 <= j < |bars| ==> vs[j] == bars[j].1
  {
    seq(|bars|, j requires 0 <= j < |bars| => bars[j].1)
  }

  /** `total_investments`: every round column summed, then the column sums
      summed. That is the sum, over the companies, of what each raised in
      the eight rounds. */
  function TotalInvestments(t: Frame): (total: int)
    requires IntColumns(t, RoundColumns)
    ensures total == Sum(RowSums(t, RoundColumns))
  {
    ColumnSumsByRows(t, RoundColumns);
    Sum(seq(|RoundColumns|, j requires 0 <= j < |RoundColumns| => ColumnSum(t, RoundColumns[j])))
  }

  /** The sum of the cells of row `r` under the columns `cols`. */
  function RowSum(r: Row, cols: seq<string>): int
    requires forall j :: 0 <= j < |cols| ==> cols[j] in r && r[cols[j]].IntVal?
  {
    Sum(seq(|cols|, j requires 0 <= j < |cols| => r[cols[j]].i))
  }

  /** The per-row totals of the columns `cols`. */
  function RowSums(t: Frame, cols: seq<string>): (s: seq<int>)
    requires IntColumns(t, cols)
    ensures |s| == |t.rows|
  {
    seq(|t.rows|, i requires 0 <= i < |t.rows| => RowSum(t.rows[i], cols))
  }

  /** Summing the column sums adds up the same cells as summing the row
      sums. */
  lemma {:induction false} ColumnSumsByRows(t: Frame, cols: seq<string>)
    requires IntColumns(t, cols)
    ensures Sum(seq(|cols|, j requires 0 <= j < |cols| => ColumnSum(t, cols[j]))) == Sum(RowSums(t, cols))
  {
    if cols == [] {
      SumZeros(RowSums(t, cols));
    } else {
      var n := |cols| - 1;
      var front := cols[..n];
      ColumnSumsByRows(t, front);
      var sums := seq(|cols|, j requires 0 <= j < |cols| => ColumnSum(t, cols[j]));
      assert sums[..n] == seq(|front|, j requires 0 <= j < |front| => ColumnSum(t, front[j]));
      forall i | 0 <= i < |t.rows|
        ensures RowSums(t, cols)[i] == RowSums(t, front)[i] + Amounts(t, cols[n])[i]
      {
        RowSumSplit(t.rows[i], cols);
      }
      SumAdd(RowSums(t, front), Amounts(t, cols[n]), RowSums(t, cols));
    }
  }

  /** A row sum is the sum over all but the last column plus the last cell. */
  lemma RowSumSplit(r: Row, cols: seq<string>)
    requires cols != []
    requires forall j :: 0 <= j < |cols| ==> cols[j] in r && r[cols[j]].IntVal?
    ensures RowSum(r, cols) == RowSum(r, cols[..|cols| - 1]) + r[cols[|cols| - 1]].i
  {
    var n := |cols| - 1;
    var cells := seq(|cols|, j requires 0 <= j < |cols| => r[cols[j]].i);
    assert cells[..n] == seq(n, j requires 0 <= j < n => r[cols[..n][j]].i);
  }

  /** With all eight rounds selected, the bars of the rounds histogram add up
      to `total_investments`. */
  lemma RoundsHistogramTotal(t: Frame)
    requires IntColumns(t, RoundColumns)
    ensures Sum(BarValues(RoundsHistogram(t, RoundColumns))) == TotalInvestments(t)
  {
    assert BarValues(RoundsHistogram(t, RoundColumns))
        == seq(|RoundColumns|, j requires 0 <= j < |RoundColumns| => ColumnSum(t, RoundColumns[j]));
  }

  /** `total_fundings`: the sum of the amounts. Its partner is the line
      chart, whose yearly totals add up to it. */
  function TotalFundings(t: Frame): (total: int)
    requires IntColumn(t, Pipeline.FundingTotal)
    ensures t.rows == [] ==> total == 0
    ensures (forall i :: 0 <= i < |t.rows| ==> t.rows[i][Pipeline.FundingTotal].i >= 0) ==> total >= 0
  {
    ColumnSum(t, Pipeline.FundingTotal)
  }

  // ---------------------------------------------------------------------
  // Distinct values
  // ---------------------------------------------------------------------

  /** `nunique`: the number of distinct values, NaN not counted. */
  function NUnique(cells: seq<Cell>): (n: nat)
    ensures n <= |cells|
  {
    CardElements(cells);
    |Elements(cells) - {Missing}|
  }

  /** `total_companies_invested`: the number of distinct company names. */
  function TotalCompaniesInvested(t: Frame): (n: nat)
    requires WellFormed(t) && Name in t.columns
    ensures n <= |t.rows|
  {
    NUnique(Column(t, Name))
  }

  /** With no name missing, every row is a different company exactly when
      no name repeats. */
  lemma CompaniesAllDistinct(t: Frame)
    requires WellFormed(t) && Name in t.columns
    requires forall i :: 0 <= i < |t.rows| ==> t.rows[i][Name] != Missing
    ensures TotalCompaniesInvested(t) == |t.rows| <==> NoDuplicates(Column(t, Name))
  {
    var names := Column(t, Name);
    CardElements(names);
    assert Missing !in Elements(names);
    assert Elements(names) - {Missing} == Elements(names);
  }

  /** How often `x` occurs in `s`. */
  function Count(s: seq<Cell>, x: Cell): nat {
    multiset(s)[x]
  }

  /** The distinct non-missing values of `s`, in order of first occurrence. */
  function Values(s: seq<Cell>): (vs: seq<Cell>)
    ensures NoDuplicates(vs)
    ensures forall x :: x in vs <==> x in s && x != Missing
    ensures |vs| == NUnique(s)
  {
    DistinctProperties(s);
    var d := Distinct(s);
    var keep := seq(|d|, i requires 0 <= i < |d| => d[i] != Missing);
    PickNoDuplicates(d, keep);
    forall x
      ensures x in Pick(d, keep) <==> x in s && x != Missing
    {
      PickMember(d, keep, x);
    }
    var vs := Pick(d, keep);
    CardElements(vs);
    assert Elements(vs) == Elements(s) - {Missing};
    vs
  }

  // ---------------------------------------------------------------------
  // The market pie chart: value_counts()[:slider]
  // ---------------------------------------------------------------------

  /** Counts in non-increasing order. */
  predicate ByCount(ps: seq<(Cell, nat)>) {
    forall i, j :: 0 <= i < j < |ps| ==> ps[i].1 >= ps[j].1
  }

  /** `p` placed after every pair whose count is larger. */
  function InsertByCount(p: (Cell, nat), ps: seq<(Cell, nat)>): (r: seq<(Cell, nat)>)
    requires ByCount(ps)
    ensures ByCount(r)
    ensures multiset(r) == multiset(ps) + multiset{p}
  {
    if ps == [] then [p]
    else if p.1 >= ps[0].1 then [p] + ps
    else
      var rest := InsertByCount(p, ps[1..]);
      assert ps == [ps[0]] + ps[1..];
      forall j | 0 <= j < |rest|
        ensures ps[0].1 >= rest[j].1
      {
        assert rest[j] in multiset(rest);
        if rest[j] != p {
          assert rest[j] in ps[1..];
        }
      }
      [ps[0]] + rest
  }

  /** The pairs sorted by non-increasing count. Ties are not ordered by any
      rule the model promises. */
  function SortByCount(ps: seq<(Cell, nat)>): (r: seq<(Cell, nat)>)
    ensures ByCount(r)
    ensures multiset(r) == multiset(ps)
  {
    if ps == [] then []
    else
      assert ps == [ps[0]] + ps[1..];
      InsertByCount(ps[0], SortByCount(ps[1..]))
  }

  /** Each distinct non-missing value of `s` with its number of occurrences,
      in order of first occurrence. */
  function CountPairs(s: seq<Cell>): (pairs: seq<(Cell, nat)>)
    ensures |pairs| == NUnique(s)
    ensures NoDuplicates(pairs)
    ensures forall k :: 0 <= k < |pairs| ==> pairs[k].0 != Missing && pairs[k].1 == Count(s, pairs[k].0)
    ensures forall x :: x in s && x != Missing ==> exists k :: 0 <= k < |pairs| && pairs[k].0 == x
  {
    var vs := Values(s);
    var pairs := seq(|vs|, i requires 0 <= i < |vs| => (vs[i], Count(s, vs[i])));
    forall x | x in s && x != Missing
      ensures exists k :: 0 <= k < |pairs| && pairs[k].0 == x
    {
      var i :| 0 <= i < |vs| && vs[i] == x;
      assert pairs[i].0 == x;
    }
    pairs
  }

  /** `value_counts`: each distinct non-missing value with its number of
      occurrences, most frequent first. */
  function ValueCounts(s: seq<Cell>): (vc: seq<(Cell, nat)>)
    ensures ByCount(vc)
    ensures |vc| == NUnique(s)
    ensures forall k :: 0 <= k < |vc| ==> vc[k].0 != Missing && vc[k].1 == Count(s, vc[k].0)
    ensures forall x :: x in s && x != Missing ==> exists k :: 0 <= k < |vc| && vc[k].0 == x
    ensures forall i, j :: 0 <= i < j < |vc| ==> vc[i].0 != vc[j].0
  {
    var pairs := CountPairs(s);
    var vc := SortByCount(pairs);
    PermutationElements(pairs, vc);
    PermutationNoDuplicates(pairs, vc);
    forall x | x in s && x != Missing
      ensures exists k :: 0 <= k < |vc| && vc[k].0 == x
    {
      var i :| 0 <= i < |pairs| && pairs[i].0 == x;
      assert pairs[i] in vc;
    }
    vc
  }

  /** `data['market'].value_counts()[:slider]`: the data of
      `expensive_markets_pie_chart`. */
  function TopMarkets(t: Frame, slider: nat): (top: seq<(Cell, nat)>)
    requires WellFormed(t) && Pipeline.Market in t.columns
    ensures |top| == if slider < NUnique(Column(t, Pipeline.Market)) then slider else NUnique(Column(t, Pipeline.Market))
    ensures ByCount(top)
    ensures forall k :: 0 <= k < |top| ==> top[k].0 != Missing && top[k].1 == Count(Column(t, Pipeline.Market), top[k].0)
    ensures forall i, j :: 0 <= i < j < |top| ==> top[i].0 != top[j].0
  {
    var vc := ValueCounts(Column(t, Pipeline.Market));
    vc[..if slider < |vc| then slider else |vc|]
  }

  /** A market left out of the pie chart is no more frequent than any
      market in it. */
  lemma TopMarketsAreTop(t: Frame, slider: nat, x: Cell)
    requires WellFormed(t) && Pipeline.Market in t.columns
    requires x in Column(t, Pipeline.Market) && x != Missing
    requires forall k :: 0 <= k < |TopMarkets(t, slider)| ==> TopMarkets(t, slider)[k].0 != x
    ensures forall k :: 0 <= k < |TopMarkets(t, slider)| ==>
              TopMarkets(t, slider)[k].1 >= Count(Column(t, Pipeline.Market), x)
  {
    var vc := ValueCounts(Column(t, Pipeline.Market));
    var top := TopMarkets(t, slider);
    assert forall k :: 0 <= k < |top| ==> top[k] == vc[k];
    var m :| 0 <= m < |vc| && vc[m].0 == x;
    assert m >= |top|;
  }

  // ---------------------------------------------------------------------
  // The status histogram and the scatter plot: row filters
  // ---------------------------------------------------------------------

  /** `data[data['status'].isin(select)]['status']`: the statuses that the
      status histogram counts. */
  function SelectedStatuses(t: Frame, select: seq<Cell>): (r: seq<Cell>)
    requires WellFormed(t) && Status in t.columns
    ensures forall v :: Count(r, v) == if v in select then Count(Column(t, Status), v) else 0
  {
    var statuses := Column(t, Status);
    var keep := seq(|statuses|, i requires 0 <= i < |statuses| => statuses[i] in select);
    forall v
      ensures multiset(Pick(statuses, keep))[v] == if v in select then multiset(statuses)[v] else 0
    {
      PickCount(statuses, keep, Elements(select), v);
    }
    Pick(statuses, keep)
  }

  /** The statuses come out in the order of their rows. */
  lemma SelectedStatusesInOrder(t: Frame, select: seq<Cell>)
    requires WellFormed(t) && Status in t.columns
    ensures exists ps: seq<nat> ::
              && |ps| == |SelectedStatuses(t, select)|
              && StrictlyIncreasing(ps)
              && forall k :: 0 <= k < |ps| ==> ps[k] < |t.rows| && SelectedStatuses(t, select)[k] == t.rows[ps[k]][Status]
  {
    var statuses := Column(t, Status);
    var keep := seq(|statuses|, i requires 0 <= i < |statuses| => statuses[i] in select);
    PickAt(statuses, keep);
    var ps := Positions(keep);
    assert forall k :: 0 <= k < |ps| ==> ps[k] < |t.rows| && SelectedStatuses(t, select)[k] == t.rows[ps[k]][Status];
  }

  /** A row the scatter plot shows: some debt financing, and an amount below
      30 billion (`funding_total_usd / 10**9 < 30` is exact for integers). */
  predicate Scattered(r: Row) {
    && DebtFinancing in r && r[DebtFinancing].IntVal?
    && Pipeline.FundingTotal in r && r[Pipeline.FundingTotal].IntVal?
    && r[DebtFinancing].i > 0 && r[Pipeline.FundingTotal].i < ScatterCap
  }

  function ScatterMask(t: Frame): (keep: seq<bool>)
    ensures |keep| == |t.rows|
    ensures forall i :: 0 <= i < |t.rows| ==> keep[i] == Scattered(t.rows[i])
  {
    seq(|t.rows|, i requires 0 <= i < |t.rows| => Scattered(t.rows[i]))
  }

  /** The rows of `debt_funding_scatter_plot`: exactly the rows with debt
      financing and an amount below the cap, in their order, with their
      index labels. */
  function DebtFundingScatter(t: Frame): (r: Frame)
    requires IntColumn(t, DebtFinancing) && IntColumn(t, Pipeline.FundingTotal)
    ensures WellFormed(r) && r.columns == t.columns
    ensures Selected(r, t, Positions(ScatterMask(t)))
    ensures forall k :: 0 <= k < |r.rows| ==> Scattered(r.rows[k])
    ensures forall i :: 0 <= i < |t.rows| && Scattered(t.rows[i]) ==> t.rows[i] in r.rows
  {
    var keep := ScatterMask(t);
    var r := Select(t, keep);
    var ps := Positions(keep);
    forall i | 0 <= i < |t.rows| && Scattered(t.rows[i])
      ensures t.rows[i] in r.rows
    {
      var k :| 0 <= k < |ps| && ps[k] == i;
      assert r.rows[k] == t.rows[i];
    }
    r
  }

  // ---------------------------------------------------------------------
  // The funding line chart
  // ---------------------------------------------------------------------

  /** Every founding year is a string, as `float_to_str` leaves it. */
  predicate YearColumn(t: Frame) {
    WellFormed(t) && Pipeline.FoundedYear in t.columns &&
    forall i :: 0 <= i < |t.rows| ==> t.rows[i][Pipeline.FoundedYear].StrVal?
  }

  function Years(t: Frame): (ys: seq<string>)
    requires YearColumn(t)
    ensures |ys| == |t.rows|
    ensures forall i :: 0 <= i < |t.rows| ==> ys[i] == t.rows[i][Pipeline.FoundedYear].s
  {
    seq(|t.rows|, i requires 0 <= i < |t.rows| => t.rows[i][Pipeline.FoundedYear].s)
  }

  /** `data[data['founded_year'] == year]['funding_total_usd'].sum()`. */
  function YearTotal(t: Frame, year: string): (total: int)
    requires YearColumn(t) && IntColumn(t, Pipeline.FundingTotal)
    ensures total == Sum(Masked(Amounts(t, Pipeline.FundingTotal), KeyMask(Years(t), year)))
  {
    var keep := KeyMask(Years(t), year);
    SumPick(Amounts(t, Pipeline.FundingTotal), keep);
    Sum(Pick(Amounts(t, Pipeline.FundingTotal), keep))
  }

  function ChartYears(chart: seq<(string, int)>): (ys: seq<string>)
    ensures |ys| == |chart|
    ensures forall j :: 0 <= j < |chart| ==> ys[j] == chart[j].0
  {
    seq(|chart|, j requires 0 <= j < |chart| => chart[j].0)
  }

  /** `funding_line_chart`: for every founding year, in ascending order,
      the total amount of the companies founded that year. There is one
      entry per distinct year, and the entries add up to
      `total_fundings`. */
  method FundingLineChart(t: Frame) returns (chart: seq<(string, int)>)
    requires YearColumn(t) && IntColumn(t, Pipeline.FundingTotal)
    ensures Ascending(ChartYears(chart))
    ensures forall y :: y in ChartYears(chart) <==> y in Years(t)
    ensures forall j :: 0 <= j < |chart| ==> chart[j].1 == YearTotal(t, chart[j].0)
    ensures Sum(BarValues(chart)) == TotalFundings(t)
  {
    DistinctProperties(Years(t));
    var years := Sorted(Distinct(Years(t)));
    chart := [];
    var i := 0;
    while i < |years|
      invariant 0 <= i <= |years|
      invariant |chart| == i
      invariant forall j :: 0 <= j < i ==> chart[j] == (years[j], YearTotal(t, years[j]))
    {
      chart := chart + [(years[i], YearTotal(t, years[i]))];
      i := i + 1;
    }
    assert ChartYears(chart) == years;
    assert BarValues(chart) == GroupTotals(Years(t), Amounts(t, Pipeline.FundingTotal), years);
    forall a, b | 0 <= a < b < |years|
      ensures years[a] != years[b]
    {
      LexLessIrreflexive(years[a]);
    }
    GroupTotalsSum(Years(t), Amounts(t, Pipeline.FundingTotal), years);
  }
}
