/** `calculateStats` (App.js lines 13-49): for every header, collect the
    column's present values, classify the column as numeric or text, and
    record the matching summary. */
module Analyzer {
  import opened Lists
  import opened Cells
  import opened Sorting
  import opened Numeric
  import opened Text

  /** One entry of the statistics object. The numeric variant reports the
      population variance; the displayed standard deviation is its square
      root. */
  datatype ColumnStats =
    | NumericStats(count: nat, mean: real, median: real, min: real, max: real, variance: real)
    | TextStats(count: nat, unique: nat, values: seq<Cell>)

  /** `row[header]`, unless it is null, undefined or the empty string. */
  function PresentCell(header: string): Row -> Option<Cell> {
    row => var c := CellAt(row, header); if IsMissing(c) then None else Some(c)
  }

  /** The cells of every row under the header, in row order, without null,
      undefined and the empty string. */
  function Collect(rows: seq<Row>, header: string): (r: seq<Cell>)
    ensures |r| <= |rows|
  {
    FilterMap(rows, PresentCell(header))
  }

  function AsNumber(c: Cell): Option<real> {
    if IsValidNumber(c) then Some(c.x) else None
  }

  /** The collected cells that are numbers other than NaN, in order. */
  function NumericValues(values: seq<Cell>): (r: seq<real>)
    ensures |r| <= |values|
  {
    FilterMap(values, AsNumber)
  }

  /** The summary of one column's collected values: numeric as soon as one
      value is a valid number, text otherwise. */
  function Summarize(values: seq<Cell>): (r: ColumnStats)
    ensures r.NumericStats? ==> 0 < r.count <= |values|
    ensures r.TextStats? ==> r.unique <= r.count == |values| && |r.values| <= SampleSize
  {
    var nums := NumericValues(values);
    if |nums| > 0 then
      NumericStats(|nums|, Mean(nums), Median(SortSeq(nums)), Min(nums), Max(nums), Variance(nums))
    else
      TextStats(|values|, |Distinct(values)|, Sample(values))
  }

  // ---------------------------------------------------------------------
  // Collecting a column

  /** A cell is collected exactly when some row holds it under the header
      and it is not missing. */
  lemma CollectMembership(rows: seq<Row>, header: string, c: Cell)
    ensures c in Collect(rows, header) <==>
      !IsMissing(c) && exists i :: 0 <= i < |rows| && CellAt(rows[i], header) == c
  {
    FilterMapMembership(rows, PresentCell(header), c);
  }

  /** Collection keeps row order: the cells of a table followed by one more
      row are those of the table followed by that row's cell, if present. */
  lemma CollectRowByRow(rows: seq<Row>, row: Row, header: string)
    ensures Collect(rows + [row], header) ==
      Collect(rows, header) + if IsMissing(CellAt(row, header)) then [] else [CellAt(row, header)]
  {
    FilterMapAppend(rows, [row], PresentCell(header));
    FilterMapSingle(row, PresentCell(header));
  }

  function PresentRows(rows: seq<Row>, header: string): set<nat> {
    set i: nat | i < |rows| && !IsMissing(CellAt(rows[i], header))
  }

  /** The text `count` is the number of rows whose cell is present. */
  lemma CollectLength(rows: seq<Row>, header: string)
    ensures |Collect(rows, header)| == |PresentRows(rows, header)|
  {
    FilterMapLength(rows, PresentCell(header));
    assert KeptPositions(rows, PresentCell(header)) == PresentRows(rows, header);
  }

  // ---------------------------------------------------------------------
  // Classification

  function NumberPositions(values: seq<Cell>): set<nat> {
    set i: nat | i < |values| && IsValidNumber(values[i])
  }

  /** A column is numeric exactly when one of its collected values is a
      valid number; its `count` is then the number of such values only. */
  lemma ClassifiedNumericIff(values: seq<Cell>)
    ensures Summarize(values).NumericStats? <==>
      exists i :: 0 <= i < |values| && IsValidNumber(values[i])
    ensures Summarize(values).NumericStats? ==>
      Summarize(values).count == |NumberPositions(values)|
  {
    FilterMapLength(values, AsNumber);
    assert KeptPositions(values, AsNumber) == NumberPositions(values);
    if exists i :: 0 <= i < |values| && IsValidNumber(values[i]) {
      var i :| 0 <= i < |values| && IsValidNumber(values[i]);
      FilterMapMembership(values, AsNumber, values[i].x);
    }
  }

  /** The numeric values are the numbers among the collected cells. */
  lemma NumericValuesMembership(values: seq<Cell>, v: real)
    ensures v in NumericValues(values) <==> Num(v) in values
  {
    FilterMapMembership(values, AsNumber, v);
    if Num(v) in values {
      var i :| 0 <= i < |values| && values[i] == Num(v);
      assert AsNumber(values[i]) == Some(v);
    }
  }

  // ---------------------------------------------------------------------
  // Properties of the two summaries

  /** A numeric summary: a positive count, min and max are numbers of the
      column bounding all of them, min <= median <= max, min <= mean <= max,
      and the variance is non-negative and zero exactly when all numbers
      are equal. */
  lemma NumericSummaryProperties(values: seq<Cell>)
    requires Summarize(values).NumericStats?
    ensures var s := Summarize(values);
      && s.count > 0
      && Num(s.min) in values && Num(s.max) in values
      && (forall i :: 0 <= i < |values| && IsValidNumber(values[i]) ==>
            s.min <= values[i].x <= s.max)
      && s.min <= s.median <= s.max
      && s.min <= s.mean <= s.max
      && s.variance >= 0.0
      && (s.variance == 0.0 <==> AllEqual(NumericValues(values)))
  {
    var nums := NumericValues(values);
    MedianBounds(nums);
    MeanBounds(nums);
    VarianceNonNegative(nums);
    VarianceZeroIffAllEqual(nums);
    NumericValuesMembership(values, Min(nums));
    NumericValuesMembership(values, Max(nums));
    forall i | 0 <= i < |values| && IsValidNumber(values[i])
      ensures Min(nums) <= values[i].x <= Max(nums)
    {
      NumericValuesMembership(values, values[i].x);
    }
  }

  /** A text summary: no value is a number, `count` is the number of
      collected values, `unique` the number of distinct ones (so at most
      `count`), and the sample holds the first min(5, unique) distinct
      values without repetition. */
  lemma TextSummaryProperties(values: seq<Cell>)
    requires Summarize(values).TextStats?
    ensures var s := Summarize(values);
      && (forall i :: 0 <= i < |values| ==> !IsValidNumber(values[i]))
      && s.count == |values|
      && s.unique == |Elements(values)| <= s.count
      && |s.values| == (if s.unique < SampleSize then s.unique else SampleSize)
      && NoDuplicates(s.values)
      && s.values <= Distinct(values)
  {
    ClassifiedNumericIff(values);
    UniqueCount(values);
  }

  /** A column with no present value summarises as text with nothing in it. */
  lemma EmptyColumn(rows: seq<Row>, header: string)
    requires forall i :: 0 <= i < |rows| ==> IsMissing(CellAt(rows[i], header))
    ensures Summarize(Collect(rows, header)) == TextStats(0, 0, [])
  {
    var values := Collect(rows, header);
    if values != [] {
      CollectMembership(rows, header, values[0]);
    }
    assert Distinct(values) == [];
  }

  /** A single number v: count 1, mean = median = min = max = v, variance 0. */
  lemma SingleNumber(v: real)
    ensures Summarize([Num(v)]) == NumericStats(1, v, v, v, v, 0.0)
  {
    FilterMapSingle(Num(v), AsNumber);
    assert NumericValues([Num(v)]) == [v];
    SingleValue(v);
  }

  /** Rearranged values have the same distinct values. */
  lemma ElementsOfPermutation(a: seq<Cell>, b: seq<Cell>)
    requires multiset(a) == multiset(b)
    ensures Elements(a) == Elements(b)
  {
    forall c ensures c in a <==> c in b {
      assert c in a <==> c in multiset(a);
      assert c in b <==> c in multiset(b);
    }
  }

  /** Rearranging a column's values changes neither the classification nor
      any statistic except the order of the text sample. */
  lemma SummaryIgnoresOrder(a: seq<Cell>, b: seq<Cell>)
    requires multiset(a) == multiset(b)
    ensures var s, t := Summarize(a), Summarize(b);
      && s.NumericStats? == t.NumericStats?
      && (s.NumericStats? ==> s == t)
      && (s.TextStats? ==> s.count == t.count && s.unique == t.unique)
  {
    FilterMapPermutation(a, b, AsNumber);
    var na, nb := NumericValues(a), NumericValues(b);
    assert |na| == |multiset(na)| == |multiset(nb)| == |nb|;
    if |na| > 0 {
      StatisticsIgnoreOrder(na, nb);
    } else {
      assert |a| == |multiset(a)| == |multiset(b)| == |b|;
      ElementsOfPermutation(a, b);
      UniqueCount(a);
      UniqueCount(b);
    }
  }

  /** Shuffling the rows changes neither the classification nor any
      statistic except the order of the text sample. */
  lemma RowOrderIrrelevant(rows: seq<Row>, shuffled: seq<Row>, header: string)
    requires multiset(rows) == multiset(shuffled)
    ensures var s, t := Summarize(Collect(rows, header)), Summarize(Collect(shuffled, header));
      && s.NumericStats? == t.NumericStats?
      && (s.NumericStats? ==> s == t)
      && (s.TextStats? ==> s.count == t.count && s.unique == t.unique)
  {
    FilterMapPermutation(rows, shuffled, PresentCell(header));
    SummaryIgnoresOrder(Collect(rows, header), Collect(shuffled, header));
  }

  // ---------------------------------------------------------------------
  // The imperative computation

  /** One column of `calculateStats`: the numeric values are copied into an
      array and sorted in place before the middle is selected. */
  method SummarizeColumn(rows: seq<Row>, header: string) returns (stats: ColumnStats)
    ensures stats == Summarize(Collect(rows, header))
  {
    var values := Collect(rows, header);
    var nums := NumericValues(values);
    if |nums| > 0 {
      var sorted := new real[|nums|](i requires 0 <= i < |nums| => nums[i]);
      assert sorted[..] == nums;
      SortInPlace(sorted);
      stats := NumericStats(|nums|, Mean(nums), Median(sorted[..]), Min(nums), Max(nums), Variance(nums));
    } else {
      var uniqueValues := Distinct(values);
      stats := TextStats(|values|, |uniqueValues|, Sample(values));
    }
  }

  /** `calculateStats`: every header gets exactly one entry, holding the
      summary of that header's column, and no other key is added. */
  method CalculateStats(rows: seq<Row>, headers: seq<string>) returns (statistics: map<string, ColumnStats>)
    ensures statistics.Keys == Elements(headers)
    ensures forall h :: h in statistics ==> statistics[h] == Summarize(Collect(rows, h))
  {
    statistics := map[];
    for k := 0 to |headers|
      invariant statistics.Keys == Elements(headers[..k])
      invariant forall h :: h in statistics ==> statistics[h] == Summarize(Collect(rows, h))
    {
      var stats := SummarizeColumn(rows, headers[k]);
      ElementsOfLongerPrefix(headers, k);
      statistics := statistics[headers[k] := stats];
    }
    assert headers[..|headers|] == headers;
  }
}
