/** Worked examples of the statistics and of the upload checks, each proved
    for the concrete input. */
module Scenarios {
  import opened Lists
  import opened Cells
  import opened Sorting
  import opened Numeric
  import opened Text
  import opened Analyzer
  import opened Upload
  import opened Category

  /** Rows whose cells under `header` are all present collect to exactly
      those cells. */
  lemma {:induction false} CollectAllPresent(rows: seq<Row>, header: string, values: seq<Cell>)
    requires |rows| == |values|
    requires forall i :: 0 <= i < |rows| ==> CellAt(rows[i], header) == values[i] && !IsMissing(values[i])
    ensures Collect(rows, header) == values
  {
    if rows != [] {
      var n := |rows| - 1;
      CollectAllPresent(rows[..n], header, values[..n]);
      CollectRowByRow(rows[..n], rows[n], header);
      assert rows[..n] + [rows[n]] == rows;
      assert values[..n] + [values[n]] == values;
    }
  }

  function AgeRows(): seq<Row> {
    [map["age" := Num(10.0)], map["age" := Num(20.0)], map["age" := Str("N/A")],
     map["age" := Num(30.0)], map["age" := Null]]
  }

  lemma AgeValues()
    ensures Collect(AgeRows(), "age") == [Num(10.0), Num(20.0), Str("N/A"), Num(30.0)]
  {
    var rows := AgeRows();
    CollectAllPresent(rows[..4], "age", [Num(10.0), Num(20.0), Str("N/A"), Num(30.0)]);
    CollectRowByRow(rows[..4], rows[4], "age");
    assert rows[..4] + [rows[4]] == rows;
  }

  lemma AgeNumbers()
    ensures NumericValues([Num(10.0), Num(20.0), Str("N/A"), Num(30.0)]) == [10.0, 20.0, 30.0]
  {
    var v1, v2, v3, v4 := [Num(10.0)], [Num(10.0), Num(20.0)], [Num(10.0), Num(20.0), Str("N/A")],
      [Num(10.0), Num(20.0), Str("N/A"), Num(30.0)];
    FilterMapSingle(Num(10.0), AsNumber);
    FilterMapAppend(v1, [Num(20.0)], AsNumber);
    FilterMapSingle(Num(20.0), AsNumber);
    FilterMapAppend(v2, [Str("N/A")], AsNumber);
    FilterMapSingle(Str("N/A"), AsNumber);
    FilterMapAppend(v3, [Num(30.0)], AsNumber);
    FilterMapSingle(Num(30.0), AsNumber);
    assert v1 + [Num(20.0)] == v2;
    assert v2 + [Str("N/A")] == v3;
    assert v3 + [Num(30.0)] == v4;
    assert NumericValues(v1) == [10.0];
    assert NumericValues(v2) == [10.0, 20.0];
    assert NumericValues(v3) == [10.0, 20.0];
  }

  lemma AgeSums()
    ensures Mean([10.0, 20.0, 30.0]) == 20.0
    ensures Variance([10.0, 20.0, 30.0]) == 200.0 / 3.0
  {
    var nums := [10.0, 20.0, 30.0];
    assert nums[1..] == [20.0, 30.0] && nums[1..][1..] == [30.0] && nums[1..][1..][1..] == [];
    assert Sum(nums) == 60.0;
    assert Square(-10.0) == 100.0 && Square(0.0) == 0.0 && Square(10.0) == 100.0;
    assert SquaredDeviationFrom(20.0)(30.0) == 100.0;
    assert SquaredDeviationFrom(20.0)(20.0) == 0.0;
    assert SquaredDeviationFrom(20.0)(10.0) == 100.0;
    assert SumSquaredDeviations(nums, 20.0) == 200.0;
  }

  /** The numeric summary, read off the column's numbers. */
  lemma SummaryOfNumbers(values: seq<Cell>, nums: seq<real>, sorted: seq<real>)
    requires NumericValues(values) == nums && |nums| > 0 && SortSeq(nums) == sorted
    ensures Summarize(values) ==
      NumericStats(|nums|, Mean(nums), Median(sorted), Min(nums), Max(nums), Variance(nums))
  {
  }

  /** A mixed column is numeric; the string and the null are dropped, so
      the count is 3, the mean and median 20, the extremes 10 and 30, and
      the variance 200/3 (standard deviation about 8.16). */
  lemma AgeColumn()
    ensures Summarize(Collect(AgeRows(), "age")) == NumericStats(3, 20.0, 20.0, 10.0, 30.0, 200.0 / 3.0)
  {
    AgeValues();
    AgeSummary(Collect(AgeRows(), "age"));
  }

  lemma AgeSummary(values: seq<Cell>)
    requires values == [Num(10.0), Num(20.0), Str("N/A"), Num(30.0)]
    ensures Summarize(values) == NumericStats(3, 20.0, 20.0, 10.0, 30.0, 200.0 / 3.0)
  {
    AgeNumbers();
    AgeSums();
    AgeSorted();
    AgeMin();
    AgeMax();
    SummaryOfNumbers(values, [10.0, 20.0, 30.0], [10.0, 20.0, 30.0]);
  }

  lemma AgeSorted()
    ensures SortSeq([10.0, 20.0, 30.0]) == [10.0, 20.0, 30.0]
  {
    var nums := [10.0, 20.0, 30.0];
    assert Sorted(nums);
    SortSeqCharacterised(nums, nums);
  }

  lemma AgeMin()
    ensures Min([10.0, 20.0, 30.0]) == 10.0
  {
    var nums := [10.0, 20.0, 30.0];
    assert Min(nums) <= nums[0];
  }

  lemma AgeMax()
    ensures Max([10.0, 20.0, 30.0]) == 30.0
  {
    var nums := [10.0, 20.0, 30.0];
    assert Max(nums) >= nums[2];
  }

  function CityRows(): seq<Row> {
    [map["city" := Str("NYC")], map["city" := Str("LA")], map["city" := Str("NYC")],
     map["city" := Str("SF")], map["city" := Str("LA")], map["city" := Str("NYC")]]
  }

  lemma CityDistinctPrefix()
    ensures Distinct([Str("NYC"), Str("LA"), Str("NYC")]) == [Str("NYC"), Str("LA")]
  {
    var nyc, la := Str("NYC"), Str("LA");
    assert [] + [nyc] == [nyc] && [nyc] + [la] == [nyc, la] && [nyc, la] + [nyc] == [nyc, la, nyc];
    assert nyc !in [] && la !in [nyc] && nyc in [nyc, la];
    DistinctStep([], nyc);
    DistinctStep([nyc], la);
    DistinctStep([nyc, la], nyc);
  }

  lemma CityDistinctMiddle()
    ensures Distinct([Str("NYC"), Str("LA"), Str("NYC"), Str("SF")]) == [Str("NYC"), Str("LA"), Str("SF")]
  {
    var nyc, la, sf := Str("NYC"), Str("LA"), Str("SF");
    CityDistinctPrefix();
    assert [nyc, la, nyc] + [sf] == [nyc, la, nyc, sf];
    assert sf !in [nyc, la, nyc] by {
      assert sf != nyc && sf != la;
    }
    DistinctStep([nyc, la, nyc], sf);
  }

  lemma CityDistinct()
    ensures Distinct([Str("NYC"), Str("LA"), Str("NYC"), Str("SF"), Str("LA"), Str("NYC")]) ==
      [Str("NYC"), Str("LA"), Str("SF")]
  {
    var nyc, la, sf := Str("NYC"), Str("LA"), Str("SF");
    var s4, s5 := [nyc, la, nyc, sf], [nyc, la, nyc, sf, la];
    CityDistinctMiddle();
    assert s4 + [la] == s5 && s5 + [nyc] == [nyc, la, nyc, sf, la, nyc];
    assert la in s4 && nyc in s5;
    DistinctStep(s4, la);
    DistinctStep(s5, nyc);
  }

  /** A column of strings is text: six values, three distinct, sampled in
      order of first appearance. */
  lemma CityColumn()
    ensures Summarize(Collect(CityRows(), "city")) == TextStats(6, 3, [Str("NYC"), Str("LA"), Str("SF")])
  {
    var values := [Str("NYC"), Str("LA"), Str("NYC"), Str("SF"), Str("LA"), Str("NYC")];
    CollectAllPresent(CityRows(), "city", values);
    CityDistinct();
    SummaryOfText(values);
  }

  /** The text summary of a column without numbers. */
  lemma SummaryOfText(values: seq<Cell>)
    requires forall i :: 0 <= i < |values| ==> !IsValidNumber(values[i])
    ensures Summarize(values) == TextStats(|values|, |Distinct(values)|, Sample(values))
  {
    ClassifiedNumericIff(values);
  }

  /** The set deduplicates raw values: the boolean `true` and the string
      "true" are two distinct values of a text column. */
  lemma BooleansAreNotStrings(values: seq<Cell>)
    requires values == [Bool(true), Str("true"), Bool(true)]
    ensures Summarize(values) == TextStats(3, 2, [Bool(true), Str("true")])
  {
    BooleanDistinct(values);
    SummaryOfText(values);
  }

  lemma BooleanDistinct(values: seq<Cell>)
    requires values == [Bool(true), Str("true"), Bool(true)]
    ensures Distinct(values) == [Bool(true), Str("true")]
  {
    var t, u := Bool(true), Str("true");
    assert [] + [t] == [t] && [t] + [u] == [t, u] && [t, u] + [t] == [t, u, t];
    DistinctStep([], t);
    DistinctStep([t], u);
    DistinctStep([t, u], t);
  }

  /** The pie chart keys a cell by its text, so the boolean `true` and the
      string "true" are counted under one key, while the text summary of
      the same column keeps them apart as two distinct values. */
  lemma TrueMergedUnderOneKey(rows: seq<Row>)
    requires rows == [map["flag" := Bool(true)], map["flag" := Str("true")]]
    ensures Tally(rows, "flag", "true") == 2
    ensures Summarize(Collect(rows, "flag")) == TextStats(2, 2, [Bool(true), Str("true")])
  {
    TrueTally(rows);
    TrueSummary(rows);
  }

  lemma TrueTally(rows: seq<Row>)
    requires rows == [map["flag" := Bool(true)], map["flag" := Str("true")]]
    ensures Tally(rows, "flag", "true") == 2
  {
    assert CountsToward(rows[0], "flag", "true") && CountsToward(rows[1], "flag", "true");
    assert rows[..1] == [rows[0]] && rows[..1][..0] == [];
  }

  lemma TrueSummary(rows: seq<Row>)
    requires rows == [map["flag" := Bool(true)], map["flag" := Str("true")]]
    ensures Summarize(Collect(rows, "flag")) == TextStats(2, 2, [Bool(true), Str("true")])
  {
    CollectAllPresent(rows, "flag", [Bool(true), Str("true")]);
    TrueValuesSummary(Collect(rows, "flag"));
  }

  lemma TrueValuesSummary(values: seq<Cell>)
    requires values == [Bool(true), Str("true")]
    ensures Summarize(values) == TextStats(2, 2, [Bool(true), Str("true")])
  {
    var t, u := Bool(true), Str("true");
    assert [] + [t] == [t] && [t] + [u] == values;
    DistinctStep([], t);
    DistinctStep([t], u);
    SummaryOfText(values);
  }

  /** A file of exactly 10 MiB is accepted; the extension check is
      case-sensitive. */
  lemma FileChecks()
    ensures CheckFile(FileInfo("data.csv", MaxFileSize)) == None
    ensures CheckFile(FileInfo("data.csv", MaxFileSize + 1)) == Some(TooLarge)
    ensures CheckFile(FileInfo("data.CSV", 10)) == Some(NotCsv)
  {
    assert "data.csv"[4..] == ".csv";
    assert "data.CSV"[4..] != ".csv" by {
      assert "data.CSV"[5] != ".csv"[1];
    }
  }
}
