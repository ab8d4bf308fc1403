/** The dashboard's data pipeline: year filter, the three grouped means (monthly, weather,
    holiday), their labels, and the categorised frame behind the count plot. */
module Dashboard {
  import opened Wrappers
  import opened Records
  import opened YearFilter
  import opened Categories
  import opened GroupMeans
  import opened Labels

  /** `filtered_df.groupby(['yr', 'mnth'])['cnt'].mean().reset_index()` */
  function MonthlyAvg(filtered: seq<Record>): seq<Group>
  {
    GroupBy(filtered, [Yr, Mnth])
  }

  /** The keys of a one-column aggregate are one-element tuples. */
  lemma SingleColumnKeys(rows: seq<Record>, c: Column)
    ensures forall i :: 0 <= i < |GroupBy(rows, [c])| ==> |GroupBy(rows, [c])[i].key| == 1
  {
    GroupKeysOccur(rows, [c]);
  }

  /** A one-column aggregate with its key column mapped through `m`
      (`stats = df.groupby(c)['cnt'].mean().reset_index(); stats[c] = stats[c].map(m)`). */
  function LabelledStats(filtered: seq<Record>, c: Column, m: map<int, string>): seq<LabelledGroup>
  {
    SingleColumnKeys(filtered, c);
    LabelGroups(GroupBy(filtered, [c]), m)
  }

  /** The key column of a one-column aggregate, before it is relabelled. */
  function AggregateCodes(filtered: seq<Record>, c: Column): (codes: seq<int>)
    ensures |codes| == |GroupBy(filtered, [c])|
    ensures forall i :: 0 <= i < |codes| ==> GroupBy(filtered, [c])[i].key == [codes[i]]
  {
    SingleColumnKeys(filtered, c);
    var gs := GroupBy(filtered, [c]);
    seq(|gs|, i requires 0 <= i < |gs| => gs[i].key[0])
  }

  /** `filtered_df.groupby('weathersit')['cnt'].mean()` with the key mapped to its label. */
  function WeatherStats(filtered: seq<Record>): seq<LabelledGroup>
  {
    LabelledStats(filtered, Weathersit, WeatherLabels)
  }

  /** `filtered_df.groupby('holiday')['cnt'].mean()` with the key mapped to its label. */
  function HolidayStats(filtered: seq<Record>): seq<LabelledGroup>
  {
    LabelledStats(filtered, Holiday, HolidayLabels)
  }

  /** Everything the dashboard shows for one year selection. */
  datatype View = View(
    filtered: seq<Record>,
    monthlyAvg: seq<Group>,
    weatherStats: seq<LabelledGroup>,
    holidayStats: seq<LabelledGroup>,
    rentalCategory: Categorical,
    categoryCounts: seq<nat>)

  function Compute(day: seq<Record>, years: string): View
  {
    var filtered := FilterByYear(day, years);
    var frame := CategorizeFrame(filtered);
    View(filtered, MonthlyAvg(filtered), WeatherStats(filtered), HolidayStats(filtered),
         frame, CategoryCounts(frame))
  }

  lemma MonthKey(r: Record)
    ensures KeyOf([Yr, Mnth], r) == [r.yr, r.mnth]
  {
  }

  /** Every row of the monthly aggregate is a (yr, mnth) pair that occurs in the rows. */
  lemma MonthlyAvgKeysOccur(rows: seq<Record>)
    ensures forall i :: 0 <= i < |MonthlyAvg(rows)| ==>
      exists j :: 0 <= j < |rows| && MonthlyAvg(rows)[i].key == [rows[j].yr, rows[j].mnth]
  {
    var gs := MonthlyAvg(rows);
    GroupKeysOccur(rows, [Yr, Mnth]);
    forall i | 0 <= i < |gs| ensures exists j :: 0 <= j < |rows| && gs[i].key == [rows[j].yr, rows[j].mnth] {
      var j :| 0 <= j < |rows| && gs[i].key == KeyOf([Yr, Mnth], rows[j]);
      MonthKey(rows[j]);
    }
  }

  /** Every (yr, mnth) pair that occurs in the rows has a row in the monthly aggregate. */
  lemma MonthlyAvgCoversMonths(rows: seq<Record>)
    ensures forall j :: 0 <= j < |rows| ==>
      exists i :: 0 <= i < |MonthlyAvg(rows)| && MonthlyAvg(rows)[i].key == [rows[j].yr, rows[j].mnth]
  {
    var gs := MonthlyAvg(rows);
    RowKeysGrouped(rows, [Yr, Mnth]);
    forall j | 0 <= j < |rows| ensures exists i :: 0 <= i < |gs| && gs[i].key == [rows[j].yr, rows[j].mnth] {
      var i :| 0 <= i < |gs| && gs[i].key == KeyOf([Yr, Mnth], rows[j]);
      MonthKey(rows[j]);
    }
  }

  lemma MonthlyKeysArePairs(rows: seq<Record>)
    ensures forall i :: 0 <= i < |MonthlyAvg(rows)| ==> |MonthlyAvg(rows)[i].key| == 2
  {
    GroupKeysOccur(rows, [Yr, Mnth]);
  }

  /** The monthly aggregate is ordered by year and then by month, with no pair twice. */
  lemma MonthlyAvgOrder(rows: seq<Record>)
    ensures forall i, j :: 0 <= i < j < |MonthlyAvg(rows)| ==>
      var a, b := MonthlyAvg(rows)[i].key, MonthlyAvg(rows)[j].key;
      |a| == |b| == 2 && (a[0] < b[0] || (a[0] == b[0] && a[1] < b[1]))
  {
    var gs := MonthlyAvg(rows);
    GroupByCorrect(rows, [Yr, Mnth]);
    MonthlyKeysArePairs(rows);
    forall i, j | 0 <= i < j < |gs|
      ensures |gs[i].key| == |gs[j].key| == 2
      ensures gs[i].key[0] < gs[j].key[0] || (gs[i].key[0] == gs[j].key[0] && gs[i].key[1] < gs[j].key[1])
    {
      var a, b := gs[i].key, gs[j].key;
      assert a == [a[0], a[1]] && b == [b[0], b[1]];
      LexLessPair(a[0], a[1], b[0], b[1]);
    }
  }

  /** Every code of a one-column aggregate (weather, holiday) occurs in the rows. */
  lemma CodesOccur(rows: seq<Record>, c: Column)
    ensures forall i :: 0 <= i < |AggregateCodes(rows, c)| ==>
      exists j :: 0 <= j < |rows| && AggregateCodes(rows, c)[i] == Field(rows[j], c)
  {
    var codes := AggregateCodes(rows, c);
    GroupKeysOccur(rows, [c]);
    forall i | 0 <= i < |codes| ensures exists j :: 0 <= j < |rows| && codes[i] == Field(rows[j], c) {
      var j :| 0 <= j < |rows| && GroupBy(rows, [c])[i].key == KeyOf([c], rows[j]);
      assert [codes[i]] == [Field(rows[j], c)];
    }
  }

  /** Every code that occurs in the rows is a code of the one-column aggregate. */
  lemma CodesCovered(rows: seq<Record>, c: Column)
    ensures forall j :: 0 <= j < |rows| ==>
      exists i :: 0 <= i < |AggregateCodes(rows, c)| && AggregateCodes(rows, c)[i] == Field(rows[j], c)
  {
    var codes := AggregateCodes(rows, c);
    RowKeysGrouped(rows, [c]);
    forall j | 0 <= j < |rows| ensures exists i :: 0 <= i < |codes| && codes[i] == Field(rows[j], c) {
      var i :| 0 <= i < |codes| && GroupBy(rows, [c])[i].key == KeyOf([c], rows[j]);
      assert [codes[i]] == [Field(rows[j], c)];
    }
  }

  /** A one-column aggregate lists its codes strictly ascending. */
  lemma CodesAscending(rows: seq<Record>, c: Column)
    ensures forall i, j :: 0 <= i < j < |AggregateCodes(rows, c)| ==>
      AggregateCodes(rows, c)[i] < AggregateCodes(rows, c)[j]
  {
    var codes := AggregateCodes(rows, c);
    GroupByCorrect(rows, [c]);
    forall i, j | 0 <= i < j < |codes| ensures codes[i] < codes[j] {
      LexLessSingle(codes[i], codes[j]);
    }
  }

  /** Row i of a labelled one-column aggregate carries the label of code i (missing when
      the dictionary has none), and the sum, size and mean of the rows with that code. */
  lemma LabelledStatsSpec(rows: seq<Record>, c: Column, m: map<int, string>)
    ensures |LabelledStats(rows, c, m)| == |AggregateCodes(rows, c)|
    ensures forall i :: 0 <= i < |AggregateCodes(rows, c)| ==>
      var code := AggregateCodes(rows, c)[i];
      && LabelledStats(rows, c, m)[i] ==
         LabelledGroup(MapCode(m, code), SumWhere(rows, [c], [code]), CountWhere(rows, [c], [code]))
      && CountWhere(rows, [c], [code]) > 0
  {
    var gs := GroupBy(rows, [c]);
    GroupByCorrect(rows, [c]);
    SingleColumnKeys(rows, c);
    LabelGroupsSpec(gs, m);
  }

  lemma ComputeViews(day: seq<Record>, years: string)
    ensures Compute(day, years).filtered == FilterByYear(day, years)
    ensures Compute(day, years).weatherStats == LabelledStats(FilterByYear(day, years), Weathersit, WeatherLabels)
    ensures Compute(day, years).holidayStats == LabelledStats(FilterByYear(day, years), Holiday, HolidayLabels)
  {
  }

  /** `stats` is the labelled one-column aggregate of `rows` over column `c` with key column
      `codes`: one row per code that occurs in the rows and none for any other, codes strictly
      ascending, row i labelled through `m` and holding the sum and count of `cnt` over the
      rows with code i. */
  predicate IsLabelledAggregate(stats: seq<LabelledGroup>, codes: seq<int>, rows: seq<Record>,
                                c: Column, m: map<int, string>)
  {
    && |stats| == |codes|
    && (forall i, j :: 0 <= i < j < |codes| ==> codes[i] < codes[j])
    && (forall i :: 0 <= i < |codes| ==> exists j :: 0 <= j < |rows| && codes[i] == Field(rows[j], c))
    && (forall j :: 0 <= j < |rows| ==> exists i :: 0 <= i < |codes| && codes[i] == Field(rows[j], c))
    && (forall i :: 0 <= i < |codes| ==>
          && stats[i] == LabelledGroup(MapCode(m, codes[i]), SumWhere(rows, [c], [codes[i]]), CountWhere(rows, [c], [codes[i]]))
          && CountWhere(rows, [c], [codes[i]]) > 0)
  }

  lemma LabelledAggregateHolds(rows: seq<Record>, c: Column, m: map<int, string>)
    ensures IsLabelledAggregate(LabelledStats(rows, c, m), AggregateCodes(rows, c), rows, c, m)
  {
    CodesAscending(rows, c);
    CodesOccur(rows, c);
    CodesCovered(rows, c);
    LabelledStatsSpec(rows, c, m);
  }

  /** The weather view of any selection is the labelled weather aggregate of the selected days. */
  lemma WeatherStatsSpec(day: seq<Record>, years: string)
    ensures IsLabelledAggregate(Compute(day, years).weatherStats,
                                AggregateCodes(Compute(day, years).filtered, Weathersit),
                                Compute(day, years).filtered, Weathersit, WeatherLabels)
  {
    ComputeViews(day, years);
    LabelledAggregateHolds(FilterByYear(day, years), Weathersit, WeatherLabels);
  }

  /** The holiday view of any selection is the labelled holiday aggregate of the selected days. */
  lemma HolidayStatsSpec(day: seq<Record>, years: string)
    ensures IsLabelledAggregate(Compute(day, years).holidayStats,
                                AggregateCodes(Compute(day, years).filtered, Holiday),
                                Compute(day, years).filtered, Holiday, HolidayLabels)
  {
    ComputeViews(day, years);
    LabelledAggregateHolds(FilterByYear(day, years), Holiday, HolidayLabels);
  }

  /** A selection that keeps no row shows empty aggregates and an all-zero count plot. */
  lemma EmptySelection(day: seq<Record>, years: string)
    requires FilterByYear(day, years) == []
    ensures Compute(day, years).monthlyAvg == []
    ensures Compute(day, years).weatherStats == []
    ensures Compute(day, years).holidayStats == []
    ensures Compute(day, years).categoryCounts == [0, 0, 0]
  {
  }

  /** The count plot of any selection has one bar per category, in the order High, Medium,
      Low, each bar counting the selected rows in that category, and together counting
      every selected row once. */
  lemma CountPlotSpec(day: seq<Record>, years: string)
    ensures Compute(day, years).rentalCategory.categories == [High, Medium, Low]
    ensures Compute(day, years).categoryCounts ==
      [RowsInCategory(Compute(day, years).filtered, High),
       RowsInCategory(Compute(day, years).filtered, Medium),
       RowsInCategory(Compute(day, years).filtered, Low)]
    ensures Sum(Compute(day, years).categoryCounts) == |Compute(day, years).filtered|
  {
    var rows := FilterByYear(day, years);
    CategoryCountsPartition(rows);
    CategoryCountsMeaning(rows, High);
    CategoryCountsMeaning(rows, Medium);
    CategoryCountsMeaning(rows, Low);
  }

  /** The categorised frame holds the selected rows, an order-preserving subsequence of the
      day table, with exactly one category per row, that row's own category. */
  lemma CategorisedFrameSpec(day: seq<Record>, years: string)
    ensures IsSubsequence(Compute(day, years).filtered, day)
    ensures |Compute(day, years).rentalCategory.codes| == |Compute(day, years).filtered|
    ensures forall i :: 0 <= i < |Compute(day, years).filtered| ==>
      var code := Compute(day, years).rentalCategory.codes[i];
      0 <= code < 3 && CategoryOrder[code] == Categorize(Compute(day, years).filtered[i].cnt)
  {
    FilterByYearSpec(day, years);
  }

  /** Feeding the selected rows back through the same selection changes nothing shown. */
  lemma ComputeIdempotent(day: seq<Record>, years: string)
    ensures Compute(Compute(day, years).filtered, years) == Compute(day, years)
  {
    FilterByYearSpec(day, years);
  }

  /** Three sample days, all years selected. */
  const SampleDays: seq<Record> := [Record(0, 1, 1, 0, 1500), Record(0, 1, 1, 0, 2500), Record(1, 6, 3, 1, 4500)]

  lemma SampleTail()
    ensures SampleDays[1..] == [SampleDays[1], SampleDays[2]]
    ensures SampleDays[1..][1..] == [SampleDays[2]] && SampleDays[1..][1..][1..] == []
  {
  }

  /** Grouping the sample by `cols` when the first two days share a key that sorts before
      the third day's. */
  lemma SampleGroupBy(cols: seq<Column>)
    requires KeyOf(cols, SampleDays[0]) == KeyOf(cols, SampleDays[1])
    requires LexLess(KeyOf(cols, SampleDays[1]), KeyOf(cols, SampleDays[2]))
    ensures GroupBy(SampleDays, cols) ==
      [Group(KeyOf(cols, SampleDays[0]), 4000, 2), Group(KeyOf(cols, SampleDays[2]), 4500, 1)]
  {
    var d := SampleDays;
    SampleTail();
    var k1, k2 := KeyOf(cols, d[1]), KeyOf(cols, d[2]);
    assert GroupBy([d[2]], cols) == [Group(k2, 4500, 1)];
    assert GroupBy(d[1..], cols) == [Group(k1, 2500, 1), Group(k2, 4500, 1)];
  }

  /** The sample's monthly aggregate: (2011, 1) with two days averaging 2000, then
      (2012, 6) with one day of 4500. */
  lemma SampleMonthly()
    ensures FilterByYear(SampleDays, "Both") == SampleDays
    ensures MonthlyAvg(SampleDays) == [Group([0, 1], 4000, 2), Group([1, 6], 4500, 1)]
    ensures Mean(MonthlyAvg(SampleDays)[0]) == 2000.0
  {
    var d := SampleDays;
    MonthKey(d[0]);
    MonthKey(d[1]);
    MonthKey(d[2]);
    LexLessPair(0, 1, 1, 6);
    SampleGroupBy([Yr, Mnth]);
  }

  /** The sample's weather aggregate: Clear averaging 2000, then Rain/Snow with 4500. */
  lemma SampleWeather()
    ensures WeatherStats(SampleDays) ==
      [LabelledGroup(Some("Clear"), 4000, 2), LabelledGroup(Some("Rain/Snow"), 4500, 1)]
  {
    var d := SampleDays;
    assert KeyOf([Weathersit], d[0]) == [1] && KeyOf([Weathersit], d[1]) == [1];
    assert KeyOf([Weathersit], d[2]) == [3];
    LexLessSingle(1, 3);
    SampleGroupBy([Weathersit]);
    LabelGroupsSpec(GroupBy(d, [Weathersit]), WeatherLabels);
  }

  /** The sample's holiday aggregate: Working Day averaging 2000, then Holiday with 4500. */
  lemma SampleHoliday()
    ensures HolidayStats(SampleDays) ==
      [LabelledGroup(Some("Working Day"), 4000, 2), LabelledGroup(Some("Holiday"), 4500, 1)]
  {
    var d := SampleDays;
    assert KeyOf([Holiday], d[0]) == [0] && KeyOf([Holiday], d[1]) == [0];
    assert KeyOf([Holiday], d[2]) == [1];
    LexLessSingle(0, 1);
    SampleGroupBy([Holiday]);
    LabelGroupsSpec(GroupBy(d, [Holiday]), HolidayLabels);
  }

  /** The sample's categories: one day in each, coded High 0, Medium 1, Low 2. */
  lemma SampleCategories()
    ensures CategorizeFrame(SampleDays).codes == [2, 1, 0]
    ensures CategoryCounts(CategorizeFrame(SampleDays)) == [1, 1, 1]
  {
    var d := SampleDays;
    CategoryOrderSpec();
    CategoryCountsPartition(d);
    CategoryCountsMeaning(d, High);
    CategoryCountsMeaning(d, Medium);
    CategoryCountsMeaning(d, Low);
    SampleTail();
    assert RowsInCategory(d, High) == 1 && RowsInCategory(d, Medium) == 1 && RowsInCategory(d, Low) == 1;
  }
}
