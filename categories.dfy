/** The "clustering" of days into rental-volume categories and the ordered categorical
    column built from it. */
module Categories {
  import opened Records

  datatype Category = Low | Medium | High

  /** The fixed business rule: below 2000 is Low, from 2000 up to 4000 (exclusive) is
      Medium, from 4000 on is High. */
  function Categorize(cnt: int): (c: Category)
    ensures c == Low <==> cnt < 2000
    ensures c == Medium <==> 2000 <= cnt < 4000
    ensures c == High <==> 4000 <= cnt
  {
    if cnt < 2000 then Low
    else if 2000 <= cnt < 4000 then Medium
    else High
  }

  /** The position of a category on the volume scale Low < Medium < High. */
  function Volume(c: Category): nat
  {
    match c
    case Low => 0
    case Medium => 1
    case High => 2
  }

  lemma CategorizeBoundaries()
    ensures Categorize(1999) == Low
    ensures Categorize(2000) == Medium
    ensures Categorize(3999) == Medium
    ensures Categorize(4000) == High
  {
  }

  /** More rentals never give a lower category. */
  lemma CategorizeMonotone(a: int, b: int)
    requires a <= b
    ensures Volume(Categorize(a)) <= Volume(Categorize(b))
  {
  }

  /** The category order handed to the categorical column. */
  const CategoryOrder: seq<Category> := [High, Medium, Low]

  predicate Distinct<T(==)>(s: seq<T>)
  {
    forall i, j :: 0 <= i < j < |s| ==> s[i] != s[j]
  }

  /** CategoryOrder lists every category exactly once, by descending volume. */
  lemma CategoryOrderSpec()
    ensures Distinct(CategoryOrder)
    ensures forall c: Category :: c in CategoryOrder
    ensures forall i, j :: 0 <= i < j < |CategoryOrder| ==> Volume(CategoryOrder[i]) > Volume(CategoryOrder[j])
  {
    forall c: Category ensures c in CategoryOrder {
      match c
      case High => assert CategoryOrder[0] == c;
      case Medium => assert CategoryOrder[1] == c;
      case Low => assert CategoryOrder[2] == c;
    }
  }

  /** The position of `c` in `cats`, or -1 when it is not there. */
  function IndexOf(cats: seq<Category>, c: Category): (i: int)
    ensures -1 <= i < |cats|
    ensures i == -1 <==> c !in cats
    ensures 0 <= i ==> cats[i] == c && c !in cats[..i]
  {
    if cats == [] then -1
    else if cats[0] == c then 0
    else
      var j := IndexOf(cats[1..], c);
      if j == -1 then -1
      else
        assert cats[..j + 1] == [cats[0]] + cats[1..][..j];
        j + 1
  }

  /** An ordered pandas Categorical: the category list and one code per value. */
  datatype Categorical = Categorical(categories: seq<Category>, codes: seq<int>)

  /** `pd.Categorical(values, categories=..., ordered=True)`: each value is stored as its
      position among the categories, and a value outside them as the missing code -1. */
  function ToCategorical(values: seq<Category>, categories: seq<Category>): (r: Categorical)
    requires Distinct(categories)
    ensures r.categories == categories && |r.codes| == |values|
    ensures forall i :: 0 <= i < |values| ==> (r.codes[i] == -1 <==> values[i] !in categories)
    ensures forall i :: 0 <= i < |values| && values[i] in categories ==>
      0 <= r.codes[i] < |categories| && categories[r.codes[i]] == values[i]
  {
    Categorical(categories, seq(|values|, i requires 0 <= i < |values| => IndexOf(categories, values[i])))
  }

  /** With `ordered=True` the categorical compares by code, so under CategoryOrder a
      category sorts before another exactly when it has the higher volume. */
  lemma CategoricalOrderDescending(c: Category, d: Category)
    ensures IndexOf(CategoryOrder, c) < IndexOf(CategoryOrder, d) <==> Volume(c) > Volume(d)
  {
  }

  /** The `rental_category` column: one category per row, from that row's `cnt`. */
  function RentalCategoryColumn(rows: seq<Record>): seq<Category>
  {
    if rows == [] then [] else [Categorize(rows[0].cnt)] + RentalCategoryColumn(rows[1..])
  }

  lemma {:induction false} RentalCategoryColumnSpec(rows: seq<Record>)
    ensures |RentalCategoryColumn(rows)| == |rows|
    ensures forall i :: 0 <= i < |rows| ==> RentalCategoryColumn(rows)[i] == Categorize(rows[i].cnt)
  {
    if rows != [] {
      RentalCategoryColumnSpec(rows[1..]);
    }
  }

  /** How many codes equal `j`. */
  function CountCode(codes: seq<int>, j: int): nat
  {
    if codes == [] then 0 else (if codes[0] == j then 1 else 0) + CountCode(codes[1..], j)
  }

  /** The bar heights of the count plot: one count per category, in category order. */
  function CategoryCounts(cat: Categorical): seq<nat>
  {
    seq(|cat.categories|, j requires 0 <= j < |cat.categories| => CountCode(cat.codes, j))
  }

  function Sum(s: seq<nat>): nat
  {
    if s == [] then 0 else s[0] + Sum(s[1..])
  }

  /** The sum of CountCode(codes, j) for lo <= j < hi. */
  function CountRange(codes: seq<int>, lo: int, hi: int): nat
    decreases hi - lo
  {
    if hi <= lo then 0 else CountCode(codes, lo) + CountRange(codes, lo + 1, hi)
  }

  lemma {:induction false} CountRangeCons(c: int, t: seq<int>, lo: int, hi: int)
    ensures CountRange([c] + t, lo, hi) == (if lo <= c < hi then 1 else 0) + CountRange(t, lo, hi)
    decreases hi - lo
  {
    if lo < hi {
      CountRangeCons(c, t, lo + 1, hi);
      assert ([c] + t)[1..] == t;
    }
  }

  /** Codes all inside [0, n) are counted exactly once across the n categories. */
  lemma {:induction false} CountRangeTotal(codes: seq<int>, n: nat)
    requires forall i :: 0 <= i < |codes| ==> 0 <= codes[i] < n
    ensures CountRange(codes, 0, n) == |codes|
  {
    if codes == [] {
      CountRangeEmpty(0, n);
    } else {
      CountRangeTotal(codes[1..], n);
      assert codes == [codes[0]] + codes[1..];
      CountRangeCons(codes[0], codes[1..], 0, n);
    }
  }

  lemma {:induction false} CountRangeEmpty(lo: int, hi: int)
    ensures CountRange([], lo, hi) == 0
    decreases hi - lo
  {
    if lo < hi {
      CountRangeEmpty(lo + 1, hi);
    }
  }

  lemma {:induction false} SumCountsFrom(cat: Categorical, lo: nat)
    requires lo <= |cat.categories|
    ensures Sum(CategoryCounts(cat)[lo..]) == CountRange(cat.codes, lo, |cat.categories|)
    decreases |cat.categories| - lo
  {
    var counts := CategoryCounts(cat);
    if lo < |cat.categories| {
      SumCountsFrom(cat, lo + 1);
      assert counts[lo..][1..] == counts[lo + 1..];
    }
  }

  /** The ordered `rental_category` column of the filtered rows: the categories computed
      row by row and stored as an ordered categorical over CategoryOrder. */
  function CategorizeFrame(rows: seq<Record>): (r: Categorical)
    ensures r.categories == CategoryOrder && |r.codes| == |rows|
    ensures forall i :: 0 <= i < |rows| ==>
      0 <= r.codes[i] < 3 && CategoryOrder[r.codes[i]] == Categorize(rows[i].cnt)
  {
    RentalCategoryColumnSpec(rows);
    CategoryOrderSpec();
    ToCategorical(RentalCategoryColumn(rows), CategoryOrder)
  }

  /** Every filtered row shows up in exactly one bar of the count plot. */
  lemma CategoryCountsPartition(rows: seq<Record>)
    ensures |CategoryCounts(CategorizeFrame(rows))| == 3
    ensures Sum(CategoryCounts(CategorizeFrame(rows))) == |rows|
  {
    var cat := CategorizeFrame(rows);
    SumCountsFrom(cat, 0);
    assert CategoryCounts(cat)[0..] == CategoryCounts(cat);
    CountRangeTotal(cat.codes, 3);
  }

  /** How many rows fall into category `c`. */
  function RowsInCategory(rows: seq<Record>, c: Category): nat
  {
    if rows == [] then 0 else (if Categorize(rows[0].cnt) == c then 1 else 0) + RowsInCategory(rows[1..], c)
  }

  /** How many values equal `c`. */
  function CountValue(values: seq<Category>, c: Category): nat
  {
    if values == [] then 0 else (if values[0] == c then 1 else 0) + CountValue(values[1..], c)
  }

  lemma {:induction false} ColumnCountsCategory(rows: seq<Record>, c: Category)
    ensures CountValue(RentalCategoryColumn(rows), c) == RowsInCategory(rows, c)
  {
    if rows != [] {
      ColumnCountsCategory(rows[1..], c);
      assert RentalCategoryColumn(rows)[1..] == RentalCategoryColumn(rows[1..]);
    }
  }

  /** Counting the codes of a category counts the values equal to it. */
  lemma {:induction false} CodesCountValues(values: seq<Category>, cats: seq<Category>, c: Category)
    requires Distinct(cats) && c in cats
    ensures CountCode(ToCategorical(values, cats).codes, IndexOf(cats, c)) == CountValue(values, c)
  {
    if values != [] {
      CodesCountValues(values[1..], cats, c);
      var codes := ToCategorical(values, cats).codes;
      assert codes[1..] == ToCategorical(values[1..], cats).codes;
      assert codes[0] == IndexOf(cats, values[0]);
    }
  }

  /** The bar for category `c` counts exactly the rows the classifier puts in `c`. */
  lemma CategoryCountsMeaning(rows: seq<Record>, c: Category)
    ensures CategoryCounts(CategorizeFrame(rows))[IndexOf(CategoryOrder, c)] == RowsInCategory(rows, c)
  {
    CategoryOrderSpec();
    CodesCountValues(RentalCategoryColumn(rows), CategoryOrder, c);
    ColumnCountsCategory(rows, c);
  }
}
