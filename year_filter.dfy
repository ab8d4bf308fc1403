/** The sidebar year selection and the boolean-mask filter it drives. */
module YearFilter {
  import opened Records

  /** `a` is obtained from `b` by deleting elements, keeping the order of the rest. */
  predicate IsSubsequence<T(==)>(a: seq<T>, b: seq<T>)
  {
    if a == [] then true
    else if b == [] then false
    else if a[0] == b[0] then IsSubsequence(a[1..], b[1..])
    else IsSubsequence(a, b[1..])
  }

  /** The rows whose `yr` column equals `y`, in their original order (`df[df['yr'] == y]`). */
  function RowsOfYear(rows: seq<Record>, y: int): seq<Record>
  {
    if rows == [] then []
    else if rows[0].yr == y then [rows[0]] + RowsOfYear(rows[1..], y)
    else RowsOfYear(rows[1..], y)
  }

  /** The frame the dashboard works on for the selected year: '2011' keeps `yr == 0`,
      '2012' keeps `yr == 1`, and every other selection ('Both') keeps the whole frame. */
  function FilterByYear(rows: seq<Record>, years: string): seq<Record>
  {
    if years == "2011" then RowsOfYear(rows, 0)
    else if years == "2012" then RowsOfYear(rows, 1)
    else rows
  }

  lemma {:induction false} SubsequenceReflexive<T>(s: seq<T>)
    ensures IsSubsequence(s, s)
  {
    if s != [] {
      SubsequenceReflexive(s[1..]);
    }
  }

  /** RowsOfYear keeps exactly the rows of year `y`: each with its full multiplicity,
      nothing else, and in input order. */
  lemma {:induction false} RowsOfYearExact(rows: seq<Record>, y: int)
    ensures IsSubsequence(RowsOfYear(rows, y), rows)
    ensures forall i :: 0 <= i < |RowsOfYear(rows, y)| ==> RowsOfYear(rows, y)[i].yr == y
    ensures forall x :: multiset(RowsOfYear(rows, y))[x] == (if x.yr == y then multiset(rows)[x] else 0)
  {
    if rows != [] {
      var rest := RowsOfYear(rows[1..], y);
      RowsOfYearExact(rows[1..], y);
      assert rows == [rows[0]] + rows[1..];
      assert multiset(rows) == multiset{rows[0]} + multiset(rows[1..]);
      if rows[0].yr != y && rest != [] {
        assert rest[0].yr == y;
        assert rest[0] != rows[0];
      }
    }
  }

  /** Selecting a year twice is selecting it once. */
  lemma {:induction false} RowsOfYearIdempotent(rows: seq<Record>, y: int)
    ensures RowsOfYear(RowsOfYear(rows, y), y) == RowsOfYear(rows, y)
  {
    if rows != [] {
      RowsOfYearIdempotent(rows[1..], y);
      if rows[0].yr == y {
        var r := RowsOfYear(rows, y);
        assert r[0] == rows[0] && r[1..] == RowsOfYear(rows[1..], y);
      }
    }
  }

  /** The year filter: which rows each selection keeps, that the result is an
      order-preserving subsequence of the frame, and that filtering again changes nothing. */
  lemma FilterByYearSpec(rows: seq<Record>, years: string)
    ensures IsSubsequence(FilterByYear(rows, years), rows)
    ensures years == "2011" ==>
      forall x :: multiset(FilterByYear(rows, years))[x] == (if x.yr == 0 then multiset(rows)[x] else 0)
    ensures years == "2012" ==>
      forall x :: multiset(FilterByYear(rows, years))[x] == (if x.yr == 1 then multiset(rows)[x] else 0)
    ensures years != "2011" && years != "2012" ==> FilterByYear(rows, years) == rows
    ensures FilterByYear(FilterByYear(rows, years), years) == FilterByYear(rows, years)
  {
    if years == "2011" {
      RowsOfYearExact(rows, 0);
      RowsOfYearIdempotent(rows, 0);
    } else if years == "2012" {
      RowsOfYearExact(rows, 1);
      RowsOfYearIdempotent(rows, 1);
    } else {
      SubsequenceReflexive(rows);
    }
  }

  /** On data whose `yr` is always 0 or 1, the 2011 and 2012 selections split the
      whole frame ('Both') between them. */
  lemma {:induction false} YearsPartitionFrame(rows: seq<Record>)
    requires forall i :: 0 <= i < |rows| ==> rows[i].yr == 0 || rows[i].yr == 1
    ensures multiset(FilterByYear(rows, "2011")) + multiset(FilterByYear(rows, "2012"))
         == multiset(FilterByYear(rows, "Both"))
  {
    if rows != [] {
      YearsPartitionFrame(rows[1..]);
      assert rows == [rows[0]] + rows[1..];
      assert multiset(rows) == multiset{rows[0]} + multiset(rows[1..]);
    }
  }
}
