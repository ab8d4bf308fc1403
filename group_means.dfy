/** `frame.groupby(cols)['cnt'].mean().reset_index()` with pandas' default `sort=True`:
    one output row per key that occurs, in ascending key order, each holding the group's
    integer sum and size so that the mean is exact. */
module GroupMeans {
  import opened Records

  /** Strict lexicographic order on group keys (how pandas sorts tuple keys; on one-column
      keys it is the order of the values). */
  predicate LexLess(a: seq<int>, b: seq<int>)
  {
    if a == [] then b != []
    else if b == [] then false
    else a[0] < b[0] || (a[0] == b[0] && LexLess(a[1..], b[1..]))
  }

  lemma {:induction false} LexLessIrreflexive(a: seq<int>)
    ensures !LexLess(a, a)
  {
    if a != [] {
      LexLessIrreflexive(a[1..]);
    }
  }

  lemma {:induction false} LexLessTransitive(a: seq<int>, b: seq<int>, c: seq<int>)
    requires LexLess(a, b) && LexLess(b, c)
    ensures LexLess(a, c)
  {
    if a != [] && b != [] && c != [] && a[0] == b[0] == c[0] {
      LexLessTransitive(a[1..], b[1..], c[1..]);
    }
  }

  lemma {:induction false} LexLessTotal(a: seq<int>, b: seq<int>)
    ensures a == b || LexLess(a, b) || LexLess(b, a)
  {
    if a != [] && b != [] && a[0] == b[0] {
      LexLessTotal(a[1..], b[1..]);
      if a[1..] == b[1..] {
        assert a == [a[0]] + a[1..] && b == [b[0]] + b[1..];
      }
    }
  }

  /** On two-column keys this is the (yr, mnth) order: by year, then by month. */
  lemma LexLessPair(a: int, b: int, c: int, d: int)
    ensures LexLess([a, b], [c, d]) <==> a < c || (a == c && b < d)
  {
    assert [a, b][1..] == [b] && [c, d][1..] == [d];
    LexLessSingle(b, d);
  }

  /** On one-column keys this is the order of the values. */
  lemma LexLessSingle(a: int, b: int)
    ensures LexLess([a], [b]) <==> a < b
  {
    assert [a][1..] == [] && [b][1..] == [];
  }

  /** One output row: the group's key, the sum of its `cnt` values and its number of rows. */
  datatype Group = Group(key: seq<int>, sum: int, size: nat)

  /** The `cnt` column of an output row. */
  function Mean(g: Group): real
    requires g.size > 0
  {
    g.sum as real / g.size as real
  }

  predicate StrictlySorted(gs: seq<Group>)
  {
    forall i, j :: 0 <= i < j < |gs| ==> LexLess(gs[i].key, gs[j].key)
  }

  function KeysOf(gs: seq<Group>): set<seq<int>>
  {
    set g | g in gs :: g.key
  }

  predicate NonEmptyGroups(gs: seq<Group>)
  {
    forall i :: 0 <= i < |gs| ==> gs[i].size > 0
  }

  /** The size and sum held for key `k` (0 when there is no such row). */
  function SizeOf(gs: seq<Group>, k: seq<int>): nat
  {
    if gs == [] then 0 else if gs[0].key == k then gs[0].size else SizeOf(gs[1..], k)
  }

  function SumOf(gs: seq<Group>, k: seq<int>): int
  {
    if gs == [] then 0 else if gs[0].key == k then gs[0].sum else SumOf(gs[1..], k)
  }

  /** Accumulate one row with key `k` and value `v` into the sorted output. */
  function AddRow(gs: seq<Group>, k: seq<int>, v: int): seq<Group>
  {
    if gs == [] then [Group(k, v, 1)]
    else if gs[0].key == k then [Group(k, gs[0].sum + v, gs[0].size + 1)] + gs[1..]
    else if LexLess(k, gs[0].key) then [Group(k, v, 1)] + gs
    else [gs[0]] + AddRow(gs[1..], k, v)
  }

  /** The grouped aggregate of `rows` over `cols`, value column `cnt`. */
  function GroupBy(rows: seq<Record>, cols: seq<Column>): seq<Group>
  {
    if rows == [] then [] else AddRow(GroupBy(rows[1..], cols), KeyOf(cols, rows[0]), rows[0].cnt)
  }

  // Reference definitions, written directly over the rows.

  /** The keys that occur in `rows`. */
  function KeySet(rows: seq<Record>, cols: seq<Column>): set<seq<int>>
  {
    if rows == [] then {} else {KeyOf(cols, rows[0])} + KeySet(rows[1..], cols)
  }

  /** The number of rows with key `k`. */
  function CountWhere(rows: seq<Record>, cols: seq<Column>, k: seq<int>): nat
  {
    if rows == [] then 0 else (if KeyOf(cols, rows[0]) == k then 1 else 0) + CountWhere(rows[1..], cols, k)
  }

  /** The sum of `cnt` over the rows with key `k`. */
  function SumWhere(rows: seq<Record>, cols: seq<Column>, k: seq<int>): int
  {
    if rows == [] then 0 else (if KeyOf(cols, rows[0]) == k then rows[0].cnt else 0) + SumWhere(rows[1..], cols, k)
  }

  /** The arithmetic mean of `cnt` over the rows with key `k`. */
  function GroupMean(rows: seq<Record>, cols: seq<Column>, k: seq<int>): real
    requires CountWhere(rows, cols, k) > 0
  {
    SumWhere(rows, cols, k) as real / CountWhere(rows, cols, k) as real
  }

  // Proofs.

  lemma {:induction false} SortedTail(gs: seq<Group>)
    requires gs != [] && StrictlySorted(gs)
    ensures StrictlySorted(gs[1..])
    ensures forall k :: k in KeysOf(gs[1..]) ==> LexLess(gs[0].key, k)
    ensures KeysOf(gs) == {gs[0].key} + KeysOf(gs[1..])
  {
    assert gs == [gs[0]] + gs[1..];
    forall k | k in KeysOf(gs[1..]) ensures LexLess(gs[0].key, k) {
      var g :| g in gs[1..] && g.key == k;
      var j :| 0 <= j < |gs[1..]| && gs[1..][j] == g;
      assert gs[j + 1] == g;
    }
  }

  lemma {:induction false} SortedCons(g: Group, gs: seq<Group>)
    requires StrictlySorted(gs)
    requires forall k :: k in KeysOf(gs) ==> LexLess(g.key, k)
    ensures StrictlySorted([g] + gs)
  {
    var r := [g] + gs;
    forall i, j | 0 <= i < j < |r| ensures LexLess(r[i].key, r[j].key) {
      assert r[j] == gs[j - 1];
      assert r[j] in gs;
      if i > 0 {
        assert r[i] == gs[i - 1];
      }
    }
  }

  lemma {:induction false} AbsentKey(gs: seq<Group>, k: seq<int>)
    requires k !in KeysOf(gs)
    ensures SizeOf(gs, k) == 0 && SumOf(gs, k) == 0
  {
    if gs != [] {
      assert gs[0] in gs;
      assert KeysOf(gs[1..]) <= KeysOf(gs) by {
        forall g | g in gs[1..] ensures g in gs { }
      }
      AbsentKey(gs[1..], k);
    }
  }

  lemma {:induction false} KeysOfCons(g: Group, gs: seq<Group>)
    ensures KeysOf([g] + gs) == {g.key} + KeysOf(gs)
  {
    var r := [g] + gs;
    assert r[0] == g && r[1..] == gs;
    forall x | x in r ensures x == g || x in gs {
      var i :| 0 <= i < |r| && r[i] == x;
      if i > 0 {
        assert gs[i - 1] == x;
      }
    }
  }

  /** Adding a row adds its key to the output's keys and no other key. */
  lemma {:induction false} AddRowKeys(gs: seq<Group>, k: seq<int>, v: int)
    ensures KeysOf(AddRow(gs, k, v)) == KeysOf(gs) + {k}
  {
    if gs == [] {
      assert KeysOf([Group(k, v, 1)]) == {k} by { KeysOfCons(Group(k, v, 1), []); }
    } else {
      var g := gs[0];
      assert gs == [g] + gs[1..];
      KeysOfCons(g, gs[1..]);
      if g.key == k {
        KeysOfCons(Group(k, g.sum + v, g.size + 1), gs[1..]);
      } else if LexLess(k, g.key) {
        KeysOfCons(Group(k, v, 1), gs);
      } else {
        AddRowKeys(gs[1..], k, v);
        KeysOfCons(g, AddRow(gs[1..], k, v));
      }
    }
  }

  /** Adding a row keeps the output strictly sorted with non-empty groups. */
  lemma {:induction false} AddRowSorted(gs: seq<Group>, k: seq<int>, v: int)
    requires StrictlySorted(gs) && NonEmptyGroups(gs)
    ensures StrictlySorted(AddRow(gs, k, v)) && NonEmptyGroups(AddRow(gs, k, v))
  {
    if gs != [] {
      SortedTail(gs);
      var g := gs[0];
      if g.key == k {
        SortedCons(Group(k, g.sum + v, g.size + 1), gs[1..]);
      } else if LexLess(k, g.key) {
        forall k'' | k'' in KeysOf(gs) ensures LexLess(k, k'') {
          if k'' != g.key {
            LexLessTransitive(k, g.key, k'');
          }
        }
        SortedCons(Group(k, v, 1), gs);
      } else {
        LexLessTotal(k, g.key);
        AddRowSorted(gs[1..], k, v);
        AddRowKeys(gs[1..], k, v);
        SortedCons(g, AddRow(gs[1..], k, v));
      }
    }
  }

  /** Adding a row credits its value to its own group and to no other. */
  lemma {:induction false} AddRowTallies(gs: seq<Group>, k: seq<int>, v: int)
    requires StrictlySorted(gs)
    ensures forall k' :: SizeOf(AddRow(gs, k, v), k') == SizeOf(gs, k') + (if k' == k then 1 else 0)
    ensures forall k' :: SumOf(AddRow(gs, k, v), k') == SumOf(gs, k') + (if k' == k then v else 0)
  {
    var r := AddRow(gs, k, v);
    if gs != [] {
      SortedTail(gs);
      var g := gs[0];
      if g.key == k {
        assert r[1..] == gs[1..];
      } else if LexLess(k, g.key) {
        assert r[1..] == gs;
        assert k !in KeysOf(gs) by {
          if k in KeysOf(gs) {
            LexLessIrreflexive(k);
            if k != g.key {
              LexLessTransitive(k, g.key, k);
            }
          }
        }
        AbsentKey(gs, k);
      } else {
        AddRowTallies(gs[1..], k, v);
        assert r[1..] == AddRow(gs[1..], k, v);
      }
    }
  }

  /** Adding a row keeps the output sorted and non-empty per group, adds its key, and
      credits its value to exactly its own group. */
  lemma AddRowSpec(gs: seq<Group>, k: seq<int>, v: int)
    requires StrictlySorted(gs) && NonEmptyGroups(gs)
    ensures StrictlySorted(AddRow(gs, k, v)) && NonEmptyGroups(AddRow(gs, k, v))
    ensures KeysOf(AddRow(gs, k, v)) == KeysOf(gs) + {k}
    ensures forall k' :: SizeOf(AddRow(gs, k, v), k') == SizeOf(gs, k') + (if k' == k then 1 else 0)
    ensures forall k' :: SumOf(AddRow(gs, k, v), k') == SumOf(gs, k') + (if k' == k then v else 0)
  {
    AddRowKeys(gs, k, v);
    AddRowSorted(gs, k, v);
    AddRowTallies(gs, k, v);
  }

  lemma {:induction false} GroupByInvariant(rows: seq<Record>, cols: seq<Column>)
    ensures StrictlySorted(GroupBy(rows, cols)) && NonEmptyGroups(GroupBy(rows, cols))
    ensures KeysOf(GroupBy(rows, cols)) == KeySet(rows, cols)
    ensures forall k :: SizeOf(GroupBy(rows, cols), k) == CountWhere(rows, cols, k)
    ensures forall k :: SumOf(GroupBy(rows, cols), k) == SumWhere(rows, cols, k)
  {
    if rows == [] {
      assert KeysOf([]) == {};
    } else {
      GroupByInvariant(rows[1..], cols);
      AddRowSpec(GroupBy(rows[1..], cols), KeyOf(cols, rows[0]), rows[0].cnt);
    }
  }

  /** In a strictly sorted output the row at position i is the one SizeOf and SumOf find. */
  lemma {:induction false} SortedLookup(gs: seq<Group>, i: nat)
    requires StrictlySorted(gs) && i < |gs|
    ensures SizeOf(gs, gs[i].key) == gs[i].size && SumOf(gs, gs[i].key) == gs[i].sum
  {
    if i > 0 {
      SortedTail(gs);
      assert gs[0].key != gs[i].key by { LexLessIrreflexive(gs[i].key); }
      SortedLookup(gs[1..], i - 1);
    }
  }

  /** The grouped mean: one row per occurring key and none for any other, keys strictly
      ascending (so no key twice), and each row's size, sum and mean those of the rows
      with that key. */
  lemma GroupByCorrect(rows: seq<Record>, cols: seq<Column>)
    ensures StrictlySorted(GroupBy(rows, cols))
    ensures KeysOf(GroupBy(rows, cols)) == KeySet(rows, cols)
    ensures forall i :: 0 <= i < |GroupBy(rows, cols)| ==>
      var g := GroupBy(rows, cols)[i];
      && g.size == CountWhere(rows, cols, g.key) > 0
      && g.sum == SumWhere(rows, cols, g.key)
      && Mean(g) == GroupMean(rows, cols, g.key)
  {
    var gs := GroupBy(rows, cols);
    GroupByInvariant(rows, cols);
    forall i | 0 <= i < |gs|
      ensures gs[i].size == CountWhere(rows, cols, gs[i].key) && gs[i].sum == SumWhere(rows, cols, gs[i].key)
    {
      SortedLookup(gs, i);
    }
  }

  /** A key occurs in the rows exactly when some row has that key. */
  lemma {:induction false} KeySetMeaning(rows: seq<Record>, cols: seq<Column>, k: seq<int>)
    ensures k in KeySet(rows, cols) <==> exists i :: 0 <= i < |rows| && KeyOf(cols, rows[i]) == k
  {
    if rows != [] {
      KeySetMeaning(rows[1..], cols, k);
      if k in KeySet(rows[1..], cols) {
        var i :| 0 <= i < |rows[1..]| && KeyOf(cols, rows[1..][i]) == k;
        assert KeyOf(cols, rows[i + 1]) == k;
      }
      if exists i :: 0 <= i < |rows| && KeyOf(cols, rows[i]) == k {
        var i :| 0 <= i < |rows| && KeyOf(cols, rows[i]) == k;
        if i > 0 {
          assert KeyOf(cols, rows[1..][i - 1]) == k;
        }
      }
    }
  }

  function TotalSize(gs: seq<Group>): nat
  {
    if gs == [] then 0 else gs[0].size + TotalSize(gs[1..])
  }

  lemma {:induction false} AddRowTotalSize(gs: seq<Group>, k: seq<int>, v: int)
    ensures TotalSize(AddRow(gs, k, v)) == TotalSize(gs) + 1
  {
    if gs != [] && gs[0].key != k && !LexLess(k, gs[0].key) {
      AddRowTotalSize(gs[1..], k, v);
      assert AddRow(gs, k, v)[1..] == AddRow(gs[1..], k, v);
    } else if gs != [] {
      assert AddRow(gs, k, v)[1..] == if gs[0].key == k then gs[1..] else gs;
    }
  }

  /** Every row lands in exactly one group: the group sizes add up to the row count. */
  lemma {:induction false} GroupSizesPartition(rows: seq<Record>, cols: seq<Column>)
    ensures TotalSize(GroupBy(rows, cols)) == |rows|
  {
    if rows != [] {
      GroupSizesPartition(rows[1..], cols);
      AddRowTotalSize(GroupBy(rows[1..], cols), KeyOf(cols, rows[0]), rows[0].cnt);
    }
  }

  /** Every output row's key is the key of some input row. */
  lemma GroupKeysOccur(rows: seq<Record>, cols: seq<Column>)
    ensures forall i :: 0 <= i < |GroupBy(rows, cols)| ==>
      exists j :: 0 <= j < |rows| && GroupBy(rows, cols)[i].key == KeyOf(cols, rows[j])
  {
    var gs := GroupBy(rows, cols);
    GroupByInvariant(rows, cols);
    forall i | 0 <= i < |gs|
      ensures exists j :: 0 <= j < |rows| && gs[i].key == KeyOf(cols, rows[j])
    {
      assert gs[i] in gs;
      assert gs[i].key in KeysOf(gs);
      KeySetMeaning(rows, cols, gs[i].key);
    }
  }

  /** Every input row's key has an output row. */
  lemma RowKeysGrouped(rows: seq<Record>, cols: seq<Column>)
    ensures forall j :: 0 <= j < |rows| ==>
      exists i :: 0 <= i < |GroupBy(rows, cols)| && GroupBy(rows, cols)[i].key == KeyOf(cols, rows[j])
  {
    var gs := GroupBy(rows, cols);
    GroupByInvariant(rows, cols);
    forall j | 0 <= j < |rows|
      ensures exists i :: 0 <= i < |gs| && gs[i].key == KeyOf(cols, rows[j])
    {
      var k := KeyOf(cols, rows[j]);
      KeySetMeaning(rows, cols, k);
      assert k in KeysOf(gs);
      var g :| g in gs && g.key == k;
      var i :| 0 <= i < |gs| && gs[i] == g;
    }
  }
}
