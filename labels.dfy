/** The code-to-label dictionaries applied to the key column of the weather and holiday
    aggregates with `Series.map`. */
module Labels {
  import opened Wrappers
  import opened GroupMeans

  const WeatherLabels: map<int, string> := map[1 := "Clear", 2 := "Cloudy", 3 := "Rain/Snow"]

  const HolidayLabels: map<int, string> := map[0 := "Working Day", 1 := "Holiday"]

  /** `Series.map(dict)` on one code: its label, or a missing value when the dictionary
      has no entry (pandas does not raise). */
  function MapCode(m: map<int, string>, code: int): Option<string>
  {
    if code in m then Some(m[code]) else None
  }

  lemma WeatherLabelSpec(code: int)
    ensures MapCode(WeatherLabels, code) ==
      if code == 1 then Some("Clear")
      else if code == 2 then Some("Cloudy")
      else if code == 3 then Some("Rain/Snow")
      else None
  {
  }

  lemma HolidayLabelSpec(code: int)
    ensures MapCode(HolidayLabels, code) ==
      if code == 0 then Some("Working Day")
      else if code == 1 then Some("Holiday")
      else None
  {
  }

  /** No two codes share a label. */
  predicate Injective(m: map<int, string>)
  {
    forall a, b :: a in m && b in m && a != b ==> m[a] != m[b]
  }

  lemma LabelMapsInjective()
    ensures Injective(WeatherLabels) && Injective(HolidayLabels)
  {
  }

  /** An aggregate row after the key column has been replaced by its label. */
  datatype LabelledGroup = LabelledGroup(keyLabel: Option<string>, sum: int, size: nat)

  /** `stats[col] = stats[col].map(m)` on a one-column aggregate: every row keeps its sum
      and size, its key becomes the key's label. */
  function LabelGroups(gs: seq<Group>, m: map<int, string>): (r: seq<LabelledGroup>)
    requires forall i :: 0 <= i < |gs| ==> |gs[i].key| == 1
    ensures |r| == |gs|
  {
    if gs == [] then []
    else [LabelledGroup(MapCode(m, gs[0].key[0]), gs[0].sum, gs[0].size)] + LabelGroups(gs[1..], m)
  }

  lemma {:induction false} LabelGroupsSpec(gs: seq<Group>, m: map<int, string>)
    requires forall i :: 0 <= i < |gs| ==> |gs[i].key| == 1
    ensures forall i :: 0 <= i < |gs| ==>
      LabelGroups(gs, m)[i] == LabelledGroup(MapCode(m, gs[i].key[0]), gs[i].sum, gs[i].size)
  {
    if gs != [] {
      LabelGroupsSpec(gs[1..], m);
    }
  }

  /** When the keys are distinct and every one of them has a label, no two labelled rows
      carry the same label. */
  lemma LabelsDistinct(gs: seq<Group>, m: map<int, string>)
    requires forall i :: 0 <= i < |gs| ==> |gs[i].key| == 1 && gs[i].key[0] in m
    requires StrictlySorted(gs) && Injective(m)
    ensures forall i, j :: 0 <= i < j < |gs| ==> LabelGroups(gs, m)[i].keyLabel != LabelGroups(gs, m)[j].keyLabel
  {
    LabelGroupsSpec(gs, m);
    forall i, j | 0 <= i < j < |gs| ensures gs[i].key[0] != gs[j].key[0] {
      assert gs[i].key == [gs[i].key[0]] && gs[j].key == [gs[j].key[0]];
      LexLessSingle(gs[i].key[0], gs[j].key[0]);
    }
  }
}
