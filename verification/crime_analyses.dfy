/** The descriptive analyses of chicago_crime_analysis.py: the theft table by
    description, the homicide table by (district, description), the crime-type
    frequency table and the per-district theft and theft-arrest tables. Each is
    the table the script hands to its plotting calls; the plots are not modelled. */
module CrimeAnalyses {
  import opened Wrappers
  import opened Sequences
  import opened CountTables
  import opened CrimeRecords

  function RowCount<K>(x: Row<K>): real { x.count as real }

  // ---------------------------------------------------------------------------
  // chicago_theft_crimes_and_arrests

  function TheftCount(p: Pair<string>): real { p.left as real }

  /** Rows dropped from the bottom of the sorted theft table (`iloc[:-3]`). */
  const DroppedTheftRows: nat := 3

  function Thefts(df: seq<Record>): seq<Record> { Where(df, IsTheft) }
  function ArrestedThefts(df: seq<Record>): seq<Record> { Where(Thefts(df), Arrested) }

  /** `Theft_count` per description and `arrest_count` per description, inner-merged. */
  function TheftJoin(df: seq<Record>): seq<Pair<string>>
  {
    InnerJoin(CountBy(Thefts(df), Description), CountBy(ArrestedThefts(df), Description))
  }

  /** The inner merge holds exactly the theft descriptions with at least one
      arrest, each with its theft count and its arrest count. */
  lemma TheftJoinRows(df: seq<Record>, p: Pair<string>)
    ensures p in TheftJoin(df) <==>
      && p.left == Occurrences(Thefts(df), Description, p.key)
      && p.right == Occurrences(ArrestedThefts(df), Description, p.key)
      && p.right > 0
    ensures p in TheftJoin(df) ==> p.right <= p.left
  {
    var l := CountBy(Thefts(df), Description);
    var r := CountBy(ArrestedThefts(df), Description);
    var j := TheftJoin(df);
    OccurrencesOfSelection(Thefts(df), Arrested, Description, p.key);
    CountByRows(Thefts(df), Description, Row(p.key, p.left));
    if p in j {
      var i :| 0 <= i < |j| && j[i] == p;
      assert Row(p.key, p.left) in l && p.key in KeySet(r);
    }
    if p.left == Occurrences(Thefts(df), Description, p.key) && p.right == Occurrences(ArrestedThefts(df), Description, p.key) && p.right > 0 {
      assert Row(p.key, p.left) in l;
      var i :| 0 <= i < |l| && l[i] == Row(p.key, p.left);
      assert l[i].key in KeySet(r);
    }
  }

  /** The inner merge lists each description once, and has one row per
      description with an arrested theft. */
  lemma TheftJoinKeys(df: seq<Record>)
    ensures forall a, b :: 0 <= a < b < |TheftJoin(df)| ==> TheftJoin(df)[a].key != TheftJoin(df)[b].key
    ensures |TheftJoin(df)| == |CountBy(ArrestedThefts(df), Description)|
  {
    var l := CountBy(Thefts(df), Description);
    var r := CountBy(ArrestedThefts(df), Description);
    InnerJoinSize(l, r);
    KeySetSize(r);
    forall k | k in KeySet(r)
      ensures k in KeySet(l)
    {
      OccurrencesOfSelection(Thefts(df), Arrested, Description, k);
    }
    assert KeySet(l) * KeySet(r) == KeySet(r);
  }

  /** The facts a row of the theft table carries: the description's theft
      count and its nonzero arrest count, which never exceeds it. */
  ghost predicate TheftRowFacts(df: seq<Record>, p: Pair<string>)
  {
    && p.left == Occurrences(Thefts(df), Description, p.key)
    && p.right == Occurrences(ArrestedThefts(df), Description, p.key)
    && 0 < p.right <= p.left
  }

  /** A description's counts fix its row: two different rows carrying their
      counts are rows of different descriptions. */
  lemma TheftRowKey(df: seq<Record>, p: Pair<string>, q: Pair<string>)
    requires TheftRowFacts(df, p) && TheftRowFacts(df, q) && p != q
    ensures p.key != q.key
  {
  }

  /** Sorting the merged table keeps every row's counts. */
  lemma SortedTheftJoinRows(df: seq<Record>)
    ensures forall p :: p in SortValues(TheftJoin(df), TheftCount, false) ==> TheftRowFacts(df, p)
  {
    var j := TheftJoin(df);
    SortValuesPermutes(j, TheftCount, false);
    forall p | p in SortValues(j, TheftCount, false)
      ensures TheftRowFacts(df, p)
    {
      assert p in multiset(j);
      TheftJoinRows(df, p);
    }
  }

  /** Sorting the merged table keeps each description to one row: no two
      positions of the sorted table hold the same description. */
  lemma SortedTheftJoinKeys(df: seq<Record>, a: nat, b: nat)
    requires a < b < |SortValues(TheftJoin(df), TheftCount, false)|
    ensures var sorted := SortValues(TheftJoin(df), TheftCount, false);
      sorted[a].key != sorted[b].key
  {
    var j := TheftJoin(df);
    var sorted := SortValues(j, TheftCount, false);
    assert sorted[a] != sorted[b] by {
      assert forall x, y :: 0 <= x < y < |j| ==> j[x] != j[y] by {
        TheftJoinKeys(df);
      }
      SortValuesPermutes(j, TheftCount, false);
      PermutationNoRepeat(j, sorted);
    }
    assert TheftRowFacts(df, sorted[a]) && TheftRowFacts(df, sorted[b]) by {
      SortedTheftJoinRows(df);
    }
    TheftRowKey(df, sorted[a], sorted[b]);
  }

  /** The sorted merge less its last three rows holds each description once. */
  lemma KeptTheftRowsKeys(df: seq<Record>)
    ensures var t := DropLast(SortValues(TheftJoin(df), TheftCount, false), DroppedTheftRows);
      forall a, b :: 0 <= a < b < |t| ==> t[a].key != t[b].key
  {
    var sorted := SortValues(TheftJoin(df), TheftCount, false);
    var t := DropLast(sorted, DroppedTheftRows);
    forall a, b | 0 <= a < b < |t|
      ensures t[a].key != t[b].key
    {
      assert t[a] == sorted[a] && t[b] == sorted[b];
      SortedTheftJoinKeys(df, a, b);
    }
  }

  /** The sorted merge less its last three rows holds no row more often than
      the merge does. */
  lemma KeptTheftRowsFromMerge(df: seq<Record>)
    ensures var t := DropLast(SortValues(TheftJoin(df), TheftCount, false), DroppedTheftRows);
      multiset(t) <= multiset(TheftJoin(df))
  {
    var sorted := SortValues(TheftJoin(df), TheftCount, false);
    PrefixSubmultiset(sorted, DropLast(sorted, DroppedTheftRows));
    SortValuesPermutes(TheftJoin(df), TheftCount, false);
  }

  /** The sorted merge less its last three rows is ordered by theft count and
      carries every row's counts. */
  lemma KeptTheftRows(df: seq<Record>)
    ensures var t := DropLast(SortValues(TheftJoin(df), TheftCount, false), DroppedTheftRows);
      && Ordered(t, TheftCount, false)
      && forall i :: 0 <= i < |t| ==> TheftRowFacts(df, t[i])
  {
    var sorted := SortValues(TheftJoin(df), TheftCount, false);
    var t := DropLast(sorted, DroppedTheftRows);
    PrefixOrdered(sorted, t, TheftCount, false);
    assert forall i :: 0 <= i < |t| ==> TheftRowFacts(df, t[i]) by {
      SortedTheftJoinRows(df);
      assert forall i :: 0 <= i < |t| ==> sorted[i] in sorted;
    }
  }

  /** The merged table sorted by `Theft_count`, largest first, without its last
      three rows: one row per description with an arrested theft, three fewer
      (never fewer than none), each description once, each row carrying its
      theft and arrest counts and drawn from the merged table. */
  function TheftDescriptionTable(df: seq<Record>): (t: seq<Pair<string>>)
    ensures var n := |CountBy(ArrestedThefts(df), Description)|;
      |t| == if n <= DroppedTheftRows then 0 else n - DroppedTheftRows
    ensures Ordered(t, TheftCount, false)
    ensures forall i :: 0 <= i < |t| ==> TheftRowFacts(df, t[i])
    ensures forall a, b :: 0 <= a < b < |t| ==> t[a].key != t[b].key
    ensures multiset(t) <= multiset(TheftJoin(df))
  {
    TheftJoinKeys(df);
    KeptTheftRowsKeys(df);
    KeptTheftRowsFromMerge(df);
    KeptTheftRows(df);
    DropLast(SortValues(TheftJoin(df), TheftCount, false), DroppedTheftRows)
  }

  /** The three rows dropped are the least frequent: none has a larger theft
      count than a row that is kept. */
  lemma TheftDescriptionTableDropsLeastFrequent(df: seq<Record>)
    ensures var sorted := SortValues(TheftJoin(df), TheftCount, false);
      var t := TheftDescriptionTable(df);
      forall i, k :: 0 <= i < |t| <= k < |sorted| ==> sorted[k].left <= t[i].left
  {
    var sorted := SortValues(TheftJoin(df), TheftCount, false);
    var t := DropLast(sorted, DroppedTheftRows);
    forall i, k | 0 <= i < |t| <= k < |sorted|
      ensures sorted[k].left <= t[i].left
    {
      assert t[i] == sorted[i];
      assert InOrder(sorted[i], sorted[k], TheftCount, false);
    }
  }

  // ---------------------------------------------------------------------------
  // chicago_homicide_crimes_and_arrests_by_district

  function Homicides(df: seq<Record>): seq<Record> { Where(df, IsHomicide) }
  function ArrestedHomicides(df: seq<Record>): seq<Record> { Where(Homicides(df), Arrested) }

  /** `crime_count` per (district, description), sorted ascending. */
  function HomicideCounts(df: seq<Record>): Table<(int, string)>
  {
    SortValues(CountBy(Homicides(df), DistrictDescription), RowCount, true)
  }

  /** `arrest_count` per (district, description), sorted ascending. */
  function HomicideArrestCounts(df: seq<Record>): Table<(int, string)>
  {
    SortValues(CountBy(ArrestedHomicides(df), DistrictDescription), RowCount, true)
  }

  function MergedDistrict(m: Merged<(int, string)>): real { m.key.0 as real }

  /** Every (district, description) with an arrested homicide has a homicide. */
  lemma HomicideArrestKeysAreCrimeKeys(df: seq<Record>)
    ensures KeySet(HomicideArrestCounts(df)) <= KeySet(HomicideCounts(df))
  {
    SortValuesPermutes(CountBy(ArrestedHomicides(df), DistrictDescription), RowCount, true);
    SortValuesPermutes(CountBy(Homicides(df), DistrictDescription), RowCount, true);
    KeySetOfPermutation(HomicideArrestCounts(df), CountBy(ArrestedHomicides(df), DistrictDescription));
    KeySetOfPermutation(HomicideCounts(df), CountBy(Homicides(df), DistrictDescription));
    forall k | k in KeySet(HomicideArrestCounts(df))
      ensures k in KeySet(HomicideCounts(df))
    {
      OccurrencesOfSelection(Homicides(df), Arrested, DistrictDescription, k);
    }
  }

  /** The arrest side of a merged row: the arrest count when there is one,
      None (pandas' NaN) when the pair has no arrested homicide. */
  lemma HomicideArrestGet(df: seq<Record>, k: (int, string))
    ensures var a := Occurrences(ArrestedHomicides(df), DistrictDescription, k);
      Get(HomicideArrestCounts(df), k) == if a > 0 then Some(a) else None
  {
    var r := HomicideArrestCounts(df);
    var c := CountBy(ArrestedHomicides(df), DistrictDescription);
    SortValuesPermutes(c, RowCount, true);
    KeySetOfPermutation(r, c);
    if k in KeySet(r) {
      LookupRow(r, k);
      assert Row(k, Lookup(r, k)) in multiset(c);
      CountByRows(ArrestedHomicides(df), DistrictDescription, Row(k, Lookup(r, k)));
    }
  }

  /** The facts a row of the homicide table carries: the key has a homicide,
      the crime side is its homicide count, the arrest side its arrest count or
      None when it has none, and arrests never exceed homicides. */
  ghost predicate HomicideRowFacts(df: seq<Record>, m: Merged<(int, string)>)
  {
    var h := Occurrences(Homicides(df), DistrictDescription, m.key);
    var a := Occurrences(ArrestedHomicides(df), DistrictDescription, m.key);
    && h > 0
    && m.left == Some(h)
    && m.right == (if a > 0 then Some(a) else None)
    && a <= h
  }

  /** The outer merge adds no row to the crime-count table: row for row it is
      that table with the arrest side attached. */
  lemma HomicideMergeRows(df: seq<Record>)
    ensures var l := HomicideCounts(df);
      var j := OuterJoin(l, HomicideArrestCounts(df));
      && |j| == |l|
      && forall i :: 0 <= i < |j| ==> j[i].key == l[i].key && HomicideRowFacts(df, j[i])
  {
    var l := HomicideCounts(df);
    var r := HomicideArrestCounts(df);
    var j := OuterJoin(l, r);
    HomicideArrestKeysAreCrimeKeys(df);
    OuterJoinOfSubset(l, r);
    SortValuesPermutes(CountBy(Homicides(df), DistrictDescription), RowCount, true);
    forall i | 0 <= i < |j|
      ensures j[i].key == l[i].key && HomicideRowFacts(df, j[i])
    {
      assert l[i] in multiset(CountBy(Homicides(df), DistrictDescription));
      CountByRows(Homicides(df), DistrictDescription, l[i]);
      HomicideArrestGet(df, l[i].key);
      OccurrencesOfSelection(Homicides(df), Arrested, DistrictDescription, l[i].key);
    }
  }

  /** The two tables outer-merged on (district, description), sorted by
      district: one row per (district, description) that has a homicide, each
      carrying its homicide and arrest counts. */
  function HomicideTable(df: seq<Record>): (t: seq<Merged<(int, string)>>)
    ensures |t| == |CountBy(Homicides(df), DistrictDescription)|
    ensures Ordered(t, MergedDistrict, true)
    ensures forall i :: 0 <= i < |t| ==> HomicideRowFacts(df, t[i])
  {
    var j := OuterJoin(HomicideCounts(df), HomicideArrestCounts(df));
    var t := SortValues(j, MergedDistrict, true);
    HomicideMergeRows(df);
    assert forall i :: 0 <= i < |t| ==> HomicideRowFacts(df, t[i]) by {
      SortValuesPermutes(j, MergedDistrict, true);
      forall i | 0 <= i < |t|
        ensures HomicideRowFacts(df, t[i])
      {
        assert t[i] in multiset(j);
      }
    }
    t
  }

  /** Every (district, description) that has a homicide has a row in the
      sorted homicide-count table, holding its number of homicides. */
  lemma HomicideCountRow(df: seq<Record>, k: (int, string)) returns (i: nat)
    requires Occurrences(Homicides(df), DistrictDescription, k) > 0
    ensures i < |HomicideCounts(df)|
    ensures HomicideCounts(df)[i] == Row(k, Occurrences(Homicides(df), DistrictDescription, k))
  {
    var c := CountBy(Homicides(df), DistrictDescription);
    var x := Row(k, Occurrences(Homicides(df), DistrictDescription, k));
    SortValuesPermutes(c, RowCount, true);
    CountByRows(Homicides(df), DistrictDescription, x);
    assert x in multiset(HomicideCounts(df));
    i :| 0 <= i < |HomicideCounts(df)| && HomicideCounts(df)[i] == x;
  }

  /** The outer merge has a row for every (district, description) that has a
      homicide, carrying its homicide count and its arrest count (None when
      it has no arrested homicide). */
  lemma HomicideMergeHasKey(df: seq<Record>, k: (int, string)) returns (m: Merged<(int, string)>)
    requires Occurrences(Homicides(df), DistrictDescription, k) > 0
    ensures m in OuterJoin(HomicideCounts(df), HomicideArrestCounts(df))
    ensures var a := Occurrences(ArrestedHomicides(df), DistrictDescription, k);
      m == Merged(k, Some(Occurrences(Homicides(df), DistrictDescription, k)), if a > 0 then Some(a) else None)
  {
    var j := OuterJoin(HomicideCounts(df), HomicideArrestCounts(df));
    var i := HomicideCountRow(df, k);
    HomicideMergeRows(df);
    assert j[i].key == k && HomicideRowFacts(df, j[i]);
    m := j[i];
  }

  /** No (district, description) that has a homicide is lost by the merge. */
  lemma HomicideTableComplete(df: seq<Record>, k: (int, string))
    requires Occurrences(Homicides(df), DistrictDescription, k) > 0
    ensures var a := Occurrences(ArrestedHomicides(df), DistrictDescription, k);
      Merged(k, Some(Occurrences(Homicides(df), DistrictDescription, k)), if a > 0 then Some(a) else None) in HomicideTable(df)
  {
    var j := OuterJoin(HomicideCounts(df), HomicideArrestCounts(df));
    var m := HomicideMergeHasKey(df, k);
    SortValuesPermutes(j, MergedDistrict, true);
    assert m in multiset(SortValues(j, MergedDistrict, true));
  }

  // ---------------------------------------------------------------------------
  // chicago_crime_type_count

  /** `df.crime_type.value_counts()`: exactly the crime types that occur, each
      with its number of records, from most to least frequent; the counts add
      up to the number of records. */
  function ValueCounts(df: seq<Record>): (t: Table<string>)
    ensures Ordered(t, RowCount, false)
    ensures forall x :: x in t <==> x.count == Occurrences(df, CrimeType, x.key) > 0
    ensures Total(t) == |df|
  {
    var c := CountBy(df, CrimeType);
    var t := SortValues(c, RowCount, false);
    SortValuesPermutes(c, RowCount, false);
    assert forall x :: x in t <==> x.count == Occurrences(df, CrimeType, x.key) > 0 by {
      forall x
        ensures x in t <==> x.count == Occurrences(df, CrimeType, x.key) > 0
      {
        CountByRows(df, CrimeType, x);
        assert x in t <==> x in multiset(c);
      }
    }
    TotalOfPermutation(t, c);
    t
  }

  /** The `counter` column of ones summed per crime type, most frequent first:
      the same table `value_counts` gives. */
  function CrimeTypeCount(df: seq<Record>): (t: Table<string>)
    ensures t == ValueCounts(df)
  {
    CounterSumIsCount(df, CrimeType);
    SortValues(CounterSum(df, CrimeType), RowCount, false)
  }

  // ---------------------------------------------------------------------------
  // number_of_thefts_per_district, number_of_arrests_for_theft_crime_by_district

  /** Dropping district 31 again leaves every other district's thefts alone. */
  lemma DistrictThefts(df: seq<Record>, d: int)
    requires d != ExcludedDistrict
    ensures Occurrences(Where(DropExcludedDistrict(df), IsTheft), District, d) == Occurrences(Thefts(df), District, d)
  {
    WhereWhere(df, InPoliceDistrict, IsTheft, x => InPoliceDistrict(x) && IsTheft(x));
    WhereWhere(df, IsTheft, InPoliceDistrict, x => InPoliceDistrict(x) && IsTheft(x));
    OccurrencesOfFullSelection(Thefts(df), InPoliceDistrict, District, d);
  }

  /** Dropping district 31 again leaves every other district's arrested thefts alone. */
  lemma DistrictTheftArrests(df: seq<Record>, d: int)
    requires d != ExcludedDistrict
    ensures Occurrences(Where(DropExcludedDistrict(df), IsTheftArrest), District, d) == Occurrences(ArrestedThefts(df), District, d)
  {
    WhereWhere(df, InPoliceDistrict, IsTheftArrest, x => InPoliceDistrict(x) && IsTheftArrest(x));
    WhereWhere(df, IsTheft, Arrested, IsTheftArrest);
    WhereWhere(df, IsTheftArrest, InPoliceDistrict, x => InPoliceDistrict(x) && IsTheftArrest(x));
    OccurrencesOfFullSelection(ArrestedThefts(df), InPoliceDistrict, District, d);
  }

  /** Thefts per district, after dropping district 31 again: every other
      district keeps all its thefts, and district 31 has no row. */
  function TheftsPerDistrict(df: seq<Record>): (t: Table<int>)
    ensures DistinctKeys(t)
    ensures forall d :: d != ExcludedDistrict ==> Lookup(t, d) == Occurrences(Thefts(df), District, d)
    ensures forall d :: d in KeySet(t) <==> d != ExcludedDistrict && Occurrences(Thefts(df), District, d) > 0
  {
    var f := Where(DropExcludedDistrict(df), IsTheft);
    assert forall d :: d != ExcludedDistrict ==> Occurrences(f, District, d) == Occurrences(Thefts(df), District, d) by {
      forall d | d != ExcludedDistrict {
        DistrictThefts(df, d);
      }
    }
    OccurrencesOfAbsentKey(f, District, ExcludedDistrict);
    CountBy(f, District)
  }

  /** Arrested thefts per district, after dropping district 31 again: every
      other district keeps all its arrested thefts, and district 31 has no row. */
  function TheftArrestsPerDistrict(df: seq<Record>): (t: Table<int>)
    ensures DistinctKeys(t)
    ensures forall d :: d != ExcludedDistrict ==> Lookup(t, d) == Occurrences(ArrestedThefts(df), District, d)
    ensures forall d :: d in KeySet(t) <==> d != ExcludedDistrict && Occurrences(ArrestedThefts(df), District, d) > 0
  {
    var f := Where(DropExcludedDistrict(df), IsTheftArrest);
    assert forall d :: d != ExcludedDistrict ==> Occurrences(f, District, d) == Occurrences(ArrestedThefts(df), District, d) by {
      forall d | d != ExcludedDistrict {
        DistrictTheftArrests(df, d);
      }
    }
    OccurrencesOfAbsentKey(f, District, ExcludedDistrict);
    CountBy(f, District)
  }

  /** Arrested thefts are thefts: in every district the arrest count is at
      most the theft count ... */
  lemma TheftArrestsAtMostTheftsIn(df: seq<Record>, d: int)
    ensures Lookup(TheftArrestsPerDistrict(df), d) <= Lookup(TheftsPerDistrict(df), d)
  {
    var f := DropExcludedDistrict(df);
    WhereWhere(f, IsTheft, Arrested, IsTheftArrest);
    OccurrencesOfSelection(Where(f, IsTheft), Arrested, District, d);
  }

  /** ... and a district with an arrested theft has a theft row. */
  lemma TheftArrestsAtMostThefts(df: seq<Record>)
    ensures forall d :: Lookup(TheftArrestsPerDistrict(df), d) <= Lookup(TheftsPerDistrict(df), d)
    ensures KeySet(TheftArrestsPerDistrict(df)) <= KeySet(TheftsPerDistrict(df))
  {
    forall d
      ensures Lookup(TheftArrestsPerDistrict(df), d) <= Lookup(TheftsPerDistrict(df), d)
    {
      TheftArrestsAtMostTheftsIn(df, d);
    }
  }
}
