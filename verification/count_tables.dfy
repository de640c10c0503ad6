/** Group-by count tables and the merges that join them: pandas
    `groupby(key).agg(count)`, `groupby(key)[col].sum()` and
    `DataFrame.merge(..., on = key, how = 'inner' | 'outer')`, over tables whose
    keys are unique (every table the analysis merges comes out of a group-by). */
module CountTables {
  import opened Wrappers
  import opened Sequences

  /** One row of a count table: a group key and the number aggregated for it. */
  datatype Row<K> = Row(key: K, count: nat)

  type Table<K> = seq<Row<K>>

  /** The count of the first row with key `k`; 0 when the key is absent. */
  function Lookup<K(==)>(t: Table<K>, k: K): nat
  {
    if t == [] then 0
    else if t[0].key == k then t[0].count
    else Lookup(t[1..], k)
  }

  /** The set of keys that have a row. */
  function KeySet<K(==)>(t: Table<K>): set<K>
  {
    if t == [] then {} else {t[0].key} + KeySet(t[1..])
  }

  /** The count a pandas lookup would see: NaN (None) for a missing key. */
  function Get<K(==)>(t: Table<K>, k: K): Option<nat>
  {
    if k in KeySet(t) then Some(Lookup(t, k)) else None
  }

  predicate DistinctKeys<K(==)>(t: Table<K>)
  {
    t == [] || (t[0].key !in KeySet(t[1..]) && DistinctKeys(t[1..]))
  }

  predicate Positive<K>(t: Table<K>)
  {
    forall i :: 0 <= i < |t| ==> t[i].count > 0
  }

  /** The sum of the count column. */
  function Total<K>(t: Table<K>): nat
  {
    if t == [] then 0 else t[0].count + Total(t[1..])
  }

  /** Reference definition of a group count: how many rows of `s` have key `k`. */
  function Occurrences<T, K(==)>(s: seq<T>, key: T -> K, k: K): nat
    decreases |s|
  {
    if s == [] then 0
    else Occurrences(s[..|s| - 1], key, k) + (if key(s[|s| - 1]) == k then 1 else 0)
  }

  /** Reference definition of a group sum: the total weight of the rows of `s` with key `k`. */
  function Weight<T, K(==)>(s: seq<T>, key: T -> K, weight: T -> nat, k: K): nat
    decreases |s|
  {
    if s == [] then 0
    else Weight(s[..|s| - 1], key, weight, k) + (if key(s[|s| - 1]) == k then weight(s[|s| - 1]) else 0)
  }

  /** Selecting rows never raises a group's count. */
  lemma {:induction false} OccurrencesOfSelection<T, K>(s: seq<T>, p: T -> bool, key: T -> K, k: K)
    ensures Occurrences(Where(s, p), key, k) <= Occurrences(s, key, k)
    decreases |s|
  {
    if s != [] {
      var init := s[..|s| - 1];
      var last := s[|s| - 1];
      OccurrencesOfSelection(init, p, key, k);
      var w := Where(s, p);
      assert w == Where(init, p) + (if p(last) then [last] else []);
      if p(last) {
        assert w[..|w| - 1] == Where(init, p);
        assert w[|w| - 1] == last;
        assert Occurrences(w, key, k) == Occurrences(Where(init, p), key, k) + (if key(last) == k then 1 else 0);
      } else {
        assert w == Where(init, p);
      }
    }
  }

  /** A group never has more rows than the whole sequence. */
  lemma {:induction false} OccurrencesBound<T, K>(s: seq<T>, key: T -> K, k: K)
    ensures Occurrences(s, key, k) <= |s|
    decreases |s|
  {
    if s != [] {
      OccurrencesBound(s[..|s| - 1], key, k);
    }
  }

  /** Selecting rows keeps a group's count when every row of that group is selected. */
  lemma {:induction false} OccurrencesOfFullSelection<T, K>(s: seq<T>, p: T -> bool, key: T -> K, k: K)
    requires forall x :: key(x) == k ==> p(x)
    ensures Occurrences(Where(s, p), key, k) == Occurrences(s, key, k)
    decreases |s|
  {
    if s != [] {
      var init := s[..|s| - 1];
      var last := s[|s| - 1];
      OccurrencesOfFullSelection(init, p, key, k);
      var w := Where(s, p);
      assert w == Where(init, p) + (if p(last) then [last] else []);
      if p(last) {
        assert w[..|w| - 1] == Where(init, p);
        assert w[|w| - 1] == last;
      } else {
        assert w == Where(init, p);
      }
    }
  }

  /** A key that no row carries has no occurrences. */
  lemma {:induction false} OccurrencesOfAbsentKey<T, K>(s: seq<T>, key: T -> K, k: K)
    requires forall i :: 0 <= i < |s| ==> key(s[i]) != k
    ensures Occurrences(s, key, k) == 0
    decreases |s|
  {
    if s != [] {
      OccurrencesOfAbsentKey(s[..|s| - 1], key, k);
    }
  }

  /** Removing the row at `i` takes its count off the total. */
  lemma {:induction false} TotalRemove<K>(b: Table<K>, i: nat)
    requires i < |b|
    ensures Total(b) == b[i].count + Total(b[..i] + b[i + 1..])
    decreases i
  {
    var rest := b[..i] + b[i + 1..];
    if i == 0 {
      assert rest == b[1..];
    } else {
      TotalRemove(b[1..], i - 1);
      assert rest[0] == b[0];
      assert rest[1..] == b[1..][..i - 1] + b[1..][i..];
    }
  }

  lemma MultisetRemove<T>(b: seq<T>, i: nat)
    requires i < |b|
    ensures multiset(b[..i] + b[i + 1..]) == multiset(b) - multiset{b[i]}
  {
    assert b == b[..i] + [b[i]] + b[i + 1..];
  }

  /** Taking the first row off one side of a permutation and a copy of it off
      the other leaves a permutation. */
  lemma PermutationRemove<T>(a: seq<T>, b: seq<T>, i: nat)
    requires multiset(a) == multiset(b) && |a| > 0 && i < |b| && b[i] == a[0]
    ensures multiset(a[1..]) == multiset(b[..i] + b[i + 1..])
  {
    calc {
      multiset(a[1..]);
      { assert a[..0] + a[1..] == a[1..]; }
      multiset(a[..0] + a[1..]);
      { MultisetRemove(a, 0); }
      multiset(a) - multiset{a[0]};
      multiset(b) - multiset{b[i]};
      { MultisetRemove(b, i); }
      multiset(b[..i] + b[i + 1..]);
    }
  }

  lemma FirstRowIn<T>(a: seq<T>, b: seq<T>) returns (i: nat)
    requires multiset(a) == multiset(b) && |a| > 0
    ensures i < |b| && b[i] == a[0]
  {
    assert a[0] in multiset(a);
    assert a[0] in b;
    i :| 0 <= i < |b| && b[i] == a[0];
  }

  /** Reordering the rows of a table leaves the sum of its count column unchanged. */
  lemma {:induction false} TotalOfPermutation<K>(a: Table<K>, b: Table<K>)
    requires multiset(a) == multiset(b)
    ensures Total(a) == Total(b)
    decreases |a|
  {
    if a != [] {
      var i := FirstRowIn(a, b);
      PermutationRemove(a, b, i);
      TotalOfPermutation(a[1..], b[..i] + b[i + 1..]);
      TotalRemove(b, i);
    }
  }

  lemma {:induction false} KeyOfRow<K>(t: Table<K>, i: nat)
    requires i < |t|
    ensures t[i].key in KeySet(t)
    decreases i
  {
    if i > 0 {
      KeyOfRow(t[1..], i - 1);
    }
  }

  lemma {:induction false} LookupRow<K>(t: Table<K>, k: K)
    requires k in KeySet(t)
    ensures Row(k, Lookup(t, k)) in t
    decreases |t|
  {
    if t[0].key != k {
      LookupRow(t[1..], k);
    }
  }

  /** In a table with unique keys, the rows are exactly the present keys paired
      with their lookups. */
  lemma {:induction false} RowIffLookup<K>(t: Table<K>, x: Row<K>)
    requires DistinctKeys(t)
    ensures x in t <==> x.key in KeySet(t) && x.count == Lookup(t, x.key)
    decreases |t|
  {
    if t != [] {
      RowIffLookup(t[1..], x);
      if x == t[0] {
      } else if x in t[1..] {
        assert x.key in KeySet(t[1..]) by {
          var i :| 0 <= i < |t[1..]| && t[1..][i] == x;
          KeyOfRow(t[1..], i);
        }
      }
    }
  }

  /** Tables with the same rows in another order have the same keys. */
  lemma KeySetOfPermutation<K>(a: Table<K>, b: Table<K>)
    requires multiset(a) == multiset(b)
    ensures KeySet(a) == KeySet(b)
  {
    forall k | k in KeySet(a)
      ensures k in KeySet(b)
    {
      LookupRow(a, k);
      var x := Row(k, Lookup(a, k));
      assert x in multiset(b);
      var i :| 0 <= i < |b| && b[i] == x;
      KeyOfRow(b, i);
    }
    forall k | k in KeySet(b)
      ensures k in KeySet(a)
    {
      LookupRow(b, k);
      var x := Row(k, Lookup(b, k));
      assert x in multiset(a);
      var i :| 0 <= i < |a| && a[i] == x;
      KeyOfRow(a, i);
    }
  }

  lemma {:induction false} PositiveLookup<K>(t: Table<K>, k: K)
    requires Positive(t)
    ensures k in KeySet(t) <==> Lookup(t, k) > 0
    decreases |t|
  {
    if t != [] {
      PositiveLookup(t[1..], k);
    }
  }

  /** Adds `w` to the row for `k`, appending a new row when `k` has none yet. */
  function Accumulate<K(==,!new)>(t: Table<K>, k: K, w: nat): (r: Table<K>)
    ensures forall k' :: Lookup(r, k') == Lookup(t, k') + (if k' == k then w else 0)
    ensures KeySet(r) == KeySet(t) + {k}
    ensures DistinctKeys(t) ==> DistinctKeys(r)
    ensures Positive(t) && w > 0 ==> Positive(r)
    ensures Total(r) == Total(t) + w
    decreases |t|
  {
    if t == [] then [Row(k, w)]
    else if t[0].key == k then [Row(k, t[0].count + w)] + t[1..]
    else [t[0]] + Accumulate(t[1..], k, w)
  }

  /** `groupby(key).agg(count)`: one row per key that occurs in `s`, holding
      the number of rows with that key. */
  function CountBy<T, K(==,!new)>(s: seq<T>, key: T -> K): (t: Table<K>)
    ensures DistinctKeys(t) && Positive(t)
    ensures forall k :: Lookup(t, k) == Occurrences(s, key, k)
    ensures forall k :: k in KeySet(t) <==> Occurrences(s, key, k) > 0
    ensures Total(t) == |s|
    decreases |s|
  {
    if s == [] then []
    else
      var t := Accumulate(CountBy(s[..|s| - 1], key), key(s[|s| - 1]), 1);
      assert forall k :: k in KeySet(t) <==> Occurrences(s, key, k) > 0 by {
        PositiveLookupAll(t);
      }
      t
  }

  lemma PositiveLookupAll<K>(t: Table<K>)
    requires Positive(t)
    ensures forall k :: k in KeySet(t) <==> Lookup(t, k) > 0
  {
    forall k {
      PositiveLookup(t, k);
    }
  }

  /** The rows of a count table are exactly the occurring keys with their
      number of occurrences. */
  lemma CountByRows<T, K(!new)>(s: seq<T>, key: T -> K, x: Row<K>)
    ensures x in CountBy(s, key) <==> x.count == Occurrences(s, key, x.key) > 0
  {
    RowIffLookup(CountBy(s, key), x);
  }

  /** `groupby(key)[col].sum()`: one row per key that occurs in `s`, holding the
      total weight of that key's rows. */
  function GroupSum<T, K(==,!new)>(s: seq<T>, key: T -> K, weight: T -> nat): (t: Table<K>)
    ensures DistinctKeys(t)
    ensures forall k :: Lookup(t, k) == Weight(s, key, weight, k)
    ensures forall k :: k in KeySet(t) <==> Occurrences(s, key, k) > 0
    decreases |s|
  {
    if s == [] then []
    else Accumulate(GroupSum(s[..|s| - 1], key, weight), key(s[|s| - 1]), weight(s[|s| - 1]))
  }

  /** The `counter` idiom: a column of ones summed per group. */
  function CounterSum<T, K(==,!new)>(s: seq<T>, key: T -> K): (t: Table<K>)
    ensures DistinctKeys(t)
    ensures forall k :: Lookup(t, k) == Occurrences(s, key, k)
    ensures forall k :: k in KeySet(t) <==> Occurrences(s, key, k) > 0
  {
    assert forall k :: Weight(s, key, _ => 1, k) == Occurrences(s, key, k) by {
      forall k {
        UnitWeightIsOccurrences(s, key, _ => 1, k);
      }
    }
    GroupSum(s, key, _ => 1)
  }

  /** Summing a column of ones per group builds the same table as counting
      the group's rows. */
  lemma {:induction false} CounterSumIsCount<T, K(!new)>(s: seq<T>, key: T -> K)
    ensures CounterSum(s, key) == CountBy(s, key)
    decreases |s|
  {
    if s != [] {
      CounterSumIsCount(s[..|s| - 1], key);
    }
  }

  /** A group sum whose weights are all one is the group count. */
  lemma {:induction false} UnitWeightIsOccurrences<T, K>(s: seq<T>, key: T -> K, weight: T -> nat, k: K)
    requires forall x :: weight(x) == 1
    ensures Weight(s, key, weight, k) == Occurrences(s, key, k)
    decreases |s|
  {
    if s != [] {
      UnitWeightIsOccurrences(s[..|s| - 1], key, weight, k);
    }
  }

  /** A row of an inner merge: the key, the left table's count, the right table's count. */
  datatype Pair<K> = Pair(key: K, left: nat, right: nat)

  /** `l.merge(r, on = key)` (how = 'inner'): the rows of `l`, in order, whose
      key also has a row in `r`, extended with that row's count. When `r`
      repeats a key, pandas emits one row per match while this takes the first
      (`Lookup`); every merge in the analysis joins group-by tables, whose keys
      are unique. */
  function InnerJoin<K(==)>(l: Table<K>, r: Table<K>): (j: seq<Pair<K>>)
    ensures |j| <= |l|
    ensures forall i :: 0 <= i < |j| ==>
      Row(j[i].key, j[i].left) in l && j[i].key in KeySet(r) && j[i].right == Lookup(r, j[i].key)
    ensures forall i :: 0 <= i < |l| && l[i].key in KeySet(r) ==>
      Pair(l[i].key, l[i].count, Lookup(r, l[i].key)) in j
    ensures DistinctKeys(l) ==> forall a, b :: 0 <= a < b < |j| ==> j[a].key != j[b].key
    decreases |l|
  {
    if l == [] then []
    else
      var rest := InnerJoin(l[1..], r);
      assert forall i :: 1 <= i < |l| ==> l[i] == l[1..][i - 1];
      if l[0].key in KeySet(r) then
        assert DistinctKeys(l) ==> forall b :: 0 <= b < |rest| ==> rest[b].key != l[0].key by {
          if DistinctKeys(l) {
            forall b | 0 <= b < |rest|
              ensures rest[b].key != l[0].key
            {
              var m :| 0 <= m < |l[1..]| && l[1..][m] == Row(rest[b].key, rest[b].left);
              KeyOfRow(l[1..], m);
            }
          }
        }
        [Pair(l[0].key, l[0].count, Lookup(r, l[0].key))] + rest
      else rest
  }

  /** A table with unique keys has as many keys as rows. */
  lemma {:induction false} KeySetSize<K>(t: Table<K>)
    requires DistinctKeys(t)
    ensures |KeySet(t)| == |t|
    decreases |t|
  {
    if t != [] {
      KeySetSize(t[1..]);
      assert KeySet(t) == {t[0].key} + KeySet(t[1..]);
    }
  }

  /** An inner merge of a table with unique keys has one row per key the two
      tables share. */
  lemma {:induction false} InnerJoinSize<K>(l: Table<K>, r: Table<K>)
    requires DistinctKeys(l)
    ensures |InnerJoin(l, r)| == |KeySet(l) * KeySet(r)|
    decreases |l|
  {
    if l != [] {
      InnerJoinSize(l[1..], r);
      var h := l[0].key;
      assert KeySet(l) == {h} + KeySet(l[1..]);
      if h in KeySet(r) {
        assert KeySet(l) * KeySet(r) == {h} + KeySet(l[1..]) * KeySet(r);
        assert h !in KeySet(l[1..]) * KeySet(r);
      } else {
        assert KeySet(l) * KeySet(r) == KeySet(l[1..]) * KeySet(r);
      }
    }
  }

  /** A row of an outer merge; a side is None where pandas fills NaN. */
  datatype Merged<K> = Merged(key: K, left: Option<nat>, right: Option<nat>)

  /** Left half of an outer merge: every row of `l`, with `r`'s count if any. */
  function MergeLeft<K(==)>(l: Table<K>, r: Table<K>): (m: seq<Merged<K>>)
    ensures |m| == |l|
    ensures forall i :: 0 <= i < |m| ==> m[i] == Merged(l[i].key, Some(l[i].count), Get(r, l[i].key))
    decreases |l|
  {
    if l == [] then [] else [Merged(l[0].key, Some(l[0].count), Get(r, l[0].key))] + MergeLeft(l[1..], r)
  }

  /** Right half of an outer merge: the rows of `r` whose key `l` lacks. */
  function MergeRightOnly<K(==)>(l: Table<K>, r: Table<K>): (m: seq<Merged<K>>)
    ensures |m| <= |r|
    ensures forall i :: 0 <= i < |m| ==>
      m[i].key !in KeySet(l) && m[i].left == None && m[i].right.Some? && Row(m[i].key, m[i].right.value) in r
    ensures forall i :: 0 <= i < |r| && r[i].key !in KeySet(l) ==> Merged(r[i].key, None, Some(r[i].count)) in m
    decreases |r|
  {
    if r == [] then []
    else
      var rest := MergeRightOnly(l, r[1..]);
      assert forall i :: 1 <= i < |r| ==> r[i] == r[1..][i - 1];
      if r[0].key in KeySet(l) then rest else [Merged(r[0].key, None, Some(r[0].count))] + rest
  }

  /** `l.merge(r, how = 'outer', on = key)`: every key of either table, with
      each side's count where that side has the key and None where it does not;
      when both tables have unique keys it has one row per key, so each key
      appears once. When `r` repeats a key,
      pandas emits one row per match while this takes the first (`Get`); the
      analysis merges only group-by tables, whose keys are unique. */
  function OuterJoin<K(==)>(l: Table<K>, r: Table<K>): (m: seq<Merged<K>>)
    ensures forall i :: 0 <= i < |m| ==> m[i].key in KeySet(l) + KeySet(r)
    ensures forall i :: 0 <= i < |m| ==>
      (m[i].left == None <==> m[i].key !in KeySet(l)) &&
      (m[i].left.Some? ==> Row(m[i].key, m[i].left.value) in l)
    ensures forall i :: 0 <= i < |m| ==>
      (m[i].right == None <==> m[i].key !in KeySet(r)) &&
      (m[i].right.Some? ==> Row(m[i].key, m[i].right.value) in r)
    ensures forall i :: 0 <= i < |l| ==> Merged(l[i].key, Some(l[i].count), Get(r, l[i].key)) in m
    ensures forall i :: 0 <= i < |r| && r[i].key !in KeySet(l) ==> Merged(r[i].key, None, Some(r[i].count)) in m
    ensures DistinctKeys(l) && DistinctKeys(r) ==> |m| == |KeySet(l) + KeySet(r)|
  {
    var left := MergeLeft(l, r);
    var right := MergeRightOnly(l, r);
    forall i | 0 <= i < |left|
      ensures left[i].key in KeySet(l)
      ensures left[i].right.Some? ==> Row(left[i].key, left[i].right.value) in r
    {
      KeyOfRow(l, i);
      if left[i].right.Some? {
        LookupRow(r, left[i].key);
      }
    }
    forall i | 0 <= i < |right|
      ensures right[i].key in KeySet(r)
    {
      var j :| 0 <= j < |r| && r[j] == Row(right[i].key, right[i].right.value);
      KeyOfRow(r, j);
    }
    forall i | 0 <= i < |l|
      ensures Merged(l[i].key, Some(l[i].count), Get(r, l[i].key)) in left
    {
      assert left[i] == Merged(l[i].key, Some(l[i].count), Get(r, l[i].key));
    }
    assert DistinctKeys(l) && DistinctKeys(r) ==> |left + right| == |KeySet(l) + KeySet(r)| by {
      if DistinctKeys(l) && DistinctKeys(r) {
        OuterJoinSize(l, r);
      }
    }
    left + right
  }

  /** The right half of an outer merge has one row per key only `r` has. */
  lemma {:induction false} MergeRightOnlySize<K>(l: Table<K>, r: Table<K>)
    requires DistinctKeys(r)
    ensures |MergeRightOnly(l, r)| == |KeySet(r) - KeySet(l)|
    decreases |r|
  {
    if r != [] {
      MergeRightOnlySize(l, r[1..]);
      var h := r[0].key;
      assert KeySet(r) == {h} + KeySet(r[1..]);
      if h in KeySet(l) {
        assert KeySet(r) - KeySet(l) == KeySet(r[1..]) - KeySet(l);
      } else {
        assert KeySet(r) - KeySet(l) == {h} + (KeySet(r[1..]) - KeySet(l));
        assert h !in KeySet(r[1..]) - KeySet(l);
      }
    }
  }

  /** With unique keys on both sides, the two halves of an outer merge hold
      one row per key of either table. */
  lemma OuterJoinSize<K>(l: Table<K>, r: Table<K>)
    requires DistinctKeys(l) && DistinctKeys(r)
    ensures |MergeLeft(l, r) + MergeRightOnly(l, r)| == |KeySet(l) + KeySet(r)|
  {
    KeySetSize(l);
    MergeRightOnlySize(l, r);
    assert KeySet(l) + KeySet(r) == KeySet(l) + (KeySet(r) - KeySet(l));
  }

  /** When every key of `r` already has a row in `l`, the outer merge adds no
      rows: it is `l` row for row, each with its (possibly missing) `r` count. */
  lemma OuterJoinOfSubset<K>(l: Table<K>, r: Table<K>)
    requires KeySet(r) <= KeySet(l)
    ensures |OuterJoin(l, r)| == |l|
    ensures forall i :: 0 <= i < |l| ==> OuterJoin(l, r)[i] == Merged(l[i].key, Some(l[i].count), Get(r, l[i].key))
  {
    var right := MergeRightOnly(l, r);
    if right != [] {
      var j :| 0 <= j < |r| && r[j] == Row(right[0].key, right[0].right.value);
      KeyOfRow(r, j);
      assert false;
    }
  }
}
