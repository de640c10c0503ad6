/** Order-aware operations on sequences of rows, the dataframe steps the
    analysis uses: boolean-mask selection (`.loc[mask]`), `sort_values`,
    `iloc[:k]` and `iloc[:-k]`. */
module Sequences {

  /** Rows of `s` that satisfy `p`, in their original relative order. */
  function Where<T(==)>(s: seq<T>, p: T -> bool): (r: seq<T>)
    ensures |r| <= |s|
    ensures forall i :: 0 <= i < |r| ==> r[i] in s && p(r[i])
    ensures forall i :: 0 <= i < |s| && p(s[i]) ==> s[i] in r
    decreases |s|
  {
    if s == [] then []
    else
      var init := s[..|s| - 1];
      var last := s[|s| - 1];
      assert s == init + [last];
      Where(init, p) + (if p(last) then [last] else [])
  }

  /** Selecting from a sequence with one more row at its end selects that row
      at the end when it satisfies the mask. */
  lemma WhereSnoc<T>(s: seq<T>, x: T, p: T -> bool)
    ensures Where(s + [x], p) == Where(s, p) + (if p(x) then [x] else [])
  {
    var sx := s + [x];
    assert sx[..|sx| - 1] == s;
    assert sx[|sx| - 1] == x;
  }

  /** Selection distributes over concatenation: it keeps each part's rows in
      place, so the rows that survive keep their relative order. */
  lemma {:induction false} WhereConcat<T>(a: seq<T>, b: seq<T>, p: T -> bool)
    ensures Where(a + b, p) == Where(a, p) + Where(b, p)
    decreases |b|
  {
    if b == [] {
      assert a + b == a;
    } else {
      var init := b[..|b| - 1];
      var last := b[|b| - 1];
      var tail := if p(last) then [last] else [];
      assert b == init + [last];
      assert a + b == (a + init) + [last];
      calc {
        Where(a + b, p);
        { WhereSnoc(a + init, last, p); }
        Where(a + init, p) + tail;
        { WhereConcat(a, init, p); }
        (Where(a, p) + Where(init, p)) + tail;
        Where(a, p) + (Where(init, p) + tail);
        { WhereSnoc(init, last, p); }
        Where(a, p) + Where(b, p);
      }
    }
  }

  /** Selection keeps every copy of a row that satisfies the mask and no copy
      of one that does not. */
  lemma {:induction false} WhereMultiplicity<T>(s: seq<T>, p: T -> bool, x: T)
    ensures multiset(Where(s, p))[x] == if p(x) then multiset(s)[x] else 0
    decreases |s|
  {
    if s != [] {
      var init := s[..|s| - 1];
      assert s == init + [s[|s| - 1]];
      WhereMultiplicity(init, p, x);
    }
  }

  /** A one-row sequence survives exactly when its row satisfies the mask. */
  lemma WhereSingleton<T>(x: T, p: T -> bool)
    ensures Where([x], p) == if p(x) then [x] else []
  {
    assert [x][..0] == [];
  }

  /** Applying the same mask twice keeps the same rows as applying it once. */
  lemma {:induction false} WhereIdempotent<T>(s: seq<T>, p: T -> bool)
    ensures Where(Where(s, p), p) == Where(s, p)
    decreases |s|
  {
    if s != [] {
      var init := s[..|s| - 1];
      var last := s[|s| - 1];
      WhereIdempotent(init, p);
      WhereConcat(Where(init, p), if p(last) then [last] else [], p);
      if p(last) {
        WhereSingleton(last, p);
      }
    }
  }

  /** Two successive masks select the same rows as their conjunction. */
  lemma {:induction false} WhereWhere<T>(s: seq<T>, p: T -> bool, q: T -> bool, pq: T -> bool)
    requires forall x :: pq(x) == (p(x) && q(x))
    ensures Where(Where(s, p), q) == Where(s, pq)
    decreases |s|
  {
    if s != [] {
      var init := s[..|s| - 1];
      var last := s[|s| - 1];
      WhereWhere(init, p, q, pq);
      WhereConcat(Where(init, p), if p(last) then [last] else [], q);
      if p(last) {
        WhereSingleton(last, q);
      }
    }
  }

  /** `a` comes no later than `b` in a `sort_values(key, ascending)` result. */
  predicate InOrder<T>(a: T, b: T, key: T -> real, ascending: bool)
  {
    if ascending then key(a) <= key(b) else key(b) <= key(a)
  }

  ghost predicate Ordered<T>(s: seq<T>, key: T -> real, ascending: bool)
  {
    forall i, j :: 0 <= i < j < |s| ==> InOrder(s[i], s[j], key, ascending)
  }

  /** Selection never adds a row nor a copy of one. */
  lemma WhereSubmultiset<T>(s: seq<T>, p: T -> bool)
    ensures multiset(Where(s, p)) <= multiset(s)
  {
    forall x
      ensures multiset(Where(s, p))[x] <= multiset(s)[x]
    {
      WhereMultiplicity(s, p, x);
    }
  }

  /** Selection keeps an ordered sequence ordered. */
  lemma {:induction false} WhereOrdered<T>(s: seq<T>, p: T -> bool, key: T -> real, ascending: bool)
    requires Ordered(s, key, ascending)
    ensures Ordered(Where(s, p), key, ascending)
    decreases |s|
  {
    if s != [] {
      var init := s[..|s| - 1];
      var last := s[|s| - 1];
      WhereOrdered(init, p, key, ascending);
      var w := Where(init, p);
      forall i | 0 <= i < |w|
        ensures InOrder(w[i], last, key, ascending)
      {
        assert w[i] in init;
        var k :| 0 <= k < |init| && init[k] == w[i];
      }
    }
  }

  /** Places `x` into the ordered sequence `s` before the first row it may precede. */
  function Insert<T(==)>(x: T, s: seq<T>, key: T -> real, ascending: bool): (r: seq<T>)
    requires Ordered(s, key, ascending)
    ensures multiset(r) == multiset(s) + multiset{x}
    ensures Ordered(r, key, ascending)
    decreases |s|
  {
    if s == [] then [x]
    else if InOrder(x, s[0], key, ascending) then [x] + s
    else
      var tail := Insert(x, s[1..], key, ascending);
      assert s == [s[0]] + s[1..];
      InsertedAfterHead(x, s, tail, key, ascending);
      OrderedCons(s[0], tail, key, ascending);
      [s[0]] + tail
  }

  /** When `x` goes after the head of `s`, the head may precede every row of
      the rest with `x` inserted. */
  lemma InsertedAfterHead<T>(x: T, s: seq<T>, tail: seq<T>, key: T -> real, ascending: bool)
    requires |s| > 0 && Ordered(s, key, ascending)
    requires !InOrder(x, s[0], key, ascending)
    requires multiset(tail) == multiset(s[1..]) + multiset{x}
    ensures forall k :: 0 <= k < |tail| ==> InOrder(s[0], tail[k], key, ascending)
  {
    forall k | 0 <= k < |tail|
      ensures InOrder(s[0], tail[k], key, ascending)
    {
      assert tail[k] in multiset(tail);
      if tail[k] != x {
        assert tail[k] in multiset(s[1..]);
        var m :| 0 <= m < |s[1..]| && s[1..][m] == tail[k];
        assert s[m + 1] == tail[k];
      }
    }
  }

  lemma OrderedCons<T>(h: T, t: seq<T>, key: T -> real, ascending: bool)
    requires Ordered(t, key, ascending)
    requires forall k :: 0 <= k < |t| ==> InOrder(h, t[k], key, ascending)
    ensures Ordered([h] + t, key, ascending)
  {
    var r := [h] + t;
    forall i, j | 0 <= i < j < |r|
      ensures InOrder(r[i], r[j], key, ascending)
    {
      assert r[j] == t[j - 1];
      if i > 0 {
        assert r[i] == t[i - 1];
      }
    }
  }

  /** The rows of `s` ordered by `key` (pandas `sort_values`); rows with equal
      keys may come in any order, as pandas' default unstable sort allows. */
  function SortValues<T(==)>(s: seq<T>, key: T -> real, ascending: bool): (r: seq<T>)
    ensures |r| == |s|
    ensures Ordered(r, key, ascending)
    decreases |s|
  {
    if s == [] then []
    else
      var r := Insert(s[0], SortValues(s[1..], key, ascending), key, ascending);
      assert |r| == |multiset(r)|;
      r
  }

  /** Sorting neither adds, loses nor duplicates a row: the result is a
      permutation of the input. */
  lemma {:induction false} SortValuesPermutes<T>(s: seq<T>, key: T -> real, ascending: bool)
    ensures multiset(SortValues(s, key, ascending)) == multiset(s)
    decreases |s|
  {
    if s != [] {
      SortValuesPermutes(s[1..], key, ascending);
      assert s == [s[0]] + s[1..];
    }
  }

  /** A prefix holds no element more often than the whole sequence. */
  lemma PrefixSubmultiset<T>(s: seq<T>, r: seq<T>)
    requires |r| <= |s| && forall i :: 0 <= i < |r| ==> r[i] == s[i]
    ensures multiset(r) <= multiset(s)
  {
    assert r == s[..|r|];
    assert s == s[..|r|] + s[|r|..];
  }

  /** Two equal elements at distinct positions make the element occur at least
      twice. */
  lemma RepeatedElement<T>(s: seq<T>, i: nat, j: nat)
    requires i < j < |s| && s[i] == s[j]
    ensures multiset(s)[s[i]] >= 2
  {
    assert s == s[..j] + [s[j]] + s[j + 1..];
    assert s[i] in multiset(s[..j]) by {
      assert s[..j][i] == s[i];
    }
  }

  /** Every element of a sequence without repetitions occurs once. */
  lemma {:induction false} NoRepeatOccursOnce<T>(s: seq<T>, x: T)
    requires forall i, j :: 0 <= i < j < |s| ==> s[i] != s[j]
    ensures multiset(s)[x] <= 1
    decreases |s|
  {
    if s != [] {
      NoRepeatOccursOnce(s[1..], x);
      assert s == [s[0]] + s[1..];
      assert forall i :: 0 <= i < |s[1..]| ==> s[1..][i] == s[i + 1];
      assert s[0] !in s[1..];
    }
  }

  /** A permutation of a sequence without repetitions has none either. */
  lemma PermutationNoRepeat<T>(s: seq<T>, r: seq<T>)
    requires multiset(r) == multiset(s)
    requires forall i, j :: 0 <= i < j < |s| ==> s[i] != s[j]
    ensures forall i, j :: 0 <= i < j < |r| ==> r[i] != r[j]
  {
    forall i, j | 0 <= i < j < |r|
      ensures r[i] != r[j]
    {
      if r[i] == r[j] {
        RepeatedElement(r, i, j);
        NoRepeatOccursOnce(s, r[i]);
      }
    }
  }

  /** A prefix of an ordered sequence is ordered. */
  lemma PrefixOrdered<T>(s: seq<T>, r: seq<T>, key: T -> real, ascending: bool)
    requires Ordered(s, key, ascending)
    requires |r| <= |s| && forall i :: 0 <= i < |r| ==> r[i] == s[i]
    ensures Ordered(r, key, ascending)
  {
    assert forall i, k :: 0 <= i < k < |r| ==> r[i] == s[i] && r[k] == s[k];
  }

  /** The first `k` rows (`iloc[:k]`), or all of them when there are fewer. */
  function Head<T>(s: seq<T>, k: nat): (r: seq<T>)
    ensures |r| == if |s| < k then |s| else k
    ensures forall i :: 0 <= i < |r| ==> r[i] == s[i]
  {
    if |s| < k then s else s[..k]
  }

  /** A prefix holds no row more often than the whole sequence. */
  lemma HeadSubmultiset<T>(s: seq<T>, k: nat)
    ensures multiset(Head(s, k)) <= multiset(s)
  {
    if k <= |s| {
      assert s == s[..k] + s[k..];
    }
  }

  /** Everything but the last `k` rows (`iloc[:-k]` for a positive `k`); empty
      when there are no more than `k` rows. */
  function DropLast<T>(s: seq<T>, k: nat): (r: seq<T>)
    ensures |r| == if |s| <= k then 0 else |s| - k
    ensures forall i :: 0 <= i < |r| ==> r[i] == s[i]
  {
    if |s| <= k then [] else s[..|s| - k]
  }
}
