/** Filtering and stable sorting of sequences, as the services do on query results. */
module Seqs {
  import opened Domain

  /** The first element that fits, as a find-first query returns it. */
  function First<T(!new)>(s: seq<T>, fits: T -> bool): (x: Option<T>)
    ensures x.Some? ==> x.value in s && fits(x.value)
    ensures x.None? ==> forall y :: y in s ==> !fits(y)
  {
    if |s| == 0 then None else if fits(s[0]) then Some(s[0]) else First(s[1..], fits)
  }

  lemma {:induction false} FirstAppend<T(!new)>(s: seq<T>, x: T, fits: T -> bool)
    requires First(s, fits).Some?
    ensures First(s + [x], fits) == First(s, fits)
    decreases |s|
  {
    assert (s + [x])[1..] == s[1..] + [x];
    if !fits(s[0]) {
      FirstAppend(s[1..], x, fits);
    }
  }

  function Filter<T(!new)>(s: seq<T>, keep: T -> bool): (r: seq<T>)
    ensures forall x :: x in r <==> x in s && keep(x)
    ensures |r| <= |s|
  {
    if |s| == 0 then []
    else Filter(s[..|s| - 1], keep) + (if keep(s[|s| - 1]) then [s[|s| - 1]] else [])
  }

  /** No two positions carry the same key. */
  ghost predicate Distinct<T(!new), K>(s: seq<T>, key: T -> K) {
    forall i, j :: 0 <= i < j < |s| ==> key(s[i]) != key(s[j])
  }

  lemma DistinctAppend<T(!new), K>(s: seq<T>, x: T, key: T -> K)
    requires Distinct(s, key) && forall y :: y in s ==> key(y) != key(x)
    ensures Distinct(s + [x], key)
  {}

  lemma DistinctConcat<T(!new), K>(s: seq<T>, t: seq<T>, key: T -> K)
    requires Distinct(s, key) && Distinct(t, key) && forall x, y :: x in s && y in t ==> key(x) != key(y)
    ensures Distinct(s + t, key)
  {
    var r := s + t;
    forall i, j | 0 <= i < j < |r| ensures key(r[i]) != key(r[j]) {
      if i < |s| <= j {
        assert r[i] in s && r[j] in t;
      }
    }
  }

  lemma {:induction false} FilterDistinct<T(!new), K>(s: seq<T>, keep: T -> bool, key: T -> K)
    requires Distinct(s, key)
    ensures Distinct(Filter(s, keep), key)
    decreases |s|
  {
    if |s| > 0 {
      var front := s[..|s| - 1];
      FilterDistinct(front, keep, key);
      forall y | y in Filter(front, keep) ensures key(y) != key(s[|s| - 1]) {
        var i :| 0 <= i < |front| && front[i] == y;
        assert s[i] == y;
      }
      if keep(s[|s| - 1]) {
        DistinctAppend(Filter(front, keep), s[|s| - 1], key);
      }
    }
  }

  /** An order a sort can use: any two elements compare, and comparing is transitive. */
  ghost predicate Preorder<T(!new)>(le: (T, T) -> bool) {
    && (forall x, y :: le(x, y) || le(y, x))
    && (forall x, y, z :: le(x, y) && le(y, z) ==> le(x, z))
  }

  ghost predicate Sorted<T(!new)>(s: seq<T>, le: (T, T) -> bool) {
    forall i, j :: 0 <= i < j < |s| ==> le(s[i], s[j])
  }

  /** Inserts behind everything that is not after `x`, so equals keep their order. */
  function Insert<T(!new)>(s: seq<T>, x: T, le: (T, T) -> bool): (r: seq<T>)
    ensures multiset(r) == multiset(s) + multiset{x}
    ensures forall y :: y in r <==> y in s || y == x
    ensures |r| == |s| + 1
  {
    if |s| == 0 then [x]
    else if le(s[|s| - 1], x) then s + [x]
    else
      assert s == s[..|s| - 1] + [s[|s| - 1]];
      Insert(s[..|s| - 1], x, le) + [s[|s| - 1]]
  }

  /** The stable sort of `s`. */
  function Sort<T(!new)>(s: seq<T>, le: (T, T) -> bool): (r: seq<T>)
    ensures multiset(r) == multiset(s)
    ensures forall y :: y in r <==> y in s
    ensures |r| == |s|
  {
    if |s| == 0 then []
    else
      assert s == s[..|s| - 1] + [s[|s| - 1]];
      Insert(Sort(s[..|s| - 1], le), s[|s| - 1], le)
  }

  lemma {:induction false} InsertSorted<T(!new)>(s: seq<T>, x: T, le: (T, T) -> bool)
    requires Preorder(le) && Sorted(s, le)
    ensures Sorted(Insert(s, x, le), le)
    decreases |s|
  {
    if |s| > 0 {
      var last := s[|s| - 1];
      var front := s[..|s| - 1];
      if le(last, x) {
        forall i | 0 <= i < |s| ensures le(s[i], x) {
          assert i == |s| - 1 || le(s[i], last);
        }
      } else {
        InsertSorted(front, x, le);
        var r := Insert(front, x, le);
        forall i | 0 <= i < |r| ensures le(r[i], last) {
          assert r[i] in front || r[i] == x;
        }
      }
    }
  }

  lemma {:induction false} SortSorts<T(!new)>(s: seq<T>, le: (T, T) -> bool)
    requires Preorder(le)
    ensures Sorted(Sort(s, le), le)
    decreases |s|
  {
    if |s| > 0 {
      SortSorts(s[..|s| - 1], le);
      InsertSorted(Sort(s[..|s| - 1], le), s[|s| - 1], le);
    }
  }

  lemma {:induction false} InsertDistinct<T(!new), K>(s: seq<T>, x: T, le: (T, T) -> bool, key: T -> K)
    requires Distinct(s, key) && forall y :: y in s ==> key(y) != key(x)
    ensures Distinct(Insert(s, x, le), key)
    decreases |s|
  {
    if |s| > 0 && !le(s[|s| - 1], x) {
      var front := s[..|s| - 1];
      InsertDistinct(front, x, le, key);
      forall y | y in Insert(front, x, le) ensures key(y) != key(s[|s| - 1]) {
        if y in front {
          var i :| 0 <= i < |front| && front[i] == y;
          assert s[i] == y;
        }
      }
      DistinctAppend(Insert(front, x, le), s[|s| - 1], key);
    }
  }

  lemma {:induction false} SortDistinct<T(!new), K>(s: seq<T>, le: (T, T) -> bool, key: T -> K)
    requires Distinct(s, key)
    ensures Distinct(Sort(s, le), key)
    decreases |s|
  {
    if |s| > 0 {
      var front := s[..|s| - 1];
      SortDistinct(front, le, key);
      forall y | y in front ensures key(y) != key(s[|s| - 1]) {
        var i :| 0 <= i < |front| && front[i] == y;
        assert s[i] == y;
      }
      InsertDistinct(Sort(front, le), s[|s| - 1], le, key);
    }
  }

  // ---------------------------------------------------------------- filtering

  lemma {:induction false} FilterShorter<T(!new)>(rows: seq<T>, keep: T -> bool, x: T)
    requires x in rows && !keep(x)
    ensures |Filter(rows, keep)| < |rows|
    decreases |rows|
  {
    var n := |rows| - 1;
    if rows[n] != x {
      assert x in rows[..n];
      FilterShorter(rows[..n], keep, x);
    }
  }

  lemma FilterAppend<T(!new)>(s: seq<T>, x: T, f: T -> bool)
    ensures Filter(s + [x], f) == if f(x) then Filter(s, f) + [x] else Filter(s, f)
  {
    assert (s + [x])[..|s|] == s;
  }

  lemma LastIn<T(!new)>(s: seq<T>)
    requires |s| > 0
    ensures s == s[..|s| - 1] + [s[|s| - 1]] && s[|s| - 1] in s
    ensures forall x :: x in s[..|s| - 1] ==> x in s
  {}

  lemma {:induction false} FilterSame<T(!new)>(rows: seq<T>, f: T -> bool, g: T -> bool)
    requires forall a :: a in rows ==> f(a) == g(a)
    ensures Filter(rows, f) == Filter(rows, g)
    decreases |rows|
  {
    if |rows| > 0 {
      var front, x := rows[..|rows| - 1], rows[|rows| - 1];
      LastIn(rows);
      FilterSame(front, f, g);
      FilterAppend(front, x, f);
      FilterAppend(front, x, g);
    }
  }

  lemma {:induction false} FilterTwice<T(!new)>(rows: seq<T>, f: T -> bool, g: T -> bool, both: T -> bool)
    requires forall a :: a in rows ==> both(a) == (f(a) && g(a))
    ensures Filter(Filter(rows, f), g) == Filter(rows, both)
    decreases |rows|
  {
    if |rows| > 0 {
      var n := |rows| - 1;
      FilterTwice(rows[..n], f, g, both);
      assert rows == rows[..n] + [rows[n]];
      FilterAppend(rows[..n], rows[n], f);
      FilterAppend(rows[..n], rows[n], both);
      FilterAppend(Filter(rows[..n], f), rows[n], g);
    }
  }

  lemma {:induction false} FilterAll<T(!new)>(rows: seq<T>, f: T -> bool)
    requires forall a :: a in rows ==> f(a)
    ensures Filter(rows, f) == rows
    decreases |rows|
  {
    if |rows| > 0 {
      var front, x := rows[..|rows| - 1], rows[|rows| - 1];
      LastIn(rows);
      FilterAll(front, f);
      FilterAppend(front, x, f);
    }
  }

  lemma {:induction false} FilterHead<T(!new)>(s: seq<T>, f: T -> bool)
    requires |s| > 0 && f(s[0])
    ensures |Filter(s, f)| > 0 && Filter(s, f)[0] == s[0]
    decreases |s|
  {
    if |s| > 1 {
      FilterHead(s[..|s| - 1], f);
    }
  }

  lemma Reassociate<T(!new)>(a: seq<T>, b: seq<T>, c: seq<T>)
    ensures a + b + c == a + (b + c)
  {}

  lemma FilterConcatNone<T(!new)>(s: seq<T>, t: seq<T>, f: T -> bool)
    requires t == []
    ensures Filter(s + t, f) == Filter(s, f) + Filter(t, f)
  {
    assert s + t == s;
  }

  lemma FilterConcatOne<T(!new)>(s: seq<T>, front: seq<T>, x: T, f: T -> bool)
    requires Filter(s + front, f) == Filter(s, f) + Filter(front, f)
    ensures Filter(s + (front + [x]), f) == Filter(s, f) + Filter(front + [x], f)
  {
    FilterAppend(s + front, x, f);
    FilterAppend(front, x, f);
    Reassociate(s, front, [x]);
    Reassociate(Filter(s, f), Filter(front, f), [x]);
  }

  lemma {:induction false} FilterConcat<T(!new)>(s: seq<T>, t: seq<T>, f: T -> bool)
    ensures Filter(s + t, f) == Filter(s, f) + Filter(t, f)
    decreases |t|
  {
    if |t| == 0 {
      FilterConcatNone(s, t, f);
    } else {
      var front, x := t[..|t| - 1], t[|t| - 1];
      assert t == front + [x];
      FilterConcat(s, front, f);
      FilterConcatOne(s, front, x, f);
    }
  }

  lemma {:induction false} FilterNone<T(!new)>(s: seq<T>, f: T -> bool)
    requires forall a :: a in s ==> !f(a)
    ensures Filter(s, f) == []
    decreases |s|
  {
    if |s| > 0 {
      var front, x := s[..|s| - 1], s[|s| - 1];
      LastIn(s);
      FilterNone(front, f);
      FilterAppend(front, x, f);
    }
  }

  lemma FilterSplit<T(!new)>(xs: seq<T>, ys: seq<T>, zs: seq<T>, f: T -> bool)
    requires (forall a :: a in xs ==> f(a)) && (forall a :: a in ys ==> !f(a)) && (forall a :: a in zs ==> f(a))
    ensures Filter(xs + ys + zs, f) == xs + zs
  {
    FilterConcat(xs + ys, zs, f);
    FilterConcat(xs, ys, f);
    FilterAll(xs, f);
    FilterNone(ys, f);
    FilterAll(zs, f);
    assert xs + [] == xs;
  }

  lemma FilterBack<T(!new)>(xs: seq<T>, ys: seq<T>, f: T -> bool)
    requires (forall a :: a in xs ==> !f(a)) && (forall a :: a in ys ==> f(a))
    ensures Filter(xs + ys, f) == ys
  {
    FilterNone(xs, f);
    FilterAll(ys, f);
    FilterConcat(xs, ys, f);
    assert [] + ys == ys;
  }

  lemma FilterMiddle<T(!new)>(xs: seq<T>, ys: seq<T>, zs: seq<T>, f: T -> bool)
    requires (forall a :: a in xs ==> !f(a)) && (forall a :: a in ys ==> f(a)) && (forall a :: a in zs ==> !f(a))
    ensures Filter(xs + ys + zs, f) == ys
  {
    FilterConcat(xs + ys, zs, f);
    FilterNone(zs, f);
    FilterBack(xs, ys, f);
  }

  // ---------------------------------------------------------------- sorting and filtering

  lemma SortAppend<T(!new)>(s: seq<T>, x: T, le: (T, T) -> bool)
    ensures Sort(s + [x], le) == Insert(Sort(s, le), x, le)
  {
    assert (s + [x])[..|s|] == s;
  }

  /** An element not before any other goes to the end. */
  lemma InsertLast<T(!new)>(s: seq<T>, x: T, le: (T, T) -> bool)
    requires forall a :: a in s ==> le(a, x)
    ensures Insert(s, x, le) == s + [x]
  {
    if |s| > 0 {
      assert s[|s| - 1] in s;
    }
  }

  lemma SortedUpToLast<T(!new)>(s: seq<T>, x: T, le: (T, T) -> bool)
    requires Preorder(le) && Sorted(s, le) && |s| > 0 && le(s[|s| - 1], x)
    ensures forall a :: a in s ==> le(a, x)
  {
    forall a | a in s ensures le(a, x) {
      var i :| 0 <= i < |s| && s[i] == a;
      assert i < |s| - 1 ==> le(s[i], s[|s| - 1]);
    }
  }

  /** Insertion passes a last element that is not before `x`. */
  lemma InsertBefore<T(!new)>(front: seq<T>, x: T, last: T, le: (T, T) -> bool)
    requires !le(last, x)
    ensures Insert(front + [last], x, le) == Insert(front, x, le) + [last]
  {
    assert (front + [last])[..|front|] == front;
  }

  lemma InsertFilterEnd<T(!new)>(s: seq<T>, x: T, f: T -> bool, le: (T, T) -> bool)
    requires forall a :: a in s ==> le(a, x)
    ensures Filter(Insert(s, x, le), f) == if f(x) then Insert(Filter(s, f), x, le) else Filter(s, f)
  {
    InsertLast(s, x, le);
    FilterAppend(s, x, f);
    InsertLast(Filter(s, f), x, le);
  }

  lemma InsertFilterStep<T(!new)>(front: seq<T>, last: T, x: T, f: T -> bool, le: (T, T) -> bool)
    requires !le(last, x)
    requires Filter(Insert(front, x, le), f) == if f(x) then Insert(Filter(front, f), x, le) else Filter(front, f)
    ensures Filter(Insert(front + [last], x, le), f) ==
            if f(x) then Insert(Filter(front + [last], f), x, le) else Filter(front + [last], f)
  {
    InsertBefore(front, x, last, le);
    FilterAppend(front, last, f);
    FilterAppend(Insert(front, x, le), last, f);
    InsertBefore(Filter(front, f), x, last, le);
  }

  /** Inserting into a sorted list, then filtering, is filtering, then inserting. */
  lemma {:induction false} InsertFilter<T(!new)>(s: seq<T>, x: T, f: T -> bool, le: (T, T) -> bool)
    requires Preorder(le) && Sorted(s, le)
    ensures Filter(Insert(s, x, le), f) ==
            if f(x) then Insert(Filter(s, f), x, le) else Filter(s, f)
    decreases |s|
  {
    if |s| == 0 {
      FilterAppend([], x, f);
    } else {
      var last, front := s[|s| - 1], s[..|s| - 1];
      assert s == front + [last];
      if le(last, x) {
        SortedUpToLast(s, x, le);
        InsertFilterEnd(s, x, f, le);
      } else {
        InsertFilter(front, x, f, le);
        InsertFilterStep(front, last, x, f, le);
      }
    }
  }

  /** Sorting is stable: it commutes with filtering. */
  lemma {:induction false} SortFilter<T(!new)>(s: seq<T>, f: T -> bool, le: (T, T) -> bool)
    requires Preorder(le)
    ensures Sort(Filter(s, f), le) == Filter(Sort(s, le), f)
    decreases |s|
  {
    if |s| > 0 {
      var n := |s| - 1;
      var x, front := s[n], s[..n];
      assert s == front + [x];
      SortFilter(front, f, le);
      SortSorts(front, le);
      InsertFilter(Sort(front, le), x, f, le);
      SortAppend(front, x, le);
      FilterAppend(front, x, f);
      SortAppend(Filter(front, f), x, le);
    }
  }

  lemma {:induction false} SortedFilter<T(!new)>(s: seq<T>, keep: T -> bool, le: (T, T) -> bool)
    requires Sorted(s, le)
    ensures Sorted(Filter(s, keep), le)
    decreases |s|
  {
    if |s| > 0 {
      var n := |s| - 1;
      var front, last := s[..n], s[n];
      SortedFilter(front, keep, le);
      forall x | x in Filter(front, keep) ensures le(x, last) {
        var i :| 0 <= i < n && front[i] == x;
        assert le(s[i], s[n]);
      }
    }
  }
}
