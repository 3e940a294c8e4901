/** Stable sorting and ordered iteration, as the standard library's `sort_by` and `BTreeMap` give them. */
module Sorting {

  ghost predicate TotalPreorder<T(!new)>(leq: (T, T) -> bool) {
    && (forall a, b :: leq(a, b) || leq(b, a))
    && (forall a, b, c :: leq(a, b) && leq(b, c) ==> leq(a, c))
  }

  ghost predicate TotalOrder<T(!new)>(leq: (T, T) -> bool) {
    && TotalPreorder(leq)
    && (forall a, b :: leq(a, b) && leq(b, a) ==> a == b)
  }

  ghost predicate Sorted<T>(s: seq<T>, leq: (T, T) -> bool) {
    forall i, j :: 0 <= i < j < |s| ==> leq(s[i], s[j])
  }

  ghost predicate Distinct<T>(s: seq<T>) {
    forall i, j :: 0 <= i < j < |s| ==> s[i] != s[j]
  }

  function Elements<T>(s: seq<T>): (r: set<T>) {
    set x | x in s
  }

  function Filter<T>(s: seq<T>, p: T -> bool): (r: seq<T>) {
    if s == [] then []
    else if p(s[0]) then [s[0]] + Filter(s[1..], p)
    else Filter(s[1..], p)
  }

  function Map<T, U>(s: seq<T>, f: T -> U): (r: seq<U>)
    ensures |r| == |s| && forall i :: 0 <= i < |s| ==> r[i] == f(s[i])
  {
    seq(|s|, i requires 0 <= i < |s| => f(s[i]))
  }

  function Reverse<T>(s: seq<T>): (r: seq<T>)
    ensures |r| == |s| && forall i :: 0 <= i < |s| ==> r[i] == s[|s| - 1 - i]
  {
    seq(|s|, i requires 0 <= i < |s| => s[|s| - 1 - i])
  }

  function Insert<T>(x: T, s: seq<T>, leq: (T, T) -> bool): seq<T> {
    if s == [] then [x]
    else if leq(x, s[0]) then [x] + s
    else [s[0]] + Insert(x, s[1..], leq)
  }

  /** `sort_by`: insertion sort that puts an element in front of its equals. */
  function Sort<T>(s: seq<T>, leq: (T, T) -> bool): seq<T> {
    if s == [] then [] else Insert(s[0], Sort(s[1..], leq), leq)
  }

  lemma {:induction false} InsertElements<T>(x: T, s: seq<T>, leq: (T, T) -> bool)
    ensures multiset(Insert(x, s, leq)) == multiset{x} + multiset(s)
  {
    if s != [] && !leq(x, s[0]) {
      InsertElements(x, s[1..], leq);
      assert s == [s[0]] + s[1..];
    }
  }

  lemma {:induction false} InsertSorted<T(!new)>(x: T, s: seq<T>, leq: (T, T) -> bool)
    requires TotalPreorder(leq) && Sorted(s, leq)
    ensures Sorted(Insert(x, s, leq), leq)
  {
    if s != [] && !leq(x, s[0]) {
      InsertSorted(x, s[1..], leq);
      InsertElements(x, s[1..], leq);
      var r := Insert(x, s[1..], leq);
      forall j | 0 <= j < |r| ensures leq(s[0], r[j]) {
        assert r[j] in multiset(r);
        assert r[j] == x || r[j] in s[1..];
      }
    }
  }

  lemma {:induction false} SortPermutes<T>(s: seq<T>, leq: (T, T) -> bool)
    ensures multiset(Sort(s, leq)) == multiset(s)
    ensures |Sort(s, leq)| == |s|
    ensures Elements(Sort(s, leq)) == Elements(s)
  {
    if s != [] {
      SortPermutes(s[1..], leq);
      InsertElements(s[0], Sort(s[1..], leq), leq);
      assert s == [s[0]] + s[1..];
    }
    SameMultiset(Sort(s, leq), s);
  }

  lemma SameMultiset<T>(s: seq<T>, t: seq<T>)
    requires multiset(s) == multiset(t)
    ensures |s| == |t| && Elements(s) == Elements(t)
  {
    assert |s| == |multiset(s)| == |multiset(t)| == |t|;
    forall x ensures x in s <==> x in t {
      assert x in multiset(s) <==> x in multiset(t);
    }
  }

  lemma {:induction false} SortSorts<T(!new)>(s: seq<T>, leq: (T, T) -> bool)
    requires TotalPreorder(leq)
    ensures Sorted(Sort(s, leq), leq)
  {
    if s != [] {
      SortSorts(s[1..], leq);
      InsertSorted(s[0], Sort(s[1..], leq), leq);
    }
  }

  lemma {:induction false} SortOfSorted<T(!new)>(s: seq<T>, leq: (T, T) -> bool)
    requires Sorted(s, leq)
    ensures Sort(s, leq) == s
  {
    if s != [] {
      SortOfSorted(s[1..], leq);
      if |s| > 1 { assert leq(s[0], s[1..][0]); }
    }
  }

  lemma SortIdempotent<T(!new)>(s: seq<T>, leq: (T, T) -> bool)
    requires TotalPreorder(leq)
    ensures Sort(Sort(s, leq), leq) == Sort(s, leq)
  {
    SortSorts(s, leq);
    SortOfSorted(Sort(s, leq), leq);
  }

  /** Sorting keeps the relative order of any class of mutually equal elements. */
  lemma {:induction false} SortIsStable<T(!new)>(s: seq<T>, leq: (T, T) -> bool, same: T -> bool)
    requires TotalPreorder(leq)
    requires forall a, b :: same(a) && same(b) ==> leq(a, b)
    ensures Filter(Sort(s, leq), same) == Filter(s, same)
  {
    if s != [] {
      SortIsStable(s[1..], leq, same);
      SortSorts(s[1..], leq);
      InsertIsStable(s[0], Sort(s[1..], leq), leq, same);
    }
  }

  lemma {:induction false} InsertIsStable<T(!new)>(x: T, s: seq<T>, leq: (T, T) -> bool, same: T -> bool)
    requires TotalPreorder(leq) && Sorted(s, leq)
    requires forall a, b :: same(a) && same(b) ==> leq(a, b)
    ensures Filter(Insert(x, s, leq), same) == (if same(x) then [x] else []) + Filter(s, same)
  {
    if s != [] && !leq(x, s[0]) {
      InsertIsStable(x, s[1..], leq, same);
      assert Insert(x, s, leq)[1..] == Insert(x, s[1..], leq);
      if same(x) { assert !same(s[0]); }
    } else {
      assert Insert(x, s, leq)[1..] == s;
    }
  }

  lemma SameFirst<T(!new)>(s: seq<T>, t: seq<T>, leq: (T, T) -> bool)
    requires Sorted(s, leq) && Sorted(t, leq) && s != [] && t != [] && Elements(s) == Elements(t)
    requires forall a, b :: a in s && b in s && leq(a, b) && leq(b, a) ==> a == b
    ensures s[0] == t[0]
  {
    assert s[0] in Elements(t) && t[0] in Elements(s);
  }

  lemma SameRest<T(!new)>(s: seq<T>, t: seq<T>)
    requires s != [] && t != [] && s[0] == t[0] && multiset(s) == multiset(t)
    ensures multiset(s[1..]) == multiset(t[1..])
    ensures forall x :: x in s[1..] ==> x in s
  {
    assert s == [s[0]] + s[1..] && t == [t[0]] + t[1..];
    assert multiset(s[1..]) == multiset(s) - multiset{s[0]} == multiset(t[1..]);
  }

  /** When no two different elements tie, the elements decide their sorted arrangement. */
  lemma {:induction false} SortedUnique<T(!new)>(s: seq<T>, t: seq<T>, leq: (T, T) -> bool)
    requires Sorted(s, leq) && Sorted(t, leq) && multiset(s) == multiset(t)
    requires forall a, b :: a in s && b in s && leq(a, b) && leq(b, a) ==> a == b
    ensures s == t
  {
    SameMultiset(s, t);
    if s != [] {
      SameFirst(s, t, leq);
      SameRest(s, t);
      SortedUnique(s[1..], t[1..], leq);
      assert s == [s[0]] + s[1..] && t == [t[0]] + t[1..];
    }
  }

  lemma SortOfPermutation<T(!new)>(s: seq<T>, t: seq<T>, leq: (T, T) -> bool)
    requires TotalOrder(leq) && multiset(s) == multiset(t)
    ensures Sort(s, leq) == Sort(t, leq)
  {
    SortSorts(s, leq);
    SortSorts(t, leq);
    SortPermutes(s, leq);
    SortPermutes(t, leq);
    SortedUnique(Sort(s, leq), Sort(t, leq), leq);
  }

  lemma MapConcat<T, U>(s: seq<T>, t: seq<T>, f: T -> U)
    ensures Map(s + t, f) == Map(s, f) + Map(t, f)
  {
  }

  lemma HasMember<T(!new)>(s: seq<T>)
    ensures s == [] || exists x :: x in s
  {
    if s != [] { assert s[0] in s; }
  }

  lemma TailElements<T(!new)>(s: seq<T>)
    requires s != [] && Distinct(s)
    ensures forall x :: x in s[1..] <==> x in s && x != s[0]
  {
    assert s == [s[0]] + s[1..];
    forall x | x in s[1..] ensures x != s[0] {
      var i :| 0 <= i < |s[1..]| && s[1..][i] == x;
      assert s[i + 1] == x;
    }
  }

  lemma {:induction false} InFilter<T(!new)>(s: seq<T>, p: T -> bool)
    ensures forall x :: x in Filter(s, p) <==> x in s && p(x)
  {
    if s != [] {
      InFilter(s[1..], p);
      assert s == [s[0]] + s[1..];
    }
  }

  lemma FilterCons<T(!new)>(x: T, rest: seq<T>, p: T -> bool)
    ensures Filter([x] + rest, p) == if p(x) then [x] + Filter(rest, p) else Filter(rest, p)
  {
    assert ([x] + rest)[1..] == rest;
  }

  lemma {:induction false} FilterConcat<T(!new)>(s: seq<T>, t: seq<T>, p: T -> bool)
    ensures Filter(s + t, p) == Filter(s, p) + Filter(t, p)
  {
    if s == [] {
      assert s + t == t;
    } else {
      FilterConcat(s[1..], t, p);
      assert (s + t)[1..] == s[1..] + t;
    }
  }

  ghost predicate StrictOrder<T(!new)>(less: (T, T) -> bool) {
    && (forall a :: !less(a, a))
    && (forall a, b, c :: less(a, b) && less(b, c) ==> less(a, c))
  }

  ghost predicate Strictly<T>(s: seq<T>, less: (T, T) -> bool) {
    forall i, j :: 0 <= i < j < |s| ==> less(s[i], s[j])
  }

  /** Two strictly ordered sequences with the same elements are the same sequence. */
  lemma {:induction false} StrictUnique<T(!new)>(s: seq<T>, t: seq<T>, less: (T, T) -> bool)
    requires StrictOrder(less) && Strictly(s, less) && Strictly(t, less)
    requires forall x :: x in s <==> x in t
    ensures s == t
  {
    if s != [] && t != [] {
      assert t[0] in t && s[0] in s && t[0] in s && s[0] in t;
      var i :| 0 <= i < |s| && s[i] == t[0];
      var j :| 0 <= j < |t| && t[j] == s[0];
      assert s[0] == t[0];
      TailElements(s) by { StrictIsDistinct(s, less); }
      TailElements(t) by { StrictIsDistinct(t, less); }
      StrictUnique(s[1..], t[1..], less);
    } else {
      HasMember(s);
      HasMember(t);
    }
  }

  /** Sorted without repetition, a sequence is the ascending arrangement of its elements. */
  lemma SortedDistinctIsAscending<T(!new)>(s: seq<T>, leq: (T, T) -> bool)
    requires TotalOrder(leq) && Sorted(s, leq) && Distinct(s)
    ensures s == Ascending(Elements(s), leq)
  {
    var less := (a: T, b: T) => leq(a, b) && a != b;
    var t := Ascending(Elements(s), leq);
    assert Strictly(s, less) && Strictly(t, less);
    assert StrictOrder(less);
    assert forall x :: x in s <==> x in Elements(s);
    StrictUnique(s, t, less);
  }

  lemma DistinctAppend<T(!new)>(a: seq<T>, b: seq<T>)
    requires Distinct(a) && Distinct(b) && Elements(a) !! Elements(b)
    ensures Distinct(a + b)
  {
    forall i, j | 0 <= i < j < |a + b| ensures (a + b)[i] != (a + b)[j] {
      if i < |a| <= j { assert a[i] in Elements(a) && b[j - |a|] in Elements(b); }
    }
  }

  lemma DistinctMultiset<T(!new)>(s: seq<T>, t: seq<T>)
    requires Distinct(s) && multiset(s) == multiset(t)
    ensures Distinct(t)
  {
    forall i, j | 0 <= i < j < |t| ensures t[i] != t[j] {
      if t[i] == t[j] {
        assert t == t[..i] + [t[i]] + t[i + 1..j] + [t[j]] + t[j + 1..];
        assert multiset(t)[t[i]] >= 2;
        DistinctCountsOne(s, t[i]);
      }
    }
  }

  lemma {:induction false} DistinctCountsOne<T(!new)>(s: seq<T>, x: T)
    requires Distinct(s)
    ensures multiset(s)[x] <= 1
  {
    if s != [] {
      TailElements(s);
      assert s == [s[0]] + s[1..];
      DistinctCountsOne(s[1..], x);
      if x == s[0] { assert x !in multiset(s[1..]); }
    }
  }

  lemma {:induction false} DistinctSize<T(!new)>(s: seq<T>)
    requires Distinct(s)
    ensures |Elements(s)| == |s|
  {
    if s != [] {
      TailElements(s);
      DistinctSize(s[1..]);
      assert Elements(s) == Elements(s[1..]) + {s[0]};
    }
  }

  lemma {:induction false} FilterDistinct<T(!new)>(s: seq<T>, p: T -> bool)
    requires Distinct(s)
    ensures Distinct(Filter(s, p))
  {
    if s != [] {
      TailElements(s);
      FilterDistinct(s[1..], p);
      InFilter(s[1..], p);
    }
  }

  lemma StrictIsDistinct<T(!new)>(s: seq<T>, less: (T, T) -> bool)
    requires StrictOrder(less) && Strictly(s, less)
    ensures Distinct(s)
  {
  }

  lemma {:induction false} FilterStrictly<T(!new)>(s: seq<T>, p: T -> bool, less: (T, T) -> bool)
    requires Strictly(s, less)
    ensures Strictly(Filter(s, p), less)
  {
    if s != [] {
      FilterStrictly(s[1..], p, less);
      InFilter(s[1..], p);
      forall x | x in s[1..] ensures less(s[0], x) {
        var i :| 0 <= i < |s[1..]| && s[1..][i] == x;
        assert s[i + 1] == x;
      }
    }
  }

  lemma {:induction false} FilterReverse<T(!new)>(s: seq<T>, p: T -> bool)
    ensures Filter(Reverse(s), p) == Reverse(Filter(s, p))
  {
    if s != [] {
      FilterReverse(s[1..], p);
      assert Reverse(s) == Reverse(s[1..]) + [s[0]];
      FilterConcat(Reverse(s[1..]), [s[0]], p);
      assert Filter([s[0]], p) == if p(s[0]) then [s[0]] else [];
    }
  }

  /** A filter keeps everything or is shorter. */
  lemma {:induction false} FilterLength<T(!new)>(s: seq<T>, p: T -> bool)
    ensures |Filter(s, p)| <= |s|
    ensures |Filter(s, p)| == |s| <==> forall x :: x in s ==> p(x)
  {
    if s != [] {
      FilterLength(s[1..], p);
      assert s == [s[0]] + s[1..];
    }
  }

  lemma {:induction false} FilterFilter<T(!new)>(s: seq<T>, p: T -> bool, q: T -> bool, both: T -> bool)
    requires forall x :: both(x) <==> p(x) && q(x)
    ensures Filter(Filter(s, p), q) == Filter(s, both)
  {
    if s != [] {
      FilterFilter(s[1..], p, q, both);
      assert s == [s[0]] + s[1..];
      FilterCons(s[0], s[1..], p);
      FilterCons(s[0], s[1..], both);
      FilterCons(s[0], Filter(s[1..], p), q);
      assert both(s[0]) <==> p(s[0]) && q(s[0]);
    }
  }

  lemma {:induction false} FilterAll<T(!new)>(s: seq<T>, p: T -> bool)
    requires forall x :: x in s ==> p(x)
    ensures Filter(s, p) == s
  {
    if s != [] { FilterAll(s[1..], p); }
  }

  lemma LeastExists<T(!new)>(s: set<T>, leq: (T, T) -> bool) returns (m: T)
    requires TotalOrder(leq) && s != {}
    ensures m in s && forall y :: y in s ==> leq(m, y)
  {
    m :| m in s;
    if s != {m} {
      var rest := s - {m};
      var n := LeastExists(rest, leq);
      var least := if leq(m, n) then m else n;
      forall y | y in s ensures leq(least, y) {
        if y != m { assert y in rest; }
      }
      m := least;
    }
  }

  /** The elements of a finite set in ascending order: the iteration order of a `BTreeSet`. */
  function Ascending<T(!new,==)>(s: set<T>, leq: (T, T) -> bool): (r: seq<T>)
    requires TotalOrder(leq)
    ensures Sorted(r, leq) && Distinct(r)
    ensures forall x :: x in r <==> x in s
    ensures |r| == |s|
  {
    if s == {} then [] else
      var m := Least(s, leq);
      [m] + Ascending(s - {m}, leq)
  }

  function Least<T(!new,==)>(s: set<T>, leq: (T, T) -> bool): (m: T)
    requires TotalOrder(leq) && s != {}
    ensures m in s && forall y :: y in s ==> leq(m, y)
  {
    assert exists m :: m in s && forall y :: y in s ==> leq(m, y) by { var m := LeastExists(s, leq); }
    var m :| m in s && forall y :: y in s ==> leq(m, y);
    m
  }
}
