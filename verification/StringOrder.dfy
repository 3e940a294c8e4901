/** The order Rust uses on `String`: byte-wise on UTF-8, which on code points is plain lexicographic order. */
module StringOrder {
  import opened Sorting

  predicate StrLess(a: string, b: string) {
    if b == [] then false
    else if a == [] then true
    else a[0] < b[0] || (a[0] == b[0] && StrLess(a[1..], b[1..]))
  }

  predicate StrLeq(a: string, b: string) {
    a == b || StrLess(a, b)
  }

  lemma {:induction false} Trichotomy(a: string, b: string)
    ensures StrLess(a, b) ==> !StrLess(b, a) && a != b
    ensures a != b ==> StrLess(a, b) || StrLess(b, a)
  {
    if a != [] && b != [] {
      Trichotomy(a[1..], b[1..]);
      assert a == [a[0]] + a[1..] && b == [b[0]] + b[1..];
    }
  }

  lemma {:induction false} Transitive(a: string, b: string, c: string)
    requires StrLess(a, b) && StrLess(b, c)
    ensures StrLess(a, c)
  {
    if a != [] && a[0] == b[0] == c[0] {
      Transitive(a[1..], b[1..], c[1..]);
    }
  }

  /** String order is a total order, so sorting by it has one answer. */
  lemma StrLeqIsTotalOrder()
    ensures TotalOrder(StrLeq)
  {
    forall a, b ensures StrLeq(a, b) || StrLeq(b, a) { Trichotomy(a, b); }
    forall a, b | StrLeq(a, b) && StrLeq(b, a) ensures a == b { Trichotomy(a, b); }
    forall a, b, c | StrLeq(a, b) && StrLeq(b, c) ensures StrLeq(a, c) {
      if a != b && b != c { Transitive(a, b, c); }
    }
  }

  /** Fields of equal width compare one after the other. */
  lemma {:induction false} ConcatLess(a: string, x: string, b: string, y: string)
    requires |a| == |b|
    ensures StrLess(a + x, b + y) <==> StrLess(a, b) || (a == b && StrLess(x, y))
  {
    if a == [] {
      assert a + x == x && b + y == y;
    } else {
      assert (a + x)[1..] == a[1..] + x && (b + y)[1..] == b[1..] + y;
      ConcatLess(a[1..], x, b[1..], y);
      assert a == [a[0]] + a[1..] && b == [b[0]] + b[1..];
    }
  }
}
