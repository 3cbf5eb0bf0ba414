/** Strict total orders: lexicographic order, the least element of a set, a set in order. */
module Order {

  ghost predicate StrictTotal<T(!new)>(less: (T, T) -> bool) {
    && (forall x :: !less(x, x))
    && (forall x, y :: less(x, y) || x == y || less(y, x))
    && (forall x, y, z :: less(x, y) && less(y, z) ==> less(x, z))
  }

  /** A proper prefix comes first; otherwise the first difference decides. */
  predicate LexLess<T(==)>(less: (T, T) -> bool, a: seq<T>, b: seq<T>) {
    b != [] && (a == [] || less(a[0], b[0]) || (a[0] == b[0] && LexLess(less, a[1..], b[1..])))
  }

  lemma {:induction false} LexIrreflexive<T(!new)>(less: (T, T) -> bool, a: seq<T>)
    requires StrictTotal(less)
    ensures !LexLess(less, a, a)
  {
    if a != [] { LexIrreflexive(less, a[1..]); }
  }

  lemma {:induction false} LexConnected<T(!new)>(less: (T, T) -> bool, a: seq<T>, b: seq<T>)
    requires StrictTotal(less)
    ensures LexLess(less, a, b) || a == b || LexLess(less, b, a)
  {
    if a != [] && b != [] {
      LexConnected(less, a[1..], b[1..]);
      assert a == [a[0]] + a[1..] && b == [b[0]] + b[1..];
    }
  }

  lemma {:induction false} LexTransitive<T(!new)>(less: (T, T) -> bool, a: seq<T>, b: seq<T>, c: seq<T>)
    requires StrictTotal(less) && LexLess(less, a, b) && LexLess(less, b, c)
    ensures LexLess(less, a, c)
  {
    if a != [] && a[0] == b[0] && b[0] == c[0] {
      LexTransitive(less, a[1..], b[1..], c[1..]);
    }
  }

  /** Lexicographic order is strict and total when the order of the elements is. */
  lemma LexStrictTotal<T(!new)>(less: (T, T) -> bool, lex: (seq<T>, seq<T>) -> bool)
    requires StrictTotal(less) && forall a, b :: lex(a, b) == LexLess(less, a, b)
    ensures StrictTotal(lex)
  {
    forall a ensures !lex(a, a) { LexIrreflexive(less, a); }
    forall a, b ensures lex(a, b) || a == b || lex(b, a) { LexConnected(less, a, b); }
    forall a, b, c | lex(a, b) && lex(b, c) ensures lex(a, c) { LexTransitive(less, a, b, c); }
  }

  predicate IsLeast<T(==)>(less: (T, T) -> bool, x: T, s: set<T>) {
    x in s && forall y :: y in s ==> y == x || less(x, y)
  }

  lemma {:induction false} LeastExists<T(!new)>(less: (T, T) -> bool, s: set<T>)
    requires StrictTotal(less) && s != {}
    ensures exists x :: IsLeast(less, x, s)
    decreases |s|
  {
    var a :| a in s;
    if s == {a} {
      assert IsLeast(less, a, s);
    } else {
      LeastExists(less, s - {a});
      var x :| IsLeast(less, x, s - {a});
      var z := if less(a, x) then a else x;
      forall y | y in s ensures y == z || less(z, y) {
        assert y == a || y in s - {a};
      }
      assert IsLeast(less, z, s);
    }
  }

  lemma LeastUnique<T(!new)>(less: (T, T) -> bool, x: T, y: T, s: set<T>)
    requires StrictTotal(less) && IsLeast(less, x, s) && IsLeast(less, y, s)
    ensures x == y
  {
  }

  ghost function Least<T(!new)>(less: (T, T) -> bool, s: set<T>): (x: T)
    requires StrictTotal(less) && s != {}
    ensures IsLeast(less, x, s)
  {
    LeastExists(less, s);
    var x :| IsLeast(less, x, s); x
  }

  /** The elements of `s` in ascending order. */
  ghost function Ascending<T(!new)>(less: (T, T) -> bool, s: set<T>): (r: seq<T>)
    requires StrictTotal(less)
    ensures forall x :: x in r <==> x in s
    ensures forall i, j :: 0 <= i < j < |r| ==> less(r[i], r[j])
    decreases |s|
  {
    if s == {} then [] else
      var x := Least(less, s);
      [x] + Ascending(less, s - {x})
  }

  // ── Strings ────────────────────────────────────────────────────────────

  predicate CharLess(a: char, b: char) { a < b }

  /** The order of strings, which is also the byte order of their UTF-8 encodings. */
  predicate StringLess(a: string, b: string) {
    LexLess(CharLess, a, b)
  }

  lemma StringOrder()
    ensures StrictTotal(StringLess)
  {
    assert StrictTotal(CharLess);
    LexStrictTotal(CharLess, StringLess);
  }
}
