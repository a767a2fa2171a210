/**
 * Lexicographic order on strings, as Java's String.compareTo defines it:
 * the first differing character decides, and a proper prefix comes first.
 * TreeSet<String> and TreeMap<String, _> iterate in this order.
 * (Dafny's `<` on sequences means "proper prefix", so the order is spelled out.)
 */
module Lex {

  predicate Less(a: string, b: string)
  {
    if |a| == 0 then |b| > 0
    else |b| > 0 && (a[0] < b[0] || (a[0] == b[0] && Less(a[1..], b[1..])))
  }

  predicate LessEq(a: string, b: string)
  {
    a == b || Less(a, b)
  }

  lemma {:induction false} LessAsymmetric(a: string, b: string)
    requires Less(a, b)
    ensures !Less(b, a)
  {
    if |a| > 0 && a[0] == b[0] {
      LessAsymmetric(a[1..], b[1..]);
    }
  }

  lemma {:induction false} LessTransitive(a: string, b: string, c: string)
    requires Less(a, b) && Less(b, c)
    ensures Less(a, c)
  {
    if |a| > 0 && a[0] == b[0] && b[0] == c[0] {
      LessTransitive(a[1..], b[1..], c[1..]);
    }
  }

  lemma {:induction false} LessTotal(a: string, b: string)
    requires a != b
    ensures Less(a, b) || Less(b, a)
  {
    if |a| > 0 && |b| > 0 && a[0] == b[0] {
      assert a == [a[0]] + a[1..] && b == [b[0]] + b[1..];
      LessTotal(a[1..], b[1..]);
    }
  }

  /** Two strings each at most the other are equal. */
  lemma LessEqAntisymmetric(a: string, b: string)
    requires LessEq(a, b) && LessEq(b, a)
    ensures a == b
  {
    if a != b {
      LessAsymmetric(a, b);
    }
  }

  lemma LessEqTransitive(a: string, b: string, c: string)
    requires LessEq(a, b) && LessEq(b, c)
    ensures LessEq(a, c)
  {
    if a != b && b != c {
      LessTransitive(a, b, c);
    }
  }

  /** Every non-empty finite set of strings has a least element: the first one a TreeSet yields. */
  lemma {:induction false} LeastExists(s: set<string>)
    requires s != {}
    ensures exists m :: m in s && forall x :: x in s ==> LessEq(m, x)
    decreases |s|
  {
    var x :| x in s;
    if s == {x} {
      assert forall y :: y in s ==> y == x;
    } else {
      LeastExists(s - {x});
      var m :| m in s - {x} && forall y :: y in s - {x} ==> LessEq(m, y);
      if Less(x, m) {
        forall y | y in s
          ensures LessEq(x, y)
        {
          if y != x {
            LessEqTransitive(x, m, y);
          }
        }
      } else {
        LessTotal(x, m);
        assert m in s && forall y :: y in s ==> LessEq(m, y);
      }
    }
  }

  /** Every non-empty finite set of strings has a greatest element: the last one a TreeSet yields. */
  lemma {:induction false} GreatestExists(s: set<string>)
    requires s != {}
    ensures exists g :: g in s && forall x :: x in s ==> LessEq(x, g)
    decreases |s|
  {
    var x :| x in s;
    if s == {x} {
      assert forall y :: y in s ==> y == x;
    } else {
      GreatestExists(s - {x});
      var g :| g in s - {x} && forall y :: y in s - {x} ==> LessEq(y, g);
      if Less(g, x) {
        forall y | y in s
          ensures LessEq(y, x)
        {
          if y != x {
            LessEqTransitive(y, g, x);
          }
        }
      } else {
        LessTotal(x, g);
        assert g in s && forall y :: y in s ==> LessEq(y, g);
      }
    }
  }

  /** The greatest element of a non-empty set of strings. */
  ghost function Greatest(s: set<string>): (g: string)
    requires s != {}
    ensures g in s && forall x :: x in s ==> LessEq(x, g)
  {
    GreatestExists(s);
    var g :| g in s && forall x :: x in s ==> LessEq(x, g);
    g
  }
}
