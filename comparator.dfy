/** `descendingComparator` and `getComparator`: the JavaScript relational
    operators on the values of one column, and the comparator built from them. */
module Comparator {
  import opened ClientRecords

  /** JavaScript `x < y` on two strings: the code units are compared in
      order, and a proper prefix is smaller. */
  function StrLess(x: string, y: string): (less: bool)
    ensures less ==> |y| > 0
    ensures |x| == 0 ==> (less <==> |y| > 0)
  {
    if |y| == 0 then false
    else if |x| == 0 then true
    else if x[0] != y[0] then x[0] < y[0]
    else StrLess(x[1..], y[1..])
  }

  /** `y` starts with `x`. */
  predicate IsPrefix(x: string, y: string) {
    |x| <= |y| && y[..|x|] == x
  }

  /** `x` and `y` first differ at index `k`, and `x` has the smaller character there. */
  predicate LessAt(x: string, y: string, k: nat) {
    k < |x| && k < |y| && x[..k] == y[..k] && x[k] < y[k]
  }

  /** `StrLess` is the string comparison of the language standard: false when
      `y` is a prefix of `x`; true when `x` is a proper prefix of `y`; otherwise
      decided by the first index at which they differ. */
  lemma {:induction false} StrLessIsStandardOrder(x: string, y: string)
    ensures StrLess(x, y) <==> !IsPrefix(y, x) && (IsPrefix(x, y) || exists k: nat :: LessAt(x, y, k))
  {
    if |y| == 0 {
      assert IsPrefix(y, x);
    } else if |x| == 0 {
      assert IsPrefix(x, y) && !IsPrefix(y, x);
    } else if x[0] != y[0] {
      assert !IsPrefix(y, x) && !IsPrefix(x, y);
      if x[0] < y[0] {
        assert LessAt(x, y, 0);
      } else {
        forall k: nat | LessAt(x, y, k) ensures false {
        }
      }
    } else {
      StrLessIsStandardOrder(x[1..], y[1..]);
      assert IsPrefix(y, x) <==> IsPrefix(y[1..], x[1..]) by {
        if IsPrefix(y[1..], x[1..]) {
          assert x[..|y|] == [x[0]] + x[1..][..|y| - 1];
          assert y == [y[0]] + y[1..];
        }
        if IsPrefix(y, x) {
          assert x[1..][..|y| - 1] == x[..|y|][1..];
        }
      }
      assert IsPrefix(x, y) <==> IsPrefix(x[1..], y[1..]) by {
        if IsPrefix(x[1..], y[1..]) {
          assert y[..|x|] == [y[0]] + y[1..][..|x| - 1];
          assert x == [x[0]] + x[1..];
        }
        if IsPrefix(x, y) {
          assert y[1..][..|x| - 1] == y[..|x|][1..];
        }
      }
      assert (exists k: nat :: LessAt(x, y, k)) <==> (exists k: nat :: LessAt(x[1..], y[1..], k)) by {
        forall k: nat | LessAt(x, y, k) ensures k > 0 && LessAt(x[1..], y[1..], k - 1) {
          assert k > 0;
          assert x[1..][..k - 1] == x[..k][1..];
          assert y[1..][..k - 1] == y[..k][1..];
        }
        forall k: nat | LessAt(x[1..], y[1..], k) ensures LessAt(x, y, k + 1) {
          assert x[..k + 1] == [x[0]] + x[1..][..k];
          assert y[..k + 1] == [y[0]] + y[1..][..k];
        }
      }
    }
  }

  lemma {:induction false} StrLessIrreflexive(x: string)
    ensures !StrLess(x, x)
  {
    if |x| > 0 {
      StrLessIrreflexive(x[1..]);
    }
  }

  lemma {:induction false} StrLessAsymmetric(x: string, y: string)
    ensures StrLess(x, y) ==> !StrLess(y, x)
  {
    if |x| > 0 && |y| > 0 && x[0] == y[0] {
      StrLessAsymmetric(x[1..], y[1..]);
    }
  }

  lemma {:induction false} StrLessTransitive(x: string, y: string, z: string)
    ensures StrLess(x, y) && StrLess(y, z) ==> StrLess(x, z)
  {
    if |x| > 0 && |y| > 0 && |z| > 0 && x[0] == y[0] && y[0] == z[0] {
      StrLessTransitive(x[1..], y[1..], z[1..]);
    }
  }

  lemma {:induction false} StrLessTrichotomy(x: string, y: string)
    ensures x == y || StrLess(x, y) || StrLess(y, x)
  {
    if |x| > 0 && |y| > 0 && x[0] == y[0] {
      StrLessTrichotomy(x[1..], y[1..]);
      if x[1..] == y[1..] {
        assert x == [x[0]] + x[1..] && y == [y[0]] + y[1..];
      }
    }
  }

  /** JavaScript `u < v`: `undefined` converts to NaN, and every comparison
      with NaN is false. */
  predicate ValueLess(u: Value, v: Value)
    ensures u.Undefined? || v.Undefined? ==> !ValueLess(u, v)
  {
    u.Str? && v.Str? && StrLess(u.s, v.s)
  }

  /** The direction state of the table header. Any `order` other than 'desc'
      takes the ascending branch of `getComparator`. */
  datatype Order = Asc | Desc

  /** `descendingComparator(a, b, orderBy)`: negative when `a` belongs first in
      descending order. */
  function DescendingComparator(a: Client, b: Client, orderBy: Column): (r: int)
    ensures -1 <= r <= 1
  {
    if ValueLess(Field(b, orderBy), Field(a, orderBy)) then -1
    else if ValueLess(Field(a, orderBy), Field(b, orderBy)) then 1
    else 0
  }

  /** The function `getComparator(order, orderBy)` returns, applied to `a` and `b`. */
  function Compare(order: Order, orderBy: Column, a: Client, b: Client): (r: int)
    ensures -1 <= r <= 1
  {
    if order == Desc then DescendingComparator(a, b, orderBy)
    else -DescendingComparator(a, b, orderBy)
  }

  /** The descending comparator answers -1, 0 or 1: -1 exactly when `a`'s
      value is the larger, 1 exactly when it is the smaller, and 0 exactly when
      the two values are equal (two `undefined`s included). */
  lemma DescendingComparatorMeaning(a: Client, b: Client, orderBy: Column)
    ensures DescendingComparator(a, b, orderBy) in {-1, 0, 1}
    ensures DescendingComparator(a, b, orderBy) == -1 <==> ValueLess(Field(b, orderBy), Field(a, orderBy))
    ensures DescendingComparator(a, b, orderBy) == 1 <==> ValueLess(Field(a, orderBy), Field(b, orderBy))
    ensures DescendingComparator(a, b, orderBy) == 0 <==> Field(a, orderBy) == Field(b, orderBy)
  {
    var u, v := Field(a, orderBy), Field(b, orderBy);
    if u.Str? && v.Str? {
      StrLessAsymmetric(u.s, v.s);
      StrLessTrichotomy(u.s, v.s);
      StrLessIrreflexive(u.s);
    }
  }

  /** The comparator of either direction answers -1, 0 or 1, and is
      antisymmetric: swapping the arguments negates the answer. */
  lemma CompareAntisymmetric(order: Order, orderBy: Column, a: Client, b: Client)
    ensures Compare(order, orderBy, a, b) in {-1, 0, 1}
    ensures Compare(order, orderBy, a, b) == -Compare(order, orderBy, b, a)
  {
    DescendingComparatorMeaning(a, b, orderBy);
    DescendingComparatorMeaning(b, a, orderBy);
  }

  /** The ascending comparator is the descending one with its arguments
      swapped: ascending puts the smaller value first, descending the larger. */
  lemma AscendingReversesDescending(orderBy: Column, a: Client, b: Client)
    ensures Compare(Asc, orderBy, a, b) == Compare(Desc, orderBy, b, a)
    ensures Compare(Asc, orderBy, a, b) < 0 <==> ValueLess(Field(a, orderBy), Field(b, orderBy))
    ensures Compare(Desc, orderBy, a, b) < 0 <==> ValueLess(Field(b, orderBy), Field(a, orderBy))
  {
    CompareAntisymmetric(Desc, orderBy, a, b);
    DescendingComparatorMeaning(a, b, orderBy);
  }

  /** A row ranks level with itself. */
  lemma CompareReflexive(order: Order, orderBy: Column, a: Client)
    ensures Compare(order, orderBy, a, a) == 0
  {
    DescendingComparatorMeaning(a, a, orderBy);
  }

  /** "Ranks no later than" is transitive, so the comparator is a total
      preorder on the rows and a sort by it is well defined. */
  lemma CompareTransitive(order: Order, orderBy: Column, a: Client, b: Client, c: Client)
    requires Compare(order, orderBy, a, b) <= 0 && Compare(order, orderBy, b, c) <= 0
    ensures Compare(order, orderBy, a, c) <= 0
  {
    DescendingComparatorMeaning(a, b, orderBy);
    DescendingComparatorMeaning(b, c, orderBy);
    DescendingComparatorMeaning(a, c, orderBy);
    if orderBy != EditInfo {
      var x, y, z := Field(a, orderBy).s, Field(b, orderBy).s, Field(c, orderBy).s;
      StrLessTransitive(x, y, z);
      StrLessTransitive(z, y, x);
      StrLessTrichotomy(x, y);
      StrLessTrichotomy(y, z);
      StrLessAsymmetric(x, z);
    }
  }

  /** With a column that names no field, every pair ranks level. */
  lemma EditInfoRanksAllLevel(order: Order, a: Client, b: Client)
    ensures Compare(order, EditInfo, a, b) == 0
  {
  }
}
