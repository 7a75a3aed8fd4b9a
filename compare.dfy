/** The free comparison operators of SimpleVector, on the live element
    sequences of the two operands. Ordering is lexicographic over the
    element order `lt`, the element type's operator<. */
module VectorCompare {

  /** lt is a strict total order: irreflexive, transitive, and any two
      distinct elements are comparable. */
  ghost predicate StrictTotalOrder<T(!new)>(lt: (T, T) -> bool)
  {
    (forall x :: !lt(x, x)) &&
    (forall x, y, z :: lt(x, y) && lt(y, z) ==> lt(x, z)) &&
    (forall x, y :: x != y ==> lt(x, y) || lt(y, x))
  }

  /** Element-by-element equality of two ranges of the same length, walked
      front to back as std::equal does. */
  function RangeEqual<T(==)>(a: seq<T>, b: seq<T>): (r: bool)
    requires |a| == |b|
    ensures r <==> a == b
  {
    if |a| == 0 then true
    else if a[0] != b[0] then false
    else
      var rest := RangeEqual(a[1..], b[1..]);
      assert a == [a[0]] + a[1..] && b == [b[0]] + b[1..];
      rest
  }

  /** operator==: the sizes match and the elements match position by
      position. */
  function Equal<T(==)>(a: seq<T>, b: seq<T>): (r: bool)
    ensures r <==> a == b
  {
    |a| == |b| && RangeEqual(a, b)
  }

  /** operator!=: the negation of operator==. */
  function NotEqual<T(==)>(a: seq<T>, b: seq<T>): (r: bool)
    ensures r <==> a != b
  {
    !Equal(a, b)
  }

  /** operator<, i.e. std::lexicographical_compare: the first position where
      one element is less than the other decides; when one sequence runs out
      first, it is the lesser exactly when it is the first one and the other
      still has elements. */
  function LexLess<T>(lt: (T, T) -> bool, a: seq<T>, b: seq<T>): (r: bool)
    ensures |b| == 0 ==> !r
    ensures |a| < |b| && a == b[..|a|] ==> r
  {
    if |a| == 0 || |b| == 0 then |a| == 0 && |b| != 0
    else if lt(a[0], b[0]) then true
    else if lt(b[0], a[0]) then false
    else
      var rest := LexLess(lt, a[1..], b[1..]);
      assert |a| < |b| && a == b[..|a|] ==> a[1..] == b[1..][..|a| - 1];
      rest
  }

  /** operator<=: not (b < a). The empty sequence is <= every sequence. */
  function LessOrEqual<T>(lt: (T, T) -> bool, a: seq<T>, b: seq<T>): (r: bool)
    ensures |a| == 0 ==> r
    ensures |b| < |a| && b == a[..|b|] ==> !r
  {
    !LexLess(lt, b, a)
  }

  /** operator>: b < a. Nothing is > the empty sequence, and a sequence is >
      each of its proper prefixes. */
  function Greater<T>(lt: (T, T) -> bool, a: seq<T>, b: seq<T>): (r: bool)
    ensures |a| == 0 ==> !r
    ensures |b| < |a| && b == a[..|b|] ==> r
  {
    LexLess(lt, b, a)
  }

  /** operator>=: not (a < b). Every sequence is >= the empty sequence. */
  function GreaterOrEqual<T>(lt: (T, T) -> bool, a: seq<T>, b: seq<T>): (r: bool)
    ensures |b| == 0 ==> r
    ensures |a| < |b| && a == b[..|a|] ==> !r
  {
    !LexLess(lt, a, b)
  }

  /** The textbook definition of lexicographic order: a is a proper prefix
      of b, or at the first position where they differ a's element is less. */
  ghost predicate LexLessSpec<T>(lt: (T, T) -> bool, a: seq<T>, b: seq<T>)
  {
    (|a| < |b| && a == b[..|a|]) ||
    (exists k :: 0 <= k < |a| && k < |b| && a[..k] == b[..k] && lt(a[k], b[k]))
  }

  /** Under a strict total order, LexLess is exactly the textbook
      lexicographic order, in both directions. */
  lemma {:induction false} LexLessMatchesSpec<T(!new)>(lt: (T, T) -> bool, a: seq<T>, b: seq<T>)
    requires StrictTotalOrder(lt)
    ensures LexLess(lt, a, b) <==> LexLessSpec(lt, a, b)
  {
    if |a| == 0 || |b| == 0 {
    } else if lt(a[0], b[0]) {
      assert a[..0] == b[..0];
    } else if lt(b[0], a[0]) {
    } else {
      assert a[0] == b[0];
      var a', b' := a[1..], b[1..];
      LexLessMatchesSpec(lt, a', b');
      if LexLessSpec(lt, a', b') {
        if |a'| < |b'| && a' == b'[..|a'|] {
          assert a == [a[0]] + a' && b[..|a|] == [b[0]] + b'[..|a'|];
        } else {
          var k :| 0 <= k < |a'| && k < |b'| && a'[..k] == b'[..k] && lt(a'[k], b'[k]);
          assert a[..k + 1] == [a[0]] + a'[..k] && b[..k + 1] == [b[0]] + b'[..k];
          assert lt(a[k + 1], b[k + 1]);
        }
      }
      if LexLessSpec(lt, a, b) {
        if |a| < |b| && a == b[..|a|] {
          assert a' == b'[..|a'|];
        } else {
          var k :| 0 <= k < |a| && k < |b| && a[..k] == b[..k] && lt(a[k], b[k]);
          if k == 0 {
            assert false;
          }
          assert a'[..k - 1] == a[1..k] == b[1..k] == b'[..k - 1];
          assert lt(a'[k - 1], b'[k - 1]);
        }
      }
    }
  }

  /** No sequence is less than itself. */
  lemma {:induction false} LexLessIrreflexive<T(!new)>(lt: (T, T) -> bool, a: seq<T>)
    requires StrictTotalOrder(lt)
    ensures !LexLess(lt, a, a)
  {
    if |a| > 0 {
      LexLessIrreflexive(lt, a[1..]);
    }
  }

  /** The lexicographic order is transitive. */
  lemma {:induction false} LexLessTransitive<T(!new)>(lt: (T, T) -> bool, a: seq<T>, b: seq<T>, c: seq<T>)
    requires StrictTotalOrder(lt)
    requires LexLess(lt, a, b) && LexLess(lt, b, c)
    ensures LexLess(lt, a, c)
  {
    if |a| > 0 && |b| > 0 && |c| > 0 {
      if !lt(a[0], b[0]) && !lt(b[0], c[0]) {
        LexLessTransitive(lt, a[1..], b[1..], c[1..]);
      }
    }
  }

  /** Exactly one of a < b, a == b, b < a holds. */
  lemma {:induction false} LexTrichotomy<T(!new)>(lt: (T, T) -> bool, a: seq<T>, b: seq<T>)
    requires StrictTotalOrder(lt)
    ensures LexLess(lt, a, b) || a == b || LexLess(lt, b, a)
    ensures !(LexLess(lt, a, b) && LexLess(lt, b, a))
    ensures a == b ==> !LexLess(lt, a, b)
  {
    if |a| > 0 && |b| > 0 {
      LexTrichotomy(lt, a[1..], b[1..]);
      if a[1..] == b[1..] && a[0] == b[0] {
        assert a == [a[0]] + a[1..] && b == [b[0]] + b[1..];
      }
    }
    if a == b {
      LexLessIrreflexive(lt, a);
    }
  }

  /** operator<= means "less or equal". */
  lemma LessOrEqualMeansLessOrEqual<T(!new)>(lt: (T, T) -> bool, a: seq<T>, b: seq<T>)
    requires StrictTotalOrder(lt)
    ensures LessOrEqual(lt, a, b) <==> LexLess(lt, a, b) || a == b
  {
    LexTrichotomy(lt, a, b);
  }

  /** operator> is the complement of operator<=: a > b exactly when neither
      a < b nor a == b. */
  lemma GreaterIsNotLessOrEqual<T(!new)>(lt: (T, T) -> bool, a: seq<T>, b: seq<T>)
    requires StrictTotalOrder(lt)
    ensures Greater(lt, a, b) <==> !(LexLess(lt, a, b) || a == b)
  {
    LexTrichotomy(lt, a, b);
  }

  /** operator>= means "greater or equal". */
  lemma GreaterOrEqualMeansGreaterOrEqual<T(!new)>(lt: (T, T) -> bool, a: seq<T>, b: seq<T>)
    requires StrictTotalOrder(lt)
    ensures GreaterOrEqual(lt, a, b) <==> Greater(lt, a, b) || a == b
  {
    LexTrichotomy(lt, a, b);
  }
}
