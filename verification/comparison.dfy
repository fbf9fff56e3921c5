/**
 The free comparison operators of SimpleVector, over the live elements of the
 two operands: equality by size and element, and lexicographic order, from
 which <=, > and >= are derived.
 */
module Comparison {

  /** std::equal on [begin, end) of lhs against rhs from its begin: rhs must be at least as long. */
  predicate RangeEqual(lhs: seq<int>, rhs: seq<int>)
    requires |lhs| <= |rhs|
  {
    forall i :: 0 <= i < |lhs| ==> lhs[i] == rhs[i]
  }

  /** operator==: sizes differ means unequal, otherwise compare element by element. */
  function Equal(lhs: seq<int>, rhs: seq<int>): (r: bool)
    ensures r <==> lhs == rhs
  {
    if |lhs| != |rhs| then false else RangeEqual(lhs, rhs)
  }

  /** operator!=: written out separately in the same shape as operator==. */
  function NotEqual(lhs: seq<int>, rhs: seq<int>): (r: bool)
    ensures r <==> !Equal(lhs, rhs)
    ensures r <==> lhs != rhs
  {
    if |lhs| != |rhs| then true else !RangeEqual(lhs, rhs)
  }

  /**
   operator<: std::lexicographical_compare. Walks both ranges together; rhs running
   out first (or together) means not less, lhs running out first means less, and the
   first differing pair of elements decides.
   */
  function Less(lhs: seq<int>, rhs: seq<int>): (r: bool)
    ensures r ==> lhs != rhs
    ensures |lhs| < |rhs| && lhs == rhs[..|lhs|] ==> r
    decreases |rhs|
  {
    if |rhs| == 0 then false
    else if |lhs| == 0 then true
    else if lhs[0] < rhs[0] then true
    else if rhs[0] < lhs[0] then false
    else Less(lhs[1..], rhs[1..])
  }

  /** operator<=: equal or less, which is exactly "rhs is not less than lhs". */
  function LessOrEqual(lhs: seq<int>, rhs: seq<int>): (r: bool)
    ensures r <==> !Less(rhs, lhs)
  {
    LessTrichotomy(lhs, rhs);
    LessAsymmetric(lhs, rhs);
    Equal(lhs, rhs) || Less(lhs, rhs)
  }

  /** operator>: not less-or-equal, which is exactly the converse of operator<. */
  function Greater(lhs: seq<int>, rhs: seq<int>): (r: bool)
    ensures r <==> Less(rhs, lhs)
  {
    !LessOrEqual(lhs, rhs)
  }

  /** operator>=: not less, which is exactly the converse of operator<=. */
  function GreaterOrEqual(lhs: seq<int>, rhs: seq<int>): (r: bool)
    ensures r <==> LessOrEqual(rhs, lhs)
  {
    !Less(lhs, rhs)
  }

  /**
   The textbook definition of lexicographic order: after a common prefix of length k,
   either lhs is exhausted while rhs is not (a proper prefix), or lhs[k] < rhs[k].
   */
  ghost predicate LexicographicallyBefore(lhs: seq<int>, rhs: seq<int>) {
    exists k :: 0 <= k <= |lhs| && k <= |rhs| && lhs[..k] == rhs[..k] &&
      ((k == |lhs| && k < |rhs|) || (k < |lhs| && k < |rhs| && lhs[k] < rhs[k]))
  }

  /** operator< is exactly lexicographic order, with a proper prefix counting as less. */
  lemma {:induction false} LessIsLexicographic(lhs: seq<int>, rhs: seq<int>)
    ensures Less(lhs, rhs) <==> LexicographicallyBefore(lhs, rhs)
    decreases |rhs|
  {
    if |rhs| == 0 {
    } else if |lhs| == 0 || lhs[0] < rhs[0] {
      assert lhs[..0] == rhs[..0];
    } else if rhs[0] < lhs[0] {
    } else {
      var lt, rt := lhs[1..], rhs[1..];
      LessIsLexicographic(lt, rt);
      if LexicographicallyBefore(lhs, rhs) {
        var k :| 0 <= k <= |lhs| && k <= |rhs| && lhs[..k] == rhs[..k] &&
          ((k == |lhs| && k < |rhs|) || (k < |lhs| && k < |rhs| && lhs[k] < rhs[k]));
        assert k > 0;
        assert lt[..k - 1] == lhs[..k][1..];
        assert rt[..k - 1] == rhs[..k][1..];
        assert LexicographicallyBefore(lt, rt);
      }
      if LexicographicallyBefore(lt, rt) {
        var j :| 0 <= j <= |lt| && j <= |rt| && lt[..j] == rt[..j] &&
          ((j == |lt| && j < |rt|) || (j < |lt| && j < |rt| && lt[j] < rt[j]));
        assert lhs[..j + 1] == [lhs[0]] + lt[..j];
        assert rhs[..j + 1] == [rhs[0]] + rt[..j];
        assert LexicographicallyBefore(lhs, rhs);
      }
    }
  }

  /** operator< is asymmetric, hence irreflexive: no vector is less than itself. */
  lemma {:induction false} LessAsymmetric(a: seq<int>, b: seq<int>)
    ensures !(Less(a, b) && Less(b, a))
    ensures !Less(a, a)
    decreases |a|
  {
    if |a| > 0 && |b| > 0 && a[0] == b[0] {
      LessAsymmetric(a[1..], b[1..]);
    }
    if |a| > 0 {
      LessAsymmetric(a[1..], a[1..]);
    }
  }

  /** operator< is transitive. */
  lemma {:induction false} LessTransitive(a: seq<int>, b: seq<int>, c: seq<int>)
    requires Less(a, b) && Less(b, c)
    ensures Less(a, c)
    decreases |a|
  {
    if |a| > 0 && a[0] == b[0] && b[0] == c[0] {
      LessTransitive(a[1..], b[1..], c[1..]);
    }
  }

  /** Any two vectors are ordered one way or the other, or are equal. */
  lemma {:induction false} LessTrichotomy(a: seq<int>, b: seq<int>)
    ensures Less(a, b) || a == b || Less(b, a)
    decreases |a|
  {
    if |a| > 0 && |b| > 0 && a[0] == b[0] {
      LessTrichotomy(a[1..], b[1..]);
      if a[1..] == b[1..] {
        assert a == [a[0]] + a[1..];
        assert b == [b[0]] + b[1..];
      }
    }
  }
}
