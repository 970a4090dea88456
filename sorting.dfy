/**
 * A stable insertion sort over a strict "comes before" relation. It stands for the
 * orderings the system asks of others: the database's ORDER BY in the flight list
 * and Array.prototype.sort with a comparator in the seat-selection page.
 */
module Sorting {

  /** Inserts x after every element, counted from the back, that x does not come before. */
  function Insert<T>(t: seq<T>, x: T, less: (T, T) -> bool): (r: seq<T>)
    ensures multiset(r) == multiset(t) + multiset{x}
  {
    if t == [] then [x]
    else if less(x, t[|t| - 1]) then
      assert t == t[..|t| - 1] + [t[|t| - 1]];
      Insert(t[..|t| - 1], x, less) + [t[|t| - 1]]
    else t + [x]
  }

  /** Sorting only rearranges: the result holds exactly the input's elements, as often. */
  function Sort<T>(s: seq<T>, less: (T, T) -> bool): (r: seq<T>)
    ensures multiset(r) == multiset(s)
  {
    if s == [] then []
    else
      assert s == s[..|s| - 1] + [s[|s| - 1]];
      Insert(Sort(s[..|s| - 1], less), s[|s| - 1], less)
  }

  /** No element comes before one to its left. */
  ghost predicate SortedBy<T>(s: seq<T>, less: (T, T) -> bool) {
    forall i, j :: 0 <= i < j < |s| ==> !less(s[j], s[i])
  }

  /**
   * On the elements of s, `less` is asymmetric and negatively transitive: a strict weak
   * order, as a comparator must be for a sort to order anything.
   */
  ghost predicate StrictWeakOn<T>(s: seq<T>, less: (T, T) -> bool) {
    && (forall x, y :: x in s && y in s && less(x, y) ==> !less(y, x))
    && (forall x, y, z :: x in s && y in s && z in s && less(x, z) ==> less(x, y) || less(y, z))
  }

  lemma InPermutation<T>(a: seq<T>, b: seq<T>, y: T)
    requires multiset(a) == multiset(b)
    ensures y in a <==> y in b
  {
    assert y in a <==> y in multiset(a);
    assert y in b <==> y in multiset(b);
  }

  lemma {:induction false} InsertSorted<T>(t: seq<T>, x: T, less: (T, T) -> bool)
    requires SortedBy(t, less) && StrictWeakOn(t + [x], less)
    ensures SortedBy(Insert(t, x, less), less)
  {
    if t != [] {
      var n := |t| - 1;
      var last := t[n];
      assert last in t + [x] && x in t + [x];
      if less(x, last) {
        var init := t[..n];
        assert forall y :: y in init + [x] ==> y in t + [x];
        InsertSorted(init, x, less);
        var front := Insert(init, x, less);
        forall y | y in front ensures !less(last, y) {
          assert y in multiset(front);
          if y != x {
            assert y in init;
            var k :| 0 <= k < n && init[k] == y;
            assert t[k] == y;
          }
        }
        AppendSorted(front, last, less);
      } else {
        forall y | y in t ensures !less(x, y) {
          var k :| 0 <= k < |t| && t[k] == y;
          assert y in t + [x];
          if k < n { assert !less(last, t[k]); }
        }
        AppendSorted(t, x, less);
      }
    }
  }

  /** A sorted sequence stays sorted when an element that comes before none of it is appended. */
  lemma AppendSorted<T>(s: seq<T>, x: T, less: (T, T) -> bool)
    requires SortedBy(s, less)
    requires forall y :: y in s ==> !less(x, y)
    ensures SortedBy(s + [x], less)
  {
    var r := s + [x];
    forall i, j | 0 <= i < j < |r| ensures !less(r[j], r[i]) {
      if j < |s| {
        assert r[i] == s[i] && r[j] == s[j];
      } else {
        assert r[i] == s[i] && s[i] in s;
      }
    }
  }

  /** Given a strict weak order on its elements, the result is sorted. */
  lemma {:induction false} SortSorted<T>(s: seq<T>, less: (T, T) -> bool)
    requires StrictWeakOn(s, less)
    ensures SortedBy(Sort(s, less), less)
  {
    if s != [] {
      var n := |s| - 1;
      var init := s[..n];
      assert forall y :: y in init ==> y in s;
      SortSorted(init, less);
      var t := Sort(init, less);
      forall y | y in t + [s[n]] ensures y in s {
        if y != s[n] { InPermutation(t, init, y); }
      }
      InsertSorted(t, s[n], less);
    }
  }

  /** The sort is stable: a sequence already in order comes back unchanged. */
  lemma {:induction false} SortKeepsSorted<T>(s: seq<T>, less: (T, T) -> bool)
    requires SortedBy(s, less)
    ensures Sort(s, less) == s
  {
    if s != [] {
      var n := |s| - 1;
      SortKeepsSorted(s[..n], less);
      if n > 0 { assert !less(s[n], s[n - 1]); }
      assert s == s[..n] + [s[n]];
    }
  }
}
