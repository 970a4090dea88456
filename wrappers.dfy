/** Small shared vocabulary: an optional value and integer bounds. */
module Wrappers {

  /** A value that may be absent: a nullable column, an absent request field. */
  datatype Option<T> = None | Some(value: T) {
    function GetOr(default: T): T {
      match this
      case Some(v) => v
      case None => default
    }
  }

  function Max(a: int, b: int): int { if a >= b then a else b }

  function Min(a: int, b: int): int { if a <= b then a else b }

  /** No value occurs twice. */
  predicate NoDup<T(==)>(s: seq<T>) {
    forall i, j :: 0 <= i < j < |s| ==> s[i] != s[j]
  }

  /** The elements of a sequence, as a set. */
  function Elements<T>(s: seq<T>): set<T> {
    set x | x in s
  }

  /** A sequence has at most as many distinct elements as positions, and as many exactly when it has no duplicates. */
  lemma {:induction false} ElementsCard<T>(s: seq<T>)
    ensures |Elements(s)| <= |s|
    ensures |Elements(s)| == |s| <==> NoDup(s)
  {
    if s != [] {
      var n := |s| - 1;
      var init := s[..n];
      ElementsCard(init);
      assert s == init + [s[n]];
      assert Elements(s) == Elements(init) + {s[n]};
      if s[n] in init {
        assert Elements(s) == Elements(init);
        var k :| 0 <= k < n && init[k] == s[n];
        assert s[k] == s[n];
        assert !NoDup(s);
      } else {
        assert s[n] !in Elements(init);
        assert |Elements(s)| == |Elements(init)| + 1;
        if NoDup(init) {
          forall i, j | 0 <= i < j < |s| ensures s[i] != s[j] {
            if j < n { assert s[i] == init[i] && s[j] == init[j]; }
            else { assert s[i] == init[i]; }
          }
        } else {
          var i, j :| 0 <= i < j < n && init[i] == init[j];
          assert s[i] == s[j];
        }
      }
    }
  }

  /** A subset is no larger, and a proper subset is smaller. */
  lemma {:induction false} SubsetCard<T>(a: set<T>, b: set<T>)
    requires a <= b
    ensures |a| <= |b|
    ensures a < b ==> |a| < |b|
  {
    if a != {} {
      var x :| x in a;
      SubsetCard(a - {x}, b - {x});
    } else if b != {} {
      var x :| x in b;
      assert |b| >= 1;
    }
  }
}
