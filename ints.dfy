/** Python's `min` and `sorted` on sets of integers. */
module Ints {
  predicate Increasing(r: seq<int>)
  {
    forall i, j :: 0 <= i < j < |r| ==> r[i] < r[j]
  }

  predicate IsSmallest(m: int, s: set<int>)
  {
    m in s && forall x :: x in s ==> m <= x
  }

  /** Some element of a non-empty set. */
  lemma Pick<T>(s: set<T>) returns (y: T)
    requires s != {}
    ensures y in s
  {
    y :| y in s;
  }

  lemma {:induction false} SmallestExists(s: set<int>)
    requires s != {}
    ensures exists m :: IsSmallest(m, s)
  {
    var y := Pick(s);
    if s == {y} {
      assert IsSmallest(y, s);
    } else {
      SmallestExists(s - {y});
      var m :| IsSmallest(m, s - {y});
      assert forall x :: x in s ==> x == y || x in s - {y};
      if y < m {
        assert IsSmallest(y, s);
      } else {
        assert IsSmallest(m, s);
      }
    }
  }

  /** Python's `min` on a non-empty set of `int`s. */
  function Smallest(s: set<int>): (m: int)
    requires s != {}
    ensures IsSmallest(m, s)
  {
    SmallestExists(s);
    var m :| IsSmallest(m, s);
    m
  }

  /** Python's `sorted` on a set of `int`s. */
  function SortInts(s: set<int>): (r: seq<int>)
    ensures |r| == |s|
    ensures forall x :: x in r <==> x in s
    ensures Increasing(r)
    decreases s
  {
    if s == {} then []
    else
      var m := Smallest(s);
      var rest := SortInts(s - {m});
      assert forall x :: x in rest ==> m < x;
      [m] + rest
  }
}
