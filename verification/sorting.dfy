/** Array.prototype.sort with a comparator that orders by a numeric weight,
    taken as a stable sort: elements of equal weight keep their order. */
module Sorting {

  predicate SortedBy<T>(s: seq<T>, w: T -> nat)
  {
    forall i, j :: 0 <= i < j < |s| ==> w(s[i]) <= w(s[j])
  }

  /** Puts x in front of the first element that is not lighter than it. */
  function Insert<T>(x: T, s: seq<T>, w: T -> nat): seq<T>
  {
    if s == [] || w(x) <= w(s[0]) then [x] + s else [s[0]] + Insert(x, s[1..], w)
  }

  function SortBy<T>(s: seq<T>, w: T -> nat): seq<T>
  {
    if s == [] then [] else Insert(s[0], SortBy(s[1..], w), w)
  }

  // ===== proofs =====

  lemma {:induction false} InsertPerm<T>(x: T, s: seq<T>, w: T -> nat)
    ensures multiset(Insert(x, s, w)) == multiset(s) + multiset{x}
    ensures |Insert(x, s, w)| == |s| + 1
  {
    if s != [] && w(x) > w(s[0]) {
      InsertPerm(x, s[1..], w);
      assert s == [s[0]] + s[1..];
    }
  }

  lemma {:induction false} InsertSpec<T>(x: T, s: seq<T>, w: T -> nat)
    requires SortedBy(s, w)
    ensures SortedBy(Insert(x, s, w), w)
    ensures multiset(Insert(x, s, w)) == multiset(s) + multiset{x}
    ensures |Insert(x, s, w)| == |s| + 1
  {
    InsertPerm(x, s, w);
    if s != [] && w(x) > w(s[0]) {
      var tail := s[1..];
      assert SortedBy(tail, w) by {
        forall i, j | 0 <= i < j < |tail| ensures w(tail[i]) <= w(tail[j]) {
          assert tail[i] == s[i + 1] && tail[j] == s[j + 1];
        }
      }
      InsertSpec(x, tail, w);
      var rest := Insert(x, tail, w);
      assert rest[0] == x || rest[0] == s[1];
      var r := [s[0]] + rest;
      forall i, j | 0 <= i < j < |r| ensures w(r[i]) <= w(r[j]) {
        if i == 0 {
          assert r[j] == rest[j - 1];
          assert w(rest[0]) <= w(rest[j - 1]);
        } else {
          assert r[i] == rest[i - 1] && r[j] == rest[j - 1];
        }
      }
    }
  }

  /** The sort yields its input's elements, each as often as there, in
      ascending weight. */
  lemma {:induction false} SortBySpec<T>(s: seq<T>, w: T -> nat)
    ensures SortedBy(SortBy(s, w), w)
    ensures multiset(SortBy(s, w)) == multiset(s)
    ensures |SortBy(s, w)| == |s|
  {
    if s != [] {
      var r := SortBy(s[1..], w);
      SortBySpec(s[1..], w);
      InsertSpec(s[0], r, w);
      assert SortBy(s, w) == Insert(s[0], r, w);
      assert s == [s[0]] + s[1..];
      assert multiset(s) == multiset{s[0]} + multiset(s[1..]);
    }
  }

  /** Input already in weight order is left as it is. */
  lemma {:induction false} SortBySorted<T>(s: seq<T>, w: T -> nat)
    requires SortedBy(s, w)
    ensures SortBy(s, w) == s
  {
    if s != [] {
      assert SortedBy(s[1..], w) by {
        forall i, j | 0 <= i < j < |s[1..]| ensures w(s[1..][i]) <= w(s[1..][j]) {
          assert s[1..][i] == s[i + 1] && s[1..][j] == s[j + 1];
        }
      }
      SortBySorted(s[1..], w);
      if |s| > 1 {
        assert w(s[0]) <= w(s[1]);
      }
    }
  }
}
