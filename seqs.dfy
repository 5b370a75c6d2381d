/** Order-preserving selection from a sequence: the model of JavaScript's
    `Array.prototype.filter`, which every derived view of the task list uses. */
module Seqs {

  /** The elements of `s` that satisfy `p`, in the order they have in `s`. */
  function Select<T(==)>(s: seq<T>, p: T -> bool): (r: seq<T>)
    ensures |r| <= |s|
    ensures forall x :: x in r ==> x in s && p(x)
    ensures forall x :: x in s && p(x) ==> x in r
    decreases |s|
  {
    if s == [] then []
    else if p(s[0]) then [s[0]] + Select(s[1..], p)
    else Select(s[1..], p)
  }

  /** Selection leaves the sequence unchanged exactly when every element satisfies `p`. */
  lemma {:induction false} SelectKeepsAll<T>(s: seq<T>, p: T -> bool)
    ensures Select(s, p) == s <==> forall x :: x in s ==> p(x)
    decreases |s|
  {
    if s != [] {
      SelectKeepsAll(s[1..], p);
      assert s == [s[0]] + s[1..];
    }
  }

  /** The positions j in [i, |s|) whose element satisfies `p`, in ascending order. */
  function PositionsFrom<T>(s: seq<T>, p: T -> bool, i: nat): (ix: seq<nat>)
    requires i <= |s|
    ensures forall k :: 0 <= k < |ix| ==> i <= ix[k] < |s| && p(s[ix[k]])
    ensures forall k, m :: 0 <= k < m < |ix| ==> ix[k] < ix[m]
    ensures forall j :: i <= j < |s| && p(s[j]) ==> j in ix
    decreases |s| - i
  {
    if i == |s| then []
    else if p(s[i]) then [i] + PositionsFrom(s, p, i + 1)
    else PositionsFrom(s, p, i + 1)
  }

  lemma {:induction false} SelectFollowsPositions<T>(s: seq<T>, p: T -> bool, i: nat)
    requires i <= |s|
    ensures |Select(s[i..], p)| == |PositionsFrom(s, p, i)|
    ensures forall k :: 0 <= k < |Select(s[i..], p)| ==>
              Select(s[i..], p)[k] == s[PositionsFrom(s, p, i)[k]]
    decreases |s| - i
  {
    if i < |s| {
      var here, rest := s[i..], s[i + 1..];
      assert here[0] == s[i] && here[1..] == rest;
      SelectFollowsPositions(s, p, i + 1);
      var r, ix := Select(rest, p), PositionsFrom(s, p, i + 1);
      if p(s[i]) {
        assert Select(here, p) == [s[i]] + r;
        assert PositionsFrom(s, p, i) == [i] + ix;
        forall k | 0 <= k < |r| + 1
          ensures ([s[i]] + r)[k] == s[([i] + ix)[k]]
        {
          if k > 0 {
            assert ([s[i]] + r)[k] == r[k - 1] && ([i] + ix)[k] == ix[k - 1];
          }
        }
      } else {
        assert Select(here, p) == r;
        assert PositionsFrom(s, p, i) == ix;
      }
    }
  }

  /** Selection keeps exactly the satisfying positions, in ascending order:
      the k-th selected element is the element at the k-th satisfying position. */
  lemma {:induction false} SelectInOrder<T>(s: seq<T>, p: T -> bool)
    ensures |Select(s, p)| == |PositionsFrom(s, p, 0)|
    ensures forall k :: 0 <= k < |Select(s, p)| ==> Select(s, p)[k] == s[PositionsFrom(s, p, 0)[k]]
  {
    SelectFollowsPositions(s, p, 0);
    assert s[0..] == s;
  }

  /** Selecting from a sequence with one more element in front: that element
      comes first if it satisfies `p`, followed by the selection from the rest. */
  lemma SelectCons<T>(x: T, s: seq<T>, p: T -> bool)
    ensures Select([x] + s, p) == (if p(x) then [x] + Select(s, p) else Select(s, p))
  {
    var xs := [x] + s;
    assert xs[0] == x && xs[1..] == s;
  }

  /** Selection depends only on the values of the predicate. */
  lemma {:induction false} SelectExt<T>(s: seq<T>, p: T -> bool, q: T -> bool)
    requires forall x :: p(x) <==> q(x)
    ensures Select(s, p) == Select(s, q)
    decreases |s|
  {
    if s != [] {
      SelectExt(s[1..], p, q);
    }
  }

  /** Selecting by a predicate and by its negation splits `s` in two, with nothing
      lost and nothing shared. */
  lemma {:induction false} SelectPartition<T>(s: seq<T>, p: T -> bool, q: T -> bool)
    requires forall x :: q(x) <==> !p(x)
    ensures |Select(s, p)| + |Select(s, q)| == |s|
    ensures multiset(Select(s, p)) + multiset(Select(s, q)) == multiset(s)
    decreases |s|
  {
    if s != [] {
      SelectPartition(s[1..], p, q);
      assert s == [s[0]] + s[1..];
    }
  }

  /** Replacing one element changes the number selected by at most the two
      elements involved. */
  lemma {:induction false} SelectUpdateCount<T>(s: seq<T>, k: nat, x: T, p: T -> bool)
    requires k < |s|
    ensures |Select(s[k := x], p)| ==
            |Select(s, p)| - (if p(s[k]) then 1 else 0) + (if p(x) then 1 else 0)
    decreases |s|
  {
    if k == 0 {
      assert s[k := x][1..] == s[1..];
    } else {
      SelectUpdateCount(s[1..], k - 1, x, p);
      assert s[k := x][1..] == s[1..][k - 1 := x];
    }
  }
}
