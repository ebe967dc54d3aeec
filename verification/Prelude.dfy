/** Small shared vocabulary: optional values, duplicate-free sequences and the pigeonhole facts about them. */
module Prelude {

  datatype Option<+T> = None | Some(value: T)

  predicate Distinct<T(==)>(s: seq<T>) {
    forall i, j :: 0 <= i < j < |s| ==> s[i] != s[j]
  }

  /** `s` without its element at position `i`. */
  function RemoveAt<T>(s: seq<T>, i: nat): seq<T>
    requires i < |s|
  {
    s[..i] + s[i + 1..]
  }

  lemma RemoveAtElements<T>(s: seq<T>, i: nat)
    requires i < |s| && Distinct(s)
    ensures Distinct(RemoveAt(s, i))
    ensures forall x :: x in RemoveAt(s, i) <==> x in s && x != s[i]
  {
    var r := RemoveAt(s, i);
    assert forall k :: 0 <= k < |r| ==> r[k] == (if k < i then s[k] else s[k + 1]);
    forall x | x in s && x != s[i] ensures x in r {
      var k :| 0 <= k < |s| && s[k] == x;
      assert r[if k < i then k else k - 1] == x;
    }
  }

  /** Pigeonhole: a duplicate-free sequence drawn from a finite set is no longer than the set. */
  lemma {:induction false} DistinctBound<T>(s: seq<T>, universe: set<T>)
    requires Distinct(s)
    requires forall x :: x in s ==> x in universe
    ensures |s| <= |universe|
  {
    if s != [] {
      var last := s[|s| - 1];
      assert last in s;
      forall x | x in s[..|s| - 1] ensures x in universe - {last} {
        assert x in s;
      }
      DistinctBound(s[..|s| - 1], universe - {last});
    }
  }

  lemma SubsetOfSameSize<T>(a: set<T>, b: set<T>)
    requires a <= b && |a| == |b|
    ensures a == b
  {
    assert |b - a| == |b| - |a|;
  }

  lemma SubsetSize<T>(a: set<T>, b: set<T>)
    requires a <= b
    ensures |a| <= |b|
  {
    assert |b - a| == |b| - |a|;
  }

  /** If `p` holds at first and a step loses it exactly at `q`, then `p` holds throughout exactly when `q` never happens. */
  lemma {:induction false} ExactlyKept(p: nat -> bool, q: nat -> bool, n: nat)
    requires p(0) && forall i: nat :: i < n && p(i) ==> (p(i + 1) <==> !q(i))
    ensures (forall i: nat :: i <= n ==> p(i)) <==> (forall i: nat :: i < n ==> !q(i))
  {
    if n > 0 {
      ExactlyKept(p, q, n - 1);
      var last := n - 1;
      if forall i: nat :: i < n ==> !q(i) {
        assert p(last) && !q(last) && p(last + 1);
      }
    }
    if forall i: nat :: i <= n ==> p(i) {
      forall i: nat | i < n ensures !q(i) {
        assert p(i) && p(i + 1);
      }
    }
  }
}
