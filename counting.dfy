/** Counting occurrences: a buffer whose cells are read from another buffer
    through an injective index map holds the same multiset of values. */
module Counting {

  /** The positions of s that hold v. */
  function Occ(s: seq<int>, v: int): set<int> {
    set i | 0 <= i < |s| && s[i] == v
  }

  /** The positions of s holding v: those of all but the last, and the
      last if it holds v. */
  lemma OccLast(s: seq<int>, v: int)
    requires s != []
    ensures Occ(s, v) == Occ(s[..|s| - 1], v) + (if s[|s| - 1] == v then {|s| - 1} else {})
  {
  }

  /** The positions of s that do not hold v. */
  function NotOcc(s: seq<int>, v: int): set<int> {
    set i | 0 <= i < |s| && s[i] != v
  }

  /** The multiplicity of v in s is the number of positions holding it. */
  lemma {:induction false} OccCount(s: seq<int>, v: int)
    ensures multiset(s)[v] == |Occ(s, v)|
  {
    if s != [] {
      var init := s[..|s| - 1];
      var last := s[|s| - 1];
      OccCount(init, v);
      assert multiset(s) == multiset(init) + multiset{last} by {
        assert s == init + [last];
      }
      OccLast(s, v);
    }
  }

  /** Every position either holds v or does not. */
  lemma {:induction false} OccSplit(s: seq<int>, v: int)
    ensures |Occ(s, v)| + |NotOcc(s, v)| == |s|
  {
    if s != [] {
      var init := s[..|s| - 1];
      OccSplit(init, v);
      if s[|s| - 1] == v {
        assert Occ(s, v) == Occ(init, v) + {|s| - 1};
        assert NotOcc(s, v) == NotOcc(init, v);
      } else {
        assert Occ(s, v) == Occ(init, v);
        assert NotOcc(s, v) == NotOcc(init, v) + {|s| - 1};
      }
    }
  }

  /** No index map sends two positions to the same place. */
  predicate Injective(sigma: seq<int>) {
    forall i, j :: 0 <= i < j < |sigma| ==> sigma[i] != sigma[j]
  }

  /** An injective map from A into B: A is no larger than B.  (By induction
      on a bound n of the positions in A.) */
  lemma {:induction false} InjectionSize(a: set<int>, b: set<int>, sigma: seq<int>, n: nat)
    requires Injective(sigma) && n <= |sigma|
    requires forall i :: i in a ==> 0 <= i < n && sigma[i] in b
    ensures |a| <= |b|
  {
    if n > 0 {
      var last := n - 1;
      if last in a {
        var a' := a - {last};
        var b' := b - {sigma[last]};
        forall k | k in a'
          ensures sigma[k] in b'
        {
          assert sigma[k] != sigma[last];
        }
        InjectionSize(a', b', sigma, last);
        assert |a'| == |a| - 1 && |b'| == |b| - 1;
      } else {
        InjectionSize(a, b, sigma, last);
      }
    } else {
      assert forall i :: i !in a;
      assert a == {};
    }
  }

  /** If t[p] == s[sigma[p]] for an injective sigma into the positions of s,
      t and s hold the same values with the same multiplicities. */
  lemma PermutedMultiset(s: seq<int>, t: seq<int>, sigma: seq<int>)
    requires |t| == |s| == |sigma| && Injective(sigma)
    requires forall p :: 0 <= p < |t| ==> 0 <= sigma[p] < |s| && t[p] == s[sigma[p]]
    ensures multiset(t) == multiset(s)
  {
    forall v
      ensures multiset(t)[v] == multiset(s)[v]
    {
      OccCount(s, v);
      OccCount(t, v);
      InjectionSize(Occ(t, v), Occ(s, v), sigma, |sigma|);
      InjectionSize(NotOcc(t, v), NotOcc(s, v), sigma, |sigma|);
      OccSplit(s, v);
      OccSplit(t, v);
    }
  }
}
