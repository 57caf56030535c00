/** The pigeonhole principle on sequences of bounded naturals, used to show
    that the rho walk, which lives in a finite box of points, must repeat. */
module Counting {

  /** Every element of s lies in [0, bound). */
  predicate Bounded(s: seq<int>, bound: int) {
    forall i :: 0 <= i < |s| ==> 0 <= s[i] < bound
  }

  /** Some value occurs twice in s. */
  predicate HasRepeat(s: seq<int>) {
    exists i, j :: 0 <= i < j < |s| && s[i] == s[j]
  }

  /** Replaces every occurrence of top in s by v. */
  function Fold(s: seq<int>, top: int, v: int): (t: seq<int>)
    ensures |t| == |s|
    ensures forall i :: 0 <= i < |s| ==> t[i] == (if s[i] == top then v else s[i])
  {
    if s == [] then [] else Fold(s[..|s| - 1], top, v) + [if s[|s| - 1] == top then v else s[|s| - 1]]
  }

  /** More than bound values drawn from [0, bound) contain a repeat. */
  lemma {:induction false} Pigeonhole(s: seq<int>, bound: nat)
    requires |s| > bound
    requires Bounded(s, bound)
    ensures HasRepeat(s)
    decreases bound
  {
    var last := |s| - 1;
    var v := s[last];
    var init := s[..last];
    if exists i :: 0 <= i < last && s[i] == v {
      var i :| 0 <= i < last && s[i] == v;
      assert s[i] == s[last];
    } else {
      var t := Fold(init, bound - 1, v);
      assert Bounded(t, bound - 1) by {
        forall i | 0 <= i < |t|
          ensures 0 <= t[i] < bound - 1
        {
          assert s[i] != v;
        }
      }
      Pigeonhole(t, bound - 1);
      var i, j :| 0 <= i < j < |t| && t[i] == t[j];
      assert s[i] == s[j] by {
        assert s[i] != v && s[j] != v;
      }
    }
  }

  /** The positions of a repeat that Pigeonhole guarantees. */
  lemma RepeatAt(s: seq<int>, bound: nat) returns (i: nat, j: nat)
    requires |s| > bound
    requires Bounded(s, bound)
    ensures i < j < |s| && s[i] == s[j]
  {
    Pigeonhole(s, bound);
    i, j :| i < j < |s| && s[i] == s[j];
  }
}
