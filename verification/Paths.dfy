/** Places in a tree: the child taken at each level from the root down, in the order of a preorder walk. */
module Paths {

  type Path = seq<nat>

  /** The walk comes to p first: p is above q, or left of it where they part. */
  predicate Before(p: Path, q: Path) {
    q != [] && (p == [] || p[0] < q[0] || (p[0] == q[0] && Before(p[1..], q[1..])))
  }

  ghost predicate Sorted(ps: seq<Path>) {
    forall i, j :: 0 <= i < j < |ps| ==> Before(ps[i], ps[j])
  }

  /** The same places seen from one level up, through child k. */
  function Under(k: nat, ps: seq<Path>): (qs: seq<Path>)
    ensures |qs| == |ps| && forall i :: 0 <= i < |ps| ==> qs[i] == [k] + ps[i]
  {
    seq(|ps|, i requires 0 <= i < |ps| => [k] + ps[i])
  }

  lemma UnderSorted(k: nat, ps: seq<Path>)
    requires Sorted(ps)
    ensures Sorted(Under(k, ps))
  {
    forall i, j | 0 <= i < j < |ps|
      ensures Before(Under(k, ps)[i], Under(k, ps)[j])
    {
      assert ([k] + ps[i])[1..] == ps[i] && ([k] + ps[j])[1..] == ps[j];
    }
  }

  lemma UnderHas(k: nat, ps: seq<Path>, p: Path)
    requires p in ps
    ensures [k] + p in Under(k, ps)
  {
    var i :| 0 <= i < |ps| && ps[i] == p;
    assert Under(k, ps)[i] == [k] + p;
  }

  /** Places below the first k children, then places below child k. */
  lemma LevelSorted(ps: seq<Path>, k: nat, qs: seq<Path>)
    requires Sorted(ps) && Sorted(qs)
    requires forall i :: 0 <= i < |ps| ==> ps[i] != [] && ps[i][0] < k
    ensures Sorted(ps + Under(k, qs))
    ensures forall i :: 0 <= i < |ps + Under(k, qs)| ==> (ps + Under(k, qs))[i] != [] && (ps + Under(k, qs))[i][0] < k + 1
  {
    UnderSorted(k, qs);
    var under := Under(k, qs);
    forall i, j | 0 <= i < j < |ps + under|
      ensures Before((ps + under)[i], (ps + under)[j])
    {
      if i < |ps| && j >= |ps| {
        assert (ps + under)[j] == under[j - |ps|];
      } else if i >= |ps| {
        assert Before(under[i - |ps|], under[j - |ps|]);
      }
    }
  }

  lemma RootSorted(ps: seq<Path>)
    requires Sorted(ps) && forall i :: 0 <= i < |ps| ==> ps[i] != []
    ensures Sorted([[]] + ps)
  {
    var all: seq<Path> := [[]] + ps;
    forall i, j | 0 <= i < j < |all|
      ensures Before(all[i], all[j])
    {
      if i > 0 {
        assert Before(ps[i - 1], ps[j - 1]);
      }
    }
  }
}
