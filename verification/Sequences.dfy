/** Mapping each element of a sequence to a sequence and concatenating the results. */
module Sequences {

  function FlatMap<A, B>(f: A -> seq<B>, xs: seq<A>): seq<B> {
    if xs == [] then [] else FlatMap(f, xs[..|xs| - 1]) + f(xs[|xs| - 1])
  }

  lemma {:induction false} FlatMapConcat<A, B>(f: A -> seq<B>, xs: seq<A>, ys: seq<A>)
    ensures FlatMap(f, xs + ys) == FlatMap(f, xs) + FlatMap(f, ys)
    decreases |ys|
  {
    if ys == [] {
      assert xs + ys == xs;
    } else {
      assert (xs + ys)[..|xs + ys| - 1] == xs + ys[..|ys| - 1];
      FlatMapConcat(f, xs, ys[..|ys| - 1]);
    }
  }

  lemma FlatMapOne<A, B>(f: A -> seq<B>, x: A)
    ensures FlatMap(f, [x]) == f(x)
  {
    assert [x][..0] == [];
  }

  lemma FlatMapPrefix<A, B>(f: A -> seq<B>, xs: seq<A>, k: nat)
    requires k < |xs|
    ensures FlatMap(f, xs[..k + 1]) == FlatMap(f, xs[..k]) + f(xs[k])
  {
    assert xs[..k + 1][..k] == xs[..k];
  }

  /** Two passes in a row are one pass with their composition. */
  lemma {:induction false} FlatMapFuses<A, B, C>(f: A -> seq<B>, g: B -> seq<C>, h: A -> seq<C>, xs: seq<A>)
    requires forall i :: 0 <= i < |xs| ==> FlatMap(g, f(xs[i])) == h(xs[i])
    ensures FlatMap(g, FlatMap(f, xs)) == FlatMap(h, xs)
    decreases |xs|
  {
    if xs != [] {
      var init := xs[..|xs| - 1];
      FlatMapFuses(f, g, h, init);
      FlatMapConcat(g, FlatMap(f, init), f(xs[|xs| - 1]));
    }
  }

  lemma {:induction false} InFlatMap<A, B>(f: A -> seq<B>, xs: seq<A>, y: B)
    ensures y in FlatMap(f, xs) <==> exists i :: 0 <= i < |xs| && y in f(xs[i])
    decreases |xs|
  {
    if xs != [] {
      var init := xs[..|xs| - 1];
      InFlatMap(f, init, y);
      if i :| 0 <= i < |xs| && y in f(xs[i]) {
        assert i < |init| ==> init[i] == xs[i];
      }
      if y in FlatMap(f, init) {
        var i :| 0 <= i < |init| && y in f(init[i]);
        assert xs[i] == init[i];
      }
    }
  }

  lemma FlatMapGrows<A, B>(f: A -> seq<B>, xs: seq<A>, k: nat)
    requires k <= |xs|
    ensures |FlatMap(f, xs[..k])| <= |FlatMap(f, xs)|
  {
    FlatMapConcat(f, xs[..k], xs[k..]);
    assert xs[..k] + xs[k..] == xs;
  }

  lemma {:induction false} FlatMapAtMostOne<A, B>(f: A -> seq<B>, xs: seq<A>)
    requires forall i :: 0 <= i < |xs| ==> |f(xs[i])| <= 1
    ensures |FlatMap(f, xs)| <= |xs|
    decreases |xs|
  {
    if xs != [] {
      FlatMapAtMostOne(f, xs[..|xs| - 1]);
    }
  }

  /** A pass that keeps or drops each element: where each kept one was, in the same order. */
  lemma {:induction false} Positions<A, B>(f: A -> seq<B>, xs: seq<A>) returns (from: seq<nat>)
    requires forall i :: 0 <= i < |xs| ==> |f(xs[i])| <= 1
    ensures |from| == |FlatMap(f, xs)|
    ensures forall j :: 0 <= j < |from| ==> from[j] < |xs| && f(xs[from[j]]) == [FlatMap(f, xs)[j]]
    ensures forall j, k :: 0 <= j < k < |from| ==> from[j] < from[k]
    ensures forall i :: 0 <= i < |xs| && f(xs[i]) != [] ==> i in from
    decreases |xs|
  {
    hide FlatMap;
    from := [];
    FlatMapNone(f);
    if xs != [] {
      var init, last := xs[..|xs| - 1], xs[|xs| - 1];
      FlatMapLast(f, xs);
      from := Positions(f, init);
      assert forall j :: 0 <= j < |from| ==> init[from[j]] == xs[from[j]];
      assert forall i :: 0 <= i < |init| && f(xs[i]) != [] ==> f(init[i]) != [];
      if f(last) != [] {
        from := from + [|xs| - 1];
      } else {
        assert FlatMap(f, xs) == FlatMap(f, init);
      }
    }
  }

  lemma FlatMapNone<A, B>(f: A -> seq<B>)
    ensures FlatMap(f, []) == []
  {
  }

  lemma FlatMapLast<A, B>(f: A -> seq<B>, xs: seq<A>)
    requires xs != []
    ensures FlatMap(f, xs) == FlatMap(f, xs[..|xs| - 1]) + f(xs[|xs| - 1])
  {
  }
}
