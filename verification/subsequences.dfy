/** Keeping, in order, the elements of a sequence for which a step
    succeeds, with the step's result in their place: the shape of the Go
    loops that `append` only when a lookup returns `ok`. */
module Subsequences {
  import opened Wrappers

  function Keep<A, B>(xs: seq<A>, f: A -> Option<B>): (ys: seq<B>)
    ensures |ys| <= |xs|
  {
    if |xs| == 0 then []
    else
      var rest := Keep(xs[1..], f);
      match f(xs[0])
      case None => rest
      case Some(y) => [y] + rest
  }

  /** idx lists, in increasing order, the positions of xs where f succeeds,
      and ys holds f's results there. */
  ghost predicate Sources<A, B>(xs: seq<A>, f: A -> Option<B>, ys: seq<B>, idx: seq<nat>)
  {
    && |idx| == |ys|
    && (forall a, b :: 0 <= a < b < |idx| ==> idx[a] < idx[b])
    && (forall k :: 0 <= k < |idx| ==> idx[k] < |xs| && f(xs[idx[k]]) == Some(ys[k]))
    && (forall i :: 0 <= i < |xs| ==> (f(xs[i]).Some? <==> i in idx))
  }

  /** The positions, counted from offset, of the elements where f succeeds. */
  function KeptFrom<A, B>(xs: seq<A>, f: A -> Option<B>, offset: nat): (idx: seq<nat>)
    ensures forall k :: 0 <= k < |idx| ==> offset <= idx[k] < offset + |xs|
  {
    if |xs| == 0 then []
    else (if f(xs[0]).Some? then [offset] else []) + KeptFrom(xs[1..], f, offset + 1)
  }

  lemma {:induction false} KeptIncreasing<A, B>(xs: seq<A>, f: A -> Option<B>, offset: nat)
    ensures forall a, b :: 0 <= a < b < |KeptFrom(xs, f, offset)| ==>
              KeptFrom(xs, f, offset)[a] < KeptFrom(xs, f, offset)[b]
  {
    if |xs| > 0 {
      KeptIncreasing(xs[1..], f, offset + 1);
      var idx := KeptFrom(xs, f, offset);
      var rest := KeptFrom(xs[1..], f, offset + 1);
      if f(xs[0]).Some? {
        assert idx == [offset] + rest;
        forall a, b | 0 <= a < b < |idx| ensures idx[a] < idx[b] {
          assert idx[b] == rest[b - 1];
          if a > 0 {
            assert idx[a] == rest[a - 1];
          }
        }
      } else {
        assert idx == rest;
      }
    }
  }

  /** Each kept position holds the element whose result is kept there. */
  ghost predicate ValuesAt<A, B>(xs: seq<A>, f: A -> Option<B>, offset: nat, idx: seq<nat>, ys: seq<B>)
  {
    && |idx| == |ys|
    && forall k :: 0 <= k < |idx| ==> offset <= idx[k] < offset + |xs| && f(xs[idx[k] - offset]) == Some(ys[k])
  }

  lemma ValuesAtCons<A, B>(xs: seq<A>, f: A -> Option<B>, offset: nat)
    requires |xs| > 0
    requires ValuesAt(xs[1..], f, offset + 1, KeptFrom(xs[1..], f, offset + 1), Keep(xs[1..], f))
    ensures ValuesAt(xs, f, offset, KeptFrom(xs, f, offset), Keep(xs, f))
  {
    var idx := KeptFrom(xs, f, offset);
    var rest := KeptFrom(xs[1..], f, offset + 1);
    var ys := Keep(xs, f);
    var restYs := Keep(xs[1..], f);
    var h := if f(xs[0]).Some? then 1 else 0;
    assert |idx| == h + |rest| && |ys| == h + |restYs|;
    forall k | h <= k < |idx| ensures f(xs[idx[k] - offset]) == Some(ys[k]) {
      assert idx[k] == rest[k - h] && ys[k] == restYs[k - h];
      assert xs[1..][rest[k - h] - (offset + 1)] == xs[idx[k] - offset];
    }
  }

  lemma {:induction false} KeptValues<A, B>(xs: seq<A>, f: A -> Option<B>, offset: nat)
    ensures ValuesAt(xs, f, offset, KeptFrom(xs, f, offset), Keep(xs, f))
  {
    if |xs| > 0 {
      KeptValues(xs[1..], f, offset + 1);
      ValuesAtCons(xs, f, offset);
    }
  }

  lemma {:induction false} KeptMembers<A, B>(xs: seq<A>, f: A -> Option<B>, offset: nat)
    ensures forall i :: 0 <= i < |xs| ==> (f(xs[i]).Some? <==> offset + i in KeptFrom(xs, f, offset))
  {
    if |xs| > 0 {
      KeptMembers(xs[1..], f, offset + 1);
      var rest := KeptFrom(xs[1..], f, offset + 1);
      assert offset !in rest;
      forall i | 1 <= i < |xs| ensures f(xs[i]).Some? <==> offset + i in KeptFrom(xs, f, offset) {
        assert xs[1..][i - 1] == xs[i];
      }
    }
  }

  /** The kept results appear in the order of the elements they came from,
      and every element where f succeeds contributes exactly one. */
  lemma KeepInOrder<A, B>(xs: seq<A>, f: A -> Option<B>) returns (idx: seq<nat>)
    ensures Sources(xs, f, Keep(xs, f), idx)
  {
    idx := KeptFrom(xs, f, 0);
    KeptIncreasing(xs, f, 0);
    KeptValues(xs, f, 0);
    KeptMembers(xs, f, 0);
  }

  /** When f succeeds everywhere nothing is dropped. */
  lemma {:induction false} KeepTotal<A, B>(xs: seq<A>, f: A -> Option<B>)
    requires forall i :: 0 <= i < |xs| ==> f(xs[i]).Some?
    ensures |Keep(xs, f)| == |xs|
    ensures forall k :: 0 <= k < |xs| ==> f(xs[k]) == Some(Keep(xs, f)[k])
  {
    if |xs| > 0 {
      assert forall i :: 1 <= i < |xs| ==> xs[1..][i - 1] == xs[i];
      KeepTotal(xs[1..], f);
    }
  }

  /** Keeping with f and then with g is keeping once with the two steps
      chained. */
  lemma {:induction false} KeepChain<A, B, C>(xs: seq<A>, f: A -> Option<B>, g: B -> Option<C>, h: A -> Option<C>)
    requires forall x :: h(x) == (match f(x) case None => None case Some(y) => g(y))
    ensures Keep(Keep(xs, f), g) == Keep(xs, h)
  {
    if |xs| > 0 {
      KeepChain(xs[1..], f, g, h);
      match f(xs[0])
      case None =>
      case Some(y) =>
        assert Keep(xs, f) == [y] + Keep(xs[1..], f);
        assert ([y] + Keep(xs[1..], f))[1..] == Keep(xs[1..], f);
    }
  }
}
