/**
 * `Array.prototype.filter` and the push-if-kept loop, on sequences, with the
 * facts the extractor's proofs need: both distribute over concatenation and
 * keep exactly the elements their predicate accepts, in order.
 */
module Lists {

  /** The images under `f` of the elements `keep` accepts, in order. */
  function FilterMap<A, B>(xs: seq<A>, keep: A -> bool, f: A -> B): (r: seq<B>)
    ensures |r| <= |xs|
    decreases |xs|
  {
    if xs == [] then []
    else
      var last := xs[|xs| - 1];
      FilterMap(xs[..|xs| - 1], keep, f) + (if keep(last) then [f(last)] else [])
  }

  /** `xs.filter(keep)`. */
  function Filter<A>(xs: seq<A>, keep: A -> bool): (r: seq<A>)
    ensures |r| <= |xs|
    ensures forall k :: 0 <= k < |r| ==> keep(r[k])
    decreases |xs|
  {
    if xs == [] then []
    else
      var last := xs[|xs| - 1];
      Filter(xs[..|xs| - 1], keep) + (if keep(last) then [last] else [])
  }

  lemma {:induction false} FilterMapAppend<A, B>(xs: seq<A>, ys: seq<A>, keep: A -> bool, f: A -> B)
    ensures FilterMap(xs + ys, keep, f) == FilterMap(xs, keep, f) + FilterMap(ys, keep, f)
    decreases |ys|
  {
    if ys == [] {
      assert xs + ys == xs;
    } else {
      var init := ys[..|ys| - 1];
      assert (xs + ys)[..|xs + ys| - 1] == xs + init;
      FilterMapAppend(xs, init, keep, f);
    }
  }

  lemma {:induction false} FilterAppend<A>(xs: seq<A>, ys: seq<A>, keep: A -> bool)
    ensures Filter(xs + ys, keep) == Filter(xs, keep) + Filter(ys, keep)
    decreases |ys|
  {
    if ys == [] {
      assert xs + ys == xs;
    } else {
      var init := ys[..|ys| - 1];
      assert (xs + ys)[..|xs + ys| - 1] == xs + init;
      FilterAppend(xs, init, keep);
    }
  }

  /** `y` comes out of the loop exactly when some accepted element maps to it. */
  lemma {:induction false} FilterMapMembership<A, B>(xs: seq<A>, keep: A -> bool, f: A -> B, y: B)
    ensures y in FilterMap(xs, keep, f) <==> exists i :: 0 <= i < |xs| && keep(xs[i]) && f(xs[i]) == y
    decreases |xs|
  {
    if xs != [] {
      var init := xs[..|xs| - 1];
      FilterMapMembership(init, keep, f, y);
      if exists i :: 0 <= i < |xs| && keep(xs[i]) && f(xs[i]) == y {
        var i :| 0 <= i < |xs| && keep(xs[i]) && f(xs[i]) == y;
        if i < |xs| - 1 {
          assert init[i] == xs[i];
        }
      }
      if exists i :: 0 <= i < |init| && keep(init[i]) && f(init[i]) == y {
        var i :| 0 <= i < |init| && keep(init[i]) && f(init[i]) == y;
        assert xs[i] == init[i];
      }
    }
  }

  /** The filter keeps exactly the accepted elements. */
  lemma {:induction false} FilterMembership<A>(xs: seq<A>, keep: A -> bool, y: A)
    ensures y in Filter(xs, keep) <==> y in xs && keep(y)
    decreases |xs|
  {
    if xs != [] {
      var init := xs[..|xs| - 1];
      assert xs == init + [xs[|xs| - 1]];
      FilterMembership(init, keep, y);
    }
  }

  /** A filter that accepts no element leaves nothing. */
  lemma {:induction false} FilterNone<A>(xs: seq<A>, keep: A -> bool)
    requires forall k :: 0 <= k < |xs| ==> !keep(xs[k])
    ensures Filter(xs, keep) == []
    decreases |xs|
  {
    if xs != [] {
      var init := xs[..|xs| - 1];
      assert forall k :: 0 <= k < |init| ==> init[k] == xs[k];
      FilterNone(init, keep);
    }
  }

  /** A filter that accepts every element changes nothing. */
  lemma {:induction false} FilterAll<A>(xs: seq<A>, keep: A -> bool)
    requires forall k :: 0 <= k < |xs| ==> keep(xs[k])
    ensures Filter(xs, keep) == xs
    decreases |xs|
  {
    if xs != [] {
      var init := xs[..|xs| - 1];
      assert forall k :: 0 <= k < |init| ==> init[k] == xs[k];
      FilterAll(init, keep);
      assert xs == init + [xs[|xs| - 1]];
    }
  }
}
