/**
 * Splitting a sequence in two by a test, the way a loop that appends each
 * element to one of two lists does: the lists keep the input order, and
 * together they hold every element exactly once.
 */
module Partition {

  /** The elements that pass `keep`, in input order. */
  function FilterIn<T>(xs: seq<T>, keep: T -> bool): seq<T>
  {
    if xs == [] then []
    else FilterIn(xs[..|xs| - 1], keep) + if keep(xs[|xs| - 1]) then [xs[|xs| - 1]] else []
  }

  /** The elements that fail `keep`, in input order. */
  function FilterOut<T>(xs: seq<T>, keep: T -> bool): seq<T>
  {
    if xs == [] then []
    else FilterOut(xs[..|xs| - 1], keep) + if keep(xs[|xs| - 1]) then [] else [xs[|xs| - 1]]
  }

  /** Appending one element extends exactly one of the two lists. */
  lemma FilterStep<T>(xs: seq<T>, i: nat, keep: T -> bool)
    requires i < |xs|
    ensures FilterIn(xs[..i + 1], keep) == FilterIn(xs[..i], keep) + if keep(xs[i]) then [xs[i]] else []
    ensures FilterOut(xs[..i + 1], keep) == FilterOut(xs[..i], keep) + if keep(xs[i]) then [] else [xs[i]]
  {
    assert xs[..i + 1][..i] == xs[..i];
  }

  /** zs is an order-preserving merge of xs and ys. */
  ghost predicate Interleaving<T>(xs: seq<T>, ys: seq<T>, zs: seq<T>)
    decreases |zs|
  {
    if zs == [] then xs == [] && ys == []
    else
      var z := zs[|zs| - 1];
      || (xs != [] && xs[|xs| - 1] == z && Interleaving(xs[..|xs| - 1], ys, zs[..|zs| - 1]))
      || (ys != [] && ys[|ys| - 1] == z && Interleaving(xs, ys[..|ys| - 1], zs[..|zs| - 1]))
  }

  /** The two lists are a merge of the input that keeps its order. */
  lemma {:induction false} FilterInterleaves<T>(xs: seq<T>, keep: T -> bool)
    ensures Interleaving(FilterIn(xs, keep), FilterOut(xs, keep), xs)
  {
    if xs != [] {
      var init, last := xs[..|xs| - 1], xs[|xs| - 1];
      FilterInterleaves(init, keep);
      var ins, outs := FilterIn(xs, keep), FilterOut(xs, keep);
      if keep(last) {
        assert ins == FilterIn(init, keep) + [last];
        assert ins[..|ins| - 1] == FilterIn(init, keep);
        assert outs == FilterOut(init, keep);
      } else {
        assert outs == FilterOut(init, keep) + [last];
        assert outs[..|outs| - 1] == FilterOut(init, keep);
        assert ins == FilterIn(init, keep);
      }
    }
  }

  /** A merge holds exactly the elements of its two parts. */
  lemma {:induction false} InterleavingCounts<T>(xs: seq<T>, ys: seq<T>, zs: seq<T>)
    requires Interleaving(xs, ys, zs)
    ensures |xs| + |ys| == |zs|
    ensures multiset(xs) + multiset(ys) == multiset(zs)
    decreases |zs|
  {
    if zs != [] {
      var z := zs[|zs| - 1];
      var zi := zs[..|zs| - 1];
      assert zs == zi + [z];
      if xs != [] && xs[|xs| - 1] == z && Interleaving(xs[..|xs| - 1], ys, zi) {
        InterleavingCounts(xs[..|xs| - 1], ys, zi);
        assert xs == xs[..|xs| - 1] + [z];
      } else {
        InterleavingCounts(xs, ys[..|ys| - 1], zi);
        assert ys == ys[..|ys| - 1] + [z];
      }
    }
  }

  /** Each list holds only elements of its kind. */
  lemma {:induction false} FilterSound<T>(xs: seq<T>, keep: T -> bool)
    ensures forall x :: x in FilterIn(xs, keep) ==> keep(x)
    ensures forall x :: x in FilterOut(xs, keep) ==> !keep(x)
  {
    if xs != [] {
      FilterSound(xs[..|xs| - 1], keep);
    }
  }

  /**
   * The whole partition: a merge of the input in its order, nothing lost
   * or repeated, each list holding only its own kind.
   */
  lemma FilterPartition<T>(xs: seq<T>, keep: T -> bool)
    ensures var ins, outs := FilterIn(xs, keep), FilterOut(xs, keep);
      && Interleaving(ins, outs, xs)
      && |ins| + |outs| == |xs|
      && multiset(ins) + multiset(outs) == multiset(xs)
      && (forall x :: x in ins ==> keep(x))
      && (forall x :: x in outs ==> !keep(x))
  {
    FilterInterleaves(xs, keep);
    InterleavingCounts(FilterIn(xs, keep), FilterOut(xs, keep), xs);
    FilterSound(xs, keep);
  }

  /** When every element passes, all of them go to the first list. */
  lemma {:induction false} FilterAllPass<T>(xs: seq<T>, keep: T -> bool)
    requires forall k :: 0 <= k < |xs| ==> keep(xs[k])
    ensures FilterIn(xs, keep) == xs
    ensures FilterOut(xs, keep) == []
  {
    if xs != [] {
      var init := xs[..|xs| - 1];
      assert forall k :: 0 <= k < |init| ==> init[k] == xs[k];
      FilterAllPass(init, keep);
      assert xs == init + [xs[|xs| - 1]];
    }
  }
}
