/**
 * Keep-the-successes over a sequence.  The username filter, the cookie-loading
 * loop and the results loop of the scraper all walk a list in order, keep what
 * one step produced and skip what it did not; this module states that walk once.
 */
module Sequences {
  import opened Wrappers

  /** The values `f` produces on `xs`, in the order of `xs`; elements mapped to None are dropped. */
  function FilterMap<A, B>(xs: seq<A>, f: A -> Option<B>): (r: seq<B>)
    ensures |r| <= |xs|
  {
    if xs == [] then [] else Kept(f(xs[0])) + FilterMap(xs[1..], f)
  }

  /** The value of one step as a list of zero or one elements. */
  function Kept<B>(o: Option<B>): seq<B> {
    match o
    case Some(y) => [y]
    case None => []
  }

  /** Processing a list in two halves gives the same outcome as processing it whole. */
  lemma {:induction false} FilterMapAppend<A, B>(xs: seq<A>, ys: seq<A>, f: A -> Option<B>)
    ensures FilterMap(xs + ys, f) == FilterMap(xs, f) + FilterMap(ys, f)
  {
    if xs == [] {
      assert xs + ys == ys;
    } else {
      assert (xs + ys)[1..] == xs[1..] + ys;
      FilterMapAppend(xs[1..], ys, f);
    }
  }

  /** An element that produces nothing leaves no trace, and the elements after it are still processed. */
  lemma {:induction false} FilterMapSkip<A, B>(xs: seq<A>, i: nat, f: A -> Option<B>)
    requires i < |xs| && f(xs[i]).None?
    ensures FilterMap(xs, f) == FilterMap(xs[..i], f) + FilterMap(xs[i + 1..], f)
  {
    if i == 0 {
      assert xs[..0] == [] && xs[1..] == xs[i + 1..];
    } else {
      var front := xs[..i];
      FilterMapSkip(xs[1..], i - 1, f);
      assert xs[1..][i..] == xs[i + 1..];
      assert front[0] == xs[0] && front[1..] == xs[1..][..i - 1];
      assert FilterMap(front, f) == Kept(f(xs[0])) + FilterMap(xs[1..][..i - 1], f);
    }
  }

  /** A value is in the outcome exactly when some element produced it. */
  lemma {:induction false} FilterMapMember<A, B>(xs: seq<A>, f: A -> Option<B>, y: B)
    ensures y in FilterMap(xs, f) <==> exists i | 0 <= i < |xs| :: f(xs[i]) == Some(y)
  {
    if xs != [] {
      FilterMapMember(xs[1..], f, y);
      if exists i | 0 <= i < |xs| :: f(xs[i]) == Some(y) {
        var i :| 0 <= i < |xs| && f(xs[i]) == Some(y);
        if i > 0 {
          assert f(xs[1..][i - 1]) == Some(y);
        }
      }
      if exists i | 0 <= i < |xs[1..]| :: f(xs[1..][i]) == Some(y) {
        var i :| 0 <= i < |xs[1..]| && f(xs[1..][i]) == Some(y);
        assert f(xs[i + 1]) == Some(y);
      }
    }
  }

  /** Every value in the outcome has the property `p` when every value `f` produces has it. */
  lemma {:induction false} FilterMapAll<A, B>(xs: seq<A>, f: A -> Option<B>, p: B -> bool)
    requires forall i | 0 <= i < |xs| :: f(xs[i]).Some? ==> p(f(xs[i]).value)
    ensures forall k | 0 <= k < |FilterMap(xs, f)| :: p(FilterMap(xs, f)[k])
  {
    if xs != [] {
      forall i | 0 <= i < |xs[1..]| ensures f(xs[1..][i]).Some? ==> p(f(xs[1..][i]).value) {
        assert xs[1..][i] == xs[i + 1];
      }
      FilterMapAll(xs[1..], f, p);
    }
  }

  /** Positions in `xs` of the elements that produced a value, in increasing order. */
  function KeptIndices<A, B>(xs: seq<A>, f: A -> Option<B>): (idx: seq<nat>)
    ensures |idx| <= |xs|
  {
    if xs == [] then []
    else
      var tail := KeptIndices(xs[1..], f);
      var shifted := seq(|tail|, k requires 0 <= k < |tail| => tail[k] + 1);
      if f(xs[0]).Some? then [0] + shifted else shifted
  }

  /** One kept position per produced value. */
  lemma {:induction false} KeptIndicesLength<A, B>(xs: seq<A>, f: A -> Option<B>)
    ensures |KeptIndices(xs, f)| == |FilterMap(xs, f)|
  {
    if xs != [] {
      KeptIndicesLength(xs[1..], f);
    }
  }

  /** Kept positions are strictly increasing: the outcome keeps the input order. */
  lemma {:induction false} KeptIndicesIncreasing<A, B>(xs: seq<A>, f: A -> Option<B>)
    ensures forall k | 0 <= k < |KeptIndices(xs, f)| :: KeptIndices(xs, f)[k] < |xs|
    ensures forall k, l | 0 <= k < l < |KeptIndices(xs, f)| :: KeptIndices(xs, f)[k] < KeptIndices(xs, f)[l]
  {
    if xs != [] {
      KeptIndicesIncreasing(xs[1..], f);
    }
  }

  /** Every position that produced a value is kept. */
  lemma {:induction false} KeptIndicesComplete<A, B>(xs: seq<A>, f: A -> Option<B>, i: nat)
    requires i < |xs| && f(xs[i]).Some?
    ensures i in KeptIndices(xs, f)
  {
    if i > 0 {
      var tail := KeptIndices(xs[1..], f);
      assert xs[1..][i - 1] == xs[i];
      KeptIndicesComplete(xs[1..], f, i - 1);
      var k :| 0 <= k < |tail| && tail[k] == i - 1;
      var shifted := seq(|tail|, k requires 0 <= k < |tail| => tail[k] + 1);
      assert shifted[k] == i;
    }
  }

  /** Position k of the outcome is the value produced at the k-th kept position. */
  lemma {:induction false} KeptIndicesValues<A, B>(xs: seq<A>, f: A -> Option<B>, k: nat)
    requires k < |FilterMap(xs, f)|
    ensures |KeptIndices(xs, f)| == |FilterMap(xs, f)|
    ensures KeptIndices(xs, f)[k] < |xs| && f(xs[KeptIndices(xs, f)[k]]) == Some(FilterMap(xs, f)[k])
  {
    KeptIndicesLength(xs, f);
    KeptIndicesIncreasing(xs, f);
    var tail := KeptIndices(xs[1..], f);
    KeptIndicesLength(xs[1..], f);
    if f(xs[0]).Some? && k == 0 {
    } else {
      var j := if f(xs[0]).Some? then k - 1 else k;
      KeptIndicesValues(xs[1..], f, j);
      assert KeptIndices(xs, f)[k] == tail[j] + 1;
      assert xs[tail[j] + 1] == xs[1..][tail[j]];
    }
  }
}
