/** Generic facts about sequences: subsequences and first-match search. */
module SeqUtil {
  import opened Optional

  /** `a` is obtained from `b` by deleting zero or more elements, keeping order. */
  predicate IsSubseq<T(==)>(a: seq<T>, b: seq<T>)
    decreases |b|
  {
    || |a| == 0
    || (&& |b| > 0
        && ((a[0] == b[0] && IsSubseq(a[1..], b[1..])) || IsSubseq(a, b[1..])))
  }

  lemma {:induction false} IsSubseqRefl<T>(a: seq<T>)
    ensures IsSubseq(a, a)
    decreases |a|
  {
    if |a| > 0 {
      IsSubseqRefl(a[1..]);
    }
  }

  /** A subsequence is no longer than the sequence it is taken from. */
  lemma {:induction false} IsSubseqLength<T>(a: seq<T>, b: seq<T>)
    requires IsSubseq(a, b)
    ensures |a| <= |b|
    decreases |b|
  {
    if |a| > 0 {
      if a[0] == b[0] && IsSubseq(a[1..], b[1..]) {
        IsSubseqLength(a[1..], b[1..]);
      } else {
        IsSubseqLength(a, b[1..]);
      }
    }
  }

  /** Every element of a subsequence occurs in the original. */
  lemma {:induction false} IsSubseqElements<T>(a: seq<T>, b: seq<T>, x: T)
    requires IsSubseq(a, b)
    requires x in a
    ensures x in b
    decreases |b|
  {
    if a[0] == b[0] && IsSubseq(a[1..], b[1..]) {
      if x != a[0] {
        IsSubseqElements(a[1..], b[1..], x);
      }
    } else {
      IsSubseqElements(a, b[1..], x);
    }
  }

  /** Index of the first element satisfying `p`, as `Array.prototype.find` looks for it. */
  function FirstIndex<T>(xs: seq<T>, p: T -> bool): (r: Option<nat>)
    ensures r.Some? ==> r.value < |xs| && p(xs[r.value])
    ensures r.Some? ==> forall j | 0 <= j < r.value :: !p(xs[j])
    ensures r.None? <==> forall j | 0 <= j < |xs| :: !p(xs[j])
  {
    if |xs| == 0 then None
    else if p(xs[0]) then Some(0)
    else match FirstIndex(xs[1..], p)
      case None => None
      case Some(i) => Some(i + 1)
  }

  /** `Array.prototype.find`: the first element satisfying `p`, if any. */
  function Find<T>(xs: seq<T>, p: T -> bool): Option<T>
  {
    match FirstIndex(xs, p)
    case None => None
    case Some(i) => Some(xs[i])
  }

  /** The results of `f` for every element, concatenated in order. */
  function FlatMap<A, B>(xs: seq<A>, f: A -> seq<B>): (r: seq<B>)
    ensures |xs| == 0 ==> r == []
  {
    if |xs| == 0 then [] else f(xs[0]) + FlatMap(xs[1..], f)
  }

  lemma {:induction false} FlatMapAppend<A, B>(xs: seq<A>, ys: seq<A>, f: A -> seq<B>)
    ensures FlatMap(xs + ys, f) == FlatMap(xs, f) + FlatMap(ys, f)
    decreases |xs|
  {
    if |xs| == 0 {
      assert xs + ys == ys;
    } else {
      assert (xs + ys)[0] == xs[0] && (xs + ys)[1..] == xs[1..] + ys;
      FlatMapAppend(xs[1..], ys, f);
      assert (f(xs[0]) + FlatMap(xs[1..], f)) + FlatMap(ys, f) == f(xs[0]) + (FlatMap(xs[1..], f) + FlatMap(ys, f));
    }
  }

  /** An element of the result comes from the result of some element. */
  lemma {:induction false} FlatMapMembership<A, B>(xs: seq<A>, f: A -> seq<B>, y: B)
    ensures y in FlatMap(xs, f) <==> exists i | 0 <= i < |xs| :: y in f(xs[i])
    decreases |xs|
  {
    if |xs| > 0 {
      FlatMapMembership(xs[1..], f, y);
      if exists i | 0 <= i < |xs| :: y in f(xs[i]) {
        var i :| 0 <= i < |xs| && y in f(xs[i]);
        if i > 0 {
          assert y in f(xs[1..][i - 1]);
        }
      }
      if exists i | 0 <= i < |xs[1..]| :: y in f(xs[1..][i]) {
        var i :| 0 <= i < |xs[1..]| && y in f(xs[1..][i]);
        assert y in f(xs[i + 1]);
      }
    }
  }

  /** Results of at most one element each give at most as many elements as there were inputs. */
  lemma {:induction false} FlatMapLength<A, B>(xs: seq<A>, f: A -> seq<B>)
    requires forall i | 0 <= i < |xs| :: |f(xs[i])| <= 1
    ensures |FlatMap(xs, f)| <= |xs|
    decreases |xs|
  {
    if |xs| > 0 {
      assert |f(xs[0])| <= 1;
      FlatMapLength(xs[1..], f);
    }
  }
}
