/**
 The two list idioms the policy projection is built from, stated once:
 - `Find`, the first element satisfying a predicate, as `Array.prototype.find`
   computes it (a missing match is `None`, the model of `undefined`);
 - `FilterMap`, the "push the mapped element when there is one" loop that
   builds every derived list, with the positions it keeps (`Kept`).
 */
module Seqs {

  /** A value that may be absent: `None` models JavaScript's `null`/`undefined`. */
  datatype Option<+T> = None | Some(value: T)

  /** The sequence holding the present value, if any. */
  function ToSeq<T>(o: Option<T>): (r: seq<T>)
    ensures |r| <= 1
    ensures o.Some? <==> |r| == 1
  {
    match o
    case None => []
    case Some(v) => [v]
  }

  /** The first element of `s` that satisfies `p`, or `None` when none does. */
  function Find<T>(s: seq<T>, p: T -> bool): (r: Option<T>)
    ensures r.None? <==> forall i :: 0 <= i < |s| ==> !p(s[i])
    ensures r.Some? ==> r.value in s && p(r.value)
    ensures forall i :: 0 <= i < |s| && p(s[i]) && (forall j :: 0 <= j < i ==> !p(s[j])) ==>
              r == Some(s[i])
    decreases |s|
  {
    if |s| == 0 then None
    else if p(s[0]) then Some(s[0])
    else
      var r := Find(s[1..], p);
      assert forall i :: 1 <= i < |s| ==> s[1..][i - 1] == s[i];
      r
  }

  /** Two predicates that agree on every element of `s` find the same element. */
  lemma {:induction false} FindCongruent<T>(s: seq<T>, p: T -> bool, q: T -> bool)
    requires forall i :: 0 <= i < |s| ==> p(s[i]) == q(s[i])
    ensures Find(s, p) == Find(s, q)
    decreases |s|
  {
    if |s| > 0 && !p(s[0]) {
      FindCongruent(s[1..], p, q);
    }
  }

  /** The least index at or before `i` that satisfies `p`, given that `i` does. */
  lemma {:induction false} FirstMatch<T>(s: seq<T>, p: T -> bool, i: nat) returns (j: nat)
    requires i < |s| && p(s[i])
    ensures j <= i && p(s[j])
    ensures forall k :: 0 <= k < j ==> !p(s[k])
    decreases i
  {
    if exists k :: 0 <= k < i && p(s[k]) {
      var k :| 0 <= k < i && p(s[k]);
      j := FirstMatch(s, p, k);
    } else {
      j := i;
    }
  }

  /**
   The elements `f` maps to something, mapped, in the order of `s`: the list the
   source builds by pushing `f(x)` for each `x` whose image is present.
   */
  function FilterMap<A, B>(s: seq<A>, f: A -> Option<B>): (r: seq<B>)
    ensures |r| <= |s|
    decreases |s|
  {
    if |s| == 0 then [] else ToSeq(f(s[0])) + FilterMap(s[1..], f)
  }

  /** Splitting the input splits the output at the same place. */
  lemma {:induction false} FilterMapAppend<A, B>(s: seq<A>, t: seq<A>, f: A -> Option<B>)
    ensures FilterMap(s + t, f) == FilterMap(s, f) + FilterMap(t, f)
    decreases |s|
  {
    if |s| == 0 {
      assert s + t == t;
    } else {
      assert (s + t)[1..] == s[1..] + t;
      FilterMapAppend(s[1..], t, f);
    }
  }

  /** Processing one more element appends its image, if any: the push loop's step. */
  lemma FilterMapSnoc<A, B>(s: seq<A>, x: A, f: A -> Option<B>)
    ensures FilterMap(s + [x], f) == FilterMap(s, f) + ToSeq(f(x))
  {
    FilterMapAppend(s, [x], f);
    assert [x][1..] == [];
  }

  /** The indices of `s`, in increasing order, whose image under `f` is present. */
  function Kept<A, B>(s: seq<A>, f: A -> Option<B>): seq<nat>
    decreases |s|
  {
    if |s| == 0 then []
    else
      Kept(s[..|s| - 1], f) + (if f(s[|s| - 1]).Some? then [|s| - 1] else [])
  }

  /** `ks` lists distinct indices of a sequence of length `n` in increasing order. */
  ghost predicate IncreasingIndices(ks: seq<nat>, n: nat) {
    && (forall k :: 0 <= k < |ks| ==> ks[k] < n)
    && (forall k, l :: 0 <= k < l < |ks| ==> ks[k] < ks[l])
  }

  /** One kept position per output element. */
  lemma {:induction false} KeptLength<A, B>(s: seq<A>, f: A -> Option<B>)
    ensures |Kept(s, f)| == |FilterMap(s, f)|
    decreases |s|
  {
    if |s| > 0 {
      var n := |s| - 1;
      assert s == s[..n] + [s[n]];
      KeptLength(s[..n], f);
      FilterMapSnoc(s[..n], s[n], f);
    }
  }

  /** The kept positions are valid and strictly increasing. */
  lemma {:induction false} KeptIncreasing<A, B>(s: seq<A>, f: A -> Option<B>)
    ensures IncreasingIndices(Kept(s, f), |s|)
    decreases |s|
  {
    if |s| > 0 {
      var n := |s| - 1;
      KeptIncreasing(s[..n], f);
      var ks0 := Kept(s[..n], f);
      assert forall k :: 0 <= k < |ks0| ==> Kept(s, f)[k] == ks0[k];
    }
  }

  /** A position is kept exactly when its image is present. */
  lemma {:induction false} KeptExact<A, B>(s: seq<A>, f: A -> Option<B>)
    ensures forall i :: 0 <= i < |s| ==> (f(s[i]).Some? <==> i in Kept(s, f))
    decreases |s|
  {
    if |s| > 0 {
      var n := |s| - 1;
      var init := s[..n];
      KeptExact(init, f);
      KeptIncreasing(init, f);
      forall i | 0 <= i < |s|
        ensures f(s[i]).Some? <==> i in Kept(s, f)
      {
        if i < n {
          assert s[i] == init[i];
          assert i in Kept(s, f) <==> i in Kept(init, f);
        }
      }
    }
  }

  /** The k-th output element is the image of the input at the k-th kept position. */
  lemma {:induction false} KeptImage<A, B>(s: seq<A>, f: A -> Option<B>)
    ensures |Kept(s, f)| == |FilterMap(s, f)|
    ensures forall k :: 0 <= k < |Kept(s, f)| ==> Kept(s, f)[k] < |s| && f(s[Kept(s, f)[k]]) == Some(FilterMap(s, f)[k])
    decreases |s|
  {
    KeptLength(s, f);
    KeptIncreasing(s, f);
    if |s| > 0 {
      var n := |s| - 1;
      var init := s[..n];
      assert s == init + [s[n]];
      KeptImage(init, f);
      FilterMapSnoc(init, s[n], f);
      var r, ks := FilterMap(s, f), Kept(s, f);
      var r0, ks0 := FilterMap(init, f), Kept(init, f);
      forall k | 0 <= k < |ks|
        ensures f(s[ks[k]]) == Some(r[k])
      {
        if k < |ks0| {
          assert ks[k] == ks0[k] && r[k] == r0[k] && s[ks0[k]] == init[ks0[k]];
        }
      }
    }
  }

  /**
   `FilterMap` characterised position by position: the k-th output is the image
   of the k-th kept input, the kept inputs appear in input order, and an input
   is kept exactly when its image is present.
   */
  lemma FilterMapPositions<A, B>(s: seq<A>, f: A -> Option<B>)
    ensures var r, ks := FilterMap(s, f), Kept(s, f);
      && |ks| == |r|
      && IncreasingIndices(ks, |s|)
      && (forall k :: 0 <= k < |ks| ==> f(s[ks[k]]) == Some(r[k]))
      && (forall i :: 0 <= i < |s| ==> (f(s[i]).Some? <==> i in ks))
  {
    KeptIncreasing(s, f);
    KeptExact(s, f);
    KeptImage(s, f);
  }

  /** Every output element is the image of some input element: nothing is invented. */
  lemma FilterMapMembership<A, B>(s: seq<A>, f: A -> Option<B>, y: B)
    ensures y in FilterMap(s, f) <==> exists i :: 0 <= i < |s| && f(s[i]) == Some(y)
  {
    FilterMapPositions(s, f);
    var r, ks := FilterMap(s, f), Kept(s, f);
    if y in r {
      var k :| 0 <= k < |r| && r[k] == y;
      assert f(s[ks[k]]) == Some(y);
    }
    if exists i :: 0 <= i < |s| && f(s[i]) == Some(y) {
      var i :| 0 <= i < |s| && f(s[i]) == Some(y);
      var k :| 0 <= k < |ks| && ks[k] == i;
      assert r[k] == y;
    }
  }

  /** When every image is present, the output is the pointwise image. */
  lemma {:induction false} FilterMapTotal<A, B>(s: seq<A>, f: A -> Option<B>)
    requires forall i :: 0 <= i < |s| ==> f(s[i]).Some?
    ensures |FilterMap(s, f)| == |s|
    ensures forall k :: 0 <= k < |s| ==> f(s[k]) == Some(FilterMap(s, f)[k])
    decreases |s|
  {
    if |s| > 0 {
      assert forall i :: 1 <= i < |s| ==> s[1..][i - 1] == s[i];
      FilterMapTotal(s[1..], f);
    }
  }

  /** When no image is present, the output is empty. */
  lemma {:induction false} FilterMapNothing<A, B>(s: seq<A>, f: A -> Option<B>)
    requires forall i :: 0 <= i < |s| ==> f(s[i]).None?
    ensures FilterMap(s, f) == []
    decreases |s|
  {
    if |s| > 0 {
      assert forall i :: 1 <= i < |s| ==> s[1..][i - 1] == s[i];
      FilterMapNothing(s[1..], f);
    }
  }
}
