/** Keeping the defined results of a partial function over a sequence, the
    shape of every "for each row: if it converts, append it" loop here. */
module Seqs {
  import opened Optional

  /** The defined results of `f` over `xs`, in the order of `xs`. */
  function FilterMap<A, B>(f: A -> Option<B>, xs: seq<A>): (r: seq<B>)
    ensures |r| <= |xs|
  {
    if xs == [] then []
    else (if f(xs[0]).Some? then [f(xs[0]).value] else []) + FilterMap(f, xs[1..])
  }

  /** Filtering works element by element: the results for `a + b` are those
      for `a` followed by those for `b`. */
  lemma {:induction false} FilterMapAppend<A, B>(f: A -> Option<B>, a: seq<A>, b: seq<A>)
    ensures FilterMap(f, a + b) == FilterMap(f, a) + FilterMap(f, b)
  {
    if a == [] {
      assert a + b == b;
    } else {
      assert (a + b)[0] == a[0];
      assert (a + b)[1..] == a[1..] + b;
      var h := if f(a[0]).Some? then [f(a[0]).value] else [];
      assert FilterMap(f, a + b) == h + FilterMap(f, a[1..] + b);
      FilterMapAppend(f, a[1..], b);
    }
  }

  /** Nothing is kept exactly when `f` is undefined on every element. */
  lemma {:induction false} FilterMapEmpty<A, B>(f: A -> Option<B>, xs: seq<A>)
    ensures FilterMap(f, xs) == [] <==> forall j :: 0 <= j < |xs| ==> f(xs[j]).None?
  {
    if xs != [] {
      FilterMapEmpty(f, xs[1..]);
      assert forall j :: 1 <= j < |xs| ==> xs[j] == xs[1..][j - 1];
    }
  }

  /** When `f` is defined everywhere, every element yields its result, in place. */
  lemma {:induction false} FilterMapTotal<A, B>(f: A -> Option<B>, xs: seq<A>)
    requires forall j :: 0 <= j < |xs| ==> f(xs[j]).Some?
    ensures |FilterMap(f, xs)| == |xs|
    ensures forall j :: 0 <= j < |xs| ==> f(xs[j]) == Some(FilterMap(f, xs)[j])
  {
    if xs != [] {
      assert forall j :: 1 <= j < |xs| ==> xs[j] == xs[1..][j - 1];
      FilterMapTotal(f, xs[1..]);
    }
  }

  /** The number of elements on which `f` is defined. */
  function CountDefined<A, B>(f: A -> Option<B>, xs: seq<A>): nat {
    if xs == [] then 0 else (if f(xs[0]).Some? then 1 else 0) + CountDefined(f, xs[1..])
  }

  /** One result is kept per element on which `f` is defined. */
  lemma {:induction false} FilterMapCount<A, B>(f: A -> Option<B>, xs: seq<A>)
    ensures |FilterMap(f, xs)| == CountDefined(f, xs)
  {
    if xs != [] {
      FilterMapCount(f, xs[1..]);
    }
  }

  /** The four parts of `a + b + c + d` are found where they were put. */
  lemma ConcatParts4<T>(a: seq<T>, b: seq<T>, c: seq<T>, d: seq<T>)
    ensures |a + b + c + d| == |a| + |b| + |c| + |d|
    ensures (a + b + c + d)[|a|..|a| + |b|] == b
    ensures (a + b + c + d)[|a| + |b|..|a| + |b| + |c|] == c
    ensures (a + b + c + d)[|a| + |b| + |c|..] == d
  {
  }

  /** `f` applied to every element, in order. */
  function Map<A, B>(f: A -> B, xs: seq<A>): (r: seq<B>)
    ensures |r| == |xs|
  {
    if xs == [] then [] else Map(f, xs[..|xs| - 1]) + [f(xs[|xs| - 1])]
  }

  /** One more element adds its image at the end. */
  lemma MapAppend<A, B>(f: A -> B, xs: seq<A>, x: A)
    ensures Map(f, xs + [x]) == Map(f, xs) + [f(x)]
  {
    assert (xs + [x])[..|xs|] == xs;
  }

  /** Element `k` of the result is the image of element `k`. */
  lemma {:induction false} MapAt<A, B>(f: A -> B, xs: seq<A>)
    ensures forall k :: 0 <= k < |xs| ==> Map(f, xs)[k] == f(xs[k])
  {
    if xs != [] {
      var n := |xs| - 1;
      MapAt(f, xs[..n]);
      forall k | 0 <= k < n
        ensures Map(f, xs)[k] == f(xs[k])
      {
        assert xs[..n][k] == xs[k];
      }
    }
  }

  /** The value of `f` at the first position from `p` up to `n` where it is
      defined: the leftmost match of a search that tries each position. */
  function FirstSome<T>(f: nat -> Option<T>, p: nat, n: nat): Option<T>
    requires p <= n
    decreases n - p
  {
    match f(p)
    case Some(v) => Some(v)
    case None => if p == n then None else FirstSome(f, p + 1, n)
  }

  /** The search gives the value at the leftmost defined position, and `None`
      exactly when `f` is defined nowhere from `p` to `n`. */
  lemma {:induction false} FirstSomeSpec<T>(f: nat -> Option<T>, p: nat, n: nat)
    requires p <= n
    ensures FirstSome(f, p, n).None? <==> forall i :: p <= i <= n ==> f(i).None?
    ensures FirstSome(f, p, n).Some? ==>
      exists i :: p <= i <= n && f(i) == FirstSome(f, p, n) && forall j :: p <= j < i ==> f(j).None?
    decreases n - p
  {
    if f(p).None? && p < n {
      FirstSomeSpec(f, p + 1, n);
      if FirstSome(f, p, n).Some? {
        var i :| p + 1 <= i <= n && f(i) == FirstSome(f, p, n) && forall j :: p + 1 <= j < i ==> f(j).None?;
        assert forall j :: p <= j < i ==> f(j).None?;
      }
    }
  }
}
