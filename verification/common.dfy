/** Small shared vocabulary: an optional value, a pointwise map over sequences,
    and the `reduce(Math.min, Infinity)` fold the renderer uses, where the
    infinite seed of an empty fold is `None`. */
module Common {

  datatype Option<+T> = None | Some(value: T)

  /** `s.map(f)` */
  function MapSeq<A, B>(f: A -> B, s: seq<A>): (r: seq<B>)
    ensures |r| == |s|
    ensures forall i :: 0 <= i < |s| ==> r[i] == f(s[i])
  {
    seq(|s|, i requires 0 <= i < |s| => f(s[i]))
  }

  /** When `f` sends no other element of `s` where it sends `x`, the images
      count `f(x)` as often as `s` counts `x`. */
  lemma {:induction false} CountThroughMap<A, B>(f: A -> B, s: seq<A>, x: A)
    requires forall i :: 0 <= i < |s| && f(s[i]) == f(x) ==> s[i] == x
    ensures multiset(MapSeq(f, s))[f(x)] == multiset(s)[x]
  {
    if |s| > 0 {
      CountThroughMap(f, s[1..], x);
      assert s == [s[0]] + s[1..];
      MapSeqConcat(f, [s[0]], s[1..]);
      assert MapSeq(f, [s[0]]) == [f(s[0])];
    }
  }

  lemma MapSeqConcat<A, B>(f: A -> B, a: seq<A>, b: seq<A>)
    ensures MapSeq(f, a + b) == MapSeq(f, a) + MapSeq(f, b)
  {
  }

  lemma PrefixOfConcat<T>(a: seq<T>, b: seq<T>, c: seq<T>)
    requires a <= b
    ensures a <= b + c
  {
    assert (b + c)[..|b|] == b;
  }

  lemma ConcatIndex<T>(a: seq<T>, b: seq<T>, t: nat)
    requires t < |b|
    ensures |a| + t < |a + b| && (a + b)[|a| + t] == b[t]
  {
  }

  lemma PrefixIndex<T>(a: seq<T>, b: seq<T>, t: nat)
    requires a <= b && t < |a|
    ensures t < |b| && b[t] == a[t]
  {
  }

  /** Taking one element out of a sequence takes it out of its multiset. */
  lemma MultisetSplice<T>(b: seq<T>, i: nat)
    requires i < |b|
    ensures multiset(b) == multiset(b[..i] + b[i + 1..]) + multiset{b[i]}
  {
    assert b == b[..i] + [b[i]] + b[i + 1..];
  }

  /** The multiset of a sequence with one position cut out. */
  lemma MultisetRemoveAt<T>(b: seq<T>, i: nat)
    requires i < |b|
    ensures multiset(b[..i] + b[i + 1..]) == multiset(b) - multiset{b[i]}
    ensures forall j :: 0 <= j < i ==> (b[..i] + b[i + 1..])[j] == b[j]
    ensures forall j :: i < j < |b| ==> (b[..i] + b[i + 1..])[j - 1] == b[j]
  {
    var rest := multiset(b[..i] + b[i + 1..]);
    MultisetSplice(b, i);
    forall y
      ensures rest[y] == (multiset(b) - multiset{b[i]})[y]
    {
      assert multiset(b)[y] == rest[y] + multiset{b[i]}[y];
    }
  }

  lemma MultisetCancel<T>(p: multiset<T>, q: multiset<T>, x: T)
    requires p + multiset{x} == q + multiset{x}
    ensures p == q
  {
    forall y
      ensures p[y] == q[y]
    {
      assert (p + multiset{x})[y] == (q + multiset{x})[y];
    }
  }

  lemma MapSeqSplice<A, B>(f: A -> B, s: seq<A>, i: nat)
    requires i < |s|
    ensures multiset(MapSeq(f, s)) == multiset(MapSeq(f, s[..i] + s[i + 1..])) + multiset{f(s[i])}
  {
    var fs := MapSeq(f, s);
    MultisetSplice(fs, i);
    assert fs[..i] + fs[i + 1..] == MapSeq(f, s[..i] + s[i + 1..]);
  }

  /** Mapping commutes with reordering: equal multisets of inputs give equal
      multisets of outputs. */
  lemma {:induction false} MapSeqMultiset<A, B>(f: A -> B, a: seq<A>, b: seq<A>)
    requires multiset(a) == multiset(b)
    ensures multiset(MapSeq(f, a)) == multiset(MapSeq(f, b))
    decreases |a|
  {
    if |a| == 0 {
      assert |b| == |multiset(b)| == 0;
    } else {
      assert a[0] in multiset(b);
      var i :| 0 <= i < |b| && b[i] == a[0];
      var a', b' := a[..0] + a[1..], b[..i] + b[i + 1..];
      MultisetSplice(a, 0);
      MultisetSplice(b, i);
      MultisetCancel(multiset(a'), multiset(b'), a[0]);
      MapSeqMultiset(f, a', b');
      MapSeqSplice(f, a, 0);
      MapSeqSplice(f, b, i);
      calc {
        multiset(MapSeq(f, a));
        multiset(MapSeq(f, a')) + multiset{f(a[0])};
        multiset(MapSeq(f, b')) + multiset{f(b[i])};
        multiset(MapSeq(f, b));
      }
    }
  }

  /** `xs.slice(0, n).reduce(Math.min, Infinity)`, folded left to right;
      `None` stands for the `Infinity` seed of an empty fold. */
  function MinPrefix(xs: seq<int>, n: nat): (m: Option<int>)
    requires n <= |xs|
    ensures m.None? <==> n == 0
    ensures m.Some? ==> (exists i :: 0 <= i < n && xs[i] == m.value)
                        && forall k :: 0 <= k < n ==> m.value <= xs[k]
  {
    if n == 0 then None
    else match MinPrefix(xs, n - 1)
      case None => Some(xs[n - 1])
      case Some(v) => Some(if v <= xs[n - 1] then v else xs[n - 1])
  }

  function MinOf(xs: seq<int>): (m: Option<int>)
    ensures m.None? <==> |xs| == 0
    ensures m.Some? ==> (exists i :: 0 <= i < |xs| && xs[i] == m.value)
                        && forall k :: 0 <= k < |xs| ==> m.value <= xs[k]
  {
    MinPrefix(xs, |xs|)
  }

  /** A lower bound that is attained is the minimum. */
  lemma MinOfUnique(xs: seq<int>, v: int)
    requires v in xs
    requires forall k :: 0 <= k < |xs| ==> v <= xs[k]
    ensures MinOf(xs) == Some(v)
  {
    var m := MinOf(xs);
    var i :| 0 <= i < |xs| && xs[i] == m.value;
    var j :| 0 <= j < |xs| && xs[j] == v;
    assert v <= xs[i] && m.value <= xs[j];
  }

  /** The minimum depends only on the multiset of elements. */
  lemma MinOfMultiset(xs: seq<int>, ys: seq<int>)
    requires multiset(xs) == multiset(ys)
    ensures MinOf(xs) == MinOf(ys)
  {
    if |xs| == 0 {
      assert |ys| == |multiset(ys)| == 0;
    } else {
      assert |ys| == |multiset(ys)| == |xs|;
      var v := MinOf(xs).value;
      var i :| 0 <= i < |xs| && xs[i] == v;
      assert v in multiset(xs);
      assert v in multiset(ys);
      forall k | 0 <= k < |ys|
        ensures v <= ys[k]
      {
        assert ys[k] in multiset(xs);
      }
      MinOfUnique(ys, v);
    }
  }
}
