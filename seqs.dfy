/** Optional values and the order-preserving filter-map that both the member
    loop and the comment loop of the collector perform. */
module Seqs {

  datatype Option<+T> = None | Some(value: T)

  /** The zero- or one-element sequence an optional value contributes to a list. */
  function OptSeq<T>(o: Option<T>): (s: seq<T>)
    ensures |s| <= 1
    ensures if o.Some? then s == [o.value] else s == []
  {
    match o
    case None => []
    case Some(v) => [v]
  }

  lemma ConsAppend<T>(xs: seq<T>, tail: seq<T>)
    requires xs != []
    ensures [xs[0]] + (xs[1..] + tail) == xs + tail
  {
  }

  /** Keeps `f(x).value` for every `x` of `xs` whose image is present, in the order of `xs`;
      written on the last element so that it follows a loop that appends. */
  function FilterMap<A, B>(xs: seq<A>, f: A -> Option<B>): (ys: seq<B>)
    ensures |ys| <= |xs|
    decreases |xs|
  {
    if xs == [] then []
    else FilterMap(xs[..|xs| - 1], f) + OptSeq(f(xs[|xs| - 1]))
  }

  /** The positions of `xs` whose image under `f` is present, in increasing order. */
  function KeptIndices<A, B>(xs: seq<A>, f: A -> Option<B>): seq<nat>
    decreases |xs|
  {
    if xs == [] then []
    else KeptIndices(xs[..|xs| - 1], f) + (if f(xs[|xs| - 1]).Some? then [|xs| - 1] else [])
  }

  lemma FilterMapSnoc<A, B>(xs: seq<A>, x: A, f: A -> Option<B>)
    ensures FilterMap(xs + [x], f) == FilterMap(xs, f) + OptSeq(f(x))
  {
    assert (xs + [x])[..|xs|] == xs;
  }

  /** One more element of `xs` taken: the step a loop over `xs` makes. */
  lemma FilterMapPrefix<A, B>(xs: seq<A>, i: nat, f: A -> Option<B>)
    requires i < |xs|
    ensures FilterMap(xs[..i + 1], f) == FilterMap(xs[..i], f) + OptSeq(f(xs[i]))
  {
    assert xs[..i + 1] == xs[..i] + [xs[i]];
    FilterMapSnoc(xs[..i], xs[i], f);
  }

  /** FilterMap picks exactly the elements with a present image, each once,
      in their original order. */
  lemma FilterMapIndices<A, B>(xs: seq<A>, f: A -> Option<B>)
    ensures var ys, ks := FilterMap(xs, f), KeptIndices(xs, f);
      && |ks| == |ys|
      && (forall k :: 0 <= k < |ks| ==> ks[k] < |xs| && f(xs[ks[k]]) == Some(ys[k]))
      && (forall k, l :: 0 <= k < l < |ks| ==> ks[k] < ks[l])
      && (forall j :: 0 <= j < |xs| ==> (f(xs[j]).Some? <==> j in ks))
  {
    KeptIndicesOrdered(xs, f);
    KeptIndicesComplete(xs, f);
    KeptImages(xs, f);
  }

  /** The kept positions are in range and strictly increasing. */
  lemma {:induction false} KeptIndicesOrdered<A, B>(xs: seq<A>, f: A -> Option<B>)
    ensures var ks := KeptIndices(xs, f);
      && (forall k :: 0 <= k < |ks| ==> ks[k] < |xs|)
      && (forall k, l :: 0 <= k < l < |ks| ==> ks[k] < ks[l])
    decreases |xs|
  {
    if xs != [] {
      var init := xs[..|xs| - 1];
      KeptIndicesOrdered(init, f);
      KeptIndicesLast(xs, f);
    }
  }

  /** A position is kept exactly when its image is present. */
  lemma {:induction false} KeptIndicesComplete<A, B>(xs: seq<A>, f: A -> Option<B>)
    ensures forall j :: 0 <= j < |xs| ==> (f(xs[j]).Some? <==> j in KeptIndices(xs, f))
    decreases |xs|
  {
    if xs != [] {
      var init := xs[..|xs| - 1];
      KeptIndicesComplete(init, f);
      KeptIndicesOrdered(init, f);
      KeptIndicesLast(xs, f);
      assert forall j :: 0 <= j < |init| ==> init[j] == xs[j];
    }
  }

  /** The unfolding of KeptIndices on the last element, position by position. */
  lemma KeptIndicesLast<A, B>(xs: seq<A>, f: A -> Option<B>)
    requires xs != []
    ensures var ks0, ks := KeptIndices(xs[..|xs| - 1], f), KeptIndices(xs, f);
      && (forall k :: 0 <= k < |ks0| ==> ks[k] == ks0[k])
      && (if f(xs[|xs| - 1]).Some? then |ks| == |ks0| + 1 && ks[|ks0|] == |xs| - 1 else ks == ks0)
      && (forall j :: j in ks <==> j in ks0 || (j == |xs| - 1 && f(xs[|xs| - 1]).Some?))
  {
  }

  /** The k-th kept value is the image of the k-th kept position. */
  lemma {:induction false} KeptImages<A, B>(xs: seq<A>, f: A -> Option<B>)
    ensures var ys, ks := FilterMap(xs, f), KeptIndices(xs, f);
      && |ks| == |ys|
      && (forall k :: 0 <= k < |ks| ==> ks[k] < |xs| && f(xs[ks[k]]) == Some(ys[k]))
    decreases |xs|
  {
    if xs != [] {
      var init := xs[..|xs| - 1];
      KeptImages(init, f);
      KeptIndicesOrdered(xs, f);
      assert forall j :: 0 <= j < |init| ==> init[j] == xs[j];
    }
  }

  /** Everything FilterMap keeps is the image of some element. */
  lemma FilterMapFrom<A, B>(xs: seq<A>, f: A -> Option<B>, y: B)
    requires y in FilterMap(xs, f)
    ensures exists j :: 0 <= j < |xs| && f(xs[j]) == Some(y)
  {
    FilterMapIndices(xs, f);
    var ys, ks := FilterMap(xs, f), KeptIndices(xs, f);
    var k :| 0 <= k < |ys| && ys[k] == y;
    assert f(xs[ks[k]]) == Some(y);
  }

  /** FilterMap of a sequence without a present image is empty, and conversely. */
  lemma {:induction false} FilterMapEmpty<A, B>(xs: seq<A>, f: A -> Option<B>)
    ensures FilterMap(xs, f) == [] <==> forall j :: 0 <= j < |xs| ==> f(xs[j]).None?
    decreases |xs|
  {
    if xs != [] {
      var init := xs[..|xs| - 1];
      FilterMapEmpty(init, f);
      assert forall j :: 0 <= j < |init| ==> init[j] == xs[j];
    }
  }

  /** A prefix whose elements all lack an image contributes nothing. */
  lemma {:induction false} FilterMapDropNone<A, B>(p: seq<A>, xs: seq<A>, f: A -> Option<B>)
    requires forall j :: 0 <= j < |p| ==> f(p[j]).None?
    ensures FilterMap(p + xs, f) == FilterMap(xs, f)
    decreases |xs|
  {
    if xs == [] {
      assert p + xs == p;
      FilterMapEmpty(p, f);
    } else {
      var init, x := xs[..|xs| - 1], xs[|xs| - 1];
      FilterMapDropNone(p, init, f);
      var s := p + xs;
      assert s[..|s| - 1] == p + init;
    }
  }

  /** When every element has an image, FilterMap keeps all of them, position by position. */
  lemma {:induction false} FilterMapAll<A, B>(xs: seq<A>, f: A -> Option<B>)
    requires forall x :: x in xs ==> f(x).Some?
    ensures |FilterMap(xs, f)| == |xs|
    ensures forall k :: 0 <= k < |xs| ==> FilterMap(xs, f)[k] == f(xs[k]).value
    decreases |xs|
  {
    if xs != [] {
      var init := xs[..|xs| - 1];
      assert forall x :: x in init ==> x in xs;
      FilterMapAll(init, f);
      assert xs[|xs| - 1] in xs;
    }
  }

  /** FilterMap of three elements, written out. */
  lemma FilterMapThree<A, B>(a: A, b: A, c: A, f: A -> Option<B>)
    ensures FilterMap([a, b, c], f) == OptSeq(f(a)) + OptSeq(f(b)) + OptSeq(f(c))
  {
    var ab := [a, b];
    assert ab[..1] == [a] && [a][..0] == [];
    assert FilterMap(ab, f) == OptSeq(f(a)) + OptSeq(f(b));
    assert [a, b, c][..2] == ab;
  }

  /** When each element has the image at its position in `ys`, FilterMap is `ys`. */
  lemma FilterMapImages<A, B>(xs: seq<A>, ys: seq<B>, f: A -> Option<B>)
    requires |xs| == |ys| && forall k :: 0 <= k < |xs| ==> f(xs[k]) == Some(ys[k])
    ensures FilterMap(xs, f) == ys
  {
    forall x | x in xs
      ensures f(x).Some?
    {
      var k :| 0 <= k < |xs| && xs[k] == x;
    }
    FilterMapAll(xs, f);
  }
}
