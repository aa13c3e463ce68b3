/**
 * Generic list helpers: mapping a function over a list, and keeping the values of a list of
 * options (a filter that also transforms), with the facts the loops over them rely on.
 */
module Lists {
  import opened Wrappers

  /** The values present in a list of options, in order. */
  function Present<T>(os: seq<Option<T>>): (vs: seq<T>)
    ensures |vs| <= |os|
  {
    if os == [] then []
    else
      var last := os[|os| - 1];
      Present(os[..|os| - 1]) + (if last.Some? then [last.value] else [])
  }

  /** `f` applied to each element, in order. */
  function MapSeq<A, B>(f: A -> B, xs: seq<A>): (ys: seq<B>)
    ensures |ys| == |xs|
    ensures forall j :: 0 <= j < |xs| ==> ys[j] == f(xs[j])
  {
    seq(|xs|, j requires 0 <= j < |xs| => f(xs[j]))
  }

  /** Mapping distributes over concatenation. */
  lemma MapAppend<A, B>(f: A -> B, a: seq<A>, b: seq<A>)
    ensures MapSeq(f, a + b) == MapSeq(f, a) + MapSeq(f, b)
  {
    var m, ma, mb := MapSeq(f, a + b), MapSeq(f, a), MapSeq(f, b);
    forall j | 0 <= j < |m|
      ensures m[j] == (ma + mb)[j]
    {
      if j < |a| {
        assert (a + b)[j] == a[j];
      } else {
        assert (a + b)[j] == b[j - |a|];
      }
    }
  }

  /** Mapping a prefix gives the prefix of the mapping. */
  lemma MapTake<A, B>(f: A -> B, xs: seq<A>, j: nat)
    requires j <= |xs|
    ensures MapSeq(f, xs[..j]) == MapSeq(f, xs)[..j]
  {
  }

  /** The values present in two lists of options are those of each list, in order. */
  lemma {:induction false} PresentAppend<T>(a: seq<Option<T>>, b: seq<Option<T>>)
    ensures Present(a + b) == Present(a) + Present(b)
    decreases |b|
  {
    if b == [] {
      assert a + b == a;
    } else {
      var b' := b[..|b| - 1];
      assert (a + b)[..|a + b| - 1] == a + b';
      PresentAppend(a, b');
    }
  }

  /** The positions of the `Some` entries, in increasing order. */
  function PresentIndices<T>(os: seq<Option<T>>): (idx: seq<nat>)
    ensures |idx| == |Present(os)|
    ensures forall k :: 0 <= k < |idx| ==> idx[k] < |os|
  {
    if os == [] then []
    else
      var n := |os| - 1;
      PresentIndices(os[..n]) + (if os[n].Some? then [n] else [])
  }

  /**
   * The k-th value present sits at index `idx[k]` of the options, the indices increase, and
   * every `Some` entry has its index in `idx`: the values present are the `Some` entries, each
   * occurrence in its own place.
   */
  lemma PresentOrigin<T>(os: seq<Option<T>>) returns (idx: seq<nat>)
    ensures |idx| == |Present(os)|
    ensures forall k :: 0 <= k < |idx| ==> idx[k] < |os| && os[idx[k]] == Some(Present(os)[k])
    ensures forall k, l :: 0 <= k < l < |idx| ==> idx[k] < idx[l]
    ensures forall j :: 0 <= j < |os| && os[j].Some? ==> j in idx
  {
    idx := PresentIndices(os);
    PresentIndicesValues(os);
    PresentIndicesComplete(os);
  }

  /** Entry `PresentIndices(os)[k]` holds the k-th value present, and the indices increase. */
  lemma {:induction false} PresentIndicesValues<T>(os: seq<Option<T>>)
    ensures var idx := PresentIndices(os);
      && (forall k :: 0 <= k < |idx| ==> os[idx[k]] == Some(Present(os)[k]))
      && (forall k, l :: 0 <= k < l < |idx| ==> idx[k] < idx[l])
  {
    if os != [] {
      var n := |os| - 1;
      var init := os[..n];
      PresentIndicesValues(init);
      var idx, prev := PresentIndices(os), PresentIndices(init);
      var vs, vs' := Present(os), Present(init);
      forall k | 0 <= k < |prev|
        ensures os[idx[k]] == Some(vs[k])
      {
        assert idx[k] == prev[k] && os[prev[k]] == init[prev[k]] && vs[k] == vs'[k];
      }
    }
  }

  /** Every `Some` entry has its index among `PresentIndices(os)`. */
  lemma {:induction false} PresentIndicesComplete<T>(os: seq<Option<T>>)
    ensures forall j :: 0 <= j < |os| && os[j].Some? ==> j in PresentIndices(os)
  {
    if os != [] {
      var n := |os| - 1;
      var init := os[..n];
      PresentIndicesComplete(init);
      IndicesSnoc(PresentIndices(init), PresentIndices(os), n, os[n].Some?);
      SomeInit(os, init, n);
    }
  }

  /** Every `Some` entry is present, right after the values present before it. */
  lemma PresentRank<T>(os: seq<Option<T>>, j: nat)
    requires j < |os| && os[j].Some?
    ensures |Present(os[..j])| < |Present(os)|
    ensures Present(os)[|Present(os[..j])|] == os[j].value
  {
    assert os == os[..j] + [os[j]] + os[j + 1..];
    PresentAppend(os[..j] + [os[j]], os[j + 1..]);
    PresentAppend(os[..j], [os[j]]);
    assert Present([os[j]]) == [os[j].value] by {
      assert [os[j]][..0] == [];
    }
  }

  /** Every value present comes from some entry. */
  lemma PresentMember<T>(os: seq<Option<T>>, k: nat)
    requires k < |Present(os)|
    ensures exists j :: 0 <= j < |os| && os[j] == Some(Present(os)[k])
  {
    var idx := PresentOrigin(os);
  }

  /** One more option adds its value, if it has one, at the end. */
  lemma PresentSnoc<T>(os: seq<Option<T>>, o: Option<T>)
    ensures Present(os + [o]) == Present(os) + (if o.Some? then [o.value] else [])
  {
    assert (os + [o])[..|os|] == os;
  }

  /** No value is present exactly when every entry is `None`. */
  lemma PresentEmpty<T>(os: seq<Option<T>>)
    ensures Present(os) == [] <==> forall j :: 0 <= j < |os| ==> os[j].None?
  {
    if Present(os) != [] {
      PresentMember(os, 0);
    }
    if exists j :: 0 <= j < |os| && os[j].Some? {
      var j :| 0 <= j < |os| && os[j].Some?;
      PresentRank(os, j);
    }
  }

  /** The index of the first element at `i` or later that satisfies `p`, if there is one. */
  function FirstIndex<T>(p: T -> bool, xs: seq<T>, i: nat): (k: Option<nat>)
    requires i <= |xs|
    ensures k.Some? ==> i <= k.value < |xs| && p(xs[k.value])
    ensures forall j :: i <= j < |xs| && (k.None? || j < k.value) ==> !p(xs[j])
    decreases |xs| - i
  {
    if i == |xs| then None
    else if p(xs[i]) then Some(i)
    else FirstIndex(p, xs, i + 1)
  }

  /** No element occurs twice: the last element is not among the others, and they are distinct. */
  predicate Distinct<T(==)>(xs: seq<T>) {
    xs == [] || (xs[|xs| - 1] !in xs[..|xs| - 1] && Distinct(xs[..|xs| - 1]))
  }

  /** `Distinct` holds exactly when no two positions hold the same element. */
  lemma {:induction false} DistinctIff<T>(xs: seq<T>)
    ensures Distinct(xs) <==> forall i, j :: 0 <= i < j < |xs| ==> xs[i] != xs[j]
  {
    if xs != [] {
      var n := |xs| - 1;
      var init := xs[..n];
      DistinctIff(init);
      if Distinct(xs) {
        forall i, j | 0 <= i < j < |xs|
          ensures xs[i] != xs[j]
        {
          if j == n {
            assert xs[i] == init[i];
          } else {
            assert xs[i] == init[i] && xs[j] == init[j];
          }
        }
      } else if xs[n] in init {
        var i :| 0 <= i < n && init[i] == xs[n];
        assert xs[i] == xs[n];
      } else {
        var i, j :| 0 <= i < j < n && init[i] == init[j];
        assert xs[i] == xs[j];
      }
    }
  }

  /** The elements that satisfy `p`, in order. */
  function Filter<T(==)>(p: T -> bool, xs: seq<T>): (ys: seq<T>)
    ensures |ys| <= |xs|
    ensures forall y :: y in ys ==> y in xs && p(y)
  {
    if xs == [] then []
    else
      var init := Filter(p, xs[..|xs| - 1]);
      var x := xs[|xs| - 1];
      assert forall y :: y in init ==> y in xs by {
        assert forall y :: y in xs[..|xs| - 1] ==> y in xs;
      }
      if p(x) then init + [x] else init
  }

  /**
   * Every element that satisfies `p` is kept, each occurrence in its own place: element `j`
   * comes right after the elements kept from before it.
   */
  lemma {:induction false} FilterKeeps<T>(p: T -> bool, xs: seq<T>, j: nat)
    requires j < |xs| && p(xs[j])
    ensures |Filter(p, xs[..j])| < |Filter(p, xs)|
    ensures Filter(p, xs)[|Filter(p, xs[..j])|] == xs[j]
  {
    var n := |xs| - 1;
    if j < n {
      FilterKeeps(p, xs[..n], j);
      assert xs[..n][..j] == xs[..j];
      assert xs[..n][j] == xs[j];
    }
  }

  /** A list whose elements all satisfy `p` is left as it is. */
  lemma {:induction false} FilterAll<T>(p: T -> bool, xs: seq<T>)
    requires forall j :: 0 <= j < |xs| ==> p(xs[j])
    ensures Filter(p, xs) == xs
  {
    if xs != [] {
      var n := |xs| - 1;
      FilterAll(p, xs[..n]);
      assert xs[..n] + [xs[n]] == xs;
    }
  }

  /** Filtering twice is filtering once. */
  lemma FilterIdempotent<T>(p: T -> bool, xs: seq<T>)
    ensures Filter(p, Filter(p, xs)) == Filter(p, xs)
  {
    var ys := Filter(p, xs);
    forall j | 0 <= j < |ys|
      ensures p(ys[j])
    {
      assert ys[j] in ys;
    }
    FilterAll(p, ys);
  }

  /** The positions of the elements that satisfy `p`, in increasing order. */
  function FilterIndices<T>(p: T -> bool, xs: seq<T>): (idx: seq<nat>)
    ensures |idx| == |Filter(p, xs)|
    ensures forall k :: 0 <= k < |idx| ==> idx[k] < |xs|
  {
    if xs == [] then []
    else
      var n := |xs| - 1;
      FilterIndices(p, xs[..n]) + (if p(xs[n]) then [n] else [])
  }

  /**
   * The k-th element kept is element `idx[k]` of the list, the indices increase, and every
   * element that satisfies `p` has its index in `idx`: each occurrence is kept in its own place.
   */
  lemma FilterOrigin<T>(p: T -> bool, xs: seq<T>) returns (idx: seq<nat>)
    ensures |idx| == |Filter(p, xs)|
    ensures forall k :: 0 <= k < |idx| ==> idx[k] < |xs| && xs[idx[k]] == Filter(p, xs)[k]
    ensures forall k, l :: 0 <= k < l < |idx| ==> idx[k] < idx[l]
    ensures forall j :: 0 <= j < |xs| && p(xs[j]) ==> j in idx
  {
    idx := FilterIndices(p, xs);
    FilterIndicesValues(p, xs);
    FilterIndicesComplete(p, xs);
  }

  /** Element `FilterIndices(p, xs)[k]` is the k-th element kept, and the indices increase. */
  lemma {:induction false} FilterIndicesValues<T>(p: T -> bool, xs: seq<T>)
    ensures var idx := FilterIndices(p, xs);
      && (forall k :: 0 <= k < |idx| ==> xs[idx[k]] == Filter(p, xs)[k])
      && (forall k, l :: 0 <= k < l < |idx| ==> idx[k] < idx[l])
  {
    if xs != [] {
      var n := |xs| - 1;
      var init := xs[..n];
      FilterIndicesValues(p, init);
      var idx, prev := FilterIndices(p, xs), FilterIndices(p, init);
      var ys, ys' := Filter(p, xs), Filter(p, init);
      forall k | 0 <= k < |prev|
        ensures xs[idx[k]] == ys[k]
      {
        assert idx[k] == prev[k] && xs[prev[k]] == init[prev[k]] && ys[k] == ys'[k];
      }
    }
  }

  /** Every element that satisfies `p` has its index among `FilterIndices(p, xs)`. */
  lemma {:induction false} FilterIndicesComplete<T>(p: T -> bool, xs: seq<T>)
    ensures forall j :: 0 <= j < |xs| && p(xs[j]) ==> j in FilterIndices(p, xs)
  {
    if xs != [] {
      var n := |xs| - 1;
      var init := xs[..n];
      FilterIndicesComplete(p, init);
      IndicesSnoc(FilterIndices(p, init), FilterIndices(p, xs), n, p(xs[n]));
      PassInit(p, xs, init, n);
    }
  }

  /** The `Some` entries of the first `n` options are those of `os` before `n`. */
  lemma SomeInit<T>(os: seq<Option<T>>, init: seq<Option<T>>, n: nat)
    requires n <= |os| && init == os[..n]
    ensures forall j :: 0 <= j < n && os[j].Some? ==> init[j].Some?
  {
  }

  /** The elements of the first `n` that satisfy `p` are those of `xs` before `n`. */
  lemma PassInit<T>(p: T -> bool, xs: seq<T>, init: seq<T>, n: nat)
    requires n <= |xs| && init == xs[..n]
    ensures forall j :: 0 <= j < n && p(xs[j]) ==> p(init[j])
  {
  }

  /** Indices extended by `n` when `last` holds keep every earlier index, and hold `n` when `last` does. */
  lemma IndicesSnoc(prev: seq<nat>, idx: seq<nat>, n: nat, last: bool)
    requires idx == if last then prev + [n] else prev
    ensures forall j :: j in prev ==> j in idx
    ensures last ==> n in idx
  {
  }
}
