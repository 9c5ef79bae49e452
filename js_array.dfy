/** Array.prototype.filter and Array.prototype.map with callbacks that may
    throw. The first callback that throws aborts the whole call. */
module JsArray {
  import opened Outcomes

  /** `ys` is `xs` with some elements left out and the rest in their original
      order. */
  predicate Subseq<T(==)>(ys: seq<T>, xs: seq<T>)
    decreases |xs|
  {
    || ys == []
    || (xs != [] && ((ys[0] == xs[0] && Subseq(ys[1..], xs[1..])) || Subseq(ys, xs[1..])))
  }

  /** A subsequence is no longer than the sequence it comes from. */
  lemma {:induction false} SubseqLength<T>(ys: seq<T>, xs: seq<T>)
    requires Subseq(ys, xs)
    ensures |ys| <= |xs|
    decreases |xs|
  {
    if ys != [] {
      if ys[0] == xs[0] && Subseq(ys[1..], xs[1..]) {
        SubseqLength(ys[1..], xs[1..]);
      } else {
        SubseqLength(ys, xs[1..]);
      }
    }
  }

  /** Every element of a subsequence is an element of the sequence. */
  lemma {:induction false} SubseqMembers<T>(ys: seq<T>, xs: seq<T>)
    requires Subseq(ys, xs)
    ensures forall y :: y in ys ==> y in xs
    decreases |xs|
  {
    if ys != [] {
      if ys[0] == xs[0] && Subseq(ys[1..], xs[1..]) {
        SubseqMembers(ys[1..], xs[1..]);
        assert forall y :: y in ys ==> y == ys[0] || y in ys[1..];
      } else {
        SubseqMembers(ys, xs[1..]);
      }
    }
  }

  /** `xs.filter(keep)`, where `keep` already yields the truth value of the
      callback's result. It returns normally exactly when no callback throws;
      then it keeps, in order, the elements the callback accepts, and every
      element the callback accepts. */
  function Filter<T(==)>(xs: seq<T>, keep: T -> Completion<bool>): (r: Completion<seq<T>>)
    ensures r.Normal? <==> forall i :: 0 <= i < |xs| ==> keep(xs[i]).Normal?
    ensures r.Normal? ==> Subseq(r.value, xs)
    ensures r.Normal? ==> forall y :: y in r.value ==> keep(y) == Normal(true)
    ensures r.Normal? ==> forall i :: 0 <= i < |xs| && keep(xs[i]) == Normal(true) ==> xs[i] in r.value
  {
    if xs == [] then Normal([])
    else
      match keep(xs[0])
      case Throw => Throw
      case Normal(b) =>
        match Filter(xs[1..], keep)
        case Throw =>
          assert exists i :: 0 <= i < |xs[1..]| && !keep(xs[1..][i]).Normal?;
          Throw
        case Normal(rest) =>
          assert forall i :: 1 <= i < |xs| ==> xs[i] == xs[1..][i - 1];
          Normal(if b then [xs[0]] + rest else rest)
  }

  /** The filter keeps every occurrence of an accepted element and no
      occurrence of a rejected one. With `Subseq` this fixes the result. */
  lemma {:induction false} FilterCounts<T>(xs: seq<T>, keep: T -> Completion<bool>)
    requires Filter(xs, keep).Normal?
    ensures forall y | y in xs ::
      multiset(Filter(xs, keep).value)[y] == if keep(y) == Normal(true) then multiset(xs)[y] else 0
    decreases |xs|
  {
    if xs != [] {
      var rest := Filter(xs[1..], keep).value;
      FilterCounts(xs[1..], keep);
      assert xs == [xs[0]] + xs[1..];
      SubseqMembers(rest, xs[1..]);
      forall y | y in xs
        ensures multiset(Filter(xs, keep).value)[y] == if keep(y) == Normal(true) then multiset(xs)[y] else 0
      {
        if y !in xs[1..] {
          assert multiset(rest)[y] == 0;
        }
      }
    }
  }

  /** `xs.map(f)`. It returns normally exactly when no callback throws; then
      the result has one element per input element, the callback's value. */
  function Map<T, U>(xs: seq<T>, f: T -> Completion<U>): (r: Completion<seq<U>>)
    ensures r.Normal? <==> forall i :: 0 <= i < |xs| ==> f(xs[i]).Normal?
    ensures r.Normal? ==> |r.value| == |xs| && forall i :: 0 <= i < |xs| ==> f(xs[i]) == Normal(r.value[i])
  {
    if xs == [] then Normal([])
    else
      match f(xs[0])
      case Throw => Throw
      case Normal(y) =>
        match Map(xs[1..], f)
        case Throw =>
          assert exists i :: 0 <= i < |xs[1..]| && !f(xs[1..][i]).Normal?;
          Throw
        case Normal(rest) =>
          assert forall i :: 1 <= i < |xs| ==> xs[i] == xs[1..][i - 1];
          Normal([y] + rest)
  }

  /** Appending the same element to both sides keeps a subsequence, and so
      does appending an element to the larger side only. */
  lemma {:induction false} SubseqSnoc<T>(ys: seq<T>, xs: seq<T>, x: T)
    requires Subseq(ys, xs)
    ensures Subseq(ys, xs + [x]) && Subseq(ys + [x], xs + [x])
    decreases |xs|
  {
    if xs == [] {
      assert ys == [];
      assert ([x] + [])[1..] == [];
    } else {
      assert (xs + [x])[1..] == xs[1..] + [x];
      if ys == [] {
        SubseqSnoc(ys, xs[1..], x);
        assert ys + [x] == [x];
      } else if ys[0] == xs[0] && Subseq(ys[1..], xs[1..]) {
        SubseqSnoc(ys[1..], xs[1..], x);
        assert (ys + [x])[1..] == ys[1..] + [x];
      } else {
        SubseqSnoc(ys, xs[1..], x);
      }
    }
  }

  /** The array built by a loop that calls `f` on each element in order and
      pushes the value it yields, if any; Throw when some call throws. */
  function Collect<T, U>(xs: seq<T>, f: T -> Completion<Option<U>>): (r: Completion<seq<U>>)
    ensures r.Normal? ==> |r.value| <= |xs|
    ensures r.Normal? ==> forall i | 0 <= i < |xs| :: f(xs[i]).Normal?
    decreases |xs|
  {
    if xs == [] then Normal([])
    else
      match Collect(xs[..|xs| - 1], f)
      case Throw => Throw
      case Normal(ys) =>
        match f(xs[|xs| - 1])
        case Throw => Throw
        case Normal(None) => Normal(ys)
        case Normal(Some(y)) => Normal(ys + [y])
  }

  /** One more iteration of the loop over a prefix of `xs`. */
  lemma CollectPrefixStep<T, U>(xs: seq<T>, i: nat, f: T -> Completion<Option<U>>, ys: seq<U>)
    requires i < |xs| && Collect(xs[..i], f) == Normal(ys)
    ensures f(xs[i]) == Throw ==> Collect(xs[..i + 1], f) == Throw
    ensures f(xs[i]) == Normal(None) ==> Collect(xs[..i + 1], f) == Normal(ys)
    ensures f(xs[i]).Normal? && f(xs[i]).value.Some? ==> Collect(xs[..i + 1], f) == Normal(ys + [f(xs[i]).value.value])
  {
    assert xs[..i + 1][..i] == xs[..i];
  }

  /** The loop throws exactly when the callback throws on some element. */
  lemma {:induction false} CollectThrows<T, U>(xs: seq<T>, f: T -> Completion<Option<U>>)
    ensures Collect(xs, f) == Throw <==> exists i :: 0 <= i < |xs| && f(xs[i]) == Throw
    decreases |xs|
  {
    if xs != [] {
      var init := xs[..|xs| - 1];
      CollectThrows(init, f);
      assert forall i :: 0 <= i < |init| ==> init[i] == xs[i];
    }
  }

  /** Every pushed value comes from an element, and every value the callback
      yields is pushed. */
  lemma {:induction false} CollectSources<T, U>(xs: seq<T>, f: T -> Completion<Option<U>>)
    requires Collect(xs, f).Normal?
    ensures var ys := Collect(xs, f).value;
      && (forall k :: 0 <= k < |ys| ==> exists i :: 0 <= i < |xs| && f(xs[i]) == Normal(Some(ys[k])))
      && (forall i :: 0 <= i < |xs| && f(xs[i]).Normal? && f(xs[i]).value.Some? ==> f(xs[i]).value.value in ys)
    decreases |xs|
  {
    if xs != [] {
      var init := xs[..|xs| - 1];
      CollectSources(init, f);
      var before := Collect(init, f).value;
      var ys := Collect(xs, f).value;
      assert forall i :: 0 <= i < |init| ==> init[i] == xs[i];
      forall k | 0 <= k < |ys|
        ensures exists i :: 0 <= i < |xs| && f(xs[i]) == Normal(Some(ys[k]))
      {
        if k < |before| {
          assert ys[k] == before[k];
          var i :| 0 <= i < |init| && f(init[i]) == Normal(Some(before[k]));
          assert xs[i] == init[i];
        } else {
          assert f(xs[|xs| - 1]) == Normal(Some(ys[k]));
        }
      }
      assert forall y :: y in before ==> y in ys;
    }
  }

  /** The position of the first element satisfying `p`. */
  function FirstWhere<T>(xs: seq<T>, p: T -> bool): (m: nat)
    requires exists i :: 0 <= i < |xs| && p(xs[i])
    ensures m < |xs| && p(xs[m])
    ensures forall i | 0 <= i < m :: !p(xs[i])
  {
    if p(xs[0]) then 0
    else
      assert exists i :: 0 <= i < |xs[1..]| && p(xs[1..][i]) by {
        var i :| 0 <= i < |xs| && p(xs[i]);
        assert xs[1..][i - 1] == xs[i];
      }
      var m := FirstWhere(xs[1..], p);
      assert forall i | 1 <= i <= m :: xs[i] == xs[1..][i - 1];
      1 + m
  }

  /** `idx` lists, in increasing order, the positions of the elements whose
      callback pushed a value, one per pushed value `ys[k]`. */
  ghost predicate PushedFrom<T, U>(xs: seq<T>, f: T -> Completion<Option<U>>, ys: seq<U>, idx: seq<nat>) {
    && |idx| == |ys|
    && (forall k | 0 <= k < |idx| :: idx[k] < |xs| && f(xs[idx[k]]) == Normal(Some(ys[k])))
    && (forall k, l | 0 <= k < l < |idx| :: idx[k] < idx[l])
    && (forall i | 0 <= i < |xs| && f(xs[i]).Normal? && f(xs[i]).value.Some? :: i in idx)
  }

  /** The push loop visits the elements in order: the k-th pushed value is the
      callback's value on the element at the k-th position that pushes one, and
      every such position appears once. */
  lemma {:induction false} CollectIndexed<T, U>(xs: seq<T>, f: T -> Completion<Option<U>>) returns (idx: seq<nat>)
    requires Collect(xs, f).Normal?
    ensures PushedFrom(xs, f, Collect(xs, f).value, idx)
    decreases |xs|
  {
    if xs == [] {
      idx := [];
    } else {
      var init := xs[..|xs| - 1];
      var last := |xs| - 1;
      var before := CollectIndexed(init, f);
      assert forall i | 0 <= i < |init| :: init[i] == xs[i];
      if f(xs[last]).value.Some? {
        idx := before + [last];
      } else {
        idx := before;
      }
      forall i | 0 <= i < |xs| && f(xs[i]).Normal? && f(xs[i]).value.Some?
        ensures i in idx
      {
        if i < last {
          assert f(init[i]) == f(xs[i]);
          assert i in before;
        } else {
          assert idx[|idx| - 1] == i;
        }
      }
    }
  }

  /** An element before the one that pushed the p-th value pushes, if
      anything, one of the values before the p-th. */
  lemma PushedBefore<T, U>(xs: seq<T>, f: T -> Completion<Option<U>>, ys: seq<U>, idx: seq<nat>, p: nat, i: nat)
    requires PushedFrom(xs, f, ys, idx)
    requires p < |idx| && i < idx[p]
    ensures f(xs[i]).Normal? && f(xs[i]).value.Some? ==>
      exists q :: 0 <= q < p && ys[q] == f(xs[i]).value.value
  {
    if f(xs[i]).Normal? && f(xs[i]).value.Some? {
      assert i in idx;
      var q :| 0 <= q < |idx| && idx[q] == i;
      assert q < p;
    }
  }

  /** The accumulator of a loop that runs `all = all.concat(f(x))` for each
      element `x` in order. */
  function ConcatAll<T, U>(xs: seq<T>, f: T -> seq<U>): (r: seq<U>)
    ensures |r| == TotalLength(xs, f)
    decreases |xs|
  {
    if xs == [] then []
    else
      TotalLengthSnoc(xs, f);
      ConcatAll(xs[..|xs| - 1], f) + f(xs[|xs| - 1])
  }

  /** The lengths of the lists, added up from the front. */
  function TotalLength<T, U>(xs: seq<T>, f: T -> seq<U>): nat
    decreases |xs|
  {
    if xs == [] then 0 else |f(xs[0])| + TotalLength(xs[1..], f)
  }

  lemma {:induction false} TotalLengthSnoc<T, U>(xs: seq<T>, f: T -> seq<U>)
    requires xs != []
    ensures TotalLength(xs, f) == TotalLength(xs[..|xs| - 1], f) + |f(xs[|xs| - 1])|
    decreases |xs|
  {
    if |xs| > 1 {
      TotalLengthSnoc(xs[1..], f);
      assert xs[1..][..|xs[1..]| - 1] == xs[..|xs| - 1][1..];
    }
  }

  /** The result for a prefix of the elements is a prefix of the result. */
  lemma {:induction false} ConcatAllPrefix<T, U>(xs: seq<T>, k: nat, f: T -> seq<U>)
    requires k <= |xs|
    ensures ConcatAll(xs[..k], f) <= ConcatAll(xs, f)
    decreases |xs|
  {
    if k < |xs| {
      var init := xs[..|xs| - 1];
      assert init[..k] == xs[..k];
      ConcatAllPrefix(init, k, f);
    } else {
      assert xs[..k] == xs;
    }
  }

  lemma SliceAfterPrefix<T>(whole: seq<T>, head: seq<T>, tail: seq<T>)
    requires head + tail <= whole
    ensures whole[|head|..|head| + |tail|] == tail
  {
    assert whole[..|head| + |tail|] == head + tail;
  }

  /** The list of the k-th element sits in the result right after the lists
      of the elements before it. */
  lemma ConcatAllSegment<T, U>(xs: seq<T>, k: nat, f: T -> seq<U>)
    requires k < |xs|
    ensures TotalLength(xs[..k], f) + |f(xs[k])| == TotalLength(xs[..k + 1], f) <= |ConcatAll(xs, f)|
    ensures ConcatAll(xs, f)[TotalLength(xs[..k], f)..TotalLength(xs[..k + 1], f)] == f(xs[k])
  {
    var upto := xs[..k + 1];
    assert upto[..|upto| - 1] == xs[..k] && upto[|upto| - 1] == xs[k];
    ConcatAllPrefix(xs, k + 1, f);
    SliceAfterPrefix(ConcatAll(xs, f), ConcatAll(xs[..k], f), f(xs[k]));
  }

  /** Every element of the result comes from the list of some element. */
  lemma {:induction false} ConcatAllMembers<T, U>(xs: seq<T>, f: T -> seq<U>)
    ensures forall y :: y in ConcatAll(xs, f) ==> exists k :: 0 <= k < |xs| && y in f(xs[k])
    decreases |xs|
  {
    if xs != [] {
      var init := xs[..|xs| - 1];
      ConcatAllMembers(init, f);
      forall y | y in ConcatAll(xs, f)
        ensures exists k :: 0 <= k < |xs| && y in f(xs[k])
      {
        if y in ConcatAll(init, f) {
          var k :| 0 <= k < |init| && y in f(init[k]);
          assert xs[k] == init[k];
        } else {
          assert y in f(xs[|xs| - 1]);
        }
      }
    }
  }
}
