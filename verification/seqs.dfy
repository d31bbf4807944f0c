/** Index-aware mapping over sequences, the shape of Python's
    `[f(x, i) for i, x in enumerate(xs)]`. */
module Seqs {
  import opened Wrappers

  function MapIndexed<A, B>(xs: seq<A>, f: (A, nat) -> B): (r: seq<B>)
    ensures |r| == |xs|
    ensures forall i :: 0 <= i < |xs| ==> r[i] == f(xs[i], i)
  {
    seq(|xs|, i requires 0 <= i < |xs| => f(xs[i], i))
  }

  /** Mapping a concatenation with positions: when the second part's results do not
      depend on how far along it stands, they are the second part's own. */
  lemma MapIndexedConcat<A, B>(xs: seq<A>, ys: seq<A>, f: (A, nat) -> B)
    requires forall k :: 0 <= k < |ys| ==> f(ys[k], |xs| + k) == f(ys[k], k)
    ensures MapIndexed(xs + ys, f) == MapIndexed(xs, f) + MapIndexed(ys, f)
  {
    var l, r := MapIndexed(xs + ys, f), MapIndexed(xs, f) + MapIndexed(ys, f);
    forall i | 0 <= i < |l| ensures l[i] == r[i] {
      if i < |xs| {
        assert (xs + ys)[i] == xs[i];
      } else {
        assert (xs + ys)[i] == ys[i - |xs|];
      }
    }
  }

  /** Every element of `xs` has property `P`. */
  predicate All<T>(xs: seq<T>, P: T -> bool) {
    forall i :: 0 <= i < |xs| ==> P(xs[i])
  }

  /** A property of both elements of a pair holds of every element. */
  lemma AllOfPair<T>(xs: seq<T>, P: T -> bool)
    requires |xs| == 2 && P(xs[0]) && P(xs[1])
    ensures All(xs, P)
  {
  }

  /** Every element of a concatenation has a property exactly when every element of
      both parts has it. */
  lemma AllConcat<T>(xs: seq<T>, ys: seq<T>, P: T -> bool)
    ensures All(xs + ys, P) <==> All(xs, P) && All(ys, P)
  {
    if All(xs, P) && All(ys, P) {
      forall i | 0 <= i < |xs + ys| ensures P((xs + ys)[i]) {
        if i >= |xs| {
          assert (xs + ys)[i] == ys[i - |xs|];
        }
      }
    }
    if All(xs + ys, P) {
      forall i | 0 <= i < |xs| ensures P(xs[i]) {
        assert (xs + ys)[i] == xs[i];
      }
      forall i | 0 <= i < |ys| ensures P(ys[i]) {
        assert (xs + ys)[|xs| + i] == ys[i];
      }
    }
  }

  /** Collects the values of a list of optional values, stopping at the first absent
      one: Ok with every value in order when all are present, else the index of the
      first absent one. */
  function AllPresent<T>(xs: seq<Option<T>>): (r: Result<seq<T>, nat>)
    ensures r.Ok? <==> forall i :: 0 <= i < |xs| ==> xs[i].Some?
    ensures r.Ok? ==> |r.value| == |xs| && forall i :: 0 <= i < |xs| ==> r.value[i] == xs[i].value
    ensures r.Err? ==> r.error < |xs| && xs[r.error].None?
                       && forall j :: 0 <= j < r.error ==> xs[j].Some?
    decreases |xs|
  {
    if |xs| == 0 then Ok([])
    else match xs[0]
      case None => Err(0)
      case Some(x) =>
        match AllPresent(xs[1..])
        case Err(k) => Err(k + 1)
        case Ok(rest) => Ok([x] + rest)
  }

  /** `[y for x in xs if (y := f(x)) is not None]`: the values `f` gives, in order,
      skipping the elements it maps to None. */
  function FilterMap<A, B>(xs: seq<A>, f: A -> Option<B>): (r: seq<B>)
    ensures |r| <= |xs|
    decreases |xs|
  {
    if xs == [] then []
    else
      var y := f(xs[|xs| - 1]);
      FilterMap(xs[..|xs| - 1], f) + (if y.Some? then [y.value] else [])
  }

  /** Filtering works element by element: it distributes over concatenation. */
  lemma {:induction false} FilterMapAppend<A, B>(xs: seq<A>, ys: seq<A>, f: A -> Option<B>)
    ensures FilterMap(xs + ys, f) == FilterMap(xs, f) + FilterMap(ys, f)
    decreases |ys|
  {
    if ys == [] {
      assert xs + ys == xs;
    } else {
      assert (xs + ys)[..|xs + ys| - 1] == xs + ys[..|ys| - 1];
      FilterMapAppend(xs, ys[..|ys| - 1], f);
    }
  }

  /** A value is kept exactly when `f` gives it for some element. */
  lemma {:induction false} FilterMapMembership<A, B>(xs: seq<A>, f: A -> Option<B>, y: B)
    ensures y in FilterMap(xs, f) <==> exists i :: 0 <= i < |xs| && f(xs[i]) == Some(y)
    decreases |xs|
  {
    if xs != [] {
      var init := xs[..|xs| - 1];
      FilterMapMembership(init, f, y);
      if exists i :: 0 <= i < |init| && f(init[i]) == Some(y) {
        var i :| 0 <= i < |init| && f(init[i]) == Some(y);
        assert xs[i] == init[i];
      }
      if exists i :: 0 <= i < |xs| && f(xs[i]) == Some(y) {
        var i :| 0 <= i < |xs| && f(xs[i]) == Some(y);
        if i < |init| {
          assert init[i] == xs[i];
        }
      }
    }
  }

  /** Elements that `f` keeps as they are pass through unchanged. */
  lemma {:induction false} FilterMapFixed<A>(xs: seq<A>, f: A -> Option<A>)
    requires forall i :: 0 <= i < |xs| ==> f(xs[i]) == Some(xs[i])
    ensures FilterMap(xs, f) == xs
    decreases |xs|
  {
    if xs != [] {
      FilterMapFixed(xs[..|xs| - 1], f);
    }
  }

  /** A non-empty sequence is its front followed by its last element. */
  lemma LastElement<T>(xs: seq<T>)
    requires xs != []
    ensures xs[..|xs| - 1] + [xs[|xs| - 1]] == xs
  {
  }
}
