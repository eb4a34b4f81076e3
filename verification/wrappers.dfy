/** Optional values. */
module Wrappers {
  datatype Option<+T> = None | Some(value: T)

  /** The values of the present options, in order. */
  function Somes<T>(xs: seq<Option<T>>): (out: seq<T>)
    ensures |out| <= |xs|
    decreases |xs|
  {
    if |xs| == 0 then []
    else (if xs[0].Some? then [xs[0].value] else []) + Somes(xs[1..])
  }

  predicate Increasing(ix: seq<nat>) {
    forall j, k | 0 <= j < k < |ix| :: ix[j] < ix[k]
  }

  /** Every position one further on. */
  function Shift(ix: seq<nat>): (r: seq<nat>)
    ensures |r| == |ix|
    ensures forall j | 0 <= j < |ix| :: r[j] == ix[j] + 1
  {
    seq(|ix|, j requires 0 <= j < |ix| => ix[j] + 1)
  }

  lemma ShiftIncreasing(ix: seq<nat>)
    requires Increasing(ix)
    ensures Increasing(Shift(ix)) && Increasing([0] + Shift(ix))
  {
    var r := [0] + Shift(ix);
    forall j, k | 0 <= j < k < |r|
      ensures r[j] < r[k]
    {
      assert r[k] == ix[k - 1] + 1;
      if j >= 1 {
        assert r[j] == ix[j - 1] + 1;
      }
    }
  }

  /** `ix` names the position in `xs` each value of `out` came from. */
  ghost predicate Picks<T>(xs: seq<Option<T>>, out: seq<T>, ix: seq<nat>) {
    && |ix| == |out|
    && (forall j | 0 <= j < |ix| :: ix[j] < |xs| && xs[ix[j]] == Some(out[j]))
  }

  /** `ix` names every present option of `xs`. */
  predicate Covers<T>(xs: seq<Option<T>>, ix: seq<nat>) {
    forall i | 0 <= i < |xs| && xs[i].Some? :: i in ix
  }

  /** `ix` picks `out` out of `xs` in order, leaving no value out. */
  ghost predicate Selects<T>(xs: seq<Option<T>>, out: seq<T>, ix: seq<nat>) {
    Picks(xs, out, ix) && Increasing(ix) && Covers(xs, ix)
  }

  lemma PicksCons<T>(x: Option<T>, xs: seq<Option<T>>, out: seq<T>, ix: seq<nat>)
    requires Picks(xs, out, ix)
    ensures x.None? ==> Picks([x] + xs, out, Shift(ix))
    ensures x.Some? ==> Picks([x] + xs, [x.value] + out, [0] + Shift(ix))
  {
    var ys := [x] + xs;
    forall j | 0 <= j < |ix|
      ensures ys[ix[j] + 1] == Some(out[j])
    {
      assert ys[ix[j] + 1] == xs[ix[j]];
    }
    if x.Some? {
      var out', ix' := [x.value] + out, [0] + Shift(ix);
      forall j | 1 <= j < |ix'|
        ensures ix'[j] < |ys| && ys[ix'[j]] == Some(out'[j])
      {
        assert ix'[j] == ix[j - 1] + 1 && out'[j] == out[j - 1];
      }
    }
  }

  lemma CoversCons<T>(x: Option<T>, xs: seq<Option<T>>, ix: seq<nat>)
    requires Covers(xs, ix)
    ensures x.None? ==> Covers([x] + xs, Shift(ix))
    ensures x.Some? ==> Covers([x] + xs, [0] + Shift(ix))
  {
    var ys := [x] + xs;
    var head: seq<nat> := if x.Some? then [0] else [];
    var ix' := head + Shift(ix);
    forall i | 0 <= i < |ys| && ys[i].Some?
      ensures i in ix'
    {
      if i > 0 {
        assert ys[i] == xs[i - 1];
        var j :| 0 <= j < |ix| && ix[j] == i - 1;
        assert ix'[|head| + j] == i;
      } else {
        assert ix'[0] == 0;
      }
    }
    assert x.None? ==> ix' == Shift(ix);
  }

  /** A selection survives putting one more option in front. */
  lemma SelectsCons<T>(x: Option<T>, xs: seq<Option<T>>, out: seq<T>, ix: seq<nat>)
    requires Selects(xs, out, ix)
    ensures x.None? ==> Selects([x] + xs, out, Shift(ix))
    ensures x.Some? ==> Selects([x] + xs, [x.value] + out, [0] + Shift(ix))
  {
    PicksCons(x, xs, out, ix);
    CoversCons(x, xs, ix);
    ShiftIncreasing(ix);
  }

  /** Somes keeps an order-preserving selection of its input. */
  lemma {:induction false} SomesSelects<T>(xs: seq<Option<T>>) returns (ix: seq<nat>)
    ensures Selects(xs, Somes(xs), ix)
    decreases |xs|
  {
    if |xs| == 0 {
      ix := [];
    } else {
      var rest := SomesSelects(xs[1..]);
      SelectsCons(xs[0], xs[1..], Somes(xs[1..]), rest);
      assert [xs[0]] + xs[1..] == xs;
      if xs[0].Some? {
        ix := [0] + Shift(rest);
      } else {
        ix := Shift(rest);
        assert Somes(xs) == [] + Somes(xs[1..]);
      }
    }
  }

  /** When every option is present Somes returns all the values. */
  lemma {:induction false} SomesAll<T>(xs: seq<Option<T>>, values: seq<T>)
    requires |xs| == |values|
    requires forall i | 0 <= i < |xs| :: xs[i] == Some(values[i])
    ensures Somes(xs) == values
    decreases |xs|
  {
    if |xs| > 0 {
      SomesAll(xs[1..], values[1..]);
      assert [values[0]] + values[1..] == values;
    }
  }

  /** A property every present value has holds of everything Somes keeps. */
  lemma {:induction false} SomesKeep<T>(xs: seq<Option<T>>, p: T -> bool)
    requires forall i | 0 <= i < |xs| && xs[i].Some? :: p(xs[i].value)
    ensures forall j | 0 <= j < |Somes(xs)| :: p(Somes(xs)[j])
    decreases |xs|
  {
    if |xs| > 0 {
      SomesKeep(xs[1..], p);
      assert forall i | 0 <= i < |xs[1..]| :: xs[1..][i] == xs[i + 1];
    }
  }
}
