/**
 `scale`: map each weight linearly from the observed range `[smin, smax]`
 onto `[imin, imax]`. Arithmetic is exact (`real`); the source divides by
 `smax - smin`, so when every weight is equal the call fails.
 */
module Scaling {
  import opened Results
  import opened Items

  /** An item after scaling: same endpoints, a real-valued width. */
  datatype Edge = Edge(x: string, y: string, i: real)

  /** `min(it.i for it in items)`. */
  function MinWeight(items: seq<Item>): (m: int)
    requires |items| > 0
    ensures forall j :: 0 <= j < |items| ==> m <= items[j].i
    ensures exists j :: 0 <= j < |items| && items[j].i == m
  {
    if |items| == 1 then items[0].i
    else
      var rest := MinWeight(items[1..]);
      assert forall j :: 1 <= j < |items| ==> items[j] == items[1..][j - 1];
      if items[0].i <= rest then items[0].i else rest
  }

  /** `max(it.i for it in items)`. */
  function MaxWeight(items: seq<Item>): (m: int)
    requires |items| > 0
    ensures forall j :: 0 <= j < |items| ==> items[j].i <= m
    ensures exists j :: 0 <= j < |items| && items[j].i == m
  {
    if |items| == 1 then items[0].i
    else
      var rest := MaxWeight(items[1..]);
      assert forall j :: 1 <= j < |items| ==> items[j] == items[1..][j - 1];
      if rest <= items[0].i then items[0].i else rest
  }

  /** Every item has the same weight. */
  predicate AllEqual(items: seq<Item>)
  {
    forall j, l :: 0 <= j < |items| && 0 <= l < |items| ==> items[j].i == items[l].i
  }

  /** `imin + (imax - imin) * (w - smin) / (smax - smin)`. */
  function Lerp(w: int, smin: int, smax: int, imin: real, imax: real): real
    requires smin != smax
  {
    imin + (imax - imin) * ((w - smin) as real) / ((smax - smin) as real)
  }

  /** `scale(items, imin, imax)` of aggregate.py:18-27. */
  function Scale(items: seq<Item>, imin: real, imax: real): (r: Result<seq<Edge>, Error>)
    ensures items == [] ==> r == Success([])
    ensures r.Failure? <==> items != [] && AllEqual(items)
    ensures r.Failure? ==> r.error == ZeroDivision
    ensures r.Success? ==> |r.value| == |items|
    ensures r.Success? ==> forall j :: 0 <= j < |items| ==>
      r.value[j].x == items[j].x && r.value[j].y == items[j].y
  {
    if items == [] then Success([])
    else
      var smin, smax := MinWeight(items), MaxWeight(items);
      if smax - smin == 0 then Failure(ZeroDivision)
      else
        assert !AllEqual(items) by {
          var j :| 0 <= j < |items| && items[j].i == smin;
          var l :| 0 <= l < |items| && items[l].i == smax;
        }
        Success(seq(|items|, j requires 0 <= j < |items| =>
          Edge(items[j].x, items[j].y, Lerp(items[j].i, smin, smax, imin, imax))))
  }

  /** In the observed range, the scaled value stays in the target range. */
  lemma LerpBounds(w: int, smin: int, smax: int, imin: real, imax: real)
    requires smin <= w <= smax && smin < smax && imin <= imax
    ensures imin <= Lerp(w, smin, smax, imin, imax) <= imax
  {
    var d, a, s := imax - imin, (w - smin) as real, (smax - smin) as real;
    assert 0.0 <= d * a <= d * s;
    assert d * a / s <= d by {
      assert d * s / s == d;
    }
  }

  /** The scaled value does not decrease as the weight grows. */
  lemma LerpMonotone(w1: int, w2: int, smin: int, smax: int, imin: real, imax: real)
    requires w1 <= w2 && smin < smax && imin <= imax
    ensures Lerp(w1, smin, smax, imin, imax) <= Lerp(w2, smin, smax, imin, imax)
  {
    var d, s := imax - imin, (smax - smin) as real;
    var a1, a2 := (w1 - smin) as real, (w2 - smin) as real;
    assert d * a1 <= d * a2;
  }

  /** Distinct weights stay distinct when the target range is not a point. */
  lemma LerpStrict(w1: int, w2: int, smin: int, smax: int, imin: real, imax: real)
    requires w1 < w2 && smin < smax && imin < imax
    ensures Lerp(w1, smin, smax, imin, imax) < Lerp(w2, smin, smax, imin, imax)
  {
    var d, s := imax - imin, (smax - smin) as real;
    var a1, a2 := (w1 - smin) as real, (w2 - smin) as real;
    assert d * a1 < d * a2;
  }

  /** Every scaled weight lies in `[imin, imax]`. */
  lemma ScaleBounds(items: seq<Item>, imin: real, imax: real)
    requires imin <= imax && Scale(items, imin, imax).Success?
    ensures forall e :: e in Scale(items, imin, imax).value ==> imin <= e.i <= imax
  {
    var r := Scale(items, imin, imax).value;
    forall e | e in r ensures imin <= e.i <= imax {
      var j :| 0 <= j < |r| && r[j] == e;
      LerpBounds(items[j].i, MinWeight(items), MaxWeight(items), imin, imax);
    }
  }

  lemma LerpEnds(smin: int, smax: int, imin: real, imax: real)
    requires smin < smax
    ensures Lerp(smin, smin, smax, imin, imax) == imin
    ensures Lerp(smax, smin, smax, imin, imax) == imax
  {
    var s := (smax - smin) as real;
    assert (imax - imin) * s / s == imax - imin;
  }

  /** The lightest item maps to `imin` and the heaviest to `imax`. */
  lemma ScaleEndpoints(items: seq<Item>, imin: real, imax: real, j: int)
    requires Scale(items, imin, imax).Success? && 0 <= j < |items|
    ensures (forall l :: 0 <= l < |items| ==> items[j].i <= items[l].i) ==>
      Scale(items, imin, imax).value[j].i == imin
    ensures (forall l :: 0 <= l < |items| ==> items[l].i <= items[j].i) ==>
      Scale(items, imin, imax).value[j].i == imax
  {
    var smin, smax := MinWeight(items), MaxWeight(items);
    var lo :| 0 <= lo < |items| && items[lo].i == smin;
    var hi :| 0 <= hi < |items| && items[hi].i == smax;
    assert smin < smax;
    LerpEnds(smin, smax, imin, imax);
    assert Scale(items, imin, imax).value[j].i == Lerp(items[j].i, smin, smax, imin, imax);
  }

  /** Scaling keeps the order of the weights. */
  lemma ScaleMonotone(items: seq<Item>, imin: real, imax: real, j: int, l: int)
    requires imin <= imax && Scale(items, imin, imax).Success?
    requires 0 <= j < |items| && 0 <= l < |items| && items[j].i <= items[l].i
    ensures Scale(items, imin, imax).value[j].i <= Scale(items, imin, imax).value[l].i
  {
    LerpMonotone(items[j].i, items[l].i, MinWeight(items), MaxWeight(items), imin, imax);
  }

  /** With a proper target range, heavier items get strictly wider edges. */
  lemma ScaleStrict(items: seq<Item>, imin: real, imax: real, j: int, l: int)
    requires imin < imax && Scale(items, imin, imax).Success?
    requires 0 <= j < |items| && 0 <= l < |items| && items[j].i < items[l].i
    ensures Scale(items, imin, imax).value[j].i < Scale(items, imin, imax).value[l].i
  {
    LerpStrict(items[j].i, items[l].i, MinWeight(items), MaxWeight(items), imin, imax);
  }

  /** Two items of equal weight: `smax - smin` is zero and `scale` raises. */
  lemma EqualWeightsExample()
    ensures Scale([Item("A", "B", 5), Item("C", "D", 5)], 0.5, 5.0) == Failure(ZeroDivision)
  {
    var items := [Item("A", "B", 5), Item("C", "D", 5)];
    assert AllEqual(items);
  }
}
