/** The two list helpers that map a fraction of a list to one of its items
    and back: `getItemByPercent` rounds `len(items) * percent` to an index,
    `getPercentOfItem` divides the first index of an item by the length.
    Fractions are exact reals; Python's float rounding is not modelled. */
module Percent {
  import opened Errors

  /** Python's `round(x)` to an integer: to the nearest integer, ties to
      the even one. */
  function RoundHalfEven(x: real): (n: int)
    ensures -(1.0 / 2.0) <= n as real - x <= 1.0 / 2.0
    ensures n as real - x == 1.0 / 2.0 || n as real - x == -(1.0 / 2.0) ==> n % 2 == 0
  {
    var f := x.Floor;
    var frac := x - f as real;
    if frac < 1.0 / 2.0 then f
    else if frac > 1.0 / 2.0 then f + 1
    else if f % 2 == 0 then f
    else f + 1
  }

  /** Rounding leaves an integer where it is. */
  lemma RoundInteger(k: int)
    ensures RoundHalfEven(k as real) == k
  {
  }

  /** `items[k]`: negative indices count from the end; anything outside
      `-len(items) .. len(items) - 1` raises IndexError. */
  function PyIndex<T>(items: seq<T>, k: int): (r: Result<T>)
    ensures r.Ok? <==> -|items| <= k < |items|
    ensures r.Ok? ==> r.value == items[if k >= 0 then k else |items| + k]
    ensures r.Err? ==> r.error == IndexError
  {
    if 0 <= k < |items| then Ok(items[k])
    else if -|items| <= k < 0 then Ok(items[|items| + k])
    else Err(IndexError)
  }

  /** `getItemByPercent(items, percent)` as written: `items[round(len *
      percent)]`. */
  function ItemByPercent<T>(items: seq<T>, percent: real): (r: Result<T>)
    ensures var k := RoundHalfEven(|items| as real * percent);
            && (r.Ok? <==> -|items| <= k < |items|)
            && (r.Ok? && k >= 0 ==> r.value == items[k])
            && (r.Err? ==> r.error == IndexError)
  {
    PyIndex(items, RoundHalfEven(|items| as real * percent))
  }

  /** At `percent = 1.0`, which the range "between 0.0 and 1.0" admits, the
      rounded index is the length itself: every list raises. */
  lemma FullPercentRaises<T>(items: seq<T>)
    ensures ItemByPercent(items, 1.0) == Err(IndexError)
  {
    RoundInteger(|items|);
  }

  /** The same holds for any percent that rounds to the length, so for two
      items already from 0.75 on. */
  lemma {:induction false} TwoItemsNearFullRaise<T>(a: T, b: T, percent: real)
    requires 3.0 / 4.0 <= percent <= 1.0
    ensures ItemByPercent([a, b], percent) == Err(IndexError)
  {
    var x := 2.0 * percent;
    assert 3.0 / 2.0 <= x <= 2.0;
    var k := RoundHalfEven(x);
    assert 1.0 <= k as real <= 5.0 / 2.0;
  }

  /** `getItemByPercent` with the index clamped to the last item, so that
      every percent from 0.0 to 1.0 inclusive selects an item. */
  function ItemByPercentClamped<T>(items: seq<T>, percent: real): (r: Result<T>)
    ensures var k := RoundHalfEven(|items| as real * percent);
            && (r.Ok? <==> items != [] && -|items| <= k)
            && (items != [] && 0 <= k ==> r == Ok(items[if k < |items| then k else |items| - 1]))
            && (r.Err? ==> r.error == IndexError)
  {
    var k := RoundHalfEven(|items| as real * percent);
    PyIndex(items, if k < |items| then k else |items| - 1)
  }

  /** On a non-empty list every percent in `[0, 1]` selects an item, the
      one at the rounded index or the last one. */
  lemma ClampedSelects<T>(items: seq<T>, percent: real)
    requires items != [] && 0.0 <= percent <= 1.0
    ensures var k := RoundHalfEven(|items| as real * percent);
            && 0 <= k <= |items|
            && ItemByPercentClamped(items, percent)
               == Ok(items[if k < |items| then k else |items| - 1])
  {
    ScaledIndexBetween(|items|, percent);
  }

  /** A percent in `[0, 1]` of a length `n` rounds to an index in `0 .. n`. */
  lemma ScaledIndexBetween(n: nat, percent: real)
    requires n >= 1 && 0.0 <= percent <= 1.0
    ensures 0 <= RoundHalfEven(n as real * percent) <= n
  {
    ProductBetween(n as real, percent);
    RoundBetween(n as real * percent, n);
  }

  lemma RoundBetween(x: real, n: nat)
    requires 0.0 <= x <= n as real
    ensures 0 <= RoundHalfEven(x) <= n
  {
  }

  lemma ProductBetween(n: real, p: real)
    requires n >= 1.0 && 0.0 <= p <= 1.0
    ensures 0.0 <= n * p <= n
  {
    assert n * p <= n * 1.0;
  }

  /** The clamp changes nothing where the source already selects an item. */
  lemma ClampedAgrees<T>(items: seq<T>, percent: real)
    requires ItemByPercent(items, percent).Ok?
    ensures ItemByPercentClamped(items, percent) == ItemByPercent(items, percent)
  {
  }

  /** `items.index(item)`: the first position of `item`. */
  function FirstIndex<T(==)>(items: seq<T>, item: T): (r: Option<nat>)
    ensures r.Some? <==> item in items
    ensures r.Some? ==> r.value < |items| && items[r.value] == item
                        && forall j :: 0 <= j < r.value ==> items[j] != item
  {
    if items == [] then None
    else if items[0] == item then Some(0)
    else
      match FirstIndex(items[1..], item)
      case None => None
      case Some(i) => Some(i + 1)
  }

  /** `getPercentOfItem(items, item)`: the first index over the length; an
      item that is not in the list raises ValueError. */
  function PercentOfItem<T(==)>(items: seq<T>, item: T): (r: Result<real>)
    ensures r.Ok? <==> item in items
    ensures r.Ok? ==> 0.0 <= r.value < 1.0
    ensures r.Ok? ==> exists i :: 0 <= i < |items| && items[i] == item
                                  && r.value == i as real / |items| as real
                                  && forall j :: 0 <= j < i ==> items[j] != item
    ensures r.Err? ==> r.error == ValueError
  {
    match FirstIndex(items, item)
    case None => Err(ValueError)
    case Some(i) =>
      FractionBelowOne(i, |items|);
      Ok(i as real / |items| as real)
  }

  lemma FractionBelowOne(i: nat, n: nat)
    requires i < n
    ensures 0.0 <= i as real / n as real < 1.0
  {
  }

  /** Looking an item up by its own percent finds it again: the item's first
      index times the length over the length is that index. */
  lemma {:induction false} PercentRoundTrip<T>(items: seq<T>, item: T)
    requires item in items
    ensures ItemByPercent(items, PercentOfItem(items, item).value) == Ok(item)
  {
    var i := FirstIndex(items, item).value;
    var v := PercentOfItem(items, item).value;
    assert v == i as real / |items| as real;
    ScaleBack(i, |items|, v);
    IndexByFraction(items, i, v);
  }

  /** A percent that scales back to the index `i` selects `items[i]`. */
  lemma IndexByFraction<T>(items: seq<T>, i: nat, v: real)
    requires i < |items| && |items| as real * v == i as real
    ensures ItemByPercent(items, v) == Ok(items[i])
  {
    RoundInteger(i);
  }

  /** The corrected lookup keeps the round trip. */
  lemma PercentRoundTripClamped<T>(items: seq<T>, item: T)
    requires item in items
    ensures ItemByPercentClamped(items, PercentOfItem(items, item).value) == Ok(item)
  {
    PercentRoundTrip(items, item);
    ClampedAgrees(items, PercentOfItem(items, item).value);
  }

  lemma ScaleBack(i: nat, n: nat, v: real)
    requires i < n && v == i as real / n as real
    ensures n as real * v == i as real
  {
  }
}
