/** Identifiers, the resting unit of an order and the summary a limit order returns
    (the records PurchaseInformation and OrderInformation of Exchange.java). */
module Orders {

  /** Order and client identifiers; the source draws random UUIDs, here they are abstract numbers. */
  type OrderId = int
  type ClientId = int

  /** +1 for a buy, -1 for a sell. */
  type Direction = d: int | d == 1 || d == -1 witness 1

  datatype Option<T> = None | Some(value: T)

  /** One unit of a resting order. Its time priority is its position in its tick's queue,
      which stands in for the creation timestamp of the source. */
  datatype Purchase = Purchase(orderId: OrderId, clientId: ClientId, direction: Direction)

  function Abs(x: int): (r: nat)
    ensures r == x || r == -x
  {
    if x < 0 then -x else x
  }

  /** Math.signum on an int position. */
  function Sign(x: int): (r: int)
    ensures r * x == Abs(x)
    ensures x != 0 ==> r == 1 || r == -1
  {
    if x > 0 then 1 else if x < 0 then -1 else 0
  }

  /** The integer nearest to n / d, ties rounded away from zero (BigDecimal's HALF_UP at scale 0). */
  function RoundHalfUp(n: int, d: int): (r: int)
    requires d > 0
    ensures n >= 0 ==> -d < 2 * (r * d - n) <= d
    ensures n < 0 ==> -d <= 2 * (r * d - n) < d
  {
    if n >= 0 then
      var q := (2 * n + d) / (2 * d);
      assert 2 * n + d == 2 * d * q + (2 * n + d) % (2 * d);
      q
    else
      var q := (-2 * n + d) / (2 * d);
      assert -2 * n + d == 2 * d * q + (-2 * n + d) % (2 * d);
      -q
  }

  /** What limitOrder returns: the order's id, how many units crossed, the sum of the ticks
      they crossed at, and the direction. */
  datatype OrderInformation = OrderInformation(orderId: OrderId, numFilled: int, totalPrice: int, direction: Direction)
  {
    /** getAveragePrice in integer ticks: absent when nothing filled, otherwise the
        average fill tick totalPrice / numFilled rounded half up. */
    function AveragePrice(): (r: Option<int>)
      ensures r.None? <==> numFilled == 0
      ensures r.Some? && numFilled > 0 && totalPrice >= 0 ==>
                -numFilled < 2 * (r.value * numFilled - totalPrice) <= numFilled
      ensures r.Some? && numFilled > 0 && totalPrice < 0 ==>
                -numFilled <= 2 * (r.value * numFilled - totalPrice) < numFilled
      ensures r.Some? && numFilled < 0 && totalPrice <= 0 ==>
                numFilled <= 2 * (r.value * numFilled - totalPrice) < -numFilled
    {
      if numFilled == 0 then None
      else if numFilled > 0 then Some(RoundHalfUp(totalPrice, numFilled))
      else Some(RoundHalfUp(-totalPrice, -numFilled))
    }
  }

  /** An average of fill ticks that all lie in [lo, hi] rounds into [lo, hi]: a buy's average
      never exceeds its limit, a sell's never falls below it. */
  lemma AveragePriceWithin(info: OrderInformation, lo: int, hi: int)
    requires info.numFilled > 0 && 0 <= lo
    requires lo * info.numFilled <= info.totalPrice <= hi * info.numFilled
    ensures info.AveragePrice().Some?
    ensures lo <= info.AveragePrice().value <= hi
  {
    var n, d := info.totalPrice, info.numFilled;
    var r := info.AveragePrice().value;
    ScaleMonotone(0, lo, d);
    assert -d < 2 * (r * d - n) <= d;
    if hi + 1 <= r {
      ScaleMonotone(hi + 1, r, d);
      ScaleNext(hi, d);
      assert false;
    }
    if r <= lo - 1 {
      ScaleMonotone(r, lo - 1, d);
      ScaleNext(lo - 1, d);
      assert false;
    }
  }

  lemma ScaleNext(a: int, k: int)
    ensures (a + 1) * k == a * k + k
  {
  }

  lemma ScaleMonotone(a: int, b: int, k: nat)
    requires a <= b
    ensures a * k <= b * k
  {
  }
}
