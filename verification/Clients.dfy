/** A trading participant of Client.java: its per-order position map and the two callbacks
    through which the exchange tells it that units of its orders started or stopped resting. */
module Clients {
  import opened Orders

  /** Signed remaining position per order: positive for units resting to buy, negative to sell. */
  type Positions = map<OrderId, int>

  /** The position of order o, a missing entry reading as zero. */
  function Get(m: Positions, o: OrderId): int
  {
    if o in m then m[o] else 0
  }

  /** The map never stores a zero position. */
  predicate NoZero(m: Positions)
  {
    forall o | o in m :: m[o] != 0
  }

  /** Two maps without zero entries that read the same everywhere are the same map. */
  lemma SamePositions(a: Positions, b: Positions)
    requires NoZero(a) && NoZero(b)
    requires forall o :: Get(a, o) == Get(b, o)
    ensures a == b
  {
    assert a.Keys == b.Keys by {
      forall o | o in a ensures o in b {
        assert Get(a, o) != 0;
      }
      forall o | o in b ensures o in a {
        assert Get(b, o) != 0;
      }
    }
    forall o | o in a ensures a[o] == b[o] {
      assert Get(a, o) == Get(b, o);
    }
  }

  /** The map after startTrade: only the trade's order moves, by the unit's direction; an entry
      is created when missing and dropped when it comes to zero. */
  function AfterStart(m: Positions, trade: Purchase): (r: Positions)
    ensures forall o :: Get(r, o) == Get(m, o) + (if o == trade.orderId then trade.direction else 0)
    ensures forall o | o != trade.orderId :: o in r <==> o in m
    ensures NoZero(m) ==> NoZero(r)
  {
    var newPosition := trade.direction + Get(m, trade.orderId);
    if newPosition == 0 then m - {trade.orderId} else m[trade.orderId := newPosition]
  }

  /** The map after completeTrade: only the trade's order moves, back by the unit's direction;
      the entry is dropped when it comes to zero. The entry must exist. */
  function AfterComplete(m: Positions, trade: Purchase): (r: Positions)
    requires trade.orderId in m
    ensures forall o :: Get(r, o) == Get(m, o) - (if o == trade.orderId then trade.direction else 0)
    ensures forall o | o != trade.orderId :: o in r <==> o in m
    ensures NoZero(m) ==> NoZero(r)
  {
    var newPosition := m[trade.orderId] - trade.direction;
    if newPosition == 0 then m - {trade.orderId} else m[trade.orderId := newPosition]
  }

  /** A startTrade followed by a completeTrade of the same unit restores the map. */
  lemma StartThenComplete(m: Positions, trade: Purchase)
    requires NoZero(m) && Get(m, trade.orderId) + trade.direction != 0
    ensures trade.orderId in AfterStart(m, trade)
    ensures AfterComplete(AfterStart(m, trade), trade) == m
  {
    var s := AfterStart(m, trade);
    assert Get(s, trade.orderId) != 0;
    SamePositions(AfterComplete(s, trade), m);
  }

  /** A completeTrade followed by a startTrade of the same unit restores the map. */
  lemma CompleteThenStart(m: Positions, trade: Purchase)
    requires NoZero(m) && trade.orderId in m
    ensures AfterStart(AfterComplete(m, trade), trade) == m
  {
    SamePositions(AfterStart(AfterComplete(m, trade), trade), m);
  }

  class Client {
    const clientId: ClientId
    var orderPositions: Positions

    /** A new client holds no positions (the source draws its id at random). */
    constructor (id: ClientId)
      ensures clientId == id && orderPositions == map[]
    {
      clientId := id;
      orderPositions := map[];
    }

    /** Called by the exchange for each of this client's units that fills or is cancelled. */
    method CompleteTrade(trade: Purchase)
      requires trade.orderId in orderPositions
      modifies this
      ensures orderPositions == AfterComplete(old(orderPositions), trade)
    {
      var newPosition := orderPositions[trade.orderId] - trade.direction;
      if newPosition == 0 {
        orderPositions := orderPositions - {trade.orderId};
      } else {
        orderPositions := orderPositions[trade.orderId := newPosition];
      }
    }

    /** Called by the exchange for each of this client's units that starts resting. */
    method StartTrade(trade: Purchase)
      modifies this
      ensures orderPositions == AfterStart(old(orderPositions), trade)
    {
      var newPosition := trade.direction;
      if trade.orderId in orderPositions {
        newPosition := newPosition + orderPositions[trade.orderId];
      }
      if newPosition == 0 {
        orderPositions := orderPositions - {trade.orderId};
      } else {
        orderPositions := orderPositions[trade.orderId := newPosition];
      }
    }
  }
}
