/** The deterministic scenarios of Test.java, run against the model on a ladder of five ticks. */
module Scenarios {
  import opened Orders
  import opened Ladder
  import opened Matching
  import opened Clients
  import opened Exchanges
  import opened Requests

  /** The empty ladder of five ticks. */
  function Empty(): Book
  {
    seq(5, _ => [])
  }

  /** The ladder after a live limit order whose scan ended in f: the unfilled units, copies of
      u, join the back of the limit tick. */
  function Booked(f: Fill, tickPrice: int, u: Purchase): Book
    requires 0 <= tickPrice < |f.book|
  {
    f.book[tickPrice := f.book[tickPrice] + Repeat(u, f.left)]
  }

  /** testLimitOrder, step 1: a buy of 3 limited at tick 1 meets nothing and rests. */
  lemma LimitStep1(b: Book, a: Purchase)
    requires b == Empty()
    ensures Scan(b, 3, true, 1) == Fill(3, 0, b, [])
    ensures Booked(Scan(b, 3, true, 1), 1, a) == Empty()[1 := [a, a, a]]
  {
    assert Sweep(b, 1, 1, 1, 3) == Sweep(b, 2, 1, 1, 3);
    assert Repeat(a, 3) == [a, a, a];
    assert b[1] + [a, a, a] == [a, a, a];
  }

  /** testLimitOrder, step 2: a sell of 1 limited at tick 2 meets nothing and rests. */
  lemma LimitStep2(b: Book, a: Purchase, s: Purchase)
    requires b == Empty()[1 := [a, a, a]]
    ensures Scan(b, 1, false, 2) == Fill(1, 0, b, [])
    ensures Booked(Scan(b, 1, false, 2), 2, s) == b[2 := [s]]
  {
    assert Sweep(b, 3, 2, -1, 1) == Sweep(b, 2, 2, -1, 1);
    assert Repeat(s, 1) == [s];
    assert b[2] + [s] == [s];
  }

  /** testLimitOrder, step 3: a sell of 1 limited at tick 1 passes its own side at tick 2 and
      takes the oldest buy unit at tick 1. */
  lemma LimitStep3(b: Book, a: Purchase, s: Purchase, u: Purchase)
    requires a.direction == 1 && s.direction == -1
    requires b == Empty()[1 := [a, a, a]][2 := [s]]
    ensures Scan(b, 1, false, 1) == Fill(0, 1, b[1 := [a, a]], [a])
    ensures Booked(Scan(b, 1, false, 1), 1, u) == b[1 := [a, a]]
  {
    assert [a, a, a][1..] == [a, a] && [a, a, a][..1] == [a];
    assert Sweep(b, 1, 1, -1, 1) == Fill(0, 1, b[1 := [a, a]], [a]);
    assert Sweep(b, 3, 1, -1, 1) == Sweep(b, 2, 1, -1, 1) == Sweep(b, 1, 1, -1, 1);
    assert [a, a] + Repeat(u, 0) == [a, a];
  }

  /** testLimitOrder, step 4: a buy of 4 limited at tick 3 passes its own side at tick 1, takes
      the single sell unit at tick 2 and rests 3 units. */
  lemma LimitStep4(b: Book, a: Purchase, s: Purchase, d: Purchase)
    requires a.direction == 1 && s.direction == -1
    requires b == Empty()[1 := [a, a]][2 := [s]]
    ensures Scan(b, 4, true, 3) == Fill(3, 2, b[2 := []], [s])
    ensures Booked(Scan(b, 4, true, 3), 3, d) == b[2 := []][3 := [d, d, d]]
  {
    var b' := b[2 := []];
    assert [s][1..] == [] && [s][..1] == [s];
    assert Sweep(b', 3, 3, 1, 3) == Fill(3, 0, b', []);
    assert [s] + [] == [s];
    assert Sweep(b, 2, 3, 1, 4) == Fill(3, 2, b', [s]);
    assert Sweep(b, 0, 3, 1, 4) == Sweep(b, 1, 3, 1, 4) == Sweep(b, 2, 3, 1, 4);
    assert Repeat(d, 3) == [d, d, d];
    assert b'[3] + [d, d, d] == [d, d, d];
  }

  /** testLimitOrder, step 5: a sell of 4 limited at tick 1 takes the 3 buy units at tick 3,
      then the oldest buy unit at tick 1, for 3 * 3 + 1 = 10. */
  lemma LimitStep5(b: Book, a: Purchase, d: Purchase, u: Purchase)
    requires a.direction == 1 && d.direction == 1
    requires b == Empty()[1 := [a, a]][2 := []][3 := [d, d, d]]
    ensures Scan(b, 4, false, 1) == Fill(0, 10, b[3 := []][1 := [a]], [d, d, d, a])
    ensures Booked(Scan(b, 4, false, 1), 1, u) == b[3 := []][1 := [a]]
  {
    var b' := b[3 := []];
    assert [d, d, d][3..] == [] && [d, d, d][..3] == [d, d, d];
    assert [a, a][1..] == [a] && [a, a][..1] == [a];
    assert Sweep(b', 1, 1, -1, 1) == Fill(0, 1, b'[1 := [a]], [a]);
    assert Sweep(b', 2, 1, -1, 1) == Sweep(b', 1, 1, -1, 1);
    assert [d, d, d] + [a] == [d, d, d, a];
    assert Sweep(b, 3, 1, -1, 4) == Fill(0, 10, b'[1 := [a]], [d, d, d, a]);
    assert Sweep(b, 4, 1, -1, 4) == Sweep(b, 3, 1, -1, 4);
    assert [a] + Repeat(u, 0) == [a];
  }

  /** One live limit order of a registered client, seen from a scenario: the book moves from
      before to after, which the scenario's step lemma has worked out from the scan. */
  method Send(exchange: Exchange, client: Client, size: nat, buying: bool, tickPrice: int, ghost before: Book,
              ghost after: Book)
    returns (info: OrderInformation, depths: seq<int>)
    requires exchange.Valid() && Registered(exchange, client) && 0 <= tickPrice < exchange.maxPrice
    requires exchange.orderBook == before
    requires Booked(Scan(before, size, buying, tickPrice), tickPrice,
                    Purchase(exchange.nextOrderId, client.clientId, if buying then 1 else -1)) == after
    modifies exchange, exchange.registeredClients.Values
    ensures exchange.Valid() && exchange.registeredClients == old(exchange.registeredClients)
    ensures exchange.orderBook == after
    ensures exchange.nextOrderId == old(exchange.nextOrderId) + 1
    ensures info.numFilled == size - Scan(before, size, buying, tickPrice).left
    ensures info.totalPrice == Scan(before, size, buying, tickPrice).total
    ensures |depths| == |after| && forall t | 0 <= t < |after| :: depths[t] == NetDirection(after[t])
  {
    info := SendLimitOrder(exchange, client, size, buying, tickPrice);
    var printed := exchange.PrintOrderBook();
    depths := printed[..];
  }

  /** testLimitOrder: one client trades against its own resting orders; after each order the
      reported fill and the signed depths are those Test.java expects. */
  method LimitOrderScenario()
  {
    var exchange := new Exchange(5);
    var client := NewClient(exchange, 1);
    var a, s, d := Purchase(0, 1, 1), Purchase(1, 1, -1), Purchase(3, 1, 1);
    var b := Empty();

    LimitStep1(b, a);
    var info, depths := Send(exchange, client, 3, true, 1, b, b[1 := [a, a, a]]);
    assert info.totalPrice == 0 && info.numFilled == 0;
    b := b[1 := [a, a, a]];
    NetOfUniform([a, a, a], 1);
    assert depths[1] == 3;

    LimitStep2(b, a, s);
    info, depths := Send(exchange, client, 1, false, 2, b, b[2 := [s]]);
    assert info.totalPrice == 0 && info.numFilled == 0;
    b := b[2 := [s]];
    NetOfUniform([s], -1);
    assert depths[1] == 3 && depths[2] == -1;

    LimitOrderScenarioLater(exchange, client);
  }

  /** testLimitOrder from its third order on, with the ladder the first two orders left. */
  method LimitOrderScenarioLater(exchange: Exchange, client: Client)
    requires exchange.Valid() && Registered(exchange, client) && exchange.maxPrice == 5
    requires client.clientId == 1 && exchange.nextOrderId == 2
    requires exchange.orderBook == Empty()[1 := [Purchase(0, 1, 1), Purchase(0, 1, 1), Purchase(0, 1, 1)]]
                                          [2 := [Purchase(1, 1, -1)]]
    modifies exchange, exchange.registeredClients.Values
  {
    var a, s, d := Purchase(0, 1, 1), Purchase(1, 1, -1), Purchase(3, 1, 1);
    var b := exchange.orderBook;
    LimitStep3(b, a, s, Purchase(2, 1, -1));
    var info, depths := Send(exchange, client, 1, false, 1, b, b[1 := [a, a]]);
    assert info.totalPrice == 1 && info.numFilled == 1;
    b := b[1 := [a, a]];
    NetOfUniform([a, a], 1);
    assert depths[1] == 2 && depths[2] == -1;

    LimitStep4(b, a, s, d);
    info, depths := Send(exchange, client, 4, true, 3, b, b[2 := []][3 := [d, d, d]]);
    assert info.totalPrice == 2 && info.numFilled == 1;
    b := b[2 := []][3 := [d, d, d]];
    NetOfUniform([d, d, d], 1);
    assert depths[1] == 2 && depths[2] == 0 && depths[3] == 3;

    LimitStep5(b, a, d, Purchase(4, 1, -1));
    info, depths := Send(exchange, client, 4, false, 1, b, b[3 := []][1 := [a]]);
    assert info.totalPrice == 10 && info.numFilled == 4;
    NetOfUniform([a], 1);
    assert depths[1] == 1 && depths[2] == 0 && depths[3] == 0;
  }

  /** testOrderPositions, first two orders: a buy of 1 at tick 1 on an empty ladder rests, and
      so does a second one behind it (the first is on the same side, so it is passed over). */
  lemma PositionsSteps12(b: Book, u0: Purchase, u1: Purchase)
    requires b == Empty() && u0.direction == 1
    ensures Scan(b, 1, true, 1) == Fill(1, 0, b, [])
    ensures Booked(Scan(b, 1, true, 1), 1, u0) == b[1 := [u0]]
    ensures Scan(b[1 := [u0]], 1, true, 1) == Fill(1, 0, b[1 := [u0]], [])
    ensures Booked(Scan(b[1 := [u0]], 1, true, 1), 1, u1) == b[1 := [u0, u1]]
  {
    assert Sweep(b, 1, 1, 1, 1) == Sweep(b, 2, 1, 1, 1);
    assert Repeat(u0, 1) == [u0] && b[1] + [u0] == [u0];
    var b' := b[1 := [u0]];
    assert Sweep(b', 1, 1, 1, 1) == Sweep(b', 2, 1, 1, 1);
    assert Repeat(u1, 1) == [u1] && b'[1] + [u1] == [u0, u1];
  }

  /** testOrderPositions, third order: a sell of 1 at tick 1 takes the older buy unit, which
      brings that order's entry to zero. */
  lemma PositionsStep3(b: Book, u0: Purchase, u1: Purchase, u2: Purchase)
    requires b == Empty()[1 := [u0, u1]] && u0 == Purchase(0, 1, 1)
    ensures Scan(b, 1, false, 1) == Fill(0, 1, b[1 := [u1]], [u0])
    ensures Released(map[0 := 1][1 := 1], [u0]) == map[0 := 0][1 := 1]
  {
    assert [u0, u1][1..] == [u1] && [u0, u1][..1] == [u0];
    assert Sweep(b, 1, 1, -1, 1) == Fill(0, 1, b[1 := [u1]], [u0]);
    assert Sweep(b, 4, 1, -1, 1) == Sweep(b, 3, 1, -1, 1) == Sweep(b, 2, 1, -1, 1) == Sweep(b, 1, 1, -1, 1);
    assert [u0][..0] == [];
  }

  /** The position maps testOrderPositions ends with: the first client's only unit was filled,
      the second client's rests, the third client's order filled at once. */
  lemma PositionsViews(reg: map<OrderId, int>, owners: map<OrderId, ClientId>)
    requires reg == map[0 := 0][1 := 1][2 := 0] && owners == map[0 := 1][1 := 2][2 := 3]
    ensures View(reg, owners, 1) == map[] && View(reg, owners, 2) == map[1 := 1] && View(reg, owners, 3) == map[]
  {
    SamePositions(View(reg, owners, 1), map[]);
    SamePositions(View(reg, owners, 2), map[1 := 1]);
    SamePositions(View(reg, owners, 3), map[]);
  }

  /** testOrderPositions: two clients rest a buy unit each at tick 1 and a third sells one unit
      into them; only the second client still holds a position. */
  method OrderPositionsScenario()
  {
    var exchange := new Exchange(5);
    var c1 := NewClient(exchange, 1);
    var c2 := NewClient(exchange, 2);
    var c3 := NewClient(exchange, 3);
    var u0, u1 := Purchase(0, 1, 1), Purchase(1, 2, 1);
    var b := exchange.orderBook;
    PositionsSteps12(b, u0, u1);
    var _ := Place(exchange, c1, 1, true, 1, b, b[1 := [u0]]);
    var _ := Place(exchange, c2, 1, true, 1, b[1 := [u0]], b[1 := [u0, u1]]);
    OrderPositionsLater(exchange, c1, c2, c3);
  }

  /** testOrderPositions from the third order on, with the two buy units resting at tick 1. */
  method OrderPositionsLater(exchange: Exchange, c1: Client, c2: Client, c3: Client)
    requires exchange.Valid() && exchange.maxPrice == 5 && exchange.nextOrderId == 2
    requires Registered(exchange, c1) && Registered(exchange, c2) && Registered(exchange, c3)
    requires c1.clientId == 1 && c2.clientId == 2 && c3.clientId == 3
    requires exchange.orderBook == Empty()[1 := [Purchase(0, 1, 1), Purchase(1, 2, 1)]]
    requires exchange.orderPositions == map[0 := 1][1 := 1] && exchange.orderOwners == map[0 := 1][1 := 2]
    modifies exchange, exchange.registeredClients.Values
  {
    PositionsStep3(exchange.orderBook, Purchase(0, 1, 1), Purchase(1, 2, 1), Purchase(2, 3, -1));
    var info := SendLimitOrder(exchange, c3, 1, false, 1);
    assert exchange.orderPositions == map[0 := 0][1 := 1][2 := 0];
    PositionsViews(exchange.orderPositions, exchange.orderOwners);
    PositionsMirror(exchange, c1);
    PositionsMirror(exchange, c2);
    PositionsMirror(exchange, c3);
    assert |c1.orderPositions| == 0 && |c2.orderPositions| == 1 && |c3.orderPositions| == 0;
  }

  /** testCancelOrder, the four orders: a buy of 4 at tick 1, a buy of 4 at tick 2 by the other
      client, a buy of 4 at tick 2 behind it and a sell of 4 at tick 3 all rest without crossing. */
  lemma CancelSetup(b: Book, p0: Purchase, p1: Purchase, p2: Purchase, p3: Purchase)
    requires b == Empty() && p0.direction == 1 && p1.direction == 1 && p2.direction == 1 && p3.direction == -1
    ensures Scan(b, 4, true, 1) == Fill(4, 0, b, [])
    ensures Booked(Scan(b, 4, true, 1), 1, p0) == b[1 := Repeat(p0, 4)]
    ensures var b1 := b[1 := Repeat(p0, 4)];
            && Scan(b1, 4, true, 2) == Fill(4, 0, b1, [])
            && Booked(Scan(b1, 4, true, 2), 2, p1) == b1[2 := Repeat(p1, 4)]
    ensures var b2 := b[1 := Repeat(p0, 4)][2 := Repeat(p1, 4)];
            && Scan(b2, 4, true, 2) == Fill(4, 0, b2, [])
            && Booked(Scan(b2, 4, true, 2), 2, p2) == b2[2 := Repeat(p1, 4) + Repeat(p2, 4)]
    ensures var b3 := b[1 := Repeat(p0, 4)][2 := Repeat(p1, 4) + Repeat(p2, 4)];
            && Scan(b3, 4, false, 3) == Fill(4, 0, b3, [])
            && Booked(Scan(b3, 4, false, 3), 3, p3) == b3[3 := Repeat(p3, 4)]
  {
    assert Sweep(b, 1, 1, 1, 4) == Sweep(b, 2, 1, 1, 4);
    assert b[1] + Repeat(p0, 4) == Repeat(p0, 4);
    var b1 := b[1 := Repeat(p0, 4)];
    assert Sweep(b1, 2, 2, 1, 4) == Sweep(b1, 3, 2, 1, 4);
    assert Sweep(b1, 0, 2, 1, 4) == Sweep(b1, 1, 2, 1, 4) == Sweep(b1, 2, 2, 1, 4);
    assert b1[2] + Repeat(p1, 4) == Repeat(p1, 4);
    var b2 := b1[2 := Repeat(p1, 4)];
    assert Sweep(b2, 2, 2, 1, 4) == Sweep(b2, 3, 2, 1, 4);
    assert Sweep(b2, 0, 2, 1, 4) == Sweep(b2, 1, 2, 1, 4) == Sweep(b2, 2, 2, 1, 4);
    var b3 := b1[2 := Repeat(p1, 4) + Repeat(p2, 4)];
    assert Sweep(b3, 3, 3, -1, 4) == Sweep(b3, 2, 3, -1, 4);
    assert Sweep(b3, 4, 3, -1, 4) == Sweep(b3, 3, 3, -1, 4);
    assert b3[3] + Repeat(p3, 4) == Repeat(p3, 4);
  }

  /** The cancel loop passes over a run of units that do not match. */
  lemma {:induction false} UnmatchedRun(u: Purchase, n: nat, o: OrderId, c: ClientId)
    requires !Matches(u, o, c)
    ensures Unmatched(Repeat(u, n), o, c) == Repeat(u, n) && MatchCount(Repeat(u, n), o, c) == 0
  {
    if n > 0 {
      assert Repeat(u, n)[1..] == Repeat(u, n - 1);
      UnmatchedRun(u, n - 1, o, c);
      assert [u] + Repeat(u, n - 1) == Repeat(u, n);
    }
  }

  /** Cancelling k units from a run of n matching units leaves n - k of them. */
  lemma {:induction false} DropRun(u: Purchase, n: nat, k: nat, o: OrderId, c: ClientId)
    requires Matches(u, o, c) && k <= n
    ensures DropMatching(Repeat(u, n), o, c, k) == Repeat(u, n - k)
  {
    if k > 0 {
      assert Repeat(u, n)[1..] == Repeat(u, n - 1);
      DropRun(u, n - 1, k - 1, o, c);
    }
  }

  /** testCancelOrder, the three cancels: 2 of the 4 units at tick 1 go; all 4 units of the
      client's own order at tick 2 go while the other client's 4 units before them stay; a
      cancel of 0 units leaves tick 3 alone. */
  lemma CancelDrops(p0: Purchase, p1: Purchase, p2: Purchase, p3: Purchase)
    requires p0 == Purchase(0, 1, 1) && p1 == Purchase(1, 2, 1) && p2 == Purchase(2, 1, 1)
    ensures DropMatching(Repeat(p0, 4), 0, 1, 2) == Repeat(p0, 2)
    ensures DropMatching(Repeat(p1, 4) + Repeat(p2, 4), 2, 1, 4) == Repeat(p1, 4)
    ensures DropMatching(Repeat(p3, 4), 3, 1, 0) == Repeat(p3, 4)
  {
    DropRun(p0, 4, 2, 0, 1);
    var q := Repeat(p1, 4) + Repeat(p2, 4);
    assert q[..4] == Repeat(p1, 4) && q[4..] == Repeat(p2, 4);
    UnmatchedRun(p1, 4, 2, 1);
    DropPrefix(q, 2, 1, 4, 4);
    DropRun(p2, 4, 4, 2, 1);
    assert Repeat(p2, 0) == [];
    assert Repeat(p1, 4) + [] == Repeat(p1, 4);
  }

  /** A live limit order that crosses nothing, seen from a scenario: all size units rest at the
      back of the limit tick under a fresh id, as the scenario's step lemma has worked out. */
  method Place(exchange: Exchange, client: Client, size: nat, buying: bool, tickPrice: int, ghost before: Book,
               ghost after: Book)
    returns (orderId: OrderId)
    requires exchange.Valid() && Registered(exchange, client) && 0 <= tickPrice < exchange.maxPrice
    requires exchange.orderBook == before && Scan(before, size, buying, tickPrice).left == size
    requires Booked(Scan(before, size, buying, tickPrice), tickPrice,
                    Purchase(exchange.nextOrderId, client.clientId, if buying then 1 else -1)) == after
    modifies exchange, exchange.registeredClients.Values
    ensures exchange.Valid() && exchange.registeredClients == old(exchange.registeredClients)
    ensures exchange.orderBook == after && orderId == old(exchange.nextOrderId)
    ensures exchange.nextOrderId == old(exchange.nextOrderId) + 1
    ensures exchange.orderPositions == old(exchange.orderPositions)[orderId := (if buying then 1 else -1) * size]
    ensures exchange.orderPrices == old(exchange.orderPrices)[orderId := tickPrice]
    ensures exchange.orderOwners == old(exchange.orderOwners)[orderId := client.clientId]
  {
    var info := SendLimitOrder(exchange, client, size, buying, tickPrice);
    orderId := info.orderId;
  }

  /** A cancel of a client's own order, seen from a scenario: the order's tick becomes the queue
      the scenario's lemma has worked out. */
  method Withdraw(exchange: Exchange, client: Client, orderId: OrderId, size: nat, ghost tick: int, ghost after: Queue)
    requires exchange.Valid() && Registered(exchange, client)
    requires orderId in exchange.orderPrices && exchange.orderPrices[orderId] == tick
    requires exchange.orderOwners[orderId] == client.clientId && size <= Abs(exchange.orderPositions[orderId])
    requires 0 <= tick < |exchange.orderBook|
    requires DropMatching(exchange.orderBook[tick], orderId, client.clientId, size) == after
    modifies exchange, exchange.registeredClients.Values
    ensures exchange.Valid() && exchange.registeredClients == old(exchange.registeredClients)
    ensures exchange.orderBook == old(exchange.orderBook)[tick := after]
    ensures exchange.orderPositions == old(exchange.orderPositions)[orderId := old(exchange.orderPositions[orderId])
                                                 - Sign(old(exchange.orderPositions[orderId])) * size]
    ensures exchange.orderPrices == old(exchange.orderPrices) && exchange.orderOwners == old(exchange.orderOwners)
  {
    var ok := CancelOrder(exchange, client, orderId, size);
  }

  /** testCancelOrder: after the four orders and the three cancels, the signed depths at
      ticks 1, 2 and 3 are 2, 4 and -4. */
  method CancelOrderScenario()
  {
    var exchange := new Exchange(5);
    var client := NewClient(exchange, 1);
    var other := NewClient(exchange, 2);
    var p0, p1, p2, p3 := Purchase(0, 1, 1), Purchase(1, 2, 1), Purchase(2, 1, 1), Purchase(3, 1, -1);
    var b := exchange.orderBook;
    CancelSetup(b, p0, p1, p2, p3);
    var first := Place(exchange, client, 4, true, 1, b, b[1 := Repeat(p0, 4)]);
    b := b[1 := Repeat(p0, 4)];
    var _ := Place(exchange, other, 4, true, 2, b, b[2 := Repeat(p1, 4)]);
    var second := Place(exchange, client, 4, true, 2, b[2 := Repeat(p1, 4)], b[2 := Repeat(p1, 4) + Repeat(p2, 4)]);
    b := b[2 := Repeat(p1, 4) + Repeat(p2, 4)];
    var third := Place(exchange, client, 4, false, 3, b, b[3 := Repeat(p3, 4)]);
    CancelOrdersLater(exchange, client, first, second, third);
  }

  /** testCancelOrder from the cancels on, with the ladder and registry the four orders left. */
  method CancelOrdersLater(exchange: Exchange, client: Client, first: OrderId, second: OrderId, third: OrderId)
    requires exchange.Valid() && Registered(exchange, client) && exchange.maxPrice == 5 && client.clientId == 1
    requires first == 0 && second == 2 && third == 3
    requires exchange.orderBook == Empty()[1 := Repeat(Purchase(0, 1, 1), 4)]
                                          [2 := Repeat(Purchase(1, 2, 1), 4) + Repeat(Purchase(2, 1, 1), 4)]
                                          [3 := Repeat(Purchase(3, 1, -1), 4)]
    requires exchange.orderPositions == map[0 := 4][1 := 4][2 := 4][3 := -4]
    requires exchange.orderPrices == map[0 := 1][1 := 2][2 := 2][3 := 3]
    requires exchange.orderOwners == map[0 := 1][1 := 2][2 := 1][3 := 1]
    modifies exchange, exchange.registeredClients.Values
  {
    var p0, p1, p2, p3 := Purchase(0, 1, 1), Purchase(1, 2, 1), Purchase(2, 1, 1), Purchase(3, 1, -1);
    CancelDrops(p0, p1, p2, p3);
    Withdraw(exchange, client, first, 2, 1, Repeat(p0, 2));
    Withdraw(exchange, client, second, 4, 2, Repeat(p1, 4));
    CancelOrdersLast(exchange, client, third);
  }

  /** testCancelOrder's last cancel, of 0 units, and the depths it checks. */
  method CancelOrdersLast(exchange: Exchange, client: Client, third: OrderId)
    requires exchange.Valid() && Registered(exchange, client) && exchange.maxPrice == 5 && client.clientId == 1
    requires third == 3 && third in exchange.orderPrices && exchange.orderPrices[third] == 3
    requires exchange.orderOwners[third] == 1 && exchange.orderPositions[third] == -4
    requires exchange.orderBook[1] == Repeat(Purchase(0, 1, 1), 2) && exchange.orderBook[2] == Repeat(Purchase(1, 2, 1), 4)
    requires exchange.orderBook[3] == Repeat(Purchase(3, 1, -1), 4)
    modifies exchange, exchange.registeredClients.Values
  {
    var p0, p1, p3 := Purchase(0, 1, 1), Purchase(1, 2, 1), Purchase(3, 1, -1);
    Withdraw(exchange, client, third, 0, 3, Repeat(p3, 4));
    var signed := exchange.PrintOrderBook();
    NetOfUniform(Repeat(p0, 2), 1);
    NetOfUniform(Repeat(p1, 4), 1);
    NetOfUniform(Repeat(p3, 4), -1);
    assert signed[1] == 2 && signed[2] == 4 && signed[3] == -4;
  }
}
