/** The matching engine of Exchange.java: the tick ladder, the order registry
    (orderPositions, orderPrices), the registered clients, and the operations that cross,
    rest and cancel orders while keeping every client's position map in step. */
module Exchanges {
  import opened Orders
  import opened Ladder
  import opened Matching
  import opened Clients

  /** The position map client c must hold by the exchange's registry: the non-zero entries
      of the orders it owns. */
  function View(reg: map<OrderId, int>, owners: map<OrderId, ClientId>, c: ClientId): (v: Positions)
    ensures NoZero(v)
    ensures forall o :: Get(v, o) == if o in reg && o in owners && owners[o] == c then reg[o] else 0
  {
    map o | o in reg && o in owners && owners[o] == c && reg[o] != 0 :: reg[o]
  }

  /** Registering a fresh order with a zero entry changes no client's view. */
  lemma ViewRegister(reg: map<OrderId, int>, owners: map<OrderId, ClientId>, o: OrderId, owner: ClientId, c: ClientId)
    requires o !in reg
    ensures View(reg[o := 0], owners[o := owner], c) == View(reg, owners, c)
  {
    SamePositions(View(reg[o := 0], owners[o := owner], c), View(reg, owners, c));
  }

  /** Moving an order's entry back by one unit is a completeTrade on its owner's view and
      changes no other client's view. */
  lemma ViewComplete(reg: map<OrderId, int>, owners: map<OrderId, ClientId>, u: Purchase, c: ClientId)
    requires u.orderId in reg && u.orderId in owners && reg[u.orderId] != 0
    ensures u.orderId in View(reg, owners, owners[u.orderId])
    ensures View(reg[u.orderId := reg[u.orderId] - u.direction], owners, c)
         == if owners[u.orderId] == c then AfterComplete(View(reg, owners, c), u) else View(reg, owners, c)
  {
    var v := View(reg, owners, owners[u.orderId]);
    assert Get(v, u.orderId) != 0;
    var after := View(reg[u.orderId := reg[u.orderId] - u.direction], owners, c);
    if owners[u.orderId] == c {
      SamePositions(after, AfterComplete(View(reg, owners, c), u));
    } else {
      SamePositions(after, View(reg, owners, c));
    }
  }

  /** Moving an order's entry forward by one unit is a startTrade on its owner's view and
      changes no other client's view. */
  lemma ViewStart(reg: map<OrderId, int>, owners: map<OrderId, ClientId>, u: Purchase, c: ClientId)
    requires u.orderId in reg && u.orderId in owners
    ensures View(reg[u.orderId := reg[u.orderId] + u.direction], owners, c)
         == if owners[u.orderId] == c then AfterStart(View(reg, owners, c), u) else View(reg, owners, c)
  {
    var after := View(reg[u.orderId := reg[u.orderId] + u.direction], owners, c);
    if owners[u.orderId] == c {
      SamePositions(after, AfterStart(View(reg, owners, c), u));
    } else {
      SamePositions(after, View(reg, owners, c));
    }
  }

  /** Client c's map is its view of the registry. */
  ghost predicate Mirrored(views: map<ClientId, Positions>, reg: map<OrderId, int>, owners: map<OrderId, ClientId>, c: ClientId)
    requires c in views
  {
    views[c] == View(reg, owners, c)
  }

  /** The bookkeeping of an exchange as values: the ladder b, the registry reg with the tick
      and owner of every order, the next fresh order id, and each registered client's
      position map. Every order id is below next and owned by a registered client, the
      ladder agrees with the registry, and every client's map is its view of the registry. */
  ghost predicate Coherent(b: Book, reg: map<OrderId, int>, prices: map<OrderId, int>, owners: map<OrderId, ClientId>,
                           next: OrderId, views: map<ClientId, Positions>)
  {
    && reg.Keys == prices.Keys && owners.Keys == prices.Keys
    && (forall o | o in prices :: o < next && owners[o] in views)
    && LadderOk(b, reg, prices, owners)
    && (forall c {:trigger Mirrored(views, reg, owners, c)} | c in views :: Mirrored(views, reg, owners, c))
  }

  /** A unit leaving the ladder (a fill or a cancel) keeps the bookkeeping coherent once its
      order's entry moves back by its direction and its owner's map sees a completeTrade. */
  lemma RemoveUnit(b: Book, reg: map<OrderId, int>, prices: map<OrderId, int>, owners: map<OrderId, ClientId>,
                   next: OrderId, views: map<ClientId, Positions>, t: int, idx: int)
    requires Coherent(b, reg, prices, owners, next, views)
    requires 0 <= t < |b| && 0 <= idx < |b[t]|
    ensures b[t][idx].orderId in reg && reg[b[t][idx].orderId] * b[t][idx].direction >= 1
    ensures b[t][idx].clientId in views && b[t][idx].orderId in views[b[t][idx].clientId]
    ensures Coherent(b[t := RemoveAt(b[t], idx)],
                     reg[b[t][idx].orderId := reg[b[t][idx].orderId] - b[t][idx].direction], prices, owners, next,
                     views[b[t][idx].clientId := AfterComplete(views[b[t][idx].clientId], b[t][idx])])
  {
    var u := b[t][idx];
    assert PlacedAt(b, prices, owners, t, idx);
    RemoveKeeps(b, reg, prices, owners, t, idx);
    var reg' := reg[u.orderId := reg[u.orderId] - u.direction];
    assert Mirrored(views, reg, owners, u.clientId);
    ViewComplete(reg, owners, u, u.clientId);
    var views' := views[u.clientId := AfterComplete(views[u.clientId], u)];
    forall c | c in views'
      ensures Mirrored(views', reg', owners, c)
    {
      assert Mirrored(views, reg, owners, c);
      ViewComplete(reg, owners, u, c);
    }
  }

  /** A unit of a registered order joining the back of its tick (which is empty or on the
      unit's side) keeps the bookkeeping coherent once the entry moves forward by its direction
      and its owner's map sees a startTrade. */
  lemma AddUnit(b: Book, reg: map<OrderId, int>, prices: map<OrderId, int>, owners: map<OrderId, ClientId>,
                next: OrderId, views: map<ClientId, Positions>, t: int, u: Purchase)
    requires Coherent(b, reg, prices, owners, next, views)
    requires 0 <= t < |b| && u.orderId in prices && prices[u.orderId] == t && owners[u.orderId] == u.clientId
    requires b[t] == [] || b[t][0].direction == u.direction
    ensures u.clientId in views
    ensures Coherent(b[t := b[t] + [u]], reg[u.orderId := reg[u.orderId] + u.direction], prices, owners, next,
                     views[u.clientId := AfterStart(views[u.clientId], u)])
  {
    AppendKeeps(b, reg, prices, owners, t, u);
    var reg' := reg[u.orderId := reg[u.orderId] + u.direction];
    var views' := views[u.clientId := AfterStart(views[u.clientId], u)];
    forall c | c in views'
      ensures Mirrored(views', reg', owners, c)
    {
      assert Mirrored(views, reg, owners, c);
      ViewStart(reg, owners, u, c);
    }
  }

  /** A fresh order id below next, registered at a tick for a registered client with a zero
      entry, keeps the bookkeeping coherent. */
  lemma RegisterOrder(b: Book, reg: map<OrderId, int>, prices: map<OrderId, int>, owners: map<OrderId, ClientId>,
                      next: OrderId, views: map<ClientId, Positions>, o: OrderId, t: int, c: ClientId)
    requires Coherent(b, reg, prices, owners, next, views)
    requires o !in prices && o < next && 0 <= t < |b| && c in views
    ensures Coherent(b, reg[o := 0], prices[o := t], owners[o := c], next, views)
  {
    RegisterKeeps(b, reg, prices, owners, o, t, c);
    forall c' | c' in views
      ensures Mirrored(views, reg[o := 0], owners[o := c], c')
    {
      assert Mirrored(views, reg, owners, c');
      ViewRegister(reg, owners, o, c, c');
    }
  }

  /** A new client with an empty map keeps the bookkeeping coherent. */
  lemma AddClient(b: Book, reg: map<OrderId, int>, prices: map<OrderId, int>, owners: map<OrderId, ClientId>,
                  next: OrderId, views: map<ClientId, Positions>, c: ClientId)
    requires Coherent(b, reg, prices, owners, next, views) && c !in views
    ensures Coherent(b, reg, prices, owners, next, views[c := map[]])
  {
    var views' := views[c := map[]];
    forall c' | c' in views'
      ensures Mirrored(views', reg, owners, c')
    {
      if c' == c {
        assert forall o | o in owners :: owners[o] != c;
        SamePositions(View(reg, owners, c), map[]);
      } else {
        assert Mirrored(views, reg, owners, c');
      }
    }
  }

  /** The units of an order at its tick are the ones its owner's cancel can take, and there
      are as many of them as the absolute value of its registry entry. */
  lemma CancelSupply(b: Book, reg: map<OrderId, int>, prices: map<OrderId, int>, owners: map<OrderId, ClientId>,
                     next: OrderId, views: map<ClientId, Positions>, o: OrderId)
    requires Coherent(b, reg, prices, owners, next, views) && o in reg
    ensures 0 <= prices[o] < |b| && MatchCount(b[prices[o]], o, owners[o]) == Abs(reg[o])
  {
    assert EntryAgrees(b, reg, prices, o);
    var t := prices[o];
    var q := b[t];
    forall i | 0 <= i < |q| && q[i].orderId == o
      ensures q[i].clientId == owners[o]
    {
      assert PlacedAt(b, prices, owners, t, i);
    }
    MatchCountOwned(q, o, owners[o]);
    if q != [] {
      assert OneSided(b[t]);
      OrderNetUniform(q, q[0].direction, o);
    }
  }

  /** A cancel by the owner of size units, no more than the order's remaining size, shortens the
      order's tick by exactly size units and keeps every unit of other orders there, in order. */
  lemma CancelTakesSize(b: Book, reg: map<OrderId, int>, prices: map<OrderId, int>, owners: map<OrderId, ClientId>,
                        next: OrderId, views: map<ClientId, Positions>, o: OrderId, size: nat)
    requires Coherent(b, reg, prices, owners, next, views) && o in reg && size <= Abs(reg[o])
    ensures 0 <= prices[o] < |b|
    ensures var q := b[prices[o]];
            var r := DropMatching(q, o, owners[o], size);
            && |r| == |q| - size
            && Unmatched(r, o, owners[o]) == Unmatched(q, o, owners[o])
            && MatchCount(r, o, owners[o]) == Abs(reg[o]) - size
  {
    CancelSupply(b, reg, prices, owners, next, views, o);
    DropMatchingSpec(b[prices[o]], o, owners[o], size);
  }

  /** An order's entry once n of its units are withdrawn: n units closer to zero. */
  function Withdrawn(entry: int, n: int): int
  {
    if entry > 0 then entry - n else if entry < 0 then entry + n else entry
  }

  /** Withdrawing units one at a time: the next unit withdrawn is on the entry's side. */
  lemma WithdrawStep(entry: int, n: nat)
    requires n < Abs(entry)
    ensures Withdrawn(entry, n) != 0 && Sign(Withdrawn(entry, n)) == Sign(entry)
    ensures Withdrawn(entry, n + 1) == Withdrawn(entry, n) - Sign(Withdrawn(entry, n))
  {
  }

  /** The registry after unit u leaves the ladder: its order's entry moves back by its direction. */
  function Release(reg: map<OrderId, int>, u: Purchase): map<OrderId, int>
  {
    reg[u.orderId := Get(reg, u.orderId) - u.direction]
  }

  /** The registry after the units leave the ladder one by one, oldest first. */
  function Released(reg: map<OrderId, int>, units: seq<Purchase>): map<OrderId, int>
  {
    if units == [] then reg else Release(Released(reg, units[..|units| - 1]), units[|units| - 1])
  }

  /** Releasing one more unit is one more Release step. */
  lemma ReleasedStep(reg: map<OrderId, int>, q: Queue, i: int)
    requires 0 <= i < |q|
    ensures Released(reg, q[..i + 1]) == Release(Released(reg, q[..i]), q[i])
  {
    assert q[..i + 1][..i] == q[..i];
  }

  /** Released moves every order's entry back by the signed number of its units among those
      that left, and touches no other entry. */
  lemma {:induction false} ReleasedNet(reg: map<OrderId, int>, units: seq<Purchase>, o: OrderId)
    ensures Get(Released(reg, units), o) == Get(reg, o) - OrderNet(units, o)
    ensures o in Released(reg, units) <==> o in reg || OrderCount(units, o) > 0
    decreases |units|
  {
    if units != [] {
      var init, last := units[..|units| - 1], units[|units| - 1];
      ReleasedNet(reg, init, o);
      assert units == init + [last];
      OrderNetConcat(init, [last], o);
      OrderCountConcat(init, [last], o);
      assert [last][1..] == [];
    }
  }

  /** Releasing units in two batches is releasing them all in one. */
  lemma {:induction false} ReleasedConcat(reg: map<OrderId, int>, a: seq<Purchase>, b: seq<Purchase>)
    ensures Released(Released(reg, a), b) == Released(reg, a + b)
    decreases |b|
  {
    if b == [] {
      assert a + b == a;
    } else {
      var init := b[..|b| - 1];
      ReleasedConcat(reg, a, init);
      assert (a + b)[..|a + b| - 1] == a + init;
      assert (a + b)[|a + b| - 1] == b[|b| - 1];
    }
  }

  /** The scan limitOrder makes for an order of size units with the given side and limit:
      buyers from the lowest tick up, sellers from the highest tick down. */
  function Scan(b: Book, size: nat, buying: bool, tickPrice: int): (f: Fill)
    requires 0 <= tickPrice < |b|
    ensures |f.book| == |b| && f.left <= size
  {
    Sweep(b, if buying then 0 else |b| - 1, tickPrice, if buying then 1 else -1, size)
  }

  /** The average fill price of a limit order respects its limit: a buy fills on average at or
      below its limit tick, a sell at or above it, and both within the ladder. */
  lemma ScanWithinLimit(b: Book, size: nat, buying: bool, tickPrice: int)
    requires 0 <= tickPrice < |b|
    ensures var f := Scan(b, size, buying, tickPrice);
            var info := OrderInformation(0, size - f.left, f.total, if buying then 1 else -1);
            && (info.numFilled == 0 <==> info.AveragePrice().None?)
            && (info.numFilled > 0 && buying ==> 0 <= info.AveragePrice().value <= tickPrice)
            && (info.numFilled > 0 && !buying ==> tickPrice <= info.AveragePrice().value <= |b| - 1)
  {
    var dir: Direction := if buying then 1 else -1;
    var start := if buying then 0 else |b| - 1;
    var f := Scan(b, size, buying, tickPrice);
    var info := OrderInformation(0, size - f.left, f.total, dir);
    if info.numFilled > 0 {
      if buying {
        SweepBuyBounds(b, start, tickPrice, size);
        AveragePriceWithin(info, 0, tickPrice);
      } else {
        SweepSellBounds(b, start, tickPrice, size);
        AveragePriceWithin(info, tickPrice, |b| - 1);
      }
    }
  }

  class Exchange {
    /** Number of ticks; prices run over [0, maxPrice). */
    const maxPrice: nat
    /** One FIFO queue of resting units per tick. */
    var orderBook: Book
    var registeredClients: map<ClientId, Client>
    /** Signed remaining size of every order ever rested. */
    var orderPositions: map<OrderId, int>
    /** Tick every order rests at. */
    var orderPrices: map<OrderId, int>
    /** Client that placed every order (the source keeps this only inside the units). */
    var orderOwners: map<OrderId, ClientId>
    /** Source of fresh order ids. */
    var nextOrderId: OrderId

    /** The position map of every client in clients. */
    static ghost function Views(clients: map<ClientId, Client>): map<ClientId, Positions>
      reads clients.Values
    {
      map c | c in clients :: clients[c].orderPositions
    }

    /** The engine's invariant with the registry reg in place of orderPositions. */
    ghost predicate Consistent(reg: map<OrderId, int>)
      reads this, registeredClients.Values
    {
      && |orderBook| == maxPrice
      && (forall c | c in registeredClients :: registeredClients[c].clientId == c)
      && Coherent(orderBook, reg, orderPrices, orderOwners, nextOrderId, Views(registeredClients))
    }

    ghost predicate Valid()
      reads this, registeredClients.Values
    {
      Consistent(orderPositions)
    }

    /** initExchange: maxTicks empty ticks, no orders, no clients. */
    constructor (maxTicks: nat)
      ensures Valid()
      ensures maxPrice == maxTicks && orderBook == seq(maxTicks, _ => [])
      ensures registeredClients == map[] && orderPositions == map[] && orderPrices == map[]
      ensures orderOwners == map[] && nextOrderId == 0
    {
      var book: Book := [];
      for i := 0 to maxTicks
        invariant book == seq(i, _ => [])
      {
        book := book + [[]];
      }
      maxPrice := maxTicks;
      orderBook := book;
      orderPositions := map[];
      orderPrices := map[];
      orderOwners := map[];
      registeredClients := map[];
      nextOrderId := 0;
    }

    /** registerClient: a client id is registered once; a second registration under the same id
        is ignored. A newly registered client holds no positions. */
    method RegisterClient(clientId: ClientId, client: Client)
      requires Valid() && client.clientId == clientId
      requires clientId !in registeredClients ==> client.orderPositions == map[]
      modifies this
      ensures Valid()
      ensures registeredClients == if clientId in old(registeredClients) then old(registeredClients)
                                   else old(registeredClients)[clientId := client]
      ensures orderBook == old(orderBook) && orderPositions == old(orderPositions) && orderPrices == old(orderPrices)
      ensures orderOwners == old(orderOwners) && nextOrderId == old(nextOrderId)
    {
      if clientId !in registeredClients {
        ghost var views := Views(registeredClients);
        AddClient(orderBook, orderPositions, orderPrices, orderOwners, nextOrderId, views, clientId);
        registeredClients := registeredClients[clientId := client];
        assert Views(registeredClients) == views[clientId := map[]];
      }
    }

    /** printOrderBook: the net direction of the units at each tick, a signed depth. */
    method PrintOrderBook() returns (depths: array<int>)
      requires Valid()
      ensures fresh(depths) && depths.Length == maxPrice
      ensures forall t | 0 <= t < maxPrice :: depths[t] == NetDirection(orderBook[t])
      ensures forall t | 0 <= t < maxPrice :: Abs(depths[t]) == |orderBook[t]|
    {
      depths := new int[maxPrice](_ => 0);
      for i := 0 to maxPrice
        invariant forall t | 0 <= t < i :: depths[t] == NetDirection(orderBook[t])
        invariant forall t | i <= t < maxPrice :: depths[t] == 0
      {
        var q := orderBook[i];
        for j := 0 to |q|
          invariant depths[i] == NetDirection(q[..j])
          invariant forall t | 0 <= t < i :: depths[t] == NetDirection(orderBook[t])
          invariant forall t | i < t < maxPrice :: depths[t] == 0
        {
          assert q[..j + 1][..j] == q[..j];
          depths[i] := depths[i] + q[j].direction;
        }
        assert q[..|q|] == q;
      }
      forall t | 0 <= t < maxPrice
        ensures Abs(depths[t]) == |orderBook[t]|
      {
        assert OneSided(orderBook[t]);
        NetMatchesSize(orderBook[t]);
      }
    }

    /** printSizes: the number of units at each tick. */
    method PrintSizes() returns (sizes: array<int>)
      requires Valid()
      ensures fresh(sizes) && sizes.Length == maxPrice
      ensures forall t | 0 <= t < maxPrice :: sizes[t] == |orderBook[t]|
    {
      sizes := new int[maxPrice](_ => 0);
      for i := 0 to maxPrice
        invariant forall t | 0 <= t < i :: sizes[t] == |orderBook[t]|
      {
        sizes[i] := |orderBook[i]|;
      }
    }

    /** completeTrades: the size oldest units at a tick fill, one by one; each moves its order's
        registry entry back by its direction and is reported to its owner. */
    method CompleteTrades(price: int, size: nat)
      requires Valid() && 0 <= price < maxPrice && size <= |orderBook[price]|
      modifies this, registeredClients.Values
      ensures Valid()
      ensures orderBook == old(orderBook)[price := old(orderBook[price])[size..]]
      ensures orderPositions == Released(old(orderPositions), old(orderBook[price])[..size])
      ensures orderPrices == old(orderPrices) && orderOwners == old(orderOwners)
      ensures registeredClients == old(registeredClients) && nextOrderId == old(nextOrderId)
    {
      for i := 0 to size
        invariant Valid()
        invariant orderBook == old(orderBook)[price := old(orderBook[price])[i..]]
        invariant orderPositions == Released(old(orderPositions), old(orderBook[price])[..i])
        invariant orderPrices == old(orderPrices) && orderOwners == old(orderOwners)
        invariant registeredClients == old(registeredClients) && nextOrderId == old(nextOrderId)
      {
        ReleasedStep(old(orderPositions), old(orderBook[price]), i);
        CompleteHead(price);
      }
    }

    /** One step of completeTrades: the oldest unit at a tick leaves the ladder, its order's
        entry moves back by its direction, and its owner hears of it through completeTrade. */
    method CompleteHead(price: int)
      requires Valid() && 0 <= price < maxPrice && orderBook[price] != []
      modifies this, registeredClients.Values
      ensures Valid()
      ensures orderBook == old(orderBook)[price := old(orderBook[price])[1..]]
      ensures orderPositions == Release(old(orderPositions), old(orderBook[price][0]))
      ensures orderPrices == old(orderPrices) && orderOwners == old(orderOwners)
      ensures registeredClients == old(registeredClients) && nextOrderId == old(nextOrderId)
    {
      var trade := orderBook[price][0];
      ghost var b, views := orderBook, Views(registeredClients);
      RemoveUnit(b, orderPositions, orderPrices, orderOwners, nextOrderId, views, price, 0);
      assert RemoveAt(b[price], 0) == b[price][1..];
      orderBook := orderBook[price := orderBook[price][1..]];
      orderPositions := orderPositions[trade.orderId := orderPositions[trade.orderId] - trade.direction];
      var client := registeredClients[trade.clientId];
      client.CompleteTrade(trade);
      ghost var views' := views[trade.clientId := AfterComplete(views[trade.clientId], trade)];
      forall c | c in registeredClients
        ensures Views(registeredClients)[c] == views'[c]
      {
        assert registeredClients[c].clientId == c;
      }
      assert Views(registeredClients) == views';
    }

    /** startTrades: order orderId of client clientId is entered in the registry with its
        signed size and its tick, then its size units join the back of the tick one by one,
        each reported to the client through startTrade. */
    method StartTrades(price: int, size: nat, orderId: OrderId, clientId: ClientId, direction: Direction)
      requires Valid() && 0 <= price < maxPrice
      requires orderId !in orderPrices && orderId < nextOrderId && clientId in registeredClients
      requires size > 0 ==> orderBook[price] == [] || orderBook[price][0].direction == direction
      modifies this, registeredClients.Values
      ensures Valid()
      ensures orderBook == old(orderBook)[price := old(orderBook[price]) + Repeat(Purchase(orderId, clientId, direction), size)]
      ensures orderPositions == old(orderPositions)[orderId := size * direction]
      ensures orderPrices == old(orderPrices)[orderId := price] && orderOwners == old(orderOwners)[orderId := clientId]
      ensures registeredClients == old(registeredClients) && nextOrderId == old(nextOrderId)
    {
      EnterOrder(price, size, orderId, clientId, direction);
      var trade := Purchase(orderId, clientId, direction);
      RestUnits(price, trade, size);
      assert orderPositions[orderId := size * direction] == orderPositions;
    }

    /** The first step of startTrades: the registry records the order's signed size, its tick
        and its owner before any unit rests; with none resting, the engine is consistent with the
        order's entry at zero. */
    method EnterOrder(price: int, size: nat, orderId: OrderId, clientId: ClientId, direction: Direction)
      requires Valid() && 0 <= price < maxPrice
      requires orderId !in orderPrices && orderId < nextOrderId && clientId in registeredClients
      modifies this
      ensures Consistent(orderPositions[orderId := 0])
      ensures orderBook == old(orderBook)
      ensures orderPositions == old(orderPositions)[orderId := size * direction]
      ensures orderPrices == old(orderPrices)[orderId := price] && orderOwners == old(orderOwners)[orderId := clientId]
      ensures registeredClients == old(registeredClients) && nextOrderId == old(nextOrderId)
    {
      RegisterOrder(orderBook, orderPositions, orderPrices, orderOwners, nextOrderId, Views(registeredClients),
                    orderId, price, clientId);
      ghost var reg0 := orderPositions[orderId := 0];
      orderPositions := orderPositions[orderId := size * direction];
      orderPrices := orderPrices[orderId := price];
      orderOwners := orderOwners[orderId := clientId];
      assert orderPositions[orderId := 0] == reg0;
    }

    /** The loop of startTrades: size units of an entered order join the back of its tick one
        by one. The order's entry already holds its final value; the engine is consistent with
        the entry read as the units placed so far. */
    method RestUnits(price: int, trade: Purchase, size: nat)
      requires Consistent(orderPositions[trade.orderId := 0]) && 0 <= price < maxPrice
      requires trade.orderId in orderPrices && orderPrices[trade.orderId] == price
      requires orderOwners[trade.orderId] == trade.clientId
      requires size > 0 ==> orderBook[price] == [] || orderBook[price][0].direction == trade.direction
      modifies this, registeredClients.Values
      ensures Consistent(orderPositions[trade.orderId := size * trade.direction])
      ensures orderBook == old(orderBook)[price := old(orderBook[price]) + Repeat(trade, size)]
      ensures orderPositions == old(orderPositions) && orderPrices == old(orderPrices) && orderOwners == old(orderOwners)
      ensures registeredClients == old(registeredClients) && nextOrderId == old(nextOrderId)
    {
      assert old(orderBook[price]) + Repeat(trade, 0) == orderBook[price];
      assert old(orderBook)[price := old(orderBook[price]) + Repeat(trade, 0)] == orderBook;
      for i := 0 to size
        invariant Consistent(orderPositions[trade.orderId := i * trade.direction])
        invariant orderBook == old(orderBook)[price := old(orderBook[price]) + Repeat(trade, i)]
        invariant orderPositions == old(orderPositions) && orderPrices == old(orderPrices) && orderOwners == old(orderOwners)
        invariant registeredClients == old(registeredClients) && nextOrderId == old(nextOrderId)
      {
        StartTail(price, trade, old(orderBook[price]), i);
      }
    }

    /** One step of startTrades: the unit joins the back of its tick, behind the i units of its
        order already placed there in this call, and its owner hears of it through startTrade.
        The tick held units of the unit's side only, or none. */
    method StartTail(price: int, trade: Purchase, ghost base: Queue, i: nat)
      requires Consistent(orderPositions[trade.orderId := i * trade.direction]) && 0 <= price < maxPrice
      requires trade.orderId in orderPrices && orderPrices[trade.orderId] == price
      requires orderOwners[trade.orderId] == trade.clientId
      requires base == [] || base[0].direction == trade.direction
      requires orderBook[price] == base + Repeat(trade, i)
      modifies this, registeredClients.Values
      ensures Consistent(orderPositions[trade.orderId := (i + 1) * trade.direction])
      ensures orderBook == old(orderBook)[price := base + Repeat(trade, i + 1)]
      ensures orderPositions == old(orderPositions) && orderPrices == old(orderPrices) && orderOwners == old(orderOwners)
      ensures registeredClients == old(registeredClients) && nextOrderId == old(nextOrderId)
    {
      RepeatSnoc(base, trade, i);
      assert orderBook[price] == [] || orderBook[price][0].direction == trade.direction;
      ghost var views := Views(registeredClients);
      ghost var reg := orderPositions[trade.orderId := i * trade.direction];
      AddUnit(orderBook, reg, orderPrices, orderOwners, nextOrderId, views, price, trade);
      orderBook := orderBook[price := orderBook[price] + [trade]];
      var client := registeredClients[trade.clientId];
      client.StartTrade(trade);
      ghost var views' := views[trade.clientId := AfterStart(views[trade.clientId], trade)];
      forall c | c in registeredClients
        ensures Views(registeredClients)[c] == views'[c]
      {
        assert registeredClients[c].clientId == c;
      }
      assert Views(registeredClients) == views';
      assert reg[trade.orderId := reg[trade.orderId] + trade.direction] == orderPositions[trade.orderId := (i + 1) * trade.direction];
    }

    /** cancelOrder, with the owner check the source lacks: the request fails and nothing changes
        when the order is unknown, belongs to another client, or has fewer than size units
        left; otherwise the entry moves toward zero by size, and at the order's tick the
        oldest size of its units leave the ladder, each reported to the owner through
        completeTrade. */
    method CancelOrder(clientId: ClientId, orderId: OrderId, size: nat) returns (ok: bool)
      requires Valid()
      modifies this, registeredClients.Values
      ensures Valid()
      ensures ok <==> orderId in old(orderPrices) && old(orderOwners[orderId]) == clientId
                      && size <= Abs(old(orderPositions[orderId]))
      ensures ok ==> orderPositions == old(orderPositions)[orderId := old(orderPositions[orderId])
                                                             - Sign(old(orderPositions[orderId])) * size]
      ensures ok ==> 0 <= old(orderPrices[orderId]) < maxPrice
                     && orderBook == old(orderBook)[old(orderPrices[orderId])
                                      := DropMatching(old(orderBook[orderPrices[orderId]]), orderId, clientId, size)]
      ensures !ok ==> orderBook == old(orderBook) && orderPositions == old(orderPositions)
      ensures orderPrices == old(orderPrices) && orderOwners == old(orderOwners)
      ensures registeredClients == old(registeredClients) && nextOrderId == old(nextOrderId)
    {
      if orderId !in orderPrices || orderOwners[orderId] != clientId || Abs(orderPositions[orderId]) < size {
        return false;
      }
      var price := orderPrices[orderId];
      ghost var entry := orderPositions[orderId];
      WithdrawEntry(orderId, Sign(orderPositions[orderId]) * size);
      CancelUnits(price, orderId, clientId, size, entry);
      assert orderPositions[orderId := Withdrawn(entry, size)] == orderPositions;
      return true;
    }

    /** The registry part of cancelOrder: the entry moves by delta before any unit leaves, so the
        engine is consistent with the entry read at its former value. */
    method WithdrawEntry(orderId: OrderId, delta: int)
      requires Valid() && orderId in orderPositions
      modifies this
      ensures Consistent(orderPositions[orderId := old(orderPositions[orderId])])
      ensures orderPositions == old(orderPositions)[orderId := old(orderPositions[orderId]) - delta]
      ensures orderBook == old(orderBook) && orderPrices == old(orderPrices) && orderOwners == old(orderOwners)
      ensures registeredClients == old(registeredClients) && nextOrderId == old(nextOrderId)
    {
      ghost var views := Views(registeredClients);
      orderPositions := orderPositions[orderId := orderPositions[orderId] - delta];
      assert orderPositions[orderId := old(orderPositions[orderId])] == old(orderPositions);
      assert Views(registeredClients) == views;
    }

    /** The loop of cancelOrder: walking its order's tick from the oldest unit, the first size
        units of the order leave the ladder one by one; the entry read at entry before the walk
        reads size units closer to zero after it. */
    method CancelUnits(price: int, orderId: OrderId, clientId: ClientId, size: nat, ghost entry: int)
      requires Consistent(orderPositions[orderId := entry])
      requires orderId in orderPrices && orderPrices[orderId] == price && orderOwners[orderId] == clientId
      requires size <= Abs(entry)
      modifies this, registeredClients.Values
      ensures 0 <= price < maxPrice
      ensures Consistent(orderPositions[orderId := Withdrawn(entry, size)])
      ensures orderBook == old(orderBook)[price := DropMatching(old(orderBook[price]), orderId, clientId, size)]
      ensures orderPositions == old(orderPositions) && orderPrices == old(orderPrices) && orderOwners == old(orderOwners)
      ensures registeredClients == old(registeredClients) && nextOrderId == old(nextOrderId)
    {
      CancelSupply(orderBook, orderPositions[orderId := entry], orderPrices, orderOwners, nextOrderId,
                   Views(registeredClients), orderId);
      var q := orderBook[price];
      var leftToFill := size;
      var kept, j := 0, 0;
      assert Withdrawn(entry, 0) == entry;
      assert q[..0] == [] && q[0..] == q;
      assert Unmatched(q[..0], orderId, clientId) + q[0..] == q;
      while j < |q|
        invariant 0 <= j <= |q| && 0 <= leftToFill <= size
        invariant MatchCount(q[..j], orderId, clientId) == size - leftToFill
        invariant kept == |Unmatched(q[..j], orderId, clientId)|
        invariant Consistent(orderPositions[orderId := Withdrawn(entry, size - leftToFill)])
        invariant orderBook == old(orderBook)[price := Unmatched(q[..j], orderId, clientId) + q[j..]]
        invariant orderPositions == old(orderPositions) && orderPrices == old(orderPrices) && orderOwners == old(orderOwners)
        invariant registeredClients == old(registeredClients) && nextOrderId == old(nextOrderId)
        decreases |q| - j
      {
        if leftToFill == 0 {
          break;
        }
        leftToFill, kept := CancelAt(price, orderId, clientId, q, j, size, leftToFill, kept, entry, old(orderBook));
        j := j + 1;
      }
      assert j == |q| ==> q[..j] == q;
      if leftToFill > 0 {
        assert false;
      }
      WalkDone(q, orderId, clientId, size, j);
    }

    /** One visit of the cancel loop: the unit at index j of the walked queue q, found at index kept
        of the tick since the kept units precede it, leaves the tick when it is a unit of the order
        and stays otherwise. Before the visit size - leftToFill units of the order have left and
        its entry reads that many units closer to zero than entry; the visit keeps this so. The
        ladder is base with the tick replaced by the walk so far. */
    method CancelAt(price: int, orderId: OrderId, clientId: ClientId, q: Queue, j: int, size: nat, leftToFill: nat,
                    kept: int, ghost entry: int, ghost base: Book)
      returns (leftToFill': nat, kept': int)
      requires 0 <= price < |base| && 0 <= j < |q| && 0 < leftToFill <= size <= Abs(entry)
      requires orderBook == base[price := Unmatched(q[..j], orderId, clientId) + q[j..]]
      requires kept == |Unmatched(q[..j], orderId, clientId)| && MatchCount(q[..j], orderId, clientId) == size - leftToFill
      requires Consistent(orderPositions[orderId := Withdrawn(entry, size - leftToFill)])
      modifies this, registeredClients.Values
      ensures leftToFill' == leftToFill - (if Matches(q[j], orderId, clientId) then 1 else 0)
      ensures kept' == |Unmatched(q[..j + 1], orderId, clientId)| && MatchCount(q[..j + 1], orderId, clientId) == size - leftToFill'
      ensures Consistent(orderPositions[orderId := Withdrawn(entry, size - leftToFill')])
      ensures orderBook == base[price := Unmatched(q[..j + 1], orderId, clientId) + q[j + 1..]]
      ensures orderPositions == old(orderPositions) && orderPrices == old(orderPrices) && orderOwners == old(orderOwners)
      ensures registeredClients == old(registeredClients) && nextOrderId == old(nextOrderId)
    {
      var trade := q[j];
      CancelStep(q, orderId, clientId, j);
      leftToFill', kept' := leftToFill, kept;
      if trade.orderId == orderId && trade.clientId == clientId {
        WithdrawStep(entry, size - leftToFill);
        assert orderBook[price][kept] == trade;
        CancelUnit(price, kept, Withdrawn(entry, size - leftToFill));
        leftToFill' := leftToFill - 1;
      } else {
        kept' := kept + 1;
      }
    }

    /** One step of cancelOrder: the unit at index idx of a tick, a unit of an order whose entry
        reads placed, is reported to its owner through completeTrade and leaves the ladder. */
    method CancelUnit(price: int, idx: int, ghost placed: int)
      requires 0 <= price < |orderBook| && 0 <= idx < |orderBook[price]|
      requires Consistent(orderPositions[orderBook[price][idx].orderId := placed])
      modifies this, registeredClients.Values
      ensures old(orderBook[price][idx]).direction == Sign(placed)
      ensures Consistent(orderPositions[old(orderBook[price][idx]).orderId := placed - old(orderBook[price][idx]).direction])
      ensures orderBook == old(orderBook)[price := RemoveAt(old(orderBook[price]), idx)]
      ensures orderPositions == old(orderPositions) && orderPrices == old(orderPrices) && orderOwners == old(orderOwners)
      ensures registeredClients == old(registeredClients) && nextOrderId == old(nextOrderId)
    {
      var trade := orderBook[price][idx];
      ghost var views := Views(registeredClients);
      ghost var reg := orderPositions[trade.orderId := placed];
      RemoveUnit(orderBook, reg, orderPrices, orderOwners, nextOrderId, views, price, idx);
      var client := registeredClients[trade.clientId];
      client.CompleteTrade(trade);
      orderBook := orderBook[price := RemoveAt(orderBook[price], idx)];
      ghost var views' := views[trade.clientId := AfterComplete(views[trade.clientId], trade)];
      forall c | c in registeredClients
        ensures Views(registeredClients)[c] == views'[c]
      {
        assert registeredClients[c].clientId == c;
      }
      assert Views(registeredClients) == views';
      assert reg[trade.orderId := reg[trade.orderId] - trade.direction] == orderPositions[trade.orderId := placed - trade.direction];
    }

    /** limitOrder: every call draws a fresh order id. The order crosses the ladder as Scan
        describes; unless it is a dry run the crossed units leave the ladder (their owners told
        through completeTrade) and the unfilled remainder rests at the limit tick under the new
        id (possibly with no units). The result reports the id, the units filled, the sum of the
        ticks they filled at, and the side. */
    method LimitOrder(clientId: ClientId, size: nat, buying: bool, tickPrice: int, dryRun: bool)
      returns (info: OrderInformation)
      requires Valid() && 0 <= tickPrice < maxPrice && clientId in registeredClients
      modifies this, registeredClients.Values
      ensures Valid()
      ensures var f := Scan(old(orderBook), size, buying, tickPrice);
              info == OrderInformation(old(nextOrderId), size - f.left, f.total, if buying then 1 else -1)
      ensures nextOrderId == old(nextOrderId) + 1 && registeredClients == old(registeredClients)
      ensures dryRun ==> orderBook == old(orderBook) && orderPositions == old(orderPositions)
                         && orderPrices == old(orderPrices) && orderOwners == old(orderOwners)
      ensures !dryRun ==>
                var f := Scan(old(orderBook), size, buying, tickPrice);
                var rest := Purchase(info.orderId, clientId, info.direction);
                && orderBook == f.book[tickPrice := f.book[tickPrice] + Repeat(rest, f.left)]
                && orderPositions == Released(old(orderPositions), f.taken)[info.orderId := f.left * info.direction]
                && orderPrices == old(orderPrices)[info.orderId := tickPrice]
                && orderOwners == old(orderOwners)[info.orderId := clientId]
    {
      var orderId := NewOrderId();
      var direction: Direction := if buying then 1 else -1;
      var leftToFill, totalPrice := Cross(size, direction, tickPrice, dryRun);
      if !dryRun {
        ghost var f := Scan(old(orderBook), size, buying, tickPrice);
        assert leftToFill == f.left && orderBook == f.book && orderPositions == Released(old(orderPositions), f.taken);
        if leftToFill > 0 {
          SweepLeavesNoCross(old(orderBook), if buying then 0 else maxPrice - 1, tickPrice, direction, size, tickPrice);
        }
        StartTrades(tickPrice, leftToFill, orderId, clientId, direction);
      }
      info := OrderInformation(orderId, size - leftToFill, totalPrice, direction);
    }

    /** The order id limitOrder draws; ids are never reused. */
    method NewOrderId() returns (orderId: OrderId)
      requires Valid()
      modifies this
      ensures Valid() && orderId == old(nextOrderId) && nextOrderId == orderId + 1
      ensures orderId !in orderPrices
      ensures orderBook == old(orderBook) && orderPositions == old(orderPositions)
      ensures orderPrices == old(orderPrices) && orderOwners == old(orderOwners)
      ensures registeredClients == old(registeredClients)
    {
      ghost var views := Views(registeredClients);
      orderId := nextOrderId;
      nextOrderId := nextOrderId + 1;
      assert Views(registeredClients) == views;
    }

    /** The crossing loop of limitOrder, from the first tick of the scan to the limit tick:
        ticks without liquidity for this side are passed over; at every other tick the oldest
        min(leftToFill, queue length) units fill at that tick's price, leaving the ladder unless
        this is a dry run; the loop stops once nothing is left to fill. */
    method Cross(size: nat, direction: Direction, tickPrice: int, dryRun: bool) returns (leftToFill: nat, totalPrice: int)
      requires Valid() && 0 <= tickPrice < maxPrice
      modifies this, registeredClients.Values
      ensures Valid()
      ensures var f := Sweep(old(orderBook), if direction == 1 then 0 else maxPrice - 1, tickPrice, direction, size);
              && leftToFill == f.left && totalPrice == f.total
              && (!dryRun ==> orderBook == f.book && orderPositions == Released(old(orderPositions), f.taken))
      ensures dryRun ==> orderBook == old(orderBook) && orderPositions == old(orderPositions)
      ensures orderPrices == old(orderPrices) && orderOwners == old(orderOwners)
      ensures registeredClients == old(registeredClients) && nextOrderId == old(nextOrderId)
    {
      totalPrice := 0;
      leftToFill := size;
      var i := if direction == 1 then 0 else maxPrice - 1;
      ghost var taken: Queue := [];
      ghost var f := Sweep(old(orderBook), if direction == 1 then 0 else maxPrice - 1, tickPrice, direction, size);
      assert After(0, [], f) == f by {
        assert [] + f.taken == f.taken;
      }
      while i != tickPrice + direction
        invariant ScanFrom(maxPrice, i, tickPrice, direction) && Valid()
        invariant var g := After(totalPrice, taken, Sweep(orderBook, i, tickPrice, direction, leftToFill));
                  Quotes(g, f) && (!dryRun ==> g.book == f.book)
        invariant !dryRun ==> orderPositions == Released(old(orderPositions), taken)
        invariant dryRun ==> orderBook == old(orderBook) && orderPositions == old(orderPositions)
        invariant orderPrices == old(orderPrices) && orderOwners == old(orderOwners)
        invariant registeredClients == old(registeredClients) && nextOrderId == old(nextOrderId)
        decreases ScanLength(i, tickPrice, direction)
      {
        var stop;
        stop, leftToFill, totalPrice, taken :=
          VisitTick(i, direction, tickPrice, dryRun, leftToFill, totalPrice, old(orderPositions), taken);
        if stop {
          ScanOver(orderBook, i + direction, tickPrice, direction, leftToFill, totalPrice, taken, f);
          break;
        }
        i := i + direction;
      }
      if i == tickPrice + direction {
        ScanOver(orderBook, i, tickPrice, direction, leftToFill, totalPrice, taken, f);
      }
    }

    /** One tick of the crossing loop. A tick whose oldest unit is on the order's own side, or
        that is empty, is passed over; otherwise min(leftToFill, queue length) of its oldest units
        fill at its price and, unless this is a dry run, leave the ladder. The loop stops once
        nothing is left to fill. In terms of the scan: the outcome still to come is unchanged
        when the visit's fills are moved from the rest of the scan into what is already done;
        a dry run, which leaves the ladder as it was, still reports the same fills. */
    method VisitTick(i: int, direction: Direction, tickPrice: int, dryRun: bool, leftToFill: nat, totalPrice: int,
                     ghost reg0: map<OrderId, int>, ghost taken: Queue)
      returns (stop: bool, leftToFill': nat, totalPrice': int, ghost taken': Queue)
      requires Valid() && ScanFrom(maxPrice, i, tickPrice, direction) && i != tickPrice + direction
      requires !dryRun ==> orderPositions == Released(reg0, taken)
      modifies this, registeredClients.Values
      ensures Valid()
      ensures var g, g' := After(totalPrice, taken, Sweep(old(orderBook), i, tickPrice, direction, leftToFill)),
                           After(totalPrice', taken', Sweep(orderBook, i + direction, tickPrice, direction, leftToFill'));
              Quotes(g', g) && (!dryRun ==> g'.book == g.book)
      ensures stop ==> leftToFill' == 0
      ensures !dryRun ==> orderPositions == Released(reg0, taken')
      ensures dryRun ==> orderBook == old(orderBook) && orderPositions == old(orderPositions)
      ensures orderPrices == old(orderPrices) && orderOwners == old(orderOwners)
      ensures registeredClients == old(registeredClients) && nextOrderId == old(nextOrderId)
    {
      VisitStep(orderBook, i, tickPrice, direction, leftToFill, totalPrice, taken);
      stop, leftToFill', totalPrice', taken' := false, leftToFill, totalPrice, taken;
      if orderBook[i] != [] && orderBook[i][0].direction != direction {
        var maxTradeableAtPrice := Min(leftToFill, |orderBook[i]|);
        if maxTradeableAtPrice > 0 {
          taken' := taken + orderBook[i][..maxTradeableAtPrice];
          totalPrice' := totalPrice + maxTradeableAtPrice * i;
          leftToFill' := leftToFill - maxTradeableAtPrice;
          if !dryRun {
            ReleasedConcat(reg0, taken, orderBook[i][..maxTradeableAtPrice]);
            CompleteTrades(i, maxTradeableAtPrice);
          }
        }
        stop := leftToFill' == 0;
      }
    }
  }
}
