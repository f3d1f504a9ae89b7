/** The requests a Client of Client.java sends to its exchange: joining it, asking for a
    quote, sending a limit order and cancelling one. A client reaches the exchange it was
    built with; here the exchange is passed along with the client. */
module Requests {
  import opened Orders
  import opened Ladder
  import opened Matching
  import opened Clients
  import opened Exchanges

  /** The exchange knows the client under the client's own id. */
  ghost predicate Registered(exchange: Exchange, client: Client)
    reads exchange
  {
    client.clientId in exchange.registeredClients && exchange.registeredClients[client.clientId] == client
  }

  /** What a registered client's orderPositions holds at any time: the non-zero registry
      entries of exactly the orders it placed. */
  lemma PositionsMirror(exchange: Exchange, client: Client)
    requires exchange.Valid() && Registered(exchange, client)
    ensures client.orderPositions == View(exchange.orderPositions, exchange.orderOwners, client.clientId)
  {
    var views := Exchange.Views(exchange.registeredClients);
    assert Mirrored(views, exchange.orderPositions, exchange.orderOwners, client.clientId);
  }

  /** The Client constructor: a new client with no positions, registered with the exchange. */
  method NewClient(exchange: Exchange, id: ClientId) returns (client: Client)
    requires exchange.Valid() && id !in exchange.registeredClients
    modifies exchange
    ensures fresh(client) && client.clientId == id && client.orderPositions == map[]
    ensures exchange.Valid() && Registered(exchange, client)
    ensures exchange.registeredClients == old(exchange.registeredClients)[id := client]
    ensures exchange.orderBook == old(exchange.orderBook) && exchange.orderPositions == old(exchange.orderPositions)
    ensures exchange.orderPrices == old(exchange.orderPrices) && exchange.orderOwners == old(exchange.orderOwners)
    ensures exchange.nextOrderId == old(exchange.nextOrderId)
  {
    client := new Client(id);
    exchange.RegisterClient(id, client);
  }

  /** requestForQuotes: a dry run over the whole ladder (limit at the top tick for a buy, at
      tick 0 for a sell). It fills min(size, units on the other side) and changes no order,
      unit or position. On an exchange with no ticks the scan visits nothing and fills nothing. */
  method RequestForQuotes(exchange: Exchange, client: Client, size: nat, buying: bool) returns (info: OrderInformation)
    requires exchange.Valid() && Registered(exchange, client)
    modifies exchange, exchange.registeredClients.Values
    ensures exchange.Valid()
    ensures info.direction == (if buying then 1 else -1)
    ensures exchange.maxPrice > 0 ==>
              var f := Scan(old(exchange.orderBook), size, buying, if buying then exchange.maxPrice - 1 else 0);
              info.numFilled == size - f.left && info.totalPrice == f.total
    ensures exchange.maxPrice > 0 ==>
              info.numFilled == Min(size, Liquidity(old(exchange.orderBook), if buying then 0 else exchange.maxPrice - 1,
                                                    if buying then exchange.maxPrice - 1 else 0, info.direction))
    ensures exchange.maxPrice == 0 ==> info.numFilled == 0 && info.totalPrice == 0
    ensures exchange.orderBook == old(exchange.orderBook) && exchange.orderPositions == old(exchange.orderPositions)
    ensures exchange.orderPrices == old(exchange.orderPrices) && exchange.orderOwners == old(exchange.orderOwners)
    ensures exchange.registeredClients == old(exchange.registeredClients) && exchange.nextOrderId == old(exchange.nextOrderId) + 1
  {
    if exchange.maxPrice == 0 {
      var orderId := exchange.NewOrderId();
      info := OrderInformation(orderId, 0, 0, if buying then 1 else -1);
    } else {
      var tickPrice := if buying then exchange.maxPrice - 1 else 0;
      SweepFillsLiquidity(exchange.orderBook, if buying then 0 else exchange.maxPrice - 1, tickPrice,
                          if buying then 1 else -1, size);
      info := exchange.LimitOrder(client.clientId, size, buying, tickPrice, true);
    }
  }

  /** sendLimitOrder: a live limit order under the client's own id. */
  method SendLimitOrder(exchange: Exchange, client: Client, size: nat, buying: bool, tickPrice: int)
    returns (info: OrderInformation)
    requires exchange.Valid() && 0 <= tickPrice < exchange.maxPrice && Registered(exchange, client)
    modifies exchange, exchange.registeredClients.Values
    ensures exchange.Valid()
    ensures var f := Scan(old(exchange.orderBook), size, buying, tickPrice);
            var rest := Purchase(info.orderId, client.clientId, info.direction);
            && info == OrderInformation(old(exchange.nextOrderId), size - f.left, f.total, if buying then 1 else -1)
            && exchange.orderBook == f.book[tickPrice := f.book[tickPrice] + Repeat(rest, f.left)]
            && exchange.orderPositions == Released(old(exchange.orderPositions), f.taken)[info.orderId := f.left * info.direction]
            && exchange.orderPrices == old(exchange.orderPrices)[info.orderId := tickPrice]
            && exchange.orderOwners == old(exchange.orderOwners)[info.orderId := client.clientId]
    ensures exchange.registeredClients == old(exchange.registeredClients) && exchange.nextOrderId == old(exchange.nextOrderId) + 1
  {
    info := exchange.LimitOrder(client.clientId, size, buying, tickPrice, false);
  }

  /** cancelOrder: a cancel request under the client's own id. */
  method CancelOrder(exchange: Exchange, client: Client, orderId: OrderId, size: nat) returns (ok: bool)
    requires exchange.Valid() && Registered(exchange, client)
    modifies exchange, exchange.registeredClients.Values
    ensures exchange.Valid()
    ensures ok <==> orderId in old(exchange.orderPrices) && old(exchange.orderOwners[orderId]) == client.clientId
                    && size <= Abs(old(exchange.orderPositions[orderId]))
    ensures !ok ==> exchange.orderBook == old(exchange.orderBook) && exchange.orderPositions == old(exchange.orderPositions)
    ensures ok ==> exchange.orderPositions == old(exchange.orderPositions)[orderId := old(exchange.orderPositions[orderId])
                                                 - Sign(old(exchange.orderPositions[orderId])) * size]
    ensures ok ==> 0 <= old(exchange.orderPrices[orderId]) < exchange.maxPrice
                   && exchange.orderBook == old(exchange.orderBook)[old(exchange.orderPrices[orderId]) :=
                        DropMatching(old(exchange.orderBook[exchange.orderPrices[orderId]]), orderId, client.clientId, size)]
    ensures exchange.orderPrices == old(exchange.orderPrices) && exchange.orderOwners == old(exchange.orderOwners)
    ensures exchange.registeredClients == old(exchange.registeredClients) && exchange.nextOrderId == old(exchange.nextOrderId)
  {
    ok := exchange.CancelOrder(client.clientId, orderId, size);
  }
}
