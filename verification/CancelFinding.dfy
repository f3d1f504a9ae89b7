/** cancelOrder as Exchange.java writes it. Its guard checks that the order exists and holds
    enough units, but not that the caller placed it; the removal loop, on the other hand, only
    takes units placed by the caller. A cancel sent under another client's id therefore
    succeeds, moves the order's registry entry, and takes nothing off the ladder. The model's
    cancelOrder, Exchange.CancelOrder, also rejects a caller that does not own the order. */
module CancelFinding {
  import opened Orders
  import opened Ladder

  /** The outcome of a cancel: whether it was accepted, the new ladder, the new registry. */
  datatype Cancelled = Cancelled(ok: bool, book: Book, reg: map<OrderId, int>)

  /** cancelOrder with its guard as written: reject an unknown order or a size above the
      order's remaining units; otherwise move the entry by size towards zero and run the
      removal loop, which matches on both the order id and the caller's client id. */
  function CancelAsWritten(book: Book, reg: map<OrderId, int>, prices: map<OrderId, int>, clientId: ClientId,
                           orderId: OrderId, size: nat): (r: Cancelled)
    requires prices.Keys <= reg.Keys && forall o | o in prices :: 0 <= prices[o] < |book|
    ensures r.ok <==> orderId in prices && size <= Abs(reg[orderId])
    ensures !r.ok ==> r.book == book && r.reg == reg
    ensures r.ok ==> r.reg == reg[orderId := reg[orderId] - Sign(reg[orderId]) * size] && |r.book| == |book|
  {
    if orderId !in prices || Abs(reg[orderId]) < size then Cancelled(false, book, reg)
    else
      var t, entry := prices[orderId], reg[orderId];
      Cancelled(true, book[t := DropMatching(book[t], orderId, clientId, size)], reg[orderId := entry - Sign(entry) * size])
  }

  /** The removal loop leaves a queue alone when none of its units match. */
  lemma {:induction false} DropNothing(q: Queue, o: OrderId, c: ClientId, n: nat)
    requires forall i | 0 <= i < |q| :: !Matches(q[i], o, c)
    ensures DropMatching(q, o, c, n) == q
  {
    if q != [] && n != 0 {
      DropNothing(q[1..], o, c, n);
      assert [q[0]] + q[1..] == q;
    }
  }

  /** On a consistent ladder, a cancel of at least one unit sent under a client id other than
      the order's owner is accepted, leaves the ladder as it was, and breaks the agreement
      between the registry and the ladder. */
  lemma NonOwnerCancelDesyncs(book: Book, reg: map<OrderId, int>, prices: map<OrderId, int>,
                              owners: map<OrderId, ClientId>, clientId: ClientId, orderId: OrderId, size: nat)
    requires LadderOk(book, reg, prices, owners) && reg.Keys == prices.Keys
    requires forall o | o in prices :: 0 <= prices[o] < |book|
    requires orderId in prices && orderId in owners && owners[orderId] != clientId
    requires 0 < size <= Abs(reg[orderId])
    ensures var r := CancelAsWritten(book, reg, prices, clientId, orderId, size);
            && r.ok && r.book == book
            && r.reg[orderId] != OrderNet(r.book[prices[orderId]], orderId)
            && !Agrees(r.book, r.reg, prices)
  {
    var t := prices[orderId];
    forall i | 0 <= i < |book[t]|
      ensures !Matches(book[t][i], orderId, clientId)
    {
      assert PlacedAt(book, prices, owners, t, i);
    }
    DropNothing(book[t], orderId, clientId, size);
    assert book[t := book[t]] == book;
    assert EntryAgrees(book, reg, prices, orderId);
    var r := CancelAsWritten(book, reg, prices, clientId, orderId, size);
    assert !EntryAgrees(r.book, r.reg, prices, orderId);
  }

  /** The smallest case: client 1 rests a buy of 2 at tick 1; client 2 cancels both units of
      it. The cancel is accepted and the registry says the order is gone, yet both units still
      rest and can still be filled. */
  lemma NonOwnerCancelExample()
    ensures var u := Purchase(0, 1, 1);
            var book, reg, prices := [[], [u, u]], map[0 := 2], map[0 := 1];
            && LadderOk(book, reg, prices, map[0 := 1])
            && CancelAsWritten(book, reg, prices, 2, 0, 2) == Cancelled(true, book, map[0 := 0])
            && !Agrees(book, map[0 := 0], prices)
  {
    var u := Purchase(0, 1, 1);
    var book: Book := [[], [u, u]];
    var reg, prices, owners := map[0 := 2], map[0 := 1], map[0 := 1];
    assert [u, u][1..] == [u] && [u][1..] == [];
    assert OrderNet([u], 0) == 1;
    assert OrderNet([u, u], 0) == u.direction + OrderNet([u, u][1..], 0);
    assert book[1] == [u, u];
    assert EntryAgrees(book, reg, prices, 0);
    forall t, i | 0 <= t < |book| && 0 <= i < |book[t]|
      ensures PlacedAt(book, prices, owners, t, i)
    {
      assert t == 1;
    }
    assert book[1][0].direction == 1 && AllDirection(book[1], 1);
    assert OneSided(book[0]) && OneSided(book[1]);
    NonOwnerCancelDesyncs(book, reg, prices, owners, 2, 0, 2);
    assert map[0 := 2][0 := 0] == map[0 := 0];
  }
}
