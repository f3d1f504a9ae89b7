/** The price ladder of Exchange.java (orderBook: one FIFO queue of resting units per tick)
    as values, the order registry's agreement with it, and the facts the engine's
    operations need to keep that agreement. */
module Ladder {
  import opened Orders

  /** The queue at one tick, oldest unit first. */
  type Queue = seq<Purchase>

  /** The whole ladder: Book[t] is the queue at tick t. */
  type Book = seq<Queue>

  /** Sum of the directions at one tick (an entry of printOrderBook). */
  function NetDirection(q: Queue): int
  {
    if q == [] then 0 else NetDirection(q[..|q| - 1]) + q[|q| - 1].direction
  }

  predicate AllDirection(q: Queue, d: Direction)
  {
    forall i | 0 <= i < |q| :: q[i].direction == d
  }

  /** A tick never holds buys and sells at the same time. */
  predicate OneSided(q: Queue)
  {
    q == [] || AllDirection(q, q[0].direction)
  }

  /** The tick offers liquidity to an aggressor of direction dir: its oldest unit is on the other side. */
  predicate Opposite(q: Queue, dir: Direction)
  {
    q != [] && q[0].direction != dir
  }

  /** Signed number of units of order o in the queue. */
  function OrderNet(q: Queue, o: OrderId): int
  {
    if q == [] then 0 else (if q[0].orderId == o then q[0].direction else 0) + OrderNet(q[1..], o)
  }

  /** Number of units of order o in the queue. */
  function OrderCount(q: Queue, o: OrderId): nat
  {
    if q == [] then 0 else (if q[0].orderId == o then 1 else 0) + OrderCount(q[1..], o)
  }

  lemma {:induction false} NetOfUniform(q: Queue, d: Direction)
    requires AllDirection(q, d)
    ensures NetDirection(q) == d * |q|
  {
    if q != [] {
      NetOfUniform(q[..|q| - 1], d);
    }
  }

  /** On a one-sided tick the net direction and the queue length agree up to sign:
      abs(printOrderBook()[i]) == printSizes()[i]. */
  lemma NetMatchesSize(q: Queue)
    requires OneSided(q)
    ensures Abs(NetDirection(q)) == |q|
    ensures q != [] ==> NetDirection(q) == q[0].direction * |q|
  {
    if q != [] {
      NetOfUniform(q, q[0].direction);
    }
  }

  lemma {:induction false} OrderNetConcat(a: Queue, b: Queue, o: OrderId)
    ensures OrderNet(a + b, o) == OrderNet(a, o) + OrderNet(b, o)
  {
    if a != [] {
      assert (a + b)[1..] == a[1..] + b;
      OrderNetConcat(a[1..], b, o);
    } else {
      assert a + b == b;
    }
  }

  lemma {:induction false} OrderCountConcat(a: Queue, b: Queue, o: OrderId)
    ensures OrderCount(a + b, o) == OrderCount(a, o) + OrderCount(b, o)
  {
    if a != [] {
      assert (a + b)[1..] == a[1..] + b;
      OrderCountConcat(a[1..], b, o);
    } else {
      assert a + b == b;
    }
  }

  lemma {:induction false} OrderNetUniform(q: Queue, d: Direction, o: OrderId)
    requires AllDirection(q, d)
    ensures OrderNet(q, o) == d * OrderCount(q, o)
  {
    if q != [] {
      OrderNetUniform(q[1..], d, o);
    }
  }

  lemma {:induction false} OrderCountAt(q: Queue, i: int)
    requires 0 <= i < |q|
    ensures OrderCount(q, q[i].orderId) >= 1
  {
    if i > 0 {
      OrderCountAt(q[1..], i - 1);
    }
  }

  lemma {:induction false} OrderNetAbsent(q: Queue, o: OrderId)
    requires forall i | 0 <= i < |q| :: q[i].orderId != o
    ensures OrderNet(q, o) == 0
  {
    if q != [] {
      OrderNetAbsent(q[1..], o);
    }
  }

  /** Every unit at tick t belongs to an order that the registry rests at t and that is
      owned by the unit's client. */
  ghost predicate Placed(b: Book, prices: map<OrderId, int>, owners: map<OrderId, ClientId>)
  {
    forall t, i {:trigger PlacedAt(b, prices, owners, t, i)} | 0 <= t < |b| && 0 <= i < |b[t]| ::
      PlacedAt(b, prices, owners, t, i)
  }

  /** The unit at index i of tick t belongs to an order resting at t and owned by the unit's client. */
  ghost predicate PlacedAt(b: Book, prices: map<OrderId, int>, owners: map<OrderId, ClientId>, t: int, i: int)
    requires 0 <= t < |b| && 0 <= i < |b[t]|
  {
    b[t][i].orderId in prices && prices[b[t][i].orderId] == t &&
    b[t][i].orderId in owners && owners[b[t][i].orderId] == b[t][i].clientId
  }

  /** The registry's signed remaining size of every order is the signed number of its units
      at its resting tick. */
  ghost predicate Agrees(b: Book, reg: map<OrderId, int>, prices: map<OrderId, int>)
  {
    forall o {:trigger EntryAgrees(b, reg, prices, o)} | o in reg :: EntryAgrees(b, reg, prices, o)
  }

  /** Order o rests at a tick of the ladder and its registry entry is its signed number of units there. */
  ghost predicate EntryAgrees(b: Book, reg: map<OrderId, int>, prices: map<OrderId, int>, o: OrderId)
  {
    o in reg && o in prices && 0 <= prices[o] < |b| && reg[o] == OrderNet(b[prices[o]], o)
  }

  /** The ladder invariant: every tick one-sided, every unit registered where it rests,
      and the registry agreeing with the units. */
  ghost predicate LadderOk(b: Book, reg: map<OrderId, int>, prices: map<OrderId, int>, owners: map<OrderId, ClientId>)
  {
    && (forall t {:trigger OneSided(b[t])} | 0 <= t < |b| :: OneSided(b[t]))
    && Placed(b, prices, owners)
    && Agrees(b, reg, prices)
  }

  /** The queue with its unit at index idx taken out, the others in their order. */
  function RemoveAt(q: Queue, idx: int): (r: Queue)
    requires 0 <= idx < |q|
    ensures |r| == |q| - 1
    ensures forall j | 0 <= j < |r| :: r[j] == (if j < idx then q[j] else q[j + 1])
  {
    q[..idx] + q[idx + 1..]
  }

  /** Taking one unit out of the ladder (a fill from the head, or a cancel) keeps the ladder
      invariant once its order's registry entry moves back by the unit's direction; the entry
      was not zero, and it had the unit's sign. */
  lemma RemoveKeeps(b: Book, reg: map<OrderId, int>, prices: map<OrderId, int>, owners: map<OrderId, ClientId>,
                    t: int, idx: int)
    requires LadderOk(b, reg, prices, owners) && reg.Keys == prices.Keys
    requires 0 <= t < |b| && 0 <= idx < |b[t]|
    ensures b[t][idx].orderId in reg
    ensures reg[b[t][idx].orderId] * b[t][idx].direction >= 1
    ensures LadderOk(b[t := RemoveAt(b[t], idx)],
                     reg[b[t][idx].orderId := reg[b[t][idx].orderId] - b[t][idx].direction], prices, owners)
  {
    var q, u := b[t], b[t][idx];
    assert PlacedAt(b, prices, owners, t, idx);
    var q' := RemoveAt(q, idx);
    var b' := b[t := q'];
    var reg' := reg[u.orderId := reg[u.orderId] - u.direction];
    assert OneSided(b[t]);
    assert AllDirection(q, u.direction);
    OrderNetUniform(q, u.direction, u.orderId);
    OrderCountAt(q, idx);
    assert OneSided(q') by {
      assert AllDirection(q', u.direction);
    }
    assert EntryAgrees(b, reg, prices, u.orderId);
    assert q == q[..idx] + [u] + q[idx + 1..];
    forall o | o in reg'
      ensures EntryAgrees(b', reg', prices, o)
    {
      assert EntryAgrees(b, reg, prices, o);
      if prices[o] == t {
        OrderNetConcat(q[..idx] + [u], q[idx + 1..], o);
        OrderNetConcat(q[..idx], [u], o);
        OrderNetConcat(q[..idx], q[idx + 1..], o);
        assert OrderNet([u], o) == (if u.orderId == o then u.direction else 0) by {
          assert [u][1..] == [];
        }
      }
    }
    assert Placed(b', prices, owners) by {
      forall t', i | 0 <= t' < |b'| && 0 <= i < |b'[t']|
        ensures PlacedAt(b', prices, owners, t', i)
      {
        if t' != t {
          assert PlacedAt(b, prices, owners, t', i);
        } else if i < idx {
          assert PlacedAt(b, prices, owners, t, i);
        } else {
          assert b'[t'][i] == q[i + 1];
          assert PlacedAt(b, prices, owners, t, i + 1);
        }
      }
    }
  }

  /** Appending a unit of a registered order at its resting tick, on a tick that is empty or on
      the unit's side, keeps the ladder invariant once the order's entry moves by the unit's direction. */
  lemma AppendKeeps(b: Book, reg: map<OrderId, int>, prices: map<OrderId, int>, owners: map<OrderId, ClientId>,
                    t: int, u: Purchase)
    requires LadderOk(b, reg, prices, owners)
    requires 0 <= t < |b| && u.orderId in reg && u.orderId in prices && prices[u.orderId] == t
    requires u.orderId in owners && owners[u.orderId] == u.clientId
    requires b[t] == [] || b[t][0].direction == u.direction
    ensures LadderOk(b[t := b[t] + [u]], reg[u.orderId := reg[u.orderId] + u.direction], prices, owners)
  {
    var q := b[t];
    var b' := b[t := q + [u]];
    var reg' := reg[u.orderId := reg[u.orderId] + u.direction];
    assert OneSided(q + [u]) by {
      assert OneSided(b[t]);
      assert AllDirection(q + [u], u.direction);
    }
    forall o | o in reg'
      ensures EntryAgrees(b', reg', prices, o)
    {
      assert EntryAgrees(b, reg, prices, o);
      if prices[o] == t {
        OrderNetConcat(q, [u], o);
        assert OrderNet([u], o) == (if u.orderId == o then u.direction else 0) by {
          assert [u][1..] == [];
        }
      }
    }
    assert Placed(b', prices, owners) by {
      forall t', i | 0 <= t' < |b'| && 0 <= i < |b'[t']|
        ensures PlacedAt(b', prices, owners, t', i)
      {
        if t' != t {
          assert PlacedAt(b, prices, owners, t', i);
        } else if i < |q| {
          assert PlacedAt(b, prices, owners, t, i);
        } else {
          assert b'[t'][i] == u;
        }
      }
    }
  }

  /** Registering a fresh order at tick t with no units yet keeps the ladder invariant. */
  lemma RegisterKeeps(b: Book, reg: map<OrderId, int>, prices: map<OrderId, int>, owners: map<OrderId, ClientId>,
                      o: OrderId, t: int, c: ClientId)
    requires LadderOk(b, reg, prices, owners) && o !in prices
    requires 0 <= t < |b|
    ensures LadderOk(b, reg[o := 0], prices[o := t], owners[o := c])
  {
    forall i | 0 <= i < |b[t]|
      ensures b[t][i].orderId != o
    {
      assert PlacedAt(b, prices, owners, t, i);
    }
    OrderNetAbsent(b[t], o);
    var reg', prices', owners' := reg[o := 0], prices[o := t], owners[o := c];
    forall t', i | 0 <= t' < |b| && 0 <= i < |b[t']|
      ensures PlacedAt(b, prices', owners', t', i)
    {
      assert PlacedAt(b, prices, owners, t', i);
    }
    forall o' | o' in reg'
      ensures EntryAgrees(b, reg', prices', o')
    {
      if o' != o {
        assert EntryAgrees(b, reg, prices, o');
      }
    }
  }

  /** n units of the same order, as startTrades queues them. */
  function Repeat(u: Purchase, n: nat): (r: Queue)
    ensures |r| == n && forall j | 0 <= j < n :: r[j] == u
  {
    seq(n, _ => u)
  }

  /** One more copy of u at the back of a queue that ends in n copies of u. */
  lemma RepeatSnoc(p: Queue, u: Purchase, n: nat)
    ensures p + Repeat(u, n) + [u] == p + Repeat(u, n + 1)
  {
    assert Repeat(u, n) + [u] == Repeat(u, n + 1);
  }

  /** A unit the cancellation of order o by client c may take. */
  predicate Matches(u: Purchase, o: OrderId, c: ClientId)
  {
    u.orderId == o && u.clientId == c
  }

  /** The cancel loop of cancelOrder: walking the queue oldest first, take out units of order o
      placed by client c until n of them are gone or the queue ends; keep all others in order. */
  function DropMatching(q: Queue, o: OrderId, c: ClientId, n: nat): Queue
  {
    if q == [] || n == 0 then q
    else if Matches(q[0], o, c) then DropMatching(q[1..], o, c, n - 1)
    else [q[0]] + DropMatching(q[1..], o, c, n)
  }

  /** Number of units of order o placed by client c. */
  function MatchCount(q: Queue, o: OrderId, c: ClientId): nat
  {
    if q == [] then 0 else (if Matches(q[0], o, c) then 1 else 0) + MatchCount(q[1..], o, c)
  }

  /** The units the cancel loop does not match, in their order. */
  function Unmatched(q: Queue, o: OrderId, c: ClientId): Queue
  {
    if q == [] then [] else (if Matches(q[0], o, c) then [] else [q[0]]) + Unmatched(q[1..], o, c)
  }

  /** Cancellation takes out exactly min(n, matching units) units, all of them matching ones:
      every other unit stays, in its order, and the remaining matching units are the rest. */
  lemma {:induction false} DropMatchingSpec(q: Queue, o: OrderId, c: ClientId, n: nat)
    ensures var r := DropMatching(q, o, c, n);
            && Unmatched(r, o, c) == Unmatched(q, o, c)
            && MatchCount(r, o, c) == MatchCount(q, o, c) - (if n <= MatchCount(q, o, c) then n else MatchCount(q, o, c))
            && |r| == |q| - (if n <= MatchCount(q, o, c) then n else MatchCount(q, o, c))
  {
    if q != [] && n != 0 {
      DropMatchingSpec(q[1..], o, c, if Matches(q[0], o, c) then n - 1 else n);
      var r := DropMatching(q, o, c, n);
      if !Matches(q[0], o, c) {
        var r' := DropMatching(q[1..], o, c, n);
        assert r == [q[0]] + r';
        assert r[1..] == r';
      }
    }
  }

  /** When every unit of order o was placed by client c, the units the cancel loop can take are
      exactly the order's units. */
  lemma {:induction false} MatchCountOwned(q: Queue, o: OrderId, c: ClientId)
    requires forall i | 0 <= i < |q| && q[i].orderId == o :: q[i].clientId == c
    ensures MatchCount(q, o, c) == OrderCount(q, o)
  {
    if q != [] {
      MatchCountOwned(q[1..], o, c);
    }
  }

  lemma {:induction false} MatchCountConcat(a: Queue, b: Queue, o: OrderId, c: ClientId)
    ensures MatchCount(a + b, o, c) == MatchCount(a, o, c) + MatchCount(b, o, c)
    ensures Unmatched(a + b, o, c) == Unmatched(a, o, c) + Unmatched(b, o, c)
  {
    if a != [] {
      assert (a + b)[1..] == a[1..] + b;
      MatchCountConcat(a[1..], b, o, c);
    } else {
      assert a + b == b;
    }
  }

  /** The cancel loop done: once n matching units are out of the walked prefix q[..j], the rest
      of the queue stays as it is, and the tick is q with its first n matching units removed. */
  lemma WalkDone(q: Queue, o: OrderId, c: ClientId, n: nat, j: int)
    requires 0 <= j <= |q| && MatchCount(q[..j], o, c) == n
    ensures Unmatched(q[..j], o, c) + q[j..] == DropMatching(q, o, c, n)
  {
    DropPrefix(q, o, c, n, j);
  }

  /** The cancel loop part way: once the units before index j are walked and the matching ones
      among them taken out (no more than n), the rest of the walk starts at j with the
      remaining count. */
  lemma {:induction false} DropPrefix(q: Queue, o: OrderId, c: ClientId, n: nat, j: int)
    requires 0 <= j <= |q| && MatchCount(q[..j], o, c) <= n
    ensures DropMatching(q, o, c, n)
         == Unmatched(q[..j], o, c) + DropMatching(q[j..], o, c, n - MatchCount(q[..j], o, c))
    decreases j
  {
    if j == 0 {
      assert q[..0] == [] && q[0..] == q;
    } else {
      var x := q[j - 1];
      WalkOne(q, o, c, j - 1);
      DropPrefix(q, o, c, n, j - 1);
      var u, m, d := Unmatched(q[..j - 1], o, c), MatchCount(q[..j - 1], o, c), q[j - 1..];
      assert d[0] == x && d[1..] == q[j..];
      if Matches(x, o, c) {
        calc {
          DropMatching(q, o, c, n);
          u + DropMatching(d, o, c, n - m);
          u + DropMatching(q[j..], o, c, n - m - 1);
          { assert u + [] == u; }
          Unmatched(q[..j], o, c) + DropMatching(q[j..], o, c, n - MatchCount(q[..j], o, c));
        }
      } else {
        var rest := DropMatching(q[j..], o, c, n - m);
        assert DropMatching(d, o, c, n - m) == [x] + rest by {
          if n - m == 0 {
            assert d == [x] + q[j..];
          }
        }
        calc {
          DropMatching(q, o, c, n);
          u + ([x] + rest);
          u + [x] + rest;
          Unmatched(q[..j], o, c) + DropMatching(q[j..], o, c, n - MatchCount(q[..j], o, c));
        }
      }
    }
  }

  /** Walking one more unit of the queue: the match count and the kept units grow by that unit. */
  lemma WalkOne(q: Queue, o: OrderId, c: ClientId, j: int)
    requires 0 <= j < |q|
    ensures MatchCount(q[..j + 1], o, c) == MatchCount(q[..j], o, c) + (if Matches(q[j], o, c) then 1 else 0)
    ensures Unmatched(q[..j + 1], o, c) == Unmatched(q[..j], o, c) + (if Matches(q[j], o, c) then [] else [q[j]])
  {
    assert q[..j + 1] == q[..j] + [q[j]];
    MatchCountConcat(q[..j], [q[j]], o, c);
    assert [q[j]][1..] == [];
  }

  /** A walk that matches nothing keeps every unit. */
  lemma {:induction false} UnmatchedAll(q: Queue, o: OrderId, c: ClientId)
    requires MatchCount(q, o, c) == 0
    ensures Unmatched(q, o, c) == q
  {
    if q != [] {
      UnmatchedAll(q[1..], o, c);
      assert [q[0]] + q[1..] == q;
    }
  }

  /** One step of the cancel walk at index j of the queue q it started from. The live queue is
      the unmatched units before j followed by q[j..], so q[j] sits at the index equal to the
      number of units kept so far; taking it out (when it matches) or passing over it (when it
      does not) gives the live queue for j + 1. */
  lemma CancelStep(q: Queue, o: OrderId, c: ClientId, j: int)
    requires 0 <= j < |q|
    ensures var kept := Unmatched(q[..j], o, c);
            && |kept| < |kept + q[j..]| && (kept + q[j..])[|kept|] == q[j]
            && MatchCount(q[..j + 1], o, c) == MatchCount(q[..j], o, c) + (if Matches(q[j], o, c) then 1 else 0)
            && |Unmatched(q[..j + 1], o, c)| == |kept| + (if Matches(q[j], o, c) then 0 else 1)
            && (Matches(q[j], o, c) ==> RemoveAt(kept + q[j..], |kept|) == Unmatched(q[..j + 1], o, c) + q[j + 1..])
            && (!Matches(q[j], o, c) ==> kept + q[j..] == Unmatched(q[..j + 1], o, c) + q[j + 1..])
  {
    var kept := Unmatched(q[..j], o, c);
    assert q[..j + 1] == q[..j] + [q[j]];
    MatchCountConcat(q[..j], [q[j]], o, c);
    assert [q[j]][1..] == [];
    assert q[j..] == [q[j]] + q[j + 1..];
    if Matches(q[j], o, c) {
      assert Unmatched(q[..j + 1], o, c) == kept;
      assert (kept + q[j..])[..|kept|] == kept;
      assert (kept + q[j..])[|kept| + 1..] == q[j + 1..];
    } else {
      assert Unmatched(q[..j + 1], o, c) == kept + [q[j]];
    }
  }
}
