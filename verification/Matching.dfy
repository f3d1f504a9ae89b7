/** The crossing scan of Exchange.limitOrder as a function of the ladder it starts from,
    and what it guarantees: fill accounting, the limit price, price and time priority. */
module Matching {
  import opened Orders
  import opened Ladder

  function Min(a: int, b: int): int
  {
    if a <= b then a else b
  }

  /** The scan is at tick i heading toward limit: a buyer (dir 1) scans up from 0 and stops
      after limit, a seller (dir -1) scans down from the top tick and stops after limit. */
  predicate ScanFrom(n: int, i: int, limit: int, dir: Direction)
  {
    0 <= limit < n && if dir == 1 then 0 <= i <= limit + 1 else limit - 1 <= i < n
  }

  /** The number of ticks the scan has still to visit. */
  function ScanLength(i: int, limit: int, dir: Direction): int
  {
    if dir == 1 then limit + 1 - i else i - limit + 1
  }

  /** Tick t lies on the rest of a scan at i toward limit. */
  predicate Ahead(t: int, i: int, limit: int, dir: Direction)
  {
    if dir == 1 then i <= t <= limit else limit <= t <= i
  }

  /** Tick t comes before tick t' in the scan order of direction dir. */
  predicate Before(t: int, t': int, dir: Direction)
  {
    if dir == 1 then t < t' else t' < t
  }

  /** Outcome of a scan: units left to fill, sum of the ticks of the filled units, the ladder
      after the fills, and the resting units taken, in the order the scan took them. */
  datatype Fill = Fill(left: nat, total: int, book: Book, taken: Queue)

  /** The loop of limitOrder from tick i on, with left units still to fill: an empty tick or one
      whose head unit is on the aggressor's side is passed over; at any other tick the oldest
      min(left, queue length) units are taken, each at that tick's price; the scan stops once
      nothing is left to fill or after the limit tick. */
  function Sweep(b: Book, i: int, limit: int, dir: Direction, left: nat): (f: Fill)
    requires ScanFrom(|b|, i, limit, dir)
    ensures |f.book| == |b| && f.left <= left && |f.taken| == left - f.left
    decreases ScanLength(i, limit, dir)
  {
    if i == limit + dir then Fill(left, 0, b, [])
    else if !Opposite(b[i], dir) then Sweep(b, i + dir, limit, dir, left)
    else
      var k := Min(left, |b[i]|);
      var b' := b[i := b[i][k..]];
      if k == left then Fill(0, k * i, b', b[i][..k])
      else
        var r := Sweep(b', i + dir, limit, dir, left - k);
        Fill(r.left, k * i + r.total, r.book, b[i][..k] + r.taken)
  }

  /** The outcome of a scan that had already taken the units taken, for total ticks, before
      going on with outcome f. */
  function After(total: int, taken: Queue, f: Fill): (r: Fill)
    ensures r.left == f.left && r.book == f.book
  {
    Fill(f.left, total + f.total, f.book, taken + f.taken)
  }

  /** g reports what f reports: the units left, the ticks paid and the units taken, in order. */
  predicate Quotes(g: Fill, f: Fill)
  {
    g.left == f.left && g.total == f.total && g.taken == f.taken
  }

  /** The scan from tick i never looks at a tick behind it: changing such a tick changes no
      more than the ladder the scan leaves. */
  lemma {:induction false} SweepIgnoresBehind(b: Book, i: int, limit: int, dir: Direction, left: nat, j: int, x: Queue)
    requires ScanFrom(|b|, i, limit, dir) && 0 <= j < |b| && !Ahead(j, i, limit, dir)
    ensures Quotes(Sweep(b[j := x], i, limit, dir, left), Sweep(b, i, limit, dir, left))
    decreases ScanLength(i, limit, dir)
  {
    if i != limit + dir {
      assert b[j := x][i] == b[i];
      if !Opposite(b[i], dir) {
        SweepIgnoresBehind(b, i + dir, limit, dir, left, j, x);
      } else {
        var k := Min(left, |b[i]|);
        assert b[j := x][i := b[i][k..]] == b[i := b[i][k..]][j := x];
        if k < left {
          SweepIgnoresBehind(b[i := b[i][k..]], i + dir, limit, dir, left - k, j, x);
        }
      }
    }
  }

  /** A scan with nothing left to fill takes nothing and changes nothing. */
  lemma {:induction false} SweepNothing(b: Book, i: int, limit: int, dir: Direction)
    requires ScanFrom(|b|, i, limit, dir)
    ensures Sweep(b, i, limit, dir, 0) == Fill(0, 0, b, [])
    decreases ScanLength(i, limit, dir)
  {
    if i == limit + dir {
    } else if !Opposite(b[i], dir) {
      SweepNothing(b, i + dir, limit, dir);
    } else {
      assert b[i][0..] == b[i] && b[i][..0] == [];
      assert b[i := b[i][0..]] == b;
    }
  }

  /** The end of the crossing loop, past the limit tick or with nothing left to fill: what is
      done is the whole outcome, and the ladder is the one the scan leaves. */
  lemma ScanOver(b: Book, i: int, limit: int, dir: Direction, left: nat, total: int, taken: Queue, f: Fill)
    requires ScanFrom(|b|, i, limit, dir) && (i == limit + dir || left == 0)
    requires Quotes(After(total, taken, Sweep(b, i, limit, dir, left)), f)
    ensures left == f.left && total == f.total && taken == f.taken
    ensures After(total, taken, Sweep(b, i, limit, dir, left)).book == b
  {
    if i != limit + dir {
      SweepNothing(b, i, limit, dir);
    }
    assert taken + [] == taken;
  }

  /** One opposite tick of the scan: the oldest min(left, queue length) units there are taken at
      that tick's price, and the scan goes on from the next tick with the rest. */
  lemma SweepTake(b: Book, i: int, limit: int, dir: Direction, left: nat, total: int, taken: Queue)
    requires ScanFrom(|b|, i, limit, dir) && i != limit + dir && Opposite(b[i], dir)
    ensures var k := Min(left, |b[i]|);
            After(total, taken, Sweep(b, i, limit, dir, left))
              == After(total + k * i, taken + b[i][..k], Sweep(b[i := b[i][k..]], i + dir, limit, dir, left - k))
  {
    var k := Min(left, |b[i]|);
    var b' := b[i := b[i][k..]];
    var r := Sweep(b', i + dir, limit, dir, left - k);
    if k == left {
      SweepNothing(b', i + dir, limit, dir);
      assert taken + b[i][..k] + [] == taken + b[i][..k];
    } else {
      assert taken + (b[i][..k] + r.taken) == taken + b[i][..k] + r.taken;
    }
  }

  /** One visit of the scan, at tick i. When the tick offers liquidity and something is left
      to fill, k units fill there: the outcome is those fills followed by the scan from the next
      tick over the ladder without them, and the scan from the next tick over the ladder as it
      was reports the same. Otherwise the visit changes nothing. */
  lemma VisitStep(b: Book, i: int, limit: int, dir: Direction, left: nat, total: int, taken: Queue)
    requires ScanFrom(|b|, i, limit, dir) && i != limit + dir
    ensures var g := After(total, taken, Sweep(b, i, limit, dir, left));
            if Opposite(b[i], dir) && left > 0 then
              var k := Min(left, |b[i]|);
              && g == After(total + k * i, taken + b[i][..k], Sweep(b[i := b[i][k..]], i + dir, limit, dir, left - k))
              && Quotes(After(total + k * i, taken + b[i][..k], Sweep(b, i + dir, limit, dir, left - k)), g)
            else g == After(total, taken, Sweep(b, i + dir, limit, dir, left))
  {
    if Opposite(b[i], dir) {
      var k := Min(left, |b[i]|);
      SweepTake(b, i, limit, dir, left, total, taken);
      if left > 0 {
        SweepIgnoresBehind(b, i + dir, limit, dir, left - k, i, b[i][k..]);
      } else {
        assert b[i][0..] == b[i] && b[i][..0] == [] && taken + [] == taken;
        assert b[i := b[i][0..]] == b;
      }
    }
  }

  /** x is the sum of n values, each between lo and hi. */
  predicate Between(x: int, lo: int, hi: int, n: nat)
  {
    lo * n <= x <= hi * n
  }

  lemma BetweenAdd(x: int, y: int, lo: int, hi: int, k: nat, m: nat)
    requires Between(x, lo, hi, k) && Between(y, lo, hi, m)
    ensures Between(x + y, lo, hi, k + m)
  {
    Distrib(lo, k, m);
    Distrib(hi, k, m);
  }

  /** Fill accounting and the limit for a buyer: each filled unit was taken at a tick between the
      start of the scan and the limit, so the total lies between start and limit times the
      number of units filled; in particular a buyer pays at most the limit per unit. */
  lemma SweepBuyBounds(b: Book, i: int, limit: int, left: nat)
    requires ScanFrom(|b|, i, limit, 1)
    ensures var f := Sweep(b, i, limit, 1, left); Between(f.total, i, limit, left - f.left)
  {
    SweepWithin(b, i, limit, 1, left, i, limit);
  }

  /** Fill accounting and the limit for a seller: each filled unit was taken at a tick between
      the limit and the start of the scan, so a seller receives at least the limit per unit. */
  lemma SweepSellBounds(b: Book, i: int, limit: int, left: nat)
    requires ScanFrom(|b|, i, limit, -1)
    ensures var f := Sweep(b, i, limit, -1, left); Between(f.total, limit, i, left - f.left)
  {
    SweepWithin(b, i, limit, -1, left, limit, i);
  }

  /** Every unit the scan fills is filled at a tick it visits; when those ticks all lie in
      [lo, hi], so does the average of what it paid. */
  lemma {:induction false} SweepWithin(b: Book, i: int, limit: int, dir: Direction, left: nat, lo: int, hi: int)
    requires ScanFrom(|b|, i, limit, dir)
    requires if dir == 1 then lo <= i && limit <= hi else lo <= limit && i <= hi
    ensures var f := Sweep(b, i, limit, dir, left); Between(f.total, lo, hi, left - f.left)
    decreases ScanLength(i, limit, dir)
  {
    if i == limit + dir {
    } else if !Opposite(b[i], dir) {
      SweepWithin(b, i + dir, limit, dir, left, lo, hi);
      SkipBetween(b, i, limit, dir, left, lo, hi);
    } else {
      var k := Min(left, |b[i]|);
      SweepWithin(b[i := b[i][k..]], i + dir, limit, dir, left - k, lo, hi);
      TakeBetween(b, i, limit, dir, left, lo, hi);
    }
  }

  /** Passing over a tick that holds nothing to cross leaves the fill as the rest of the scan makes it. */
  lemma SkipBetween(b: Book, i: int, limit: int, dir: Direction, left: nat, lo: int, hi: int)
    requires ScanFrom(|b|, i, limit, dir) && i != limit + dir && !Opposite(b[i], dir)
    requires var r := Sweep(b, i + dir, limit, dir, left); Between(r.total, lo, hi, left - r.left)
    ensures var f := Sweep(b, i, limit, dir, left); Between(f.total, lo, hi, left - f.left)
  {
  }

  /** Taking k units at a tick i inside [lo, hi] adds k * i to the total, which keeps it in range. */
  lemma TakeBetween(b: Book, i: int, limit: int, dir: Direction, left: nat, lo: int, hi: int)
    requires ScanFrom(|b|, i, limit, dir) && i != limit + dir && Opposite(b[i], dir) && lo <= i <= hi
    requires var k := Min(left, |b[i]|); var r := Sweep(b[i := b[i][k..]], i + dir, limit, dir, left - k);
             Between(r.total, lo, hi, left - k - r.left)
    ensures var f := Sweep(b, i, limit, dir, left); Between(f.total, lo, hi, left - f.left)
  {
    var k := Min(left, |b[i]|);
    var r := Sweep(b[i := b[i][k..]], i + dir, limit, dir, left - k);
    SweepTake(b, i, limit, dir, left, 0, []);
    assert Between(k * i, lo, hi, k) by {
      MulLe(lo, i, k);
      MulLe(i, hi, k);
    }
    BetweenAdd(k * i, r.total, lo, hi, k, left - k - r.left);
  }

  lemma MulLe(a: int, b: int, c: nat)
    requires a <= b
    ensures a * c <= b * c && c * a <= c * b
  {
  }

  lemma Distrib(a: int, b: int, c: int)
    ensures a * (b + c) == a * b + a * c && (b + c) * a == b * a + c * a
  {
  }

  /** The units a scan from tick i toward limit can reach: the whole queue of every tick on the
      way whose oldest unit is on the other side. */
  function Liquidity(b: Book, i: int, limit: int, dir: Direction): nat
    requires ScanFrom(|b|, i, limit, dir)
    decreases ScanLength(i, limit, dir)
  {
    if i == limit + dir then 0
    else (if Opposite(b[i], dir) then |b[i]| else 0) + Liquidity(b, i + dir, limit, dir)
  }

  /** What a scan can reach does not depend on ticks it has left behind. */
  lemma {:induction false} LiquidityBehind(b: Book, i: int, limit: int, dir: Direction, j: int, q: Queue)
    requires ScanFrom(|b|, i, limit, dir) && 0 <= j < |b| && !Ahead(j, i, limit, dir)
    ensures Liquidity(b[j := q], i, limit, dir) == Liquidity(b, i, limit, dir)
    decreases ScanLength(i, limit, dir)
  {
    if i != limit + dir {
      assert b[j := q][i] == b[i];
      LiquidityBehind(b, i + dir, limit, dir, j, q);
    }
  }

  /** The scan fills as much as it can reach: everything asked for when the reachable liquidity
      suffices, otherwise all of that liquidity. */
  lemma {:induction false} SweepFillsLiquidity(b: Book, i: int, limit: int, dir: Direction, left: nat)
    requires ScanFrom(|b|, i, limit, dir)
    ensures left - Sweep(b, i, limit, dir, left).left == Min(left, Liquidity(b, i, limit, dir))
    decreases ScanLength(i, limit, dir)
  {
    if i == limit + dir {
    } else if !Opposite(b[i], dir) {
      SweepFillsLiquidity(b, i + dir, limit, dir, left);
    } else {
      var k := Min(left, |b[i]|);
      if k < left {
        LiquidityBehind(b, i + dir, limit, dir, i, b[i][k..]);
        SweepFillsLiquidity(b[i := b[i][k..]], i + dir, limit, dir, left - k);
      }
    }
  }

  /** Number of units resting on the ladder. */
  function Units(b: Book): nat
  {
    if b == [] then 0 else Units(b[..|b| - 1]) + |b[|b| - 1]|
  }

  /** Sum over the resting units of the tick each rests at. */
  function Weight(b: Book): int
  {
    if b == [] then 0 else Weight(b[..|b| - 1]) + (|b| - 1) * |b[|b| - 1]|
  }

  lemma {:induction false} UpdateTick(b: Book, t: int, q: Queue)
    requires 0 <= t < |b|
    ensures Units(b[t := q]) == Units(b) - |b[t]| + |q|
    ensures Weight(b[t := q]) == Weight(b) - t * |b[t]| + t * |q|
    decreases |b|
  {
    var b' := b[t := q];
    if t < |b| - 1 {
      assert b'[..|b'| - 1] == b[..|b| - 1][t := q];
      UpdateTick(b[..|b| - 1], t, q);
    } else {
      assert b'[..|b'| - 1] == b[..|b| - 1];
    }
  }

  /** The scan only moves units off the ladder: it takes exactly the filled count of units, and
      totalPrice is the sum, over the units taken, of the tick each was taken at. */
  lemma SweepConserves(b: Book, i: int, limit: int, dir: Direction, left: nat)
    requires ScanFrom(|b|, i, limit, dir)
    ensures var f := Sweep(b, i, limit, dir, left);
            && Units(b) - Units(f.book) == left - f.left
            && Weight(b) - Weight(f.book) == f.total
  {
    SweepUnits(b, i, limit, dir, left);
    SweepWeight(b, i, limit, dir, left);
  }

  lemma {:induction false} SweepUnits(b: Book, i: int, limit: int, dir: Direction, left: nat)
    requires ScanFrom(|b|, i, limit, dir)
    ensures var f := Sweep(b, i, limit, dir, left); Units(b) - Units(f.book) == left - f.left
    decreases ScanLength(i, limit, dir)
  {
    if i == limit + dir {
    } else if !Opposite(b[i], dir) {
      SweepUnits(b, i + dir, limit, dir, left);
    } else {
      var k := Min(left, |b[i]|);
      SweepTake(b, i, limit, dir, left, 0, []);
      TakeUnits(b, i, k);
      SweepUnits(b[i := b[i][k..]], i + dir, limit, dir, left - k);
    }
  }

  lemma {:induction false} SweepWeight(b: Book, i: int, limit: int, dir: Direction, left: nat)
    requires ScanFrom(|b|, i, limit, dir)
    ensures var f := Sweep(b, i, limit, dir, left); Weight(b) - Weight(f.book) == f.total
    decreases ScanLength(i, limit, dir)
  {
    if i == limit + dir {
    } else if !Opposite(b[i], dir) {
      SweepWeight(b, i + dir, limit, dir, left);
    } else {
      var k := Min(left, |b[i]|);
      SweepTake(b, i, limit, dir, left, 0, []);
      TakeUnits(b, i, k);
      SweepWeight(b[i := b[i][k..]], i + dir, limit, dir, left - k);
    }
  }

  /** Taking the k oldest units of tick i off the ladder removes k units of weight i each. */
  lemma TakeUnits(b: Book, i: int, k: int)
    requires 0 <= i < |b| && 0 <= k <= |b[i]|
    ensures Units(b) - Units(b[i := b[i][k..]]) == k && Weight(b) - Weight(b[i := b[i][k..]]) == k * i
  {
    UpdateTick(b, i, b[i][k..]);
    assert |b[i]| == |b[i][k..]| + k;
    Distrib(i, |b[i][k..]|, k);
  }

  /** x is what remains of queue y once some oldest units are taken. */
  predicate IsSuffix(x: Queue, y: Queue)
  {
    |x| <= |y| && x == y[|y| - |x|..]
  }

  /** The scan's reach at tick t: it leaves the tick untouched when the tick is outside the
      rest of its scan or its head unit is on the aggressor's own side. */
  lemma {:induction false} SweepFrameAt(b: Book, i: int, limit: int, dir: Direction, left: nat, t: int)
    requires ScanFrom(|b|, i, limit, dir) && 0 <= t < |b|
    requires !Ahead(t, i, limit, dir) || !Opposite(b[t], dir)
    ensures Sweep(b, i, limit, dir, left).book[t] == b[t]
    decreases ScanLength(i, limit, dir)
  {
    if i == limit + dir {
      assert Sweep(b, i, limit, dir, left).book == b;
    } else if !Opposite(b[i], dir) {
      assert Sweep(b, i, limit, dir, left) == Sweep(b, i + dir, limit, dir, left);
      SweepFrameAt(b, i + dir, limit, dir, left, t);
    } else {
      var k := Min(left, |b[i]|);
      var b' := b[i := b[i][k..]];
      assert t != i && b'[t] == b[t];
      if k < left {
        var r := Sweep(b', i + dir, limit, dir, left - k);
        assert Sweep(b, i, limit, dir, left).book == r.book;
        SweepFrameAt(b', i + dir, limit, dir, left - k, t);
      } else {
        assert Sweep(b, i, limit, dir, left).book == b';
      }
    }
  }

  /** Time priority at tick t: what the scan leaves of a queue is a suffix of it, so the units
      it takes are always the oldest ones. */
  lemma {:induction false} SweepTakesOldest(b: Book, i: int, limit: int, dir: Direction, left: nat, t: int)
    requires ScanFrom(|b|, i, limit, dir) && 0 <= t < |b|
    ensures IsSuffix(Sweep(b, i, limit, dir, left).book[t], b[t])
    decreases ScanLength(i, limit, dir)
  {
    if i == limit + dir {
      assert Sweep(b, i, limit, dir, left).book == b;
      assert b[t][|b[t]| - |b[t]|..] == b[t];
    } else if !Opposite(b[i], dir) {
      assert Sweep(b, i, limit, dir, left) == Sweep(b, i + dir, limit, dir, left);
      SweepTakesOldest(b, i + dir, limit, dir, left, t);
    } else {
      var k := Min(left, |b[i]|);
      var b' := b[i := b[i][k..]];
      SuffixAt(b, i, k, t);
      if k < left {
        var r := Sweep(b', i + dir, limit, dir, left - k);
        assert Sweep(b, i, limit, dir, left).book == r.book;
        SweepTakesOldest(b', i + dir, limit, dir, left - k, t);
        SuffixTrans(r.book[t], b'[t], b[t]);
      } else {
        assert Sweep(b, i, limit, dir, left).book == b';
      }
    }
  }

  /** Taking the k oldest units of tick i leaves every tick a suffix of what it was. */
  lemma SuffixAt(b: Book, i: int, k: int, t: int)
    requires 0 <= i < |b| && 0 <= k <= |b[i]| && 0 <= t < |b|
    ensures IsSuffix(b[i := b[i][k..]][t], b[t])
  {
    if t == i {
      assert b[i][k..] == b[i][|b[i]| - |b[i][k..]|..];
    } else {
      assert b[t][|b[t]| - |b[t]|..] == b[t];
    }
  }

  lemma SuffixTrans(x: Queue, y: Queue, z: Queue)
    requires IsSuffix(x, y) && IsSuffix(y, z)
    ensures IsSuffix(x, z)
  {
    assert z[|z| - |y|..][|y| - |x|..] == z[|z| - |x|..];
  }

  /** An order that is not completely filled leaves no liquidity at any tick of its scan:
      its remainder cannot cross anything at the price it rests at. */
  lemma {:induction false} SweepLeavesNoCross(b: Book, i: int, limit: int, dir: Direction, left: nat, t: int)
    requires ScanFrom(|b|, i, limit, dir) && 0 <= t < |b| && Ahead(t, i, limit, dir)
    requires Sweep(b, i, limit, dir, left).left > 0
    ensures !Opposite(Sweep(b, i, limit, dir, left).book[t], dir)
    decreases ScanLength(i, limit, dir)
  {
    var f := Sweep(b, i, limit, dir, left);
    if !Opposite(b[i], dir) {
      var r := Sweep(b, i + dir, limit, dir, left);
      assert f.left == r.left && f.book == r.book;
      if t == i {
        SweepFrameAt(b, i + dir, limit, dir, left, t);
      } else {
        SweepLeavesNoCross(b, i + dir, limit, dir, left, t);
      }
    } else {
      var k := Min(left, |b[i]|);
      var b' := b[i := b[i][k..]];
      if k < left {
        var r := Sweep(b', i + dir, limit, dir, left - k);
        assert f.left == r.left && f.book == r.book;
        if t == i {
          SweepFrameAt(b', i + dir, limit, dir, left - k, t);
          assert b'[i] == [];
        } else {
          SweepLeavesNoCross(b', i + dir, limit, dir, left - k, t);
        }
      }
    }
  }

  /** Price priority: when the scan has taken units at tick t', no tick t before t' in the
      scan still offers liquidity; so the aggressor gets every better price before a worse one,
      and the scan takes nothing more once the order is filled. */
  lemma {:induction false} SweepBestFirst(b: Book, i: int, limit: int, dir: Direction, left: nat, t: int, t': int)
    requires ScanFrom(|b|, i, limit, dir) && 0 <= t < |b| && 0 <= t' < |b|
    requires Ahead(t, i, limit, dir) && Before(t, t', dir)
    requires Sweep(b, i, limit, dir, left).book[t'] != b[t']
    ensures !Opposite(Sweep(b, i, limit, dir, left).book[t], dir)
    decreases ScanLength(i, limit, dir)
  {
    var f := Sweep(b, i, limit, dir, left);
    if !Opposite(b[i], dir) {
      var r := Sweep(b, i + dir, limit, dir, left);
      assert f.book == r.book;
      if t == i {
        SweepFrameAt(b, i + dir, limit, dir, left, t);
      } else {
        SweepBestFirst(b, i + dir, limit, dir, left, t, t');
      }
    } else {
      var k := Min(left, |b[i]|);
      var b' := b[i := b[i][k..]];
      if k < left {
        var r := Sweep(b', i + dir, limit, dir, left - k);
        assert f.book == r.book;
        if t == i {
          SweepFrameAt(b', i + dir, limit, dir, left - k, t);
          assert b'[i] == [];
        } else {
          assert b'[t'] == b[t'];
          SweepBestFirst(b', i + dir, limit, dir, left - k, t, t');
        }
      }
    }
  }
}
