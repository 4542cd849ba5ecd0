/** Grid replenishment, from the body of the main loop: while a side has
    fewer than GRID_COUNT orders, one more order is placed one grid step
    beyond that side's outermost price. */
module Replenishment {
  import opened Records
  import opened SnapshotFile
  import opened Exchange
  import opened Grid

  /** Where one replenishment loop stands: the state, the prices of the side
      so far (`current_buy_orders` or `current_sell_orders`), and whether a
      failed placement ended the run. */
  datatype Fillup = Fillup(book: Book, current: seq<Tick>, stopped: bool)

  /** The outermost price of a side: its lowest buy or highest sell, or the
      outermost level of the grid around `price` when the side is empty. */
  function Edge(current: seq<Tick>, side: string, price: Tick): Tick
  {
    if side == BUY then (if current == [] then GridLow(price) else Lowest(current))
    else (if current == [] then GridHigh(price) else Highest(current))
  }

  /** One grid step away from the reference price: down for buys, up for
      sells. */
  function Outward(side: string): int
  {
    if side == BUY then -GRID_SIZE else GRID_SIZE
  }

  /** The price the next order of a side goes to. */
  function Beyond(current: seq<Tick>, side: string, price: Tick): Tick
  {
    Edge(current, side, price) + Outward(side)
  }

  /** The statistics after `k` more placements of `side`. */
  function Bumped(st: Stats, side: string, k: nat): Stats
  {
    if side == BUY then st.(totalBuys := st.totalBuys + k) else st.(totalSells := st.totalSells + k)
  }

  /** One replenishment loop: while the side has fewer than GRID_COUNT
      prices, the next price beyond it is placed and counted; a next price
      the mirror already holds, or a buy price at or below zero, ends the
      loop, and a failed placement ends the run. The placement that brings
      the side from `k` prices to `k + 1` is answered by `answers[k]`. */
  function FillSide(b: Book, current: seq<Tick>, side: string, price: Tick, answers: seq<PlaceAnswer>): (r: Fillup)
    requires |answers| == GRID_COUNT
    ensures |current| <= |r.current|
    ensures |current| < GRID_COUNT ==> |r.current| <= GRID_COUNT
    decreases GRID_COUNT - |current|
  {
    if |current| >= GRID_COUNT then Fillup(b, current, false)
    else
      var p := Beyond(current, side, price);
      if (side == BUY && p <= 0) || p in b.orders then Fillup(b, current, false)
      else
        match PlaceOrder(side, p, answers[|current|])
        case Placed(o) => FillSide(Insert(b, p, o).(stats := Bumped(b.stats, side, 1)), current + [p], side, price, answers)
        case _ => Fillup(b, current, true)
  }

  /** The prices of the mirror whose record has side `side`, in mirror
      order. */
  function SidePrices(b: Book, side: string): seq<Tick>
  {
    Picked(b.keys, SideFlags(b, side))
  }

  /** Which entries of the mirror have side `side`. */
  function SideFlags(b: Book, side: string): (r: seq<bool>)
    ensures |r| == |b.keys|
    ensures forall i :: 0 <= i < |b.keys| ==> (r[i] <==> Get(At(b.orders, b.keys[i]), "side") == Str(side))
  {
    seq(|b.keys|, i requires 0 <= i < |b.keys| => Get(At(b.orders, b.keys[i]), "side") == Str(side))
  }

  /** Every record of the mirror has a side; otherwise listing the sides
      raises. */
  predicate AllSided(b: Book)
  {
    forall p | p in b.orders :: "side" in b.orders[p]
  }

  /** The side listing of the mirror has no repeated price and holds exactly
      the prices whose record has that side, like the `list(set(...))` it
      models. */
  lemma SidePricesMembers(b: Book, side: string)
    requires Indexed(b)
    ensures Distinct(SidePrices(b, side))
    ensures forall p :: p in SidePrices(b, side) <==> p in b.orders && Get(b.orders[p], "side") == Str(side)
  {
    var flags := SideFlags(b, side);
    PickedDistinct(b.keys, flags);
    PickedMembers(b.keys, flags);
    forall p | p in b.orders && Get(b.orders[p], "side") == Str(side) ensures p in SidePrices(b, side) {
      var i :| 0 <= i < |b.keys| && b.keys[i] == p;
    }
  }

  /** The two side listings at the head of replenishment. `sided` is false
      when some record has no side, where the listing raises. */
  method SideLists(b: Book) returns (buys: seq<Tick>, sells: seq<Tick>, sided: bool)
    requires Indexed(b)
    ensures sided <==> AllSided(b)
    ensures sided ==> buys == SidePrices(b, BUY) && sells == SidePrices(b, SELL)
  {
    buys, sells := [], [];
    var i := 0;
    while i < |b.keys|
      invariant 0 <= i <= |b.keys|
      invariant buys == Picked(b.keys[..i], SideFlags(b, BUY)[..i])
      invariant sells == Picked(b.keys[..i], SideFlags(b, SELL)[..i])
      invariant forall j :: 0 <= j < i ==> "side" in b.orders[b.keys[j]]
    {
      var k := b.keys[i];
      assert k in b.keys;
      var o := b.orders[k];
      if "side" !in o {
        return [], [], false;
      }
      PickedTake(b.keys, SideFlags(b, BUY), i);
      PickedTake(b.keys, SideFlags(b, SELL), i);
      if o["side"] == Str(BUY) {
        buys := buys + [k];
      } else if o["side"] == Str(SELL) {
        sells := sells + [k];
      }
      i := i + 1;
    }
    assert b.keys[..i] == b.keys;
    assert SideFlags(b, BUY)[..i] == SideFlags(b, BUY) && SideFlags(b, SELL)[..i] == SideFlags(b, SELL);
    forall p | p in b.orders ensures "side" in b.orders[p] {
      var j :| 0 <= j < |b.keys| && b.keys[j] == p;
    }
    return buys, sells, true;
  }

  /** Replenishment: listing the sides raises on a record without one;
      a mirror of at least 2 * GRID_COUNT entries is left alone; otherwise
      the buys are filled, then the sells, the sells counted from the
      mirror as it was before the buys. */
  function Replenish(b: Book, price: Tick, buyAnswers: seq<PlaceAnswer>, sellAnswers: seq<PlaceAnswer>): (Book, Outcome)
    requires |buyAnswers| == GRID_COUNT && |sellAnswers| == GRID_COUNT
  {
    if !AllSided(b) then (b, Abandoned)
    else if |b.orders| >= 2 * GRID_COUNT then (b, Completed)
    else
      var buys := FillSide(b, SidePrices(b, BUY), BUY, price, buyAnswers);
      if buys.stopped then (buys.book, Stopped)
      else
        var sells := FillSide(buys.book, SidePrices(b, SELL), SELL, price, sellAnswers);
        (sells.book, if sells.stopped then Stopped else Completed)
  }

  /** `n` prices stepping outward from `e`, one grid step apart. */
  function Extension(e: Tick, side: string, n: nat): (r: seq<Tick>)
    ensures |r| == n
  {
    seq(n, j => e + Outward(side) * (j + 1))
  }

  /** After a price one step beyond a side, that price is the new edge. */
  lemma EdgeSnoc(current: seq<Tick>, side: string, price: Tick)
    ensures Edge(current + [Beyond(current, side, price)], side, price) == Beyond(current, side, price)
  {
    var x := Beyond(current, side, price);
    var s := current + [x];
    assert x in s;
    assert forall y :: y in s ==> y in current || y == x;
    if side == BUY {
      assert Lowest(s) <= x;
    } else {
      assert Highest(s) >= x;
    }
  }

  /** The first step of an extension, then the rest. */
  lemma ExtensionCons(e: Tick, side: string, n: nat)
    ensures [e + Outward(side)] + Extension(e + Outward(side), side, n) == Extension(e, side, n + 1)
  {
    var l, r := [e + Outward(side)] + Extension(e + Outward(side), side, n), Extension(e, side, n + 1);
    forall j | 0 <= j < n + 1 ensures l[j] == r[j] {
      if j > 0 {
        assert l[j] == Extension(e + Outward(side), side, n)[j - 1];
      }
    }
  }

  /** The loop goes on from the next price when that price is free (and
      above zero for a buy) and the exchange creates the order there. */
  predicate Goes(b: Book, current: seq<Tick>, side: string, price: Tick, answers: seq<PlaceAnswer>)
    requires |answers| == GRID_COUNT
  {
    var p := Beyond(current, side, price);
    && |current| < GRID_COUNT
    && !((side == BUY && p <= 0) || p in b.orders)
    && PlaceOrder(side, p, answers[|current|]).Placed?
  }

  /** The state after the loop placed the next price. */
  function Next(b: Book, current: seq<Tick>, side: string, price: Tick, answers: seq<PlaceAnswer>): Book
    requires |answers| == GRID_COUNT && Goes(b, current, side, price, answers)
  {
    var p := Beyond(current, side, price);
    Insert(b, p, PlaceOrder(side, p, answers[|current|]).order).(stats := Bumped(b.stats, side, 1))
  }

  /** One turn of the loop. */
  lemma FillSideTurn(b: Book, current: seq<Tick>, side: string, price: Tick, answers: seq<PlaceAnswer>)
    requires |answers| == GRID_COUNT
    ensures var r := FillSide(b, current, side, price, answers);
      if Goes(b, current, side, price, answers)
      then r == FillSide(Next(b, current, side, price, answers), current + [Beyond(current, side, price)], side, price, answers)
      else r.book == b && r.current == current
  {
  }

  /** The state after the next placement: the price goes to the end of the
      mirror's keys, the side's counter goes up by one, and a buy price is
      above zero. */
  lemma NextFacts(b: Book, current: seq<Tick>, side: string, price: Tick, answers: seq<PlaceAnswer>)
    requires |answers| == GRID_COUNT && Goes(b, current, side, price, answers)
    ensures var p, b1 := Beyond(current, side, price), Next(b, current, side, price, answers);
      && b1.keys == b.keys + [p]
      && b1.stats == Bumped(b.stats, side, 1)
      && (side == BUY ==> p > 0)
  {
  }

  /** What a loop that started from `b` and `current` appended when it ended
      in `r`: new prices of the side at the end of both the side's prices and
      the mirror's keys, every buy among them above zero, and the side's
      counter up by their number. */
  predicate Appended(b: Book, current: seq<Tick>, side: string, r: Fillup)
  {
    && |current| <= |r.current|
    && var added := r.current[|current|..];
      && r.current == current + added && r.book.keys == b.keys + added
      && (side == BUY ==> forall p :: p in added ==> p > 0)
      && r.book.stats == Bumped(b.stats, side, |added|)
  }

  /** What one replenishment loop appends. */
  lemma {:induction false} FillSideAppends(b: Book, current: seq<Tick>, side: string, price: Tick, answers: seq<PlaceAnswer>)
    requires |answers| == GRID_COUNT
    ensures Appended(b, current, side, FillSide(b, current, side, price, answers))
    decreases GRID_COUNT - |current|
  {
    FillSideTurn(b, current, side, price, answers);
    if Goes(b, current, side, price, answers) {
      var p := Beyond(current, side, price);
      var b1 := Next(b, current, side, price, answers);
      FillSideAppends(b1, current + [p], side, price, answers);
      NextFacts(b, current, side, price, answers);
      AppendedCons(b, current, side, p, b1, FillSide(b1, current + [p], side, price, answers));
    } else {
      AppendedNone(b, current, side);
    }
  }

  lemma AppendedNone(b: Book, current: seq<Tick>, side: string)
    ensures Appended(b, current, side, Fillup(b, current, false))
    ensures Appended(b, current, side, Fillup(b, current, true))
  {
    assert current[|current|..] == [];
  }

  /** A price placed in front of what the later turns append. */
  lemma AppendedCons(b: Book, current: seq<Tick>, side: string, p: Tick, b1: Book, r: Fillup)
    requires b1.keys == b.keys + [p] && b1.stats == Bumped(b.stats, side, 1) && (side == BUY ==> p > 0)
    requires Appended(b1, current + [p], side, r)
    ensures Appended(b, current, side, r)
  {
    var rest := r.current[|current| + 1..];
    assert r.current == (current + [p]) + rest;
    assert r.current[|current|..] == [p] + rest;
    BumpedAgain(b.stats, side, |rest|);
  }

  lemma BumpedAgain(st: Stats, side: string, k: nat)
    ensures Bumped(Bumped(st, side, 1), side, k) == Bumped(st, side, k + 1)
  {
  }

  /** The prices a loop added after `current`, ending at `full`, step
      outward from the side's edge one grid step at a time. */
  predicate Steps(current: seq<Tick>, full: seq<Tick>, side: string, price: Tick)
  {
    |current| <= |full| && full[|current|..] == Extension(Edge(current, side, price), side, |full| - |current|)
  }

  /** The new prices of a side step outward from its edge one grid step at a
      time. */
  lemma {:induction false} FillSideSteps(b: Book, current: seq<Tick>, side: string, price: Tick, answers: seq<PlaceAnswer>)
    requires |answers| == GRID_COUNT
    ensures Steps(current, FillSide(b, current, side, price, answers).current, side, price)
    decreases GRID_COUNT - |current|
  {
    FillSideTurn(b, current, side, price, answers);
    if Goes(b, current, side, price, answers) {
      var p := Beyond(current, side, price);
      var b1 := Next(b, current, side, price, answers);
      FillSideSteps(b1, current + [p], side, price, answers);
      FillSideAppends(b1, current + [p], side, price, answers);
      StepsSnoc(current, FillSide(b1, current + [p], side, price, answers).current, side, price);
    } else {
      StepsNone(current, side, price);
    }
  }

  lemma StepsNone(current: seq<Tick>, side: string, price: Tick)
    ensures Steps(current, current, side, price)
  {
    assert current[|current|..] == [];
  }

  /** A price one step beyond a side, followed by steps outward from that
      price, is a run of steps outward from the side's edge. */
  lemma StepsSnoc(current: seq<Tick>, full: seq<Tick>, side: string, price: Tick)
    requires |current| < |full| && full == (current + [Beyond(current, side, price)]) + full[|current| + 1..]
    requires Steps(current + [Beyond(current, side, price)], full, side, price)
    ensures Steps(current, full, side, price)
  {
    var p := Beyond(current, side, price);
    var k := |full| - |current| - 1;
    EdgeSnoc(current, side, price);
    ExtensionCons(Edge(current, side, price), side, k);
    assert full[|current|] == (current + [p])[|current|] == p;
    assert full[|current|..] == [p] + full[|current| + 1..];
  }

  /** One replenishment loop keeps the mirror indexed and every record it
      held; every new price holds an open record of the loop's side. A loop
      that ends without a failure and short of GRID_COUNT ended at a price
      the mirror already holds, or at a buy price at or below zero. */
  lemma {:induction false} FillSideRecords(b: Book, current: seq<Tick>, side: string, price: Tick, answers: seq<PlaceAnswer>)
    requires |answers| == GRID_COUNT && Indexed(b)
    ensures var r := FillSide(b, current, side, price, answers);
      && Indexed(r.book)
      && (forall p :: p in b.orders ==> p in r.book.orders && r.book.orders[p] == b.orders[p])
      && (forall p :: p in r.book.orders && p !in b.orders ==> PlacedAt(r.book.orders[p], p, side))
      && (!r.stopped && |r.current| < GRID_COUNT ==>
            var next := Beyond(r.current, side, price);
            next in r.book.orders || (side == BUY && next <= 0))
    decreases GRID_COUNT - |current|
  {
    if |current| < GRID_COUNT {
      var p := Beyond(current, side, price);
      if !((side == BUY && p <= 0) || p in b.orders) {
        match PlaceOrder(side, p, answers[|current|])
        case Placed(o) =>
          InsertIndexed(b, p, o);
          var b1 := Insert(b, p, o).(stats := Bumped(b.stats, side, 1));
          FillSideRecords(b1, current + [p], side, price, answers);
        case _ =>
      }
    }
  }

  /** A mirror at or above the ceiling is left alone; the ceiling is checked
      once, before both loops, so a full side does not stop the other. */
  lemma ReplenishCeiling(b: Book, price: Tick, buyAnswers: seq<PlaceAnswer>, sellAnswers: seq<PlaceAnswer>)
    requires |buyAnswers| == GRID_COUNT && |sellAnswers| == GRID_COUNT
    ensures |b.orders| >= 2 * GRID_COUNT ==> Replenish(b, price, buyAnswers, sellAnswers).0 == b
    ensures AllSided(b) && |b.orders| < 2 * GRID_COUNT ==>
      var r := Replenish(b, price, buyAnswers, sellAnswers).0;
      var nb, ns := |SidePrices(b, BUY)|, |SidePrices(b, SELL)|;
      |r.keys| <= |b.keys| + (if nb < GRID_COUNT then GRID_COUNT - nb else 0)
                           + (if ns < GRID_COUNT then GRID_COUNT - ns else 0)
  {
    if AllSided(b) && |b.orders| < 2 * GRID_COUNT {
      var buys := FillSide(b, SidePrices(b, BUY), BUY, price, buyAnswers);
      FillSideAppends(b, SidePrices(b, BUY), BUY, price, buyAnswers);
      FillSideAppends(buys.book, SidePrices(b, SELL), SELL, price, sellAnswers);
    }
  }

  /** Replenishment keeps the mirror indexed, keeps every record, leaves the
      net profit alone, and adds only open records of a side. */
  lemma ReplenishEffect(b: Book, price: Tick, buyAnswers: seq<PlaceAnswer>, sellAnswers: seq<PlaceAnswer>)
    requires |buyAnswers| == GRID_COUNT && |sellAnswers| == GRID_COUNT && Indexed(b)
    ensures var r := Replenish(b, price, buyAnswers, sellAnswers).0;
      && Indexed(r)
      && r.stats.netProfit == b.stats.netProfit
      && (forall p :: p in b.orders ==> p in r.orders && r.orders[p] == b.orders[p])
      && (forall p :: p in r.orders && p !in b.orders ==> PlacedAt(r.orders[p], p, BUY) || PlacedAt(r.orders[p], p, SELL))
  {
    if AllSided(b) && |b.orders| < 2 * GRID_COUNT {
      var buys := FillSide(b, SidePrices(b, BUY), BUY, price, buyAnswers);
      FillSideAppends(b, SidePrices(b, BUY), BUY, price, buyAnswers);
      FillSideRecords(b, SidePrices(b, BUY), BUY, price, buyAnswers);
      FillSideAppends(buys.book, SidePrices(b, SELL), SELL, price, sellAnswers);
      FillSideRecords(buys.book, SidePrices(b, SELL), SELL, price, sellAnswers);
    }
  }
}
