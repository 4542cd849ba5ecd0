/** The grid the bot keeps around the current price, the in-memory state of
    the bot, and the initial placement of the grid. */
module Grid {
  import opened Records
  import opened Levels
  import opened SnapshotFile
  import opened Exchange

  /** Grid spacing 0.043, in ticks. */
  const GRID_SIZE: Tick := 430
  /** Levels on each side of the reference price. */
  const GRID_COUNT: nat := 10

  /** `min(buy_prices)` for the grid around `price`. */
  function GridLow(price: Tick): Tick
  {
    price - GRID_SIZE * GRID_COUNT
  }

  /** `max(sell_prices)` for the grid around `price`. */
  function GridHigh(price: Tick): Tick
  {
    price + GRID_SIZE * GRID_COUNT
  }

  /** How a step of the main loop ends: normally, by an exception or a
      `continue` that abandons the rest of the iteration, or by a `return`
      that ends the whole run. */
  datatype Outcome = Completed | Abandoned | Stopped

  /** The bot's in-memory state: the mirror `open_orders`, the insertion
      order of its keys, and `statistics`. */
  datatype Book = Book(orders: map<Tick, Order>, keys: seq<Tick>, stats: Stats)

  /** The insertion order lists every price of the mirror exactly once. */
  ghost predicate Indexed(b: Book)
  {
    Enumerates(b.keys, b.orders.Keys)
  }

  /** `open_orders[p] = o` for a price the mirror does not hold yet: the new
      key goes last. */
  function Insert(b: Book, p: Tick, o: Order): (r: Book)
    ensures r.orders.Keys == b.orders.Keys + {p} && r.orders[p] == o && r.stats == b.stats
  {
    b.(orders := b.orders[p := o], keys := b.keys + [p])
  }

  lemma InsertIndexed(b: Book, p: Tick, o: Order)
    requires Indexed(b) && p !in b.orders
    ensures Indexed(Insert(b, p, o))
  {
    EnumeratesAppend(b.keys, b.orders.Keys, p);
  }

  /** The record at `k`, or an empty record when the mirror has none; every
      caller looks up a price the mirror holds. */
  function At(m: map<Tick, Order>, k: Tick): Order
  {
    if k in m then m[k] else map[]
  }

  // ---------------------------------------------------------------------
  // Initial grid

  /** Where a run of placements stands: the state so far, and whether every
      placement so far succeeded. */
  datatype Run = Run(book: Book, ok: bool)

  /** One level of the initial grid. After a failure nothing more is placed;
      a buy level at or below zero is skipped; otherwise the order is placed
      and recorded, and a declined or failed placement ends the run. */
  function PlaceLevel(r: Run, side: string, p: Tick, answer: PlaceAnswer, positiveOnly: bool): Run
  {
    if !r.ok || (positiveOnly && p <= 0) then r
    else
      match PlaceOrder(side, p, answer)
      case Placed(o) => Run(Insert(r.book, p, o), true)
      case _ => Run(r.book, false)
  }

  /** The levels placed one after the other; `answers[i]` is what the
      exchange answers the placement at `levels[i]`. */
  function PlaceLevels(r: Run, side: string, levels: seq<Tick>, answers: seq<PlaceAnswer>, positiveOnly: bool): Run
    requires |answers| == |levels|
  {
    if levels == [] then r
    else
      var n := |levels| - 1;
      PlaceLevel(PlaceLevels(r, side, levels[..n], answers[..n], positiveOnly), side, levels[n], answers[n], positiveOnly)
  }

  /** The initial grid: every positive buy level, then every sell level, the
      sells only when all buys succeeded. */
  function InitialGrid(b: Book, price: Tick, buyAnswers: seq<PlaceAnswer>, sellAnswers: seq<PlaceAnswer>): Run
    requires |buyAnswers| == GRID_COUNT && |sellAnswers| == GRID_COUNT
  {
    var buys := PlaceLevels(Run(b, true), BUY, BuyLevels(price, GRID_SIZE, GRID_COUNT), buyAnswers, true);
    PlaceLevels(buys, SELL, SellLevels(price, GRID_SIZE, GRID_COUNT), sellAnswers, false)
  }

  /** The placements after one more level. */
  lemma PlaceLevelsTake(r: Run, side: string, levels: seq<Tick>, answers: seq<PlaceAnswer>, positiveOnly: bool, i: nat)
    requires |answers| == |levels| && i < |levels|
    ensures PlaceLevels(r, side, levels[..i + 1], answers[..i + 1], positiveOnly)
         == PlaceLevel(PlaceLevels(r, side, levels[..i], answers[..i], positiveOnly), side, levels[i], answers[i], positiveOnly)
  {
    assert levels[..i + 1][..i] == levels[..i] && answers[..i + 1][..i] == answers[..i];
  }

  /** A record `place_order` returned for an order of `side` at `p`. */
  predicate PlacedAt(o: Order, p: Tick, side: string)
  {
    Get(o, "side") == Str(side) && Get(o, "price") == Num(p) && Get(o, "status") == Str("open")
  }

  /** Once a placement failed, the later levels change nothing. */
  lemma {:induction false} PlaceLevelsStopped(r: Run, side: string, levels: seq<Tick>, answers: seq<PlaceAnswer>, positiveOnly: bool, i: nat)
    requires |answers| == |levels| && i <= |levels|
    requires !PlaceLevels(r, side, levels[..i], answers[..i], positiveOnly).ok
    ensures PlaceLevels(r, side, levels, answers, positiveOnly) == PlaceLevels(r, side, levels[..i], answers[..i], positiveOnly)
    decreases |levels| - i
  {
    if i < |levels| {
      PlaceLevelsTake(r, side, levels, answers, positiveOnly, i);
      PlaceLevelsStopped(r, side, levels, answers, positiveOnly, i + 1);
    } else {
      assert levels[..i] == levels && answers[..i] == answers;
    }
  }

  /** What placing a run of levels does: the state stays indexed, the
      statistics and every earlier record are untouched, and every new
      price is one of the levels (positive when non-positive levels are
      skipped) holding a fresh open record of the run's side at that price.
      A run that ends well placed every level it did not skip; a run that
      had already failed changes nothing. */
  lemma {:induction false} PlaceLevelsEffect(r: Run, side: string, levels: seq<Tick>, answers: seq<PlaceAnswer>, positiveOnly: bool)
    requires |answers| == |levels| && Indexed(r.book)
    requires Distinct(levels) && forall p :: p in levels ==> p !in r.book.orders
    ensures LevelsPlaced(r, side, levels, positiveOnly, PlaceLevels(r, side, levels, answers, positiveOnly))
  {
    if levels != [] {
      var n := |levels| - 1;
      DistinctInit(levels);
      assert forall p :: p in levels[..n] ==> p in levels;
      PlaceLevelsEffect(r, side, levels[..n], answers[..n], positiveOnly);
      LevelPlaced(r, side, levels, answers[n], positiveOnly, PlaceLevels(r, side, levels[..n], answers[..n], positiveOnly));
    }
  }

  /** What placing `levels` from `r` leaves in `q`: the mirror stays indexed,
      the statistics are untouched, every record stays, every new record is
      an open order of the side at one of the levels (above zero when only
      positive levels are placed), a run that went through placed every
      such level, and a run that had already failed changes nothing. */
  ghost predicate LevelsPlaced(r: Run, side: string, levels: seq<Tick>, positiveOnly: bool, q: Run)
  {
    && Indexed(q.book)
    && q.book.stats == r.book.stats
    && (forall p :: p in r.book.orders ==> p in q.book.orders && q.book.orders[p] == r.book.orders[p])
    && (forall p :: p in q.book.orders && p !in r.book.orders ==>
          p in levels && (positiveOnly ==> p > 0) && PlacedAt(q.book.orders[p], p, side))
    && (q.ok ==> r.ok && forall p :: p in levels && (positiveOnly ==> p > 0) ==> p in q.book.orders)
    && (!r.ok ==> q == r)
  }

  /** One more level placed after the earlier ones. */
  lemma LevelPlaced(r: Run, side: string, levels: seq<Tick>, answer: PlaceAnswer, positiveOnly: bool, q0: Run)
    requires |levels| > 0 && Indexed(r.book) && Distinct(levels) && forall p :: p in levels ==> p !in r.book.orders
    requires LevelsPlaced(r, side, levels[..|levels| - 1], positiveOnly, q0)
    ensures LevelsPlaced(r, side, levels, positiveOnly, PlaceLevel(q0, side, levels[|levels| - 1], answer, positiveOnly))
  {
    var n := |levels| - 1;
    var p := levels[n];
    DistinctFresh(levels, n);
    assert p !in r.book.orders && p !in q0.book.orders;
    if q0.ok && !(positiveOnly && p <= 0) {
      match PlaceOrder(side, p, answer)
      case Placed(o) =>
        LevelInserted(r, side, levels, positiveOnly, q0, o);
      case _ =>
        LevelKept(r, side, levels, positiveOnly, q0, false);
    } else {
      LevelKept(r, side, levels, positiveOnly, q0, q0.ok);
    }
  }

  /** A level placed: its record goes into the mirror. */
  lemma LevelInserted(r: Run, side: string, levels: seq<Tick>, positiveOnly: bool, q0: Run, o: Order)
    requires |levels| > 0 && Indexed(r.book)
    requires var p := levels[|levels| - 1];
      && q0.ok && (positiveOnly ==> p > 0) && p !in q0.book.orders && PlacedAt(o, p, side)
    requires LevelsPlaced(r, side, levels[..|levels| - 1], positiveOnly, q0)
    ensures LevelsPlaced(r, side, levels, positiveOnly, Run(Insert(q0.book, levels[|levels| - 1], o), true))
  {
    var n := |levels| - 1;
    InsertIndexed(q0.book, levels[n], o);
    assert forall x :: x in levels ==> x in levels[..n] || x == levels[n];
  }

  /** A level skipped, or a placement that failed: the mirror is unchanged. */
  lemma LevelKept(r: Run, side: string, levels: seq<Tick>, positiveOnly: bool, q0: Run, ok: bool)
    requires |levels| > 0
    requires ok ==> q0.ok && positiveOnly && levels[|levels| - 1] <= 0
    requires LevelsPlaced(r, side, levels[..|levels| - 1], positiveOnly, q0)
    ensures LevelsPlaced(r, side, levels, positiveOnly, Run(q0.book, ok))
  {
    var n := |levels| - 1;
    assert forall x :: x in levels ==> x in levels[..n] || x == levels[n];
  }

  /** The two ladders of the grid around `price` have no repeated level
      and no level in common: every buy lies below `price` and every sell
      above. */
  lemma LaddersApart(price: Tick)
    ensures var buys, sells := BuyLevels(price, GRID_SIZE, GRID_COUNT), SellLevels(price, GRID_SIZE, GRID_COUNT);
      Distinct(buys) && Distinct(sells) && (forall p :: p in buys ==> p < price) && (forall p :: p in sells ==> p > price)
  {
    LadderShape(price, GRID_SIZE, GRID_COUNT);
  }

  /** The outcome of the initial grid on an empty mirror: a complete grid
      holds exactly the positive buy levels and all sell levels, each with an
      open record of its side at its price, and the statistics unchanged. */
  lemma InitialGridEffect(price: Tick, stats: Stats, buyAnswers: seq<PlaceAnswer>, sellAnswers: seq<PlaceAnswer>)
    requires |buyAnswers| == GRID_COUNT && |sellAnswers| == GRID_COUNT
    ensures var q := InitialGrid(Book(map[], [], stats), price, buyAnswers, sellAnswers);
      && Indexed(q.book) && q.book.stats == stats
      && (forall p :: p in q.book.orders ==>
            (p in PositiveBuys(price) && PlacedAt(q.book.orders[p], p, BUY))
            || (p in SellLevels(price, GRID_SIZE, GRID_COUNT) && PlacedAt(q.book.orders[p], p, SELL)))
      && (q.ok ==> q.book.orders.Keys == PositiveBuys(price) + Elems(SellLevels(price, GRID_SIZE, GRID_COUNT)))
  {
    var sells := SellLevels(price, GRID_SIZE, GRID_COUNT);
    LaddersApart(price);
    var r1 := InitialBuys(price, stats, buyAnswers);
    PlaceLevelsEffect(r1, SELL, sells, sellAnswers, false);
  }

  /** The buy half of the initial grid, on an empty mirror. */
  lemma InitialBuys(price: Tick, stats: Stats, buyAnswers: seq<PlaceAnswer>) returns (r1: Run)
    requires |buyAnswers| == GRID_COUNT
    ensures r1 == PlaceLevels(Run(Book(map[], [], stats), true), BUY, BuyLevels(price, GRID_SIZE, GRID_COUNT), buyAnswers, true)
    ensures Indexed(r1.book) && r1.book.stats == stats
    ensures forall p :: p in r1.book.orders ==> p in PositiveBuys(price) && PlacedAt(r1.book.orders[p], p, BUY)
    ensures r1.ok ==> r1.book.orders.Keys == PositiveBuys(price)
  {
    var buys := BuyLevels(price, GRID_SIZE, GRID_COUNT);
    LaddersApart(price);
    r1 := PlaceLevels(Run(Book(map[], [], stats), true), BUY, buys, buyAnswers, true);
    PlaceLevelsEffect(Run(Book(map[], [], stats), true), BUY, buys, buyAnswers, true);
  }

  /** The buy levels of the grid around `price` that the bot places. */
  function PositiveBuys(price: Tick): (r: set<Tick>)
    ensures forall p :: p in r <==> p in BuyLevels(price, GRID_SIZE, GRID_COUNT) && p > 0
  {
    set p | p in BuyLevels(price, GRID_SIZE, GRID_COUNT) && p > 0
  }
}
