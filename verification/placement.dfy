/** `place_new_orders` of the range worker: one order per grid level the
    existing prices do not hold yet, buys first, never more than
    `max_orders` orders counting the existing ones. */
module WorkerPlacement {
  import opened Records
  import opened Levels
  import opened WorkerOrders

  /** Where the placement stands: the new orders by price, `total_orders`,
      and whether the bound was met, which returns from the function. */
  datatype Placing = Placing(orders: map<Tick, VenueOrder>, total: int, full: bool)

  /** One level: at the bound the function returns; a price already among
      the existing ones is skipped; otherwise the order is created and, when
      the exchange answers with an id, recorded and counted. A failed call
      is neither recorded nor counted. */
  function PlaceStep(s: Placing, side: string, p: Tick, answer: Option<string>, existing: seq<Tick>, maxOrders: int): Placing
  {
    if s.full then s
    else if s.total >= maxOrders then s.(full := true)
    else if p in existing then s
    else
      match answer
      case Some(id) => Placing(s.orders[p := VenueOrder(id, p, side)], s.total + 1, false)
      case None => s
  }

  /** The levels of one side in order; `answers[i]` answers the order at
      `levels[i]`. */
  function PlaceSide(s: Placing, side: string, levels: seq<Tick>, answers: seq<Option<string>>, existing: seq<Tick>, maxOrders: int): Placing
    requires |answers| == |levels|
  {
    if levels == [] then s
    else
      var n := |levels| - 1;
      PlaceStep(PlaceSide(s, side, levels[..n], answers[..n], existing, maxOrders), side, levels[n], answers[n], existing, maxOrders)
  }

  /** The whole placement: every buy level, then every sell level, starting
      from `len(existing_prices)`. */
  function NewOrders(g: GridLevels, buyAnswers: seq<Option<string>>, sellAnswers: seq<Option<string>>, existing: seq<Tick>, maxOrders: int): Placing
    requires |buyAnswers| == |g.buy| && |sellAnswers| == |g.sell|
  {
    var buys := PlaceSide(Placing(map[], |existing|, false), BUY, g.buy, buyAnswers, existing, maxOrders);
    PlaceSide(buys, SELL, g.sell, sellAnswers, existing, maxOrders)
  }

  lemma PlaceSideTake(s: Placing, side: string, levels: seq<Tick>, answers: seq<Option<string>>, existing: seq<Tick>, maxOrders: int, i: nat)
    requires |answers| == |levels| && i < |levels|
    ensures PlaceSide(s, side, levels[..i + 1], answers[..i + 1], existing, maxOrders)
         == PlaceStep(PlaceSide(s, side, levels[..i], answers[..i], existing, maxOrders), side, levels[i], answers[i], existing, maxOrders)
  {
    assert levels[..i + 1][..i] == levels[..i] && answers[..i + 1][..i] == answers[..i];
  }

  /** Once the bound was met, the later levels change nothing. */
  lemma {:induction false} PlaceSideFull(s: Placing, side: string, levels: seq<Tick>, answers: seq<Option<string>>, existing: seq<Tick>, maxOrders: int, i: nat)
    requires |answers| == |levels| && i <= |levels|
    requires PlaceSide(s, side, levels[..i], answers[..i], existing, maxOrders).full
    ensures PlaceSide(s, side, levels, answers, existing, maxOrders) == PlaceSide(s, side, levels[..i], answers[..i], existing, maxOrders)
    decreases |levels| - i
  {
    if i < |levels| {
      PlaceSideTake(s, side, levels, answers, existing, maxOrders, i);
      PlaceSideFull(s, side, levels, answers, existing, maxOrders, i + 1);
    } else {
      assert levels[..i] == levels && answers[..i] == answers;
    }
  }

  /** The counter never passes the bound unless it started past it, every
      recorded order is counted, and every recorded order is an order of
      the side at one of its levels that the existing prices did not hold. */
  lemma {:induction false} PlaceSideEffect(s: Placing, side: string, levels: seq<Tick>, answers: seq<Option<string>>, existing: seq<Tick>, maxOrders: int)
    requires |answers| == |levels|
    ensures var r := PlaceSide(s, side, levels, answers, existing, maxOrders);
      && (s.total <= maxOrders ==> r.total <= maxOrders)
      && (s.total >= maxOrders && !s.full ==> r.orders == s.orders && r.total == s.total)
      && |r.orders| - |s.orders| <= r.total - s.total
      && (s.full ==> r == s)
      && s.orders.Keys <= r.orders.Keys
      && (forall p :: p in r.orders ==>
            (p in s.orders && r.orders[p] == s.orders[p])
            || (p in levels && p !in existing && r.orders[p].side == side && r.orders[p].price == p))
  {
    if levels != [] {
      var n := |levels| - 1;
      PlaceSideEffect(s, side, levels[..n], answers[..n], existing, maxOrders);
      assert forall p :: p in levels[..n] ==> p in levels;
    }
  }

  /** A placement that never met the bound placed every level the existing
      prices did not hold and the exchange accepted: a failed call does not
      stop the loop. */
  lemma {:induction false} PlaceSideComplete(s: Placing, side: string, levels: seq<Tick>, answers: seq<Option<string>>, existing: seq<Tick>, maxOrders: int)
    requires |answers| == |levels|
    ensures var r := PlaceSide(s, side, levels, answers, existing, maxOrders);
      !r.full ==> forall i :: 0 <= i < |levels| && levels[i] !in existing && answers[i].Some? ==> levels[i] in r.orders
  {
    var r := PlaceSide(s, side, levels, answers, existing, maxOrders);
    if levels != [] && !r.full {
      var n := |levels| - 1;
      PlaceSideComplete(s, side, levels[..n], answers[..n], existing, maxOrders);
      var q := PlaceSide(s, side, levels[..n], answers[..n], existing, maxOrders);
      forall i | 0 <= i < |levels| && levels[i] !in existing && answers[i].Some? ensures levels[i] in r.orders {
        if i < n {
          assert levels[..n][i] == levels[i] && answers[..n][i] == answers[i];
          assert levels[i] in q.orders;
        }
      }
    }
  }

  /** What `place_new_orders` promises: the existing prices and the new
      orders together never exceed `max_orders` (and nothing is placed when
      the existing prices already reach it); no new order sits at an
      existing price; and each new order is a buy at a buy level or a sell
      at a sell level. */
  lemma NewOrdersBound(g: GridLevels, buyAnswers: seq<Option<string>>, sellAnswers: seq<Option<string>>, existing: seq<Tick>, maxOrders: int)
    requires |buyAnswers| == |g.buy| && |sellAnswers| == |g.sell|
    ensures var r := NewOrders(g, buyAnswers, sellAnswers, existing, maxOrders);
      && (|existing| <= maxOrders ==> |existing| + |r.orders| <= maxOrders)
      && (|existing| >= maxOrders ==> r.orders == map[])
      && (forall p :: p in r.orders ==>
            (p !in existing && r.orders[p].price == p
             && ((p in g.buy && r.orders[p].side == BUY) || (p in g.sell && r.orders[p].side == SELL))))
  {
    var s0 := Placing(map[], |existing|, false);
    var buys := PlaceSide(s0, BUY, g.buy, buyAnswers, existing, maxOrders);
    PlaceSideEffect(s0, BUY, g.buy, buyAnswers, existing, maxOrders);
    PlaceSideEffect(buys, SELL, g.sell, sellAnswers, existing, maxOrders);
  }

  /** The sells come after the buys: when the bound stopped the buys, no
      sell is placed, and otherwise every accepted buy at a free level is
      among the new orders. */
  lemma NewOrdersBuysFirst(g: GridLevels, buyAnswers: seq<Option<string>>, sellAnswers: seq<Option<string>>, existing: seq<Tick>, maxOrders: int)
    requires |buyAnswers| == |g.buy| && |sellAnswers| == |g.sell|
    ensures var s0 := Placing(map[], |existing|, false);
      var buys := PlaceSide(s0, BUY, g.buy, buyAnswers, existing, maxOrders);
      var r := NewOrders(g, buyAnswers, sellAnswers, existing, maxOrders);
      && (buys.full ==> r == buys)
      && (!buys.full ==> forall i :: 0 <= i < |g.buy| && g.buy[i] !in existing && buyAnswers[i].Some? ==> g.buy[i] in r.orders)
  {
    var s0 := Placing(map[], |existing|, false);
    var buys := PlaceSide(s0, BUY, g.buy, buyAnswers, existing, maxOrders);
    PlaceSideComplete(s0, BUY, g.buy, buyAnswers, existing, maxOrders);
    PlaceSideEffect(buys, SELL, g.sell, sellAnswers, existing, maxOrders);
  }

  /** `place_new_orders`. */
  method PlaceNewOrders(g: GridLevels, buyAnswers: seq<Option<string>>, sellAnswers: seq<Option<string>>, existing: seq<Tick>, maxOrders: int)
    returns (newOrders: map<Tick, VenueOrder>)
    requires |buyAnswers| == |g.buy| && |sellAnswers| == |g.sell|
    ensures newOrders == NewOrders(g, buyAnswers, sellAnswers, existing, maxOrders).orders
  {
    var s := PlaceLevelsLoop(Placing(map[], |existing|, false), BUY, g.buy, buyAnswers, existing, maxOrders);
    if s.full {
      PlaceSideEffect(s, SELL, g.sell, sellAnswers, existing, maxOrders);
      return s.orders;
    }
    s := PlaceLevelsLoop(s, SELL, g.sell, sellAnswers, existing, maxOrders);
    return s.orders;
  }

  /** The inner loop over one side's levels; `full` in the result says the
      function returned. */
  method PlaceLevelsLoop(s0: Placing, side: string, levels: seq<Tick>, answers: seq<Option<string>>, existing: seq<Tick>, maxOrders: int)
    returns (s: Placing)
    requires |answers| == |levels| && !s0.full
    ensures s == PlaceSide(s0, side, levels, answers, existing, maxOrders)
  {
    s := s0;
    var newOrders, total := s0.orders, s0.total;
    var i := 0;
    while i < |levels|
      invariant 0 <= i <= |levels|
      invariant Placing(newOrders, total, false) == PlaceSide(s0, side, levels[..i], answers[..i], existing, maxOrders)
    {
      PlaceSideTake(s0, side, levels, answers, existing, maxOrders, i);
      var price := levels[i];
      if total >= maxOrders {
        PlaceSideFull(s0, side, levels, answers, existing, maxOrders, i + 1);
        return Placing(newOrders, total, true);
      }
      if price !in existing {
        if answers[i].Some? {
          newOrders := newOrders[price := VenueOrder(answers[i].value, price, side)];
          total := total + 1;
        }
      }
      i := i + 1;
    }
    assert levels[..i] == levels && answers[..i] == answers;
    return Placing(newOrders, total, false);
  }
}
