/** The body of the range worker's `adjust_grid_range`: the replacement of
    each cancelled order, the loops that balance the number of buys and
    sells, and the trim of the orders above MAX_ORDERS. */
module WorkerAdjust {
  import opened Records
  import opened Levels
  import opened Grid
  import opened WorkerOrders

  /** `MAX_ORDERS = GRID_COUNT * 2`. */
  const MAX_ORDERS: nat := GRID_COUNT * 2

  /** A new order the worker keeps in `new_buy_orders` or
      `new_sell_orders`: its id and price (the side is the list's). */
  datatype NewOrder = NewOrder(id: string, price: Tick)

  /** What the exchange answers a replacement order: a response with a
      string id and a numeric price, or anything else (the call raised, the
      response lacked a field or had the wrong types), which adds nothing. */
  datatype Reply = Rejected | Accepted(id: string, price: Tick)

  /** The prices of a list of new orders. */
  function Prices(placed: seq<NewOrder>): (r: seq<Tick>)
    ensures |r| == |placed| && forall j :: 0 <= j < |placed| ==> r[j] == placed[j].price
  {
    seq(|placed|, j requires 0 <= j < |placed| => placed[j].price)
  }

  /** Level `k` of a side: `round(P - GRID_SIZE * k, 4)` for buys,
      `round(P + GRID_SIZE * k, 4)` for sells. */
  function Level(side: string, price: Tick, k: int): Tick
  {
    if side == BUY then price - GRID_SIZE * k else price + GRID_SIZE * k
  }

  // ---------------------------------------------------------------------
  // Replacement of the cancelled orders

  /** The first open order with id `id`, if any. */
  function FindById(orders: seq<VenueOrder>, id: string): (r: Option<VenueOrder>)
    ensures r.Some? ==> r.value in orders && r.value.id == id
    ensures r.Some? ==> exists k :: 0 <= k < |orders| && orders[k] == r.value && forall j :: 0 <= j < k ==> orders[j].id != id
    ensures r.None? ==> forall o :: o in orders ==> o.id != id
  {
    if orders == [] then None
    else if orders[0].id == id then Some(orders[0])
    else
      var r := FindById(orders[1..], id);
      assert r.Some? ==> exists k :: 0 <= k < |orders| && orders[k] == r.value && forall j :: 0 <= j < k ==> orders[j].id != id by {
        if r.Some? {
          var k :| 0 <= k < |orders[1..]| && orders[1..][k] == r.value && forall j :: 0 <= j < k ==> orders[1..][j].id != id;
          assert orders[k + 1] == r.value;
          forall j | 0 <= j < k + 1 ensures orders[j].id != id {
            if j > 0 {
              assert orders[j] == orders[1..][j - 1];
            }
          }
        }
      }
      r
  }

  /** The new orders so far, and the prices the accepted calls asked for. */
  datatype Replacing = Replacing(newBuys: seq<NewOrder>, newSells: seq<NewOrder>, buyAsks: seq<Tick>, sellAsks: seq<Tick>)

  /** One cancelled id: an id no open order has is skipped; a buy is
      replaced by a buy at the next buy level counted from the new buys so
      far, a sell likewise; an accepted reply is recorded with the price the
      exchange reports. */
  function ReplaceOne(s: Replacing, id: string, orders: seq<VenueOrder>, price: Tick, reply: Reply): Replacing
  {
    match FindById(orders, id)
    case None => s
    case Some(o) =>
      if o.side == BUY then
        (match reply
         case Accepted(rid, rp) =>
           s.(newBuys := s.newBuys + [NewOrder(rid, rp)], buyAsks := s.buyAsks + [Level(BUY, price, |s.newBuys| + 1)])
         case Rejected => s)
      else if o.side == SELL then
        (match reply
         case Accepted(rid, rp) =>
           s.(newSells := s.newSells + [NewOrder(rid, rp)], sellAsks := s.sellAsks + [Level(SELL, price, |s.newSells| + 1)])
         case Rejected => s)
      else s
  }

  /** The replacement loop over the cancelled ids; `replies[i]` answers the
      order placed for `canceled[i]`. */
  function Replace(canceled: seq<string>, orders: seq<VenueOrder>, price: Tick, replies: seq<Reply>): Replacing
    requires |replies| == |canceled|
  {
    if canceled == [] then Replacing([], [], [], [])
    else
      var n := |canceled| - 1;
      ReplaceOne(Replace(canceled[..n], orders, price, replies[..n]), canceled[n], orders, price, replies[n])
  }

  /** `o` answers the replacement of some cancelled id whose open order
      has side `side`. */
  predicate Answered(canceled: seq<string>, orders: seq<VenueOrder>, replies: seq<Reply>, o: NewOrder, side: string)
    requires |replies| == |canceled|
  {
    exists i :: 0 <= i < |canceled| && replies[i] == Accepted(o.id, o.price)
      && FindById(orders, canceled[i]).Some? && FindById(orders, canceled[i]).value.side == side
  }

  /** The new orders of one side. */
  function Side(r: Replacing, side: string): seq<NewOrder>
  {
    if side == BUY then r.newBuys else r.newSells
  }

  /** The k-th new buy was asked for at `P - GRID_SIZE * k` and the k-th new
      sell at `P + GRID_SIZE * k`; every new order comes from an accepted
      reply to a cancelled id whose open order has that side; and there is
      at most one new order per cancelled id. */
  lemma ReplaceLevels(canceled: seq<string>, orders: seq<VenueOrder>, price: Tick, replies: seq<Reply>)
    requires |replies| == |canceled|
    ensures var r := Replace(canceled, orders, price, replies);
      && r.buyAsks == BuyLevels(price, GRID_SIZE, |r.newBuys|)
      && r.sellAsks == SellLevels(price, GRID_SIZE, |r.newSells|)
      && |r.newBuys| + |r.newSells| <= |canceled|
      && (forall k :: 0 <= k < |r.newBuys| ==> Answered(canceled, orders, replies, r.newBuys[k], BUY))
      && (forall k :: 0 <= k < |r.newSells| ==> Answered(canceled, orders, replies, r.newSells[k], SELL))
  {
    ReplaceAsks(canceled, orders, price, replies);
    ReplaceAnswered(canceled, orders, price, replies, BUY);
    ReplaceAnswered(canceled, orders, price, replies, SELL);
  }

  /** The asks and the count part of `ReplaceLevels`. */
  lemma {:induction false} ReplaceAsks(canceled: seq<string>, orders: seq<VenueOrder>, price: Tick, replies: seq<Reply>)
    requires |replies| == |canceled|
    ensures var r := Replace(canceled, orders, price, replies);
      && r.buyAsks == BuyLevels(price, GRID_SIZE, |r.newBuys|)
      && r.sellAsks == SellLevels(price, GRID_SIZE, |r.newSells|)
      && |r.newBuys| + |r.newSells| <= |canceled|
  {
    if canceled != [] {
      var n := |canceled| - 1;
      ReplaceAsks(canceled[..n], orders, price, replies[..n]);
      AsksSnoc(price, Replace(canceled[..n], orders, price, replies[..n]), Replace(canceled, orders, price, replies));
    }
  }

  /** One cancelled id adds at most one order to a side, and only an
      accepted reply to an id whose open order has that side. */
  lemma ReplaceStep(canceled: seq<string>, orders: seq<VenueOrder>, price: Tick, replies: seq<Reply>, side: string)
    requires |replies| == |canceled| && canceled != [] && (side == BUY || side == SELL)
    ensures var n := |canceled| - 1;
      var q, r := Replace(canceled[..n], orders, price, replies[..n]), Replace(canceled, orders, price, replies);
      || Side(r, side) == Side(q, side)
      || (&& replies[n].Accepted?
          && Side(r, side) == Side(q, side) + [NewOrder(replies[n].id, replies[n].price)]
          && FindById(orders, canceled[n]).Some? && FindById(orders, canceled[n]).value.side == side)
  {
  }

  /** The provenance part of `ReplaceLevels`, one side at a time. */
  lemma {:induction false} ReplaceAnswered(canceled: seq<string>, orders: seq<VenueOrder>, price: Tick, replies: seq<Reply>, side: string)
    requires |replies| == |canceled| && (side == BUY || side == SELL)
    ensures var placed := Side(Replace(canceled, orders, price, replies), side);
      forall k :: 0 <= k < |placed| ==> Answered(canceled, orders, replies, placed[k], side)
  {
    if canceled != [] {
      var n := |canceled| - 1;
      ReplaceAnswered(canceled[..n], orders, price, replies[..n], side);
      ReplaceStep(canceled, orders, price, replies, side);
      var q := Side(Replace(canceled[..n], orders, price, replies[..n]), side);
      var r := Side(Replace(canceled, orders, price, replies), side);
      forall k | 0 <= k < |r| ensures Answered(canceled, orders, replies, r[k], side) {
        if k < |q| {
          assert r[k] == q[k];
          AnsweredPrefix(canceled, orders, replies, n, q[k], side);
        } else {
          assert replies[n] == Accepted(r[k].id, r[k].price);
        }
      }
    }
  }

  lemma AnsweredPrefix(canceled: seq<string>, orders: seq<VenueOrder>, replies: seq<Reply>, n: nat, o: NewOrder, side: string)
    requires |replies| == |canceled| && n <= |canceled|
    requires Answered(canceled[..n], orders, replies[..n], o, side)
    ensures Answered(canceled, orders, replies, o, side)
  {
    var i :| 0 <= i < n && replies[..n][i] == Accepted(o.id, o.price)
      && FindById(orders, canceled[..n][i]).Some? && FindById(orders, canceled[..n][i]).value.side == side;
    assert replies[i] == replies[..n][i] && canceled[i] == canceled[..n][i];
  }

  /** One more accepted order of a side extends that side's asks by its
      next level. */
  lemma AsksSnoc(price: Tick, q: Replacing, r: Replacing)
    requires q.buyAsks == BuyLevels(price, GRID_SIZE, |q.newBuys|)
    requires q.sellAsks == SellLevels(price, GRID_SIZE, |q.newSells|)
    requires (r.newBuys, r.buyAsks) == (q.newBuys, q.buyAsks)
          || (|r.newBuys| == |q.newBuys| + 1 && r.buyAsks == q.buyAsks + [Level(BUY, price, |q.newBuys| + 1)])
    requires (r.newSells, r.sellAsks) == (q.newSells, q.sellAsks)
          || (|r.newSells| == |q.newSells| + 1 && r.sellAsks == q.sellAsks + [Level(SELL, price, |q.newSells| + 1)])
    ensures r.buyAsks == BuyLevels(price, GRID_SIZE, |r.newBuys|)
    ensures r.sellAsks == SellLevels(price, GRID_SIZE, |r.newSells|)
  {
  }

  /** The replacement loop. */
  method ReplaceCanceled(canceled: seq<string>, orders: seq<VenueOrder>, price: Tick, replies: seq<Reply>)
    returns (newBuys: seq<NewOrder>, newSells: seq<NewOrder>)
    requires |replies| == |canceled|
    ensures newBuys == Replace(canceled, orders, price, replies).newBuys
    ensures newSells == Replace(canceled, orders, price, replies).newSells
  {
    newBuys, newSells := [], [];
    ghost var buyAsks: seq<Tick>, sellAsks: seq<Tick> := [], [];
    var i := 0;
    while i < |canceled|
      invariant 0 <= i <= |canceled|
      invariant Replacing(newBuys, newSells, buyAsks, sellAsks) == Replace(canceled[..i], orders, price, replies[..i])
    {
      assert canceled[..i + 1][..i] == canceled[..i] && replies[..i + 1][..i] == replies[..i];
      var details := FindById(orders, canceled[i]);
      if details.Some? {
        if details.value.side == BUY {
          if replies[i].Accepted? {
            buyAsks := buyAsks + [Level(BUY, price, |newBuys| + 1)];
            newBuys := newBuys + [NewOrder(replies[i].id, replies[i].price)];
          }
        } else if details.value.side == SELL {
          if replies[i].Accepted? {
            sellAsks := sellAsks + [Level(SELL, price, |newSells| + 1)];
            newSells := newSells + [NewOrder(replies[i].id, replies[i].price)];
          }
        }
      }
      i := i + 1;
    }
    assert canceled[..i] == canceled && replies[..i] == replies;
  }

  // ---------------------------------------------------------------------
  // Balance

  /** Where one balance loop ends: the side's new orders, and whether it
      ended with a `break`. */
  datatype Balancing = Balancing(placed: seq<NewOrder>, broke: bool)

  /** One balance loop, as it is evidently meant to run: while the side
      (`exch` on the exchange, `placed` new) has fewer orders than `target`,
      an order goes to the side's next level; a level the side already
      holds, or a failed placement, ends the loop. `answers[k]` answers the
      order at the side's level `k + 1`. */
  function Balance(exch: seq<Tick>, placed: seq<NewOrder>, target: int, side: string, price: Tick, answers: seq<Option<string>>): (r: Balancing)
    requires target <= |answers|
    ensures |placed| <= |r.placed| && r.placed[..|placed|] == placed
    decreases target - |exch| - |placed|
  {
    var n := |exch| + |placed|;
    if n >= target then Balancing(placed, false)
    else
      var p := Level(side, price, n + 1);
      if p in exch || p in Prices(placed) then Balancing(placed, true)
      else
        match answers[n]
        case Some(id) =>
          var r := Balance(exch, placed + [NewOrder(id, p)], target, side, price, answers);
          assert (placed + [NewOrder(id, p)])[..|placed|] == placed;
          r
        case None => Balancing(placed, true)
  }

  /** A balance loop that does not break brings its side up to the target
      (and never past it); each order it adds sits at the side's next level
      and at a price the side did not hold. */
  lemma {:induction false} BalanceEffect(exch: seq<Tick>, placed: seq<NewOrder>, target: int, side: string, price: Tick, answers: seq<Option<string>>)
    requires target <= |answers|
    ensures var r := Balance(exch, placed, target, side, price, answers);
      && (|exch| + |placed| >= target ==> r == Balancing(placed, false))
      && (|exch| + |placed| < target ==> |exch| + |r.placed| <= target)
      && (!r.broke && |exch| + |placed| < target ==> |exch| + |r.placed| == target)
      && (forall j :: |placed| <= j < |r.placed| ==>
            && r.placed[j].price == Level(side, price, |exch| + j + 1)
            && r.placed[j].price !in exch
            && r.placed[j].price !in Prices(r.placed[..j]))
    decreases target - |exch| - |placed|
  {
    var n := |exch| + |placed|;
    if n < target {
      var p := Level(side, price, n + 1);
      if !(p in exch || p in Prices(placed)) && answers[n].Some? {
        var f1 := placed + [NewOrder(answers[n].value, p)];
        BalanceEffect(exch, f1, target, side, price, answers);
        var r := Balance(exch, f1, target, side, price, answers);
        assert r.placed[..|placed|] == placed by {
          assert r.placed[..|f1|] == f1;
          assert r.placed[..|placed|] == r.placed[..|f1|][..|placed|];
        }
        assert r.placed[|placed|] == f1[|placed|] by {
          assert r.placed[..|f1|] == f1;
        }
        assert Prices(r.placed[..|placed|]) == Prices(placed);
      }
    }
  }

  /** The two balance loops, buys first. When neither breaks, the worker
      ends with as many buys as sells. */
  lemma Balanced(buys: seq<Tick>, sells: seq<Tick>, newBuys: seq<NewOrder>, newSells: seq<NewOrder>, price: Tick,
                 buyAnswers: seq<Option<string>>, sellAnswers: seq<Option<string>>)
    requires |sells| + |newSells| <= |buyAnswers|
    requires var b := Balance(buys, newBuys, |sells| + |newSells|, BUY, price, buyAnswers);
      |buys| + |b.placed| <= |sellAnswers|
    ensures var b := Balance(buys, newBuys, |sells| + |newSells|, BUY, price, buyAnswers);
      var s := Balance(sells, newSells, |buys| + |b.placed|, SELL, price, sellAnswers);
      !b.broke && !s.broke ==> |buys| + |b.placed| == |sells| + |s.placed|
  {
    var b := Balance(buys, newBuys, |sells| + |newSells|, BUY, price, buyAnswers);
    BalanceEffect(buys, newBuys, |sells| + |newSells|, BUY, price, buyAnswers);
    BalanceEffect(sells, newSells, |buys| + |b.placed|, SELL, price, sellAnswers);
  }

  /** How a balance loop as written ends: by an exception, by spinning
      forever, or normally. */
  datatype Written = Raises | Spins | Ends(b: Balancing)

  /** The balance loop as written: its duplicate test subscripts every
      element of the side's exchange list, which holds bare prices, so it
      raises as soon as the loop is entered with that list non-empty; and a
      level already among the new orders places nothing and ends nothing,
      so the loop spins. */
  function BalanceAsWritten(exch: seq<Tick>, placed: seq<NewOrder>, target: int, side: string, price: Tick, answers: seq<Option<string>>): Written
    requires target <= |answers|
    decreases target - |exch| - |placed|
  {
    var n := |exch| + |placed|;
    if n >= target then Ends(Balancing(placed, false))
    else if exch != [] then Raises
    else
      var p := Level(side, price, n + 1);
      if p in Prices(placed) then Spins
      else
        match answers[n]
        case Some(id) => BalanceAsWritten(exch, placed + [NewOrder(id, p)], target, side, price, answers)
        case None => Ends(Balancing(placed, true))
  }

  /** The loop as written raises whenever it is entered and the side has an
      order on the exchange; with no order of the side on the exchange it
      either spins or ends as the corrected loop does. */
  lemma {:induction false} BalanceAsWrittenAgrees(exch: seq<Tick>, placed: seq<NewOrder>, target: int, side: string, price: Tick, answers: seq<Option<string>>)
    requires target <= |answers|
    ensures exch != [] && |exch| + |placed| < target ==> BalanceAsWritten(exch, placed, target, side, price, answers) == Raises
    ensures exch == [] ==>
      var w := BalanceAsWritten(exch, placed, target, side, price, answers);
      w == Spins || w == Ends(Balance(exch, placed, target, side, price, answers))
    decreases target - |exch| - |placed|
  {
    var n := |exch| + |placed|;
    if exch == [] && n < target {
      var p := Level(side, price, n + 1);
      if p !in Prices(placed) && answers[n].Some? {
        BalanceAsWrittenAgrees(exch, placed + [NewOrder(answers[n].value, p)], target, side, price, answers);
      }
    }
  }

  /** The input that shows it: one buy on the exchange, two sells, no new
      orders. The loop as written raises before placing anything; the
      corrected loop places the missing buy at the second buy level. */
  lemma BalanceFindingExample()
    ensures BalanceAsWritten([995700], [], 2, BUY, 1000000, [None, Some("b2")]) == Raises
    ensures Balance([995700], [], 2, BUY, 1000000, [None, Some("b2")]) == Balancing([NewOrder("b2", 999140)], false)
  {
    assert Level(BUY, 1000000, 2) == 999140;
    assert Prices([]) == [];
    assert Balance([995700], [NewOrder("b2", 999140)], 2, BUY, 1000000, [None, Some("b2")]) == Balancing([NewOrder("b2", 999140)], false);
  }

  /** One balance loop, corrected. */
  method BalanceSide(exch: seq<Tick>, placed0: seq<NewOrder>, target: int, side: string, price: Tick, answers: seq<Option<string>>)
    returns (placed: seq<NewOrder>, broke: bool)
    requires target <= |answers|
    ensures Balancing(placed, broke) == Balance(exch, placed0, target, side, price, answers)
  {
    placed := placed0;
    while |exch| + |placed| < target
      invariant Balance(exch, placed, target, side, price, answers) == Balance(exch, placed0, target, side, price, answers)
      decreases target - |exch| - |placed|
    {
      var n := |exch| + |placed|;
      var p := Level(side, price, n + 1);
      if p in exch || p in Prices(placed) {
        return placed, true;
      }
      if answers[n].None? {
        return placed, true;
      }
      placed := placed + [NewOrder(answers[n].value, p)];
    }
    return placed, false;
  }

  // ---------------------------------------------------------------------
  // Excess trim

  /** Where the trim stands: the new buys and sells left, and the ids whose
      cancellation was asked for, in order. */
  datatype Trimmed = Trimmed(newBuys: seq<NewOrder>, newSells: seq<NewOrder>, canceled: seq<string>)

  /** One round of the trim: the last new order of the side with strictly
      more new orders is taken off and its cancellation asked for; when both
      sides have as many, nothing happens. The outcome of the cancel call
      changes nothing. */
  function TrimRound(t: Trimmed): (r: Trimmed)
    ensures |r.newBuys| + |r.newSells| + |r.canceled| == |t.newBuys| + |t.newSells| + |t.canceled|
  {
    if t.newBuys != [] && |t.newBuys| > |t.newSells| then
      var n := |t.newBuys| - 1;
      Trimmed(t.newBuys[..n], t.newSells, t.canceled + [t.newBuys[n].id])
    else if t.newSells != [] && |t.newSells| > |t.newBuys| then
      var n := |t.newSells| - 1;
      Trimmed(t.newBuys, t.newSells[..n], t.canceled + [t.newSells[n].id])
    else t
  }

  /** `excess` rounds of the trim. */
  function Trim(t: Trimmed, excess: nat): Trimmed
    decreases excess
  {
    if excess == 0 then t else Trim(TrimRound(t), excess - 1)
  }

  function Min(a: int, b: int): int
  {
    if a <= b then a else b
  }

  /** When the new buys are at least as many as the new sells, the trim
      takes `min(excess, difference)` buys off the end, leaves the sells
      alone, and cancels exactly the buys it took, last first: never an
      order that was on the exchange before the run. */
  lemma {:induction false} TrimBuys(t: Trimmed, excess: nat)
    requires |t.newBuys| >= |t.newSells|
    decreases excess
    ensures BuysTrimmed(t, excess)
  {
    if excess > 0 && |t.newBuys| > |t.newSells| {
      TrimBuys(TrimRound(t), excess - 1);
      BuysRound(t, excess);
    } else if excess > 0 {
      TrimBuys(t, excess - 1);
      EvenRound(t, excess);
    } else {
      TakeNone(t);
    }
  }

  /** The same for the sells, when they are at least as many as the buys. */
  lemma {:induction false} TrimSells(t: Trimmed, excess: nat)
    requires |t.newSells| >= |t.newBuys|
    decreases excess
    ensures SellsTrimmed(t, excess)
  {
    if excess > 0 && |t.newSells| > |t.newBuys| {
      TrimSells(TrimRound(t), excess - 1);
      SellsRound(t, excess);
    } else if excess > 0 {
      TrimSells(t, excess - 1);
      EvenRound(t, excess);
    } else {
      TakeNone(t);
    }
  }

  /** `excess` rounds take `min(excess, difference)` buys off the end and
      ask for their cancellation, last first. */
  predicate BuysTrimmed(t: Trimmed, excess: nat)
  {
    var k := Min(excess, |t.newBuys| - |t.newSells|);
    0 <= k <= |t.newBuys|
    && Trim(t, excess) == Trimmed(t.newBuys[..|t.newBuys| - k], t.newSells, t.canceled + IdsLastFirst(t.newBuys[|t.newBuys| - k..]))
  }

  /** `excess` rounds take `min(excess, difference)` sells off the end. */
  predicate SellsTrimmed(t: Trimmed, excess: nat)
  {
    var k := Min(excess, |t.newSells| - |t.newBuys|);
    0 <= k <= |t.newSells|
    && Trim(t, excess) == Trimmed(t.newBuys, t.newSells[..|t.newSells| - k], t.canceled + IdsLastFirst(t.newSells[|t.newSells| - k..]))
  }

  lemma BuysRound(t: Trimmed, excess: nat)
    requires excess > 0 && |t.newBuys| > |t.newSells|
    requires BuysTrimmed(TrimRound(t), excess - 1)
    ensures BuysTrimmed(t, excess)
  {
    var u := TrimRound(t);
    assert u == Trimmed(t.newBuys[..|t.newBuys| - 1], t.newSells, t.canceled + [t.newBuys[|t.newBuys| - 1].id]);
    var j := Min(excess - 1, |u.newBuys| - |u.newSells|);
    PopBuy(t, j, u, Trim(u, excess - 1));
    assert Min(excess, |t.newBuys| - |t.newSells|) == j + 1;
  }

  lemma SellsRound(t: Trimmed, excess: nat)
    requires excess > 0 && |t.newSells| > |t.newBuys|
    requires SellsTrimmed(TrimRound(t), excess - 1)
    ensures SellsTrimmed(t, excess)
  {
    var u := TrimRound(t);
    assert u == Trimmed(t.newBuys, t.newSells[..|t.newSells| - 1], t.canceled + [t.newSells[|t.newSells| - 1].id]);
    var j := Min(excess - 1, |u.newSells| - |u.newBuys|);
    PopSell(t, j, u, Trim(u, excess - 1));
    assert Min(excess, |t.newSells| - |t.newBuys|) == j + 1;
  }

  /** With as many new buys as new sells a round changes nothing. */
  lemma EvenRound(t: Trimmed, excess: nat)
    requires excess > 0 && |t.newBuys| == |t.newSells|
    ensures Trim(t, excess) == Trim(t, excess - 1)
  {
    assert TrimRound(t) == t;
  }

  /** A round that pops a buy, followed by `j` more pops, pops `j + 1`. */
  lemma PopBuy(t: Trimmed, j: nat, u: Trimmed, w: Trimmed)
    requires j < |t.newBuys|
    requires u == Trimmed(t.newBuys[..|t.newBuys| - 1], t.newSells, t.canceled + [t.newBuys[|t.newBuys| - 1].id])
    requires w == Trimmed(u.newBuys[..|u.newBuys| - j], u.newSells, u.canceled + IdsLastFirst(u.newBuys[|u.newBuys| - j..]))
    ensures w == Trimmed(t.newBuys[..|t.newBuys| - (j + 1)], t.newSells, t.canceled + IdsLastFirst(t.newBuys[|t.newBuys| - (j + 1)..]))
  {
    var s := t.newBuys;
    TakeLast(s, j, w.newBuys, IdsLastFirst(u.newBuys[|u.newBuys| - j..]));
    assert (t.canceled + [s[|s| - 1].id]) + IdsLastFirst(u.newBuys[|u.newBuys| - j..])
        == t.canceled + ([s[|s| - 1].id] + IdsLastFirst(u.newBuys[|u.newBuys| - j..]));
  }

  /** A round that pops a sell, followed by `j` more pops, pops `j + 1`. */
  lemma PopSell(t: Trimmed, j: nat, u: Trimmed, w: Trimmed)
    requires j < |t.newSells|
    requires u == Trimmed(t.newBuys, t.newSells[..|t.newSells| - 1], t.canceled + [t.newSells[|t.newSells| - 1].id])
    requires w == Trimmed(u.newBuys, u.newSells[..|u.newSells| - j], u.canceled + IdsLastFirst(u.newSells[|u.newSells| - j..]))
    ensures w == Trimmed(t.newBuys, t.newSells[..|t.newSells| - (j + 1)], t.canceled + IdsLastFirst(t.newSells[|t.newSells| - (j + 1)..]))
  {
    var s := t.newSells;
    TakeLast(s, j, w.newSells, IdsLastFirst(u.newSells[|u.newSells| - j..]));
    assert (t.canceled + [s[|s| - 1].id]) + IdsLastFirst(u.newSells[|u.newSells| - j..])
        == t.canceled + ([s[|s| - 1].id] + IdsLastFirst(u.newSells[|u.newSells| - j..]));
  }

  /** Taking `j + 1` orders off the end is taking the last one, then `j`
      more off what is left: the ids come last first. */
  lemma TakeLast(s: seq<NewOrder>, j: nat, rest: seq<NewOrder>, ids: seq<string>)
    requires j < |s|
    requires var init := s[..|s| - 1]; rest == init[..|init| - j] && ids == IdsLastFirst(init[|init| - j..])
    ensures rest == s[..|s| - (j + 1)] && [s[|s| - 1].id] + ids == IdsLastFirst(s[|s| - (j + 1)..])
  {
    var t := s[|s| - (j + 1)..];
    assert t[..|t| - 1] == s[..|s| - 1][|s| - 1 - j..];
  }

  lemma TakeNone(t: Trimmed)
    ensures |t.newBuys| >= |t.newSells| ==> BuysTrimmed(t, 0)
    ensures |t.newSells| >= |t.newBuys| ==> SellsTrimmed(t, 0)
  {
    assert t.newBuys[|t.newBuys|..] == [] && t.newSells[|t.newSells|..] == [];
    assert t.canceled + [] == t.canceled;
  }

  /** The ids of `s`, last first. */
  function IdsLastFirst(s: seq<NewOrder>): (r: seq<string>)
    ensures |r| == |s|
  {
    if s == [] then [] else [s[|s| - 1].id] + IdsLastFirst(s[..|s| - 1])
  }

  /** The excess-trim loop. */
  method TrimExcess(newBuys0: seq<NewOrder>, newSells0: seq<NewOrder>, excess0: nat)
    returns (newBuys: seq<NewOrder>, newSells: seq<NewOrder>, canceled: seq<string>)
    ensures Trimmed(newBuys, newSells, canceled) == Trim(Trimmed(newBuys0, newSells0, []), excess0)
  {
    newBuys, newSells, canceled := newBuys0, newSells0, [];
    var excess := excess0;
    while excess > 0
      invariant Trim(Trimmed(newBuys, newSells, canceled), excess) == Trim(Trimmed(newBuys0, newSells0, []), excess0)
    {
      if newBuys != [] && |newBuys| > |newSells| {
        var last := newBuys[|newBuys| - 1];
        newBuys := newBuys[..|newBuys| - 1];
        canceled := canceled + [last.id];
      } else if newSells != [] && |newSells| > |newBuys| {
        var last := newSells[|newSells| - 1];
        newSells := newSells[..|newSells| - 1];
        canceled := canceled + [last.id];
      }
      excess := excess - 1;
    }
  }

  // ---------------------------------------------------------------------
  // One run of the worker

  /** How a run of the worker ends: no open order on the exchange, nothing
      outside the grid, or the orders it cancelled, the new orders it keeps
      and the ids the trim cancelled. */
  datatype RangeRun =
    | NoOrders
    | InRange
    | Adjusted(toCancel: seq<VenueOrder>, canceled: seq<string>, newBuys: seq<NewOrder>, newSells: seq<NewOrder>, trimmed: seq<string>)

  /** At most one new order per cancelled id. */
  lemma ReplaceCount(canceled: seq<string>, orders: seq<VenueOrder>, price: Tick, replies: seq<Reply>)
    requires |replies| == |canceled|
    ensures var r := Replace(canceled, orders, price, replies);
      |r.newBuys| + |r.newSells| <= |canceled|
  {
    ReplaceAsks(canceled, orders, price, replies);
  }

  /** A balance loop ends at or below its target, or leaves the side alone
      when it is already there. */
  lemma BalanceCount(exch: seq<Tick>, placed: seq<NewOrder>, target: int, side: string, price: Tick, answers: seq<Option<string>>)
    requires target <= |answers|
    ensures var r := Balance(exch, placed, target, side, price, answers);
      && (|exch| + |placed| >= target ==> r.placed == placed)
      && (|exch| + |placed| < target ==> |exch| + |r.placed| <= target)
  {
    BalanceEffect(exch, placed, target, side, price, answers);
  }

  /** The second balance loop's target stays within the answers given: the
      first loop either stops at its own target or leaves its side as it
      was. */
  lemma SecondTarget(buys: nat, sells: nat, newBuys: nat, newSells: nat, placed: nat, bound: nat)
    requires buys + newBuys <= bound && sells + newSells <= bound
    requires buys + newBuys < sells + newSells ==> buys + placed <= sells + newSells
    requires buys + newBuys >= sells + newSells ==> placed == newBuys
    ensures buys + placed <= bound
  {
  }

  /** The replacement and the two balance loops, once the cancel calls are
      made: the new buys and the new sells they end with. `canceled` lists
      the ids whose cancellation went through. */
  function BalancedSides(orders: seq<VenueOrder>, price: Tick, canceled: seq<string>, replies: seq<Reply>,
                         buyAnswers: seq<Option<string>>, sellAnswers: seq<Option<string>>): (seq<NewOrder>, seq<NewOrder>)
    requires |replies| == |canceled| <= 2
    requires |buyAnswers| >= |orders| + 2 && |sellAnswers| >= |orders| + 2
  {
    var rep := Replace(canceled, orders, price, replies);
    var buys, sells := PricesOf(orders, BUY), PricesOf(orders, SELL);
    ReplaceCount(canceled, orders, price, replies);
    var b := Balance(buys, rep.newBuys, |sells| + |rep.newSells|, BUY, price, buyAnswers);
    BalanceCount(buys, rep.newBuys, |sells| + |rep.newSells|, BUY, price, buyAnswers);
    SecondTarget(|buys|, |sells|, |rep.newBuys|, |rep.newSells|, |b.placed|, |orders| + 2);
    var s := Balance(sells, rep.newSells, |buys| + |b.placed|, SELL, price, sellAnswers);
    (b.placed, s.placed)
  }

  /** How many orders the trim takes off when `total` orders are open. */
  function Excess(total: int): nat
  {
    if total > MAX_ORDERS then total - MAX_ORDERS else 0
  }

  /** Replacement, balance and trim: the trim runs once per order above
      MAX_ORDERS, counting the exchange's buys and sells and the new ones. */
  function Rebalanced(orders: seq<VenueOrder>, price: Tick, canceled: seq<string>, replies: seq<Reply>,
                      buyAnswers: seq<Option<string>>, sellAnswers: seq<Option<string>>): Trimmed
    requires |replies| == |canceled| <= 2
    requires |buyAnswers| >= |orders| + 2 && |sellAnswers| >= |orders| + 2
  {
    var sides := BalancedSides(orders, price, canceled, replies, buyAnswers, sellAnswers);
    var total := |PricesOf(orders, BUY)| + |PricesOf(orders, SELL)| + |sides.0| + |sides.1|;
    Trim(Trimmed(sides.0, sides.1, []), Excess(total))
  }

  /** A run of `adjust_grid_range` once the open orders and the price are
      fetched. `cancelRaised[i]` says whether cancelling the i-th chosen
      order raised, `replies[i]` answers the replacement for the i-th
      cancelled id, and `buyAnswers[k]`/`sellAnswers[k]` answer a balance
      order at level `k + 1`. The balance loops are the corrected ones. */
  function AdjustRange(orders: seq<VenueOrder>, price: Tick, cancelRaised: seq<bool>, replies: seq<Reply>,
                       buyAnswers: seq<Option<string>>, sellAnswers: seq<Option<string>>): RangeRun
    requires |cancelRaised| == 2 && |replies| == 2
    requires |buyAnswers| >= |orders| + 2 && |sellAnswers| >= |orders| + 2
  {
    if orders == [] then NoOrders
    else
      var toCancel := OrdersToCancel(orders, price);
      if toCancel == [] then InRange
      else
        var canceled := CancelledIds(toCancel, cancelRaised[..|toCancel|]);
        var t := Rebalanced(orders, price, canceled, replies[..|canceled|], buyAnswers, sellAnswers);
        Adjusted(toCancel, canceled, t.newBuys, t.newSells, t.canceled)
  }

  /** What a run promises: it does nothing without open orders or without
      an order outside the grid; otherwise it chooses at most two orders,
      all outside the grid, and reports only ids of chosen orders whose
      cancel call went through. */
  lemma AdjustRangeEffect(orders: seq<VenueOrder>, price: Tick, cancelRaised: seq<bool>, replies: seq<Reply>,
                          buyAnswers: seq<Option<string>>, sellAnswers: seq<Option<string>>)
    requires |cancelRaised| == 2 && |replies| == 2
    requires |buyAnswers| >= |orders| + 2 && |sellAnswers| >= |orders| + 2
    ensures var run := AdjustRange(orders, price, cancelRaised, replies, buyAnswers, sellAnswers);
      && (run == NoOrders <==> orders == [])
      && (run == InRange <==> orders != [] && OrdersToCancel(orders, price) == [])
      && (run.Adjusted? ==>
            && |run.toCancel| <= 2
            && (forall o :: o in run.toCancel ==> o in orders && (o.price < GridLow(price) || o.price > GridHigh(price)))
            && (forall id :: id in run.canceled ==> exists o :: o in run.toCancel && o.id == id))
  {
    AdjustRangeShape(orders, price, cancelRaised, replies, buyAnswers, sellAnswers);
    if orders != [] && OrdersToCancel(orders, price) != [] {
      var toCancel := OrdersToCancel(orders, price);
      OrdersToCancelBounds(orders, price);
      CancelledIdsMembers(toCancel, cancelRaised[..|toCancel|]);
    }
  }

  /** Which way a run goes, and what it chose and cancelled. */
  lemma AdjustRangeShape(orders: seq<VenueOrder>, price: Tick, cancelRaised: seq<bool>, replies: seq<Reply>,
                         buyAnswers: seq<Option<string>>, sellAnswers: seq<Option<string>>)
    requires |cancelRaised| == 2 && |replies| == 2
    requires |buyAnswers| >= |orders| + 2 && |sellAnswers| >= |orders| + 2
    ensures var run := AdjustRange(orders, price, cancelRaised, replies, buyAnswers, sellAnswers);
      && (run == NoOrders <==> orders == [])
      && (run == InRange <==> orders != [] && OrdersToCancel(orders, price) == [])
      && (run.Adjusted? ==>
            && orders != []
            && run.toCancel == OrdersToCancel(orders, price)
            && run.canceled == CancelledIds(run.toCancel, cancelRaised[..|run.toCancel|]))
  {
  }

  /** Each balance loop's target stays within its answers, and
      `BalancedSides` is where the two loops end. */
  lemma SidesFacts(orders: seq<VenueOrder>, price: Tick, canceled: seq<string>, replies: seq<Reply>,
                   buyAnswers: seq<Option<string>>, sellAnswers: seq<Option<string>>)
    requires |replies| == |canceled| <= 2
    requires |buyAnswers| >= |orders| + 2 && |sellAnswers| >= |orders| + 2
    ensures var rep := Replace(canceled, orders, price, replies);
      var buys, sells := PricesOf(orders, BUY), PricesOf(orders, SELL);
      && |sells| + |rep.newSells| <= |buyAnswers|
      && var b := Balance(buys, rep.newBuys, |sells| + |rep.newSells|, BUY, price, buyAnswers);
      && |buys| + |b.placed| <= |sellAnswers|
      && BalancedSides(orders, price, canceled, replies, buyAnswers, sellAnswers)
         == (b.placed, Balance(sells, rep.newSells, |buys| + |b.placed|, SELL, price, sellAnswers).placed)
  {
    var rep := Replace(canceled, orders, price, replies);
    var buys, sells := PricesOf(orders, BUY), PricesOf(orders, SELL);
    ReplaceCount(canceled, orders, price, replies);
    var b := Balance(buys, rep.newBuys, |sells| + |rep.newSells|, BUY, price, buyAnswers);
    BalanceCount(buys, rep.newBuys, |sells| + |rep.newSells|, BUY, price, buyAnswers);
    SecondTarget(|buys|, |sells|, |rep.newBuys|, |rep.newSells|, |b.placed|, |orders| + 2);
  }

  /** `Rebalanced` trims whatever the balance loops end with. */
  lemma RebalancedOf(orders: seq<VenueOrder>, price: Tick, canceled: seq<string>, replies: seq<Reply>,
                     buyAnswers: seq<Option<string>>, sellAnswers: seq<Option<string>>, newBuys: seq<NewOrder>, newSells: seq<NewOrder>)
    requires |replies| == |canceled| <= 2
    requires |buyAnswers| >= |orders| + 2 && |sellAnswers| >= |orders| + 2
    requires BalancedSides(orders, price, canceled, replies, buyAnswers, sellAnswers) == (newBuys, newSells)
    ensures Rebalanced(orders, price, canceled, replies, buyAnswers, sellAnswers)
         == Trim(Trimmed(newBuys, newSells, []), Excess(|PricesOf(orders, BUY)| + |PricesOf(orders, SELL)| + |newBuys| + |newSells|))
  {
  }

  /** `adjust_grid_range` after the fetches. */
  method AdjustGridRange(orders: seq<VenueOrder>, price: Tick, cancelRaised: seq<bool>, replies: seq<Reply>,
                         buyAnswers: seq<Option<string>>, sellAnswers: seq<Option<string>>)
    returns (run: RangeRun)
    requires |cancelRaised| == 2 && |replies| == 2
    requires |buyAnswers| >= |orders| + 2 && |sellAnswers| >= |orders| + 2
    ensures run == AdjustRange(orders, price, cancelRaised, replies, buyAnswers, sellAnswers)
  {
    if orders == [] {
      return NoOrders;
    }
    var toCancel := OrdersToCancel(orders, price);
    if toCancel == [] {
      return InRange;
    }
    var canceled := CancelOrdersOutsideRange(toCancel, cancelRaised[..|toCancel|]);
    var t := Rebalance(orders, price, canceled, replies[..|canceled|], buyAnswers, sellAnswers);
    return Adjusted(toCancel, canceled, t.newBuys, t.newSells, t.canceled);
  }

  /** The replacement loop, the balance loops and the trim. */
  method Rebalance(orders: seq<VenueOrder>, price: Tick, canceled: seq<string>, replies: seq<Reply>,
                   buyAnswers: seq<Option<string>>, sellAnswers: seq<Option<string>>)
    returns (t: Trimmed)
    requires |replies| == |canceled| <= 2
    requires |buyAnswers| >= |orders| + 2 && |sellAnswers| >= |orders| + 2
    ensures t == Rebalanced(orders, price, canceled, replies, buyAnswers, sellAnswers)
  {
    var newBuys, newSells := BalanceBoth(orders, price, canceled, replies, buyAnswers, sellAnswers);
    var excess := Excess(|PricesOf(orders, BUY)| + |PricesOf(orders, SELL)| + |newBuys| + |newSells|);
    RebalancedOf(orders, price, canceled, replies, buyAnswers, sellAnswers, newBuys, newSells);
    var trimmed;
    newBuys, newSells, trimmed := TrimExcess(newBuys, newSells, excess);
    return Trimmed(newBuys, newSells, trimmed);
  }

  /** The replacement loop and the two balance loops. */
  method BalanceBoth(orders: seq<VenueOrder>, price: Tick, canceled: seq<string>, replies: seq<Reply>,
                     buyAnswers: seq<Option<string>>, sellAnswers: seq<Option<string>>)
    returns (newBuys: seq<NewOrder>, newSells: seq<NewOrder>)
    requires |replies| == |canceled| <= 2
    requires |buyAnswers| >= |orders| + 2 && |sellAnswers| >= |orders| + 2
    ensures (newBuys, newSells) == BalancedSides(orders, price, canceled, replies, buyAnswers, sellAnswers)
  {
    newBuys, newSells := ReplaceCanceled(canceled, orders, price, replies);
    var buys, sells := PricesOf(orders, BUY), PricesOf(orders, SELL);
    SidesFacts(orders, price, canceled, replies, buyAnswers, sellAnswers);
    var broke;
    newBuys, broke := BalanceSide(buys, newBuys, |sells| + |newSells|, BUY, price, buyAnswers);
    newSells, broke := BalanceSide(sells, newSells, |buys| + |newBuys|, SELL, price, sellAnswers);
  }
}
