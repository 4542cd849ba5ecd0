/** Fill recycling, from the body of the main loop: each filled order is
    counted and replaced by an order of the same side one grid step away,
    on the far side of the fill. */
module Recycling {
  import opened Records
  import opened SnapshotFile
  import opened Exchange
  import opened Grid

  /** What the exchange answers while one fill is recycled: the rounded
      prices of its open orders (`None` when fetching them or converting a
      price raised), and its answers to the placement. */
  datatype Fill = Fill(venue: Option<set<Tick>>, answer: PlaceAnswer)

  /** Where recycling stands: the state so far, and whether it raised. */
  datatype Step = Step(book: Book, raised: bool)

  /** The statistics after a fill of `side`: one more sell or one more buy;
      the profit of a sell is computed and logged but never added. */
  function Counted(st: Stats, side: Value): (r: Stats)
    ensures r.netProfit == st.netProfit
  {
    if side == Str(SELL) then st.(totalSells := st.totalSells + 1)
    else if side == Str(BUY) then st.(totalBuys := st.totalBuys + 1)
    else st
  }

  /** The replacement price: one grid step above a filled buy, one below
      a fill of any other side. */
  function NextPrice(fp: Tick, side: Value): Tick
  {
    if side == Str(BUY) then fp + GRID_SIZE else fp - GRID_SIZE
  }

  /** The replacement lies inside the grid around `price`: a buy at or above
      its lowest level, a sell at or below its highest. Any other side is
      never inside. */
  predicate InGrid(side: Value, np: Tick, price: Tick)
  {
    (side == Str(BUY) && np >= GridLow(price)) || (side == Str(SELL) && np <= GridHigh(price))
  }

  /** Recycling the filled record `o` at price `fp`, which the mirror no
      longer holds. Reading `side`, `amount` or `price` from a record that
      lacks one raises, and so does the profit of a sell whose price or
      amount is not a number. Otherwise the fill is counted, and the
      replacement is placed only when it lies inside the grid, is not a
      price of the mirror, the exchange's open prices could be read, and
      none of them is the replacement price. Only a placed order is
      recorded. */
  function Recycle(b: Book, fp: Tick, o: Order, price: Tick, f: Fill): Step
  {
    if "side" !in o || "amount" !in o || "price" !in o then Step(b, true)
    else if o["side"] == Str(SELL) && !(o["price"].Num? && o["amount"].Num?) then Step(b, true)
    else
      var side := o["side"];
      var counted := b.(stats := Counted(b.stats, side));
      var np := NextPrice(fp, side);
      if !InGrid(side, np, price) || np in b.orders || f.venue.None? || np in f.venue.value then Step(counted, false)
      else
        match PlaceOrder(if side == Str(BUY) then BUY else SELL, np, f.answer)
        case Placed(r) => Step(Insert(counted, np, r), false)
        case _ => Step(counted, false)
  }

  /** Every fill recycled in turn, with the record of each fill taken from
      `before`, the mirror as it stood before the status sweep deleted the
      filled prices; the first fill that raises ends the loop. */
  function RecycleAll(b: Book, filled: seq<Tick>, before: map<Tick, Order>, price: Tick, fills: seq<Fill>): Step
    requires |fills| == |filled|
  {
    if filled == [] then Step(b, false)
    else
      var n := |filled| - 1;
      var s := RecycleAll(b, filled[..n], before, price, fills[..n]);
      if s.raised then s else Recycle(s.book, filled[n], At(before, filled[n]), price, fills[n])
  }

  /** `open_orders.pop(p)` of a price the mirror holds. */
  function Remove(b: Book, p: Tick): Book
  {
    b.(orders := b.orders - {p}, keys := Without(b.keys, {p}))
  }

  /** One fill as the loop is written: the record is popped from the mirror,
      and a fill the mirror does not hold is only logged. */
  function RecycleAsWritten(b: Book, fp: Tick, price: Tick, f: Fill): Step
  {
    if fp in b.orders then Recycle(Remove(b, fp), fp, b.orders[fp], price, f) else Step(b, false)
  }

  /** Every fill in turn, as the loop is written. */
  function RecycleAllAsWritten(b: Book, filled: seq<Tick>, price: Tick, fills: seq<Fill>): Step
    requires |fills| == |filled|
  {
    if filled == [] then Step(b, false)
    else
      var n := |filled| - 1;
      var s := RecycleAllAsWritten(b, filled[..n], price, fills[..n]);
      if s.raised then s else RecycleAsWritten(s.book, filled[n], price, fills[n])
  }

  /** The loop as written does nothing at all when the mirror holds none of
      the filled prices, which is always the case after the status sweep:
      no fill is counted and no replacement is placed. */
  lemma {:induction false} AsWrittenRecyclesNothing(b: Book, filled: seq<Tick>, price: Tick, fills: seq<Fill>)
    requires |fills| == |filled|
    requires forall x :: x in filled ==> x !in b.orders
    ensures RecycleAllAsWritten(b, filled, price, fills) == Step(b, false)
  {
    if filled != [] {
      var n := |filled| - 1;
      assert forall x :: x in filled[..n] ==> x in filled;
      AsWrittenRecyclesNothing(b, filled[..n], price, fills[..n]);
      assert filled[n] in filled;
    }
  }

  /** The recycling after one more fill. */
  lemma RecycleAllTake(b: Book, filled: seq<Tick>, before: map<Tick, Order>, price: Tick, fills: seq<Fill>, i: nat)
    requires |fills| == |filled| && i < |filled|
    ensures var s := RecycleAll(b, filled[..i], before, price, fills[..i]);
      RecycleAll(b, filled[..i + 1], before, price, fills[..i + 1])
      == if s.raised then s else Recycle(s.book, filled[i], At(before, filled[i]), price, fills[i])
  {
    assert filled[..i + 1][..i] == filled[..i] && fills[..i + 1][..i] == fills[..i];
  }

  /** Once a fill raised, the later fills change nothing. */
  lemma {:induction false} RecycleAllStopped(b: Book, filled: seq<Tick>, before: map<Tick, Order>, price: Tick, fills: seq<Fill>, i: nat)
    requires |fills| == |filled| && i <= |filled|
    requires RecycleAll(b, filled[..i], before, price, fills[..i]).raised
    ensures RecycleAll(b, filled, before, price, fills) == RecycleAll(b, filled[..i], before, price, fills[..i])
    decreases |filled| - i
  {
    if i < |filled| {
      RecycleAllTake(b, filled, before, price, fills, i);
      RecycleAllStopped(b, filled, before, price, fills, i + 1);
    } else {
      assert filled[..i] == filled && fills[..i] == fills;
    }
  }

  /** Recycling never changes the net profit. */
  lemma {:induction false} RecycleKeepsProfit(b: Book, filled: seq<Tick>, before: map<Tick, Order>, price: Tick, fills: seq<Fill>)
    requires |fills| == |filled|
    ensures RecycleAll(b, filled, before, price, fills).book.stats.netProfit == b.stats.netProfit
  {
    if filled != [] {
      var n := |filled| - 1;
      RecycleKeepsProfit(b, filled[..n], before, price, fills[..n]);
    }
  }

  /** How many of the filled prices hold a record of `side` in `before`. */
  function Tally(filled: seq<Tick>, before: map<Tick, Order>, side: string): nat
  {
    if filled == [] then 0
    else
      var n := |filled| - 1;
      Tally(filled[..n], before, side) + if Get(At(before, filled[n]), "side") == Str(side) then 1 else 0
  }

  /** When no fill raises, every filled buy adds one to the buys and every
      filled sell one to the sells. */
  lemma {:induction false} RecycleCountsFills(b: Book, filled: seq<Tick>, before: map<Tick, Order>, price: Tick, fills: seq<Fill>)
    requires |fills| == |filled|
    requires !RecycleAll(b, filled, before, price, fills).raised
    ensures var st := RecycleAll(b, filled, before, price, fills).book.stats;
      && st.totalBuys == b.stats.totalBuys + Tally(filled, before, BUY)
      && st.totalSells == b.stats.totalSells + Tally(filled, before, SELL)
  {
    if filled != [] {
      var n := |filled| - 1;
      RecycleCountsFills(b, filled[..n], before, price, fills[..n]);
    }
  }

  /** A price `p` is the replacement of the fill of record `o` at `fp`. */
  predicate Replaces(fp: Tick, o: Order, p: Tick, price: Tick)
  {
    "side" in o && p == NextPrice(fp, o["side"]) && InGrid(o["side"], p, price)
  }

  /** Recycling keeps the mirror indexed, keeps every record it held, and
      adds only replacements: each new price is inside the grid, one step
      from some fill, not among the exchange's open prices read for that
      fill, and holds an open record of that fill's side. */
  lemma {:induction false} RecycleEffect(b: Book, filled: seq<Tick>, before: map<Tick, Order>, price: Tick, fills: seq<Fill>)
    requires |fills| == |filled| && Indexed(b)
    ensures var r := RecycleAll(b, filled, before, price, fills).book;
      && Indexed(r)
      && (forall p :: p in b.orders ==> p in r.orders && r.orders[p] == b.orders[p])
      && (forall p :: p in r.orders && p !in b.orders ==>
            exists i :: 0 <= i < |filled| && Replaces(filled[i], At(before, filled[i]), p, price)
                        && fills[i].venue.Some? && p !in fills[i].venue.value
                        && PlacedAt(r.orders[p], p, At(before, filled[i])["side"].s))
  {
    if filled != [] {
      var n := |filled| - 1;
      RecycleEffect(b, filled[..n], before, price, fills[..n]);
      var s := RecycleAll(b, filled[..n], before, price, fills[..n]);
      var r := RecycleAll(b, filled, before, price, fills).book;
      if !s.raised {
        RecycleOneEffect(s.book, filled[n], At(before, filled[n]), price, fills[n]);
      }
      forall p | p in r.orders && p !in b.orders
        ensures exists i :: 0 <= i < |filled| && Replaces(filled[i], At(before, filled[i]), p, price)
                            && fills[i].venue.Some? && p !in fills[i].venue.value
                            && PlacedAt(r.orders[p], p, At(before, filled[i])["side"].s)
      {
        if p in s.book.orders {
          var i :| 0 <= i < n && Replaces(filled[..n][i], At(before, filled[..n][i]), p, price)
                   && fills[..n][i].venue.Some? && p !in fills[..n][i].venue.value
                   && PlacedAt(s.book.orders[p], p, At(before, filled[..n][i])["side"].s);
          assert filled[..n][i] == filled[i] && fills[..n][i] == fills[i];
        } else {
          assert Replaces(filled[n], At(before, filled[n]), p, price);
        }
      }
    }
  }

  /** One fill keeps the mirror indexed and every record it held, and adds at
      most its own replacement. */
  lemma RecycleOneEffect(b: Book, fp: Tick, o: Order, price: Tick, f: Fill)
    requires Indexed(b)
    ensures var r := Recycle(b, fp, o, price, f).book;
      && Indexed(r)
      && (forall p :: p in b.orders ==> p in r.orders && r.orders[p] == b.orders[p])
      && (forall p :: p in r.orders && p !in b.orders ==>
            Replaces(fp, o, p, price) && f.venue.Some? && p !in f.venue.value
            && o["side"].Str? && PlacedAt(r.orders[p], p, o["side"].s))
  {
    if "side" in o && "amount" in o && "price" in o && !(o["side"] == Str(SELL) && !(o["price"].Num? && o["amount"].Num?)) {
      var side := o["side"];
      var counted := b.(stats := Counted(b.stats, side));
      var np := NextPrice(fp, side);
      if InGrid(side, np, price) && np !in b.orders && f.venue.Some? && np !in f.venue.value {
        var s := if side == Str(BUY) then BUY else SELL;
        match PlaceOrder(s, np, f.answer)
        case Placed(r) =>
          InsertIndexed(counted, np, r);
        case _ =>
      }
    }
  }

  /** The discrepancy on one buy fill: the loop as written neither counts
      it nor replaces it, while recycling the record captured before the
      sweep counts it and places the buy one step above. */
  lemma RecycleFindingExample()
    ensures var fp, price := 1000000, 1000000;
      var rec: Order := map["id" := Str("a"), "side" := Str(BUY), "price" := Num(fp), "amount" := Num(500000)];
      var answer := PlaceAnswer(Some(map[CRYPTO_CURRENCY := AMOUNT]), Created(map["id" := Str("b")]));
      var b := Book(map[], [], DefaultStats);
      && RecycleAllAsWritten(b, [fp], price, [Fill(Some({}), answer)]) == Step(b, false)
      && var r := RecycleAll(b, [fp], map[fp := rec], price, [Fill(Some({}), answer)]);
         !r.raised && r.book.stats.totalBuys == 1 && r.book.keys == [fp + GRID_SIZE]
  {
    var fp, price := 1000000, 1000000;
    var b := Book(map[], [], DefaultStats);
    var answer := PlaceAnswer(Some(map[CRYPTO_CURRENCY := AMOUNT]), Created(map["id" := Str("b")]));
    assert [fp][..0] == [];
    assert [Fill(Some({}), answer)][..0] == [];
  }
}
