/** The range worker's view of the exchange's open orders: the grid-level
    filter, the cancellation of a list of orders, and the choice of the
    farthest buy and sell to cancel. The worker declares the same grid
    spacing and count as the bot, so it shares the bot's constants. */
module WorkerOrders {
  import opened Records
  import opened Levels
  import opened Grid

  /** An open order as the exchange lists it: its id, its price in ticks
      and its side as the exchange spells it. */
  datatype VenueOrder = VenueOrder(id: string, price: Tick, side: string)

  /** The filter's default tolerance, 0.01, in ticks. */
  const TOLERANCE: int := 100

  /** `str.lower()` on the ASCII letters. */
  function Lower(s: string): (r: string)
    ensures |r| == |s|
  {
    if s == [] then []
    else [LowerChar(s[0])] + Lower(s[1..])
  }

  /** One character of `str.lower()`, for the ASCII capitals. */
  function LowerChar(c: char): char
  {
    if 'A' <= c <= 'Z' then (c as int + 32) as char else c
  }

  /** `Lower` maps each character on its own. */
  lemma {:induction false} LowerAt(s: string)
    ensures forall i :: 0 <= i < |s| ==> Lower(s)[i] == LowerChar(s[i])
  {
    if s != [] {
      LowerAt(s[1..]);
      assert forall i :: 1 <= i < |s| ==> Lower(s)[i] == Lower(s[1..])[i - 1];
    }
  }

  /** A lower-case letter comes from itself or its capital. */
  lemma LowerCharIs(c: char, lo: char, up: char)
    requires 'A' <= up <= 'Z' && lo as int == up as int + 32
    ensures LowerChar(c) == lo <==> c == lo || c == up
  {
  }

  /** The side is matched without regard to case: a side reads as a buy
      exactly when it spells "buy" in any mix of cases. */
  lemma {:induction false} LowerBuy(s: string)
    ensures Lower(s) == BUY <==> |s| == 3 && s[0] in "bB" && s[1] in "uU" && s[2] in "yY"
  {
    LowerAt(s);
    if |s| == 3 {
      LowerCharIs(s[0], 'b', 'B');
      LowerCharIs(s[1], 'u', 'U');
      LowerCharIs(s[2], 'y', 'Y');
      assert Lower(s) == BUY <==> Lower(s)[0] == 'b' && Lower(s)[1] == 'u' && Lower(s)[2] == 'y';
    }
  }

  /** Likewise a side reads as a sell exactly when it spells "sell" in any
      mix of cases. */
  lemma {:induction false} LowerSell(s: string)
    ensures Lower(s) == SELL <==> |s| == 4 && s[0] in "sS" && s[1] in "eE" && s[2] in "lL" && s[3] in "lL"
  {
    LowerAt(s);
    if |s| == 4 {
      LowerCharIs(s[0], 's', 'S');
      LowerCharIs(s[1], 'e', 'E');
      LowerCharIs(s[2], 'l', 'L');
      LowerCharIs(s[3], 'l', 'L');
      assert Lower(s) == SELL <==> Lower(s)[0] == 's' && Lower(s)[1] == 'e' && Lower(s)[2] == 'l' && Lower(s)[3] == 'l';
    }
  }

  /** Some level lies within `tolerance` of `p`. */
  predicate Near(p: Tick, levels: seq<Tick>, tolerance: int)
  {
    exists i :: 0 <= i < |levels| && Abs(p - levels[i]) <= tolerance
  }

  /** The filter's test for one order: a buy that no buy level is near, or
      a sell that no sell level is near; any other side is never chosen. */
  predicate OutsideGrid(o: VenueOrder, g: GridLevels, tolerance: int)
  {
    var side := Lower(o.side);
    (side == BUY && !Near(o.price, g.buy, tolerance)) || (side == SELL && !Near(o.price, g.sell, tolerance))
  }

  /** `filter_orders_outside_grid`: the orders no level of their side is
      near, in input order. */
  function FilterOutsideGrid(orders: seq<VenueOrder>, g: GridLevels, tolerance: int): (r: seq<VenueOrder>)
    ensures |r| <= |orders|
    ensures forall o :: o in r <==> o in orders && OutsideGrid(o, g, tolerance)
    ensures forall o :: o in r ==> Lower(o.side) == BUY || Lower(o.side) == SELL
  {
    if orders == [] then []
    else
      var n := |orders| - 1;
      var init := FilterOutsideGrid(orders[..n], g, tolerance);
      assert forall o :: o in orders <==> o in orders[..n] || o == orders[n];
      if OutsideGrid(orders[n], g, tolerance) then init + [orders[n]] else init
  }

  /** The filter works order by order: filtering a concatenation filters
      each part, so the result keeps the input order. */
  lemma {:induction false} FilterAppend(s: seq<VenueOrder>, t: seq<VenueOrder>, g: GridLevels, tolerance: int)
    ensures FilterOutsideGrid(s + t, g, tolerance) == FilterOutsideGrid(s, g, tolerance) + FilterOutsideGrid(t, g, tolerance)
    decreases |t|
  {
    if t != [] {
      var n := |t| - 1;
      assert (s + t)[..|s + t| - 1] == s + t[..n];
      assert (s + t)[|s + t| - 1] == t[n];
      FilterAppend(s, t[..n], g, tolerance);
    } else {
      assert s + t == s;
    }
  }

  /** The ids of the orders whose cancel call went through, in input order;
      `raised[i]` says whether cancelling `orders[i]` raised. */
  function CancelledIds(orders: seq<VenueOrder>, raised: seq<bool>): (r: seq<string>)
    requires |raised| == |orders|
    ensures |r| <= |orders|
  {
    if orders == [] then []
    else
      var n := |orders| - 1;
      CancelledIds(orders[..n], raised[..n]) + (if raised[n] then [] else [orders[n].id])
  }

  /** `ids` are the ids of the orders cancelled without an error: an id is
      among them exactly when some order with that id was cancelled without
      an error, and there is one per such order. */
  ghost predicate Reports(orders: seq<VenueOrder>, raised: seq<bool>, ids: seq<string>)
    requires |raised| == |orders|
  {
    && (forall id :: id in ids <==> exists i :: 0 <= i < |orders| && !raised[i] && orders[i].id == id)
    && |ids| == |orders| - Count(raised)
  }

  /** An id is reported exactly when some order with that id was cancelled
      without an error; a failure does not stop the later cancellations. */
  lemma {:induction false} CancelledIdsMembers(orders: seq<VenueOrder>, raised: seq<bool>)
    requires |raised| == |orders|
    ensures Reports(orders, raised, CancelledIds(orders, raised))
  {
    if orders != [] {
      var n := |orders| - 1;
      CancelledIdsMembers(orders[..n], raised[..n]);
      ReportsSnoc(orders, raised, CancelledIds(orders[..n], raised[..n]));
    }
  }

  /** One more cancel call, after the earlier ones. */
  lemma ReportsSnoc(orders: seq<VenueOrder>, raised: seq<bool>, ids: seq<string>)
    requires |raised| == |orders| > 0
    requires Reports(orders[..|orders| - 1], raised[..|orders| - 1], ids)
    ensures Reports(orders, raised, ids + (if raised[|orders| - 1] then [] else [orders[|orders| - 1].id]))
  {
    var n := |orders| - 1;
    var ids' := ids + (if raised[n] then [] else [orders[n].id]);
    forall id ensures id in ids' <==> exists i :: 0 <= i < |orders| && !raised[i] && orders[i].id == id
    {
      if id in ids {
        var i :| 0 <= i < n && !raised[..n][i] && orders[..n][i].id == id;
        assert !raised[i] && orders[i].id == id;
      }
      if exists i :: 0 <= i < |orders| && !raised[i] && orders[i].id == id {
        var i :| 0 <= i < |orders| && !raised[i] && orders[i].id == id;
        if i < n {
          assert !raised[..n][i] && orders[..n][i].id == id;
        }
      }
    }
  }

  /** How many flags are set. */
  function Count(flags: seq<bool>): (r: nat)
    ensures r <= |flags|
  {
    if flags == [] then 0 else Count(flags[..|flags| - 1]) + (if flags[|flags| - 1] then 1 else 0)
  }

  /** `cancel_orders_outside_range`: one cancel call per order, in order;
      `raised[i]` is what the exchange does with the i-th call. */
  method CancelOrdersOutsideRange(orders: seq<VenueOrder>, raised: seq<bool>) returns (canceled: seq<string>)
    requires |raised| == |orders|
    ensures canceled == CancelledIds(orders, raised)
  {
    canceled := [];
    var i := 0;
    while i < |orders|
      invariant 0 <= i <= |orders|
      invariant canceled == CancelledIds(orders[..i], raised[..i])
    {
      assert orders[..i + 1][..i] == orders[..i] && raised[..i + 1][..i] == raised[..i];
      if !raised[i] {
        canceled := canceled + [orders[i].id];
      }
      i := i + 1;
    }
    assert orders[..i] == orders && raised[..i] == raised;
  }

  /** The prices of the orders whose side is exactly `side`, in input order
      (`buy_orders` and `sell_orders`, before sorting). */
  function PricesOf(orders: seq<VenueOrder>, side: string): (r: seq<Tick>)
    ensures |r| <= |orders|
  {
    if orders == [] then []
    else
      var n := |orders| - 1;
      var init := PricesOf(orders[..n], side);
      if orders[n].side == side then init + [orders[n].price] else init
  }

  /** A price is listed exactly when some order of the side has it. */
  lemma {:induction false} PricesOfMembers(orders: seq<VenueOrder>, side: string)
    ensures forall p :: p in PricesOf(orders, side) <==> exists i :: 0 <= i < |orders| && orders[i].side == side && orders[i].price == p
  {
    if orders != [] {
      var n := |orders| - 1;
      PricesOfMembers(orders[..n], side);
      assert forall i :: 0 <= i < n ==> orders[..n][i] == orders[i];
    }
  }

  /** The first order listed at price `p`: `next(...)` over the open
      orders. */
  function FirstAt(orders: seq<VenueOrder>, p: Tick): (o: VenueOrder)
    requires exists i :: 0 <= i < |orders| && orders[i].price == p
    ensures o in orders && o.price == p
    ensures exists k :: 0 <= k < |orders| && orders[k] == o && forall j :: 0 <= j < k ==> orders[j].price != p
  {
    if orders[0].price == p then orders[0]
    else
      assert exists i :: 0 <= i < |orders[1..]| && orders[1..][i].price == p by {
        var i :| 0 <= i < |orders| && orders[i].price == p;
        assert orders[1..][i - 1] == orders[i];
      }
      var o := FirstAt(orders[1..], p);
      assert exists k :: 0 <= k < |orders| && orders[k] == o && forall j :: 0 <= j < k ==> orders[j].price != p by {
        var k :| 0 <= k < |orders[1..]| && orders[1..][k] == o && forall j :: 0 <= j < k ==> orders[1..][j].price != p;
        assert orders[k + 1] == o;
        forall j | 0 <= j < k + 1 ensures orders[j].price != p {
          if j > 0 {
            assert orders[j] == orders[1..][j - 1];
          }
        }
      }
      o
  }

  /** The farthest buy is chosen when it lies below the grid around `price`;
      a price of zero reads as false and is never chosen. */
  predicate FarBuy(buys: seq<Tick>, price: Tick)
  {
    buys != [] && Lowest(buys) != 0 && Lowest(buys) < GridLow(price)
  }

  /** The farthest sell is chosen when it lies above the grid. */
  predicate FarSell(sells: seq<Tick>, price: Tick)
  {
    sells != [] && Highest(sells) != 0 && Highest(sells) > GridHigh(price)
  }

  /** The orders the worker cancels: the first order at the lowest buy
      price, when that price lies below the grid, then the first order at
      the highest sell price, when that price lies above it. */
  function OrdersToCancel(orders: seq<VenueOrder>, price: Tick): (r: seq<VenueOrder>)
    ensures |r| <= 2
    ensures forall o :: o in r ==> o in orders
  {
    var buys, sells := PricesOf(orders, BUY), PricesOf(orders, SELL);
    PricesOfMembers(orders, BUY);
    PricesOfMembers(orders, SELL);
    (if FarBuy(buys, price) then [FirstAt(orders, Lowest(buys))] else [])
    + (if FarSell(sells, price) then [FirstAt(orders, Highest(sells))] else [])
  }

  /** Only an order outside the grid is chosen; when the lowest buy lies
      below the grid (and is not zero) an order at that price is chosen,
      likewise for the highest sell above it; when every buy and sell lies
      inside the grid nothing is chosen. */
  lemma OrdersToCancelBounds(orders: seq<VenueOrder>, price: Tick)
    ensures var r := OrdersToCancel(orders, price);
      var buys, sells := PricesOf(orders, BUY), PricesOf(orders, SELL);
      && (forall o :: o in r ==> o.price < GridLow(price) || o.price > GridHigh(price))
      && (FarBuy(buys, price) ==> exists o :: o in r && o.price == Lowest(buys) && o.price in buys)
      && (FarSell(sells, price) ==> exists o :: o in r && o.price == Highest(sells) && o.price in sells)
      && ((forall i :: 0 <= i < |orders| && orders[i].side == BUY ==> orders[i].price >= GridLow(price))
          && (forall i :: 0 <= i < |orders| && orders[i].side == SELL ==> orders[i].price <= GridHigh(price))
          ==> r == [])
  {
    var r := OrdersToCancel(orders, price);
    var buys, sells := PricesOf(orders, BUY), PricesOf(orders, SELL);
    PricesOfMembers(orders, BUY);
    PricesOfMembers(orders, SELL);
    if FarBuy(buys, price) {
      assert FirstAt(orders, Lowest(buys)) in r;
    }
    if FarSell(sells, price) {
      assert FirstAt(orders, Highest(sells)) in r;
    }
  }
}
