/** What the bot learns from the exchange and how it places an order. The
    exchange itself is not modelled: each call is replaced by its answer,
    which the caller passes in. */
module Exchange {
  import opened Records
  import opened Decimal

  const SYMBOL := "XRP/USDC"
  /** The base currency, which a sell spends. */
  const CRYPTO_SYMBOL := "XRP"
  /** The quote currency, which a buy spends. */
  const CRYPTO_CURRENCY := "USDC"
  /** The size of every order, 50 units, in ticks. */
  const AMOUNT: Tick := 500000

  /** `balance['free'].get(currency, 0)`. */
  function Available(free: map<string, Tick>, currency: string): Tick
  {
    if currency in free then free[currency] else 0
  }

  /** `check_balance`: `None` when fetching the balance raised (the function
      re-raises), otherwise whether the free amount covers `required`. */
  function CheckBalance(free: Option<map<string, Tick>>, currency: string, required: Tick): (r: Option<bool>)
    ensures r.None? <==> free.None?
    ensures r == Some(true) <==> free.Some? && Available(free.value, currency) >= required
  {
    match free
    case None => None
    case Some(f) => Some(Available(f, currency) >= required)
  }

  /** The currency an order of `side` spends: the quote currency for a buy and
      the base currency for anything else. */
  function FundingCurrency(side: string): string
  {
    if side == BUY then CRYPTO_CURRENCY else CRYPTO_SYMBOL
  }

  /** The answer of `create_limit_order`: the order it created, or a raise. */
  datatype CreateReply = CreateFailed | Created(response: Order)

  /** The answers the exchange gives one call of `place_order`: the free
      balances (`None` when fetching them raised) and the creation reply. */
  datatype PlaceAnswer = PlaceAnswer(free: Option<map<string, Tick>>, reply: CreateReply)

  /** The result of `place_order`: `False`, `None`, or the new record. */
  datatype Placement = Declined | Errored | Placed(order: Order)

  /** `o.get(field, default)`. */
  function GetOr(o: Order, field: string, default: Value): Value
  {
    if field in o then o[field] else default
  }

  /** `place_order` in live mode. The balance rule comes first: an order whose
      funding currency has less than AMOUNT free (a missing currency counting
      as zero), or whose balance cannot be fetched, is declined and nothing is
      created; a creation that raises gives `None`; otherwise the result is a
      fresh five-field record at the rounded price with status "open". */
  function PlaceOrder(side: string, price: Tick, answer: PlaceAnswer): (r: Placement)
    ensures r.Declined? <==> CheckBalance(answer.free, FundingCurrency(side), AMOUNT) != Some(true)
    ensures r.Errored? <==> CheckBalance(answer.free, FundingCurrency(side), AMOUNT) == Some(true)
                            && answer.reply.CreateFailed?
    ensures r.Placed? ==>
      && answer.reply.Created?
      && WellFormed(r.order)
      && r.order.Keys == {"id", "symbol", "price", "side", "status"}
      && r.order["id"] == Get(answer.reply.response, "id")
      && r.order["symbol"] == GetOr(answer.reply.response, "symbol", Str(SYMBOL))
      && r.order["price"] == Num(price)
      && r.order["side"] == Str(side)
      && r.order["status"] == Str("open")
  {
    if answer.free.None? then Declined
    else if Available(answer.free.value, FundingCurrency(side)) < AMOUNT then Declined
    else
      match answer.reply
      case CreateFailed => Errored
      case Created(resp) =>
        Placed(map[
          "id" := Get(resp, "id"),
          "symbol" := GetOr(resp, "symbol", Str(SYMBOL)),
          "price" := Num(price),
          "side" := Str(side),
          "status" := Str("open")])
  }

  /** `float(v)`, for the values an exchange record holds: a number, or text
      parsed as a decimal numeral; null raises. */
  function FloatOf(v: Value): Option<Tick>
  {
    match v
    case Null => None
    case Num(q) => Some(q)
    case Str(s) => ParsePrice(s)
  }

  /** An exchange record the reconciliation can index: it has an `id` and a
      `price` that `float` accepts. */
  predicate Priced(o: Order)
  {
    "id" in o && "price" in o && FloatOf(o["price"]).Some?
  }

  /** `round(float(order['price']), 4)`. */
  function PriceOf(o: Order): Tick
    requires Priced(o)
  {
    FloatOf(o["price"]).value
  }

  /** `{order['id']: order for order in venue}`: the last record with an id
      wins. */
  function ById(venue: seq<Order>): (r: map<Value, Order>)
    requires forall i :: 0 <= i < |venue| ==> "id" in venue[i]
    ensures forall i :: 0 <= i < |venue| ==> venue[i]["id"] in r
    ensures forall id :: id in r ==> r[id] in venue && "id" in r[id] && r[id]["id"] == id
  {
    if venue == [] then map[]
    else
      var init := venue[..|venue| - 1];
      var last := venue[|venue| - 1];
      var r0 := ById(init);
      assert forall i :: 0 <= i < |init| ==> init[i] == venue[i];
      r0[last["id"] := last]
  }

  /** Indexing by id keeps, for each id, the last record that carries it. */
  lemma {:induction false} ByIdLast(venue: seq<Order>)
    requires forall i :: 0 <= i < |venue| ==> "id" in venue[i]
    ensures forall id :: id in ById(venue) ==> LastWithId(venue, id, ById(venue)[id])
  {
    if venue != [] {
      var init := venue[..|venue| - 1];
      var last := venue[|venue| - 1];
      assert forall i :: 0 <= i < |init| ==> init[i] == venue[i];
      var r0 := ById(init);
      ByIdLast(init);
      var r := ById(venue);
      assert r == r0[last["id"] := last];
      forall id | id in r ensures LastWithId(venue, id, r[id]) {
        if id == last["id"] {
          LastWithIdEnd(venue);
        } else {
          LastWithIdSnoc(venue, id, r0[id]);
        }
      }
    }
  }

  /** `o` is the last exchange record with id `id`: later records have other
      ids. */
  ghost predicate LastWithId(venue: seq<Order>, id: Value, o: Order)
  {
    exists i :: 0 <= i < |venue| && venue[i] == o && forall j :: i < j < |venue| ==> Get(venue[j], "id") != id
  }

  lemma LastWithIdEnd(venue: seq<Order>)
    requires |venue| > 0
    ensures LastWithId(venue, Get(venue[|venue| - 1], "id"), venue[|venue| - 1])
  {
  }

  lemma LastWithIdSnoc(venue: seq<Order>, id: Value, o: Order)
    requires |venue| > 0 && Get(venue[|venue| - 1], "id") != id
    requires LastWithId(venue[..|venue| - 1], id, o)
    ensures LastWithId(venue, id, o)
  {
    var init := venue[..|venue| - 1];
    var i :| 0 <= i < |init| && init[i] == o && forall j :: i < j < |init| ==> Get(init[j], "id") != id;
    assert venue[i] == o;
    forall j | i < j < |venue| ensures Get(venue[j], "id") != id {
      if j < |init| {
        assert venue[j] == init[j];
      }
    }
  }

  /** No two exchange records share an id. */
  predicate DistinctIds(venue: seq<Order>)
  {
    forall i, j :: 0 <= i < j < |venue| ==> Get(venue[i], "id") != Get(venue[j], "id")
  }

  /** With no id repeated, each record is the one its id indexes. */
  lemma {:induction false} ByIdDistinct(venue: seq<Order>)
    requires forall i :: 0 <= i < |venue| ==> "id" in venue[i]
    requires DistinctIds(venue)
    ensures forall i :: 0 <= i < |venue| ==> ById(venue)[venue[i]["id"]] == venue[i]
  {
    if venue != [] {
      var init := venue[..|venue| - 1];
      assert forall i :: 0 <= i < |init| ==> init[i] == venue[i];
      ByIdDistinct(init);
    }
  }

  /** `{round(float(order['price']), 4): order for order in venue}`, with its
      keys in order of first appearance: the last record at a price wins. */
  function ByPrice(venue: seq<Order>): (r: (map<Tick, Order>, seq<Tick>))
    requires forall i :: 0 <= i < |venue| ==> Priced(venue[i])
    ensures forall i :: 0 <= i < |venue| ==> PriceOf(venue[i]) in r.0
    ensures forall p :: p in r.0 ==> r.0[p] in venue && Priced(r.0[p]) && PriceOf(r.0[p]) == p
  {
    if venue == [] then (map[], [])
    else
      var init := venue[..|venue| - 1];
      var last := venue[|venue| - 1];
      assert forall i :: 0 <= i < |init| ==> init[i] == venue[i];
      var r0 := ByPrice(init);
      var p := PriceOf(last);
      (r0.0[p := last], if p in r0.0 then r0.1 else r0.1 + [p])
  }

  /** Indexing by price keeps, for each price, the last record at it. */
  lemma {:induction false} ByPriceLast(venue: seq<Order>)
    requires forall i :: 0 <= i < |venue| ==> Priced(venue[i])
    ensures forall p :: p in ByPrice(venue).0 ==> LastAtPrice(venue, p, ByPrice(venue).0[p])
  {
    if venue != [] {
      var init := venue[..|venue| - 1];
      var last := venue[|venue| - 1];
      assert forall i :: 0 <= i < |init| ==> init[i] == venue[i];
      var r0 := ByPrice(init).0;
      ByPriceLast(init);
      var m := ByPrice(venue).0;
      assert m == r0[PriceOf(last) := last];
      forall q | q in m ensures LastAtPrice(venue, q, m[q]) {
        if q == PriceOf(last) {
          LastAtPriceEnd(venue);
        } else {
          LastAtPriceSnoc(venue, init, q, r0[q]);
        }
      }
    }
  }

  /** `o` is the last exchange record at price `p`: later records have other
      prices. */
  ghost predicate LastAtPrice(venue: seq<Order>, p: Tick, o: Order)
    requires forall i :: 0 <= i < |venue| ==> Priced(venue[i])
  {
    exists i :: 0 <= i < |venue| && venue[i] == o && forall j :: i < j < |venue| ==> PriceOf(venue[j]) != p
  }

  lemma LastAtPriceEnd(venue: seq<Order>)
    requires |venue| > 0 && forall i :: 0 <= i < |venue| ==> Priced(venue[i])
    ensures LastAtPrice(venue, PriceOf(venue[|venue| - 1]), venue[|venue| - 1])
  {
  }

  lemma LastAtPriceSnoc(venue: seq<Order>, init: seq<Order>, p: Tick, o: Order)
    requires |venue| > 0 && forall i :: 0 <= i < |venue| ==> Priced(venue[i])
    requires init == venue[..|venue| - 1] && PriceOf(venue[|venue| - 1]) != p
    requires LastAtPrice(init, p, o)
    ensures LastAtPrice(venue, p, o)
  {
    var i :| 0 <= i < |init| && init[i] == o && forall j :: i < j < |init| ==> PriceOf(init[j]) != p;
    assert venue[i] == o;
    forall j | i < j < |venue| ensures PriceOf(venue[j]) != p {
      if j < |init| {
        assert venue[j] == init[j];
      }
    }
  }

  /** The price keys of `ByPrice` list each indexed price once. */
  lemma {:induction false} ByPriceEnumerates(venue: seq<Order>)
    requires forall i :: 0 <= i < |venue| ==> Priced(venue[i])
    ensures Enumerates(ByPrice(venue).1, ByPrice(venue).0.Keys)
  {
    if venue != [] {
      var init := venue[..|venue| - 1];
      assert forall i :: 0 <= i < |init| ==> init[i] == venue[i];
      ByPriceEnumerates(init);
      var (m, ks) := ByPrice(init);
      var p := PriceOf(venue[|venue| - 1]);
      if p !in m {
        EnumeratesAppend(ks, m.Keys, p);
      }
    }
  }
}
