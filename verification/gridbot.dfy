/** The grid bot's order mirror and the rules that change it: reconciling
    with the exchange, sweeping order statuses, cancelling, the initial grid,
    the range check, fill recycling and replenishment. */
module GridBot {
  import opened Records
  import opened Levels
  import opened Decimal
  import opened SnapshotFile
  import opened Exchange
  import opened Grid
  import opened RangeCheck
  import opened Recycling
  import opened Replenishment

  // ---------------------------------------------------------------------
  // Reconciliation

  /** The local record at one price after reconciliation: merged with the
      exchange record of the same id, or marked "unknown" when the exchange
      has no order with that id. */
  function Refreshed(o: Order, byId: map<Value, Order>): Order
  {
    var id := Get(o, "id");
    if id in byId then o + byId[id] else o["status" := Str("unknown")]
  }

  /** Every local record refreshed. */
  function RefreshAll(m: map<Tick, Order>, byId: map<Value, Order>): (r: map<Tick, Order>)
    ensures r.Keys == m.Keys
  {
    map p | p in m :: Refreshed(m[p], byId)
  }

  /** The exchange records at prices the mirror does not hold. */
  function Missing(m: map<Tick, Order>, byPrice: map<Tick, Order>): map<Tick, Order>
  {
    map p | p in byPrice && p !in m :: byPrice[p]
  }

  /** The mirror `reconcile_open_orders` leaves. */
  function Reconciled(m: map<Tick, Order>, venue: seq<Order>): map<Tick, Order>
    requires forall i :: 0 <= i < |venue| ==> Priced(venue[i])
  {
    assert forall i :: 0 <= i < |venue| ==> Priced(venue[i]) && "id" in venue[i];
    RefreshAll(m, ById(venue)) + Missing(m, ByPrice(venue).0)
  }

  /** What reconciliation does to each price: it never deletes one; a record
      whose id the exchange does not list keeps every field but has status
      "unknown"; a record whose id the exchange lists takes every field of
      the exchange record and keeps its other fields; and every price the
      exchange lists that was missing is added with the exchange record. */
  lemma ReconcileEffect(m: map<Tick, Order>, venue: seq<Order>)
    requires forall i :: 0 <= i < |venue| ==> Priced(venue[i])
    ensures var r, byId := Reconciled(m, venue), ById(venue);
      && (forall p :: p in m ==> p in r)
      && (forall i :: 0 <= i < |venue| ==> PriceOf(venue[i]) in r)
      && (forall p :: p in m && Get(m[p], "id") !in byId ==>
            r[p]["status"] == Str("unknown") && forall f :: f in m[p] && f != "status" ==> f in r[p] && r[p][f] == m[p][f])
      && (forall p :: p in m && Get(m[p], "id") in byId ==>
            var e := byId[Get(m[p], "id")];
            e in venue && (forall f :: f in e ==> f in r[p] && r[p][f] == e[f])
            && forall f :: f in m[p] && f !in e ==> f in r[p] && r[p][f] == m[p][f])
      && (forall p :: p in r && p !in m ==> r[p] in venue && PriceOf(r[p]) == p)
  {
    var r, byId, byPrice := Reconciled(m, venue), ById(venue), ByPrice(venue).0;
    forall p | p in m ensures p in r && r[p] == Refreshed(m[p], byId) {
      ReconciledAt(m, venue, p);
    }
    forall p | p in r && p !in m ensures p in byPrice && r[p] == byPrice[p] {
      ReconciledAt(m, venue, p);
    }
    forall i | 0 <= i < |venue| ensures PriceOf(venue[i]) in r {
      ReconciledAt(m, venue, PriceOf(venue[i]));
    }
  }

  /** One price of the reconciled mirror. */
  lemma ReconciledAt(m: map<Tick, Order>, venue: seq<Order>, p: Tick)
    requires forall i :: 0 <= i < |venue| ==> Priced(venue[i])
    ensures var r, byPrice := Reconciled(m, venue), ByPrice(venue).0;
      && (p in r <==> p in m || p in byPrice)
      && (p in m ==> r[p] == Refreshed(m[p], ById(venue)))
      && (p in r && p !in m ==> r[p] == byPrice[p])
  {
  }

  /** Every id index the reconciliation uses maps an id to a record holding
      that id. */
  ghost predicate IndexedById(byId: map<Value, Order>)
  {
    forall id :: id in byId ==> "id" in byId[id] && byId[id]["id"] == id
  }

  /** Refreshing a record twice is refreshing it once. */
  lemma RefreshedStable(o: Order, byId: map<Value, Order>)
    requires IndexedById(byId)
    ensures Refreshed(Refreshed(o, byId), byId) == Refreshed(o, byId)
  {
    var id := Get(o, "id");
    var r := Refreshed(o, byId);
    if id in byId {
      var e := byId[id];
      assert Get(r, "id") == id;
      assert r + e == r;
    } else {
      assert Get(r, "id") == id;
      assert r["status" := Str("unknown")] == r;
    }
  }

  /** Reconciling twice against the same exchange orders is reconciling once,
      provided no id repeats on the exchange. */
  lemma ReconcileIdempotent(m: map<Tick, Order>, venue: seq<Order>)
    requires forall i :: 0 <= i < |venue| ==> Priced(venue[i])
    requires DistinctIds(venue)
    ensures Reconciled(Reconciled(m, venue), venue) == Reconciled(m, venue)
  {
    var r1 := Reconciled(m, venue);
    forall p | p in r1 ensures Refreshed(r1[p], ById(venue)) == r1[p] {
      ReconciledStable(m, venue, p);
    }
    ReconcileFixed(r1, ById(venue), ByPrice(venue).0);
  }

  /** A mirror whose records a refresh leaves alone and which already holds
      every exchange price is a fixed point of reconciliation. */
  lemma ReconcileFixed(r: map<Tick, Order>, byId: map<Value, Order>, byPrice: map<Tick, Order>)
    requires forall p :: p in r ==> Refreshed(r[p], byId) == r[p]
    requires byPrice.Keys <= r.Keys
    ensures RefreshAll(r, byId) + Missing(r, byPrice) == r
  {
    assert Missing(r, byPrice).Keys == {};
    var refreshed := RefreshAll(r, byId);
    assert forall p | p in r :: refreshed[p] == r[p];
    assert refreshed == r;
  }

  /** One price of the reconciled mirror survives a second refresh. */
  lemma ReconciledStable(m: map<Tick, Order>, venue: seq<Order>, p: Tick)
    requires forall i :: 0 <= i < |venue| ==> Priced(venue[i])
    requires DistinctIds(venue)
    requires p in Reconciled(m, venue)
    ensures Refreshed(Reconciled(m, venue)[p], ById(venue)) == Reconciled(m, venue)[p]
  {
    var byId, byPrice := ById(venue), ByPrice(venue).0;
    if p in m {
      RefreshedStable(m[p], byId);
    } else {
      var e := byPrice[p];
      var i :| 0 <= i < |venue| && venue[i] == e;
      ByIdDistinct(venue);
      assert byId[e["id"]] == e;
      MergeCovered(e, e);
    }
  }

  /** Merging in a record whose fields already hold the same values changes
      nothing. */
  lemma MergeCovered(r: Order, e: Order)
    requires forall f :: f in e ==> f in r && r[f] == e[f]
    ensures r + e == r
  {
    assert (r + e).Keys == r.Keys;
  }

  /** The insertion loop of `reconcile_open_orders`: walks the exchange
      prices in order and adds each one the mirror lacks; `added` lists the
      added prices in the order they were inserted. */
  method AddMissing(m: map<Tick, Order>, byPrice: map<Tick, Order>, priceOrder: seq<Tick>)
    returns (r: map<Tick, Order>, added: seq<Tick>)
    requires Distinct(priceOrder) && byPrice.Keys == Elems(priceOrder)
    ensures r == m + Missing(m, byPrice)
    ensures added == Without(priceOrder, m.Keys)
  {
    r, added := m, [];
    ghost var seen: set<Tick> := {};
    assert Missing(m, Restrict(byPrice, {})) == map[];
    var j := 0;
    while j < |priceOrder|
      invariant 0 <= j <= |priceOrder|
      invariant seen == Elems(priceOrder[..j]) && added == Without(priceOrder[..j], m.Keys)
      invariant r == m + Missing(m, Restrict(byPrice, seen))
    {
      var price := priceOrder[j];
      AddStep(m, byPrice, priceOrder, j, seen, added, r);
      if price !in r {
        r := r[price := byPrice[price]];
        added := added + [price];
      }
      seen := seen + {price};
      j := j + 1;
    }
    assert priceOrder[..j] == priceOrder;
    RestrictCovering(byPrice, seen);
  }

  /** One step of the insertion loop: the next exchange price is added to
      the mirror and to the insertion order exactly when the mirror lacked
      it before reconciliation. */
  lemma AddStep(m: map<Tick, Order>, byPrice: map<Tick, Order>, priceOrder: seq<Tick>, j: nat,
                seen: set<Tick>, added: seq<Tick>, r: map<Tick, Order>)
    requires Distinct(priceOrder) && j < |priceOrder| && priceOrder[j] in byPrice
    requires seen == Elems(priceOrder[..j]) && added == Without(priceOrder[..j], m.Keys)
    requires r == m + Missing(m, Restrict(byPrice, seen))
    ensures var price := priceOrder[j];
      && (price in r <==> price in m)
      && Elems(priceOrder[..j + 1]) == seen + {price}
      && Without(priceOrder[..j + 1], m.Keys) == (if price in r then added else added + [price])
      && m + Missing(m, Restrict(byPrice, seen + {price})) == (if price in r then r else r[price := byPrice[price]])
  {
    var price := priceOrder[j];
    ElemsTake(priceOrder, j);
    WithoutTake(priceOrder, j, m.Keys);
    DistinctFresh(priceOrder, j);
    MissingStep(m, byPrice, seen, price);
  }

  /** The exchange records at the prices of `s`. */
  function Restrict(byPrice: map<Tick, Order>, s: set<Tick>): map<Tick, Order>
  {
    map p | p in byPrice && p in s :: byPrice[p]
  }

  /** Restricting to a superset of the keys changes nothing. */
  lemma RestrictCovering(byPrice: map<Tick, Order>, s: set<Tick>)
    requires byPrice.Keys <= s
    ensures Restrict(byPrice, s) == byPrice
  {
    assert Restrict(byPrice, s).Keys == byPrice.Keys;
  }

  /** Taking one more exchange price into account adds its record exactly
      when the mirror lacks it. */
  lemma MissingStep(m: map<Tick, Order>, byPrice: map<Tick, Order>, s: set<Tick>, price: Tick)
    requires price in byPrice && price !in s
    ensures var before := m + Missing(m, Restrict(byPrice, s));
      && (price in before <==> price in m)
      && m + Missing(m, Restrict(byPrice, s + {price}))
         == if price in before then before else before[price := byPrice[price]]
  {
    var o := byPrice[price];
    RestrictInsert(byPrice, s, price);
    MissingInsert(m, Restrict(byPrice, s), price, o);
    if price !in m {
      UnionInsert(m, Missing(m, Restrict(byPrice, s)), price, o);
    }
  }

  lemma RestrictInsert(byPrice: map<Tick, Order>, s: set<Tick>, price: Tick)
    requires price in byPrice
    ensures Restrict(byPrice, s + {price}) == Restrict(byPrice, s)[price := byPrice[price]]
  {
  }

  lemma MissingInsert(m: map<Tick, Order>, r: map<Tick, Order>, price: Tick, o: Order)
    ensures price !in Missing(m, r) || price in r
    ensures Missing(m, r[price := o]) == if price in m then Missing(m, r) else Missing(m, r)[price := o]
  {
  }

  lemma UnionInsert(m: map<Tick, Order>, extra: map<Tick, Order>, price: Tick, o: Order)
    requires price !in m
    ensures m + extra[price := o] == (m + extra)[price := o]
  {
  }

  // ---------------------------------------------------------------------
  // Status sweep

  /** What the sweep does with one entry, given the status the exchange
      reports for it: an entry without a (truthy) id is never looked up. */
  datatype Verdict = Keep | Filled | Drop

  function StatusVerdict(o: Order, status: Value): Verdict
  {
    if !Truthy(Get(o, "id")) then Keep
    else if status == Str("closed") || status == Str("filled") then Filled
    else if status == Str("canceled") || status == Str("rejected") || status == Str("expired") then Drop
    else Keep
  }

  /** The verdict for the entry at price `k`; a price the mirror does not
      hold is never looked up and so is kept out of both lists. */
  function VerdictOf(m: map<Tick, Order>, k: Tick, status: Value): Verdict
  {
    if k in m then StatusVerdict(m[k], status) else Keep
  }

  /** Which entries of the mirror get verdict `v`; `statuses[i]` is the
      status reported for `keys[i]` (`Null` when the lookup failed). */
  function Verdicts(keys: seq<Tick>, m: map<Tick, Order>, statuses: seq<Value>, v: Verdict): (r: seq<bool>)
    requires |statuses| == |keys|
    ensures |r| == |keys|
    ensures forall i :: 0 <= i < |keys| ==> (r[i] <==> VerdictOf(m, keys[i], statuses[i]) == v)
  {
    seq(|keys|, i requires 0 <= i < |keys| => VerdictOf(m, keys[i], statuses[i]) == v)
  }

  /** The prices, in mirror order, whose entries get verdict `v`. */
  function Swept(keys: seq<Tick>, m: map<Tick, Order>, statuses: seq<Value>, v: Verdict): seq<Tick>
    requires |statuses| == |keys|
  {
    Picked(keys, Verdicts(keys, m, statuses, v))
  }

  /** An entry is listed for a verdict exactly when the sweep gives it that
      verdict. */
  lemma SweptMembers(keys: seq<Tick>, m: map<Tick, Order>, statuses: seq<Value>, v: Verdict)
    requires |statuses| == |keys| && Distinct(keys)
    ensures forall i :: 0 <= i < |keys| ==>
      (keys[i] in Swept(keys, m, statuses, v) <==> VerdictOf(m, keys[i], statuses[i]) == v)
  {
    PickedMembers(keys, Verdicts(keys, m, statuses, v));
  }

  /** The verdicts partition the mirror: every entry is kept, reported filled,
      or dropped, and never two of these. */
  lemma SweepPartition(keys: seq<Tick>, m: map<Tick, Order>, statuses: seq<Value>)
    requires |statuses| == |keys| && Distinct(keys)
    ensures forall i :: 0 <= i < |keys| ==>
      var filled, dropped := Swept(keys, m, statuses, Filled), Swept(keys, m, statuses, Drop);
      && (keys[i] in filled ==> keys[i] !in dropped)
      && (keys[i] !in filled && keys[i] !in dropped <==> VerdictOf(m, keys[i], statuses[i]) == Keep)
  {
    SweptMembers(keys, m, statuses, Filled);
    SweptMembers(keys, m, statuses, Drop);
  }

  /** One entry of the range check: an out-of-range entry joins the removed
      prices exactly when its cancellation deletes it. */
  lemma CancelStep(ks: seq<Tick>, items: map<Tick, Order>, flags: seq<bool>, i: nat, price: Tick, answers: seq<CancelAnswer>)
    requires |answers| == |ks| && i < |ks| && flags == Cancelled(items, ks, price, answers)
    requires ks[i] in items && OutOfBand(items[ks[i]], ks[i], price)
    ensures var before, after := Elems(Picked(ks[..i], flags[..i])), Elems(Picked(ks[..i + 1], flags[..i + 1]));
      && after == (if Cancels(answers[i]) then before + {ks[i]} else before)
      && items - after == (if Cancels(answers[i]) then (items - before) - {ks[i]} else items - before)
      && Without(ks, after) == (if Cancels(answers[i]) then Without(Without(ks, before), {ks[i]}) else Without(ks, before))
  {
    PickStep(ks, flags, i);
    assert flags[i] == Cancels(answers[i]);
    CancelSets(ks, items, Elems(Picked(ks[..i], flags[..i])), ks[i], Cancels(answers[i]));
  }

  /** Removing one more price from the mirror and from its key order. */
  lemma CancelSets(ks: seq<Tick>, items: map<Tick, Order>, before: set<Tick>, x: Tick, c: bool)
    ensures var after := before + (if c then {x} else {});
      && after == (if c then before + {x} else before)
      && items - after == (if c then (items - before) - {x} else items - before)
      && Without(ks, after) == (if c then Without(Without(ks, before), {x}) else Without(ks, before))
  {
    if c {
      WithoutWithout(ks, before, {x});
    } else {
      assert before + {} == before;
    }
  }

  /** The prices picked among the first `i + 1` entries: those among the
      first `i`, and the `i`-th when it is flagged. */
  lemma PickStep(ks: seq<Tick>, flags: seq<bool>, i: nat)
    requires |flags| == |ks| && i < |ks|
    ensures Elems(Picked(ks[..i + 1], flags[..i + 1])) == Elems(Picked(ks[..i], flags[..i])) + (if flags[i] then {ks[i]} else {})
  {
    PickedTake(ks, flags, i);
  }

  /** The range check gets past an entry that does not raise. */
  lemma ReachStep(items: map<Tick, Order>, ks: seq<Tick>, price: Tick, i: nat)
    requires i < |ks| && i <= Reach(items, ks, price) && !Raises(At(items, ks[i]), ks[i], price)
    ensures i + 1 <= Reach(items, ks, price)
  {
  }

  /** The state the range check leaves when it raises at entry `i`. */
  lemma AdjustAbandoned(b: Book, items: map<Tick, Order>, ks: seq<Tick>, i: nat, price: Tick,
                        answers: seq<CancelAnswer>, removed: set<Tick>)
    requires |answers| == |ks| && i < |ks| && items != map[]
    requires i <= Reach(items, ks, price) && Raises(At(items, ks[i]), ks[i], price)
    requires removed == Elems(Picked(ks[..i], Cancelled(items, ks, price, answers)[..i]))
    requires b.orders == items - removed && b.keys == Without(ks, removed)
    ensures AdjustGrid(Book(items, ks, b.stats), price, answers) == (b, Abandoned)
  {
  }

  /** The state the range check leaves when no entry raises. */
  lemma AdjustCompleted(b: Book, items: map<Tick, Order>, ks: seq<Tick>, price: Tick,
                        answers: seq<CancelAnswer>, removed: set<Tick>)
    requires |answers| == |ks| && items != map[]
    requires |ks| <= Reach(items, ks, price)
    requires removed == Elems(Picked(ks[..|ks|], Cancelled(items, ks, price, answers)[..|ks|]))
    requires b.orders == items - removed && b.keys == Without(ks, removed)
    ensures AdjustGrid(Book(items, ks, b.stats), price, answers) == (b, Completed)
  {
    var flags := Cancelled(items, ks, price, answers);
    assert ks[..|ks|] == ks && flags[..|ks|] == flags;
  }

  /** One level of the initial placement: its price is not in the mirror
      yet, and the run after it is the run so far extended by that level. */
  lemma LadderStep(r0: Run, side: string, levels: seq<Tick>, answers: seq<PlaceAnswer>, positiveOnly: bool, i: nat, b: Book)
    requires |answers| == |levels| && i < |levels| && Indexed(r0.book)
    requires Distinct(levels) && forall p :: p in levels ==> p !in r0.book.orders
    requires Run(b, true) == PlaceLevels(r0, side, levels[..i], answers[..i], positiveOnly)
    ensures levels[i] !in b.orders && Indexed(b)
    ensures PlaceLevels(r0, side, levels[..i + 1], answers[..i + 1], positiveOnly)
         == PlaceLevel(Run(b, true), side, levels[i], answers[i], positiveOnly)
  {
    PlaceLevelsTake(r0, side, levels, answers, positiveOnly, i);
    assert forall p :: p in levels[..i] ==> p in levels;
    PlaceLevelsEffect(r0, side, levels[..i], answers[..i], positiveOnly);
    DistinctFresh(levels, i);
  }

  // ---------------------------------------------------------------------
  // The bot

  class Bot {
    /** `open_orders`: rounded price to order record. */
    var openOrders: map<Tick, Order>
    /** The insertion order of `open_orders`. */
    var keys: seq<Tick>
    /** `statistics`. */
    var statistics: Stats
    /** The last document stored in the snapshot file. */
    var file: Document

    ghost predicate Valid()
      reads this
    {
      Enumerates(keys, openOrders.Keys)
    }

    /** The in-memory state: the mirror, its order and the statistics. */
    ghost function State(): Book
      reads this
    {
      Book(openOrders, keys, statistics)
    }

    /** `load_or_fetch_open_orders` on a snapshot that was read. */
    constructor (doc: Document)
      ensures Valid()
      ensures openOrders == Load(doc).orders && keys == Load(doc).keys
      ensures statistics == Load(doc).statistics && file == doc
    {
      var loaded := Load(doc);
      openOrders := loaded.orders;
      keys := loaded.keys;
      statistics := loaded.statistics;
      file := doc;
    }

    /** `save_open_orders_to_file(OPEN_ORDERS_FILE, open_orders, stats)`. */
    method Save(stats: Option<Stats>)
      requires Valid()
      modifies this
      ensures Valid()
      ensures file == Snapshot(openOrders, keys, stats)
      ensures openOrders == old(openOrders) && keys == old(keys) && statistics == old(statistics)
    {
      file := SaveOpenOrders(openOrders, keys, stats);
    }

    /** `reconcile_open_orders`: `venue` is the answer of
        `fetch_open_orders` (`None` when it raised). The function raises,
        changing nothing, when the fetch raised or some exchange record has
        no id or no usable price. */
    method Reconcile(venue: Option<seq<Order>>) returns (ok: bool)
      requires Valid()
      modifies this
      ensures Valid()
      ensures ok <==> venue.Some? && forall i :: 0 <= i < |venue.value| ==> Priced(venue.value[i])
      ensures ok ==> (openOrders == Reconciled(old(openOrders), venue.value)
                      && keys == old(keys) + Without(ByPrice(venue.value).1, old(openOrders).Keys))
      ensures !ok ==> openOrders == old(openOrders) && keys == old(keys)
      ensures statistics == old(statistics) && file == old(file)
    {
      if venue.None? || !(forall i | 0 <= i < |venue.value| :: Priced(venue.value[i])) {
        return false;
      }
      var v := venue.value;
      var byId := ById(v);
      var (byPrice, priceOrder) := ByPrice(v);
      ByPriceEnumerates(v);
      RefreshEntries(byId);
      InsertMissing(byPrice, priceOrder);
      return true;
    }

    /** The first loop of the reconciliation: every local record is merged
        with, or marked missing from, the exchange records by id. */
    method RefreshEntries(byId: map<Value, Order>)
      requires Valid()
      modifies this
      ensures Valid()
      ensures openOrders == RefreshAll(old(openOrders), byId) && keys == old(keys)
      ensures statistics == old(statistics) && file == old(file)
    {
      var m, ks := openOrders, keys;
      assert forall j :: 0 <= j < |ks| ==> ks[j] in ks;
      var i := 0;
      while i < |ks|
        invariant 0 <= i <= |ks|
        invariant m.Keys == openOrders.Keys
        invariant forall j :: 0 <= j < i ==> m[ks[j]] == Refreshed(openOrders[ks[j]], byId)
        invariant forall j :: i <= j < |ks| ==> m[ks[j]] == openOrders[ks[j]]
      {
        var price := ks[i];
        var o := m[price];
        var id := Get(o, "id");
        if id !in byId {
          m := m[price := o["status" := Str("unknown")]];
        } else {
          m := m[price := o + byId[id]];
        }
        i := i + 1;
      }
      forall p | p in m ensures m[p] == RefreshAll(openOrders, byId)[p] {
        var j :| 0 <= j < |ks| && ks[j] == p;
      }
      openOrders := m;
    }

    /** The second loop of the reconciliation: every exchange price missing
        locally is added, in the exchange's order. */
    method InsertMissing(byPrice: map<Tick, Order>, priceOrder: seq<Tick>)
      requires Valid() && Enumerates(priceOrder, byPrice.Keys)
      modifies this
      ensures Valid()
      ensures openOrders == old(openOrders) + Missing(old(openOrders), byPrice)
      ensures keys == old(keys) + Without(priceOrder, old(openOrders).Keys)
      ensures statistics == old(statistics) && file == old(file)
    {
      assert byPrice.Keys == Elems(priceOrder);
      var m, added := AddMissing(openOrders, byPrice, priceOrder);
      var ks := keys + added;
      EnumeratesWithout(priceOrder, byPrice.Keys, openOrders.Keys);
      EnumeratesJoin(keys, openOrders.Keys, Without(priceOrder, openOrders.Keys), byPrice.Keys - openOrders.Keys);
      assert m.Keys == openOrders.Keys + (byPrice.Keys - openOrders.Keys);
      openOrders, keys := m, ks;
    }

    /** `check_orders_status` in live mode: `statuses[i]` is what
        `get_order_status` answers for `keys[i]`. Filled entries are deleted
        and returned, cancelled, rejected and expired ones are deleted, and
        every other entry stays. */
    method CheckOrdersStatus(statuses: seq<Value>) returns (filled: seq<Tick>)
      requires Valid() && |statuses| == |keys|
      modifies this
      ensures Valid()
      ensures filled == Swept(old(keys), old(openOrders), statuses, Filled)
      ensures var dead := Elems(filled + Swept(old(keys), old(openOrders), statuses, Drop));
        openOrders == old(openOrders) - dead && keys == Without(old(keys), dead)
      ensures statistics == old(statistics) && file == old(file)
    {
      ghost var m0, k0 := openOrders, keys;
      var ks := keys;
      ghost var isFilled, isDropped := Verdicts(ks, m0, statuses, Filled), Verdicts(ks, m0, statuses, Drop);
      filled := [];
      var toRemove: seq<Tick> := [];
      var i := 0;
      while i < |ks|
        invariant 0 <= i <= |ks| && openOrders == m0 && keys == k0 && ks == k0
        invariant statistics == old(statistics) && file == old(file)
        invariant filled == Picked(ks[..i], isFilled[..i])
        invariant toRemove == Picked(ks[..i], isDropped[..i])
      {
        var price := ks[i];
        PickedTake(ks, isFilled, i);
        PickedTake(ks, isDropped, i);
        assert price in ks;
        var verdict := StatusVerdict(openOrders[price], statuses[i]);
        if verdict == Filled {
          filled := filled + [price];
        } else if verdict == Drop {
          toRemove := toRemove + [price];
        }
        i := i + 1;
      }
      assert ks[..i] == ks && isFilled[..i] == isFilled && isDropped[..i] == isDropped;
      DeleteAll(filled + toRemove);
    }

    /** Deletes one price (`del open_orders[price]`); a missing price is left
        alone. */
    method Delete(price: Tick)
      requires Valid()
      modifies this
      ensures Valid()
      ensures openOrders == old(openOrders) - {price} && keys == Without(old(keys), {price})
      ensures statistics == old(statistics) && file == old(file)
    {
      if price in openOrders {
        EnumeratesWithout(keys, openOrders.Keys, {price});
        openOrders := openOrders - {price};
        keys := Without(keys, {price});
      } else {
        WithoutAbsent(keys, {price});
        assert openOrders - {price} == openOrders;
      }
    }

    /** Deletes every price of `dead`, one after the other. */
    method DeleteAll(dead: seq<Tick>)
      requires Valid()
      modifies this
      ensures Valid()
      ensures openOrders == old(openOrders) - Elems(dead) && keys == Without(old(keys), Elems(dead))
      ensures statistics == old(statistics) && file == old(file)
    {
      ghost var m0, k0 := openOrders, keys;
      WithoutAbsent(k0, {});
      assert Elems(dead[..0]) == {};
      assert m0 - {} == m0;
      var j := 0;
      while j < |dead|
        invariant 0 <= j <= |dead| && Valid()
        invariant statistics == old(statistics) && file == old(file)
        invariant openOrders == m0 - Elems(dead[..j])
        invariant keys == Without(k0, Elems(dead[..j]))
      {
        var price := dead[j];
        assert dead[..j + 1] == dead[..j] + [price];
        assert Elems(dead[..j + 1]) == Elems(dead[..j]) + {price};
        WithoutWithout(k0, Elems(dead[..j]), {price});
        Delete(price);
        j := j + 1;
      }
      assert dead[..j] == dead;
    }

    /** `cancel_order`: `stillOpen` is whether `verify_order_exists` found
        the order open, `cancelRaised` whether the cancel call raised. An
        order that is not open is only deleted locally; a successful cancel
        deletes the price; a cancel that raises leaves the mirror alone. */
    method CancelOrder(price: Tick, stillOpen: bool, cancelRaised: bool)
      requires Valid()
      modifies this
      ensures Valid()
      ensures var gone := !stillOpen || !cancelRaised;
        && openOrders == (if gone then old(openOrders) - {price} else old(openOrders))
        && keys == (if gone then Without(old(keys), {price}) else old(keys))
      ensures statistics == old(statistics) && file == old(file)
    {
      if !stillOpen || !cancelRaised {
        Delete(price);
      }
    }
  
    /** `adjust_grid_with_file_check`: `answers[i]` answers the cancellation
        of the `i`-th entry, should it be out of range. The replacement order
        is placed on the exchange but its result is dropped, so it never
        reaches the mirror. A check that gets through every entry saves the
        mirror with the statistics. */
    method AdjustGridWithFileCheck(price: Tick, answers: seq<CancelAnswer>) returns (outcome: Outcome)
      requires Valid() && |answers| == |keys|
      modifies this
      ensures Valid()
      ensures (State(), outcome) == AdjustGrid(old(State()), price, answers)
      ensures file == if old(openOrders) != map[] && outcome == Completed
                      then Snapshot(openOrders, keys, Some(statistics)) else old(file)
    {
      if openOrders == map[] {
        return Completed;
      }
      outcome := CheckRange(price, answers);
      if outcome == Completed {
        Save(Some(statistics));
      }
    }

    /** The loop of `adjust_grid_with_file_check` over a non-empty mirror:
        each out-of-range entry is cancelled in turn, until an entry raises. */
    method CheckRange(price: Tick, answers: seq<CancelAnswer>) returns (outcome: Outcome)
      requires Valid() && |answers| == |keys| && openOrders != map[]
      modifies this
      ensures Valid() && file == old(file)
      ensures (State(), outcome) == AdjustGrid(old(State()), price, answers)
    {
      var ks, items := keys, openOrders;
      ghost var flags := Cancelled(items, ks, price, answers);
      ghost var removed: set<Tick> := {};
      assert Without(ks, {}) == ks by { WithoutAbsent(ks, {}); }
      assert items - {} == items;
      var i := 0;
      while i < |ks|
        invariant 0 <= i <= |ks| && Valid()
        invariant i <= Reach(items, ks, price)
        invariant statistics == old(statistics) && file == old(file)
        invariant removed == Elems(Picked(ks[..i], flags[..i]))
        invariant openOrders == items - removed && keys == Without(ks, removed)
      {
        var raised;
        raised, removed := CheckEntry(items, ks, flags, i, price, answers, removed);
        if raised {
          return Abandoned;
        }
        i := i + 1;
      }
      AdjustCompleted(State(), items, ks, price, answers, removed);
      return Completed;
    }

    /** One entry of the range check's loop over the mirror as it stood
        (`items`, in the order `ks`): reading `side`, or the `id` of an
        out-of-range entry, raises; an out-of-range entry is cancelled. */
    method CheckEntry(items: map<Tick, Order>, ks: seq<Tick>, ghost flags: seq<bool>, i: nat, price: Tick,
                      answers: seq<CancelAnswer>, ghost removed: set<Tick>)
      returns (raised: bool, ghost removed': set<Tick>)
      requires Valid() && Enumerates(ks, items.Keys) && items != map[]
      requires |answers| == |ks| && i < |ks| && i <= Reach(items, ks, price)
      requires flags == Cancelled(items, ks, price, answers)
      requires removed == Elems(Picked(ks[..i], flags[..i]))
      requires openOrders == items - removed && keys == Without(ks, removed)
      modifies this
      ensures Valid() && statistics == old(statistics) && file == old(file)
      ensures raised ==> AdjustGrid(Book(items, ks, statistics), price, answers) == (State(), Abandoned)
      ensures !raised ==> && i + 1 <= Reach(items, ks, price)
                          && removed' == Elems(Picked(ks[..i + 1], flags[..i + 1]))
                          && openOrders == items - removed' && keys == Without(ks, removed')
    {
      var p := ks[i];
      assert p in ks;
      var o := items[p];
      removed' := removed;
      if "side" !in o || (OutOfBand(o, p, price) && "id" !in o) {
        AdjustAbandoned(State(), items, ks, i, price, answers, removed);
        return true, removed';
      }
      PickStep(ks, flags, i);
      ReachStep(items, ks, price, i);
      if OutOfBand(o, p, price) {
        CancelStep(ks, items, flags, i, price, answers);
        CancelOrder(p, answers[i].stillOpen, answers[i].cancelRaised);
        if Cancels(answers[i]) {
          removed' := removed + {p};
        }
      } else {
        assert !flags[i];
        assert removed + {} == removed;
      }
      return false, removed';
    }

    /** The initial placement of `run_grid_trading_bot`, made only when the
        mirror is empty: every positive buy level, then every sell level, one
        order each. A declined or failed placement ends the run without
        saving; a complete grid is saved without statistics. */
    method PlaceInitialGrid(price: Tick, buyAnswers: seq<PlaceAnswer>, sellAnswers: seq<PlaceAnswer>)
      returns (outcome: Outcome)
      requires Valid() && |buyAnswers| == GRID_COUNT && |sellAnswers| == GRID_COUNT
      modifies this
      ensures Valid()
      ensures old(openOrders) != map[] ==> State() == old(State()) && outcome == Completed && file == old(file)
      ensures old(openOrders) == map[] ==>
        var q := InitialGrid(old(State()), price, buyAnswers, sellAnswers);
        && State() == q.book
        && (outcome == Completed <==> q.ok) && (outcome != Completed ==> outcome == Stopped)
        && file == if q.ok then Snapshot(openOrders, keys, None) else old(file)
    {
      if openOrders != map[] {
        return Completed;
      }
      var buys, sells := BuyLevels(price, GRID_SIZE, GRID_COUNT), SellLevels(price, GRID_SIZE, GRID_COUNT);
      LaddersApart(price);
      var r1 := InitialBuys(price, statistics, buyAnswers);
      EnumeratesSize(keys, openOrders.Keys);
      assert keys == [] && State() == Book(map[], [], statistics);
      var ok := PlaceLadder(BUY, buys, buyAnswers, true);
      assert r1 == Run(State(), ok);
      if !ok {
        PlaceLevelsEffect(r1, SELL, sells, sellAnswers, false);
        return Stopped;
      }
      assert forall p :: p in sells ==> p !in openOrders;
      ok := PlaceLadder(SELL, sells, sellAnswers, false);
      if !ok {
        return Stopped;
      }
      Save(None);
      return Completed;
    }

    /** One loop of the initial placement: `answers[i]` answers the
        placement at `levels[i]`. The result says whether every placement
        succeeded; the first failure ends the loop. */
    method PlaceLadder(side: string, levels: seq<Tick>, answers: seq<PlaceAnswer>, positiveOnly: bool)
      returns (ok: bool)
      requires Valid() && |answers| == |levels|
      requires Distinct(levels) && forall p :: p in levels ==> p !in openOrders
      modifies this
      ensures Valid() && file == old(file)
      ensures Run(State(), ok) == PlaceLevels(Run(old(State()), true), side, levels, answers, positiveOnly)
    {
      ghost var r0 := Run(State(), true);
      assert levels[..0] == [] && answers[..0] == [];
      var i := 0;
      while i < |levels|
        invariant 0 <= i <= |levels| && Valid() && file == old(file)
        invariant Run(State(), true) == PlaceLevels(r0, side, levels[..i], answers[..i], positiveOnly)
      {
        var p := levels[i];
        LadderStep(r0, side, levels, answers, positiveOnly, i, State());
        if !positiveOnly || p > 0 {
          var placement := PlaceOrder(side, p, answers[i]);
          if placement.Placed? {
            InsertIndexed(State(), p, placement.order);
            openOrders := openOrders[p := placement.order];
            keys := keys + [p];
          } else {
            PlaceLevelsStopped(r0, side, levels, answers, positiveOnly, i + 1);
            return false;
          }
        }
        i := i + 1;
      }
      assert levels[..i] == levels && answers[..i] == answers;
      return true;
    }

    /** The fill-recycling loop of `run_grid_trading_bot`, with the record
        of each filled price taken from `before`, the mirror as the status
        sweep found it. A fill that raises abandons the rest of the
        iteration, keeping what was done so far. */
    method RecycleFills(filled: seq<Tick>, before: map<Tick, Order>, price: Tick, fills: seq<Fill>)
      returns (outcome: Outcome)
      requires Valid() && |fills| == |filled| && forall x :: x in filled ==> x in before
      modifies this
      ensures Valid() && file == old(file)
      ensures Step(State(), outcome == Abandoned) == RecycleAll(old(State()), filled, before, price, fills)
      ensures outcome != Stopped
    {
      ghost var b0 := State();
      assert filled[..0] == [] && fills[..0] == [];
      var i := 0;
      while i < |filled|
        invariant 0 <= i <= |filled| && Valid() && file == old(file)
        invariant Step(State(), false) == RecycleAll(b0, filled[..i], before, price, fills[..i])
      {
        var fp := filled[i];
        assert fp in filled;
        RecycleAllTake(b0, filled, before, price, fills, i);
        var raised := RecycleOne(fp, before[fp], price, fills[i]);
        if raised {
          RecycleAllStopped(b0, filled, before, price, fills, i + 1);
          return Abandoned;
        }
        i := i + 1;
      }
      assert filled[..i] == filled && fills[..i] == fills;
      return Completed;
    }

    /** One filled order: `o` is its record and `f` what the exchange
        answers while it is recycled. */
    method RecycleOne(fp: Tick, o: Order, price: Tick, f: Fill) returns (raised: bool)
      requires Valid()
      modifies this
      ensures Valid() && file == old(file)
      ensures Step(State(), raised) == Recycle(old(State()), fp, o, price, f)
    {
      RecycleOneEffect(State(), fp, o, price, f);
      if "side" !in o || "amount" !in o || "price" !in o {
        return true;
      }
      var side := o["side"];
      if side == Str(SELL) && !(o["price"].Num? && o["amount"].Num?) {
        return true;
      }
      statistics := Counted(statistics, side);
      var np := NextPrice(fp, side);
      if !InGrid(side, np, price) || np in openOrders || f.venue.None? || np in f.venue.value {
        return false;
      }
      var placement := PlaceOrder(if side == Str(BUY) then BUY else SELL, np, f.answer);
      if placement.Placed? {
        openOrders := openOrders[np := placement.order];
        keys := keys + [np];
      }
      return false;
    }

    /** Grid replenishment at the end of an iteration: the side listing
        raises on a record without a side; a mirror at the ceiling is left
        alone; otherwise the buy side and then the sell side are filled up
        to GRID_COUNT, and a failed placement ends the run. */
    method ReplenishGrid(price: Tick, buyAnswers: seq<PlaceAnswer>, sellAnswers: seq<PlaceAnswer>)
      returns (outcome: Outcome)
      requires Valid() && |buyAnswers| == GRID_COUNT && |sellAnswers| == GRID_COUNT
      modifies this
      ensures Valid() && file == old(file)
      ensures (State(), outcome) == Replenish(old(State()), price, buyAnswers, sellAnswers)
    {
      var buys, sells, sided := SideLists(Book(openOrders, keys, statistics));
      if !sided {
        return Abandoned;
      }
      if |openOrders| >= 2 * GRID_COUNT {
        return Completed;
      }
      var stopped := FillLoop(buys, BUY, price, buyAnswers);
      if stopped {
        return Stopped;
      }
      stopped := FillLoop(sells, SELL, price, sellAnswers);
      return if stopped then Stopped else Completed;
    }

    /** One replenishment loop: `current` lists the side's prices; the
        result says whether a failed placement ended the run. */
    method FillLoop(current: seq<Tick>, side: string, price: Tick, answers: seq<PlaceAnswer>)
      returns (stopped: bool)
      requires Valid() && |answers| == GRID_COUNT
      modifies this
      ensures Valid() && file == old(file)
      ensures Fillup(State(), FillSide(old(State()), current, side, price, answers).current, stopped)
           == FillSide(old(State()), current, side, price, answers)
    {
      var cur := current;
      while |cur| < GRID_COUNT
        invariant Valid() && file == old(file)
        invariant FillSide(State(), cur, side, price, answers) == FillSide(old(State()), current, side, price, answers)
        decreases GRID_COUNT - |cur|
      {
        var p := Beyond(cur, side, price);
        if (side == BUY && p <= 0) || p in openOrders {
          return false;
        }
        var placement := PlaceOrder(side, p, answers[|cur|]);
        if !placement.Placed? {
          return true;
        }
        InsertIndexed(State(), p, placement.order);
        openOrders := openOrders[p := placement.order];
        keys := keys + [p];
        statistics := Bumped(statistics, side, 1);
        cur := cur + [p];
      }
      return false;
    }
  }
}
