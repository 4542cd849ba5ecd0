/** The persisted snapshot of the order mirror: saving it as a JSON document,
    loading it back, and the one-off migration of its `orders` block from a
    price-keyed object to a list. */
module SnapshotFile {
  import opened Records
  import opened Decimal

  /** The running counters of the bot. `net_profit` is a decimal amount, held
      in ticks. */
  datatype Stats = Stats(totalBuys: int, totalSells: int, netProfit: Tick)

  /** `{"total_buys": 0, "total_sells": 0, "net_profit": 0.0}`. */
  const DefaultStats := Stats(0, 0, 0)

  /** The value of the `orders` key of a snapshot: a JSON object from price
      text to record (its members in file order), a list of records, or any
      other JSON value. */
  datatype OrdersBlock =
    | Keyed(entries: seq<(string, Order)>)
    | Listed(items: seq<Order>)
    | Scalar(v: Value)

  /** A snapshot document: the `orders` and `statistics` keys (`None` when the
      key is absent) and every other top-level key. */
  datatype Document = Document(orders: Option<OrdersBlock>, statistics: Option<Stats>, others: map<string, Value>)

  /** The nine fields a saved record keeps, in the order they are written. */
  const SavedFields: seq<string> :=
    ["id", "symbol", "price", "side", "status", "amount", "remaining", "datetime", "timestamp"]

  /** The record that is written for an order: each of the nine fields read
      with `.get`, so a missing field is written as null and any other field
      is dropped. */
  function Project(o: Order): Order
  {
    map f | f in SavedFields :: Get(o, f)
  }

  /** `statistics if statistics else {...zeros...}`. */
  function StatsOrDefault(st: Option<Stats>): Stats
  {
    if st.Some? then st.value else DefaultStats
  }

  /** Every order of the mirror as it is written. */
  function ProjectAll(orders: map<Tick, Order>): (r: map<Tick, Order>)
    ensures r.Keys == orders.Keys
  {
    map k | k in orders :: Project(orders[k])
  }

  /** Object members named by `str(price)`, one per price of `keys` in order. */
  function Named(recs: map<Tick, Order>, keys: seq<Tick>): (es: seq<(string, Order)>)
    requires forall k :: k in keys ==> k in recs
    ensures |es| == |keys|
    ensures forall i :: 0 <= i < |keys| ==> es[i] == (PriceText(keys[i]), recs[keys[i]])
  {
    seq(|keys|, i requires 0 <= i < |keys| => (PriceText(keys[i]), recs[keys[i]]))
  }

  /** The members of the written `orders` object, one per price of the mirror
      in the mirror's order. */
  function SavedEntries(orders: map<Tick, Order>, keys: seq<Tick>): seq<(string, Order)>
    requires forall k :: k in keys ==> k in orders
  {
    Named(ProjectAll(orders), keys)
  }

  /** The document `save_open_orders_to_file` writes. */
  function Snapshot(orders: map<Tick, Order>, keys: seq<Tick>, statistics: Option<Stats>): Document
    requires forall k :: k in keys ==> k in orders
  {
    Document(Some(Keyed(SavedEntries(orders, keys))), Some(StatsOrDefault(statistics)), map[])
  }

  /** The entries of a saved document, built one mirror entry at a time. The
      temporary file and the atomic replace are one store of the returned
      document. */
  method SaveOpenOrders(orders: map<Tick, Order>, keys: seq<Tick>, statistics: Option<Stats>)
      returns (doc: Document)
    requires forall k :: k in keys ==> k in orders
    ensures doc == Snapshot(orders, keys, statistics)
  {
    var toSave: seq<(string, Order)> := [];
    var i := 0;
    while i < |keys|
      invariant 0 <= i <= |keys|
      invariant toSave == SavedEntries(orders, keys[..i])
    {
      var price := keys[i];
      NamedTake(ProjectAll(orders), keys, i);
      toSave := toSave + [(PriceText(price), Project(orders[price]))];
      i := i + 1;
    }
    assert keys[..i] == keys;
    doc := Document(Some(Keyed(toSave)), Some(StatsOrDefault(statistics)), map[]);
  }

  /** The members for one more price of the mirror's order. */
  lemma NamedTake(recs: map<Tick, Order>, keys: seq<Tick>, i: nat)
    requires i < |keys| && forall k :: k in keys ==> k in recs
    ensures forall k :: k in keys[..i + 1] ==> k in recs
    ensures Named(recs, keys[..i + 1]) == Named(recs, keys[..i]) + [(PriceText(keys[i]), recs[keys[i]])]
  {
    assert forall k :: k in keys[..i + 1] ==> k in keys;
    var l, r := Named(recs, keys[..i + 1]), Named(recs, keys[..i]) + [(PriceText(keys[i]), recs[keys[i]])];
    forall j | 0 <= j < |l| ensures l[j] == r[j] {
      if j < i {
        assert keys[..i + 1][j] == keys[..i][j];
      }
    }
  }

  /** The mirror a snapshot loads into. */
  datatype Mirror = Mirror(orders: map<Tick, Order>, keys: seq<Tick>, statistics: Stats)

  const EmptyMirror := Mirror(map[], [], DefaultStats)

  /** The members of the orders object with their names run through
      `float`. */
  function Parsed(es: seq<(string, Order)>): (ps: seq<(Option<Tick>, Order)>)
    ensures |ps| == |es|
    ensures forall i :: 0 <= i < |es| ==> ps[i] == (ParsePrice(es[i].0), es[i].1)
  {
    seq(|es|, i requires 0 <= i < |es| => (ParsePrice(es[i].0), es[i].1))
  }

  /** `{float(price): order for price, order in entries}` once the names are
      converted: a later member overwrites an earlier one with the same value
      but keeps its place; `None` when some name is not a number. */
  function Gather(ps: seq<(Option<Tick>, Order)>): (r: Option<(map<Tick, Order>, seq<Tick>)>)
  {
    if ps == [] then Some((map[], []))
    else
      var rest := Gather(ps[..|ps| - 1]);
      var p := ps[|ps| - 1].0;
      if rest.None? || p.None? then None
      else
        var m, ks := rest.value.0, rest.value.1;
        if p.value in m then Some((m[p.value := ps[|ps| - 1].1], ks))
        else Some((m[p.value := ps[|ps| - 1].1], ks + [p.value]))
  }

  /** The load of the members of an orders object. */
  function LoadEntries(es: seq<(string, Order)>): Option<(map<Tick, Order>, seq<Tick>)>
  {
    Gather(Parsed(es))
  }

  /** A load lists each loaded price once, in the order of its first member. */
  lemma {:induction false} GatherEnumerates(ps: seq<(Option<Tick>, Order)>)
    ensures Gather(ps).Some? ==> Enumerates(Gather(ps).value.1, Gather(ps).value.0.Keys)
  {
    if ps != [] {
      GatherEnumerates(ps[..|ps| - 1]);
      var rest := Gather(ps[..|ps| - 1]);
      var p := ps[|ps| - 1].0;
      if rest.Some? && p.Some? && p.value !in rest.value.0 {
        EnumeratesAppend(rest.value.1, rest.value.0.Keys, p.value);
      }
    }
  }

  /** `load_or_fetch_open_orders` on a document that was read: a missing
      `orders` key loads no orders, and a missing `statistics` key loads the
      zero counters. An `orders` value that is not an object, or a name that
      is not a number, makes the load fail as a whole, which gives no orders
      and the zero counters. */
  function Load(doc: Document): (r: Mirror)
    ensures Enumerates(r.keys, r.orders.Keys)
    ensures doc.orders.None? ==> r.orders == map[] && r.statistics == StatsOrDefault(doc.statistics)
    ensures doc.orders.Some? && !doc.orders.value.Keyed? ==> r == EmptyMirror
  {
    var stats := StatsOrDefault(doc.statistics);
    match doc.orders
    case None => Mirror(map[], [], stats)
    case Some(Keyed(es)) =>
      GatherEnumerates(Parsed(es));
      (match LoadEntries(es)
       case Some((m, ks)) => Mirror(m, ks, stats)
       case None => EmptyMirror)
    case Some(_) => EmptyMirror
  }

  /** Members whose names parse to distinct prices load into those prices, in
      member order. */
  lemma {:induction false} GatherDistinct(ps: seq<(Option<Tick>, Order)>, keys: seq<Tick>, recs: map<Tick, Order>)
    requires |ps| == |keys| && Distinct(keys)
    requires forall i :: 0 <= i < |keys| ==> keys[i] in recs
    requires forall i :: 0 <= i < |ps| ==> ps[i] == (Some(keys[i]), recs[keys[i]])
    ensures Gather(ps) == Some((Among(recs, keys), keys))
  {
    if ps != [] {
      var n := |ps|;
      var init := keys[..n - 1];
      DistinctInit(keys);
      var front := ps[..n - 1];
      forall i | 0 <= i < |front| ensures front[i] == (Some(init[i]), recs[init[i]]) {
        assert front[i] == ps[i] && init[i] == keys[i];
      }
      assert forall i :: 0 <= i < |init| ==> init[i] == keys[i];
      GatherDistinct(front, init, recs);
      GatherLast(ps, keys, recs);
    }
  }

  /** The last member of `GatherDistinct`: its price is new, so it goes last. */
  lemma GatherLast(ps: seq<(Option<Tick>, Order)>, keys: seq<Tick>, recs: map<Tick, Order>)
    requires ps != [] && |ps| == |keys| && Distinct(keys)
    requires forall i :: 0 <= i < |keys| ==> keys[i] in recs
    requires ps[|ps| - 1] == (Some(keys[|ps| - 1]), recs[keys[|ps| - 1]])
    requires var init := keys[..|ps| - 1]; Gather(ps[..|ps| - 1]) == Some((Among(recs, init), init))
    ensures Gather(ps) == Some((Among(recs, keys), keys))
  {
    var n := |ps|;
    var init, k := keys[..n - 1], keys[n - 1];
    DistinctInit(keys);
    var m0 := Among(recs, init);
    assert k !in m0;
    assert init + [k] == keys;
    RestrictSnoc(recs, init, k);
  }

  /** The records of `recs` at the prices listed in `keys`. */
  function Among(recs: map<Tick, Order>, keys: seq<Tick>): map<Tick, Order>
  {
    map x | x in keys && x in recs :: recs[x]
  }

  lemma RestrictSnoc(recs: map<Tick, Order>, init: seq<Tick>, k: Tick)
    requires k in recs
    ensures Among(recs, init)[k := recs[k]] == Among(recs, init + [k])
  {
    var a, b := Among(recs, init)[k := recs[k]], Among(recs, init + [k]);
    assert forall x :: x in init + [k] <==> x in init || x == k;
    assert a.Keys == b.Keys;
  }

  lemma RestrictAll(recs: map<Tick, Order>, keys: seq<Tick>)
    requires forall x :: x in keys <==> x in recs
    ensures Among(recs, keys) == recs
  {
    var m := Among(recs, keys);
    forall x ensures x in m.Keys <==> x in recs.Keys {
      assert x in m.Keys <==> x in keys;
    }
    assert m.Keys == recs.Keys;
    forall x | x in m ensures m[x] == recs[x] { }
  }

  /** The saved members load back into the saved prices, in order. */
  lemma LoadNamed(recs: map<Tick, Order>, keys: seq<Tick>)
    requires Distinct(keys) && forall k :: k in keys ==> k in recs
    ensures LoadEntries(Named(recs, keys)) == Some((Among(recs, keys), keys))
  {
    var es := Named(recs, keys);
    var ps := Parsed(es);
    forall i | 0 <= i < |ps| ensures ps[i] == (Some(keys[i]), recs[keys[i]]) {
      PriceTextRoundTrip(keys[i]);
    }
    GatherDistinct(ps, keys, recs);
  }

  /** Saving and loading back gives the same prices in the same order, each
      with its nine saved fields, and the saved counters (zeros when none were
      given). */
  lemma SaveLoadRoundTrip(orders: map<Tick, Order>, keys: seq<Tick>, statistics: Option<Stats>)
    requires Enumerates(keys, orders.Keys)
    ensures Load(Snapshot(orders, keys, statistics)) == Mirror(ProjectAll(orders), keys, StatsOrDefault(statistics))
  {
    var recs := ProjectAll(orders);
    var es := SavedEntries(orders, keys);
    assert es == Named(recs, keys);
    LoadNamed(recs, keys);
    RestrictAll(recs, keys);
    assert LoadEntries(es) == Some((recs, keys));
    assert Snapshot(orders, keys, statistics).orders == Some(Keyed(es));
  }

  /** Different prices are written under different names, so the written
      object never repeats a member name. */
  lemma SavedNamesDistinct(orders: map<Tick, Order>, keys: seq<Tick>)
    requires Distinct(keys) && forall k :: k in keys ==> k in orders
    ensures var es := SavedEntries(orders, keys);
      forall i, j :: 0 <= i < j < |es| ==> es[i].0 != es[j].0
  {
    var es := SavedEntries(orders, keys);
    forall i, j | 0 <= i < j < |es| ensures es[i].0 != es[j].0 {
      if es[i].0 == es[j].0 {
        PriceTextInjective(keys[i], keys[j]);
      }
    }
  }

  /** What the migration script does with a document. */
  datatype Conversion =
    | AlreadyList          // `orders` is already a list: nothing is written
    | Converted(doc: Document)
    | ConversionFailed     // a subscript or a `float` conversion raised

  /** The eight fields the migration copies by subscript. */
  const CopiedFields: seq<string> :=
    ["id", "symbol", "side", "status", "amount", "remaining", "datetime", "timestamp"]

  /** One list entry: the eight copied fields and `price` from the name;
      `None` when a subscript or the conversion raises. */
  function ConvertEntry(name: string, o: Order): Option<Order>
  {
    if (forall f :: f in CopiedFields ==> f in o) && ParsePrice(name).Some? then
      Some((map f | f in CopiedFields :: o[f])["price" := Num(ParsePrice(name).value)])
    else None
  }

  /** The list comprehension over the members; `None` when any entry raises. */
  function ConvertEntries(es: seq<(string, Order)>): Option<seq<Order>>
  {
    if forall i :: 0 <= i < |es| ==> ConvertEntry(es[i].0, es[i].1).Some? then
      Some(seq(|es|, i requires 0 <= i < |es| => ConvertEntry(es[i].0, es[i].1).value))
    else None
  }

  /** The migration of `data["orders"]` from an object to a list. It leaves a
      list alone; otherwise it gives one list entry per member, in member
      order, with `price` taken from the member name and the other eight
      fields copied, and it touches no other top-level key. It fails when
      `orders` is missing or not an object, or when some member lacks a field
      or has a name that is not a number. */
  function Convert(doc: Document): (r: Conversion)
    ensures r.AlreadyList? <==> doc.orders.Some? && doc.orders.value.Listed?
    ensures r.Converted? ==>
      && doc.orders.Some? && doc.orders.value.Keyed?
      && r.doc.statistics == doc.statistics && r.doc.others == doc.others
      && r.doc.orders.Some? && r.doc.orders.value.Listed?
      && var es, items := doc.orders.value.entries, r.doc.orders.value.items;
      && |items| == |es|
      && forall i :: 0 <= i < |es| ==>
           && ParsePrice(es[i].0).Some?
           && (forall f :: f in items[i] <==> f in CopiedFields || f == "price")
           && items[i]["price"] == Num(ParsePrice(es[i].0).value)
           && forall f :: f in CopiedFields ==> f in es[i].1 && items[i][f] == es[i].1[f]
    ensures r.ConversionFailed? <==>
      || doc.orders.None?
      || doc.orders.value.Scalar?
      || (doc.orders.value.Keyed? &&
          exists i :: 0 <= i < |doc.orders.value.entries| &&
            ConvertEntry(doc.orders.value.entries[i].0, doc.orders.value.entries[i].1).None?)
  {
    match doc.orders
    case None => ConversionFailed
    case Some(Listed(_)) => AlreadyList
    case Some(Scalar(_)) => ConversionFailed
    case Some(Keyed(es)) =>
      match ConvertEntries(es)
      case Some(items) => Converted(doc.(orders := Some(Listed(items))))
      case None => ConversionFailed
  }

  /** The saved record holds exactly the nine fields. */
  lemma ProjectKeys(o: Order)
    ensures forall f :: f in Project(o) <==> f in CopiedFields || f == "price"
  {
    forall f ensures f in Project(o) <==> f in CopiedFields || f == "price" {
      assert f in SavedFields <==> f in CopiedFields || f == "price";
    }
  }

  /** One saved member migrates to the saved record with its price. */
  lemma ConvertSaved(record: Order, k: Tick)
    ensures ConvertEntry(PriceText(k), Project(record)) == Some(Project(record)["price" := Num(k)])
  {
    PriceTextRoundTrip(k);
    var o := Project(record);
    ProjectKeys(record);
    var c := (map f | f in CopiedFields :: o[f])["price" := Num(k)];
    assert c.Keys == o["price" := Num(k)].Keys;
    assert c == o["price" := Num(k)];
  }

  /** A document the bot saved always migrates: each list entry is the saved
      record with `price` set to the price it was saved under. */
  lemma ConvertAfterSave(orders: map<Tick, Order>, keys: seq<Tick>, statistics: Option<Stats>)
    requires forall k :: k in keys ==> k in orders
    ensures Convert(Snapshot(orders, keys, statistics))
         == Converted(Document(
              Some(Listed(seq(|keys|, i requires 0 <= i < |keys| => Project(orders[keys[i]])["price" := Num(keys[i])]))),
              Some(StatsOrDefault(statistics)), map[]))
  {
    var es := SavedEntries(orders, keys);
    forall i | 0 <= i < |keys|
      ensures ConvertEntry(es[i].0, es[i].1) == Some(Project(orders[keys[i]])["price" := Num(keys[i])])
    {
      ConvertSaved(orders[keys[i]], keys[i]);
    }
    var items := seq(|keys|, i requires 0 <= i < |keys| => Project(orders[keys[i]])["price" := Num(keys[i])]);
    assert forall i :: 0 <= i < |es| ==> ConvertEntry(es[i].0, es[i].1).Some?;
    var got := seq(|es|, i requires 0 <= i < |es| => ConvertEntry(es[i].0, es[i].1).value);
    assert ConvertEntries(es) == Some(got);
    assert |got| == |items| && forall i :: 0 <= i < |got| ==> got[i] == items[i];
    assert got == items;
    var doc := Snapshot(orders, keys, statistics);
    assert doc.orders == Some(Keyed(es));
    assert doc.(orders := Some(Listed(items))) == Document(Some(Listed(items)), Some(StatsOrDefault(statistics)), map[]);
  }
}
