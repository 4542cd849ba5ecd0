/** The range check of the main loop (`adjust_grid_with_file_check`): every
    buy below the grid around the current price and every sell above it is
    cancelled. */
module RangeCheck {
  import opened Records
  import opened Grid

  /** The range check treats the entry at `p` as out of range: a buy below the
      lowest level of the grid around `price`, or a sell above its highest
      level. */
  predicate OutOfBand(o: Order, p: Tick, price: Tick)
  {
    (Get(o, "side") == Str(BUY) && p < GridLow(price)) || (Get(o, "side") == Str(SELL) && p > GridHigh(price))
  }

  /** The range check raises at the entry: it subscripts `side` of every entry
      and `id` of every out-of-range one. */
  predicate Raises(o: Order, p: Tick, price: Tick)
  {
    "side" !in o || (OutOfBand(o, p, price) && "id" !in o)
  }

  /** How many entries, in mirror order, the range check gets through before
      one raises. */
  function Reach(m: map<Tick, Order>, keys: seq<Tick>, price: Tick): (r: nat)
    ensures r <= |keys|
    ensures forall j :: 0 <= j < r ==> !Raises(At(m, keys[j]), keys[j], price)
    ensures r < |keys| ==> Raises(At(m, keys[r]), keys[r], price)
  {
    if keys == [] then 0
    else if Raises(At(m, keys[0]), keys[0], price) then 0
    else
      var rest := Reach(m, keys[1..], price);
      assert forall j :: 0 < j <= |keys[1..]| ==> keys[j] == keys[1..][j - 1];
      1 + rest
  }

  /** What the exchange answers one cancellation: whether
      `verify_order_exists` found the order open, and whether the cancel call
      raised. */
  datatype CancelAnswer = CancelAnswer(stillOpen: bool, cancelRaised: bool)

  /** `cancel_order` deletes the price: the order was not open any more, or
      the cancel call went through. */
  predicate Cancels(a: CancelAnswer)
  {
    !a.stillOpen || !a.cancelRaised
  }

  /** Which entries the range check removes, were it to get through all of
      them; `answers[i]` answers the cancellation of `keys[i]`. */
  function Cancelled(m: map<Tick, Order>, keys: seq<Tick>, price: Tick, answers: seq<CancelAnswer>): (r: seq<bool>)
    requires |answers| == |keys|
    ensures |r| == |keys|
    ensures forall i :: 0 <= i < |keys| ==> (r[i] <==> OutOfBand(At(m, keys[i]), keys[i], price) && Cancels(answers[i]))
  {
    seq(|keys|, i requires 0 <= i < |keys| => OutOfBand(At(m, keys[i]), keys[i], price) && Cancels(answers[i]))
  }

  /** The prices the range check removes, in mirror order. */
  function Removed(m: map<Tick, Order>, keys: seq<Tick>, price: Tick, answers: seq<CancelAnswer>): seq<Tick>
    requires |answers| == |keys|
  {
    var n := Reach(m, keys, price);
    Picked(keys[..n], Cancelled(m, keys, price, answers)[..n])
  }

  /** The state and outcome the range check leaves. An empty mirror is left
      alone. Otherwise the removed prices are gone, and the check completes
      only when no entry raised. The replacement order it places for each
      cancelled one is not recorded in the mirror. */
  function AdjustGrid(b: Book, price: Tick, answers: seq<CancelAnswer>): (Book, Outcome)
    requires |answers| == |b.keys|
  {
    if b.orders == map[] then (b, Completed)
    else
      var gone := Elems(Removed(b.orders, b.keys, price, answers));
      (b.(orders := b.orders - gone, keys := Without(b.keys, gone)),
       if Reach(b.orders, b.keys, price) == |b.keys| then Completed else Abandoned)
  }

  /** Every removed price is one of the mirror's. */
  lemma RemovedMembers(b: Book, price: Tick, answers: seq<CancelAnswer>)
    requires Indexed(b) && |answers| == |b.keys|
    ensures var n := Reach(b.orders, b.keys, price);
      var flags := Cancelled(b.orders, b.keys, price, answers);
      forall i :: 0 <= i < |b.keys| ==>
        (b.keys[i] in Removed(b.orders, b.keys, price, answers) <==> i < n && flags[i])
  {
    var n := Reach(b.orders, b.keys, price);
    var flags := Cancelled(b.orders, b.keys, price, answers);
    var ks := b.keys[..n];
    assert Distinct(ks) by {
      forall i, j | 0 <= i < j < n ensures ks[i] != ks[j] {
        assert ks[i] == b.keys[i] && ks[j] == b.keys[j];
      }
    }
    PickedMembers(ks, flags[..n]);
    forall i | 0 <= i < |b.keys|
      ensures b.keys[i] in Removed(b.orders, b.keys, price, answers) <==> i < n && flags[i]
    {
      if i < n {
        assert ks[i] == b.keys[i] && flags[..n][i] == flags[i];
      } else {
        assert b.keys[i] !in ks by {
          forall j | 0 <= j < n ensures ks[j] != b.keys[i] {
            assert ks[j] == b.keys[j];
          }
        }
      }
    }
  }

  /** The range check removes only out-of-range entries, keeps every other
      record as it was, never adds a price, leaves the statistics alone and
      keeps the mirror indexed. */
  lemma AdjustRemovesOnlyOutOfBand(b: Book, price: Tick, answers: seq<CancelAnswer>)
    requires Indexed(b) && |answers| == |b.keys|
    ensures var r := AdjustGrid(b, price, answers).0;
      && Indexed(r) && r.stats == b.stats
      && (forall p :: p in r.orders ==> p in b.orders && r.orders[p] == b.orders[p])
      && (forall p :: p in b.orders && p !in r.orders ==> OutOfBand(b.orders[p], p, price))
  {
    if b.orders != map[] {
      var gone := Elems(Removed(b.orders, b.keys, price, answers));
      EnumeratesWithout(b.keys, b.orders.Keys, gone);
      RemovedMembers(b, price, answers);
      forall p | p in b.orders && p in gone ensures OutOfBand(b.orders[p], p, price) {
        var i :| 0 <= i < |b.keys| && b.keys[i] == p;
      }
    }
  }

  /** When no cancel call raises, a range check that completes leaves no
      out-of-range entry behind. */
  lemma AdjustClearsOutOfBand(b: Book, price: Tick, answers: seq<CancelAnswer>)
    requires Indexed(b) && |answers| == |b.keys|
    requires forall i :: 0 <= i < |answers| ==> !answers[i].cancelRaised
    requires AdjustGrid(b, price, answers).1 == Completed
    ensures var r := AdjustGrid(b, price, answers).0;
      forall p :: p in r.orders ==> !OutOfBand(r.orders[p], p, price)
  {
    var r := AdjustGrid(b, price, answers).0;
    if b.orders != map[] {
      RemovedMembers(b, price, answers);
      forall p | p in r.orders ensures !OutOfBand(r.orders[p], p, price) {
        var i :| 0 <= i < |b.keys| && b.keys[i] == p;
        assert Cancels(answers[i]);
      }
    }
  }

  /** The range check completes exactly when the mirror is empty or no entry
      raises: every entry has a side, and every out-of-range one an id. */
  lemma AdjustCompletes(b: Book, price: Tick, answers: seq<CancelAnswer>)
    requires Indexed(b) && |answers| == |b.keys|
    ensures AdjustGrid(b, price, answers).1 == Completed
        <==> forall p :: p in b.orders ==> !Raises(b.orders[p], p, price)
  {
    var n := Reach(b.orders, b.keys, price);
    if n < |b.keys| {
      assert b.keys[n] in b.keys;
    } else {
      forall p | p in b.orders ensures !Raises(b.orders[p], p, price) {
        var i :| 0 <= i < |b.keys| && b.keys[i] == p;
      }
    }
  }
}
