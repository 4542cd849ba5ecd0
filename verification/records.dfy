/** Values shared by the grid bot and the range worker: prices as ticks,
    order records as dictionaries of scalar values, and sequence helpers. */
module Records {

  datatype Option<T> = None | Some(value: T)

  /** A price (or any other decimal quantity) in units of 0.0001. Every price
      the bot handles is rounded to four decimals, so rounding is the identity
      on this type. */
  type Tick = int

  /** A scalar field value of an order record, as JSON stores it. */
  datatype Value = Null | Num(q: int) | Str(s: string)

  /** An order record: a dictionary from field names to values. A missing key
      and a key holding `Null` differ only for subscripting, which fails on a
      missing key. */
  type Order = map<string, Value>

  const BUY := "buy"
  const SELL := "sell"

  /** `abs(x)`. */
  function Abs(x: int): nat
  {
    if x < 0 then -x else x
  }

  /** `order.get(field)`: the value, or `Null` when the key is missing. */
  function Get(o: Order, field: string): Value
  {
    if field in o then o[field] else Null
  }

  /** Python truthiness of a field value. */
  predicate Truthy(v: Value)
  {
    match v
    case Null => false
    case Num(q) => q != 0
    case Str(s) => s != []
  }

  /** The keys every order record of the mirror carries: the bot subscripts
      them (`order["side"]`, `order["id"]`, `order_info["price"]`). */
  predicate WellFormed(o: Order)
  {
    "id" in o && "side" in o && "price" in o
  }

  /** No element occurs twice in `s`. */
  ghost predicate Distinct(s: seq<Tick>)
  {
    forall i, j :: 0 <= i < j < |s| ==> s[i] != s[j]
  }

  /** `s` lists every element of `keys` exactly once. */
  ghost predicate Enumerates(s: seq<Tick>, keys: set<Tick>)
  {
    Distinct(s) && (forall x :: x in s <==> x in keys)
  }

  /** `s` without the elements of `dead`, in the same order (deleting keys
      from a Python dict keeps the order of the others). */
  function Without(s: seq<Tick>, dead: set<Tick>): (r: seq<Tick>)
    ensures forall x :: x in r <==> x in s && x !in dead
    ensures |r| <= |s|
  {
    if s == [] then []
    else if s[|s| - 1] in dead then Without(s[..|s| - 1], dead)
    else Without(s[..|s| - 1], dead) + [s[|s| - 1]]
  }

  lemma {:induction false} WithoutKeepsDistinct(s: seq<Tick>, dead: set<Tick>)
    requires Distinct(s)
    ensures Distinct(Without(s, dead))
  {
    if s != [] {
      var init := s[..|s| - 1];
      var last := s[|s| - 1];
      assert Distinct(init) by {
        forall i, j | 0 <= i < j < |init| ensures init[i] != init[j] {
          assert init[i] == s[i] && init[j] == s[j];
        }
      }
      WithoutKeepsDistinct(init, dead);
      var r0 := Without(init, dead);
      if last in dead {
        assert Without(s, dead) == r0;
      } else {
        assert last !in init by {
          forall k | 0 <= k < |init| ensures init[k] != last {
            assert init[k] == s[k];
          }
        }
        assert last !in r0;
        var r := r0 + [last];
        assert Without(s, dead) == r;
        forall i, j | 0 <= i < j < |r| ensures r[i] != r[j] {
          if j < |r0| {
            assert r[i] == r0[i] && r[j] == r0[j];
          } else {
            assert r[i] == r0[i] && r0[i] in r0 && r[j] == last;
          }
        }
      }
    }
  }

  /** Dropping the last element of a sequence without repeats leaves one
      without repeats that does not hold the dropped element. */
  lemma DistinctInit(s: seq<Tick>)
    requires Distinct(s) && s != []
    ensures Distinct(s[..|s| - 1]) && s[|s| - 1] !in s[..|s| - 1]
  {
    var init := s[..|s| - 1];
    forall i, j | 0 <= i < j < |init| ensures init[i] != init[j] {
      assert init[i] == s[i] && init[j] == s[j];
    }
    forall k | 0 <= k < |init| ensures init[k] != s[|s| - 1] {
      assert init[k] == s[k];
    }
  }

  /** In a sequence without repeats, an element does not occur before its
      own position. */
  lemma DistinctFresh(s: seq<Tick>, j: nat)
    requires Distinct(s) && j < |s|
    ensures s[j] !in s[..j]
  {
    forall t | 0 <= t < j ensures s[..j][t] != s[j] {
      assert s[..j][t] == s[t];
    }
  }

  /** Two enumerations of disjoint sets, one after the other, enumerate the
      union. */
  lemma EnumeratesJoin(a: seq<Tick>, sa: set<Tick>, b: seq<Tick>, sb: set<Tick>)
    requires Enumerates(a, sa) && Enumerates(b, sb) && sa !! sb
    ensures Enumerates(a + b, sa + sb)
  {
    var r := a + b;
    forall i, j | 0 <= i < j < |r| ensures r[i] != r[j] {
      if j < |a| {
        assert r[i] == a[i] && r[j] == a[j];
      } else if i >= |a| {
        assert r[i] == b[i - |a|] && r[j] == b[j - |a|];
      } else {
        assert r[i] == a[i] && a[i] in sa;
        assert r[j] == b[j - |a|] && b[j - |a|] in sb;
      }
    }
  }

  /** An enumeration loses exactly the deleted keys and stays an enumeration. */
  lemma EnumeratesWithout(s: seq<Tick>, keys: set<Tick>, dead: set<Tick>)
    requires Enumerates(s, keys)
    ensures Enumerates(Without(s, dead), keys - dead)
  {
    WithoutKeepsDistinct(s, dead);
  }

  /** Deleting keys in two rounds is deleting them all at once. */
  lemma {:induction false} WithoutWithout(s: seq<Tick>, a: set<Tick>, b: set<Tick>)
    ensures Without(Without(s, a), b) == Without(s, a + b)
  {
    if s != [] {
      var init, last := s[..|s| - 1], s[|s| - 1];
      WithoutWithout(init, a, b);
      var r := Without(init, a);
      if last !in a {
        assert Without(s, a) == r + [last];
        assert (r + [last])[..|r + [last]| - 1] == r;
      }
    }
  }

  /** Deleting a key that is not there changes nothing. */
  lemma {:induction false} WithoutAbsent(s: seq<Tick>, dead: set<Tick>)
    requires forall x :: x in s ==> x !in dead
    ensures Without(s, dead) == s
  {
    if s != [] {
      var init, last := s[..|s| - 1], s[|s| - 1];
      assert forall x :: x in init ==> x in s;
      assert last in s;
      WithoutAbsent(init, dead);
      assert Without(s, dead) == Without(init, dead) + [last];
      assert init + [last] == s;
    }
  }

  /** Deleting keys from one more element of a prefix. */
  lemma WithoutTake(s: seq<Tick>, j: nat, dead: set<Tick>)
    requires j < |s|
    ensures Without(s[..j + 1], dead)
         == if s[j] in dead then Without(s[..j], dead) else Without(s[..j], dead) + [s[j]]
  {
    assert s[..j + 1][..j] == s[..j];
  }

  /** The elements of one more element of a prefix. */
  lemma ElemsTake(s: seq<Tick>, j: nat)
    requires j < |s|
    ensures Elems(s[..j + 1]) == Elems(s[..j]) + {s[j]}
  {
    assert s[..j + 1] == s[..j] + [s[j]];
  }

  /** Deleting keys from a sequence with one more element at its end. */
  lemma WithoutSnoc(s: seq<Tick>, x: Tick, dead: set<Tick>)
    ensures Without(s + [x], dead) == if x in dead then Without(s, dead) else Without(s, dead) + [x]
  {
    assert (s + [x])[..|s|] == s;
  }

  /** The elements of a sequence, as a set. */
  function Elems(s: seq<Tick>): (r: set<Tick>)
    ensures forall x :: x in r <==> x in s
  {
    set x | x in s
  }

  /** The elements of `s` whose flag is set, in order: the prices a loop over
      the mirror collects. */
  function Picked(s: seq<Tick>, flags: seq<bool>): (r: seq<Tick>)
    requires |flags| == |s|
    ensures forall x :: x in r ==> x in s
    ensures |r| <= |s|
  {
    if s == [] then []
    else
      var n := |s| - 1;
      var init := Picked(s[..n], flags[..n]);
      if flags[n] then init + [s[n]] else init
  }

  /** The collection after one more element of a prefix. */
  lemma PickedTake(s: seq<Tick>, flags: seq<bool>, i: nat)
    requires |flags| == |s| && i < |s|
    ensures Picked(s[..i + 1], flags[..i + 1])
         == Picked(s[..i], flags[..i]) + (if flags[i] then [s[i]] else [])
  {
    assert s[..i + 1][..i] == s[..i] && flags[..i + 1][..i] == flags[..i];
  }

  /** In a sequence without repeats, an element is collected exactly when its
      flag is set. */
  lemma {:induction false} PickedMembers(s: seq<Tick>, flags: seq<bool>)
    requires |flags| == |s| && Distinct(s)
    ensures forall i :: 0 <= i < |s| ==> (s[i] in Picked(s, flags) <==> flags[i])
  {
    if s != [] {
      var n := |s| - 1;
      DistinctInit(s);
      PickedMembers(s[..n], flags[..n]);
      forall i | 0 <= i < n ensures s[i] in Picked(s, flags) <==> flags[i] {
        assert s[..n][i] == s[i] && flags[..n][i] == flags[i];
        assert s[i] != s[n];
      }
    }
  }

  /** What is collected from a sequence without repeats has none either. */
  lemma {:induction false} PickedDistinct(s: seq<Tick>, flags: seq<bool>)
    requires |flags| == |s| && Distinct(s)
    ensures Distinct(Picked(s, flags))
  {
    if s != [] {
      var n := |s| - 1;
      DistinctInit(s);
      PickedDistinct(s[..n], flags[..n]);
      var init := Picked(s[..n], flags[..n]);
      if flags[n] {
        assert s[n] !in init;
        var r := init + [s[n]];
        forall i, j | 0 <= i < j < |r| ensures r[i] != r[j] {
          if j < |init| {
            assert r[i] == init[i] && r[j] == init[j];
          } else {
            assert r[i] == init[i] && init[i] in init;
          }
        }
      }
    }
  }

  /** An enumeration is as long as the set it enumerates. */
  lemma {:induction false} EnumeratesSize(s: seq<Tick>, keys: set<Tick>)
    requires Enumerates(s, keys)
    ensures |s| == |keys|
  {
    if s != [] {
      var init, last := s[..|s| - 1], s[|s| - 1];
      DistinctInit(s);
      assert forall x :: x in init ==> x in s;
      assert forall x :: x in s ==> x in init || x == last;
      EnumeratesSize(init, keys - {last});
    } else {
      assert forall x :: x !in keys;
      assert keys == {};
    }
  }

  /** Appending a fresh key keeps an enumeration. */
  lemma EnumeratesAppend(s: seq<Tick>, keys: set<Tick>, x: Tick)
    requires Enumerates(s, keys) && x !in keys
    ensures Enumerates(s + [x], keys + {x})
  {
    var r := s + [x];
    forall i, j | 0 <= i < j < |r| ensures r[i] != r[j] {
      if j < |s| {
        assert r[i] == s[i] && r[j] == s[j];
      } else {
        assert r[i] == s[i] && s[i] in s;
      }
    }
  }

  /** Smallest element: `min(xs)`. */
  function Lowest(xs: seq<int>): (m: int)
    requires xs != []
    ensures m in xs && forall x :: x in xs ==> m <= x
  {
    if |xs| == 1 then xs[0]
    else
      var rest := Lowest(xs[1..]);
      assert forall x :: x in xs[1..] ==> rest <= x;
      assert forall x :: x in xs ==> x == xs[0] || x in xs[1..];
      if xs[0] <= rest then xs[0] else rest
  }

  /** Largest element: `max(xs)`. */
  function Highest(xs: seq<int>): (m: int)
    requires xs != []
    ensures m in xs && forall x :: x in xs ==> x <= m
  {
    if |xs| == 1 then xs[0]
    else
      var rest := Highest(xs[1..]);
      assert forall x :: x in xs ==> x == xs[0] || x in xs[1..];
      if xs[0] >= rest then xs[0] else rest
  }
}
