/** Grid level planning: the buy and sell price ladders around a reference
    price, shared by the bot loop and the range worker. */
module Levels {
  import opened Records

  /** Buy level i (i = 1..n) is `round(p - s*i, 4)`; on ticks the rounding is
      exact. */
  function BuyLevels(p: Tick, s: int, n: nat): (r: seq<Tick>)
    ensures |r| == n
  {
    seq(n, i => p - s * (i + 1))
  }

  /** Sell level i (i = 1..n) is `round(p + s*i, 4)`. */
  function SellLevels(p: Tick, s: int, n: nat): (r: seq<Tick>)
    ensures |r| == n
  {
    seq(n, i => p + s * (i + 1))
  }

  /** The `{"buy": ..., "sell": ...}` result of `calculate_grid_levels`. */
  datatype GridLevels = GridLevels(buy: seq<Tick>, sell: seq<Tick>)

  function CalculateGridLevels(p: Tick, s: int, n: nat): (g: GridLevels)
    ensures |g.buy| == n && |g.sell| == n
    ensures forall i :: 0 <= i < n ==> g.buy[i] + g.sell[i] == 2 * p
  {
    GridLevels(BuyLevels(p, s, n), SellLevels(p, s, n))
  }

  /** With a positive spacing, the ladder steps away from the reference price
      one spacing at a time: buys strictly decrease below `p`, sells strictly
      increase above `p`, and the outermost levels are `p - s*n` and `p + s*n`. */
  lemma LadderShape(p: Tick, s: int, n: nat)
    requires s > 0
    ensures var b, a := BuyLevels(p, s, n), SellLevels(p, s, n);
      && (forall i, j :: 0 <= i < j < n ==> b[j] < b[i] && a[i] < a[j])
      && (forall i :: 0 <= i < n ==> b[i] < p < a[i])
      && (forall i :: 0 < i < n ==> b[i - 1] - b[i] == s && a[i] - a[i - 1] == s)
      && (n > 0 ==> Lowest(b) == p - s * n && Highest(a) == p + s * n)
  {
    var b, a := BuyLevels(p, s, n), SellLevels(p, s, n);
    forall i, j | 0 <= i < j < n ensures b[j] < b[i] && a[i] < a[j] {
      LevelsAt(p, s, n, i);
      LevelsAt(p, s, n, j);
      StepGrows(s, i + 1, j + 1);
    }
    forall i | 0 <= i < n ensures b[i] < p < a[i] {
      LevelsAt(p, s, n, i);
      StepGrows(s, 0, i + 1);
    }
    forall i | 0 < i < n ensures b[i - 1] - b[i] == s && a[i] - a[i - 1] == s {
      LevelsAt(p, s, n, i - 1);
      LevelsAt(p, s, n, i);
      assert s * (i + 1) == s * i + s;
    }
    if n > 0 {
      LevelsAt(p, s, n, n - 1);
      OuterLevels(p, s, n);
    }
  }

  lemma LevelsAt(p: Tick, s: int, n: nat, i: nat)
    requires i < n
    ensures BuyLevels(p, s, n)[i] == p - s * (i + 1)
    ensures SellLevels(p, s, n)[i] == p + s * (i + 1)
  {
  }

  lemma OuterLevels(p: Tick, s: int, n: nat)
    requires s > 0 && n > 0
    ensures Lowest(BuyLevels(p, s, n)) == p - s * n
    ensures Highest(SellLevels(p, s, n)) == p + s * n
  {
    var b, a := BuyLevels(p, s, n), SellLevels(p, s, n);
    LevelsAt(p, s, n, n - 1);
    forall x | x in b ensures p - s * n <= x {
      var i :| 0 <= i < n && b[i] == x;
      LevelsAt(p, s, n, i);
      if i < n - 1 { StepGrows(s, i + 1, n); }
    }
    forall x | x in a ensures x <= p + s * n {
      var i :| 0 <= i < n && a[i] == x;
      LevelsAt(p, s, n, i);
      if i < n - 1 { StepGrows(s, i + 1, n); }
    }
    assert b[n - 1] in b && a[n - 1] in a;
  }

  lemma StepGrows(s: int, i: int, j: int)
    requires s > 0 && i < j
    ensures s * i < s * j
  {
    assert s * j == s * i + s * (j - i);
  }

  /** The worked example: reference 100.0, spacing 1.0, three levels per side. */
  lemma HundredByOne()
    ensures CalculateGridLevels(1000000, 10000, 3)
         == GridLevels([990000, 980000, 970000], [1010000, 1020000, 1030000])
  {
  }
}
