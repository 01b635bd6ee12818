/** The odds engine: how many copies of each card slot are still undrawn, and how those
    copies split into higher / lower / equal than the current card and into suits. */
module Odds {
  import opened Lists
  import opened Cards

  /** How the value of a rank compares with the value of the current card. */
  datatype Side = Higher | Lower | Equal

  /** `max(0, per_card_max - count)`: the copies of one slot not seen yet. */
  function Remaining(perCardMax: nat, count: nat): (r: nat)
    ensures r <= perCardMax
    ensures r == 0 <==> perCardMax <= count
    ensures count <= perCardMax ==> count + r == perCardMax
  {
    if perCardMax > count then perCardMax - count else 0
  }

  function SideOf(val: int, cur: int): Side {
    if val > cur then Higher else if val < cur then Lower else Equal
  }

  /** The copies one ledger entry adds to the undrawn population: entries whose rank is
      not among the valid cards add nothing. */
  function Contribution(item: Item, perCardMax: nat, valid: seq<string>): nat {
    if item.0.0 in valid then Remaining(perCardMax, item.1) else 0
  }

  /** The whole undrawn population of the valid ranks. */
  function RemainingTotal(items: seq<Item>, perCardMax: nat, valid: seq<string>): nat {
    if items == [] then 0
    else RemainingTotal(items[..|items| - 1], perCardMax, valid) + Contribution(items[|items| - 1], perCardMax, valid)
  }

  /** Every valid rank has a value. */
  predicate Valued(valid: seq<string>, values: map<string, int>) {
    forall c :: c in valid ==> c in values
  }

  /** Nothing is left exactly when every valid entry has been seen `per_card_max` times
      or more. */
  lemma {:induction false} RemainingTotalZero(items: seq<Item>, perCardMax: nat, valid: seq<string>)
    ensures RemainingTotal(items, perCardMax, valid) == 0 <==>
      forall i :: 0 <= i < |items| && items[i].0.0 in valid ==> perCardMax <= items[i].1
  {
    if items != [] {
      var init := items[..|items| - 1];
      RemainingTotalZero(init, perCardMax, valid);
      assert forall i :: 0 <= i < |init| ==> init[i] == items[i];
    }
  }

  /** The undrawn population whose rank value lies on `side` of `cur`: part of the whole. */
  function RemainingOn(items: seq<Item>, perCardMax: nat, valid: seq<string>, values: map<string, int>, cur: int, side: Side): (r: nat)
    requires Valued(valid, values)
    ensures r <= RemainingTotal(items, perCardMax, valid)
  {
    if items == [] then 0
    else
      var last := items[|items| - 1];
      RemainingOn(items[..|items| - 1], perCardMax, valid, values, cur, side) +
      (if last.0.0 in valid && SideOf(values[last.0.0], cur) == side then Remaining(perCardMax, last.1) else 0)
  }

  /** The undrawn population of one suit: part of the whole. */
  function RemainingOfSuit(items: seq<Item>, perCardMax: nat, valid: seq<string>, suit: string): (r: nat)
    ensures r <= RemainingTotal(items, perCardMax, valid)
  {
    if items == [] then 0
    else
      var last := items[|items| - 1];
      RemainingOfSuit(items[..|items| - 1], perCardMax, valid, suit) +
      (if last.0.0 in valid && last.0.1 == suit then Remaining(perCardMax, last.1) else 0)
  }

  /** `bucket / total * 100`, or 0 when nothing is left; never negative, and 0 for an
      empty bucket. */
  function Pct(bucket: nat, total: nat): (r: real)
    ensures total == 0 || bucket == 0 ==> r == 0.0
    ensures 0.0 <= r
  {
    if total == 0 then 0.0
    else
      assert 0.0 <= bucket as real / total as real;
      (bucket as real / total as real) * 100.0
  }

  /** A bucket no larger than the total is a percentage between 0 and 100. */
  lemma PctBounds(bucket: nat, total: nat)
    requires bucket <= total
    ensures 0.0 <= Pct(bucket, total) <= 100.0
  {
    if total != 0 {
      var t := total as real;
      assert bucket as real / t <= 1.0 by {
        assert (bucket as real / t) * t == bucket as real;
      }
    }
  }

  /** Percentages of the same total add up like the buckets do. */
  lemma PctAdd(a: nat, b: nat, total: nat)
    ensures Pct(a, total) + Pct(b, total) == Pct(a + b, total)
  {
    if total != 0 {
      var t := total as real;
      assert a as real / t + b as real / t == (a + b) as real / t;
    }
  }

  /** The whole population is 100 percent of itself. */
  lemma PctOfTotal(total: nat)
    requires total > 0
    ensures Pct(total, total) == 100.0
  {
    assert total as real / total as real == 1.0;
  }

  /** The three buckets of `calculate_odds` partition the undrawn population: every valid
      entry lands in exactly one of higher, lower and equal. */
  lemma {:induction false} BucketsPartitionTotal(items: seq<Item>, perCardMax: nat, valid: seq<string>, values: map<string, int>, cur: int)
    requires Valued(valid, values)
    ensures RemainingOn(items, perCardMax, valid, values, cur, Higher)
          + RemainingOn(items, perCardMax, valid, values, cur, Lower)
          + RemainingOn(items, perCardMax, valid, values, cur, Equal)
         == RemainingTotal(items, perCardMax, valid)
  {
    if items != [] {
      BucketsPartitionTotal(items[..|items| - 1], perCardMax, valid, values, cur);
    }
  }

  /** Whenever anything is left, the three percentages add up to 100. */
  lemma OddsSumTo100(items: seq<Item>, perCardMax: nat, valid: seq<string>, values: map<string, int>, cur: int)
    requires Valued(valid, values)
    requires RemainingTotal(items, perCardMax, valid) > 0
    ensures var t := RemainingTotal(items, perCardMax, valid);
      Pct(RemainingOn(items, perCardMax, valid, values, cur, Higher), t)
      + Pct(RemainingOn(items, perCardMax, valid, values, cur, Lower), t)
      + Pct(RemainingOn(items, perCardMax, valid, values, cur, Equal), t) == 100.0
  {
    var t := RemainingTotal(items, perCardMax, valid);
    var h := RemainingOn(items, perCardMax, valid, values, cur, Higher);
    var l := RemainingOn(items, perCardMax, valid, values, cur, Lower);
    var e := RemainingOn(items, perCardMax, valid, values, cur, Equal);
    BucketsPartitionTotal(items, perCardMax, valid, values, cur);
    PctAdd(h, l, t);
    PctAdd(h + l, e, t);
    PctOfTotal(t);
  }

  /** `calculate_odds`: the higher / lower / equal percentages of the undrawn population
      of the valid ranks, measured against the value of the current card. */
  method CalculateOdds(current: string, items: seq<Item>, perCardMax: nat, valid: seq<string>, values: map<string, int>)
    returns (high: real, low: real, equal: real)
    requires current in values
    requires Valued(valid, values)
    ensures var t := RemainingTotal(items, perCardMax, valid);
      && high == Pct(RemainingOn(items, perCardMax, valid, values, values[current], Higher), t)
      && low == Pct(RemainingOn(items, perCardMax, valid, values, values[current], Lower), t)
      && equal == Pct(RemainingOn(items, perCardMax, valid, values, values[current], Equal), t)
    ensures RemainingTotal(items, perCardMax, valid) == 0 ==> high == 0.0 && low == 0.0 && equal == 0.0
    ensures RemainingTotal(items, perCardMax, valid) > 0 ==> high + low + equal == 100.0
  {
    var curVal := values[current];
    var higher, lower, equalCount, total := 0, 0, 0, 0;
    for i := 0 to |items|
      invariant higher == RemainingOn(items[..i], perCardMax, valid, values, curVal, Higher)
      invariant lower == RemainingOn(items[..i], perCardMax, valid, values, curVal, Lower)
      invariant equalCount == RemainingOn(items[..i], perCardMax, valid, values, curVal, Equal)
      invariant total == RemainingTotal(items[..i], perCardMax, valid)
    {
      assert items[..i + 1][..i] == items[..i];
      var ((card, suit), count) := items[i];
      if card !in valid {
        continue;
      }
      var val := values[card];
      var diff := perCardMax - count;
      var remaining := if diff > 0 then diff else 0;
      total := total + remaining;
      if val > curVal {
        higher := higher + remaining;
      } else if val < curVal {
        lower := lower + remaining;
      } else if val == curVal {
        equalCount := equalCount + remaining;
      }
    }
    assert items[..|items|] == items;
    high := if total != 0 then (higher as real / total as real) * 100.0 else 0.0;
    low := if total != 0 then (lower as real / total as real) * 100.0 else 0.0;
    equal := if total != 0 then (equalCount as real / total as real) * 100.0 else 0.0;
    if total > 0 {
      OddsSumTo100(items, perCardMax, valid, values, curVal);
    }
  }

  /** The undrawn population summed suit by suit over the list `ds`. */
  function SumOverSuits(ds: seq<string>, items: seq<Item>, perCardMax: nat, valid: seq<string>): nat {
    if ds == [] then 0
    else RemainingOfSuit(items, perCardMax, valid, ds[0]) + SumOverSuits(ds[1..], items, perCardMax, valid)
  }

  /** Adding one ledger entry adds its copies to the suit sum exactly once when its suit is
      listed (and the list has no repetition), and not at all otherwise. */
  lemma {:induction false} SumOverSuitsAppend(ds: seq<string>, items: seq<Item>, x: Item, perCardMax: nat, valid: seq<string>)
    requires Distinct(ds)
    ensures SumOverSuits(ds, items + [x], perCardMax, valid)
         == SumOverSuits(ds, items, perCardMax, valid) + (if x.0.1 in ds then Contribution(x, perCardMax, valid) else 0)
  {
    assert (items + [x])[..|items|] == items;
    if ds != [] {
      assert Distinct(ds[1..]);
      SumOverSuitsAppend(ds[1..], items, x, perCardMax, valid);
      assert x.0.1 in ds <==> x.0.1 == ds[0] || x.0.1 in ds[1..] by {
        assert ds == [ds[0]] + ds[1..];
      }
      assert x.0.1 == ds[0] ==> x.0.1 !in ds[1..] by {
        forall k | 0 <= k < |ds[1..]| ensures ds[1..][k] != ds[0] {
          assert ds[1..][k] == ds[k + 1];
        }
      }
    }
  }

  /** The suit buckets of `calculate_suit_chances` partition the undrawn population, as long
      as every valid entry's suit is listed once. */
  lemma {:induction false} SuitsPartitionTotal(ds: seq<string>, items: seq<Item>, perCardMax: nat, valid: seq<string>)
    requires Distinct(ds)
    requires forall i :: 0 <= i < |items| && items[i].0.0 in valid ==> items[i].0.1 in ds
    ensures SumOverSuits(ds, items, perCardMax, valid) == RemainingTotal(items, perCardMax, valid)
  {
    if items == [] {
      SumOverSuitsOfNothing(ds, perCardMax, valid);
    } else {
      var init := items[..|items| - 1];
      var x := items[|items| - 1];
      assert init + [x] == items;
      SuitsPartitionTotal(ds, init, perCardMax, valid);
      SumOverSuitsAppend(ds, init, x, perCardMax, valid);
    }
  }

  lemma {:induction false} SumOverSuitsOfNothing(ds: seq<string>, perCardMax: nat, valid: seq<string>)
    ensures SumOverSuits(ds, [], perCardMax, valid) == 0
  {
    if ds != [] {
      SumOverSuitsOfNothing(ds[1..], perCardMax, valid);
    }
  }

  /** The values of `m` at the keys `ds`, added up. */
  function SumValues(ds: seq<string>, m: map<string, real>): real
    requires forall s :: s in ds ==> s in m
  {
    if ds == [] then 0.0 else m[ds[0]] + SumValues(ds[1..], m)
  }

  /** Summing suit percentages equals the percentage of the summed suit populations. */
  lemma {:induction false} SumValuesOfPct(ds: seq<string>, m: map<string, real>, items: seq<Item>, perCardMax: nat, valid: seq<string>)
    requires forall s :: s in ds ==> s in m
    requires forall s :: s in m ==>
      m[s] == Pct(RemainingOfSuit(items, perCardMax, valid, s), RemainingTotal(items, perCardMax, valid))
    ensures SumValues(ds, m) == Pct(SumOverSuits(ds, items, perCardMax, valid), RemainingTotal(items, perCardMax, valid))
  {
    var t := RemainingTotal(items, perCardMax, valid);
    if ds != [] {
      SumValuesOfPct(ds[1..], m, items, perCardMax, valid);
      PctAdd(RemainingOfSuit(items, perCardMax, valid, ds[0]), SumOverSuits(ds[1..], items, perCardMax, valid), t);
    }
  }

  /** `calculate_suit_chances`: for every listed suit, the percentage of the undrawn
      population of the valid ranks that has that suit. The percentages of the distinct
      suits add up to 100 when anything is left; all are 0 otherwise. */
  method CalculateSuitChances(items: seq<Item>, perCardMax: nat, valid: seq<string>, suits: seq<string>)
    returns (chances: map<string, real>)
    requires forall i :: 0 <= i < |items| && items[i].0.0 in valid ==> items[i].0.1 in suits
    ensures forall s :: s in chances <==> s in suits
    ensures forall s :: s in chances ==>
      chances[s] == Pct(RemainingOfSuit(items, perCardMax, valid, s), RemainingTotal(items, perCardMax, valid))
    ensures RemainingTotal(items, perCardMax, valid) == 0 ==> forall s :: s in chances ==> chances[s] == 0.0
    ensures RemainingTotal(items, perCardMax, valid) > 0 ==> SumValues(Dedup(suits), chances) == 100.0
  {
    var suitTotals: map<string, nat> := map s | s in suits :: 0;
    var total := 0;
    for i := 0 to |items|
      invariant forall s :: s in suitTotals <==> s in suits
      invariant forall s :: s in suitTotals ==> suitTotals[s] == RemainingOfSuit(items[..i], perCardMax, valid, s)
      invariant total == RemainingTotal(items[..i], perCardMax, valid)
    {
      assert items[..i + 1][..i] == items[..i];
      var ((card, suit), count) := items[i];
      if card !in valid {
        continue;
      }
      var diff := perCardMax - count;
      var remaining := if diff > 0 then diff else 0;
      suitTotals := suitTotals[suit := suitTotals[suit] + remaining];
      total := total + remaining;
    }
    assert items[..|items|] == items;
    chances := map s | s in suits :: if total != 0 then (suitTotals[s] as real / total as real) * 100.0 else 0.0;
    if total > 0 {
      SuitsPartitionTotal(Dedup(suits), items, perCardMax, valid);
      SumValuesOfPct(Dedup(suits), chances, items, perCardMax, valid);
      PctOfTotal(total);
    }
  }
}
