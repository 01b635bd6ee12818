/** The seen-card summary under the grid: the total number of cards seen and one line per
    rank that has been seen at least once. */
module Summary {
  import opened Lists
  import opened Cards
  import opened Odds

  /** `total_seen`: the counts of the ledger entries whose rank is active, added up; no
      active count exceeds it. */
  function TotalSeen(items: seq<Item>, ranks: seq<string>): (r: nat)
    ensures forall i :: 0 <= i < |items| && items[i].0.0 in ranks ==> items[i].1 <= r
  {
    if items == [] then 0
    else
      var last := items[|items| - 1];
      TotalSeen(items[..|items| - 1], ranks) + (if last.0.0 in ranks then last.1 else 0)
  }

  /** The number of ledger entries whose rank is active. */
  function ActiveSlots(items: seq<Item>, ranks: seq<string>): nat {
    if items == [] then 0
    else ActiveSlots(items[..|items| - 1], ranks) + (if items[|items| - 1].0.0 in ranks then 1 else 0)
  }

  /** Nothing has been seen exactly when every active entry has count 0. */
  lemma {:induction false} TotalSeenZero(items: seq<Item>, ranks: seq<string>)
    ensures TotalSeen(items, ranks) == 0 <==>
      forall i :: 0 <= i < |items| && items[i].0.0 in ranks ==> items[i].1 == 0
  {
    if items != [] {
      var init := items[..|items| - 1];
      TotalSeenZero(init, ranks);
      assert forall i :: 0 <= i < |init| ==> init[i] == items[i];
    }
  }

  /** Seen and undrawn copies make up the whole pack: as long as no count exceeds the
      number of decks, the cards seen plus the cards remaining equal the number of decks
      times the number of active slots. */
  lemma {:induction false} SeenPlusRemaining(items: seq<Item>, perCardMax: nat, ranks: seq<string>)
    requires forall i :: 0 <= i < |items| && items[i].0.0 in ranks ==> items[i].1 <= perCardMax
    ensures TotalSeen(items, ranks) + RemainingTotal(items, perCardMax, ranks) == perCardMax * ActiveSlots(items, ranks)
  {
    if items != [] {
      var init := items[..|items| - 1];
      assert forall i :: 0 <= i < |init| ==> init[i] == items[i];
      SeenPlusRemaining(init, perCardMax, ranks);
      var n := ActiveSlots(init, ranks);
      assert perCardMax * (n + 1) == perCardMax * n + perCardMax;
    }
  }

  /** `[seen[(card, s)] for s in suits]`: one count per suit. */
  function PerSuit(seen: map<Slot, nat>, card: string, suits: seq<string>): (r: seq<nat>)
    requires forall s :: s in suits ==> (card, s) in seen
    ensures |r| == |suits|
    ensures forall j :: 0 <= j < |suits| ==> r[j] == seen[(card, suits[j])]
  {
    seq(|suits|, j requires 0 <= j < |suits| => seen[(card, suits[j])])
  }

  /** Some per-suit count of a rank is not 0 exactly when a copy of the rank has been
      seen in some suit. */
  lemma PerSuitNonzero(seen: map<Slot, nat>, card: string, suits: seq<string>)
    requires forall s :: s in suits ==> (card, s) in seen
    ensures AnyNonzero(PerSuit(seen, card, suits)) <==> exists s :: s in suits && seen[(card, s)] != 0
  {
    var r := PerSuit(seen, card, suits);
    if s :| s in suits && seen[(card, s)] != 0 {
      var j :| 0 <= j < |suits| && suits[j] == s;
      assert r[j] != 0;
    }
    if AnyNonzero(r) {
      var j :| 0 <= j < |r| && r[j] != 0;
      assert suits[j] in suits && seen[(card, suits[j])] != 0;
    }
  }

  /** Python's `any(xs)` on counts. */
  predicate AnyNonzero(xs: seq<nat>) {
    exists j :: 0 <= j < |xs| && xs[j] != 0
  }

  /** The per-rank lines of the summary, in rank order: a rank is listed, with its counts
      suit by suit, exactly when at least one of those counts is not 0. */
  function RankSummary(seen: map<Slot, nat>, ranks: seq<string>, suits: seq<string>): (r: seq<(string, seq<nat>)>)
    requires forall c, s :: c in ranks && s in suits ==> (c, s) in seen
    ensures |r| <= |ranks|
    ensures forall e :: e in r ==> e.0 in ranks && e.1 == PerSuit(seen, e.0, suits) && AnyNonzero(e.1)
    ensures forall c :: c in ranks && AnyNonzero(PerSuit(seen, c, suits)) ==> (c, PerSuit(seen, c, suits)) in r
  {
    if ranks == [] then []
    else
      var perSuit := PerSuit(seen, ranks[0], suits);
      var rest := RankSummary(seen, ranks[1..], suits);
      assert forall c :: c in ranks ==> c == ranks[0] || c in ranks[1..] by {
        assert ranks == [ranks[0]] + ranks[1..];
      }
      (if AnyNonzero(perSuit) then [(ranks[0], perSuit)] else []) + rest
  }

  /** The summary of two runs of ranks is the summary of the first run followed by that
      of the second: lines keep the order of the ranks. */
  lemma {:induction false} RankSummaryAppend(seen: map<Slot, nat>, a: seq<string>, b: seq<string>, suits: seq<string>)
    requires forall c, s :: c in a && s in suits ==> (c, s) in seen
    requires forall c, s :: c in b && s in suits ==> (c, s) in seen
    ensures RankSummary(seen, a + b, suits) == RankSummary(seen, a, suits) + RankSummary(seen, b, suits)
  {
    if a == [] {
      assert a + b == b;
    } else {
      var ab := a + b;
      assert ab[0] == a[0];
      assert ab[1..] == a[1..] + b;
      RankSummaryAppend(seen, a[1..], b, suits);
      var perSuit := PerSuit(seen, a[0], suits);
      var line := if AnyNonzero(perSuit) then [(a[0], perSuit)] else [];
      var x, y := RankSummary(seen, a[1..], suits), RankSummary(seen, b, suits);
      assert RankSummary(seen, ab, suits) == line + (x + y);
      assert RankSummary(seen, a, suits) == line + x;
      ConcatAssoc(line, x, y);
    }
  }

  /** A single rank gets a line, with its per-suit counts, exactly when one of them is
      not 0. */
  lemma RankSummaryOne(seen: map<Slot, nat>, c: string, suits: seq<string>)
    requires forall s :: s in suits ==> (c, s) in seen
    ensures RankSummary(seen, [c], suits) ==
      if AnyNonzero(PerSuit(seen, c, suits)) then [(c, PerSuit(seen, c, suits))] else []
  {
    assert [c][1..] == [];
  }

  /** After a reset the summary lists no rank and counts no card. */
  lemma ResetSummaryIsEmpty(seen: map<Slot, nat>, items: seq<Item>, ranks: seq<string>, suits: seq<string>)
    requires forall c, s :: c in ranks && s in suits ==> (c, s) in seen
    requires forall k :: k in seen ==> seen[k] == 0
    requires forall i :: 0 <= i < |items| ==> items[i].1 == 0
    ensures RankSummary(seen, ranks, suits) == []
    ensures TotalSeen(items, ranks) == 0
  {
    TotalSeenZero(items, ranks);
  }
}
