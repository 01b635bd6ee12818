/** The seen-card ledger kept in the session state: a count per (rank, suit) slot, in the
    key order of the dictionary that holds it, and the marker of the last clicked slot. */
module SeenLedger {
  import opened Lists
  import opened Cards

  datatype Option<T> = None | Some(value: T)

  /** Every combination of a listed rank and a listed suit. */
  function Grid(ranks: seq<string>, suits: seq<string>): (g: set<Slot>)
    ensures forall k :: k in g <==> k.0 in ranks && k.1 in suits
  {
    set r, s | r in ranks && s in suits :: (r, s)
  }

  /** The slots of one suit, rank by rank: the inner loop of the comprehension. */
  function Row(ranks: seq<string>, suit: string): (r: seq<Slot>)
    ensures |r| == |ranks|
    ensures forall i :: 0 <= i < |ranks| ==> r[i] == (ranks[i], suit)
  {
    seq(|ranks|, i requires 0 <= i < |ranks| => (ranks[i], suit))
  }

  /** The slots `for suit in suits for card in ranks` visits, suit by suit and rank by
      rank, repetitions included. */
  function CrossOrder(ranks: seq<string>, suits: seq<string>): (r: seq<Slot>)
    ensures forall k :: k in r <==> k.0 in ranks && k.1 in suits
    ensures |r| == |ranks| * |suits|
  {
    if suits == [] then []
    else
      var last := suits[|suits| - 1];
      var row := Row(ranks, last);
      assert forall k :: k in row <==> k.0 in ranks && k.1 == last by {
        forall k: Slot | k.0 in ranks && k.1 == last ensures k in row {
          var i :| 0 <= i < |ranks| && ranks[i] == k.0;
          assert row[i] == k;
        }
      }
      assert forall s :: s in suits <==> s in suits[..|suits| - 1] || s == last by {
        assert suits == suits[..|suits| - 1] + [last];
      }
      var prev := CrossOrder(ranks, suits[..|suits| - 1]);
      assert |prev| + |row| == |ranks| * |suits| by {
        assert |ranks| * (|suits| - 1) + |ranks| == |ranks| * |suits|;
      }
      prev + row
  }

  /** The slots visited for all suits but the last come first, in the same places. */
  lemma CrossOrderInit(ranks: seq<string>, suits: seq<string>, p: nat)
    requires suits != [] && p < |CrossOrder(ranks, suits[..|suits| - 1])|
    ensures p < |CrossOrder(ranks, suits)|
    ensures CrossOrder(ranks, suits)[p] == CrossOrder(ranks, suits[..|suits| - 1])[p]
  {
    var prev := CrossOrder(ranks, suits[..|suits| - 1]);
    var row := Row(ranks, suits[|suits| - 1]);
    assert CrossOrder(ranks, suits) == prev + row;
  }

  /** The slots of the last suit come last, rank by rank. */
  lemma CrossOrderLast(ranks: seq<string>, suits: seq<string>, i: nat)
    requires suits != [] && i < |ranks|
    ensures (|suits| - 1) * |ranks| + i < |CrossOrder(ranks, suits)|
    ensures CrossOrder(ranks, suits)[(|suits| - 1) * |ranks| + i] == (ranks[i], suits[|suits| - 1])
  {
    var prev := CrossOrder(ranks, suits[..|suits| - 1]);
    var row := Row(ranks, suits[|suits| - 1]);
    assert CrossOrder(ranks, suits) == prev + row;
    assert |prev| == (|suits| - 1) * |ranks|;
    assert (prev + row)[|prev| + i] == row[i];
  }

  /** The comprehension visits suit by suit and, within a suit, rank by rank: the slot
      (ranks[i], suits[j]) comes at position j * |ranks| + i. */
  lemma {:induction false} CrossOrderAt(ranks: seq<string>, suits: seq<string>, i: nat, j: nat)
    requires i < |ranks| && j < |suits|
    ensures j * |ranks| + i < |CrossOrder(ranks, suits)|
    ensures CrossOrder(ranks, suits)[j * |ranks| + i] == (ranks[i], suits[j])
  {
    var init := suits[..|suits| - 1];
    if j < |suits| - 1 {
      CrossOrderAt(ranks, init, i, j);
      CrossOrderInit(ranks, suits, j * |ranks| + i);
      assert init[j] == suits[j];
    } else {
      CrossOrderLast(ranks, suits, i);
    }
  }

  /** Without repeated ranks or suits, the comprehension visits no slot twice. */
  lemma {:induction false} CrossOrderDistinct(ranks: seq<string>, suits: seq<string>)
    requires Distinct(ranks) && Distinct(suits)
    ensures Distinct(CrossOrder(ranks, suits))
  {
    if suits != [] {
      var init := suits[..|suits| - 1];
      var last := suits[|suits| - 1];
      var prev := CrossOrder(ranks, init);
      var row := Row(ranks, last);
      assert CrossOrder(ranks, suits) == prev + row;
      CrossOrderDistinct(ranks, init);
      forall k | k in prev ensures k !in row {
        var j :| 0 <= j < |init| && init[j] == k.1;
        assert suits[j] != last;
      }
      DistinctAppend(prev, row);
    }
  }

  /** The key order of `{(card, suit): 0 for suit in suits for card in ranks}`: a repeated
      slot keeps the place of its first insertion. */
  function KeyOrder(ranks: seq<string>, suits: seq<string>): (r: seq<Slot>)
    ensures Distinct(r)
    ensures forall k :: k in r <==> k in Grid(ranks, suits)
  {
    Dedup(CrossOrder(ranks, suits))
  }

  /** Without repeated ranks or suits, the built dictionary's keys come suit by suit and,
      within a suit, rank by rank: the slot (ranks[i], suits[j]) is key number
      j * |ranks| + i. */
  lemma KeyOrderAt(ranks: seq<string>, suits: seq<string>, i: nat, j: nat)
    requires Distinct(ranks) && Distinct(suits)
    requires i < |ranks| && j < |suits|
    ensures j * |ranks| + i < |KeyOrder(ranks, suits)|
    ensures KeyOrder(ranks, suits)[j * |ranks| + i] == (ranks[i], suits[j])
  {
    CrossOrderDistinct(ranks, suits);
    DedupOfDistinct(CrossOrder(ranks, suits));
    CrossOrderAt(ranks, suits, i, j);
  }

  /** A freshly built ledger: every slot of the grid, each with count 0. */
  function ZeroTable(ranks: seq<string>, suits: seq<string>): (m: map<Slot, nat>)
    ensures m.Keys == Grid(ranks, suits)
    ensures forall k :: k in m ==> m[k] == 0
  {
    map k | k in Grid(ranks, suits) :: 0
  }

  /** `set(k[0] for k in seen.keys())`: the ranks that occur in some key. */
  function RankProjection(m: map<Slot, nat>): set<string> {
    set k | k in m :: k.0
  }

  /** The rank projection holds the rank of every key and nothing else. */
  lemma RankProjectionOnly(m: map<Slot, nat>, c: string)
    ensures c in RankProjection(m) <==> exists s :: (c, s) in m
  {
    forall s | (c, s) in m ensures c in RankProjection(m) {
      assert (c, s).0 == c;
    }
    if c in RankProjection(m) {
      var k :| k in m && k.0 == c;
      assert (c, k.1) == k;
    }
  }

  /** `set(k[1] for k in seen.keys())`: the suits that occur in some key. */
  function SuitProjection(m: map<Slot, nat>): set<string> {
    set k | k in m :: k.1
  }

  /** The suit projection holds the suit of every key and nothing else. */
  lemma SuitProjectionOnly(m: map<Slot, nat>, s: string)
    ensures s in SuitProjection(m) <==> exists c :: (c, s) in m
  {
    forall c | (c, s) in m ensures s in SuitProjection(m) {
      assert (c, s).1 == s;
    }
    if s in SuitProjection(m) {
      var k :| k in m && k.1 == s;
      assert (k.0, s) == k;
    }
  }

  /** The rebuild test: the ranks or the suits of the ledger's keys differ from the active
      ones (compared as sets, so order and repetition do not matter). */
  predicate NeedsRebuild(m: map<Slot, nat>, ranks: seq<string>, suits: seq<string>) {
    RankProjection(m) != (set r | r in ranks) || SuitProjection(m) != (set s | s in suits)
  }

  /** A ledger that holds exactly the grid of some ranks and suits, none of them empty,
      passes the rebuild test for those ranks and suits: a rebuild is not repeated on the
      next run. */
  lemma RebuildNotRepeated(m: map<Slot, nat>, ranks: seq<string>, suits: seq<string>)
    requires m.Keys == Grid(ranks, suits) && ranks != [] && suits != []
    ensures !NeedsRebuild(m, ranks, suits)
  {
    forall c | c in ranks ensures c in RankProjection(m) {
      assert (c, suits[0]) in m;
    }
    forall s | s in suits ensures s in SuitProjection(m) {
      assert (ranks[0], s) in m;
    }
    forall c | c in RankProjection(m) ensures c in ranks {
      RankProjectionOnly(m, c);
    }
    forall s | s in SuitProjection(m) ensures s in suits {
      SuitProjectionOnly(m, s);
    }
  }

  /** The keys are all combinations of their ranks and their suits, as every ledger built
      from a grid is. */
  ghost predicate Rectangular(m: map<Slot, nat>) {
    forall a, b {:trigger (a.0, b.1) in m} :: a in m && b in m ==> (a.0, b.1) in m
  }

  /** Being rectangular depends on the keys alone. */
  lemma RectangularKeys(m: map<Slot, nat>, m': map<Slot, nat>)
    requires Rectangular(m) && m'.Keys == m.Keys
    ensures Rectangular(m')
  {
    forall a, b | a in m' && b in m' ensures (a.0, b.1) in m' {
      assert a in m && b in m;
    }
  }

  /** When the rebuild test finds nothing to do, the ledger already holds exactly the
      slots of the active grid. */
  lemma KeptLedgerCoversGrid(m: map<Slot, nat>, ranks: seq<string>, suits: seq<string>)
    requires Rectangular(m)
    requires !NeedsRebuild(m, ranks, suits)
    ensures m.Keys == Grid(ranks, suits)
  {
    forall k | k in Grid(ranks, suits) ensures k in m {
      assert k.0 in RankProjection(m);
      assert k.1 in SuitProjection(m);
      RankProjectionOnly(m, k.0);
      SuitProjectionOnly(m, k.1);
      var s :| (k.0, s) in m;
      var c :| (c, k.1) in m;
      assert ((k.0, s).0, (c, k.1).1) in m;
    }
    forall k | k in m ensures k in Grid(ranks, suits) {
      assert k.0 in RankProjection(m);
      assert k.1 in SuitProjection(m);
    }
  }

  /** What a reset leaves: the same keys, all counts 0. */
  function Zeroed(m: map<Slot, nat>): (z: map<Slot, nat>)
    ensures z.Keys == m.Keys
    ensures forall k :: k in z ==> z[k] == 0
  {
    map k | k in m :: 0
  }

  /** Resetting twice leaves the same ledger as resetting once. */
  lemma ResetIdempotent(m: map<Slot, nat>)
    ensures Zeroed(Zeroed(m)) == Zeroed(m)
  {
  }

  /** One click on a slot: `(count + 1) % (num_decks + 1)`, a counter that cycles through
      0, 1, ..., num_decks. A count above num_decks, left from a larger deck setting, is
      taken modulo num_decks + 1 after the increment. */
  function Cycle(count: nat, numDecks: nat): (r: nat)
    ensures r <= numDecks
    ensures count < numDecks ==> r == count + 1
    ensures count == numDecks ==> r == 0
  {
    (count + 1) % (numDecks + 1)
  }

  /** A count after `k` clicks. */
  function CycleTimes(count: nat, numDecks: nat, k: nat): nat {
    if k == 0 then count else Cycle(CycleTimes(count, numDecks, k - 1), numDecks)
  }

  /** Up to one full round of clicks, a count within range moves forward and wraps once. */
  lemma {:induction false} CycleTimesValue(count: nat, numDecks: nat, k: nat)
    requires count <= numDecks && k <= numDecks + 1
    ensures CycleTimes(count, numDecks, k) == if count + k <= numDecks then count + k else count + k - (numDecks + 1)
  {
    if k > 0 {
      CycleTimesValue(count, numDecks, k - 1);
    }
  }

  /** num_decks + 1 clicks on a slot bring a count within range back to where it was. */
  lemma FullRoundRestoresCount(count: nat, numDecks: nat)
    requires count <= numDecks
    ensures CycleTimes(count, numDecks, numDecks + 1) == count
  {
    CycleTimesValue(count, numDecks, numDecks + 1);
  }

  /** A count above num_decks (the slider was lowered after the clicks) is not restored by a
      round of clicks: with one deck, a count of 3 goes to 0 and then to 1. */
  lemma ShrunkDeckCountIsNotRestored()
    ensures CycleTimes(3, 1, 2) == 1
  {
    assert CycleTimes(3, 1, 1) == 0;
  }

  /** The ledger after one click on `slot`. */
  function Observed(m: map<Slot, nat>, slot: Slot, numDecks: nat): (r: map<Slot, nat>)
    requires slot in m
    ensures r.Keys == m.Keys
    ensures r[slot] <= numDecks
    ensures forall k :: k in m && k != slot ==> r[k] == m[k]
  {
    m[slot := Cycle(m[slot], numDecks)]
  }

  /** The ledger after `k` clicks on `slot`. */
  function ObservedTimes(m: map<Slot, nat>, slot: Slot, numDecks: nat, k: nat): (r: map<Slot, nat>)
    requires slot in m
    ensures r.Keys == m.Keys
  {
    if k == 0 then m else Observed(ObservedTimes(m, slot, numDecks, k - 1), slot, numDecks)
  }

  /** Clicks on one slot change only that slot's count, by the cycling rule. */
  lemma {:induction false} ObservedTimesAt(m: map<Slot, nat>, slot: Slot, numDecks: nat, k: nat)
    requires slot in m
    ensures ObservedTimes(m, slot, numDecks, k) == m[slot := CycleTimes(m[slot], numDecks, k)]
  {
    if k > 0 {
      ObservedTimesAt(m, slot, numDecks, k - 1);
    }
  }

  /** num_decks + 1 clicks on the same slot give back the ledger as it was, when its count
      is within range: for the odds the slot is as if never clicked. */
  lemma FullRoundRestoresLedger(m: map<Slot, nat>, slot: Slot, numDecks: nat)
    requires slot in m && m[slot] <= numDecks
    ensures ObservedTimes(m, slot, numDecks, numDecks + 1) == m
  {
    ObservedTimesAt(m, slot, numDecks, numDecks + 1);
    FullRoundRestoresCount(m[slot], numDecks);
  }

  /** The session's `seen` dictionary and `last_clicked` marker. */
  class Ledger {
    /** The dictionary's key order. */
    var order: seq<Slot>
    /** The dictionary's contents. */
    var seen: map<Slot, nat>
    /** The last clicked slot, or none. */
    var lastClicked: Option<Slot>

    ghost predicate Valid()
      reads this
    {
      && Distinct(order)
      && (forall k :: k in seen <==> k in order)
      && Rectangular(seen)
    }

    /** The marker names a slot of the ledger (or nothing). */
    ghost predicate MarkerLive()
      reads this
    {
      lastClicked.None? || lastClicked.value in seen
    }

    /** `seen.items()`: every entry once, in key order. */
    function Items(): (r: seq<Item>)
      reads this
      requires Valid()
      ensures |r| == |order|
      ensures forall i :: 0 <= i < |r| ==> r[i].0 == order[i] && r[i].0 in seen && r[i].1 == seen[order[i]]
    {
      var o, m := order, seen;
      seq(|o|, i requires 0 <= i < |o| => (o[i], m[o[i]]))
    }

    /** First run of the session: the ledger over the active grid, all zeros, and no
        marker. */
    constructor (ranks: seq<string>, suits: seq<string>)
      ensures Valid() && MarkerLive()
      ensures order == KeyOrder(ranks, suits)
      ensures seen == ZeroTable(ranks, suits)
      ensures lastClicked == None
    {
      order := KeyOrder(ranks, suits);
      seen := ZeroTable(ranks, suits);
      lastClicked := None;
    }

    /** Every later run: the ledger is rebuilt with all zeros when its ranks or suits differ
        from the active ones, and kept as it is otherwise (a change of the deck count alone
        keeps it). Either way it then holds exactly the active grid. The marker is not
        touched. */
    method Sync(ranks: seq<string>, suits: seq<string>)
      requires Valid()
      modifies this
      ensures Valid()
      ensures seen.Keys == Grid(ranks, suits)
      ensures NeedsRebuild(old(seen), ranks, suits) ==>
        seen == ZeroTable(ranks, suits) && order == KeyOrder(ranks, suits)
      ensures !NeedsRebuild(old(seen), ranks, suits) ==> seen == old(seen) && order == old(order)
      ensures lastClicked == old(lastClicked)
    {
      if NeedsRebuild(seen, ranks, suits) {
        order := KeyOrder(ranks, suits);
        seen := ZeroTable(ranks, suits);
      } else {
        KeptLedgerCoversGrid(seen, ranks, suits);
      }
    }

    /** Sync that also clears the marker whenever it rebuilds, so that the marker always
        names a slot of the active grid. */
    method SyncClearingStale(ranks: seq<string>, suits: seq<string>)
      requires Valid() && MarkerLive()
      modifies this
      ensures Valid() && MarkerLive()
      ensures seen.Keys == Grid(ranks, suits)
      ensures NeedsRebuild(old(seen), ranks, suits) ==>
        seen == ZeroTable(ranks, suits) && order == KeyOrder(ranks, suits) && lastClicked == None
      ensures !NeedsRebuild(old(seen), ranks, suits) ==>
        seen == old(seen) && order == old(order) && lastClicked == old(lastClicked)
      ensures lastClicked.Some? ==> lastClicked.value.0 in ranks && lastClicked.value.1 in suits
    {
      if NeedsRebuild(seen, ranks, suits) {
        order := KeyOrder(ranks, suits);
        seen := ZeroTable(ranks, suits);
        lastClicked := None;
      } else {
        KeptLedgerCoversGrid(seen, ranks, suits);
      }
    }

    /** The reset button: every count back to 0 and no marker; the keys stay. */
    method Reset()
      requires Valid()
      modifies this
      ensures Valid() && MarkerLive()
      ensures order == old(order)
      ensures seen == Zeroed(old(seen))
      ensures lastClicked == None
    {
      for i := 0 to |order|
        invariant order == old(order)
        invariant seen.Keys == old(seen).Keys
        invariant forall j :: 0 <= j < i ==> seen[order[j]] == 0
      {
        seen := seen[order[i] := 0];
      }
      lastClicked := None;
    }

    /** A click on a slot: its count cycles (the result is at most num_decks), no other
        count changes, and the slot becomes the marker. */
    method Observe(slot: Slot, numDecks: nat) returns (count: nat)
      requires Valid() && slot in seen
      requires numDecks >= 1
      modifies this
      ensures Valid() && MarkerLive()
      ensures order == old(order)
      ensures count <= numDecks
      ensures count == Cycle(old(seen)[slot], numDecks)
      ensures seen == Observed(old(seen), slot, numDecks)
      ensures lastClicked == Some(slot)
    {
      var next := Observed(seen, slot, numDecks);
      RectangularKeys(seen, next);
      assert forall k :: k in next <==> k in seen;
      seen := next;
      lastClicked := Some(slot);
      count := seen[slot];
    }
  }
}
