/** One run of the tracker page: bring the ledger in line with the deck configuration,
    then show the odds for the last clicked card. */
module Tracker {
  import opened Cards
  import opened Deck
  import opened Odds
  import opened SeenLedger

  /** What the odds column shows. */
  datatype Panel =
    | Prompt
      // no card clicked yet: "Click a card to calculate odds."
    | Shown(card: string, suit: string, high: real, low: real, equal: real, suitChances: map<string, real>)
    | KeyError(missing: string)
      // the rank value lookup for the last clicked card raised KeyError: the page fails

  /** The odds column: the prompt when no card is marked; otherwise `calculate_odds` for
      the marked rank and `calculate_suit_chances`, with the number of decks as the count
      of copies per slot and the active ranks as the valid cards. The value lookup of the
      marked rank fails exactly when that rank is not active. */
  method ShowOdds(ledger: Ledger, numDecks: nat, ranks: seq<string>, suits: seq<string>) returns (panel: Panel)
    requires ledger.Valid()
    requires ledger.seen.Keys == Grid(ranks, suits)
    ensures panel.Prompt? <==> ledger.lastClicked.None?
    ensures panel.KeyError? <==> ledger.lastClicked.Some? && ledger.lastClicked.value.0 !in ranks
    ensures panel.KeyError? ==> panel.missing == ledger.lastClicked.value.0
    ensures panel.Shown? ==>
      var items, values := ledger.Items(), ValueMap(ranks);
      var t := RemainingTotal(items, numDecks, ranks);
      && ledger.lastClicked == Some((panel.card, panel.suit))
      && panel.card in values
      && panel.high == Pct(RemainingOn(items, numDecks, ranks, values, values[panel.card], Higher), t)
      && panel.low == Pct(RemainingOn(items, numDecks, ranks, values, values[panel.card], Lower), t)
      && panel.equal == Pct(RemainingOn(items, numDecks, ranks, values, values[panel.card], Equal), t)
      && (t > 0 ==> panel.high + panel.low + panel.equal == 100.0)
      && (forall s :: s in panel.suitChances <==> s in suits)
      && (forall s :: s in panel.suitChances ==>
            panel.suitChances[s] == Pct(RemainingOfSuit(items, numDecks, ranks, s), t))
  {
    match ledger.lastClicked
    case None =>
      panel := Prompt;
    case Some((card, suit)) =>
      var values := ValueMap(ranks);
      if card !in values {
        panel := KeyError(card);
        return;
      }
      var items := ledger.Items();
      var high, low, equal := CalculateOdds(card, items, numDecks, ranks, values);
      var chances := CalculateSuitChances(items, numDecks, ranks, suits);
      panel := Shown(card, suit, high, low, equal, chances);
  }

  /** One run of the page with the marker cleared on every rebuild: the ledger holds the
      active grid and the odds column never fails. */
  method Rerun(ledger: Ledger, numDecks: nat, ranks: seq<string>, suits: seq<string>) returns (panel: Panel)
    requires ledger.Valid() && ledger.MarkerLive()
    modifies ledger
    ensures ledger.Valid() && ledger.MarkerLive()
    ensures ledger.seen.Keys == Grid(ranks, suits)
    ensures panel.Prompt? <==> ledger.lastClicked.None?
    ensures !panel.KeyError?
    ensures old(ledger.lastClicked).Some? && old(ledger.lastClicked).value.0 !in ranks ==> panel.Prompt?
  {
    if ledger.lastClicked.Some? && ledger.lastClicked.value.0 !in ranks {
      assert ledger.lastClicked.value.0 in RankProjection(ledger.seen);
    }
    ledger.SyncClearingStale(ranks, suits);
    panel := ShowOdds(ledger, numDecks, ranks, suits);
  }

  /** The first run of a session followed by one click on a slot of the grid. */
  method FirstClick(ranks: seq<string>, suits: seq<string>, slot: Slot, numDecks: nat) returns (ledger: Ledger)
    requires slot.0 in ranks && slot.1 in suits && numDecks >= 1
    ensures fresh(ledger)
    ensures ledger.Valid() && ledger.MarkerLive()
    ensures ledger.seen.Keys == Grid(ranks, suits)
    ensures ledger.seen[slot] == 1
    ensures ledger.lastClicked == Some(slot)
  {
    ledger := new Ledger(ranks, suits);
    var count := ledger.Observe(slot, numDecks);
    assert count == 1;
  }

  /** The page as written: click a card, then change the deck so that the clicked rank is
      no longer in it. The ledger is rebuilt but the marker still names the clicked slot,
      whose rank has no value any more, so the odds column fails on that rank. */
  method StaleMarkerCrashes(ranks: seq<string>, suits: seq<string>, slot: Slot, numDecks: nat, newRanks: seq<string>)
    returns (panel: Panel)
    requires slot.0 in ranks && slot.1 in suits && numDecks >= 1
    requires slot.0 !in newRanks
    ensures panel == KeyError(slot.0)
  {
    var ledger := FirstClick(ranks, suits, slot, numDecks);
    ledger.Sync(newRanks, suits);
    panel := ShowOdds(ledger, numDecks, newRanks, suits);
  }

  /** One such run: on a custom deck "Q,K" with custom suits "S,H", click the king of
      spades and then change the deck to "Q". */
  method KingDroppedFromDeck() returns (panel: Panel)
    ensures panel == KeyError("K")
  {
    panel := StaleMarkerCrashes(["Q", "K"], ["S", "H"], ("K", "S"), 1, ["Q"]);
  }

  /** The same clicks with the marker cleared on rebuild: the column shows the prompt. */
  method StaleMarkerCleared(ranks: seq<string>, suits: seq<string>, slot: Slot, numDecks: nat, newRanks: seq<string>)
    returns (panel: Panel)
    requires slot.0 in ranks && slot.1 in suits && numDecks >= 1
    requires slot.0 !in newRanks
    ensures panel == Prompt
  {
    var ledger := FirstClick(ranks, suits, slot, numDecks);
    panel := Rerun(ledger, numDecks, newRanks, suits);
  }
}
