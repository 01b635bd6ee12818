# Higher / Lower odds tracker — a Dafny model

`higher_lower_tracker.py` is a one-page Streamlit app for the card game Higher or Lower.
The player configures a deck and clicks the cards as they come out. The page then shows:

- the chance that the next card is higher than, lower than or equal to the last clicked
  card;
- the chance of each suit;
- a summary of the cards seen so far.

The deck configuration is:

- the number of decks;
- the ranks, either a range of the standard order or a comma-separated custom list;
- the suits, either the four standard ones or a comma-separated custom list.

This project models the logic of one run of that page:

- `Deck` (`deck.dfy`) parses the deck configuration. It covers:
  - the range slice of the canonical rank order;
  - the custom deck and custom suits parses (split on commas, strip, upper-case the
    ranks, drop empty pieces);
  - the rank value map `{card: i + 2}`, in which a repeated label takes the value of its
    last position.
- `Text` (`text.dfy`) defines Python's `str.split(",")`, `str.strip()`, `str.upper()` and
  `",".join`, as the parses use them.
- `SeenLedger` (`ledger.dfy`) holds the session state: the `seen` dictionary (its key
  order as a sequence, its contents as a map) and the `last_clicked` marker. The class
  `Ledger` has four operations:
  - the first-run build;
  - the per-run rebuild test;
  - the reset button;
  - a card click, which cycles the count through 0 … num_decks.
- `Odds` (`odds.dfy`) contains `calculate_odds` and `calculate_suit_chances`. Each is a
  loop over the ledger entries, proved against recursive sums of the undrawn population.
- `Summary` (`summary.dfy`) covers the total seen and the per-rank summary lines.
- `Tracker` (`tracker.dfy`) covers the odds column of one run, and the run in which the
  stale marker breaks the page (see Findings).
- `Lists` (`lists.dfy`) defines `Distinct` and `Dedup`. `Dedup` is how a dict
  comprehension orders a repeated key: first insertion wins.

Two statements that are easy to make about the page do not hold for the code, and the
model follows the code:

- The counts are not always within 0 … num_decks. Lowering the deck slider does not
  rebuild the ledger, because only the rank set and the suit set are compared. Larger
  counts therefore stay, and `max(0, …)` in the odds turns their remaining copies into 0.
  `SeenLedger.ShrunkDeckCountIsNotRestored` shows such a count cycling.
- A rebuild does not clear `last_clicked`. The key is only created when it is missing
  (lines 54-55). This is the finding below.

## Model

| member | source | states |
|---|---|---|
| Lists.IndexOf | higher_lower_tracker.py:29-30 | `list.index`: the position holds the label and no earlier position does |
| Lists.IndexOfAppend | higher_lower_tracker.py:29-30 | appending to a list does not move the first occurrence of a label already in it |
| Lists.Dedup | higher_lower_tracker.py:53 | the dictionary's key order for a repeated key: the result has no repetition, holds exactly the elements of the input, and is no longer than it |
| Lists.DedupOfDistinct | higher_lower_tracker.py:53 | a list without repetition is its own deduplication |
| Lists.DedupFirstOccurrenceOrder | higher_lower_tracker.py:53 | the kept elements are ordered by their first occurrence in the input, so a repeated key keeps the place of its first insertion |
| Text.SkipSpaces | higher_lower_tracker.py:23 | the scan from the left stops at the first character that is not whitespace, or at the end, passing only whitespace |
| Text.TrimEnd | higher_lower_tracker.py:23 | the scan from the right stops just after the last character that is not whitespace, or at the start, passing only whitespace |
| Text.Strip | higher_lower_tracker.py:23 | the result is no longer than the input; it is empty exactly when the input is all whitespace, and otherwise has no whitespace at either end |
| Text.StripCut | higher_lower_tracker.py:23 | stripping gives a middle slice of the input, with only whitespace cut off before and after it |
| Text.StripLeading | higher_lower_tracker.py:23 | a leading space before a non-space character is dropped |
| Text.StripAround | higher_lower_tracker.py:23 | spaces on both sides of a non-space character are dropped |
| Text.StripKeeps | higher_lower_tracker.py:23 | every character left by stripping was in the input |
| Text.StripTrimmed | higher_lower_tracker.py:23 | stripping a stripped, non-empty label changes nothing |
| Text.Upper | higher_lower_tracker.py:23 | `str.upper()` keeps the length and upper-cases each character in place |
| Text.UpperFacts | higher_lower_tracker.py:23 | upper-casing gives an upper-case string and keeps a stripped string stripped and a comma-free string comma-free |
| Text.UpperOfUpper | higher_lower_tracker.py:23 | upper-casing an upper-case string changes nothing |
| Text.Join | higher_lower_tracker.py:21 | `",".join(parts)` starts with the first part |
| Text.Split | higher_lower_tracker.py:23 | `split(",")` gives at least one piece; no piece holds a comma; joining the pieces with commas gives back the input |
| Text.SplitJoin | higher_lower_tracker.py:21-23 | splitting comma-free labels joined by commas gives back the labels (round trip) |
| Text.SplitNoComma | higher_lower_tracker.py:23 | a text without a comma is a single piece |
| Text.SplitPrefix | higher_lower_tracker.py:23 | a comma-free text before the first comma is the first piece, and the rest splits on its own |
| Text.SplitTwoThenBlanks | higher_lower_tracker.py:23 | two comma-free texts followed by two trailing commas split into those texts and two empty pieces |
| Deck.CardOrderFullDistinct | higher_lower_tracker.py:5 | the canonical rank order has no repetition |
| Deck.Slice | higher_lower_tracker.py:29-31 | `order[i:j+1]` holds the labels from the start card through the end card, position by position: it starts at the start card and ends at the end card, it is empty exactly when the end card comes first, and its length is j - i + 1 |
| Deck.SliceWithin | higher_lower_tracker.py:31 | a slice holds only labels of the order |
| Deck.IndexOfDistinct | higher_lower_tracker.py:29-30 | in a list without repetition, `index` of the label at position p is p |
| Deck.SliceDistinct | higher_lower_tracker.py:31 | a slice of a list without repetition has no repetition |
| Deck.SliceMember | higher_lower_tracker.py:29-31 | in an order without repetition, a label is in the slice exactly when its position lies between the start card's and the end card's |
| Deck.SliceMemberBetween | higher_lower_tracker.py:29-31 | a label of the slice lies, in the order, between the start card and the end card |
| Deck.SliceMemberOfBetween | higher_lower_tracker.py:29-31 | a label that lies between the start card and the end card is in the slice |
| Deck.SliceFacts | higher_lower_tracker.py:29-31 | a slice of an order without repetition has the expected length, runs from the start card through the end card, and holds labels of the order, each once |
| Deck.RangeRanks | higher_lower_tracker.py:26-31 | range mode yields canonical ranks without repetition, from the start card through the end card, with the expected length |
| Deck.RangeRanksMember | higher_lower_tracker.py:29-31 | range mode keeps a rank exactly when its canonical position lies between the start card's and the end card's |
| Deck.CleanPiece | higher_lower_tracker.py:23 | one piece, stripped and (for ranks) upper-cased, is empty or has no whitespace at its ends; upper-casing leaves no lower-case letter; no comma appears that was not there |
| Deck.CleanPieceCut | higher_lower_tracker.py:23 | a cleaned piece is a middle slice of the piece, with only whitespace cut off around it, character by character upper-cased for ranks and unchanged for suits |
| Deck.Clean | higher_lower_tracker.py:23 | the kept pieces are at most as many as the split pieces, every kept piece is stripped and non-empty, and with upper-casing every one is upper case |
| Deck.CleanAppend | higher_lower_tracker.py:23 | the comprehension works piece by piece, in input order: cleaning two runs of pieces gives the cleaned first run followed by the cleaned second |
| Deck.CleanOne | higher_lower_tracker.py:23 | a single piece is dropped exactly when it strips to nothing, and otherwise gives its cleaned form |
| Deck.CleanNoComma | higher_lower_tracker.py:23 | cleaning comma-free pieces yields comma-free labels |
| Deck.ParseCustomRanks | higher_lower_tracker.py:23-24 | every custom rank is stripped, non-empty, upper case and comma-free |
| Deck.ParseCustomSuits | higher_lower_tracker.py:44 | every custom suit is stripped, non-empty and comma-free |
| Deck.ParseCustomRanksPrefix | higher_lower_tracker.py:23 | the piece before the first comma gives the first ranks (none or one), followed by the ranks of the rest, in input order |
| Deck.ParseCustomSuitsPrefix | higher_lower_tracker.py:44 | the piece before the first comma gives the first suits (none or one), followed by the suits of the rest, in input order |
| Deck.CleanPieceUntidy | higher_lower_tracker.py:23 | a lower-case letter with a space before it, or with spaces around it, cleans to the upper-case letter alone |
| Deck.ParseCustomRanksUntidy | higher_lower_tracker.py:23 | untidy deck input of the form " q, k ,," (spaces, lower case, empty pieces) gives the two upper-cased ranks, in input order |
| Deck.CleanTwoThenBlanks | higher_lower_tracker.py:23 | two pieces with text followed by two empty pieces clean to the two cleaned pieces, in order |
| Deck.CleanOneThenBlanks | higher_lower_tracker.py:23 | one piece with text followed by two empty pieces cleans to that piece alone |
| Deck.ParseCustomSuitsKeepsCase | higher_lower_tracker.py:44 | suit input of the form "H, s" gives both labels stripped, with their case kept |
| Deck.CleanKeepsCase | higher_lower_tracker.py:44 | cleaning suit pieces strips them and keeps lower case |
| Deck.CleanOfCleanLabels | higher_lower_tracker.py:23 | cleaning a list of clean labels gives it back unchanged |
| Deck.ParseCustomRanksOfJoin | higher_lower_tracker.py:19-23 | parsing clean upper-case labels joined by commas gives back the labels (round trip) |
| Deck.ParseCustomSuitsOfJoin | higher_lower_tracker.py:40-44 | parsing clean labels joined by commas gives back the labels (round trip) |
| Deck.DefaultDeckInputParsesToFullOrder | higher_lower_tracker.py:21-23 | the custom deck field's default text parses to the canonical 13-rank order |
| Deck.DefaultSuitsInputParsesToDefaultSuits | higher_lower_tracker.py:42-46 | the custom suits field's default text parses to the four standard suits |
| Deck.DefaultSuitsClean | higher_lower_tracker.py:46 | each standard suit is a clean label |
| Deck.ValueMap | higher_lower_tracker.py:33 | the keys of the value map are exactly the listed ranks |
| Deck.ValueMapIsLastPosition | higher_lower_tracker.py:33 | a rank's value is two more than the position of its last occurrence, since later comprehension entries overwrite earlier ones |
| Deck.ValueMapOfDistinct | higher_lower_tracker.py:33 | without repetition the rank at position i has value i + 2, and values compare as positions do |
| Deck.ValueMapLastOccurrenceWins | higher_lower_tracker.py:33 | for the custom deck "2,3,2", "2" has value 4 and "3" has value 3 |
| SeenLedger.Grid | higher_lower_tracker.py:53 | a slot is in the grid exactly when its rank and its suit are listed |
| SeenLedger.Row | higher_lower_tracker.py:53 | the inner loop of the comprehension: for one suit, the ranks in order, each paired with that suit |
| SeenLedger.CrossOrder | higher_lower_tracker.py:53 | the comprehension visits exactly the slots of the grid, one per rank and suit pair |
| SeenLedger.CrossOrderInit | higher_lower_tracker.py:53 | the slots visited for all suits but the last come first, in the same places |
| SeenLedger.CrossOrderLast | higher_lower_tracker.py:53 | the slots of the last suit come last, rank by rank |
| SeenLedger.CrossOrderAt | higher_lower_tracker.py:53 | suits form the outer loop and ranks the inner one: the pair of rank i and suit j is visited at position j * (number of ranks) + i |
| SeenLedger.KeyOrder | higher_lower_tracker.py:53 | the key order of the built dictionary has no repetition and holds exactly the grid |
| SeenLedger.CrossOrderDistinct | higher_lower_tracker.py:53 | without repeated ranks or suits, the comprehension visits no slot twice |
| SeenLedger.KeyOrderAt | higher_lower_tracker.py:53 | without repeated ranks or suits, the dictionary's keys come suit by suit and, within a suit, rank by rank: the slot of rank i and suit j is key number j * (number of ranks) + i |
| SeenLedger.ZeroTable | higher_lower_tracker.py:53 | a freshly built ledger holds exactly the grid, every count 0 |
| SeenLedger.RankProjectionOnly | higher_lower_tracker.py:51 | `set(k[0] for k in seen.keys())` holds a rank exactly when some key has that rank |
| SeenLedger.SuitProjectionOnly | higher_lower_tracker.py:52 | `set(k[1] for k in seen.keys())` holds a suit exactly when some key has that suit |
| SeenLedger.RebuildNotRepeated | higher_lower_tracker.py:50-53 | a ledger over the grid of non-empty ranks and suits passes the rebuild test for them, so a rebuild is not repeated on the next run |
| SeenLedger.RectangularKeys | higher_lower_tracker.py:87 | a ledger keeps its shape (all combinations of its ranks and suits) when only its counts change |
| SeenLedger.KeptLedgerCoversGrid | higher_lower_tracker.py:50-53 | when the rebuild test passes, the kept ledger already holds exactly the active grid |
| SeenLedger.Zeroed | higher_lower_tracker.py:60-61 | a reset keeps the keys and sets every count to 0 |
| SeenLedger.ResetIdempotent | higher_lower_tracker.py:59-62 | resetting twice gives the same ledger as resetting once |
| SeenLedger.Cycle | higher_lower_tracker.py:87 | a click gives a count of at most num_decks; a count below num_decks moves up by one; num_decks wraps to 0 |
| SeenLedger.CycleTimesValue | higher_lower_tracker.py:87 | up to num_decks + 1 clicks move a count within range forward and wrap it once |
| SeenLedger.FullRoundRestoresCount | higher_lower_tracker.py:87 | num_decks + 1 clicks bring a count within range back to where it was |
| SeenLedger.ShrunkDeckCountIsNotRestored | higher_lower_tracker.py:87 | after the slider is lowered to one deck, two clicks take a count of 3 to 1, not back to 3 |
| SeenLedger.Observed | higher_lower_tracker.py:87 | a click keeps the ledger's keys, leaves the clicked slot at most num_decks and changes no other slot |
| SeenLedger.ObservedTimes | higher_lower_tracker.py:87 | clicking keeps the ledger's keys |
| SeenLedger.ObservedTimesAt | higher_lower_tracker.py:87 | clicks on one slot change only that slot's count, by the cycling rule |
| SeenLedger.FullRoundRestoresLedger | higher_lower_tracker.py:87 | num_decks + 1 clicks on a slot within range give back the ledger as it was |
| SeenLedger.Ledger.Items | higher_lower_tracker.py:98 | `seen.items()` yields every entry once, in key order, with its count |
| SeenLedger.Ledger.constructor | higher_lower_tracker.py:50-55 | the first run builds the zero ledger over the grid in comprehension key order, with no marker |
| SeenLedger.Ledger.Sync | higher_lower_tracker.py:50-55 | a run rebuilds to the zero ledger when the rank set or the suit set differs, keeps the ledger otherwise, holds exactly the active grid afterwards, and leaves the marker as it was |
| SeenLedger.Ledger.SyncClearingStale | higher_lower_tracker.py:50-55 | like Sync, but a rebuild also clears the marker, so a marker always names an active rank and suit |
| SeenLedger.Ledger.Reset | higher_lower_tracker.py:59-62 | the reset button keeps the key order, zeroes every count and clears the marker |
| SeenLedger.Ledger.Observe | higher_lower_tracker.py:86-88 | a click cycles that slot's count (result at most num_decks), changes no other count and marks the slot |
| Odds.Remaining | higher_lower_tracker.py:102 | `max(0, per_card_max - count)` is at most per_card_max; it is 0 exactly when count reaches per_card_max; seen plus remaining make per_card_max |
| Odds.RemainingTotalZero | higher_lower_tracker.py:98-103 | nothing is left exactly when every valid entry has been seen per_card_max times or more |
| Odds.RemainingOn | higher_lower_tracker.py:104-109 | the population on one side of the current card is part of the whole |
| Odds.RemainingOfSuit | higher_lower_tracker.py:123-124 | the population of one suit is part of the whole |
| Odds.Pct | higher_lower_tracker.py:111-113 | a percentage is never negative, and it is 0 when nothing is left or the bucket is empty |
| Odds.PctBounds | higher_lower_tracker.py:111-113 | a bucket within the total is a percentage between 0 and 100 |
| Odds.PctAdd | higher_lower_tracker.py:111-113 | percentages of one total add up as their buckets do |
| Odds.PctOfTotal | higher_lower_tracker.py:111-113 | the total is 100 percent of itself |
| Odds.BucketsPartitionTotal | higher_lower_tracker.py:98-109 | higher, lower and equal partition the undrawn population of the valid ranks |
| Odds.OddsSumTo100 | higher_lower_tracker.py:104-113 | when anything is left, the three percentages add up to 100 |
| Odds.CalculateOdds | higher_lower_tracker.py:94-114 | each percentage is its bucket's share of the undrawn population of the valid ranks, against the current card's value; all are 0 when nothing is left, and they add up to 100 otherwise |
| Odds.SumOverSuitsAppend | higher_lower_tracker.py:120-125 | one more entry adds its copies to exactly one listed suit |
| Odds.SuitsPartitionTotal | higher_lower_tracker.py:120-125 | the suit buckets partition the undrawn population when every counted entry's suit is listed |
| Odds.SumOverSuitsOfNothing | higher_lower_tracker.py:118 | before any entry every suit bucket is 0 |
| Odds.SumValuesOfPct | higher_lower_tracker.py:126 | the sum of suit percentages is the percentage of the summed suit populations |
| Odds.CalculateSuitChances | higher_lower_tracker.py:117-127 | there is one entry per listed suit, and each is that suit's share of the undrawn population; all are 0 when nothing is left, and the distinct suits add up to 100 otherwise |
| Summary.TotalSeen | higher_lower_tracker.py:150 | no active entry's count exceeds the total seen |
| Summary.TotalSeenZero | higher_lower_tracker.py:150 | the total seen is 0 exactly when every active entry's count is 0 |
| Summary.SeenPlusRemaining | higher_lower_tracker.py:150 | while no count exceeds num_decks, seen plus remaining copies equal num_decks times the number of active slots |
| Summary.PerSuit | higher_lower_tracker.py:153 | one count per listed suit, in suit order: that of the rank in that suit |
| Summary.PerSuitNonzero | higher_lower_tracker.py:154 | `any(per_suit)` holds exactly when the rank has been seen in some listed suit |
| Summary.RankSummary | higher_lower_tracker.py:152-155 | a rank is listed, with its per-suit counts, exactly when one of them is not 0 |
| Summary.RankSummaryAppend | higher_lower_tracker.py:152-155 | lines follow the rank order: the summary of two runs of ranks is the first run's lines followed by the second's |
| Summary.RankSummaryOne | higher_lower_tracker.py:153-155 | a single rank gets one line, with its per-suit counts, exactly when one of them is not 0, and none otherwise |
| Summary.ResetSummaryIsEmpty | higher_lower_tracker.py:150-155 | after a reset the summary lists no rank and counts no card |
| Tracker.ShowOdds | higher_lower_tracker.py:129-145 | the prompt shows exactly when no card is marked; the page fails, on the marked rank, exactly when that rank is not active; otherwise the odds and suit chances are those of CalculateOdds and CalculateSuitChances, the odds add up to 100 when anything is left, and every suit has its entry |
| Tracker.Rerun | higher_lower_tracker.py:50-55 | with the marker cleared on rebuild, the odds column never fails, and a marker whose rank left the deck becomes the prompt |
| Tracker.FirstClick | higher_lower_tracker.py:86-88 | a first run followed by one click gives a ledger over the grid with that slot at 1 and marked |
| Tracker.StaleMarkerCrashes | higher_lower_tracker.py:50-55 | as written (the lookup is at lines 95 and 134): for every deck and click, changing the deck so that the clicked rank leaves it makes the odds lookup fail on that rank |
| Tracker.KingDroppedFromDeck | higher_lower_tracker.py:131-134 | one such input: clicking the king of spades on deck "Q,K" with suits "S,H" and then changing the deck to "Q" fails on "K" |
| Tracker.StaleMarkerCleared | higher_lower_tracker.py:131-145 | with the marker cleared on rebuild, the same clicks and deck change show the prompt |

## Left out

- The Streamlit calls (page setup, sidebar widgets, columns, buttons, markdown, `st.rerun`)
  and all HTML and CSS are left out. Widget values are parameters of the modelled
  operations: the number of decks, the start and end cards, the custom texts, and the
  clicked slot.
- The slider's bounds 1 … 10 (line 14) appear only as `numDecks >= 1` where a click
  needs it.
- `get_bg_color` (lines 66-71) is left out: an HSV colour for display only, with floating
  point.
- The `:.2f` rounding of percentages (lines 137-143) and the `dict(zip(SUITS, per_suit))`
  text of the summary lines (line 155) are display formatting. The model keeps the exact
  values.
- Percentages are exact reals. The source's floating-point division and multiplication
  can round, so "adds up to 100" holds exactly only in the model.
- Text.Upper: only ASCII letters are upper-cased. Python's `str.upper()` also maps
  non-ASCII letters, and can change a string's length (for example "ß" becomes "SS").
- Text.Join: its own contract states only that the result starts with the first part;
  what it builds is fixed through `Text.Split` (joining the split pieces gives back the
  input) and `Text.SplitJoin`, since a fuller contract on `Join` makes those proofs too
  costly for the solver.
- Text.Strip: the whitespace set is Python's `str.isspace` set written out. No Unicode
  database is consulted.
- Odds.CalculateSuitChances: requires every counted entry's suit to be listed. The source
  raises KeyError at line 124 otherwise. On the page this cannot happen, because the
  ledger always holds the active grid (`SeenLedger.Ledger.Sync`).
- Odds.CalculateOdds: requires the current card and every valid rank to have a value.
  The lookup at line 101 cannot fail on the page, since the valid ranks are the keys of
  the value map. The lookup at line 95 can fail, and `Tracker.ShowOdds` models that
  failure as `KeyError`.
- `Tracker.ShowOdds` takes the run's ledger as already synchronised (its keys are the
  active grid), which `Sync` guarantees.

## Findings

| source | as written | input that shows it | evidently intended | confidence | as-written member | corrected member |
|---|---|---|---|---|---|---|
| higher_lower_tracker.py:50-55 | a rebuild of `seen` leaves `last_clicked` alone; the next run then looks up the marked rank in `CARD_VALUE_MAP` (lines 95 and 134) | custom deck "Q,K", click K of one suit, then change the deck to "Q" (or, in range mode, click K and then set the end card to Q): the lookup of "K" raises KeyError | clear the marker whenever the ledger is rebuilt, so that the odds column shows the prompt | not executed | Tracker.StaleMarkerCrashes, Tracker.KingDroppedFromDeck | SeenLedger.Ledger.SyncClearingStale, Tracker.Rerun, Tracker.StaleMarkerCleared |
