/** Deck configuration: which ranks and suits are active, and the value each rank is
    compared by. */
module Deck {
  import opened Lists
  import opened Text

  /** The canonical rank order of a standard deck. */
  const CardOrderFull: seq<string> := ["2", "3", "4", "5", "6", "7", "8", "9", "10", "J", "Q", "K", "A"]

  /** The four standard suits: spades, hearts, diamonds, clubs. */
  const DefaultSuits: seq<string> := ["\U{2660}", "\U{2665}", "\U{2666}", "\U{2663}"]

  lemma CardOrderFullDistinct()
    ensures Distinct(CardOrderFull)
  {
  }

  /** Python's `order[order.index(startCard):order.index(endCard) + 1]`: the labels from
      the start card through the end card, both included; nothing when the end card comes
      before the start card. */
  function Slice(order: seq<string>, startCard: string, endCard: string): (r: seq<string>)
    requires startCard in order && endCard in order
    ensures r == [] <==> IndexOf(order, endCard) < IndexOf(order, startCard)
    ensures r != [] ==> r[0] == startCard && r[|r| - 1] == endCard
    ensures var i, j := IndexOf(order, startCard), IndexOf(order, endCard);
      |r| == if i <= j then j - i + 1 else 0
    ensures forall k :: 0 <= k < |r| ==> r[k] == order[IndexOf(order, startCard) + k]
  {
    var i := IndexOf(order, startCard);
    var j := IndexOf(order, endCard);
    if i <= j then
      var r := order[i..j + 1];
      assert r[0] == startCard && r[|r| - 1] == endCard;
      r
    else []
  }

  /** A slice holds only labels of the order. */
  lemma SliceWithin(order: seq<string>, startCard: string, endCard: string)
    requires startCard in order && endCard in order
    ensures forall t :: t in Slice(order, startCard, endCard) ==> t in order
  {
    var r := Slice(order, startCard, endCard);
    forall t | t in r ensures t in order {
      var k :| 0 <= k < |r| && r[k] == t;
      assert order[IndexOf(order, startCard) + k] == t;
    }
  }

  /** Range mode: the canonical ranks from the start card through the end card, both
      included, without repetition; nothing when the end card comes first. */
  function RangeRanks(startCard: string, endCard: string): (r: seq<string>)
    requires startCard in CardOrderFull && endCard in CardOrderFull
    ensures var i, j := IndexOf(CardOrderFull, startCard), IndexOf(CardOrderFull, endCard);
      |r| == if i <= j then j - i + 1 else 0
    ensures r != [] ==> r[0] == startCard && r[|r| - 1] == endCard
    ensures forall t :: t in r ==> t in CardOrderFull
    ensures Distinct(r)
  {
    CardOrderFullDistinct();
    SliceFacts(CardOrderFull, startCard, endCard);
    Slice(CardOrderFull, startCard, endCard)
  }

  /** A slice of an order without repetition runs from the start card through the end
      card and holds labels of the order, each once. */
  lemma SliceFacts(order: seq<string>, startCard: string, endCard: string)
    requires startCard in order && endCard in order && Distinct(order)
    ensures var r, i, j := Slice(order, startCard, endCard), IndexOf(order, startCard), IndexOf(order, endCard);
      |r| == (if i <= j then j - i + 1 else 0) && (r != [] ==> r[0] == startCard && r[|r| - 1] == endCard)
    ensures forall t :: t in Slice(order, startCard, endCard) ==> t in order
    ensures Distinct(Slice(order, startCard, endCard))
  {
    SliceWithin(order, startCard, endCard);
    SliceDistinct(order, startCard, endCard);
  }

  /** In a list without repetition, the first occurrence of the label at position p is p. */
  lemma IndexOfDistinct(xs: seq<string>, p: nat)
    requires Distinct(xs) && p < |xs|
    ensures IndexOf(xs, xs[p]) == p
  {
    var q := IndexOf(xs, xs[p]);
    assert !(q < p) && !(p < q);
  }

  /** A slice of a list without repetition has no repetition. */
  lemma SliceDistinct(order: seq<string>, startCard: string, endCard: string)
    requires startCard in order && endCard in order && Distinct(order)
    ensures Distinct(Slice(order, startCard, endCard))
  {
    var r := Slice(order, startCard, endCard);
    var i := IndexOf(order, startCard);
    forall a, b | 0 <= a < b < |r| ensures r[a] != r[b] {
      assert r[a] == order[i + a] && r[b] == order[i + b];
    }
  }

  /** In a list without repetition, a label is in the slice exactly when its position lies
      between the positions of the start card and the end card. */
  lemma SliceMember(order: seq<string>, startCard: string, endCard: string, c: string)
    requires startCard in order && endCard in order && Distinct(order)
    ensures c in Slice(order, startCard, endCard) <==>
      c in order && IndexOf(order, startCard) <= IndexOf(order, c) <= IndexOf(order, endCard)
  {
    if c in Slice(order, startCard, endCard) {
      SliceMemberBetween(order, startCard, endCard, c);
    }
    if c in order && IndexOf(order, startCard) <= IndexOf(order, c) <= IndexOf(order, endCard) {
      SliceMemberOfBetween(order, startCard, endCard, c);
    }
  }

  /** A label of the slice lies between the start card and the end card. */
  lemma SliceMemberBetween(order: seq<string>, startCard: string, endCard: string, c: string)
    requires startCard in order && endCard in order && Distinct(order)
    requires c in Slice(order, startCard, endCard)
    ensures c in order && IndexOf(order, startCard) <= IndexOf(order, c) <= IndexOf(order, endCard)
  {
    var r := Slice(order, startCard, endCard);
    var i := IndexOf(order, startCard);
    var k :| 0 <= k < |r| && r[k] == c;
    assert order[i + k] == c;
    IndexOfDistinct(order, i + k);
  }

  /** A label that lies between the start card and the end card is in the slice. */
  lemma SliceMemberOfBetween(order: seq<string>, startCard: string, endCard: string, c: string)
    requires startCard in order && endCard in order
    requires c in order && IndexOf(order, startCard) <= IndexOf(order, c) <= IndexOf(order, endCard)
    ensures c in Slice(order, startCard, endCard)
  {
    var r := Slice(order, startCard, endCard);
    var i, j, q := IndexOf(order, startCard), IndexOf(order, endCard), IndexOf(order, c);
    var k: nat := q - i;
    assert k < |r| == j - i + 1;
    assert r[k] == order[q] == c;
  }

  /** Range mode keeps a rank exactly when it lies between the start card and the end card
      in the canonical order. */
  lemma RangeRanksMember(startCard: string, endCard: string, c: string)
    requires startCard in CardOrderFull && endCard in CardOrderFull
    ensures c in RangeRanks(startCard, endCard) <==>
      c in CardOrderFull && IndexOf(CardOrderFull, startCard) <= IndexOf(CardOrderFull, c) <= IndexOf(CardOrderFull, endCard)
  {
    CardOrderFullDistinct();
    SliceMember(CardOrderFull, startCard, endCard, c);
  }

  /** `t` is `piece[a..b]`, upper-cased when `upper` holds, and only whitespace lies
      outside `a..b`. */
  predicate CutFrom(piece: string, t: string, upper: bool, a: nat, b: nat) {
    Margins(piece, a, b) && |t| == b - a &&
    forall k :: 0 <= k < |t| ==> t[k] == (if upper then UpperChar(piece[a + k]) else piece[a + k])
  }

  /** One piece of a comma-split input: stripped, and upper-cased when `upper` holds;
      empty when the piece was all whitespace. */
  function CleanPiece(piece: string, upper: bool): (t: string)
    ensures t != [] ==> Trimmed(t)
    ensures upper ==> IsUpper(t)
    ensures ',' !in piece ==> ',' !in t
  {
    var s := Strip(piece);
    StripKeeps(piece);
    UpperFacts(s);
    if upper then Upper(s) else s
  }

  /** What a piece is cleaned to: the piece with only whitespace cut off at its ends,
      upper-cased when `upper` holds. */
  lemma CleanPieceCut(piece: string, upper: bool)
    ensures exists a: nat, b: nat :: CutFrom(piece, CleanPiece(piece, upper), upper, a, b)
  {
    var s := Strip(piece);
    var t := CleanPiece(piece, upper);
    StripCut(piece);
    var a: nat, b: nat :| Margins(piece, a, b) && s == piece[a..b];
    assert t == if upper then Upper(s) else s;
    forall k | 0 <= k < |t|
      ensures t[k] == (if upper then UpperChar(piece[a + k]) else piece[a + k])
    {
      assert s[k] == piece[a + k];
    }
    assert CutFrom(piece, t, upper, a, b);
  }

  /** The stripped, non-empty pieces of a comma-split input, in input order, upper-cased
      when `upper` holds. */
  function Clean(pieces: seq<string>, upper: bool): (r: seq<string>)
    ensures |r| <= |pieces|
    ensures forall t :: t in r ==> Trimmed(t) && (upper ==> IsUpper(t))
  {
    if pieces == [] then []
    else
      var h := CleanPiece(pieces[0], upper);
      var rest := Clean(pieces[1..], upper);
      if h == [] then rest else [h] + rest
  }

  /** Cleaning works piece by piece: the labels of two runs of pieces, one after the
      other, in the same order. */
  lemma {:induction false} CleanAppend(xs: seq<string>, ys: seq<string>, upper: bool)
    ensures Clean(xs + ys, upper) == Clean(xs, upper) + Clean(ys, upper)
  {
    if xs != [] {
      var xys := xs + ys;
      assert xys[0] == xs[0];
      assert xys[1..] == xs[1..] + ys;
      CleanAppend(xs[1..], ys, upper);
      var h := CleanPiece(xs[0], upper);
      var x, y := Clean(xs[1..], upper), Clean(ys, upper);
      if h != [] {
        assert Clean(xys, upper) == [h] + (x + y);
        assert Clean(xs, upper) == [h] + x;
        ConcatAssoc([h], x, y);
      }
    } else {
      assert xs + ys == ys;
    }
  }

  /** A single piece gives its cleaned text, or nothing when it is blank. */
  lemma CleanOne(piece: string, upper: bool)
    ensures Clean([piece], upper) == if Strip(piece) == [] then [] else [CleanPiece(piece, upper)]
  {
    assert [piece][1..] == [];
  }

  /** Cleaning comma-free pieces gives comma-free labels. */
  lemma {:induction false} CleanNoComma(pieces: seq<string>, upper: bool)
    requires forall i :: 0 <= i < |pieces| ==> ',' !in pieces[i]
    ensures forall t :: t in Clean(pieces, upper) ==> ',' !in t
  {
    if pieces != [] {
      CleanNoComma(pieces[1..], upper);
    }
  }

  /** Custom deck mode: the comma-separated labels, stripped, upper-cased, empty ones
      dropped. */
  function ParseCustomRanks(input: string): (r: seq<string>)
    ensures forall t :: t in r ==> Trimmed(t) && IsUpper(t) && ',' !in t
  {
    CleanNoComma(Split(input), true);
    Clean(Split(input), true)
  }

  /** Custom suits mode: the comma-separated labels, stripped, empty ones dropped; the
      case is kept. */
  function ParseCustomSuits(input: string): (r: seq<string>)
    ensures forall t :: t in r ==> Trimmed(t) && ',' !in t
  {
    CleanNoComma(Split(input), false);
    Clean(Split(input), false)
  }

  /** The custom deck parse reads the input left to right: the label before the first
      comma (if not blank) comes first, then the labels of the rest. */
  lemma ParseCustomRanksPrefix(piece: string, rest: string)
    requires ',' !in piece
    ensures ParseCustomRanks(piece + "," + rest) == Clean([piece], true) + ParseCustomRanks(rest)
  {
    SplitPrefix(piece, rest);
    CleanAppend([piece], Split(rest), true);
  }

  /** The custom suits parse reads the input left to right in the same way. */
  lemma ParseCustomSuitsPrefix(piece: string, rest: string)
    requires ',' !in piece
    ensures ParseCustomSuits(piece + "," + rest) == Clean([piece], false) + ParseCustomSuits(rest)
  {
    SplitPrefix(piece, rest);
    CleanAppend([piece], Split(rest), false);
  }

  /** Untidy pieces: a space before, or around, a one-letter lower-case label is
      cut off and the letter upper-cased. */
  lemma CleanPieceUntidy(c: char)
    requires 'a' <= c <= 'z'
    ensures CleanPiece([' ', c], true) == [UpperChar(c)]
    ensures CleanPiece([' ', c, ' '], true) == [UpperChar(c)]
  {
    StripLeading(' ', c);
    StripAround(' ', c);
    assert Upper([c]) == [UpperChar(c)] by { assert Upper([c])[0] == UpperChar(c); }
  }

  /** Untidy input, such as " q, k ,,": spaces around labels, lower case, and empty
      pieces between commas give the upper-cased labels in input order. */
  lemma ParseCustomRanksUntidy(c: char, d: char)
    requires 'a' <= c <= 'z' && 'a' <= d <= 'z'
    ensures ParseCustomRanks([' ', c, ',', ' ', d, ' ', ',', ',']) == [[UpperChar(c)], [UpperChar(d)]]
  {
    var p, q := [' ', c], [' ', d, ' '];
    assert [' ', c, ',', ' ', d, ' ', ',', ','] == p + "," + (q + "," + ",");
    SplitTwoThenBlanks(p, q);
    CleanPieceUntidy(c);
    CleanPieceUntidy(d);
    CleanTwoThenBlanks(p, q, true);
  }

  /** Two pieces with text in them, then two empty pieces: the two cleaned pieces, in
      order. */
  lemma CleanTwoThenBlanks(p: string, q: string, upper: bool)
    requires Strip(p) != [] && Strip(q) != []
    ensures Clean([p, q, [], []], upper) == [CleanPiece(p, upper), CleanPiece(q, upper)]
  {
    var e: string := [];
    CleanOneThenBlanks(q, upper);
    assert [p, q, e, e][1..] == [q, e, e];
  }

  /** One piece with text in it, then two empty pieces: just the cleaned piece. */
  lemma CleanOneThenBlanks(q: string, upper: bool)
    requires Strip(q) != []
    ensures Clean([q, [], []], upper) == [CleanPiece(q, upper)]
  {
    var e: string := [];
    assert Clean([e], upper) == [] by { assert [e][1..] == []; }
    assert Clean([e, e], upper) == [] by { assert [e, e][1..] == [e]; }
    assert [q, e, e][1..] == [e, e];
  }

  /** The suits parse keeps the case of each label: "Hearts, spades" gives both labels
      as typed, here for two one-letter labels of either case. */
  lemma ParseCustomSuitsKeepsCase(c: char, d: char)
    requires 'A' <= c <= 'Z' && 'a' <= d <= 'z'
    ensures ParseCustomSuits([c, ',', ' ', d]) == [[c], [d]]
  {
    var p, q := [c], [' ', d];
    assert [c, ',', ' ', d] == p + "," + q;
    assert ',' !in p && ',' !in q;
    SplitPrefix(p, q);
    SplitNoComma(q);
    CleanKeepsCase(c, d);
  }

  /** Without upper-casing, a capital and a spaced lower-case letter clean to themselves. */
  lemma CleanKeepsCase(c: char, d: char)
    requires 'A' <= c <= 'Z' && 'a' <= d <= 'z'
    ensures Clean([[c], [' ', d]], false) == [[c], [d]]
  {
    var p, q: string := [c], [' ', d];
    assert [p, q][1..] == [q];
    StripTrimmed(p);
    StripLeading(' ', d);
  }

  /** A label the custom parse gives back unchanged: no comma, no whitespace at its
      ends, not empty. */
  predicate CleanLabel(s: string) {
    Trimmed(s) && ',' !in s
  }

  /** Cleaning keeps a list of clean labels as it is. */
  lemma {:induction false} CleanOfCleanLabels(labels: seq<string>, upper: bool)
    requires forall k :: 0 <= k < |labels| ==> CleanLabel(labels[k])
    requires upper ==> forall k :: 0 <= k < |labels| ==> IsUpper(labels[k])
    ensures Clean(labels, upper) == labels
  {
    if labels != [] {
      StripTrimmed(labels[0]);
      if upper { UpperOfUpper(labels[0]); }
      CleanOfCleanLabels(labels[1..], upper);
      assert [labels[0]] + labels[1..] == labels;
    }
  }

  /** The custom deck parse gives back the labels it was given joined with commas, as
      long as they are clean and upper-case: in particular the text field's default
      value yields the canonical order. */
  lemma ParseCustomRanksOfJoin(labels: seq<string>)
    requires forall k :: 0 <= k < |labels| ==> CleanLabel(labels[k]) && IsUpper(labels[k])
    ensures ParseCustomRanks(Join(labels)) == labels
  {
    if labels == [] {
      assert Split("") == [""];
    } else {
      SplitJoin(labels);
    }
    CleanOfCleanLabels(labels, true);
  }

  /** The custom suits parse gives back clean labels joined with commas. */
  lemma ParseCustomSuitsOfJoin(labels: seq<string>)
    requires forall k :: 0 <= k < |labels| ==> CleanLabel(labels[k])
    ensures ParseCustomSuits(Join(labels)) == labels
  {
    if labels == [] {
      assert Split("") == [""];
    } else {
      SplitJoin(labels);
    }
    CleanOfCleanLabels(labels, false);
  }

  /** The default text of the custom deck field is the canonical order joined with
      commas, and it parses back to that order. */
  lemma DefaultDeckInputParsesToFullOrder()
    ensures ParseCustomRanks(Join(CardOrderFull)) == CardOrderFull
  {
    ParseCustomRanksOfJoin(CardOrderFull);
  }

  /** The default text of the custom suits field parses to the four standard suits. */
  lemma DefaultSuitsInputParsesToDefaultSuits()
    ensures ParseCustomSuits(Join(DefaultSuits)) == DefaultSuits
  {
    DefaultSuitsClean();
    ParseCustomSuitsOfJoin(DefaultSuits);
  }

  lemma DefaultSuitsClean()
    ensures forall k :: 0 <= k < |DefaultSuits| ==> CleanLabel(DefaultSuits[k])
  {
  }

  /** `i` is the last position at which `c` occurs in `ranks`. */
  predicate IsLastPosition(ranks: seq<string>, c: string, i: int) {
    0 <= i < |ranks| && ranks[i] == c && forall j :: i < j < |ranks| ==> ranks[j] != c
  }

  /** The rank value map `{card: i + 2 for i, card in enumerate(ranks)}`: its keys are
      the listed ranks. */
  function ValueMap(ranks: seq<string>): (m: map<string, int>)
    ensures forall c :: c in m <==> c in ranks
  {
    if ranks == [] then map[]
    else
      var init, last := ranks[..|ranks| - 1], ranks[|ranks| - 1];
      assert forall c :: c in ranks <==> c in init || c == last by {
        assert ranks == init + [last];
      }
      ValueMap(init)[last := |ranks| + 1]
  }

  /** A rank's value is two more than the position of its LAST occurrence, since a later
      entry of the comprehension overwrites an earlier one. */
  lemma {:induction false} ValueMapIsLastPosition(ranks: seq<string>, c: string)
    requires c in ranks
    ensures IsLastPosition(ranks, c, ValueMap(ranks)[c] - 2)
  {
    var n := |ranks|;
    var init, last := ranks[..n - 1], ranks[n - 1];
    if c != last {
      assert c in init by {
        assert ranks == init + [last];
      }
      ValueMapIsLastPosition(init, c);
      var i := ValueMap(init)[c] - 2;
      assert ValueMap(ranks)[c] - 2 == i;
      assert ranks[i] == init[i];
      forall j | i < j < n ensures ranks[j] != c {
        if j < n - 1 {
          assert ranks[j] == init[j];
        }
      }
    }
  }

  /** With no repeated label, the rank at position i has value i + 2, so comparing values
      compares positions. */
  lemma ValueMapOfDistinct(ranks: seq<string>, i: nat, j: nat)
    requires Distinct(ranks) && i < |ranks| && j < |ranks|
    ensures ValueMap(ranks)[ranks[i]] == i + 2
    ensures ValueMap(ranks)[ranks[i]] < ValueMap(ranks)[ranks[j]] <==> i < j
  {
    ValueMapIsLastPosition(ranks, ranks[i]);
    ValueMapIsLastPosition(ranks, ranks[j]);
  }

  /** A repeated custom label takes the value of its last position: in "2,3,2" the
      rank "2" has value 4 and "3" has value 3. */
  lemma ValueMapLastOccurrenceWins()
    ensures ValueMap(["2", "3", "2"]) == map["2" := 4, "3" := 3]
  {
    var ranks := ["2", "3", "2"];
    var m := ValueMap(ranks);
    assert "2" in m && "3" in m;
    assert m.Keys == {"2", "3"};
  }
}
