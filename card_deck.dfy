/** Construction of the standard 52-card deck and the suit symbols
    (src/utils/cardDeck.ts). */
module CardDeck {
  import opened CardTypes

  /** The suit enumeration order of the deck. */
  const Suits: seq<Suit> := [Hearts, Diamonds, Clubs, Spades]

  /** The rank enumeration order within one suit. */
  const Ranks: seq<Rank> := [Ace, Two, Three, Four, Five, Six, Seven,
                             Eight, Nine, Ten, Jack, Queen, King]

  /** The colour a generated card takes from its suit: red for hearts and
      diamonds, black for clubs and spades. */
  function SuitColor(suit: Suit): Color {
    if suit == Hearts || suit == Diamonds then Red else Black
  }

  /** A suit's colour is red exactly for hearts and diamonds. */
  lemma SuitColorRed(suit: Suit)
    ensures SuitColor(suit) == Red <==> suit == Hearts || suit == Diamonds
    ensures SuitColor(suit) == Black <==> suit == Clubs || suit == Spades
  {
  }

  /** A freshly generated card: colour from its suit, not yet played. */
  function NewCard(suit: Suit, rank: Rank): Card {
    Card(suit, rank, SuitColor(suit), false)
  }

  /** The cards the inner loop pushes for one suit, one per rank, in order. */
  function SuitRow(suit: Suit, ranks: seq<Rank>): seq<Card> {
    if ranks == [] then []
    else SuitRow(suit, ranks[..|ranks| - 1]) + [NewCard(suit, ranks[|ranks| - 1])]
  }

  /** The cards the outer loop pushes: one row per suit, suits outermost. */
  function DeckOf(suits: seq<Suit>, ranks: seq<Rank>): seq<Card> {
    if suits == [] then []
    else DeckOf(suits[..|suits| - 1], ranks) + SuitRow(suits[|suits| - 1], ranks)
  }

  /** The deck that generateDeck returns. */
  function StandardDeck(): (d: seq<Card>)
    ensures |d| == 52
  {
    DeckOfLength(Suits, Ranks);
    DeckOf(Suits, Ranks)
  }

  /** Index of a suit in the enumeration order. */
  function SuitIndex(suit: Suit): (i: nat)
    ensures i < |Suits| && Suits[i] == suit
  {
    match suit
    case Hearts => 0
    case Diamonds => 1
    case Clubs => 2
    case Spades => 3
  }

  /** Index of a rank in the enumeration order. */
  function RankIndex(rank: Rank): (j: nat)
    ensures j < |Ranks| && Ranks[j] == rank
  {
    match rank
    case Ace => 0
    case Two => 1
    case Three => 2
    case Four => 3
    case Five => 4
    case Six => 5
    case Seven => 6
    case Eight => 7
    case Nine => 8
    case Ten => 9
    case Jack => 10
    case Queen => 11
    case King => 12
  }

  /** The position of the card (suit, rank) in the standard deck. */
  function Position(suit: Suit, rank: Rank): (k: nat)
    ensures k < 52
  {
    13 * SuitIndex(suit) + RankIndex(rank)
  }

  /** The symbol shown for a suit: a single character. */
  function SuitSymbol(suit: Suit): (sym: string)
    ensures |sym| == 1
  {
    match suit
    case Hearts => "♥"
    case Diamonds => "♦"
    case Clubs => "♣"
    case Spades => "♠"
  }

  /** generateDeck: a loop over the suits in order; for each suit the
      callback pushes that suit's cards (PushSuitCards). */
  method GenerateDeck() returns (deck: seq<Card>)
    ensures deck == StandardDeck()
  {
    deck := [];
    var i := 0;
    while i < |Suits|
      invariant 0 <= i <= |Suits|
      invariant deck == DeckOf(Suits[..i], Ranks)
    {
      deck := PushSuitCards(deck, Suits[i], Ranks);
      DeckOfStep(Suits, i, Ranks);
      i := i + 1;
    }
    assert Suits[..i] == Suits;
  }

  /** The callback generateDeck runs for one suit: take the suit's colour,
      then push one unplayed card per rank, in rank order. */
  method PushSuitCards(deck: seq<Card>, suit: Suit, ranks: seq<Rank>) returns (pushed: seq<Card>)
    ensures pushed == deck + SuitRow(suit, ranks)
  {
    var color := if suit == Hearts || suit == Diamonds then Red else Black;
    pushed := deck;
    var j := 0;
    while j < |ranks|
      invariant 0 <= j <= |ranks|
      invariant pushed == deck + SuitRow(suit, ranks[..j])
    {
      SuitRowStep(suit, ranks, j);
      pushed := pushed + [Card(suit, ranks[j], color, false)];
      j := j + 1;
    }
    assert ranks[..j] == ranks;
  }

  /** One more pass of the inner loop appends the card of the next rank. */
  lemma SuitRowStep(suit: Suit, ranks: seq<Rank>, j: nat)
    requires j < |ranks|
    ensures SuitRow(suit, ranks[..j + 1]) == SuitRow(suit, ranks[..j]) + [NewCard(suit, ranks[j])]
  {
    assert ranks[..j + 1][..j] == ranks[..j];
  }

  /** One more pass of the outer loop appends the row of the next suit. */
  lemma DeckOfStep(suits: seq<Suit>, i: nat, ranks: seq<Rank>)
    requires i < |suits|
    ensures DeckOf(suits[..i + 1], ranks) == DeckOf(suits[..i], ranks) + SuitRow(suits[i], ranks)
  {
    assert suits[..i + 1][..i] == suits[..i];
  }

  // ---------------------------------------------------------------------
  // Properties of the generated deck

  lemma {:induction false} SuitRowLength(suit: Suit, ranks: seq<Rank>)
    ensures |SuitRow(suit, ranks)| == |ranks|
  {
    if ranks != [] {
      SuitRowLength(suit, ranks[..|ranks| - 1]);
    }
  }

  /** The j-th card of a suit's row is that suit's card of the j-th rank. */
  lemma {:induction false} SuitRowAt(suit: Suit, ranks: seq<Rank>, j: nat)
    requires j < |ranks|
    ensures |SuitRow(suit, ranks)| == |ranks|
    ensures SuitRow(suit, ranks)[j] == NewCard(suit, ranks[j])
  {
    var init := ranks[..|ranks| - 1];
    SuitRowLength(suit, init);
    SuitRowLength(suit, ranks);
    if j < |init| {
      SuitRowAt(suit, init, j);
    }
  }

  lemma {:induction false} DeckOfLength(suits: seq<Suit>, ranks: seq<Rank>)
    requires |ranks| == 13
    ensures |DeckOf(suits, ranks)| == 13 * |suits|
  {
    if suits != [] {
      DeckOfLength(suits[..|suits| - 1], ranks);
      SuitRowLength(suits[|suits| - 1], ranks);
    }
  }

  /** The card at index 13*i + j of a deck built over 13 ranks is the card
      of the i-th suit and the j-th rank. */
  lemma {:induction false} DeckOfAt(suits: seq<Suit>, ranks: seq<Rank>, i: nat, j: nat)
    requires |ranks| == 13
    requires i < |suits| && j < 13
    ensures |DeckOf(suits, ranks)| == 13 * |suits|
    ensures DeckOf(suits, ranks)[13 * i + j] == NewCard(suits[i], ranks[j])
  {
    var init := suits[..|suits| - 1];
    DeckOfLength(init, ranks);
    DeckOfLength(suits, ranks);
    if i < |init| {
      DeckOfAt(init, ranks, i, j);
    } else {
      SuitRowAt(suits[i], ranks, j);
    }
  }

  /** The generated deck is the hearts row, then diamonds, clubs and spades. */
  lemma StandardDeckRows()
    ensures StandardDeck() == SuitRow(Hearts, Ranks) + SuitRow(Diamonds, Ranks)
                            + SuitRow(Clubs, Ranks) + SuitRow(Spades, Ranks)
  {
    var h, d, c, s := SuitRow(Hearts, Ranks), SuitRow(Diamonds, Ranks),
                      SuitRow(Clubs, Ranks), SuitRow(Spades, Ranks);
    assert [Hearts][..0] == [];
    assert DeckOf([Hearts], Ranks) == h;
    assert [Hearts, Diamonds][..1] == [Hearts];
    assert DeckOf([Hearts, Diamonds], Ranks) == h + d;
    assert [Hearts, Diamonds, Clubs][..2] == [Hearts, Diamonds];
    assert DeckOf([Hearts, Diamonds, Clubs], Ranks) == h + d + c;
    assert Suits[..3] == [Hearts, Diamonds, Clubs];
  }

  /** generateDeck returns 52 cards; the card at 13*i + j has the i-th suit
      and the j-th rank, the colour of its suit, and is unplayed. */
  lemma StandardDeckShape()
    ensures |StandardDeck()| == 52
    ensures forall i, j :: 0 <= i < 4 && 0 <= j < 13 ==>
              StandardDeck()[13 * i + j] == Card(Suits[i], Ranks[j], SuitColor(Suits[i]), false)
  {
    DeckOfLength(Suits, Ranks);
    forall i, j | 0 <= i < 4 && 0 <= j < 13
      ensures StandardDeck()[13 * i + j] == Card(Suits[i], Ranks[j], SuitColor(Suits[i]), false)
    {
      DeckOfAt(Suits, Ranks, i, j);
    }
  }

  /** The card at any index k of a deck built over 13 ranks. */
  lemma DeckOfAtIndex(suits: seq<Suit>, ranks: seq<Rank>, k: nat)
    requires |ranks| == 13 && k < 13 * |suits|
    ensures |DeckOf(suits, ranks)| == 13 * |suits|
    ensures DeckOf(suits, ranks)[k] == NewCard(suits[k / 13], ranks[k % 13])
  {
    DeckOfAt(suits, ranks, k / 13, k % 13);
  }

  /** The card at index k of the generated deck, read off its suit row. */
  lemma StandardDeckAt(k: nat)
    requires k < 52
    ensures |StandardDeck()| == 52
    ensures StandardDeck()[k] == NewCard(Suits[k / 13], Ranks[k % 13])
  {
    DeckOfAtIndex(Suits, Ranks, k);
  }

  /** Every generated card is unplayed, and it is red exactly when its suit is
      hearts or diamonds. */
  lemma StandardDeckCards()
    ensures |StandardDeck()| == 52
    ensures forall k :: 0 <= k < |StandardDeck()| ==>
              !StandardDeck()[k].played &&
              (StandardDeck()[k].color == Red <==>
                 StandardDeck()[k].suit == Hearts || StandardDeck()[k].suit == Diamonds)
  {
    forall k | 0 <= k < |StandardDeck()|
      ensures !StandardDeck()[k].played
      ensures StandardDeck()[k].color == Red <==>
                StandardDeck()[k].suit == Hearts || StandardDeck()[k].suit == Diamonds
    {
      StandardDeckAt(k);
      SuitColorRed(StandardDeck()[k].suit);
    }
  }

  /** No value occurs twice in the sequence. */
  ghost predicate NoDuplicates<T>(s: seq<T>) {
    forall a, b :: 0 <= a < b < |s| ==> s[a] != s[b]
  }

  /** In a deck built from suits and 13 ranks without duplicates, the card at
      index k has the i-th suit and the j-th rank exactly when k is 13*i + j. */
  lemma DeckOfIdentity(suits: seq<Suit>, ranks: seq<Rank>, k: nat, i: nat, j: nat)
    requires |ranks| == 13 && k < 13 * |suits| && i < |suits| && j < 13
    requires NoDuplicates(suits) && NoDuplicates(ranks)
    ensures |DeckOf(suits, ranks)| == 13 * |suits|
    ensures DeckOf(suits, ranks)[k].Is(suits[i], ranks[j]) <==> k == 13 * i + j
  {
    DeckOfAtIndex(suits, ranks, k);
    var a, b := k / 13, k % 13;
    assert k == 13 * a + b;
    if DeckOf(suits, ranks)[k].Is(suits[i], ranks[j]) {
      assert suits[a] == suits[i] && ranks[b] == ranks[j];
      assert a == i && b == j;
    }
  }

  /** Suit i of the suit order has index i, and rank j of the rank order has
      index j, so neither order repeats a value. */
  lemma OrdersHaveNoDuplicates()
    ensures NoDuplicates(Suits) && NoDuplicates(Ranks)
  {
    forall a, b | 0 <= a < b < 13
      ensures Ranks[a] != Ranks[b]
    {
      RankIndexOf(a);
      RankIndexOf(b);
    }
    forall a, b | 0 <= a < b < 4
      ensures Suits[a] != Suits[b]
    {
      SuitIndexOf(a);
      SuitIndexOf(b);
    }
  }

  lemma SuitIndexOf(i: nat)
    requires i < 4
    ensures SuitIndex(Suits[i]) == i
  {
  }

  lemma RankIndexOf(j: nat)
    requires j < 13
    ensures RankIndex(Ranks[j]) == j
  {
  }

  /** Every (suit, rank) pair occurs in the generated deck exactly once: at
      index Position(suit, rank) and nowhere else. */
  lemma StandardDeckExactlyOnce()
    ensures |StandardDeck()| == 52
    ensures forall suit, rank, k :: 0 <= k < 52 ==>
              (StandardDeck()[k].Is(suit, rank) <==> k == Position(suit, rank))
  {
    OrdersHaveNoDuplicates();
    forall suit, rank, k | 0 <= k < 52
      ensures StandardDeck()[k].Is(suit, rank) <==> k == Position(suit, rank)
    {
      DeckOfIdentity(Suits, Ranks, k, SuitIndex(suit), RankIndex(rank));
    }
  }

  /** getSuitSymbol is defined for every suit and no two suits share a symbol. */
  lemma SuitSymbolDistinct()
    ensures forall s, t :: SuitSymbol(s) == SuitSymbol(t) ==> s == t
    ensures forall s :: |SuitSymbol(s)| == 1
  {
  }
}
