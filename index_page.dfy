/** The session state of the card counter page (src/pages/Index.tsx): the
    deck with its played flags, the remaining-cards counter, the toggle and
    reset handlers that update them, and the per-suit groups shown on screen. */
module IndexPage {
  import opened CardTypes
  import opened CardDeck

  // ---------------------------------------------------------------------
  // Toggling, as a function of the deck

  /** The map callback of toggleCardPlayed applied to one card: a card whose
      suit and rank both match comes back with its played flag inverted, any
      other card comes back as it was. */
  function ToggleCard(card: Card, suit: Suit, rank: Rank): (r: Card)
    ensures r.suit == card.suit && r.rank == card.rank && r.color == card.color
    ensures r.played != card.played <==> card.Is(suit, rank)
  {
    if card.Is(suit, rank) then card.(played := !card.played) else card
  }

  /** The deck that toggleCardPlayed's map produces: same length and order,
      the played flag flipped on every card whose suit and rank match, every
      other card unchanged. */
  function Toggled(deck: seq<Card>, suit: Suit, rank: Rank): (t: seq<Card>)
    ensures |t| == |deck|
    ensures forall k :: 0 <= k < |deck| ==> t[k] == ToggleCard(deck[k], suit, rank)
  {
    if deck == [] then []
    else Toggled(deck[..|deck| - 1], suit, rank) + [ToggleCard(deck[|deck| - 1], suit, rank)]
  }

  /** The net change the map callback makes to remainingCards: one down for
      each matching card that becomes played, one up for each matching card
      that is returned. */
  function CounterDelta(deck: seq<Card>, suit: Suit, rank: Rank): (d: int)
    ensures -|deck| <= d <= |deck|
  {
    if deck == [] then 0
    else
      var last := deck[|deck| - 1];
      CounterDelta(deck[..|deck| - 1], suit, rank)
        + (if !last.Is(suit, rank) then 0 else if last.played then 1 else -1)
  }

  /** The number of cards whose played flag is not set, the count a suit
      section shows (src/components/SuitSection.tsx, line 17). */
  function Unplayed(deck: seq<Card>): (n: nat)
    ensures n <= |deck|
  {
    if deck == [] then 0
    else Unplayed(deck[..|deck| - 1]) + (if deck[|deck| - 1].played then 0 else 1)
  }

  /** Every card of the deck is unplayed exactly when the unplayed count is
      the deck's length. */
  lemma {:induction false} UnplayedAll(deck: seq<Card>)
    ensures Unplayed(deck) == |deck| <==> forall k :: 0 <= k < |deck| ==> !deck[k].played
  {
    if deck != [] {
      var init := deck[..|deck| - 1];
      UnplayedAll(init);
      assert forall k :: 0 <= k < |init| ==> init[k] == deck[k];
    }
  }

  /** Two decks that differ at most in their played flags. */
  ghost predicate SameCards(a: seq<Card>, b: seq<Card>) {
    |a| == |b| &&
    forall k :: 0 <= k < |a| ==>
      a[k].suit == b[k].suit && a[k].rank == b[k].rank && a[k].color == b[k].color
  }

  /** Toggling flips the played flag of each card whose suit and rank both
      match and of no other card; suits, ranks, colours, length and order
      stay as they were. */
  lemma ToggleFlipsOnlyMatches(deck: seq<Card>, suit: Suit, rank: Rank)
    ensures SameCards(Toggled(deck, suit, rank), deck)
    ensures forall k :: 0 <= k < |deck| ==>
              (Toggled(deck, suit, rank)[k].played != deck[k].played <==> deck[k].Is(suit, rank))
  {
  }

  /** Toggling the same card twice gives back the deck. */
  lemma {:induction false} ToggleTwice(deck: seq<Card>, suit: Suit, rank: Rank)
    ensures Toggled(Toggled(deck, suit, rank), suit, rank) == deck
  {
    var t := Toggled(deck, suit, rank);
    var t2 := Toggled(t, suit, rank);
    forall k | 0 <= k < |deck|
      ensures t2[k] == deck[k]
    {
      assert t[k] == ToggleCard(deck[k], suit, rank);
      assert t2[k] == ToggleCard(t[k], suit, rank);
    }
  }

  /** The second toggle undoes the counter change of the first. */
  lemma {:induction false} ToggleTwiceCounter(deck: seq<Card>, suit: Suit, rank: Rank)
    ensures CounterDelta(Toggled(deck, suit, rank), suit, rank) == -CounterDelta(deck, suit, rank)
  {
    if deck != [] {
      var init := deck[..|deck| - 1];
      var t := Toggled(deck, suit, rank);
      assert t[..|t| - 1] == Toggled(init, suit, rank);
      ToggleTwiceCounter(init, suit, rank);
    }
  }

  /** The counter adjustment keeps track of the unplayed cards: after the
      toggle there are exactly CounterDelta more unplayed cards. */
  lemma {:induction false} ToggleKeepsCount(deck: seq<Card>, suit: Suit, rank: Rank)
    ensures Unplayed(Toggled(deck, suit, rank)) == Unplayed(deck) + CounterDelta(deck, suit, rank)
  {
    if deck != [] {
      var init := deck[..|deck| - 1];
      var t := Toggled(deck, suit, rank);
      assert t[..|t| - 1] == Toggled(init, suit, rank);
      ToggleKeepsCount(init, suit, rank);
    }
  }

  /** Toggling an identity that no card of the deck has (the empty deck
      included) changes neither the deck nor the counter. */
  lemma {:induction false} ToggleAbsent(deck: seq<Card>, suit: Suit, rank: Rank)
    requires forall k :: 0 <= k < |deck| ==> !deck[k].Is(suit, rank)
    ensures Toggled(deck, suit, rank) == deck
    ensures CounterDelta(deck, suit, rank) == 0
  {
    if deck != [] {
      ToggleAbsent(deck[..|deck| - 1], suit, rank);
    }
  }

  /** When exactly one card, at index p, has the identity, the counter moves
      down by one if that card becomes played and up by one if it is returned. */
  lemma {:induction false} CounterDeltaUnique(deck: seq<Card>, suit: Suit, rank: Rank, p: nat)
    requires p < |deck|
    requires forall k :: 0 <= k < |deck| ==> (deck[k].Is(suit, rank) <==> k == p)
    ensures CounterDelta(deck, suit, rank) == if deck[p].played then 1 else -1
  {
    var init := deck[..|deck| - 1];
    if p < |init| {
      CounterDeltaUnique(init, suit, rank, p);
    } else {
      ToggleAbsent(init, suit, rank);
    }
  }

  // ---------------------------------------------------------------------
  // Grouping by suit

  /** The cards of the deck that have the given suit, in deck order: the
      group one suit section displays (src/pages/Index.tsx, lines 65-68). */
  function SuitGroup(deck: seq<Card>, suit: Suit): (g: seq<Card>)
    ensures |g| <= |deck|
  {
    if deck == [] then []
    else
      var last := deck[|deck| - 1];
      SuitGroup(deck[..|deck| - 1], suit) + (if last.suit == suit then [last] else [])
  }

  /** A card is in a suit's group exactly when it is in the deck and has
      that suit. */
  lemma {:induction false} SuitGroupMembers(deck: seq<Card>, suit: Suit)
    ensures forall c :: c in SuitGroup(deck, suit) <==> c in deck && c.suit == suit
  {
    if deck != [] {
      var init, last := deck[..|deck| - 1], deck[|deck| - 1];
      assert deck == init + [last];
      SuitGroupMembers(init, suit);
    }
  }

  /** Filtering a deck with one more card at the end. */
  lemma SuitGroupSnoc(init: seq<Card>, last: Card, suit: Suit)
    ensures SuitGroup(init + [last], suit)
         == SuitGroup(init, suit) + (if last.suit == suit then [last] else [])
  {
    assert (init + [last])[..|init|] == init;
  }

  /** Counting the unplayed cards of a deck with one more card at the end. */
  lemma UnplayedSnoc(init: seq<Card>, last: Card)
    ensures Unplayed(init + [last]) == Unplayed(init) + (if last.played then 0 else 1)
  {
    assert (init + [last])[..|init|] == init;
  }

  /** Filtering keeps relative order: the group of a concatenation is the
      concatenation of the groups. */
  lemma {:induction false} SuitGroupConcat(a: seq<Card>, b: seq<Card>, suit: Suit)
    ensures SuitGroup(a + b, suit) == SuitGroup(a, suit) + SuitGroup(b, suit)
  {
    if b == [] {
      assert a + b == a;
    } else {
      var init, last := b[..|b| - 1], b[|b| - 1];
      assert b == init + [last];
      assert a + b == (a + init) + [last];
      var tail := if last.suit == suit then [last] else [];
      SuitGroupConcat(a, init, suit);
      SuitGroupSnoc(a + init, last, suit);
      SuitGroupSnoc(init, last, suit);
      assert SuitGroup(a + b, suit) == SuitGroup(a, suit) + SuitGroup(init, suit) + tail;
    }
  }

  /** The four suit groups split the deck: together they hold exactly the
      deck's cards, as many times as the deck does. */
  lemma {:induction false} SuitGroupsPartition(deck: seq<Card>)
    ensures multiset(SuitGroup(deck, Hearts)) + multiset(SuitGroup(deck, Diamonds))
          + multiset(SuitGroup(deck, Clubs)) + multiset(SuitGroup(deck, Spades)) == multiset(deck)
  {
    if deck != [] {
      var init, last := deck[..|deck| - 1], deck[|deck| - 1];
      assert deck == init + [last];
      SuitGroupsPartition(init);
      GroupMultisetSnoc(init, last, Hearts);
      GroupMultisetSnoc(init, last, Diamonds);
      GroupMultisetSnoc(init, last, Clubs);
      GroupMultisetSnoc(init, last, Spades);
      assert multiset(deck) == multiset(init) + multiset{last};
    }
  }

  lemma GroupMultisetSnoc(init: seq<Card>, last: Card, suit: Suit)
    ensures multiset(SuitGroup(init + [last], suit))
         == multiset(SuitGroup(init, suit)) + if last.suit == suit then multiset{last} else multiset{}
  {
    SuitGroupSnoc(init, last, suit);
  }

  /** The sizes of the four suit groups add up to the size of the deck. */
  lemma SuitGroupsSizes(deck: seq<Card>)
    ensures |SuitGroup(deck, Hearts)| + |SuitGroup(deck, Diamonds)|
          + |SuitGroup(deck, Clubs)| + |SuitGroup(deck, Spades)| == |deck|
  {
    SuitGroupsPartition(deck);
    assert |multiset(deck)| == |deck|;
  }

  lemma UnplayedSuitSnoc(init: seq<Card>, last: Card, suit: Suit)
    ensures Unplayed(SuitGroup(init + [last], suit))
         == Unplayed(SuitGroup(init, suit)) + (if last.suit == suit && !last.played then 1 else 0)
  {
    SuitGroupSnoc(init, last, suit);
    if last.suit == suit {
      UnplayedSnoc(SuitGroup(init, suit), last);
    } else {
      assert SuitGroup(init, suit) + [] == SuitGroup(init, suit);
    }
  }

  /** The per-suit unplayed counts shown in each suit section add up to the
      number of unplayed cards of the whole deck. */
  lemma {:induction false} UnplayedBySuit(deck: seq<Card>)
    ensures Unplayed(SuitGroup(deck, Hearts)) + Unplayed(SuitGroup(deck, Diamonds))
          + Unplayed(SuitGroup(deck, Clubs)) + Unplayed(SuitGroup(deck, Spades)) == Unplayed(deck)
  {
    if deck != [] {
      var init, last := deck[..|deck| - 1], deck[|deck| - 1];
      assert deck == init + [last];
      UnplayedBySuit(init);
      UnplayedSnoc(init, last);
      UnplayedSuitSnoc(init, last, Hearts);
      UnplayedSuitSnoc(init, last, Diamonds);
      UnplayedSuitSnoc(init, last, Clubs);
      UnplayedSuitSnoc(init, last, Spades);
    }
  }

  /** Filtering four consecutive single-suit blocks by a suit keeps the one
      block of that suit. */
  lemma FourBlocksGroup(h: seq<Card>, d: seq<Card>, c: seq<Card>, s: seq<Card>, suit: Suit)
    requires SuitGroup(h, suit) == if suit == Hearts then h else []
    requires SuitGroup(d, suit) == if suit == Diamonds then d else []
    requires SuitGroup(c, suit) == if suit == Clubs then c else []
    requires SuitGroup(s, suit) == if suit == Spades then s else []
    ensures SuitGroup(h + d + c + s, suit)
         == match suit case Hearts => h case Diamonds => d case Clubs => c case Spades => s
  {
    SuitGroupConcat(h + d + c, s, suit);
    SuitGroupConcat(h + d, c, suit);
    SuitGroupConcat(h, d, suit);
    match suit
    case Hearts => assert h + [] + [] + [] == h;
    case Diamonds => assert [] + d + [] + [] == d;
    case Clubs => assert [] + [] + c + [] == c;
    case Spades => assert [] + [] + [] + s == s;
  }

  /** On a generated deck, each suit's group is that suit's row. */
  lemma {:induction false} StandardSuitGroup(suit: Suit)
    ensures SuitGroup(StandardDeck(), suit) == SuitRow(suit, Ranks)
  {
    StandardDeckRows();
    RowGroup(Hearts, Ranks, suit);
    RowGroup(Diamonds, Ranks, suit);
    RowGroup(Clubs, Ranks, suit);
    RowGroup(Spades, Ranks, suit);
    FourBlocksGroup(SuitRow(Hearts, Ranks), SuitRow(Diamonds, Ranks),
                    SuitRow(Clubs, Ranks), SuitRow(Spades, Ranks), suit);
  }

  /** On a generated deck, each suit's group holds that suit's 13 cards in
      rank order. */
  lemma {:induction false} StandardSuitGroupCards(suit: Suit)
    ensures |SuitGroup(StandardDeck(), suit)| == 13
    ensures forall j :: 0 <= j < 13 ==> SuitGroup(StandardDeck(), suit)[j] == NewCard(suit, Ranks[j])
  {
    StandardSuitGroup(suit);
    SuitRowLength(suit, Ranks);
    forall j | 0 <= j < 13
      ensures SuitRow(suit, Ranks)[j] == NewCard(suit, Ranks[j])
    {
      SuitRowAt(suit, Ranks, j);
    }
  }

  /** A suit's row filtered by a suit: all of it when the suits agree,
      nothing otherwise. */
  lemma {:induction false} RowGroup(s: Suit, ranks: seq<Rank>, suit: Suit)
    ensures SuitGroup(SuitRow(s, ranks), suit) == if s == suit then SuitRow(s, ranks) else []
  {
    if ranks != [] {
      var init := ranks[..|ranks| - 1];
      RowGroup(s, init, suit);
      SuitGroupConcat(SuitRow(s, init), [NewCard(s, ranks[|ranks| - 1])], suit);
    }
  }

  /** On a deck that differs from the generated one only in played flags,
      toggling keeps it so, flips exactly the card at Position(suit, rank),
      and moves the unplayed count by exactly one, in the direction that
      keeps it equal to the counter. */
  lemma ToggleGeneratedDeck(deck: seq<Card>, suit: Suit, rank: Rank)
    requires SameCards(deck, StandardDeck())
    ensures SameCards(Toggled(deck, suit, rank), StandardDeck())
    ensures var p := Position(suit, rank);
            deck[p].Is(suit, rank) &&
            Toggled(deck, suit, rank)[p].played == !deck[p].played &&
            CounterDelta(deck, suit, rank) == (if deck[p].played then 1 else -1)
    ensures Unplayed(Toggled(deck, suit, rank)) == Unplayed(deck) + CounterDelta(deck, suit, rank)
  {
    var p := Position(suit, rank);
    StandardDeckExactlyOnce();
    forall k | 0 <= k < |deck|
      ensures deck[k].Is(suit, rank) <==> k == p
    {
      assert deck[k].Is(suit, rank) <==> StandardDeck()[k].Is(suit, rank);
    }
    CounterDeltaUnique(deck, suit, rank, p);
    ToggleKeepsCount(deck, suit, rank);
  }

  /** The setDeck updater of toggleCardPlayed: map over the deck, flipping
      the played flag of every card whose suit and rank match and adjusting
      the counter by one for each such card, down when it becomes played and
      up when it is returned. */
  method ToggleUpdate(current: seq<Card>, remaining: int, suit: Suit, rank: Rank)
    returns (updated: seq<Card>, counter: int)
    ensures updated == Toggled(current, suit, rank)
    ensures counter == remaining + CounterDelta(current, suit, rank)
  {
    updated, counter := [], remaining;
    var i := 0;
    while i < |current|
      invariant 0 <= i <= |current|
      invariant updated == Toggled(current[..i], suit, rank)
      invariant counter == remaining + CounterDelta(current[..i], suit, rank)
    {
      var card := current[i];
      if card.suit == suit && card.rank == rank {
        var newStatus := !card.played;
        counter := if newStatus then counter - 1 else counter + 1;
        card := card.(played := newStatus);
      }
      assert current[..i + 1][..i] == current[..i];
      updated := updated + [card];
      i := i + 1;
    }
    assert current[..i] == current;
  }

  // ---------------------------------------------------------------------
  // The session state

  /** The page's state: the deck and the remainingCards counter. */
  class Session {
    var deck: seq<Card>
    var remainingCards: int

    /** The state once the deck has been generated: the deck holds the 52
        cards of the generated deck in their order, differing only in played
        flags, and the counter equals the number of unplayed cards. */
    ghost predicate Valid()
      reads this
      ensures Valid() ==> |deck| == 52 && 0 <= remainingCards <= 52
    {
      SameCards(deck, StandardDeck()) && remainingCards == Unplayed(deck)
    }

    /** The state after the mount effect has installed generateDeck(). */
    constructor ()
      ensures deck == StandardDeck() && remainingCards == 52
      ensures Valid()
    {
      var generated := GenerateDeck();
      deck := generated;
      remainingCards := 52;
      new;
      StandardDeckCards();
      UnplayedAll(deck);
    }

    /** toggleCardPlayed: run the setDeck updater on the current deck and
        install its result, together with the counter it adjusted. */
    method Toggle(suit: Suit, rank: Rank)
      modifies this
      ensures deck == Toggled(old(deck), suit, rank)
      ensures remainingCards == old(remainingCards) + CounterDelta(old(deck), suit, rank)
      ensures old(Valid()) ==> Valid()
      ensures old(Valid()) ==>
                var p := Position(suit, rank);
                deck[p].Is(suit, rank) && deck[p].played == !old(deck[p].played) &&
                remainingCards == old(remainingCards) + (if old(deck[p].played) then 1 else -1)
    {
      if Valid() {
        ToggleGeneratedDeck(deck, suit, rank);
      }
      deck, remainingCards := ToggleUpdate(deck, remainingCards, suit, rank);
    }

    /** resetDeck: install a freshly generated deck and set the counter back
        to 52. */
    method Reset()
      modifies this
      ensures deck == StandardDeck() && remainingCards == 52
      ensures Valid()
    {
      var generated := GenerateDeck();
      deck := generated;
      remainingCards := 52;
      StandardDeckCards();
      UnplayedAll(deck);
    }
  }

  /** Toggling the same card twice restores both the deck and the counter. */
  method ToggleTwiceRestores(session: Session, suit: Suit, rank: Rank)
    modifies session
    ensures session.deck == old(session.deck)
    ensures session.remainingCards == old(session.remainingCards)
  {
    ghost var before := session.deck;
    session.Toggle(suit, rank);
    ToggleTwiceCounter(before, suit, rank);
    session.Toggle(suit, rank);
    ToggleTwice(before, suit, rank);
  }
}
