/** The value types of the card counter: a card is identified by its suit and
    rank, carries the colour derived from its suit and a played flag. */
module CardTypes {

  datatype Suit = Hearts | Diamonds | Clubs | Spades

  datatype Rank = Ace | Two | Three | Four | Five | Six | Seven
                | Eight | Nine | Ten | Jack | Queen | King

  datatype Color = Red | Black

  datatype Card = Card(suit: Suit, rank: Rank, color: Color, played: bool)
  {
    /** True when this card has the identity (suit, rank). */
    predicate Is(s: Suit, r: Rank) {
      suit == s && rank == r
    }
  }
}
