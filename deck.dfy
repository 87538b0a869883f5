/** The card types the trick rules consume. The repository's `deck` package is
    not part of this model: these datatypes state the standard Euchre
    assumptions the rules rely on (four suits in two colours, the six values
    nine to ace, a jack of the same colour counting as trump). */
module Deck {

  datatype Suit = Clubs | Diamonds | Hearts | Spades {

    predicate IsRed() { this == Diamonds || this == Hearts }

    /** The other suit of the same colour: its jack is the left bower when
        this suit is trump. */
    function Left(): (s: Suit)
      ensures s != this && s.IsRed() == IsRed()
    {
      match this
      case Clubs => Spades
      case Spades => Clubs
      case Diamonds => Hearts
      case Hearts => Diamonds
    }
  }

  datatype Value = Nine | Ten | Jack | Queen | King | Ace {

    /** Face rank, nine lowest and ace highest. */
    function Rank(): (r: int)
      ensures 9 <= r <= 14
      ensures this == Nine ==> r == 9
      ensures this == Ace ==> r == 14
    {
      match this
      case Nine => 9
      case Ten => 10
      case Jack => 11
      case Queen => 12
      case King => 13
      case Ace => 14
    }

    /** Three-way comparison by rank: positive, zero or negative. */
    function Compare(other: Value): (c: int)
      ensures c > 0 <==> Rank() > other.Rank()
      ensures c == 0 <==> this == other
      ensures c < 0 <==> Rank() < other.Rank()
    {
      if Rank() > other.Rank() then 1 else if Rank() < other.Rank() then -1 else 0
    }
  }

  datatype Card = Card(suit: Suit, value: Value) {

    predicate IsRightBower(trump: Suit) { value == Jack && suit == trump }

    predicate IsLeftBower(trump: Suit) { value == Jack && suit == trump.Left() }

    /** The suit the card plays as: the left bower plays as trump, every other
        card as its own suit. */
    function AdjSuit(trump: Suit): (s: Suit)
      ensures s == trump <==> suit == trump || IsLeftBower(trump)
      ensures s != trump ==> s == suit
    {
      if IsLeftBower(trump) then trump else suit
    }
  }

  /** A trick: the cards in playing order, the seat that led it, and the seat
      going alone (a value outside [0,3] means nobody went alone). */
  datatype Trick = Trick(cards: seq<Card>, led: int, alone: int)
}
