/** The playing-card deck of the poker backend (`CardDeck` in api/models.py). */
module Models {
  import opened Itertools

  /** The four suit names the deck is built from, in the order the deck lists them. */
  datatype Suit = Spade | Heart | Diamond | Club

  /** A card is a `(rank, suit)` pair; ranks run 1 (ace) to 13 (king). */
  type Card = (int, Suit)

  const Ranks: seq<int> := Range(1, 14)
  const Suits: seq<Suit> := [Spade, Heart, Diamond, Club]

  /** One of the 52 cards of a standard deck. */
  predicate IsCard(c: Card) {
    1 <= c.0 <= 13
  }

  /** A reordering of the deck that `initialize` builds. */
  ghost predicate IsFullDeck(d: seq<Card>) {
    multiset(d) == multiset(FreshDeck())
  }

  /** What `initialize` stores: the product of the ranks and the suits. */
  function FreshDeck(): seq<Card> {
    Product(Ranks, Suits)
  }

  lemma SuitsDistinct()
    ensures Distinct(Suits)
  {
  }

  lemma EverySuitListed(s: Suit)
    ensures s in Suits
  {
  }

  /** A fresh deck holds 52 cards. */
  lemma FreshDeckSize()
    ensures |FreshDeck()| == 52
  {
    ProductLength(Ranks, Suits);
  }

  /** Rank-major, suit-minor order: position 4 * q + r holds rank q + 1 in the r-th suit
      (position i holds rank i / 4 + 1 in suit i % 4). */
  lemma FreshDeckAt(q: int, r: int)
    requires 0 <= q < 13 && 0 <= r < 4
    ensures |FreshDeck()| == 52 && 4 * q + r < 52
    ensures FreshDeck()[4 * q + r] == (q + 1, Suits[r])
  {
    FreshDeckSize();
    assert |Ranks| == 13 && |Suits| == 4;
    ProductAt(Ranks, Suits, q, r);
    ProductLength(Ranks[..q], Suits);
    assert |Ranks[..q]| == q;
    assert Ranks[q] == q + 1;
  }

  /** A card is in a fresh deck exactly when it is one of the 52 cards. */
  lemma FreshDeckMembership(c: Card)
    ensures c in FreshDeck() <==> IsCard(c)
  {
    ProductMembership(Ranks, Suits, c);
    RangeMembership(1, 14, c.0);
    EverySuitListed(c.1);
  }

  /** No card appears twice in a fresh deck. */
  lemma FreshDeckDistinct()
    ensures Distinct(FreshDeck())
  {
    RangeDistinct(1, 14);
    SuitsDistinct();
    ProductDistinct(Ranks, Suits);
  }

  /** A fresh deck holds each of the 52 cards exactly once and no other value. */
  lemma FreshDeckMultiplicity(c: Card)
    ensures multiset(FreshDeck())[c] == if IsCard(c) then 1 else 0
  {
    RangeDistinct(1, 14);
    SuitsDistinct();
    ProductMultiplicity(Ranks, Suits, c);
    RangeMembership(1, 14, c.0);
    EverySuitListed(c.1);
  }

  /** Any reordering of a fresh deck has 52 entries. */
  lemma FullDeckSize(d: seq<Card>)
    requires IsFullDeck(d)
    ensures |d| == 52
  {
    FreshDeckSize();
    PermutationLength(FreshDeck(), d);
  }

  /** Any reordering of a fresh deck holds each of the 52 cards exactly once and no other value. */
  lemma FullDeckMultiplicity(d: seq<Card>, c: Card)
    requires IsFullDeck(d)
    ensures multiset(d)[c] == if IsCard(c) then 1 else 0
  {
    FreshDeckMultiplicity(c);
  }

  /** Conversely, a deck that holds each of the 52 cards exactly once and nothing else
      is a reordering of a fresh deck. */
  lemma OncePerCardIsFull(d: seq<Card>)
    requires forall c: Card :: multiset(d)[c] == if IsCard(c) then 1 else 0
    ensures IsFullDeck(d)
  {
    forall c: Card
      ensures multiset(d)[c] == multiset(FreshDeck())[c]
    {
      FreshDeckMultiplicity(c);
    }
  }

  /** Any reordering of a fresh deck repeats no card. */
  lemma FullDeckDistinct(d: seq<Card>)
    requires IsFullDeck(d)
    ensures Distinct(d)
  {
    FreshDeckDistinct();
    PermutationDistinct(FreshDeck(), d);
  }

  /** The deck object: its only state is the list `deck`. */
  class CardDeck {
    var deck: seq<Card>

    /** Construction runs `initialize`. */
    constructor ()
      ensures deck == FreshDeck()
    {
      deck := [];
      new;
      Initialize();
    }

    /** Shuffles the deck in place. Python's `random.shuffle` walks i from the last
        position down to 1 and swaps position i with a position j drawn from 0..i;
        each draw is left open here, so the contract covers every sequence of draws. */
    method Shuffle()
      modifies this`deck
      ensures multiset(deck) == multiset(old(deck))
      ensures |deck| == |old(deck)|
      ensures old(IsFullDeck(deck)) ==> IsFullDeck(deck)
    {
      var i := |deck| - 1;
      while i > 0
        invariant -1 <= i < |deck|
        invariant multiset(deck) == multiset(old(deck))
        invariant |deck| == |old(deck)|
        decreases i
      {
        var j :| 0 <= j <= i;
        deck := deck[i := deck[j]][j := deck[i]];
        i := i - 1;
      }
    }

    /** Replaces the whole deck with a fresh one, whatever it held before. */
    method Initialize()
      modifies this`deck
      ensures deck == FreshDeck()
    {
      deck := Product(Range(1, 14), Suits);
    }
  }
}
