/** The TypeScript version of the memory game engine: one mutable game state, a click
    handler, and the comparison that `checkCardMatch` schedules one second later, here the
    explicit step `ResolveMatch`. */
module MemoryGameTs {
  import opened Wrappers
  import opened Seqs
  import opened FisherYates
  import opened MemoryDeck

  class GameState {
    var cards: seq<Card>
    var flippedCards: seq<Card>
    var isLocked: bool
    var moves: nat
    /** The win message, which shows the number of moves; `None` when the area is clear. */
    var message: Option<nat>

    constructor ()
      ensures cards == [] && flippedCards == [] && !isLocked && moves == 0 && message == None
    {
      cards := [];
      flippedCards := [];
      isLocked := false;
      moves := 0;
      message := None;
    }

    /** What the engine keeps true between events of one game: the face-up unmatched cards
        are exactly the listed flipped ones (at most two, in click order), matched cards stay
        face up, and the board is locked exactly while a pair waits for comparison. */
    ghost predicate Valid()
      reads this, cards
    {
      Distinct(cards) &&
      (forall c :: c in flippedCards ==> c in cards) &&
      |flippedCards| <= 2 && Distinct(flippedCards) &&
      (forall c :: c in cards ==> (c in flippedCards <==> c.isFlipped && !c.isMatched)) &&
      (forall c :: c in cards && c.isMatched ==> c.isFlipped) &&
      (isLocked <==> |flippedCards| == 2)
    }

    /** The guards of `handleCardClick` all pass. */
    predicate Accepts(card: Card)
      reads this, card
    {
      !card.isFlipped && !card.isMatched && !isLocked && |flippedCards| < 2
    }

    /** `initGame`: deal `PAIRS_COUNT` fresh pairs shuffled under `draws`, clear the
        flipped list, unlock, reset the moves and clear the message. */
    method InitGame(draws: seq<nat>)
      requires ValidDraws(draws, 2 * PAIRS_COUNT)
      modifies this
      ensures |cards| == 2 * PAIRS_COUNT
      ensures Map(ValueOf, cards) == Shuffle(PairValues(PAIRS_COUNT), draws)
      ensures Map(IdOf, cards) == Shuffle(Ids(2 * PAIRS_COUNT), draws)
      ensures forall c :: c in cards ==> fresh(c) && !c.isFlipped && !c.isMatched
      ensures flippedCards == [] && !isLocked && moves == 0 && message == None
      ensures Valid()
    {
      var cardPairs := GenerateCardPairs(PAIRS_COUNT);
      cards := ShuffleCards(cardPairs, draws);
      ShufflePermutes(cardPairs, draws);
      ShuffleFromDistinct(cardPairs, draws, |cardPairs| - 1);
      ShuffleMap(ValueOf, cardPairs, draws);
      ShuffleMap(IdOf, cardPairs, draws);
      assert Map(IdOf, cardPairs) == Ids(2 * PAIRS_COUNT);
      forall c | c in cards ensures fresh(c) && !c.isFlipped && !c.isMatched {
        assert c in multiset(cardPairs);
      }
      flippedCards := [];
      isLocked := false;
      moves := 0;
      message := None;
    }

    /** `handleCardClick(card)`. A rejected click changes nothing. An accepted one turns the
        card face up and appends it; when it is the second card, the move counter rises by
        one, the board locks and the comparison of the two cards is scheduled (returned). */
    method HandleCardClick(card: Card) returns (pending: Option<Pending>)
      modifies this, card
      ensures !old(Accepts(card)) ==> unchanged(this, card) && pending == None
      ensures old(Accepts(card)) ==>
        card.isFlipped && !card.isMatched &&
        flippedCards == old(flippedCards) + [card] &&
        cards == old(cards) && message == old(message) &&
        if |flippedCards| == 2 then
          moves == old(moves) + 1 && isLocked &&
          pending == Some(Pending(flippedCards[0], flippedCards[1]))
        else
          moves == old(moves) && !isLocked && pending == None
      ensures |flippedCards| <= 2 || unchanged(this)
      ensures old(Valid() && card in cards) ==> Valid()
    {
      pending := None;
      if card.isFlipped || card.isMatched || isLocked {
        return;
      }
      if |flippedCards| >= 2 {
        return;
      }
      card.isFlipped := true;
      flippedCards := flippedCards + [card];
      if |flippedCards| == 2 {
        moves := moves + 1;
        var p := CheckCardMatch();
        pending := Some(p);
      }
    }

    /** The synchronous part of `checkCardMatch`: capture the two flipped cards and lock. */
    method CheckCardMatch() returns (p: Pending)
      requires |flippedCards| >= 2
      modifies this`isLocked
      ensures isLocked && p == Pending(flippedCards[0], flippedCards[1])
    {
      p := Pending(flippedCards[0], flippedCards[1]);
      isLocked := true;
    }

    /** The comparison one second later, on the captured cards. Equal values: both become
        matched and the win check runs. Different values: both turn face down. Either way the
        flipped list is emptied and the board unlocked, whatever the state is by then. */
    method ResolveMatch(p: Pending)
      modifies this, p.card1, p.card2
      ensures p.card1.value == p.card2.value ==>
        p.card1.isMatched && p.card2.isMatched &&
        p.card1.isFlipped == old(p.card1.isFlipped) && p.card2.isFlipped == old(p.card2.isFlipped) &&
        message == if AllMatched(cards) then Some(moves) else old(message)
      ensures p.card1.value != p.card2.value ==>
        !p.card1.isFlipped && !p.card2.isFlipped &&
        p.card1.isMatched == old(p.card1.isMatched) && p.card2.isMatched == old(p.card2.isMatched) &&
        message == old(message)
      ensures flippedCards == [] && !isLocked && cards == old(cards) && moves == old(moves)
      ensures forall c :: c in cards && old(c.isMatched) ==> c.isMatched
      ensures old(Valid() && |flippedCards| == 2 && p == Pending(flippedCards[0], flippedCards[1])) ==>
        Valid()
    {
      if p.card1.value == p.card2.value {
        p.card1.isMatched := true;
        p.card2.isMatched := true;
        CheckGameWin();
      } else {
        p.card1.isFlipped := false;
        p.card2.isFlipped := false;
      }
      flippedCards := [];
      isLocked := false;
    }

    /** `checkGameWin`: show the win message with the move count when every card is
        matched; otherwise leave the message area alone. */
    method CheckGameWin()
      modifies this`message
      ensures message == if AllMatched(cards) then Some(moves) else old(message)
    {
      if forall k :: 0 <= k < |cards| ==> cards[k].isMatched {
        message := Some(moves);
      }
    }

    /** In this version the click guards and the drawn state agree: a current card takes a
        click exactly when it is drawn face down and is interactive. */
    lemma {:induction false} AcceptsIffFaceDownInteractive(card: Card)
      requires Valid() && card in cards
      ensures Accepts(card) <==>
        FaceOf(card.isFlipped, card.isMatched) == Back && Interactive(card.isMatched, isLocked)
    {
    }
  }

  /** Starting a new game while a comparison is pending: the old comparison later empties
      the new game's flipped list and unlocks it, so a card flipped in the new game stays
      face up, unmatched and no longer clickable, with no comparison to turn it back. */
  method RestartDuringComparison(draws: seq<nat>) returns (g: GameState, c: Card)
    requires ValidDraws(draws, 2 * PAIRS_COUNT)
    ensures c in g.cards && c.isFlipped && !c.isMatched && c !in g.flippedCards
    ensures !g.Accepts(c) && !g.Valid()
  {
    g := new GameState();
    g.InitGame(draws);
    var a, b := g.cards[0], g.cards[1];
    assert a in g.cards && b in g.cards && a != b;
    assert g.Accepts(a);
    var first := g.HandleCardClick(a);
    assert g.flippedCards == [a] && g.Accepts(b);
    var second := g.HandleCardClick(b);
    assert g.flippedCards == [a, b];
    g.InitGame(draws);
    c := g.cards[0];
    assert c in g.cards && c != a && c != b;
    assert g.Accepts(c);
    var third := g.HandleCardClick(c);
    assert second == Some(Pending(a, b));
    assert g.flippedCards == [c] && c.isFlipped && !c.isMatched;
    g.ResolveMatch(second.value);
  }
}
