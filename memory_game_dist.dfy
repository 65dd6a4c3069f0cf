/** The compiled JavaScript version of the memory game engine, which differs from the
    TypeScript one: the click handler also refuses a card whose id is already flipped and
    does not lock; `checkCardMatch` runs 300 ms after the second flip and locks; the
    comparison runs one second later and empties the flipped list; a further 300 ms later
    the board is unlocked. Each deferred step is a method: `CheckCardMatch`, `Evaluate`,
    `Settle`. */
module MemoryGameDist {
  import opened Wrappers
  import opened Seqs
  import opened FisherYates
  import opened MemoryDeck

  class GameState {
    var cards: seq<Card>
    var flippedCards: seq<Card>
    var isLocked: bool
    var moves: nat
    /** The win message, which shows the number of moves; `None` when the area is clear. */
    var message: Option<nat>

    constructor ()
      ensures cards == [] && flippedCards == [] && !isLocked && moves == 0 && message == None
    {
      cards := [];
      flippedCards := [];
      isLocked := false;
      moves := 0;
      message := None;
    }

    /** What the engine keeps true between events of one game: card ids are unique, the
        face-up unmatched cards are exactly the listed flipped ones (at most two), matched
        cards stay face up, and the board is never locked with exactly one card flipped. */
    ghost predicate Valid()
      reads this, cards
    {
      Distinct(Map(IdOf, cards)) &&
      (forall c :: c in flippedCards ==> c in cards) &&
      |flippedCards| <= 2 && Distinct(flippedCards) &&
      (forall c :: c in cards ==> (c in flippedCards <==> c.isFlipped && !c.isMatched)) &&
      (forall c :: c in cards && c.isMatched ==> c.isFlipped) &&
      (isLocked ==> |flippedCards| != 1)
    }

    /** The five guards of `handleCardClick` all pass. */
    predicate Accepts(card: Card)
      reads this, card, flippedCards
    {
      !isLocked && !card.isFlipped && !card.isMatched && |flippedCards| < 2 &&
      forall k :: 0 <= k < |flippedCards| ==> flippedCards[k].id != card.id
    }

    /** `initGame`: unlock, clear the flipped list, reset the moves and the message, then
        deal `PAIRS_COUNT` fresh pairs shuffled under `draws`. */
    method InitGame(draws: seq<nat>)
      requires ValidDraws(draws, 2 * PAIRS_COUNT)
      modifies this
      ensures |cards| == 2 * PAIRS_COUNT
      ensures Map(ValueOf, cards) == Shuffle(PairValues(PAIRS_COUNT), draws)
      ensures Map(IdOf, cards) == Shuffle(Ids(2 * PAIRS_COUNT), draws)
      ensures forall c :: c in cards ==> fresh(c) && !c.isFlipped && !c.isMatched
      ensures flippedCards == [] && !isLocked && moves == 0 && message == None
      ensures Valid()
    {
      isLocked := false;
      flippedCards := [];
      moves := 0;
      message := None;
      var cardPairs := GenerateCardPairs(PAIRS_COUNT);
      cards := ShuffleCards(cardPairs, draws);
      ShufflePermutes(cardPairs, draws);
      ShuffleMap(ValueOf, cardPairs, draws);
      ShuffleMap(IdOf, cardPairs, draws);
      assert Map(IdOf, cardPairs) == Ids(2 * PAIRS_COUNT);
      ShuffleFromDistinct(Ids(2 * PAIRS_COUNT), draws, 2 * PAIRS_COUNT - 1);
      forall c | c in cards ensures fresh(c) && !c.isFlipped && !c.isMatched {
        assert c in multiset(cardPairs);
      }
    }

    /** `handleCardClick(card)`. A rejected click changes nothing. An accepted one turns the
        card face up and appends it; when it is the second card the move counter rises by
        one and `checkCardMatch` is scheduled (`scheduled`), but the board stays unlocked. */
    method HandleCardClick(card: Card) returns (scheduled: bool)
      modifies this, card
      ensures !old(Accepts(card)) ==> unchanged(this, card) && !scheduled
      ensures old(Accepts(card)) ==>
        card.isFlipped && !card.isMatched &&
        flippedCards == old(flippedCards) + [card] &&
        cards == old(cards) && message == old(message) && !isLocked &&
        moves == (if |flippedCards| == 2 then old(moves) + 1 else old(moves)) &&
        scheduled == (|flippedCards| == 2)
      ensures old(Valid() && card in cards) ==> Valid()
    {
      scheduled := false;
      if isLocked {
        return;
      }
      if card.isFlipped {
        return;
      }
      if card.isMatched {
        return;
      }
      if |flippedCards| >= 2 {
        return;
      }
      if exists k :: 0 <= k < |flippedCards| && flippedCards[k].id == card.id {
        return;
      }
      card.isFlipped := true;
      flippedCards := flippedCards + [card];
      if |flippedCards| == 2 {
        moves := moves + 1;
        scheduled := true;
      }
    }

    /** `checkCardMatch`, 300 ms after the second flip: with fewer than two flipped cards it
        does nothing; otherwise it captures the first two, locks the board and schedules the
        comparison (returned). */
    method CheckCardMatch() returns (pending: Option<Pending>)
      modifies this`isLocked
      ensures |flippedCards| < 2 ==> pending == None && isLocked == old(isLocked)
      ensures |flippedCards| >= 2 ==>
        isLocked && pending == Some(Pending(flippedCards[0], flippedCards[1]))
      ensures old(Valid()) ==> Valid()
    {
      if |flippedCards| < 2 {
        return None;
      }
      isLocked := true;
      pending := Some(Pending(flippedCards[0], flippedCards[1]));
    }

    /** The comparison one second after `checkCardMatch`, on the captured cards: equal values
        go to `handleMatch`, different values to `handleMismatch`; then the flipped list is
        emptied. The lock is left as it is, for `Settle`. */
    method Evaluate(p: Pending)
      modifies this, p.card1, p.card2
      ensures p.card1.value == p.card2.value ==>
        p.card1.isMatched && p.card2.isMatched &&
        p.card1.isFlipped == old(p.card1.isFlipped) && p.card2.isFlipped == old(p.card2.isFlipped) &&
        message == if AllMatched(cards) then Some(moves) else old(message)
      ensures p.card1.value != p.card2.value ==>
        !p.card1.isFlipped && !p.card2.isFlipped &&
        p.card1.isMatched == old(p.card1.isMatched) && p.card2.isMatched == old(p.card2.isMatched) &&
        message == old(message)
      ensures flippedCards == [] && isLocked == old(isLocked)
      ensures cards == old(cards) && moves == old(moves)
      ensures forall c :: c in cards && old(c.isMatched) ==> c.isMatched
      ensures old(Valid() && |flippedCards| == 2 && p == Pending(flippedCards[0], flippedCards[1])) ==>
        Valid()
    {
      if p.card1.value == p.card2.value {
        HandleMatch(p.card1, p.card2);
      } else {
        HandleMismatch(p.card1, p.card2);
      }
      flippedCards := [];
    }

    /** The last step, 300 ms after the comparison: unlock the board. */
    method Settle()
      modifies this`isLocked
      ensures !isLocked
      ensures old(Valid()) ==> Valid()
    {
      isLocked := false;
    }

    /** `handleMatch`: mark both cards matched, then run the win check. */
    method HandleMatch(card1: Card, card2: Card)
      modifies this`message, card1`isMatched, card2`isMatched
      ensures card1.isMatched && card2.isMatched
      ensures message == if AllMatched(cards) then Some(moves) else old(message)
    {
      card1.isMatched := true;
      card2.isMatched := true;
      CheckGameWin();
    }

    /** `handleMismatch`: turn both cards face down. */
    method HandleMismatch(card1: Card, card2: Card)
      modifies card1`isFlipped, card2`isFlipped
      ensures !card1.isFlipped && !card2.isFlipped
    {
      card1.isFlipped := false;
      card2.isFlipped := false;
    }

    /** `checkGameWin`: show the win message with the move count when every card is
        matched; otherwise leave the message area alone. */
    method CheckGameWin()
      modifies this`message
      ensures message == if AllMatched(cards) then Some(moves) else old(message)
    {
      if forall k :: 0 <= k < |cards| ==> cards[k].isMatched {
        message := Some(moves);
      }
    }

    /** The "same card twice" guard never decides anything in a consistent state: a card
        that passes the face-down guard has an id no flipped card has. */
    lemma {:induction false} DuplicateGuardRedundant(card: Card)
      requires Valid() && card in cards && !card.isFlipped
      ensures forall k :: 0 <= k < |flippedCards| ==> flippedCards[k].id != card.id
    {
      forall k | 0 <= k < |flippedCards| ensures flippedCards[k].id != card.id {
        var f := flippedCards[k];
        assert f in cards && f.isFlipped;
        var i :| 0 <= i < |cards| && cards[i] == f;
        var j :| 0 <= j < |cards| && cards[j] == card;
        assert i != j;
        assert Map(IdOf, cards)[i] != Map(IdOf, cards)[j];
      }
    }

    /** A current card takes a click exactly when it is drawn face down, is interactive and
        fewer than two cards are flipped. */
    lemma {:induction false} AcceptsIffFaceDownInteractive(card: Card)
      requires Valid() && card in cards
      ensures Accepts(card) <==>
        FaceOf(card.isFlipped, card.isMatched) == Back && Interactive(card.isMatched, isLocked) &&
        |flippedCards| < 2
    {
      if !card.isFlipped {
        DuplicateGuardRedundant(card);
      }
    }

    /** Between the second flip and `checkCardMatch` the unmatched cards are drawn as
        interactive, yet every click is refused by the two-cards guard. */
    lemma {:induction false} WindowRefusesClicks(card: Card)
      requires |flippedCards| == 2 && !isLocked && !card.isMatched
      ensures Interactive(card.isMatched, isLocked) && !Accepts(card)
    {
    }
  }

  /** A fresh game in which two cards have been clicked and `checkCardMatch` has locked
      the board and scheduled their comparison. */
  method StartComparison(draws: seq<nat>) returns (g: GameState, p: Pending)
    requires ValidDraws(draws, 2 * PAIRS_COUNT)
    ensures fresh(g) && fresh(p.card1) && fresh(p.card2)
    ensures g.Valid() && g.isLocked && g.flippedCards == [p.card1, p.card2]
  {
    g := new GameState();
    g.InitGame(draws);
    var a, b := g.cards[0], g.cards[1];
    assert a in g.cards && b in g.cards && a != b;
    assert g.Accepts(a);
    var first := g.HandleCardClick(a);
    assert g.flippedCards == [a] && g.Accepts(b);
    var second := g.HandleCardClick(b);
    assert g.flippedCards == [a, b];
    var pending := g.CheckCardMatch();
    p := pending.value;
  }

  /** Starting a new game while a comparison is pending: the old comparison later empties
      the new game's flipped list, so a card flipped in the new game stays face up,
      unmatched and no longer clickable, with no comparison to turn it back. */
  method RestartDuringComparison(draws: seq<nat>) returns (g: GameState, c: Card)
    requires ValidDraws(draws, 2 * PAIRS_COUNT)
    ensures c in g.cards && c.isFlipped && !c.isMatched && c !in g.flippedCards
    ensures !g.Accepts(c)
  {
    var p;
    g, p := StartComparison(draws);
    g.InitGame(draws);
    c := g.cards[0];
    assert c in g.cards && c != p.card1 && c != p.card2;
    assert g.Accepts(c);
    var third := g.HandleCardClick(c);
    assert g.flippedCards == [c] && c.isFlipped && !c.isMatched;
    g.Evaluate(p);
    assert g.flippedCards == [] && c.isFlipped && !c.isMatched;
    g.Settle();
  }
}
