/** What the two versions of the memory game share: the card record, the emoji set, the
    pair generator and the rule that decides how a card is drawn and whether it takes
    clicks. */
module MemoryDeck {
  import opened Seqs
  import opened FisherYates

  const CARD_EMOJIS: seq<string> :=
    ["\U{1F3AE}", "\U{1F3AF}", "\U{1F3A8}", "\U{1F3AD}", "\U{1F3AA}", "\U{1F3AC}",
     "\U{1F3A4}", "\U{1F3A7}", "\U{1F3B8}", "\U{1F3BA}", "\U{1F3BB}", "\U{1F941}"]

  /** Pairs dealt per game: 16 cards for a 4x4 grid. */
  const PAIRS_COUNT: nat := 8

  /** A card object. The game lists, the pending comparison and the click handlers all
      hold references to the same objects, so the flags are updated in place. */
  class Card {
    const id: nat
    const value: string
    var isFlipped: bool
    var isMatched: bool

    constructor (id: nat, value: string)
      ensures this.id == id && this.value == value && !isFlipped && !isMatched
    {
      this.id := id;
      this.value := value;
      isFlipped := false;
      isMatched := false;
    }
  }

  function IdOf(c: Card): nat { c.id }
  function ValueOf(c: Card): string { c.value }

  /** The values of a generated deck of `m` pairs, in generation order. */
  function PairValues(m: nat): (r: seq<string>)
    requires m <= |CARD_EMOJIS|
    ensures |r| == 2 * m
  {
    if m == 0 then [] else PairValues(m - 1) + [CARD_EMOJIS[m - 1], CARD_EMOJIS[m - 1]]
  }

  /** Slots `2e` and `2e + 1` carry emoji `e`. */
  lemma {:induction false} PairValuesAt(m: nat, k: nat)
    requires m <= |CARD_EMOJIS| && k < 2 * m
    ensures PairValues(m)[k] == CARD_EMOJIS[k / 2]
  {
    if k < 2 * (m - 1) {
      PairValuesAt(m - 1, k);
    }
  }

  lemma {:induction false} EmojisDistinct(i: nat, j: nat)
    requires i < |CARD_EMOJIS| && j < |CARD_EMOJIS| && i != j
    ensures CARD_EMOJIS[i] != CARD_EMOJIS[j]
  {
    assert CARD_EMOJIS[i][0] != CARD_EMOJIS[j][0];
  }

  /** Each of the first `m` emojis appears exactly twice in a deck of `m` pairs, and no
      other emoji appears. */
  lemma {:induction false} PairValuesCount(m: nat, e: nat)
    requires m <= |CARD_EMOJIS| && e < |CARD_EMOJIS|
    ensures multiset(PairValues(m))[CARD_EMOJIS[e]] == if e < m then 2 else 0
  {
    if m > 0 {
      PairValuesCount(m - 1, e);
      PairValuesCountStep(m, e);
    }
  }

  /** The `m`-th pair adds two copies of its own emoji and none of any other. */
  lemma {:induction false} PairValuesCountStep(m: nat, e: nat)
    requires 0 < m <= |CARD_EMOJIS| && e < |CARD_EMOJIS|
    ensures multiset(PairValues(m))[CARD_EMOJIS[e]] ==
      multiset(PairValues(m - 1))[CARD_EMOJIS[e]] + if e == m - 1 then 2 else 0
  {
    var x, y := CARD_EMOJIS[e], CARD_EMOJIS[m - 1];
    if e != m - 1 {
      EmojisDistinct(e, m - 1);
    }
    MultisetPairStep(PairValues(m - 1), PairValues(m), y, x, e == m - 1);
  }

  lemma {:induction false} MultisetPairStep<T>(s: seq<T>, r: seq<T>, y: T, x: T, same: bool)
    requires r == s + [y, y] && (same <==> x == y)
    ensures multiset(r)[x] == multiset(s)[x] + (if same then 2 else 0)
  {
    assert multiset(r) == multiset(s) + multiset{y, y};
  }

  /** `generateCardPairs(count)`: take `CARD_EMOJIS.slice(0, count)` and create two cards
      per emoji with consecutive ids from 0, all face down and unmatched. */
  method GenerateCardPairs(count: int) returns (pairs: seq<Card>)
    ensures |pairs| == 2 * SliceEnd(|CARD_EMOJIS|, count)
    ensures Map(ValueOf, pairs) == PairValues(SliceEnd(|CARD_EMOJIS|, count))
    ensures forall k :: 0 <= k < |pairs| ==>
      fresh(pairs[k]) && pairs[k].id == k && !pairs[k].isFlipped && !pairs[k].isMatched
    ensures Distinct(pairs)
  {
    var selectedEmojis := CARD_EMOJIS[..SliceEnd(|CARD_EMOJIS|, count)];
    pairs := [];
    var cardId := 0;
    for e := 0 to |selectedEmojis|
      invariant |pairs| == 2 * e && cardId == 2 * e
      invariant Map(ValueOf, pairs) == PairValues(e)
      invariant forall k :: 0 <= k < |pairs| ==>
        fresh(pairs[k]) && pairs[k].id == k && !pairs[k].isFlipped && !pairs[k].isMatched
    {
      var emoji := selectedEmojis[e];
      var first := new Card(cardId, emoji);
      cardId := cardId + 1;
      var second := new Card(cardId, emoji);
      cardId := cardId + 1;
      MapAppendPair(ValueOf, pairs, first, second);
      pairs := pairs + [first, second];
    }
    DistinctByIds(pairs);
  }

  lemma {:induction false} MapAppendPair<T, U>(f: T -> U, s: seq<T>, a: T, b: T)
    ensures Map(f, s + [a, b]) == Map(f, s) + [f(a), f(b)]
  {
  }

  /** Cards with different ids are different objects. */
  lemma {:induction false} DistinctByIds(cards: seq<Card>)
    requires forall k :: 0 <= k < |cards| ==> cards[k].id == k
    ensures Distinct(cards)
  {
    forall i, j | 0 <= i < j < |cards| ensures cards[i] != cards[j] {
      assert cards[i].id != cards[j].id;
    }
  }

  /** A deal of `PAIRS_COUNT` pairs under any draws holds each of the first eight emojis
      exactly twice and no other emoji. */
  lemma {:induction false} DealtValuesCount(draws: seq<nat>, e: nat)
    requires ValidDraws(draws, 2 * PAIRS_COUNT) && e < |CARD_EMOJIS|
    ensures multiset(Shuffle(PairValues(PAIRS_COUNT), draws))[CARD_EMOJIS[e]] ==
      if e < PAIRS_COUNT then 2 else 0
  {
    ShufflePermutes(PairValues(PAIRS_COUNT), draws);
    PairValuesCount(PAIRS_COUNT, e);
  }

  /** The ids of a generated deck are `0, 1, ...` */
  function Ids(n: nat): (r: seq<nat>)
    ensures |r| == n && forall k :: 0 <= k < n ==> r[k] == k
  {
    seq(n, k => k)
  }

  /** The two cards a scheduled comparison captured when it was scheduled. */
  datatype Pending = Pending(card1: Card, card2: Card)

  /** `gameState.cards.every(card => card.isMatched)` */
  predicate AllMatched(cards: seq<Card>)
    reads cards
  {
    forall k :: 0 <= k < |cards| ==> cards[k].isMatched
  }

  /** How `updateCardVisualState` draws a card. */
  datatype Face = Back | Front | MatchedFront

  /** The content is visible exactly when the card is flipped or matched, and the matched
      styling is used exactly for matched cards. */
  function FaceOf(isFlipped: bool, isMatched: bool): Face
  {
    if isMatched then MatchedFront else if isFlipped then Front else Back
  }

  /** `pointerEvents` is `auto` exactly when the card is not matched and the game is not
      locked. */
  predicate Interactive(isMatched: bool, isLocked: bool)
  {
    !isMatched && !isLocked
  }
}
