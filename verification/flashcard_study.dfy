/**
 * The flashcard study screen: the session built from the active deck (in
 * deck order or shuffled), flipping a card, stepping forwards and backwards,
 * toggling the shuffle (which rebuilds the session) and leaving the screen.
 * The shuffle's random draws are an input.
 */
module FlashcardStudy {
  import opened Wrappers
  import opened Types
  import opened Store
  import Shuffle

  /** The component's state. */
  datatype Study = Study(cards: seq<Flashcard>, index: nat, flipped: bool, shuffled: bool)

  /** The position is on a card, or at 0 for an empty session. */
  predicate InBounds(s: Study)
  {
    if |s.cards| == 0 then s.index == 0 else s.index < |s.cards|
  }

  /** A handler's result: the next state and the actions it dispatches. */
  datatype Outcome = Outcome(study: Study, dispatched: seq<Action>)

  /** The request that leaves for the deck list when no deck is active. */
  const ToDeckList: Action := SetView(ViewRequest(FlashcardDecksList, Unset, Unset, Unset, Unset, Unset))

  /**
   * `initializeStudySession` with the effect that runs it: without an active
   * deck the app returns to the deck list; otherwise the session restarts on
   * the first card, face up, over the deck's cards (shuffled when asked).
   */
  function Initialize(s: Study, deck: Option<FlashcardDeck>, draws: seq<nat>): (o: Outcome)
    ensures deck.None? ==> o == Outcome(s, [ToDeckList])
    ensures deck.Some? ==>
      && o.dispatched == []
      && o.study.index == 0 && !o.study.flipped && o.study.shuffled == s.shuffled
      && multiset(o.study.cards) == multiset(deck.value.flashcards)
      && (!s.shuffled ==> o.study.cards == deck.value.flashcards)
      && InBounds(o.study)
  {
    if deck.None? then Outcome(s, [ToDeckList])
    else
      var cards := if s.shuffled then Shuffle.Shuffle(deck.value.flashcards, draws) else deck.value.flashcards;
      Outcome(Study(cards, 0, false, s.shuffled), [])
  }

  /** `handleFlipCard`. */
  function Flip(s: Study): (r: Study)
    ensures r.flipped == !s.flipped
    ensures r.cards == s.cards && r.index == s.index && r.shuffled == s.shuffled
  {
    s.(flipped := !s.flipped)
  }

  /** `handleNextCard`: one card on, face up, unless on the last card. */
  function Next(s: Study): (r: Study)
    ensures s.index + 1 < |s.cards| ==> r == s.(index := s.index + 1, flipped := false)
    ensures s.index + 1 >= |s.cards| ==> r == s
  {
    if s.index + 1 < |s.cards| then s.(index := s.index + 1, flipped := false) else s
  }

  /** `handlePreviousCard`: one card back, face up, unless on the first card. */
  function Previous(s: Study): (r: Study)
    ensures s.index > 0 ==> r == s.(index := s.index - 1, flipped := false)
    ensures s.index == 0 ==> r == s
  {
    if s.index > 0 then s.(index := s.index - 1, flipped := false) else s
  }

  /** `handleToggleShuffle` followed by the effect it triggers, which rebuilds the session. */
  function ToggleShuffle(s: Study, deck: Option<FlashcardDeck>, draws: seq<nat>): (o: Outcome)
    ensures deck.Some? ==> o.study.shuffled == !s.shuffled && o.study.index == 0
  {
    Initialize(s.(shuffled := !s.shuffled), deck, draws)
  }

  /** `handleEndStudy`: back to the deck's hub. */
  function EndStudy(deck: Option<FlashcardDeck>): (acts: seq<Action>)
    ensures deck.None? ==> acts == []
    ensures deck.Some? ==> acts == [SetView(ViewRequest(FlashcardDeckHub, Unset, Unset, Set(Some(deck.value.id)), Unset, Unset))]
  {
    if deck.None? then []
    else [SetView(ViewRequest(FlashcardDeckHub, Unset, Unset, Set(Some(deck.value.id)), Unset, Unset))]
  }

  /** What the card shows: its back when flipped, its front otherwise. */
  datatype Face = Face(text: string, image: Option<string>)

  /** The visible face, or `None` for the empty-deck notice. */
  function Shown(s: Study): (f: Option<Face>)
    requires InBounds(s)
    ensures f.None? <==> |s.cards| == 0
    ensures f.Some? && s.flipped ==> f.value == Face(s.cards[s.index].backText, s.cards[s.index].backImageURL)
    ensures f.Some? && !s.flipped ==> f.value == Face(s.cards[s.index].frontText, s.cards[s.index].frontImageURL)
  {
    if |s.cards| == 0 then None
    else
      var card := s.cards[s.index];
      if s.flipped then Some(Face(card.backText, card.backImageURL))
      else Some(Face(card.frontText, card.frontImageURL))
  }

  /** Navigation never leaves the cards and never changes them. */
  lemma NavigationStaysInBounds(s: Study)
    requires InBounds(s)
    ensures InBounds(Next(s)) && InBounds(Previous(s)) && InBounds(Flip(s))
    ensures Next(s).cards == s.cards && Previous(s).cards == s.cards
  {
  }

  /** Stepping back undoes a step forward that moved (the card ends face up). */
  lemma PreviousUndoesNext(s: Study)
    requires s.index + 1 < |s.cards|
    ensures Previous(Next(s)) == s.(flipped := false)
  {
  }

  /** `n` steps forward. */
  function Forward(s: Study, n: nat): Study
    decreases n
  {
    if n == 0 then s else Forward(Next(s), n - 1)
  }

  /**
   * Stepping forward from the first card walks the cards in order and stops
   * on the last one: after `n` steps the position is `min(n, count - 1)`.
   */
  lemma {:induction false} ForwardWalksInOrder(s: Study, n: nat)
    requires |s.cards| > 0 && s.index < |s.cards|
    ensures Forward(s, n).index == if s.index + n < |s.cards| then s.index + n else |s.cards| - 1
    ensures Forward(s, n).cards == s.cards
    decreases n
  {
    if n > 0 {
      ForwardWalksInOrder(Next(s), n - 1);
    }
  }

  /** Shuffling twice returns to the deck's own order. */
  lemma ToggleTwiceRestoresOrder(s: Study, deck: FlashcardDeck, d1: seq<nat>, d2: seq<nat>)
    requires !s.shuffled
    ensures ToggleShuffle(ToggleShuffle(s, Some(deck), d1).study, Some(deck), d2).study
         == Study(deck.flashcards, 0, false, false)
  {
  }
}
