/** The `MemoryGame` object: its fields, updated in place by its methods, each
    method proved to make the transition `Rules` specifies for it. The card
    elements of the board are modelled by `faces`, one state per card index. */
module Game {
  import opened Deck
  import opened Rules

  class MemoryGame {
    /** The deck, reordered in place by every shuffle. */
    var cards: array<Symbol>
    /** The state of the card element at each index of the board. */
    var faces: array<CardState>
    /** The indices of the flipped, not yet resolved cards, in flip order. */
    var flippedCards: seq<nat>
    var matchedPairs: nat
    /** The lock that blocks clicks while a pair is being resolved. */
    var isProcessing: bool

    /** The abstract value of the object. */
    function State(): Game
      reads this, cards, faces
    {
      Game(cards[..], faces[..], flippedCards, matchedPairs, isProcessing)
    }

    ghost predicate Valid()
      reads this, cards, faces
    {
      Inv(State())
    }

    /** The constructor and `init`: the initial deck, shuffled with `choices`,
        on a board of hidden cards. */
    constructor (choices: seq<nat>)
      requires ValidChoices(choices, DeckSize)
      ensures Valid() && fresh(cards) && fresh(faces)
      ensures State() == NewGame(choices)
    {
      cards := new Symbol[DeckSize](i requires 0 <= i < DeckSize => InitialDeck[i]);
      faces := new CardState[DeckSize](_ => Hidden);
      flippedCards := [];
      matchedPairs := 0;
      isProcessing := false;
      new;
      assert cards[..] == InitialDeck;
      assert faces[..] == AllHidden(DeckSize);
      ShuffleCards(choices);
      NewGameInv(choices);
      assert State() == NewGame(choices);
    }

    /** Fisher–Yates in place: for `i` from the last index down to 1, swap
        `cards[i]` with `cards[choices[i]]`, where `choices[i]` stands for the
        random index drawn in `[0, i]`. */
    method ShuffleCards(choices: seq<nat>)
      requires ValidChoices(choices, cards.Length)
      modifies cards
      ensures cards[..] == Shuffle(old(cards[..]), choices)
      ensures multiset(cards[..]) == multiset(old(cards[..]))
    {
      var i := cards.Length - 1;
      while i > 0
        invariant -1 <= i < cards.Length
        invariant ShuffleFrom(cards[..], choices, i) == Shuffle(old(cards[..]), choices)
        decreases i
      {
        var j := choices[i];
        cards[i], cards[j] := cards[j], cards[i];
        i := i - 1;
      }
    }

    /** A click on card `k`: ignored while locked, on a flipped or matched
        card, or with two cards already flipped; otherwise the card is flipped
        and recorded, and the second flipped card starts the match check. */
    method FlipCard(k: nat)
      requires Valid() && k < faces.Length
      modifies this, faces
      ensures Valid() && cards == old(cards) && faces == old(faces)
      ensures State() == Flip(old(State()), k)
      ensures old(FlipRejected(State(), k)) ==> State() == old(State())
      ensures |flippedCards| <= 2
      ensures !old(FlipRejected(State(), k)) ==> isProcessing == (|old(flippedCards)| == 1)
    {
      ghost var before := State();
      if isProcessing || faces[k] == Flipped || faces[k] == Matched || |flippedCards| >= 2 {
        return;
      }
      faces[k] := Flipped;
      flippedCards := flippedCards + [k];
      if |flippedCards| == 2 {
        CheckMatch();
      }
      assert faces[..] == before.faces[k := Flipped];
      FlipPreservesInv(before, k);
      FlipLocksOnSecondCard(before, k);
    }

    /** The synchronous part of `checkMatch`: take the lock. The comparison of
        the two cards and its outcome happen in `Resolve`, the deferred step. */
    method CheckMatch()
      requires |flippedCards| == 2
      modifies this`isProcessing
      ensures isProcessing
    {
      isProcessing := true;
    }

    /** The deferred step of `checkMatch`: it compares the two flipped cards
        and runs the timeout body it scheduled for a match or a mismatch. It
        runs only while the lock taken by the current round is held. */
    method Resolve() returns (notice: Notice)
      requires Valid() && isProcessing
      modifies this, faces
      ensures Valid() && cards == old(cards) && faces == old(faces)
      ensures old(Pending(State())) && State() == Rules.Resolve(old(State()))
      ensures notice == ResolveNotice(old(State()))
      ensures flippedCards == [] && !isProcessing
      ensures matchedPairs == old(matchedPairs) + (if old(IsMatch(State())) then 1 else 0)
      ensures forall k :: 0 <= k < faces.Length && k !in old(flippedCards) ==> faces[k] == old(faces[k])
      ensures notice == AllPairsFound <==> matchedPairs == Pairs
    {
      ResolveEffect(State());
      var card1, card2 := flippedCards[0], flippedCards[1];
      if cards[card1] == cards[card2] {
        var complete := MatchTimeout();
        notice := if complete then AllPairsFound else Silent;
      } else {
        MismatchTimeout();
        notice := TryAgain;
      }
    }

    /** The timeout body for a match: both cards become matched, one more pair
        is counted and `checkGameComplete` runs; then the flipped cards are
        cleared and the lock released. */
    method MatchTimeout() returns (complete: bool)
      requires Valid() && Pending(State()) && IsMatch(State())
      modifies this, faces
      ensures Valid() && cards == old(cards) && faces == old(faces)
      ensures State() == Rules.Resolve(old(State()))
      ensures complete <==> matchedPairs == Pairs
    {
      ghost var before := State();
      ResolvePreservesInv(before);
      var card1, card2 := flippedCards[0], flippedCards[1];
      faces[card1] := Matched;
      faces[card2] := Matched;
      matchedPairs := matchedPairs + 1;
      complete := CheckGameComplete();
      flippedCards := [];
      isProcessing := false;
      assert faces[..] == Rules.Resolve(before).faces;
      assert State() == Rules.Resolve(before);
    }

    /** The timeout body for a mismatch: both cards are hidden again, the
        flipped cards are cleared and the lock released. The "try again"
        message is the `TryAgain` notice of `Resolve`. */
    method MismatchTimeout()
      requires Valid() && Pending(State()) && !IsMatch(State())
      modifies this, faces
      ensures Valid() && cards == old(cards) && faces == old(faces)
      ensures State() == Rules.Resolve(old(State()))
    {
      ghost var before := State();
      ResolvePreservesInv(before);
      var card1, card2 := flippedCards[0], flippedCards[1];
      faces[card1] := Hidden;
      faces[card2] := Hidden;
      flippedCards := [];
      isProcessing := false;
      assert faces[..] == Rules.Resolve(before).faces;
      assert State() == Rules.Resolve(before);
    }

    /** `checkGameComplete`: whether the congratulation is shown. On a valid
        game that is exactly when every card is matched. The first clause is
        what `MatchTimeout` uses: it calls this method after counting the pair
        but before clearing the flipped cards, where the game is not valid. */
    method CheckGameComplete() returns (complete: bool)
      ensures complete <==> matchedPairs == Pairs
      ensures Valid() ==> (complete <==> forall k :: 0 <= k < faces.Length ==> faces[k] == Matched)
    {
      complete := matchedPairs == Pairs;
      assert Valid() ==> (complete <==> forall k :: 0 <= k < faces.Length ==> faces[k] == Matched) by {
        if Valid() {
          CompleteIffAllMatched(State());
          assert forall k :: 0 <= k < faces.Length ==> faces[k] == State().faces[k];
        }
      }
    }

    /** `resetGame`: clear the flipped cards, the pair count and the lock,
        reshuffle the deck and build a new board of hidden cards. */
    method ResetGame(choices: seq<nat>)
      requires Valid() && ValidChoices(choices, cards.Length)
      modifies this, cards
      ensures Valid() && cards == old(cards) && fresh(faces)
      ensures State() == Reset(old(State()), choices)
      ensures flippedCards == [] && matchedPairs == 0 && !isProcessing
      ensures forall k :: 0 <= k < faces.Length ==> faces[k] == Hidden
      ensures multiset(cards[..]) == DeckContents
    {
      ghost var before := State();
      ResetEstablishesInv(before, choices);
      flippedCards := [];
      matchedPairs := 0;
      isProcessing := false;
      ShuffleCards(choices);
      faces := new CardState[cards.Length](_ => Hidden);
      assert cards[..] == Reset(before, choices).cards;
      assert faces[..] == Reset(before, choices).faces;
      assert State() == Reset(before, choices);
    }
  }
}
