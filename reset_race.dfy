/** `resetGame` does not cancel the timeout that `checkMatch` scheduled. A
    reset pressed while a pair is being resolved lets the old timeout body run
    on the new round: the card elements it captured are no longer on the board,
    so the board is untouched, but it still updates the game's own fields.
    This module models that timeout body as written and shows what it breaks;
    the rest of the model uses the intended behaviour, where a reset cancels
    the pending resolution (`Rules.ResetEstablishesInv`). */
module ResetRace {
  import opened Deck
  import opened Rules

  /** The match timeout body run after a reset: `matchedPairs++`, the flipped
      cards cleared and the lock released; the `matched` classes go to detached
      elements, so no card of the current board changes. */
  function StaleMatchTimeout(g: Game): (r: Game)
    ensures r.cards == g.cards && r.faces == g.faces
    ensures r.matchedPairs == g.matchedPairs + 1 && !Pending(r)
  {
    g.(matchedPairs := g.matchedPairs + 1, flipped := [], isProcessing := false)
  }

  /** The mismatch timeout body run after a reset: the flipped cards cleared and
      the lock released; the `flipped` classes are removed from detached
      elements, so no card of the current board changes. */
  function StaleMismatchTimeout(g: Game): (r: Game)
    ensures r.cards == g.cards && r.faces == g.faces && r.matchedPairs == g.matchedPairs
    ensures r.flipped == [] && !Pending(r)
  {
    g.(flipped := [], isProcessing := false)
  }

  /** Reset while a match is being resolved: once the old timeout fires, the
      new round counts one pair although no card of its board is matched. */
  lemma StaleMatchCountsPhantomPair(g: Game, choices: seq<nat>)
    requires Inv(g) && Pending(g) && IsMatch(g) && ValidChoices(choices, DeckSize)
    ensures Inv(Reset(g, choices))
    ensures var h := StaleMatchTimeout(Reset(g, choices));
      && h.matchedPairs == 1
      && (forall k :: 0 <= k < DeckSize ==> h.faces[k] == Hidden)
      && !Inv(h)
  {
    ResetEstablishesInv(g, choices);
    CountNone(Reset(g, choices).faces, Matched);
  }

  /** Card `k` is face up but not among the flipped cards: no click can flip
      it, and until the next reset no resolution turns it back. */
  predicate Stranded(g: Game, k: nat)
  {
    k < |g.faces| && g.faces[k] == Flipped && k !in g.flipped
  }

  /** Reset while a mismatch is being resolved, then flip card `k` of the new
      board before the old timeout fires: the card is left stranded, and the
      game no longer satisfies the invariant. */
  lemma StaleMismatchStrandsCard(g: Game, choices: seq<nat>, k: nat)
    requires Inv(g) && Pending(g) && !IsMatch(g) && ValidChoices(choices, DeckSize)
    requires k < DeckSize
    ensures var h := StaleMismatchTimeout(Flip(Reset(g, choices), k));
      && Stranded(h, k)
      && Flip(h, k) == h
      && !Inv(h)
  {
  }

  /** A click on any card leaves a stranded card stranded. */
  lemma FlipKeepsStranded(g: Game, k: nat, m: nat)
    requires Stranded(g, k) && m < |g.faces|
    ensures Stranded(Flip(g, m), k)
  {
  }

  /** A resolution leaves a stranded card stranded. */
  lemma ResolveKeepsStranded(g: Game, k: nat)
    requires Stranded(g, k) && Pending(g)
    ensures Stranded(Resolve(g), k)
  {
  }
}
