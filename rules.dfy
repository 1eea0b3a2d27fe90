/** The rules of the memory game as a state machine over values: the state of
    one `MemoryGame` object, the transition each of its operations makes, and
    the invariant that every transition keeps. `Game.MemoryGame` implements
    these transitions on arrays and is proved against them. */
module Rules {
  import opened Deck

  /** What a card shows. `Flipped` is a card carrying the `flipped` class only;
      `Matched` is a card that was given the `matched` class, which keeps its
      `flipped` class as well. */
  datatype CardState = Hidden | Flipped | Matched

  /** The message a resolution shows, if any. */
  datatype Notice = Silent | TryAgain | AllPairsFound

  /** The fields of a `MemoryGame` that the rules depend on. `faces[k]` is the
      state of the card element for `cards[k]`; `flipped` holds the indices of
      the cards in `flippedCards`, in the order they were flipped. */
  datatype Game = Game(
    cards: seq<Symbol>,
    faces: seq<CardState>,
    flipped: seq<nat>,
    matchedPairs: nat,
    isProcessing: bool)

  /** The number of pairs whose completion shows the congratulation message. */
  const Pairs: nat := 4

  /** The number of cards of `faces` in state `st`. */
  function Count(faces: seq<CardState>, st: CardState): (n: nat)
    ensures n <= |faces|
  {
    if faces == [] then 0
    else (if faces[0] == st then 1 else 0) + Count(faces[1..], st)
  }

  /** A freshly built board: one hidden card element per card. */
  function AllHidden(n: nat): (r: seq<CardState>)
    ensures |r| == n && forall k :: 0 <= k < n ==> r[k] == Hidden
  {
    seq(n, _ => Hidden)
  }

  /** The game as the constructor leaves it: the initial deck shuffled with
      `choices`, every card hidden, nothing flipped, no pair found, unlocked.
      Whatever the draws, its deck has the contents of the initial deck. */
  function NewGame(choices: seq<nat>): (r: Game)
    requires ValidChoices(choices, DeckSize)
    ensures multiset(r.cards) == DeckContents
    ensures |r.faces| == DeckSize && forall k :: 0 <= k < DeckSize ==> r.faces[k] == Hidden
    ensures !Pending(r)
  {
    InitialDeckContents();
    Game(Shuffle(InitialDeck, choices), AllHidden(DeckSize), [], 0, false)
  }

  /** The guard of `flipCard`: a click is ignored while a pair is being
      resolved, on a card that is flipped or matched, and when two cards are
      already flipped. */
  predicate FlipRejected(g: Game, k: nat)
    requires k < |g.faces|
  {
    g.isProcessing || g.faces[k] == Flipped || g.faces[k] == Matched || |g.flipped| >= 2
  }

  /** A click on card `k`: unless rejected, the card is flipped and appended to
      the flipped cards; the second flipped card starts the match check, which
      takes the lock. */
  function Flip(g: Game, k: nat): (r: Game)
    requires k < |g.faces|
    ensures r.cards == g.cards && r.matchedPairs == g.matchedPairs && |r.faces| == |g.faces|
    ensures forall j :: 0 <= j < |g.faces| && j != k ==> r.faces[j] == g.faces[j]
    ensures r.faces[k] != Hidden || r == g
  {
    if FlipRejected(g, k) then g
    else
      var flipped := g.flipped + [k];
      Game(g.cards, g.faces[k := Flipped], flipped, g.matchedPairs,
           if |flipped| == 2 then true else g.isProcessing)
  }

  /** A resolution is scheduled: the lock is held and two cards are flipped. */
  predicate Pending(g: Game)
  {
    && g.isProcessing && |g.flipped| == 2
    && |g.faces| == |g.cards|
    && g.flipped[0] < |g.cards| && g.flipped[1] < |g.cards|
  }

  /** The two flipped cards show the same symbol. */
  predicate IsMatch(g: Game)
    requires Pending(g)
  {
    g.cards[g.flipped[0]] == g.cards[g.flipped[1]]
  }

  /** The deferred step of `checkMatch`: on a match both cards become matched
      and one more pair is counted, otherwise both are hidden again; either way
      the flipped cards are cleared and the lock released. */
  function Resolve(g: Game): (r: Game)
    requires Pending(g)
    ensures r.cards == g.cards && |r.faces| == |g.faces| && !Pending(r)
    ensures forall k :: 0 <= k < |g.faces| && k !in g.flipped ==> r.faces[k] == g.faces[k]
    ensures r.matchedPairs == g.matchedPairs + (if IsMatch(g) then 1 else 0)
  {
    var a, b := g.flipped[0], g.flipped[1];
    if IsMatch(g) then
      Game(g.cards, g.faces[a := Matched][b := Matched], [], g.matchedPairs + 1, false)
    else
      Game(g.cards, g.faces[a := Hidden][b := Hidden], [], g.matchedPairs, false)
  }

  /** The message the resolution shows: "try again" on a mismatch, the
      congratulation when `checkGameComplete` sees the last pair, else none. */
  function ResolveNotice(g: Game): (n: Notice)
    requires Pending(g)
    ensures n == TryAgain <==> !IsMatch(g)
    ensures n == AllPairsFound <==> IsMatch(g) && g.matchedPairs + 1 == Pairs
  {
    if !IsMatch(g) then TryAgain
    else if g.matchedPairs + 1 == Pairs then AllPairsFound
    else Silent
  }

  /** `resetGame`: nothing flipped, no pair, unlocked, the current deck
      reshuffled and a new board of hidden cards. */
  function Reset(g: Game, choices: seq<nat>): (r: Game)
    requires ValidChoices(choices, |g.cards|)
    ensures multiset(r.cards) == multiset(g.cards) && |r.faces| == |r.cards|
    ensures forall k :: 0 <= k < |r.faces| ==> r.faces[k] == Hidden
    ensures r.matchedPairs == 0 && !Pending(r)
  {
    Game(Shuffle(g.cards, choices), AllHidden(|g.cards|), [], 0, false)
  }

  /** The invariant of a game: the deck is a permutation of the initial deck;
      at most two cards are flipped, they are distinct and they are exactly the
      cards showing `Flipped`; the lock is held exactly while two are flipped;
      and `matchedPairs` is half the number of matched cards. */
  ghost predicate Inv(g: Game)
  {
    && |g.cards| == DeckSize && |g.faces| == DeckSize
    && multiset(g.cards) == DeckContents
    && |g.flipped| <= 2
    && (forall n :: 0 <= n < |g.flipped| ==> g.flipped[n] < DeckSize && g.faces[g.flipped[n]] == Flipped)
    && (forall k :: 0 <= k < DeckSize && g.faces[k] == Flipped ==> k in g.flipped)
    && (|g.flipped| == 2 ==> g.flipped[0] != g.flipped[1])
    && (g.isProcessing <==> |g.flipped| == 2)
    && 2 * g.matchedPairs == Count(g.faces, Matched)
  }

  // ---------------------------------------------------------------------------
  // Counting cards

  /** Changing one card changes each count by at most the card that left and
      the card that came. */
  lemma {:induction false} CountUpdate(s: seq<CardState>, k: nat, v: CardState, st: CardState)
    requires k < |s|
    ensures Count(s[k := v], st)
         == Count(s, st) - (if s[k] == st then 1 else 0) + (if v == st then 1 else 0)
  {
    if k == 0 {
      assert s[k := v][1..] == s[1..];
    } else {
      assert s[k := v][1..] == s[1..][k - 1 := v];
      CountUpdate(s[1..], k - 1, v, st);
    }
  }

  /** Every card is in state `st` exactly when all of them are counted. */
  lemma {:induction false} CountAll(s: seq<CardState>, st: CardState)
    ensures Count(s, st) == |s| <==> forall k :: 0 <= k < |s| ==> s[k] == st
  {
    if s != [] {
      CountAll(s[1..], st);
      if Count(s, st) == |s| {
        forall k | 0 <= k < |s| ensures s[k] == st {
          if k > 0 { assert s[k] == s[1..][k - 1]; }
        }
      } else if s[0] == st {
        var k :| 0 <= k < |s[1..]| && s[1..][k] != st;
        assert s[k + 1] != st;
      }
    }
  }

  /** No card is in state `st` exactly when the count is zero. */
  lemma {:induction false} CountNone(s: seq<CardState>, st: CardState)
    ensures Count(s, st) == 0 <==> forall k :: 0 <= k < |s| ==> s[k] != st
  {
    if s != [] {
      CountNone(s[1..], st);
      if Count(s, st) == 0 {
        forall k | 0 <= k < |s| ensures s[k] != st {
          if k > 0 { assert s[k] == s[1..][k - 1]; }
        }
      } else if s[0] != st {
        var k :| 0 <= k < |s[1..]| && s[1..][k] == st;
        assert s[k + 1] == st;
      }
    }
  }

  // ---------------------------------------------------------------------------
  // The invariant holds initially and is kept by every transition

  /** A new game satisfies the invariant and holds a deck of pairs. */
  lemma NewGameInv(choices: seq<nat>)
    requires ValidChoices(choices, DeckSize)
    ensures Inv(NewGame(choices))
    ensures IsPairDeck(NewGame(choices).cards)
  {
    InitialDeckContents();
    PairDeckIff(NewGame(choices).cards);
    CountNone(AllHidden(DeckSize), Matched);
  }

  /** A click keeps the invariant; in particular no third card is ever
      flipped and the two flipped cards stay distinct. */
  lemma FlipPreservesInv(g: Game, k: nat)
    requires Inv(g) && k < DeckSize
    ensures Inv(Flip(g, k))
  {
    if !FlipRejected(g, k) {
      CountUpdate(g.faces, k, Flipped, Matched);
      var r := Flip(g, k);
      forall n | 0 <= n < |r.flipped|
        ensures r.flipped[n] < DeckSize && r.faces[r.flipped[n]] == Flipped
      {
        if n < |g.flipped| {
          assert r.flipped[n] == g.flipped[n];
          assert g.faces[g.flipped[n]] == Flipped;
        }
      }
    }
  }

  /** Turning the two flipped cards into `st` leaves no card flipped when they
      were the only flipped ones. */
  lemma NoneFlippedAfter(faces: seq<CardState>, a: nat, b: nat, st: CardState, r: seq<CardState>)
    requires a < |faces| && b < |faces| && st != Flipped && r == faces[a := st][b := st]
    requires forall k :: 0 <= k < |faces| && faces[k] == Flipped ==> k == a || k == b
    ensures forall k :: 0 <= k < |r| ==> r[k] != Flipped
  {
  }

  /** Turning two distinct flipped cards into `st` adds two to the count of
      `st` when `st` is `Matched` and leaves it alone when `st` is `Hidden`. */
  lemma MatchedCountAfter(faces: seq<CardState>, a: nat, b: nat, st: CardState)
    requires a < |faces| && b < |faces| && a != b
    requires faces[a] == Flipped && faces[b] == Flipped && st != Flipped
    ensures Count(faces[a := st][b := st], Matched)
         == Count(faces, Matched) + (if st == Matched then 2 else 0)
  {
    CountUpdate(faces, a, st, Matched);
    CountUpdate(faces[a := st], b, st, Matched);
  }

  /** While two cards are flipped, no other card shows `Flipped`. */
  lemma FlippedAreTheTwo(g: Game)
    requires Inv(g) && |g.flipped| == 2
    ensures forall k :: 0 <= k < |g.faces| && g.faces[k] == Flipped ==> k == g.flipped[0] || k == g.flipped[1]
  {
    forall k | 0 <= k < |g.faces| && g.faces[k] == Flipped
      ensures k == g.flipped[0] || k == g.flipped[1]
    {
      assert k in g.flipped;
    }
  }

  /** While the lock is held a resolution is due; running it keeps the invariant. */
  lemma ResolvePreservesInv(g: Game)
    requires Inv(g) && g.isProcessing
    ensures Pending(g)
    ensures Inv(Resolve(g))
  {
    var a, b := g.flipped[0], g.flipped[1];
    assert g.faces[a] == Flipped && g.faces[b] == Flipped;
    var st := if IsMatch(g) then Matched else Hidden;
    MatchedCountAfter(g.faces, a, b, st);
    FlippedAreTheTwo(g);
    NoneFlippedAfter(g.faces, a, b, st, Resolve(g).faces);
  }

  /** What a resolution changes: the two flipped cards and nothing else on the
      board; the pair count grows by one exactly on a match; the flipped cards
      are cleared and the lock released; the congratulation is shown exactly
      when the count reaches four. */
  lemma ResolveEffect(g: Game)
    requires Inv(g) && g.isProcessing
    ensures Pending(g)
    ensures var r := Resolve(g);
      && r.cards == g.cards && |r.faces| == |g.faces|
      && r.flipped == [] && !r.isProcessing
      && r.matchedPairs == g.matchedPairs + (if IsMatch(g) then 1 else 0)
      && (forall k :: 0 <= k < |g.faces| && k !in g.flipped ==> r.faces[k] == g.faces[k])
      && (IsMatch(g) ==> r.faces[g.flipped[0]] == Matched && r.faces[g.flipped[1]] == Matched)
      && (!IsMatch(g) ==> r.faces[g.flipped[0]] == Hidden && r.faces[g.flipped[1]] == Hidden)
      && (ResolveNotice(g) == AllPairsFound <==> r.matchedPairs == Pairs)
  {
    CompletionNoticeIff(g);
  }

  /** A reset keeps the invariant and leaves nothing to resolve: no card is
      flipped or matched, no pair is counted, the lock is free, and the deck is
      still a permutation of the initial deck. */
  lemma ResetEstablishesInv(g: Game, choices: seq<nat>)
    requires Inv(g) && ValidChoices(choices, DeckSize)
    ensures Inv(Reset(g, choices))
    ensures !Pending(Reset(g, choices))
    ensures multiset(Reset(g, choices).cards) == DeckContents
    ensures forall k :: 0 <= k < DeckSize ==> Reset(g, choices).faces[k] == Hidden
  {
    CountNone(AllHidden(DeckSize), Matched);
  }

  // ---------------------------------------------------------------------------
  // What a click does

  /** A click changes nothing exactly when it is rejected. */
  lemma FlipNoOpIff(g: Game, k: nat)
    requires k < |g.faces|
    ensures Flip(g, k) == g <==> FlipRejected(g, k)
  {
  }

  /** An accepted click takes the lock exactly when it flips the second card;
      the first card leaves the lock free. */
  lemma FlipLocksOnSecondCard(g: Game, k: nat)
    requires Inv(g) && k < DeckSize && !FlipRejected(g, k)
    ensures Flip(g, k).isProcessing <==> |g.flipped| == 1
    ensures Flip(g, k).isProcessing ==> Pending(Flip(g, k))
  {
  }

  // ---------------------------------------------------------------------------
  // What a resolution does

  /** Flipping two hidden cards with different symbols and resolving them
      gives back the game as it was before the two clicks. */
  lemma MismatchRestores(g: Game, a: nat, b: nat)
    requires Inv(g) && g.flipped == [] && a < DeckSize && b < DeckSize && a != b
    requires g.faces[a] == Hidden && g.faces[b] == Hidden && g.cards[a] != g.cards[b]
    ensures Pending(Flip(Flip(g, a), b))
    ensures Resolve(Flip(Flip(g, a), b)) == g
    ensures ResolveNotice(Flip(Flip(g, a), b)) == TryAgain
  {
  }

  /** Flipping two hidden cards with the same symbol and resolving them
      matches exactly those two cards and counts exactly one more pair. */
  lemma MatchCountsOnePair(g: Game, a: nat, b: nat)
    requires Inv(g) && g.flipped == [] && a < DeckSize && b < DeckSize && a != b
    requires g.faces[a] == Hidden && g.faces[b] == Hidden && g.cards[a] == g.cards[b]
    ensures Pending(Flip(Flip(g, a), b))
    ensures var r := Resolve(Flip(Flip(g, a), b));
      && r.matchedPairs == g.matchedPairs + 1
      && r.faces == g.faces[a := Matched][b := Matched]
      && r.cards == g.cards && r.flipped == [] && !r.isProcessing
  {
  }

  /** Under the invariant `matchedPairs` never exceeds the four pairs of the
      deck, and it reaches four exactly when every card is matched. */
  lemma CompleteIffAllMatched(g: Game)
    requires Inv(g)
    ensures g.matchedPairs <= Pairs
    ensures g.matchedPairs == Pairs <==> forall k :: 0 <= k < DeckSize ==> g.faces[k] == Matched
  {
    CountAll(g.faces, Matched);
  }

  /** The congratulation is shown by a resolution exactly when it leaves
      `matchedPairs == 4`, that is when it matches the last cards. */
  lemma CompletionNoticeIff(g: Game)
    requires Inv(g) && g.isProcessing
    ensures Pending(g)
    ensures ResolveNotice(g) == AllPairsFound <==> Resolve(g).matchedPairs == Pairs
    ensures ResolveNotice(g) == AllPairsFound
        <==> forall k :: 0 <= k < DeckSize ==> Resolve(g).faces[k] == Matched
  {
    ResolvePreservesInv(g);
    CompleteIffAllMatched(g);
    CompleteIffAllMatched(Resolve(g));
    assert g.faces[g.flipped[0]] == Flipped;
  }

  /** Once all pairs are found every click is ignored and nothing is pending,
      so the congratulation cannot be shown a second time. */
  lemma CompletedGameIsFrozen(g: Game, k: nat)
    requires Inv(g) && g.matchedPairs == Pairs && k < DeckSize
    ensures Flip(g, k) == g
    ensures !Pending(g)
  {
    CompleteIffAllMatched(g);
  }
}
