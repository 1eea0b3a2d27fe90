# Memory game: a verified model

A model, in Dafny, of the `MemoryGame` class of a browser "concentration"
game. The deck has eight cards: four hiragana symbols, each twice. The player
turns two cards face up. If they show the same symbol they stay up as a
matched pair. If not, they are turned back down. The game ends when all four
pairs are found.

The model has four modules:

- `Deck` (`deck.dfy`): the deck and the Fisher–Yates shuffle of
  `shuffleCards`, specified on sequences. Each random index `j` is an explicit
  argument. `choices[i]` is the index drawn in `[0, i]` when the loop is at
  position `i`, so every proof holds for every sequence of draws.
- `Rules` (`rules.dfy`): the game's state as a value (`Game`) and what each
  operation does to it: `Flip` for `flipCard`, `Resolve` and `ResolveNotice`
  for the two timeout bodies of `checkMatch`, and `Reset` for `resetGame`.
  It also holds the invariant `Inv` and the lemmas that every transition keeps
  it.
- `Game` (`game.dfy`): the class `MemoryGame`, with the source's fields
  `cards`, `flippedCards`, `matchedPairs` and `isProcessing`. The card
  elements of the board are an array `faces` of card states indexed like
  `cards`. Each method changes the fields in place and is proved to make the
  transition `Rules` gives for it. `ShuffleCards` swaps the array elements in
  place in a descending loop, like the source.
- `ResetRace` (`reset_race.dfy`): the timeout bodies as written, running
  after a reset (see Findings).

Each card is `Hidden`, `Flipped` or `Matched`. A matched card keeps its
`flipped` class, so `Matched` stands for an element with both classes. The
click guard rejects a card that has either class. The delayed resolution in
`setTimeout` becomes an explicit step, `MemoryGame.Resolve`. It needs the lock
to be held, and the lock is held exactly while two cards are flipped. It runs
the match body (`MatchTimeout`) or the mismatch body (`MismatchTimeout`), the
same choice `checkMatch` makes. The messages `showMessage` would display are
the `Notice` that `Resolve` returns.

The invariant `Rules.Inv` says:

- the deck is a permutation of the initial deck;
- at most two cards are flipped;
- the flipped cards are distinct, and they are exactly the cards showing
  `Flipped`;
- the lock is held exactly while two cards are flipped;
- `matchedPairs` is half the number of matched cards, so it is at most 4.

## Model

| member | source | states |
|---|---|---|
| `Deck.Swap` | script.js:26 | the destructuring swap exchanges positions `i` and `j` and leaves every other card in place |
| `Deck.ShuffleFrom` | script.js:24-27 | running the loop from position `i` down to 1 keeps the number of cards |
| `Deck.SwapPermutes` | script.js:26 | one swap keeps the multiset of cards |
| `Deck.ShuffleFromPermutes` | script.js:24-27 | every partial run of the loop keeps the multiset of cards, for every draw in `[0, i]` |
| `Deck.ShuffleFromKeepsSuffix` | script.js:24-26 | once the loop is below a position, that position is never changed again |
| `Deck.Shuffle` | script.js:23-28 | the whole `shuffleCards` loop, from the last position down to 1. It keeps the length and the multiset of the deck, whatever the draws |
| `Deck.ShuffleFromInjective` | script.js:24-26 | on cards that are all told apart, draws that differ at some position from 1 to `i` give different decks |
| `Deck.ShuffleInjective` | script.js:23-28 | two different draw sequences shuffle distinct cards into different orders, so each order comes from one draw sequence only |
| `Deck.InitialDeckContents` | script.js:3 | the initial deck holds あ, お, ぬ and め twice each |
| `Deck.PairDeckIff` | script.js:3 | an eight-card deck holds each of the four symbols exactly twice if and only if it has the initial deck's contents |
| `Deck.ShuffleKeepsPairDeck` | script.js:23-28 | shuffling a deck of pairs gives a deck of pairs: each symbol still appears exactly twice |
| `Rules.NewGame` | script.js:2-18 | the state the constructor leaves: the initial deck shuffled with the draws, so it has the initial deck's contents; every card hidden; nothing flipped, no pair, lock free, nothing pending |
| `Rules.Flip` | script.js:42-57 | `flipCard`: a rejected click returns the game unchanged. Otherwise card `k` becomes flipped and is appended to the flipped list, and the second flipped card takes the lock. The deck, the pair count and every other card stay as they were |
| `Rules.Resolve` | script.js:63-84 | the two timeout bodies: on equal symbols both flipped cards become matched and the count grows by one, otherwise both are hidden again. The flipped list is emptied and the lock released. The deck and every other card stay as they were |
| `Rules.ResolveNotice` | script.js:68-70 | the message of the resolution: "try again" exactly on a mismatch (script.js:83), the congratulation exactly when a match brings the count to 4, otherwise none |
| `Rules.Reset` | script.js:110-120 | `resetGame`: the current deck reshuffled, keeping its multiset; a new board of hidden cards; no pair counted, nothing flipped, lock free, nothing pending |
| `Rules.NewGameInv` | script.js:2-18 | the game the constructor builds satisfies the invariant, and its deck holds each symbol twice |
| `Rules.FlipNoOpIff` | script.js:43-48 | a click changes nothing if and only if the lock is held, the card is flipped or matched, or two cards are already flipped |
| `Rules.FlipPreservesInv` | script.js:42-57 | a click keeps the invariant: never more than two flipped cards, and never the same card twice |
| `Rules.FlipLocksOnSecondCard` | script.js:54-60 | an accepted click takes the lock exactly when it flips the second card, and a resolution is then due |
| `Rules.ResolvePreservesInv` | script.js:59-85 | while the lock is held a resolution is due, and running it keeps the invariant |
| `Rules.ResolveEffect` | script.js:63-84 | a resolution changes only the two flipped cards: both matched on a match, both hidden on a mismatch. The pair count grows by one exactly on a match. The flipped list is emptied and the lock released |
| `Rules.MismatchRestores` | script.js:74-84 | flipping two hidden cards with different symbols and resolving them restores the exact game from before the two clicks, with a "try again" notice |
| `Rules.MatchCountsOnePair` | script.js:63-73 | flipping two hidden cards with the same symbol and resolving them matches exactly those two cards and counts exactly one more pair |
| `Rules.CompleteIffAllMatched` | script.js:88-92 | `matchedPairs` never exceeds 4, and it equals 4 if and only if every card is matched |
| `Rules.CompletionNoticeIff` | script.js:68-70 | a resolution shows the congratulation if and only if it brings `matchedPairs` to 4, that is, if and only if it leaves every card matched |
| `Rules.CompletedGameIsFrozen` | script.js:42-48 | once all pairs are found every click is ignored and no resolution is pending, so the congratulation cannot appear twice |
| `Rules.ResetEstablishesInv` | script.js:110-120 | a reset gives a valid game: nothing flipped, no pair counted, lock free, every card hidden, the deck still a permutation of the initial deck, and no resolution pending |
| `Game.MemoryGame.constructor` | script.js:2-18 | the new object is the initial deck shuffled with the given draws, on a board of hidden cards, and satisfies the invariant |
| `Game.MemoryGame.ShuffleCards` | script.js:23-28 | the in-place loop leaves the array equal to the Fisher–Yates function of its old contents and keeps its multiset |
| `Game.MemoryGame.FlipCard` | script.js:42-57 | the object makes the `Flip` transition and keeps the invariant. A rejected click changes nothing. At most two cards are flipped, and the lock is taken on the second card |
| `Game.MemoryGame.CheckMatch` | script.js:59-60 | the match check takes the lock |
| `Game.MemoryGame.Resolve` | script.js:59-85 | the deferred step makes the `Resolve` transition and returns its notice. On a match one more pair is counted. No card other than the two flipped ones changes. The flipped list is emptied, the lock released, and the congratulation shown if and only if `matchedPairs` becomes 4 |
| `Game.MemoryGame.MatchTimeout` | script.js:65-73 | the match body makes the `Resolve` transition, and its `checkGameComplete` reports completion if and only if `matchedPairs` is 4 |
| `Game.MemoryGame.MismatchTimeout` | script.js:76-84 | the mismatch body makes the `Resolve` transition: both cards hidden again, flipped list emptied, lock released |
| `Game.MemoryGame.CheckGameComplete` | script.js:88-92 | completion is reported if and only if `matchedPairs` is 4, which on a valid game means every card is matched |
| `Game.MemoryGame.ResetGame` | script.js:110-120 | nothing flipped, no pair, lock free, a new board of hidden cards, and the same deck array reshuffled, still a permutation of the initial deck |
| `ResetRace.StaleMatchCountsPhantomPair` | script.js:65-73 | a match timeout that fires after a reset makes the new round count one pair while none of its cards is matched |
| `ResetRace.StaleMatchTimeout` | script.js:65-73 | the match timeout body run after a reset: no card of the new board changes, but the pair count still grows by one, and the flipped list and the lock are cleared |
| `ResetRace.StaleMismatchTimeout` | script.js:76-84 | the mismatch timeout body run after a reset: no card of the new board changes and the pair count stays, but the flipped list and the lock are cleared |
| `ResetRace.StaleMismatchStrandsCard` | script.js:76-84 | a mismatch timeout that fires after a reset and a click on a new card leaves that card stranded: face up, not in the flipped list, a click on it ignored, and the invariant broken |
| `ResetRace.FlipKeepsStranded` | script.js:42-57 | a click on any card, including the stranded one, leaves a stranded card stranded |
| `ResetRace.ResolveKeepsStranded` | script.js:63-84 | a later resolution leaves a stranded card stranded, so only a reset turns it back |

## Findings

| source | as written | input that shows it | evidently intended | confidence | as-written member | corrected member |
|---|---|---|---|---|---|---|
| script.js:110-120 | `resetGame` clears `flippedCards`, `matchedPairs` and `isProcessing` but does not cancel the timeout `checkMatch` scheduled (script.js:65, 76). That timeout later runs on the new round | flip a matching pair, then press reset within 500 ms: once the timeout fires, the fresh board shows one pair found and no matched card, so three real pairs later the congratulation appears with a pair still hidden | a reset cancels the pending resolution, so a timeout only affects the round that scheduled it | high (not executed) | `ResetRace.StaleMatchCountsPhantomPair` | `Rules.ResetEstablishesInv` |

In the model, `MemoryGame.ResetGame` releases the lock, and `MemoryGame.Resolve`
needs the lock of the current round. So a resolution from before a reset cannot
run, and every reachable state satisfies `Inv`. The as-written timeout
bodies are `ResetRace.StaleMatchTimeout` and `ResetRace.StaleMismatchTimeout`.
`ResetRace.StaleMismatchStrandsCard` shows the mismatch variant: a card
flipped on the new board before the old timeout fires stays face up. By
`FlipKeepsStranded` and `ResolveKeepsStranded`, later clicks and resolutions
never turn it back; only the next reset does.

## Left out

- Building and updating the page (`createBoard`, `updateDisplay`, `textContent` and `className` writes, the click and reset listeners, the `DOMContentLoaded` start-up, script.js:8-11, 19, 30-40, 94-96, 123-126): presentation only. The new board that `createBoard` builds is the fresh `faces` array of hidden cards.
- `showMessage` and its two-second clearing timer (script.js:98-108): presentation and wall-clock timing. The model keeps which message a resolution shows, as a `Notice`.
- `Math.random` (script.js:25): each draw is an argument `choices[i]` in `[0, i]`. The model does not state the probability distribution, only that each draw sequence gives its own permutation.
- The 500 ms and 1000 ms `setTimeout` delays (script.js:65, 76): the deferred callback is the explicit step `MemoryGame.Resolve`. `checkMatch` compares the two cards before scheduling, while the model compares them when `Resolve` runs. The cards cannot change in between, so the outcome is the same.
- Cancelling a pending timeout on reset is not in the source (see Findings). The class follows the intended behaviour, and the as-written timeouts are modelled only on values, in `ResetRace`.
- Scoring, combos, the countdown timer, difficulty levels and the ball-and-paddle mode are not part of `script.js`, and this model does not include them.
