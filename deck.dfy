/** The deck of the memory game and the Fisher–Yates shuffle that reorders it.
    The deck is four symbols, each present twice; the shuffle is specified on
    sequences here and run in place on an array by `Game.MemoryGame.ShuffleCards`. */
module Deck {

  /** A card face: one hiragana character. */
  type Symbol = char

  const DeckSize: nat := 8

  /** The deck in the order the game object is created with. */
  const InitialDeck: seq<Symbol> := "ああおおぬぬめめ"

  /** The contents of the deck regardless of order: four symbols, each twice. */
  const DeckContents: multiset<Symbol> := multiset{'あ', 'あ', 'お', 'お', 'ぬ', 'ぬ', 'め', 'め'}

  /** The four symbols of the deck. */
  const Symbols: set<Symbol> := {'あ', 'お', 'ぬ', 'め'}

  /** A deck of `DeckSize` cards made of the four symbols, each exactly twice. */
  ghost predicate IsPairDeck(s: seq<Symbol>)
  {
    && |s| == DeckSize
    && (forall x :: x in Symbols ==> multiset(s)[x] == 2)
    && (forall x :: x in multiset(s) ==> x in Symbols)
  }

  /** The random draws of one shuffle of `n` cards: `choices[i]` is the index
      `j` drawn in `[0, i]` when the loop is at position `i`. Position 0 is
      never visited by the loop, so `choices[0]` is necessarily 0 and unused. */
  predicate ValidChoices(choices: seq<nat>, n: nat)
  {
    |choices| == n && forall i :: 0 <= i < n ==> choices[i] <= i
  }

  /** Exchanges the cards at positions `i` and `j` (a no-op when `i == j`). */
  function Swap(s: seq<Symbol>, i: nat, j: nat): (r: seq<Symbol>)
    requires i < |s| && j < |s|
    ensures |r| == |s| && r[i] == s[j] && r[j] == s[i]
    ensures forall k :: 0 <= k < |s| && k != i && k != j ==> r[k] == s[k]
  {
    s[i := s[j]][j := s[i]]
  }

  /** The deck after the loop has run its iterations for positions `i`,
      `i - 1`, ..., 1 (in that order) on `s`. */
  function ShuffleFrom(s: seq<Symbol>, choices: seq<nat>, i: int): (r: seq<Symbol>)
    requires ValidChoices(choices, |s|) && i < |s|
    ensures |r| == |s|
    decreases i
  {
    if i <= 0 then s
    else ShuffleFrom(Swap(s, i, choices[i]), choices, i - 1)
  }

  /** The whole shuffle: positions from the last one down to 1. It only
      permutes the deck, whatever the draws. */
  function Shuffle(s: seq<Symbol>, choices: seq<nat>): (r: seq<Symbol>)
    requires ValidChoices(choices, |s|)
    ensures |r| == |s| && multiset(r) == multiset(s)
  {
    ShuffleFromPermutes(s, choices, |s| - 1);
    ShuffleFrom(s, choices, |s| - 1)
  }

  /** A swap only moves cards around. */
  lemma SwapPermutes(s: seq<Symbol>, i: nat, j: nat)
    requires i < |s| && j < |s|
    ensures multiset(Swap(s, i, j)) == multiset(s)
  {
  }

  /** Every partial run of the loop only permutes the deck, for every choice
      of the random draws. */
  lemma {:induction false} ShuffleFromPermutes(s: seq<Symbol>, choices: seq<nat>, i: int)
    requires ValidChoices(choices, |s|) && i < |s|
    ensures multiset(ShuffleFrom(s, choices, i)) == multiset(s)
    decreases i
  {
    if i > 0 {
      SwapPermutes(s, i, choices[i]);
      ShuffleFromPermutes(Swap(s, i, choices[i]), choices, i - 1);
    }
  }

  /** Positions above `i` are final: the iterations still to run never touch them. */
  lemma {:induction false} ShuffleFromKeepsSuffix(s: seq<Symbol>, choices: seq<nat>, i: int, k: nat)
    requires ValidChoices(choices, |s|) && i < k < |s|
    ensures ShuffleFrom(s, choices, i)[k] == s[k]
    decreases i
  {
    if i > 0 {
      ShuffleFromKeepsSuffix(Swap(s, i, choices[i]), choices, i - 1, k);
    }
  }

  /** No symbol occurs twice in `s`. */
  ghost predicate Distinct(s: seq<Symbol>)
  {
    forall p, q :: 0 <= p < q < |s| ==> s[p] != s[q]
  }

  /** A swap keeps a sequence free of repeats. */
  lemma SwapKeepsDistinct(s: seq<Symbol>, i: nat, j: nat)
    requires i < |s| && j < |s| && Distinct(s)
    ensures Distinct(Swap(s, i, j))
  {
  }

  /** Different draws give different orders: on cards that are all told
      apart, two runs of the loop from position `i` whose draws differ at some
      position in `[1, i]` end in different decks. Together with
      `ShuffleFromPermutes` this says that each draw sequence produces its own
      permutation, the basis of the shuffle being unbiased. */
  lemma {:induction false} ShuffleFromInjective(s: seq<Symbol>, c1: seq<nat>, c2: seq<nat>, i: int)
    requires Distinct(s) && ValidChoices(c1, |s|) && ValidChoices(c2, |s|) && i < |s|
    requires exists p :: 0 < p <= i && c1[p] != c2[p]
    ensures ShuffleFrom(s, c1, i) != ShuffleFrom(s, c2, i)
    decreases i
  {
    if c1[i] != c2[i] {
      ShuffleFromKeepsSuffix(Swap(s, i, c1[i]), c1, i - 1, i);
      ShuffleFromKeepsSuffix(Swap(s, i, c2[i]), c2, i - 1, i);
      assert s[c1[i]] != s[c2[i]] by {
        if c1[i] < c2[i] { } else { }
      }
      assert ShuffleFrom(s, c1, i)[i] != ShuffleFrom(s, c2, i)[i];
    } else {
      SwapKeepsDistinct(s, i, c1[i]);
      ShuffleFromInjective(Swap(s, i, c1[i]), c1, c2, i - 1);
    }
  }

  /** Two different valid draw sequences shuffle cards that are all told apart
      into two different orders. */
  lemma ShuffleInjective(s: seq<Symbol>, c1: seq<nat>, c2: seq<nat>)
    requires Distinct(s) && ValidChoices(c1, |s|) && ValidChoices(c2, |s|) && c1 != c2
    ensures Shuffle(s, c1) != Shuffle(s, c2)
  {
    var p :| 0 <= p < |s| && c1[p] != c2[p];
    assert 0 < p;
    ShuffleFromInjective(s, c1, c2, |s| - 1);
  }

  /** The deck the game starts from has the contents of the deck. */
  lemma InitialDeckContents()
    ensures multiset(InitialDeck) == DeckContents
  {
  }

  /** A deck of eight cards holds each of the four symbols twice exactly when
      it has the contents of the initial deck. */
  lemma PairDeckIff(s: seq<Symbol>)
    requires |s| == DeckSize
    ensures IsPairDeck(s) <==> multiset(s) == DeckContents
  {
  }

  /** Shuffling a deck of pairs gives a deck of pairs, whatever the draws. */
  lemma ShuffleKeepsPairDeck(s: seq<Symbol>, choices: seq<nat>)
    requires IsPairDeck(s) && ValidChoices(choices, |s|)
    ensures IsPairDeck(Shuffle(s, choices))
  {
  }
}
