/** Decks of cards: shuffling, dealing, and dealing again when a deck is used up. */
module Deck {
  import opened Bytes

  datatype Card = Card(icon: int, number: int, joker: int, mark: int)

  type Cards = seq<Card>

  /** numberToCard: 52 cards in four suits, then the jokers. */
  function NumberToCard(a: nat): Card {
    if a <= 51 then Card(a / 13, a % 13, 0, 0) else Card(-1, -1, a - 51, 0)
  }

  /** Thirteen cards to a suit; the jokers count from 1. */
  lemma CardAt(suit: nat, rank: nat, joker: nat)
    requires suit < 4 && rank < 13
    ensures NumberToCard(13 * suit + rank) == Card(suit, rank, 0, 0)
    ensures NumberToCard(52 + joker) == Card(-1, -1, joker + 1, 0)
  {}

  predicate NoRepeat(s: Cards) {
    forall i, j :: 0 <= i < j < |s| ==> s[i] != s[j]
  }

  /** card::num. */
  function Num(c: Card): int {
    if c.joker == 0 then c.icon * 13 + c.number else 52 + c.joker
  }

  /** num takes a card back to its number, but a joker to one more. */
  lemma NumOfNumber(a: nat)
    ensures Num(NumberToCard(a)) == if a <= 51 then a else a + 1
  {}

  lemma NumberToCardInjective(a: nat, b: nat)
    ensures NumberToCard(a) == NumberToCard(b) ==> a == b
  {}

  function Without(s: Cards, r: nat): Cards
    requires r < |s|
  {
    s[..r] + s[r + 1..]
  }

  /** One random number for each card: below the number of cards that are left. */
  predicate Choices(choices: seq<nat>, n: nat) {
    |choices| == n && forall i :: 0 <= i < n ==> choices[i] < n - i
  }

  /** The cards in the order the choices take them. */
  function Shuffled(s: Cards, choices: seq<nat>): Cards
    requires Choices(choices, |s|)
  {
    if s == [] then [] else [s[choices[0]]] + Shuffled(Without(s, choices[0]), choices[1..])
  }

  lemma WithoutMultiset(s: Cards, r: nat)
    requires r < |s|
    ensures multiset(s) == multiset{s[r]} + multiset(Without(s, r))
  {
    assert s == s[..r] + [s[r]] + s[r + 1..];
  }

  lemma {:induction false} ShuffledPermutes(s: Cards, choices: seq<nat>)
    requires Choices(choices, |s|)
    ensures |Shuffled(s, choices)| == |s| && multiset(Shuffled(s, choices)) == multiset(s)
    decreases |s|
  {
    if s != [] {
      ShuffledPermutes(Without(s, choices[0]), choices[1..]);
      WithoutMultiset(s, choices[0]);
    }
  }

  /** Every order is the outcome of some choices. */
  lemma {:induction false} EveryOrder(s: Cards, t: Cards) returns (choices: seq<nat>)
    requires multiset(s) == multiset(t)
    ensures Choices(choices, |s|) && Shuffled(s, choices) == t
    decreases |s|
  {
    SameLength(s, t);
    if s == [] {
      choices := [];
    } else {
      var r := Position(s, t);
      Removed(s, r, t);
      var rest := EveryOrder(Without(s, r), t[1..]);
      choices := [r] + rest;
      FirstChoice(s, r, rest);
      assert t == [t[0]] + t[1..];
    }
  }

  lemma SameLength(s: Cards, t: Cards)
    requires multiset(s) == multiset(t)
    ensures |s| == |t|
  {
    assert |multiset(s)| == |s| && |multiset(t)| == |t|;
  }

  lemma Position(s: Cards, t: Cards) returns (r: nat)
    requires multiset(s) == multiset(t) && t != []
    ensures r < |s| && s[r] == t[0]
  {
    assert t[0] in multiset(t);
    r :| 0 <= r < |s| && s[r] == t[0];
  }

  lemma Removed(s: Cards, r: nat, t: Cards)
    requires multiset(s) == multiset(t) && t != [] && r < |s| && s[r] == t[0]
    ensures multiset(Without(s, r)) == multiset(t[1..])
  {
    WithoutMultiset(s, r);
    WithoutMultiset(t, 0);
    assert Without(t, 0) == t[1..];
    assert multiset(Without(s, r)) == multiset(s) - multiset{s[r]};
    assert multiset(Without(t, 0)) == multiset(t) - multiset{t[0]};
  }

  lemma FirstChoice(s: Cards, r: nat, rest: seq<nat>)
    requires r < |s| && Choices(rest, |s| - 1)
    ensures Choices([r] + rest, |s|) && Shuffled(s, [r] + rest) == [s[r]] + Shuffled(Without(s, r), rest)
  {
    assert ([r] + rest)[1..] == rest;
  }

  lemma TopAndRest(s: Cards, choices: seq<nat>)
    requires s != [] && Choices(choices, |s|)
    ensures Choices(choices[1..], |Without(s, choices[0])|) && Shuffled(s, choices) != []
    ensures Shuffled(s, choices)[0] == s[choices[0]]
    ensures Shuffled(s, choices)[1..] == Shuffled(Without(s, choices[0]), choices[1..])
  {}

  lemma WithoutNoRepeat(s: Cards, r: nat)
    requires NoRepeat(s) && r < |s|
    ensures NoRepeat(Without(s, r))
  {
    var t := Without(s, r);
    forall i, j | 0 <= i < j < |t| ensures t[i] != t[j] {
      assert t[i] == s[if i < r then i else i + 1] && t[j] == s[if j < r then j else j + 1];
    }
  }

  /** Of some choices only, when no card is there twice: no order is favoured. */
  lemma {:induction false} OneOrder(s: Cards, c: seq<nat>, d: seq<nat>)
    requires NoRepeat(s) && Choices(c, |s|) && Choices(d, |s|) && Shuffled(s, c) == Shuffled(s, d)
    ensures c == d
    decreases |s|
  {
    if s != [] {
      hide Shuffled;
      TopAndRest(s, c);
      TopAndRest(s, d);
      WithoutNoRepeat(s, c[0]);
      OneOrder(Without(s, c[0]), c[1..], d[1..]);
      assert c == [c[0]] + c[1..] && d == [d[0]] + d[1..];
    }
  }

  lemma ShuffledStep(s: Cards, choices: seq<nat>, r: Cards)
    requires s != [] && Choices(choices, |s|)
    ensures |Without(s, choices[0])| == |s| - 1 && Choices(choices[1..], |s| - 1)
    ensures r + Shuffled(s, choices) == r + [s[choices[0]]] + Shuffled(Without(s, choices[0]), choices[1..])
  {}

  lemma NothingLeft(s: Cards, choices: seq<nat>, r: Cards)
    requires s == [] && Choices(choices, |s|)
    ensures r + Shuffled(s, choices) == r
  {}

  /** A pile of cards that is shuffled and drawn from in place.  `block` is the deck it was last
      restored to, or started from; `drawn` are the cards drawn from it since. */
  class Pile {
    var cards: Cards
    ghost var block: Cards
    ghost var drawn: Cards

    constructor (deck: Cards)
      ensures cards == deck && block == deck && drawn == [] && Valid()
    {
      cards, block, drawn := deck, deck, [];
    }

    /** No card of the block is lost, and none is there twice. */
    ghost predicate Valid()
      reads this
    {
      multiset(cards) + multiset(drawn) == multiset(block)
    }

    /** ShuffleDeck. */
    method Shuffle(choices: seq<nat>)
      requires Valid() && Choices(choices, |cards|)
      modifies `cards
      ensures Valid() && cards == Shuffled(old(cards), choices)
    {
      ShuffledPermutes(cards, choices);
      hide Shuffled, Without;
      var r: Cards := [];
      var size := |cards|;
      ghost var before, left := cards, choices;
      var i := 0;
      while i < size
        invariant i <= size && |cards| == size - i && left == choices[i..] && Choices(left, |cards|)
        invariant r + Shuffled(cards, left) == Shuffled(before, choices)
      {
        ShuffledStep(cards, left, r);
        r := r + [cards[choices[i]]];
        cards := Without(cards, choices[i]);
        left := left[1..];
        i := i + 1;
      }
      NothingLeft(cards, left, r);
      cards := r;
    }

    /** cardPick: draws the last card, from `restore` if there is none; nothing if that is empty too,
        where the source has undefined behaviour. */
    method Pick(restore: Cards) returns (c: Option<Card>)
      requires Valid()
      modifies this
      ensures Valid()
      ensures c.None? <==> old(cards) == [] && restore == []
      ensures old(cards) != [] ==> block == old(block)
      ensures old(cards) == [] ==> block == restore
      ensures c.Some? ==> drawn == (if old(cards) == [] then [] else old(drawn)) + [c.value]
      ensures c.Some? ==> cards + [c.value] == if old(cards) == [] then restore else old(cards)
      ensures c.Some? && NoRepeat(block) ==> NoRepeat(drawn) && c.value !in drawn[..|drawn| - 1] && c.value !in cards
    {
      if cards == [] {
        cards, block, drawn := restore, restore, [];
      }
      if cards == [] {
        return None;
      }
      var last := cards[|cards| - 1];
      assert cards == cards[..|cards| - 1] + [last];
      cards := cards[..|cards| - 1];
      drawn := drawn + [last];
      if NoRepeat(block) {
        NewCard(cards, last, drawn[..|drawn| - 1], block);
      }
      return Some(last);
    }
  }

  /** The first cards by number. */
  predicate InOrder(r: Cards) {
    forall a: nat :: a < |r| ==> r[a] == NumberToCard(a)
  }

  /** ClassicDeck: the cards by number, without jokers or with both, shuffled on request. */
  method ClassicDeck(shuffled: bool, joker: bool, choices: seq<nat>) returns (r: Cards)
    requires Choices(choices, if joker then 54 else 52)
    ensures |r| == (if joker then 54 else 52) && NoRepeat(r)
    ensures forall a: nat :: a < |r| ==> NumberToCard(a) in r
    ensures !shuffled ==> InOrder(r)
  {
    hide NumberToCard, NoRepeat;
    r := [];
    var n := if joker then 54 else 52;
    var i := 0;
    while i < n
      invariant i <= n && |r| == i && InOrder(r)
    {
      r := r + [NumberToCard(i)];
      i := i + 1;
    }
    InOrderCards(r);
    if shuffled {
      var pile := new Pile(r);
      pile.Shuffle(choices);
      ShuffledPermutes(r, choices);
      SameCards(r, pile.cards);
      r := pile.cards;
    }
  }

  lemma InOrderCards(r: Cards)
    requires InOrder(r) && |r| <= 54
    ensures NoRepeat(r) && forall a: nat :: a < |r| ==> NumberToCard(a) in r
  {
    hide NumberToCard;
    forall i, j | 0 <= i < j < |r| ensures r[i] != r[j] {
      NumberToCardInjective(i, j);
    }
  }

  lemma NewCard(cards: Cards, last: Card, drawn: Cards, block: Cards)
    requires multiset(cards) + multiset(drawn + [last]) == multiset(block) && NoRepeat(block)
    ensures NoRepeat(drawn + [last]) && last !in drawn && last !in cards
  {
    RepeatFreeParts(drawn + [last], cards, block);
    RepeatFreeParts(cards + [last], drawn, block);
    assert (drawn + [last])[|drawn|] == last && (cards + [last])[|cards|] == last;
    forall i | 0 <= i < |drawn| ensures drawn[i] != last {
      assert (drawn + [last])[i] == drawn[i];
    }
    forall i | 0 <= i < |cards| ensures cards[i] != last {
      assert (cards + [last])[i] == cards[i];
    }
  }

  lemma SameCards(a: Cards, b: Cards)
    requires multiset(a) == multiset(b) && NoRepeat(a)
    ensures |a| == |b| && NoRepeat(b) && forall x :: x in a ==> x in b
  {
    assert |multiset(a)| == |a| && |multiset(b)| == |b|;
    RepeatFreeParts(b, [], a);
    forall x | x in a ensures x in b {
      assert x in multiset(a);
    }
  }

  /** What can happen to a pile. */
  datatype Step = Shuffle(choices: seq<nat>) | Draw(restore: Cards)

  /** A pile with the history of its block, as Pile keeps it. */
  datatype Table = Table(cards: Cards, block: Cards, drawn: Cards)

  predicate Allowed(t: Table, step: Step) {
    match step
    case Shuffle(choices) => Choices(choices, |t.cards|)
    case Draw(restore) => t.cards != [] || restore != []
  }

  function After(t: Table, step: Step): Table
    requires Allowed(t, step)
  {
    match step
    case Shuffle(choices) => t.(cards := Shuffled(t.cards, choices))
    case Draw(restore) =>
      var u := if t.cards == [] then Table(restore, restore, []) else t;
      var n := |u.cards| - 1;
      Table(u.cards[..n], u.block, u.drawn + [u.cards[n]])
  }

  predicate Possible(t: Table, steps: seq<Step>)
    decreases |steps|
  {
    steps == [] || (Allowed(t, steps[0]) && Possible(After(t, steps[0]), steps[1..]))
  }

  function Run(t: Table, steps: seq<Step>): Table
    requires Possible(t, steps)
    decreases |steps|
  {
    if steps == [] then t else Run(After(t, steps[0]), steps[1..])
  }

  predicate Conserved(t: Table) {
    multiset(t.cards) + multiset(t.drawn) == multiset(t.block)
  }

  /** Every deck that a run restores, and the one it starts from, has no card twice. */
  predicate CleanDecks(t: Table, steps: seq<Step>) {
    NoRepeat(t.block) && forall i :: 0 <= i < |steps| && steps[i].Draw? ==> NoRepeat(steps[i].restore)
  }

  lemma StepConserves(t: Table, step: Step)
    requires Conserved(t) && Allowed(t, step)
    ensures Conserved(After(t, step))
    ensures step.Shuffle? ==> After(t, step).block == t.block && After(t, step).drawn == t.drawn
  {
    match step
    case Shuffle(choices) => ShuffledPermutes(t.cards, choices);
    case Draw(restore) =>
      var cards := if t.cards == [] then restore else t.cards;
      assert cards == cards[..|cards| - 1] + [cards[|cards| - 1]];
  }

  /** Conservation over runs: whatever is shuffled and drawn, and however the choices fall, the cards of
      the pile and those drawn since the last restore are the restored deck. */
  lemma {:induction false} RunConserves(t: Table, steps: seq<Step>)
    requires Conserved(t) && Possible(t, steps)
    ensures Conserved(Run(t, steps))
    decreases |steps|
  {
    if steps != [] {
      StepConserves(t, steps[0]);
      RunConserves(After(t, steps[0]), steps[1..]);
    }
  }

  /** The deck of a run's last block is the one it started from or one it restored. */
  lemma {:induction false} RunBlock(t: Table, steps: seq<Step>)
    requires Possible(t, steps) && CleanDecks(t, steps)
    ensures NoRepeat(Run(t, steps).block)
    decreases |steps|
  {
    if steps != [] {
      RunBlock(After(t, steps[0]), steps[1..]);
    }
  }

  /** Where no deck holds a card twice, no card is drawn twice in a block, or is still in the pile. */
  lemma RunNoRepeat(t: Table, steps: seq<Step>)
    requires Conserved(t) && Possible(t, steps) && CleanDecks(t, steps)
    ensures NoRepeat(Run(t, steps).drawn + Run(t, steps).cards)
  {
    hide Run, After;
    RunConserves(t, steps);
    RunBlock(t, steps);
    var u := Run(t, steps);
    RepeatFreeParts(u.drawn + u.cards, [], u.block);
  }

  lemma RepeatFreeParts(a: Cards, b: Cards, c: Cards)
    requires multiset(a) + multiset(b) == multiset(c) && NoRepeat(c)
    ensures NoRepeat(a)
  {
    forall i, j | 0 <= i < j < |a| ensures a[i] != a[j] {
      if a[i] == a[j] {
        Twice(a, i, j);
        assert multiset(c)[a[i]] >= 2;
        Once(c, a[i]);
      }
    }
  }

  lemma Twice(s: Cards, i: nat, j: nat)
    requires i < j < |s| && s[i] == s[j]
    ensures multiset(s)[s[i]] >= 2
  {
    assert s == s[..i] + [s[i]] + s[i + 1..j] + [s[j]] + s[j + 1..];
  }

  lemma {:induction false} Once(s: Cards, x: Card)
    requires NoRepeat(s)
    ensures multiset(s)[x] <= 1
    decreases |s|
  {
    if s != [] {
      Once(s[1..], x);
      assert s == [s[0]] + s[1..];
      if x == s[0] {
        assert x !in s[1..];
        assert x !in multiset(s[1..]);
      }
    }
  }
}
