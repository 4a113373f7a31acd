/**
 * The working deck of a round and the four ways the store moves cards:
 * popping the head, rotating the head to the tail (skip and timeout),
 * inserting at a clamped index (undo) and appending at the tail (recap).
 */
module Deck {
  import opened Models

  /** The cards of a turn's correct events, in event order. */
  function EventCards(events: seq<CorrectEvent>): (cards: seq<Card>)
    ensures |cards| == |events|
    ensures forall i :: 0 <= i < |events| ==> cards[i] == events[i].card
  {
    if |events| == 0 then [] else [events[0].card] + EventCards(events[1..])
  }

  lemma EventCardsAppend(a: seq<CorrectEvent>, b: seq<CorrectEvent>)
    ensures EventCards(a + b) == EventCards(a) + EventCards(b)
  {
  }

  /** Moves the head card to the tail; an empty deck is left alone. */
  function RotateHeadToTail(deck: seq<Card>): (r: seq<Card>)
    ensures |r| == |deck|
  {
    if |deck| == 0 then deck else deck[1..] + [deck[0]]
  }

  /** Rotation keeps the same cards, puts the old head last and keeps the others' order. */
  lemma RotationKeepsCards(deck: seq<Card>)
    ensures multiset(RotateHeadToTail(deck)) == multiset(deck)
    ensures |deck| > 0 ==> var r := RotateHeadToTail(deck);
      r[|r| - 1] == deck[0] && r[..|r| - 1] == deck[1..]
  {
    if |deck| > 0 {
      assert deck == [deck[0]] + deck[1..];
    }
  }

  /** `k` successive rotations. */
  function RotateTimes(deck: seq<Card>, k: nat): seq<Card> {
    if k == 0 then deck else RotateHeadToTail(RotateTimes(deck, k - 1))
  }

  /** Rotating `k <= |deck|` times brings the first `k` cards, in order, behind the rest. */
  lemma {:induction false} RotateTimesIsRotation(deck: seq<Card>, k: nat)
    requires k <= |deck|
    ensures RotateTimes(deck, k) == deck[k..] + deck[..k]
  {
    if k > 0 {
      RotateTimesIsRotation(deck, k - 1);
      var prev := deck[k - 1..] + deck[..k - 1];
      assert prev[1..] == deck[k..] + deck[..k - 1];
      assert deck[..k] == deck[..k - 1] + [deck[k - 1]];
    }
  }

  /** Skipping every card of the deck once returns the deck to its starting order. */
  lemma FullCycleRestoresDeck(deck: seq<Card>)
    ensures RotateTimes(deck, |deck|) == deck
  {
    RotateTimesIsRotation(deck, |deck|);
  }

  /** `min(index, count)` floored at zero, as the source clamps a reinsertion index. */
  function ClampIndex(index: int, count: nat): (p: nat)
    ensures p <= count
    ensures 0 <= index <= count ==> p == index
    ensures index > count ==> p == count
    ensures index < 0 ==> p == 0
  {
    if index < 0 then 0 else if index > count then count else index
  }

  /** Inserts `card` so that it sits at index `ClampIndex(index, |deck|)`. */
  function InsertAt(deck: seq<Card>, card: Card, index: int): (r: seq<Card>)
    ensures |r| == |deck| + 1
    ensures multiset(r) == multiset(deck) + multiset{card}
    ensures var p := ClampIndex(index, |deck|);
      r[p] == card && r[..p] == deck[..p] && r[p + 1..] == deck[p..]
  {
    var p := ClampIndex(index, |deck|);
    assert deck == deck[..p] + deck[p..];
    deck[..p] + [card] + deck[p..]
  }

  /** Popping the head and reinserting it at index 0 restores the deck. */
  lemma PopThenReinsertAtFront(deck: seq<Card>)
    requires |deck| > 0
    ensures InsertAt(deck[1..], deck[0], 0) == deck
  {
  }
}
