/**
 * Reversing correct answers after a turn: undoing one event (the card goes
 * back into the deck at its clamped original index), toggling an event's
 * highlight on the recap screen, and closing the recap, which returns every
 * un-highlighted card to the bottom of the deck and hands over to the other
 * team. Each reversal takes back one point, floored at zero.
 */
module Recap {
  import opened Wrappers
  import opened Models
  import opened Deck
  import opened Store
  import opened Flow
  import opened Turn

  /** The index of the first event with identifier `id`, if any. */
  function FindEvent(events: seq<CorrectEvent>, id: nat): (i: Option<nat>)
    ensures i.Some? ==> i.value < |events| && events[i.value].id == id
    ensures i.Some? ==> forall j :: 0 <= j < i.value ==> events[j].id != id
    ensures i.None? <==> forall j :: 0 <= j < |events| ==> events[j].id != id
  {
    if |events| == 0 then None
    else if events[0].id == id then Some(0)
    else match FindEvent(events[1..], id)
      case Some(k) => Some(k + 1)
      case None => None
  }

  /** `events` without the element at index `i`. */
  function RemoveAt(events: seq<CorrectEvent>, i: nat): (r: seq<CorrectEvent>)
    requires i < |events|
    ensures |r| == |events| - 1
    ensures forall j :: 0 <= j < i ==> r[j] == events[j]
    ensures forall j :: i <= j < |r| ==> r[j] == events[j + 1]
  {
    events[..i] + events[i + 1..]
  }

  /** Removing an event removes exactly its card from the turn's cards. */
  lemma RemoveAtCards(events: seq<CorrectEvent>, i: nat)
    requires i < |events|
    ensures multiset(EventCards(RemoveAt(events, i))) + multiset{events[i].card} == multiset(EventCards(events))
  {
    var before, after := events[..i], events[i + 1..];
    assert events == before + ([events[i]] + after);
    EventCardsAppend(before, after);
    EventCardsAppend([events[i]], after);
    EventCardsAppend(before, [events[i]] + after);
    var cb, ca := EventCards(before), EventCards(after);
    assert EventCards(RemoveAt(events, i)) == cb + ca;
    assert EventCards(events) == cb + ([events[i].card] + ca);
  }

  /** The highlight the recap shows for event `id`: its flag, or on when no such event exists. */
  function IsHighlighted(s: GameStore, id: nat): bool {
    match FindEvent(s.thisTurnCorrect, id)
    case Some(i) => s.thisTurnCorrect[i].highlighted
    case None => true
  }

  /** Sets the highlight of the first event with identifier `id`; an unknown identifier changes nothing. */
  function SetHighlight(s: GameStore, id: nat, on: bool): (r: GameStore)
    ensures FindEvent(s.thisTurnCorrect, id).None? ==> r == s
    ensures FindEvent(s.thisTurnCorrect, id).Some? ==> IsHighlighted(r, id) == on
    ensures |r.thisTurnCorrect| == |s.thisTurnCorrect|
    ensures forall j :: 0 <= j < |s.thisTurnCorrect| ==>
      r.thisTurnCorrect[j] == s.thisTurnCorrect[j].(highlighted := r.thisTurnCorrect[j].highlighted)
    ensures r == s.(thisTurnCorrect := r.thisTurnCorrect)
  {
    match FindEvent(s.thisTurnCorrect, id)
    case Some(i) =>
      var events := s.thisTurnCorrect[i := s.thisTurnCorrect[i].(highlighted := on)];
      assert FindEvent(events, id) == Some(i) by { FindEventFrame(s.thisTurnCorrect, events, id); }
      s.(thisTurnCorrect := events)
    case None => s
  }

  /** Two event lists with the same identifiers position by position find the same event. */
  lemma {:induction false} FindEventFrame(a: seq<CorrectEvent>, b: seq<CorrectEvent>, id: nat)
    requires |a| == |b| && forall j :: 0 <= j < |a| ==> a[j].id == b[j].id
    ensures FindEvent(a, id) == FindEvent(b, id)
  {
    if |a| > 0 {
      FindEventFrame(a[1..], b[1..], id);
    }
  }

  /** Toggling highlights never moves a card, so conservation is kept. */
  lemma SetHighlightKeepsCards(s: GameStore, id: nat, on: bool)
    ensures EventCards(SetHighlight(s, id, on).thisTurnCorrect) == EventCards(s.thisTurnCorrect)
    ensures Conserved(s) ==> Conserved(SetHighlight(s, id, on))
  {
    var r := SetHighlight(s, id, on);
    assert EventCards(r.thisTurnCorrect) == EventCards(s.thisTurnCorrect);
  }

  /** `max(0, x - k)`. */
  function FloorSub(x: int, k: nat): (r: int)
    ensures r >= 0 && r >= x - k
    ensures x >= k ==> r == x - k
    ensures x < k ==> r == 0
  {
    if x - k < 0 then 0 else x - k
  }

  /** Takes back one point from the acting team, floored at zero, but only when the round already has a score entry. */
  function TakeBackPoint(s: GameStore): (r: GameStore)
    ensures s.currentRound.RawValue() !in s.roundScores ==> r == s
    ensures s.currentRound.RawValue() in s.roundScores ==>
      && r.RoundPoints(s.currentRound, s.currentTeam) == FloorDecrement(s.RoundPoints(s.currentRound, s.currentTeam))
      && r.Cumulative(s.currentTeam) == FloorDecrement(s.Cumulative(s.currentTeam))
    ensures r.RoundPoints(s.currentRound, s.currentTeam.Other()) == s.RoundPoints(s.currentRound, s.currentTeam.Other())
    ensures r.Cumulative(s.currentTeam.Other()) == s.Cumulative(s.currentTeam.Other())
    ensures r.roundScores.Keys == s.roundScores.Keys
    ensures forall k :: k in s.roundScores && k != s.currentRound.RawValue() ==> r.roundScores[k] == s.roundScores[k]
    ensures ScoresNonNegative(s) ==> ScoresNonNegative(r)
    ensures r == s.(roundScores := r.roundScores, cumulativeA := r.cumulativeA, cumulativeB := r.cumulativeB)
  {
    var key := s.currentRound.RawValue();
    if key !in s.roundScores then s
    else
      var score := s.roundScores[key];
      if s.currentTeam == A then
        s.(roundScores := s.roundScores[key := score.(teamA := FloorDecrement(score.teamA))],
           cumulativeA := FloorDecrement(s.cumulativeA))
      else
        s.(roundScores := s.roundScores[key := score.(teamB := FloorDecrement(score.teamB))],
           cumulativeB := FloorDecrement(s.cumulativeB))
  }

  /** Reverses the score and the clue-giver's counters for one correct answer of `duration` seconds. */
  function Retract(s: GameStore, duration: nat): (r: GameStore)
    ensures r == TakeBackPoint(s).(playerStats := r.playerStats)
    ensures r.playerStats.Keys == s.playerStats.Keys
    ensures s.clueGiver.Some? && s.clueGiver.value.id in s.playerStats ==>
      r.playerStats[s.clueGiver.value.id] == RemoveCorrectAnswer(s.playerStats[s.clueGiver.value.id], duration)
    ensures forall id :: id in s.playerStats && (s.clueGiver.None? || id != s.clueGiver.value.id) ==>
      r.playerStats[id] == s.playerStats[id]
  {
    var taken := TakeBackPoint(s);
    taken.(playerStats := UpdateClueGiverStats(taken, p => RemoveCorrectAnswer(p, duration)))
  }

  lemma RetractKeepsNonNegative(s: GameStore, duration: nat)
    ensures ScoresNonNegative(s) ==> ScoresNonNegative(Retract(s, duration))
    ensures StatsNonNegative(s) ==> StatsNonNegative(Retract(s, duration))
  {
    var r := Retract(s, duration);
    if StatsNonNegative(s) {
      forall id | id in r.playerStats
        ensures r.playerStats[id].NonNegative()
      {
        assert s.playerStats[id].NonNegative();
      }
    }
  }

  /**
   * Undoes the correct answer with identifier `id`: an unknown identifier
   * changes nothing; otherwise the event is removed, its card is inserted
   * into the deck at its clamped original index, and one point and the
   * answer's counters are taken back.
   */
  function Undo(s: GameStore, id: nat): (r: GameStore)
    ensures FindEvent(s.thisTurnCorrect, id).None? ==> r == s
    ensures FindEvent(s.thisTurnCorrect, id).Some? ==>
      var i := FindEvent(s.thisTurnCorrect, id).value;
      var ev := s.thisTurnCorrect[i];
      r == Retract(s.(thisTurnCorrect := RemoveAt(s.thisTurnCorrect, i),
                      deck := InsertAt(s.deck, ev.card, ev.originalIndex)), ev.duration)
  {
    match FindEvent(s.thisTurnCorrect, id)
    case None => s
    case Some(i) =>
      var ev := s.thisTurnCorrect[i];
      Retract(s.(thisTurnCorrect := RemoveAt(s.thisTurnCorrect, i),
                 deck := InsertAt(s.deck, ev.card, ev.originalIndex)), ev.duration)
  }

  /**
   * Undo moves exactly the event's card from the events back into the deck,
   * keeps every invariant, and when the acting team's round entry exists
   * with at least one point in both the round and the cumulative score,
   * takes exactly one point back: the difference between the round score and
   * the number of pending events is unchanged.
   */
  lemma UndoEffects(s: GameStore, id: nat)
    requires FindEvent(s.thisTurnCorrect, id).Some?
    ensures var r := Undo(s, id);
      var i := FindEvent(s.thisTurnCorrect, id).value;
      && |r.thisTurnCorrect| == |s.thisTurnCorrect| - 1
      && |r.deck| == |s.deck| + 1
      && r.deck[ClampIndex(s.thisTurnCorrect[i].originalIndex, |s.deck|)] == s.thisTurnCorrect[i].card
      && multiset(r.deck) + multiset(EventCards(r.thisTurnCorrect))
         == multiset(s.deck) + multiset(EventCards(s.thisTurnCorrect))
      && (Conserved(s) ==> Conserved(r))
      && (ScoresNonNegative(s) ==> ScoresNonNegative(r))
      && (StatsNonNegative(s) ==> StatsNonNegative(r))
      && (TurnAccounting(s) ==> TurnAccounting(r))
      && (s.currentRound.RawValue() in s.roundScores
          && s.RoundPoints(s.currentRound, s.currentTeam) >= 1 && s.Cumulative(s.currentTeam) >= 1 ==>
            && r.RoundPoints(s.currentRound, s.currentTeam) - |r.thisTurnCorrect|
               == s.RoundPoints(s.currentRound, s.currentTeam) - |s.thisTurnCorrect|
            && r.Cumulative(s.currentTeam) == s.Cumulative(s.currentTeam) - 1)
  {
    var i := FindEvent(s.thisTurnCorrect, id).value;
    var ev := s.thisTurnCorrect[i];
    var moved := s.(thisTurnCorrect := RemoveAt(s.thisTurnCorrect, i),
                    deck := InsertAt(s.deck, ev.card, ev.originalIndex));
    RemoveAtCards(s.thisTurnCorrect, i);
    RetractKeepsNonNegative(moved, ev.duration);
    UndoKeepsTurnAccounting(s, id);
  }

  /** Undo moves one card from the events back to the deck, so the turn bookkeeping still adds up. */
  lemma UndoKeepsTurnAccounting(s: GameStore, id: nat)
    requires FindEvent(s.thisTurnCorrect, id).Some?
    ensures TurnAccounting(s) ==> TurnAccounting(Undo(s, id))
  {
    var r := Undo(s, id);
    var i := FindEvent(s.thisTurnCorrect, id).value;
    assert |r.thisTurnCorrect| == |s.thisTurnCorrect| - 1;
    assert |r.deck| == |s.deck| + 1;
    assert r.skipCount == s.skipCount && r.initialDeckSize == s.initialDeckSize && r.turnActive == s.turnActive;
  }

  /**
   * Undoing the answer just marked correct puts the card back on top of the
   * deck and restores the events, also when that answer cleared the deck and
   * ended the turn: marking correct and undoing are inverse on the cards.
   */
  lemma UndoReversesMarkCorrect(s: GameStore, eventId: nat, duration: nat)
    requires s.turnActive && |s.deck| > 0
    requires forall j :: 0 <= j < |s.thisTurnCorrect| ==> s.thisTurnCorrect[j].id != eventId
    ensures var r := Undo(MarkCorrect(s, eventId, duration), eventId);
      r.deck == s.deck && r.thisTurnCorrect == s.thisTurnCorrect
  {
    var m := MarkCorrect(s, eventId, duration);
    MarkCorrectEffects(s, eventId, duration);
    var n := |s.thisTurnCorrect|;
    assert m.thisTurnCorrect[n].id == eventId;
    assert FindEvent(m.thisTurnCorrect, eventId) == Some(n);
    assert RemoveAt(m.thisTurnCorrect, n) == s.thisTurnCorrect;
    PopThenReinsertAtFront(s.deck);
  }

  /** The events whose highlight was switched off, in event order. */
  function Unhighlighted(events: seq<CorrectEvent>): (r: seq<CorrectEvent>)
    ensures |r| <= |events|
    ensures forall j :: 0 <= j < |r| ==> !r[j].highlighted
  {
    if |events| == 0 then []
    else (if events[0].highlighted then [] else [events[0]]) + Unhighlighted(events[1..])
  }

  /** The events still highlighted, in event order. */
  function Highlighted(events: seq<CorrectEvent>): (r: seq<CorrectEvent>)
    ensures |r| <= |events|
    ensures forall j :: 0 <= j < |r| ==> r[j].highlighted
  {
    if |events| == 0 then []
    else (if events[0].highlighted then [events[0]] else []) + Highlighted(events[1..])
  }

  /** Every event is either highlighted or not. */
  lemma {:induction false} HighlightCount(events: seq<CorrectEvent>)
    ensures |Highlighted(events)| + |Unhighlighted(events)| == |events|
    ensures (forall j :: 0 <= j < |events| ==> events[j].highlighted) ==> Unhighlighted(events) == []
  {
    if |events| > 0 {
      HighlightCount(events[1..]);
    }
  }

  /** The two filters split the turn's cards. */
  lemma {:induction false} HighlightPartition(events: seq<CorrectEvent>)
    ensures multiset(EventCards(Highlighted(events))) + multiset(EventCards(Unhighlighted(events)))
            == multiset(EventCards(events))
  {
    if |events| > 0 {
      HighlightPartition(events[1..]);
      HighlightPartitionStep(events);
    }
  }

  /** One step of the partition: adding an event in front adds its card to exactly one side. */
  lemma HighlightPartitionStep(events: seq<CorrectEvent>)
    requires |events| > 0
    requires multiset(EventCards(Highlighted(events[1..]))) + multiset(EventCards(Unhighlighted(events[1..])))
             == multiset(EventCards(events[1..]))
    ensures multiset(EventCards(Highlighted(events))) + multiset(EventCards(Unhighlighted(events)))
            == multiset(EventCards(events))
  {
    var rest := events[1..];
    var c := multiset{events[0].card};
    assert multiset(EventCards(events)) == c + multiset(EventCards(rest)) by {
      assert EventCards(events) == [events[0].card] + EventCards(rest);
    }
    if events[0].highlighted {
      HighlightedCons(events);
    } else {
      UnhighlightedCons(events);
    }
  }

  /** The filters on an event list whose first event is highlighted. */
  lemma {:induction false} HighlightedCons(events: seq<CorrectEvent>)
    requires |events| > 0 && events[0].highlighted
    ensures multiset(EventCards(Highlighted(events)))
            == multiset{events[0].card} + multiset(EventCards(Highlighted(events[1..])))
    ensures Unhighlighted(events) == Unhighlighted(events[1..])
  {
    var tail := Highlighted(events[1..]);
    assert Highlighted(events) == [events[0]] + tail;
    EventCardsAppend([events[0]], tail);
    assert EventCards(Highlighted(events)) == [events[0].card] + EventCards(tail);
  }

  /** The filters on an event list whose first event is not highlighted. */
  lemma {:induction false} UnhighlightedCons(events: seq<CorrectEvent>)
    requires |events| > 0 && !events[0].highlighted
    ensures multiset(EventCards(Unhighlighted(events)))
            == multiset{events[0].card} + multiset(EventCards(Unhighlighted(events[1..])))
    ensures Highlighted(events) == Highlighted(events[1..])
  {
    var tail := Unhighlighted(events[1..]);
    assert Unhighlighted(events) == [events[0]] + tail;
    EventCardsAppend([events[0]], tail);
    assert EventCards(Unhighlighted(events)) == [events[0].card] + EventCards(tail);
  }

  /**
   * Returns each event's card to the bottom of the deck, in event order,
   * taking back one point and the answer's counters per event.
   */
  function ReturnAll(s: GameStore, events: seq<CorrectEvent>): (r: GameStore)
    decreases |events|
    ensures |events| == 0 ==> r == s
    ensures r.deck == s.deck + EventCards(events)
    ensures r == s.(deck := r.deck, roundScores := r.roundScores, cumulativeA := r.cumulativeA,
                    cumulativeB := r.cumulativeB, playerStats := r.playerStats)
    ensures s.currentRound.RawValue() in s.roundScores && |events| > 0 ==>
      && r.RoundPoints(s.currentRound, s.currentTeam) == FloorSub(s.RoundPoints(s.currentRound, s.currentTeam), |events|)
      && r.Cumulative(s.currentTeam) == FloorSub(s.Cumulative(s.currentTeam), |events|)
    ensures s.currentRound.RawValue() !in s.roundScores ==>
      r.roundScores == s.roundScores && r.cumulativeA == s.cumulativeA && r.cumulativeB == s.cumulativeB
    ensures r.RoundPoints(s.currentRound, s.currentTeam.Other()) == s.RoundPoints(s.currentRound, s.currentTeam.Other())
    ensures r.Cumulative(s.currentTeam.Other()) == s.Cumulative(s.currentTeam.Other())
    ensures r.roundScores.Keys == s.roundScores.Keys
  {
    if |events| == 0 then s
    else
      var first := events[0];
      assert EventCards(events) == [first.card] + EventCards(events[1..]);
      ReturnAll(Retract(s.(deck := s.deck + [first.card]), first.duration), events[1..])
  }

  lemma {:induction false} ReturnAllKeepsNonNegative(s: GameStore, events: seq<CorrectEvent>)
    decreases |events|
    ensures ScoresNonNegative(s) ==> ScoresNonNegative(ReturnAll(s, events))
    ensures StatsNonNegative(s) ==> StatsNonNegative(ReturnAll(s, events))
  {
    if |events| > 0 {
      var next := Retract(s.(deck := s.deck + [events[0].card]), events[0].duration);
      RetractKeepsNonNegative(s.(deck := s.deck + [events[0].card]), events[0].duration);
      ReturnAllKeepsNonNegative(next, events[1..]);
    }
  }

  /** The bonus is forfeited when some answer was switched off and the bonus holder is the clue-giver (both absent counts as equal). */
  predicate ForfeitsBonus(s: GameStore) {
    |Unhighlighted(s.thisTurnCorrect)| > 0 && IdOf(s.bonusTimePlayer) == IdOf(s.clueGiver)
  }

  /** The recap after its corrections, before handing over: un-highlighted cards returned, events cleared. */
  function SettleRecap(s: GameStore): (r: GameStore)
    ensures r.thisTurnCorrect == []
    ensures r.deck == s.deck + EventCards(Unhighlighted(s.thisTurnCorrect))
    ensures r.banked == s.banked + EventCards(Highlighted(s.thisTurnCorrect))
    ensures ForfeitsBonus(s) ==> r.bonusTimePlayer.None? && r.savedBonusTime == 0
    ensures !ForfeitsBonus(s) ==> r.bonusTimePlayer == s.bonusTimePlayer && r.savedBonusTime == s.savedBonusTime
    ensures r.currentTeam == s.currentTeam && r.currentRound == s.currentRound && r.allCards == s.allCards
    ensures r.stage == s.stage && r.clueGiver == s.clueGiver
  {
    var returned := ReturnAll(s, Unhighlighted(s.thisTurnCorrect));
    var cleared := if ForfeitsBonus(s) then returned.(savedBonusTime := 0, bonusTimePlayer := None) else returned;
    cleared.(thisTurnCorrect := [], banked := s.banked + EventCards(Highlighted(s.thisTurnCorrect)))
  }

  /**
   * Closes the recap: un-highlighted answers are reversed, highlighted ones
   * become final, the events are cleared; an empty deck then ends the round,
   * otherwise the other team gets the next turn (unless a bonus holder takes it).
   */
  function RecapDoneNextHandoff(s: GameStore): (r: GameStore)
    ensures r.thisTurnCorrect == []
    ensures r.deck == s.deck + EventCards(Unhighlighted(s.thisTurnCorrect))
    ensures |r.deck| == 0 ==> r == EndRoundIfNeeded(SettleRecap(s))
    ensures |r.deck| > 0 ==>
      r == SetNextClueGiverIfNeeded(SettleRecap(s).(currentTeam := s.currentTeam.Other())).(stage := TurnHandoff)
  {
    var settled := SettleRecap(s);
    if |settled.deck| == 0 then EndRoundIfNeeded(settled)
    else SetNextClueGiverIfNeeded(settled.(currentTeam := s.currentTeam.Other())).(stage := TurnHandoff)
  }

  /** Closing the recap keeps card conservation: highlighted cards are banked, the others are back in the deck. */
  lemma RecapDoneKeepsCards(s: GameStore)
    requires Conserved(s)
    ensures Conserved(RecapDoneNextHandoff(s))
  {
    HighlightPartition(s.thisTurnCorrect);
    var settled := SettleRecap(s);
    var h := multiset(EventCards(Highlighted(s.thisTurnCorrect)));
    var u := multiset(EventCards(Unhighlighted(s.thisTurnCorrect)));
    assert multiset(settled.deck) == multiset(s.deck) + u;
    assert multiset(settled.banked) == multiset(s.banked) + h;
    assert EventCards(settled.thisTurnCorrect) == [];
    assert Conserved(settled);
    var r := RecapDoneNextHandoff(s);
    assert r.deck == settled.deck && r.banked == settled.banked;
    assert r.thisTurnCorrect == settled.thisTurnCorrect && r.allCards == settled.allCards;
  }

  /** Handing over changes no score or statistic beyond the settled recap's. */
  lemma RecapDoneKeepsSettledScores(s: GameStore)
    ensures var r := RecapDoneNextHandoff(s);
      var settled := SettleRecap(s);
      && r.roundScores == settled.roundScores && r.cumulativeA == settled.cumulativeA
      && r.cumulativeB == settled.cumulativeB && r.playerStats == settled.playerStats
  {
  }

  /** Closing the recap keeps scores and statistics non-negative. */
  lemma RecapDoneKeepsNonNegative(s: GameStore)
    ensures ScoresNonNegative(s) ==> ScoresNonNegative(RecapDoneNextHandoff(s))
    ensures StatsNonNegative(s) ==> StatsNonNegative(RecapDoneNextHandoff(s))
  {
    ReturnAllKeepsNonNegative(s, Unhighlighted(s.thisTurnCorrect));
    RecapDoneKeepsSettledScores(s);
  }

  /**
   * Closing the recap ends the round exactly when the deck is empty (game
   * end in round three) and otherwise hands over to the other team when no
   * bonus holder remains.
   */
  lemma RecapDoneRouting(s: GameStore)
    ensures var r := RecapDoneNextHandoff(s);
      && (|r.deck| == 0 ==> r.stage == (if s.currentRound == Three then GameEnd else RoundEnd))
      && (|r.deck| > 0 ==> r.stage == TurnHandoff)
      && (|r.deck| > 0 && SettleRecap(s).bonusTimePlayer.None? ==> r.currentTeam == s.currentTeam.Other())
      && (ForfeitsBonus(s) ==> r.bonusTimePlayer.None? && r.savedBonusTime == 0)
  {
  }

  /** The score effect of finishing a turn, as the recap sees it. */
  lemma FinishTurnScores(s: GameStore, reason: TurnEndReason)
    ensures var f := FinishTurnToRecap(s, reason);
      && s.currentRound.RawValue() in f.roundScores
      && f.currentRound == s.currentRound && f.currentTeam == s.currentTeam
      && f.thisTurnCorrect == s.thisTurnCorrect
  {
    var _ := AddPoints(s, s.currentRound, s.currentTeam, |s.thisTurnCorrect|);
  }

  /**
   * Finishing a turn and closing its recap credits the acting team with
   * exactly the highlighted answers, in the round score and in the
   * cumulative score.
   */
  lemma RecapScoresHighlighted(s: GameStore, reason: TurnEndReason)
    requires ScoresNonNegative(s)
    ensures var r := RecapDoneNextHandoff(FinishTurnToRecap(s, reason));
      var t := s.currentTeam;
      && r.RoundPoints(s.currentRound, t) == s.RoundPoints(s.currentRound, t) + |Highlighted(s.thisTurnCorrect)|
      && r.Cumulative(t) == s.Cumulative(t) + |Highlighted(s.thisTurnCorrect)|
  {
    var f := FinishTurnToRecap(s, reason);
    var t := s.currentTeam;
    HighlightCount(s.thisTurnCorrect);
    FinishTurnScores(s, reason);
    assert s.RoundPoints(s.currentRound, t) >= 0 && s.Cumulative(t) >= 0;
    var returned := ReturnAll(f, Unhighlighted(s.thisTurnCorrect));
    assert returned.RoundPoints(s.currentRound, t) == s.RoundPoints(s.currentRound, t) + |Highlighted(s.thisTurnCorrect)|;
    assert returned.Cumulative(t) == s.Cumulative(t) + |Highlighted(s.thisTurnCorrect)|;
    RecapDoneKeepsSettledScores(f);
  }
}
