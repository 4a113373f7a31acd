/**
 * The running turn: starting it (with bonus-time consumption), the
 * per-second tick, pause and resume, marking a card correct, skipping a
 * card, the turn-end check that follows both, and finishing the turn into
 * the recap with its score.
 *
 * The wall-clock timer and card-shown timestamps are replaced by an explicit
 * `Tick` event and a caller-supplied `duration` per correct answer; the
 * fresh event identifier is supplied by the caller too.
 */
module Turn {
  import opened Wrappers
  import opened Models
  import opened Deck
  import opened Store
  import opened Flow

  /** Adds `n` points for team `t` to round `round` and to the cumulative score. */
  function AddPoints(s: GameStore, round: RoundPhase, t: Team, n: nat): (r: GameStore)
    ensures r.Cumulative(t) == s.Cumulative(t) + n && r.Cumulative(t.Other()) == s.Cumulative(t.Other())
    ensures r.RoundPoints(round, t) == s.RoundPoints(round, t) + n
    ensures r.RoundPoints(round, t.Other()) == s.RoundPoints(round, t.Other())
    ensures round.RawValue() in r.roundScores
    ensures forall k :: k in s.roundScores && k != round.RawValue() ==> k in r.roundScores && r.roundScores[k] == s.roundScores[k]
    ensures r.roundScores.Keys == s.roundScores.Keys + {round.RawValue()}
    ensures ScoresNonNegative(s) ==> ScoresNonNegative(r)
    ensures r == s.(roundScores := r.roundScores, cumulativeA := r.cumulativeA, cumulativeB := r.cumulativeB)
  {
    var key := round.RawValue();
    var score := if key in s.roundScores then s.roundScores[key] else ZeroScore;
    if t == A then
      s.(roundScores := s.roundScores[key := score.(teamA := score.teamA + n)], cumulativeA := s.cumulativeA + n)
    else
      s.(roundScores := s.roundScores[key := score.(teamB := score.teamB + n)], cumulativeB := s.cumulativeB + n)
  }

  /** Adding points raises the round's total (both teams together) by exactly that many. */
  lemma AddPointsRaisesTotal(s: GameStore, round: RoundPhase, t: Team, n: nat)
    ensures var r := AddPoints(s, round, t, n);
      var before := if round.RawValue() in s.roundScores then s.roundScores[round.RawValue()] else ZeroScore;
      r.roundScores[round.RawValue()].Total() == before.Total() + n
  {
    var key := round.RawValue();
    var r := AddPoints(s, round, t, n);
    var before := if key in s.roundScores then s.roundScores[key] else ZeroScore;
    assert r.RoundPoints(round, t) == r.roundScores[key].ForTeam(t);
    assert r.RoundPoints(round, t.Other()) == r.roundScores[key].ForTeam(t.Other());
    assert s.RoundPoints(round, t) == before.ForTeam(t);
    assert s.RoundPoints(round, t.Other()) == before.ForTeam(t.Other());
  }

  /**
   * Ends the turn: a timeout sends the card the clue-giver was stuck on to
   * the tail; the acting team gains one point per correct event in both the
   * round and the cumulative score, and one more turn taken. A skip-cycle end
   * goes straight to the recap; every other end shows the turn-complete screen.
   */
  function FinishTurnToRecap(s: GameStore, reason: TurnEndReason): (r: GameStore)
    ensures r.stage == (if reason == SkipCycleComplete then Recap else TurnComplete)
    ensures reason == TimerExpired ==> r.deck == RotateHeadToTail(s.deck)
    ensures reason != TimerExpired ==> r.deck == s.deck
    ensures var t := s.currentTeam;
      && r.Cumulative(t) == s.Cumulative(t) + |s.thisTurnCorrect|
      && r.Cumulative(t.Other()) == s.Cumulative(t.Other())
      && r.RoundPoints(s.currentRound, t) == s.RoundPoints(s.currentRound, t) + |s.thisTurnCorrect|
      && r.RoundPoints(s.currentRound, t.Other()) == s.RoundPoints(s.currentRound, t.Other())
      && r.TurnsTaken(t) == s.TurnsTaken(t) + 1
      && r.TurnsTaken(t.Other()) == s.TurnsTaken(t.Other())
    ensures r == s.(deck := r.deck, turnActive := false, roundScores := r.roundScores,
                    cumulativeA := r.cumulativeA, cumulativeB := r.cumulativeB,
                    teamATurns := r.teamATurns, teamBTurns := r.teamBTurns,
                    lastTurnEndReason := reason, stage := r.stage)
    ensures var added := AddPoints(s, s.currentRound, s.currentTeam, |s.thisTurnCorrect|);
      r.roundScores == added.roundScores && r.cumulativeA == added.cumulativeA && r.cumulativeB == added.cumulativeB
  {
    var deck := if reason == TimerExpired && |s.deck| > 0 then RotateHeadToTail(s.deck) else s.deck;
    var scored := AddPoints(s, s.currentRound, s.currentTeam, |s.thisTurnCorrect|).(deck := deck, turnActive := false);
    var counted := if s.currentTeam == A then scored.(teamATurns := s.teamATurns + 1)
                   else scored.(teamBTurns := s.teamBTurns + 1);
    counted.(lastTurnEndReason := reason, stage := if reason == SkipCycleComplete then Recap else TurnComplete)
  }

  /** Finishing a turn keeps the cards and the turn bookkeeping. */
  lemma FinishTurnKeepsCards(s: GameStore, reason: TurnEndReason)
    ensures var r := FinishTurnToRecap(s, reason);
      && multiset(r.deck) == multiset(s.deck) && |r.deck| == |s.deck|
      && (Conserved(s) ==> Conserved(r))
      && (TurnAccounting(s) ==> TurnAccounting(r))
  {
    RotationKeepsCards(s.deck);
  }

  /** Finishing a turn only adds points, so no score becomes negative. */
  lemma FinishTurnKeepsScoresNonNegative(s: GameStore, reason: TurnEndReason)
    requires ScoresNonNegative(s)
    ensures ScoresNonNegative(FinishTurnToRecap(s, reason))
  {
    var added := AddPoints(s, s.currentRound, s.currentTeam, |s.thisTurnCorrect|);
    var r := FinishTurnToRecap(s, reason);
    assert r.roundScores == added.roundScores && r.cumulativeA == added.cumulativeA && r.cumulativeB == added.cumulativeB;
  }

  /** True when the skips and corrects of this turn have reached the deck size at turn start, with at least one skip. */
  predicate SkipCycleDone(s: GameStore) {
    s.skipCount + |s.thisTurnCorrect| >= s.initialDeckSize && s.skipCount > 0
  }

  /**
   * After every correct or skip: a completed skip cycle stops the turn and
   * waits on the skip-complete screen, scoring nothing yet; only otherwise
   * does an empty deck save the remaining time as the clue-giver's bonus and
   * finish the turn as "completed all cards".
   */
  function CheckTurnEndConditions(s: GameStore): (r: GameStore)
    ensures SkipCycleDone(s) ==> r == s.(turnActive := false, stage := TurnSkipComplete)
    ensures !SkipCycleDone(s) && |s.deck| == 0 ==>
      r == FinishTurnToRecap(s.(savedBonusTime := s.timeRemaining, bonusTimePlayer := s.clueGiver), CompletedAllCards)
    ensures !SkipCycleDone(s) && |s.deck| > 0 ==> r == s
  {
    if s.skipCount + |s.thisTurnCorrect| >= s.initialDeckSize && s.skipCount > 0 then
      s.(turnActive := false, stage := TurnSkipComplete)
    else if |s.deck| == 0 then
      FinishTurnToRecap(s.(savedBonusTime := s.timeRemaining, bonusTimePlayer := s.clueGiver), CompletedAllCards)
    else
      s
  }

  /**
   * The turn-end check never moves a card and changes the bonus only when it
   * finds the deck emptied without a completed skip cycle; then the bonus
   * goes to the clue-giver with the remaining time, and the acting team is
   * credited with the turn's corrects.
   */
  lemma CheckTurnEndEffects(s: GameStore)
    ensures var r := CheckTurnEndConditions(s);
      && r.deck == s.deck && r.thisTurnCorrect == s.thisTurnCorrect && r.banked == s.banked
      && r.allCards == s.allCards && r.skipCount == s.skipCount && r.initialDeckSize == s.initialDeckSize
      && r.playerStats == s.playerStats && r.timeRemaining == s.timeRemaining
      && (r.bonusTimePlayer != s.bonusTimePlayer || r.savedBonusTime != s.savedBonusTime ==>
            |s.deck| == 0 && !SkipCycleDone(s))
      && (!SkipCycleDone(s) && |s.deck| == 0 ==>
            && r.bonusTimePlayer == s.clueGiver && r.savedBonusTime == s.timeRemaining
            && !r.turnActive && r.lastTurnEndReason == CompletedAllCards && r.stage == TurnComplete
            && r.Cumulative(s.currentTeam) == s.Cumulative(s.currentTeam) + |s.thisTurnCorrect|)
  {
  }

  lemma CheckTurnEndKeepsInvariants(s: GameStore)
    ensures var r := CheckTurnEndConditions(s);
      && (ScoresNonNegative(s) ==> ScoresNonNegative(r))
      && (Conserved(s) ==> Conserved(r))
      && (TurnAccounting(s) ==> TurnAccounting(r))
  {
    var bonused := s.(savedBonusTime := s.timeRemaining, bonusTimePlayer := s.clueGiver);
    FinishTurnKeepsCards(bonused, CompletedAllCards);
    if ScoresNonNegative(s) {
      FinishTurnKeepsScoresNonNegative(bonused, CompletedAllCards);
    }
  }

  /** Applies `update` to the clue-giver's statistics, when there is a clue-giver with statistics. */
  function UpdateClueGiverStats(s: GameStore, update: PlayerStats -> PlayerStats): (stats: map<nat, PlayerStats>)
    ensures stats.Keys == s.playerStats.Keys
    ensures forall id :: id in stats && (s.clueGiver.None? || id != s.clueGiver.value.id) ==> stats[id] == s.playerStats[id]
    ensures s.clueGiver.Some? && s.clueGiver.value.id in s.playerStats ==>
      s.clueGiver.value.id in stats && stats[s.clueGiver.value.id] == update(s.playerStats[s.clueGiver.value.id])
  {
    match s.clueGiver
    case Some(g) => if g.id in s.playerStats then s.playerStats[g.id := update(s.playerStats[g.id])] else s.playerStats
    case None => s.playerStats
  }

  /** The state right after the head card is recorded as correct, before the turn-end check. */
  function RecordCorrect(s: GameStore, eventId: nat, duration: nat): GameStore
    requires |s.deck| > 0
  {
    s.(deck := s.deck[1..],
       thisTurnCorrect := s.thisTurnCorrect + [CorrectEvent(eventId, s.deck[0], 0, duration, true)],
       playerStats := UpdateClueGiverStats(s, p => AddCorrectAnswer(p, duration)))
  }

  /**
   * Marks the shown card correct: outside a running turn or with an empty
   * deck nothing happens; otherwise the head card leaves the deck into a new
   * highlighted event with original index 0, the clue-giver's statistics
   * record the answer, and the turn-end check runs.
   */
  function MarkCorrect(s: GameStore, eventId: nat, duration: nat): (r: GameStore)
    ensures !s.turnActive || |s.deck| == 0 ==> r == s
    ensures s.turnActive && |s.deck| > 0 ==> r == CheckTurnEndConditions(RecordCorrect(s, eventId, duration))
  {
    if !s.turnActive || |s.deck| == 0 then s
    else CheckTurnEndConditions(RecordCorrect(s, eventId, duration))
  }

  /**
   * What a correct answer does to the deck and the events, and when the turn
   * keeps running: while cards remain and no skip cycle has completed.
   */
  lemma MarkCorrectEffects(s: GameStore, eventId: nat, duration: nat)
    requires s.turnActive && |s.deck| > 0
    ensures var r := MarkCorrect(s, eventId, duration);
      && r.deck == s.deck[1..]
      && r.thisTurnCorrect == s.thisTurnCorrect + [CorrectEvent(eventId, s.deck[0], 0, duration, true)]
      && r.skipCount == s.skipCount
      && (r.turnActive <==> |s.deck| > 1
                            && (s.skipCount == 0 || s.skipCount + |s.thisTurnCorrect| + 1 < s.initialDeckSize))
  {
    CheckTurnEndEffects(RecordCorrect(s, eventId, duration));
  }

  /** Recording a correct answer moves the head card from the deck to the events. */
  lemma RecordCorrectKeepsCards(s: GameStore, eventId: nat, duration: nat)
    requires |s.deck| > 0 && Conserved(s)
    ensures Conserved(RecordCorrect(s, eventId, duration))
  {
    var ev := CorrectEvent(eventId, s.deck[0], 0, duration, true);
    var r := RecordCorrect(s, eventId, duration);
    var c := multiset{s.deck[0]};
    assert s.deck == [s.deck[0]] + s.deck[1..];
    assert multiset(s.deck) == c + multiset(r.deck);
    EventCardsAppend(s.thisTurnCorrect, [ev]);
    assert EventCards(r.thisTurnCorrect) == EventCards(s.thisTurnCorrect) + [s.deck[0]];
    assert multiset(EventCards(r.thisTurnCorrect)) == multiset(EventCards(s.thisTurnCorrect)) + c;
    assert r.banked == s.banked && r.allCards == s.allCards;
  }

  lemma MarkCorrectKeepsCards(s: GameStore, eventId: nat, duration: nat)
    ensures var r := MarkCorrect(s, eventId, duration);
      && (Conserved(s) ==> Conserved(r))
      && (TurnAccounting(s) ==> TurnAccounting(r))
  {
    if s.turnActive && |s.deck| > 0 {
      var recorded := RecordCorrect(s, eventId, duration);
      if Conserved(s) {
        RecordCorrectKeepsCards(s, eventId, duration);
      }
      if !SkipCycleDone(recorded) {
        CheckTurnEndKeepsInvariants(recorded);
      }
    }
  }

  lemma MarkCorrectKeepsScores(s: GameStore, eventId: nat, duration: nat)
    ensures var r := MarkCorrect(s, eventId, duration);
      && (ScoresNonNegative(s) ==> ScoresNonNegative(r))
      && (StatsNonNegative(s) ==> StatsNonNegative(r))
  {
    if s.turnActive && |s.deck| > 0 {
      var recorded := RecordCorrect(s, eventId, duration);
      CheckTurnEndKeepsInvariants(recorded);
      CheckTurnEndEffects(recorded);
      if StatsNonNegative(s) {
        RecordCorrectKeepsStats(s, eventId, duration);
      }
    }
  }

  /** Recording a correct answer keeps every statistic non-negative. */
  lemma RecordCorrectKeepsStats(s: GameStore, eventId: nat, duration: nat)
    requires |s.deck| > 0 && StatsNonNegative(s)
    ensures StatsNonNegative(RecordCorrect(s, eventId, duration))
  {
    var recorded := RecordCorrect(s, eventId, duration);
    forall id | id in recorded.playerStats
      ensures recorded.playerStats[id].NonNegative()
    {
      if s.clueGiver.Some? && id == s.clueGiver.value.id {
        assert recorded.playerStats[id] == AddCorrectAnswer(s.playerStats[id], duration);
      }
    }
  }

  /**
   * Skips the shown card: nothing happens outside a running turn, with an
   * empty deck, or in round one; otherwise the head card moves to the tail,
   * the skip count grows by one and the turn-end check runs.
   */
  function SkipCard(s: GameStore): (r: GameStore)
    ensures !s.turnActive || |s.deck| == 0 || s.currentRound == One ==> r == s
    ensures s.turnActive && |s.deck| > 0 && s.currentRound != One ==>
      r == CheckTurnEndConditions(s.(deck := RotateHeadToTail(s.deck), skipCount := s.skipCount + 1))
  {
    if !s.turnActive || |s.deck| == 0 then s
    else if s.currentRound == One then s
    else CheckTurnEndConditions(s.(deck := RotateHeadToTail(s.deck), skipCount := s.skipCount + 1))
  }

  /**
   * A skip moves the head card to the tail and ends the turn exactly when
   * skips plus corrects reach the deck size at turn start; it never awards
   * bonus time and never changes a score.
   */
  lemma SkipCardEffects(s: GameStore)
    ensures var r := SkipCard(s);
      && r.bonusTimePlayer == s.bonusTimePlayer && r.savedBonusTime == s.savedBonusTime
      && r.roundScores == s.roundScores && r.cumulativeA == s.cumulativeA && r.cumulativeB == s.cumulativeB
      && (s.turnActive && |s.deck| > 0 && s.currentRound != One ==>
            && r.deck == RotateHeadToTail(s.deck)
            && r.skipCount == s.skipCount + 1
            && r.thisTurnCorrect == s.thisTurnCorrect
            && (r.turnActive <==> s.skipCount + 1 + |s.thisTurnCorrect| < s.initialDeckSize)
            && (!r.turnActive ==> r.stage == TurnSkipComplete))
  {
  }

  lemma SkipCardKeepsInvariants(s: GameStore)
    ensures var r := SkipCard(s);
      && multiset(r.deck) == multiset(s.deck)
      && (Conserved(s) ==> Conserved(r))
      && (TurnAccounting(s) ==> TurnAccounting(r))
  {
    RotationKeepsCards(s.deck);
  }

  /** Bonus time applies when the bonus holder is the clue-giver and some time is saved. */
  predicate BonusApplies(s: GameStore) {
    s.bonusTimePlayer.Some? && s.clueGiver.Some? && s.bonusTimePlayer.value.id == s.clueGiver.value.id
    && s.savedBonusTime > 0
  }

  function MinInt(a: int, b: int): int {
    if a < b then a else b
  }

  /**
   * Starts a turn. With an empty deck it only routes to the end-of-round
   * decision. Otherwise the turn starts clean (no events, no skips, the
   * current deck size recorded) with the bonus time, capped by the timer
   * setting, when it applies (consuming it), or the timer setting otherwise.
   */
  function BeginTurn(s: GameStore): (r: GameStore)
    ensures |s.deck| == 0 ==> r == EndRoundIfNeeded(s)
    ensures |s.deck| > 0 ==>
      && r.turnActive && r.stage == Turn
      && r.thisTurnCorrect == [] && r.skipCount == 0 && r.initialDeckSize == |s.deck|
      && r.deck == s.deck && r.banked == s.banked && r.allCards == s.allCards
      && r.roundScores == s.roundScores && r.cumulativeA == s.cumulativeA && r.cumulativeB == s.cumulativeB
      && r.settings == s.settings && r.clueGiver == s.clueGiver && r.currentTeam == s.currentTeam
      && r.turnPaused == s.turnPaused
    ensures |s.deck| > 0 && BonusApplies(s) ==>
      && r.timeRemaining == MinInt(s.savedBonusTime, s.settings.timerSeconds)
      && r.savedBonusTime == 0 && r.bonusTimePlayer.None?
    ensures |s.deck| > 0 && !BonusApplies(s) ==>
      && r.timeRemaining == s.settings.timerSeconds
      && r.savedBonusTime == s.savedBonusTime && r.bonusTimePlayer == s.bonusTimePlayer
    ensures |s.deck| > 0 && s.clueGiver.Some? && s.clueGiver.value.id in s.playerStats ==>
      s.clueGiver.value.id in r.playerStats
      && r.playerStats[s.clueGiver.value.id] == AddTurn(s.playerStats[s.clueGiver.value.id])
    ensures |s.deck| > 0 ==> TurnAccounting(r)
    ensures TurnAccounting(s) ==> TurnAccounting(r)
    ensures StatsNonNegative(s) ==> StatsNonNegative(r)
    ensures ScoresNonNegative(s) ==> ScoresNonNegative(r)
    ensures s.thisTurnCorrect == [] && Conserved(s) ==> Conserved(r)
  {
    if |s.deck| == 0 then EndRoundIfNeeded(s)
    else
      var timed :=
        if BonusApplies(s) then
          s.(timeRemaining := MinInt(s.savedBonusTime, s.settings.timerSeconds), savedBonusTime := 0, bonusTimePlayer := None)
        else
          s.(timeRemaining := s.settings.timerSeconds);
      timed.(thisTurnCorrect := [], skipCount := 0, initialDeckSize := |s.deck|, turnActive := true, stage := Turn,
             playerStats := UpdateClueGiverStats(s, AddTurn))
  }

  /**
   * One second of the countdown: only a running, unpaused turn with time left
   * counts down, and reaching zero finishes the turn as timed out.
   */
  function Tick(s: GameStore): (r: GameStore)
    ensures !(s.turnActive && !s.turnPaused && s.timeRemaining > 0) ==> r == s
    ensures s.turnActive && !s.turnPaused && s.timeRemaining > 1 ==> r == s.(timeRemaining := s.timeRemaining - 1)
    ensures s.turnActive && !s.turnPaused && s.timeRemaining == 1 ==>
      r == FinishTurnToRecap(s.(timeRemaining := 0), TimerExpired)
  {
    if s.turnActive && !s.turnPaused && s.timeRemaining > 0 then
      var counted := s.(timeRemaining := s.timeRemaining - 1);
      if counted.timeRemaining == 0 then FinishTurnToRecap(counted, TimerExpired) else counted
    else s
  }

  lemma TickKeepsInvariants(s: GameStore)
    ensures var r := Tick(s);
      && (ScoresNonNegative(s) ==> ScoresNonNegative(r))
      && (Conserved(s) ==> Conserved(r))
      && (TurnAccounting(s) ==> TurnAccounting(r))
  {
    FinishTurnKeepsCards(s.(timeRemaining := 0), TimerExpired);
    if ScoresNonNegative(s) {
      FinishTurnKeepsScoresNonNegative(s.(timeRemaining := 0), TimerExpired);
    }
  }

  /** `k` successive ticks. */
  function Ticks(s: GameStore, k: nat): GameStore {
    if k == 0 then s else Tick(Ticks(s, k - 1))
  }

  /**
   * A running, unpaused turn with `n` seconds left is still running after
   * fewer than `n` ticks, with the time counted down, and has ended by
   * timeout after exactly `n` ticks.
   */
  lemma {:induction false} TicksRunOutTheClock(s: GameStore, k: nat)
    requires s.turnActive && !s.turnPaused && s.timeRemaining > 0
    requires k <= s.timeRemaining
    ensures k < s.timeRemaining ==> Ticks(s, k) == s.(timeRemaining := s.timeRemaining - k)
    ensures k == s.timeRemaining ==>
      !Ticks(s, k).turnActive && Ticks(s, k).lastTurnEndReason == TimerExpired && Ticks(s, k).timeRemaining == 0
  {
    if k > 0 {
      TicksRunOutTheClock(s, k - 1);
    }
  }

  /**
   * Going home does not stop the countdown: a running turn's last second,
   * ticked after a full reset, still ends the turn by timeout and leaves the
   * home screen for the turn-complete screen with the pending points scored.
   */
  lemma HomeKeepsTheClockRunning(s: GameStore, nonManualWords: nat, manualWords: nat)
    requires s.turnActive && !s.turnPaused && s.timeRemaining == 1
    ensures var r := Tick(GoHome(s, true, nonManualWords, manualWords));
      && !r.turnActive && r.lastTurnEndReason == TimerExpired && r.stage == TurnComplete
      && r.Cumulative(r.currentTeam) == |s.thisTurnCorrect|
      && r.thisTurnCorrect == s.thisTurnCorrect && r.allCards == []
  {
    var home := GoHome(s, true, nonManualWords, manualWords);
    assert home.turnActive && !home.turnPaused && home.timeRemaining == 1;
    assert home.Cumulative(home.currentTeam) == 0;
  }

  /** Once a turn has ended, further ticks change nothing. */
  lemma EndedTurnIgnoresTicks(s: GameStore, k: nat)
    requires !s.turnActive
    ensures Ticks(s, k) == s
  {
  }

  /** Pausing acts only on a running, unpaused turn and never touches the remaining time. */
  function PauseTurn(s: GameStore): (r: GameStore)
    ensures !(s.turnActive && !s.turnPaused) ==> r == s
    ensures s.turnActive && !s.turnPaused ==> r.turnPaused && r.stage == TurnPaused
    ensures r.timeRemaining == s.timeRemaining
    ensures r == s.(turnPaused := r.turnPaused, stage := r.stage)
  {
    if s.turnActive && !s.turnPaused then s.(turnPaused := true, stage := TurnPaused) else s
  }

  /** Resuming acts only on a running, paused turn and never touches the remaining time. */
  function UnpauseTurn(s: GameStore): (r: GameStore)
    ensures !(s.turnActive && s.turnPaused) ==> r == s
    ensures s.turnActive && s.turnPaused ==> !r.turnPaused && r.stage == Turn
    ensures r.timeRemaining == s.timeRemaining
    ensures r == s.(turnPaused := r.turnPaused, stage := r.stage)
  {
    if s.turnActive && s.turnPaused then s.(turnPaused := false, stage := Turn) else s
  }

  /** Pausing and resuming a running turn on the turn screen gives the same state back. */
  lemma PauseThenResume(s: GameStore)
    requires s.turnActive && !s.turnPaused && s.stage == Turn
    ensures UnpauseTurn(PauseTurn(s)) == s
    ensures Tick(PauseTurn(s)) == PauseTurn(s)
  {
  }

  /** Opening the pause settings copies the current timer setting into the editor. */
  function ShowPauseSettings(s: GameStore): (r: GameStore)
    ensures r.pendingTimerSeconds == s.settings.timerSeconds
    ensures r == s.(pendingTimerSeconds := r.pendingTimerSeconds)
  {
    s.(pendingTimerSeconds := s.settings.timerSeconds)
  }

  /** Saving the pause settings changes the timer setting only; the running countdown is untouched. */
  function SavePauseSettings(s: GameStore): (r: GameStore)
    ensures r.settings.timerSeconds == s.pendingTimerSeconds
    ensures r.timeRemaining == s.timeRemaining && r.turnActive == s.turnActive
    ensures r == s.(settings := s.settings.(timerSeconds := s.pendingTimerSeconds))
  {
    s.(settings := s.settings.(timerSeconds := s.pendingTimerSeconds))
  }

  /**
   * A timer change made mid-turn takes effect at the next turn start (when no
   * bonus applies), and opening then saving the settings unedited changes nothing.
   */
  lemma TimerChangeAppliesNextTurn(s: GameStore)
    requires |s.deck| > 0 && !BonusApplies(s)
    ensures BeginTurn(SavePauseSettings(s)).timeRemaining == s.pendingTimerSeconds
    ensures SavePauseSettings(ShowPauseSettings(s)) == ShowPauseSettings(s)
  {
  }

  /**
   * Bonus time is consumed once: after a turn that used it, the next turn
   * start (with no new bonus earned) runs on the plain timer setting.
   */
  lemma BonusConsumedOnce(s: GameStore)
    requires |s.deck| > 0 && BonusApplies(s)
    ensures var t := BeginTurn(s);
      t.bonusTimePlayer.None? && t.savedBonusTime == 0
      && t.timeRemaining <= s.settings.timerSeconds && t.timeRemaining <= s.savedBonusTime
      && BeginTurn(t).timeRemaining == s.settings.timerSeconds
  {
  }

  /** The player's "End turn" confirmation. */
  function ConfirmEndTurn(s: GameStore): (r: GameStore)
    ensures r.lastTurnEndReason == Manual && r.stage == TurnComplete && r.deck == s.deck
  {
    FinishTurnToRecap(s, Manual)
  }

  /** Leaving the skip-complete screen finishes the turn straight into the recap. */
  function ProceedFromSkipComplete(s: GameStore): (r: GameStore)
    ensures r.lastTurnEndReason == SkipCycleComplete && r.stage == Recap && r.deck == s.deck
  {
    FinishTurnToRecap(s, SkipCycleComplete)
  }

  function ProceedFromTurnComplete(s: GameStore): (r: GameStore)
    ensures r == s.(stage := Recap)
  {
    s.(stage := Recap)
  }

  /**
   * Emptying the deck after any skip of the turn earns no bonus: the skip
   * cycle is detected first, so the bonus fields stay as they were.
   */
  lemma NoBonusAfterSkip(s: GameStore, eventId: nat, duration: nat)
    requires TurnAccounting(s) && s.skipCount > 0
    ensures var r := MarkCorrect(s, eventId, duration);
      r.bonusTimePlayer == s.bonusTimePlayer && r.savedBonusTime == s.savedBonusTime
  {
    if s.turnActive && |s.deck| > 0 {
      CheckTurnEndEffects(RecordCorrect(s, eventId, duration));
    }
  }

  /**
   * Clearing the last card without any skip earns the clue-giver the
   * remaining time as bonus and finishes the turn as "completed all cards".
   */
  lemma ClearingTheDeckEarnsBonus(s: GameStore, eventId: nat, duration: nat)
    requires s.turnActive && |s.deck| == 1 && s.skipCount == 0
    ensures var r := MarkCorrect(s, eventId, duration);
      r.bonusTimePlayer == s.clueGiver && r.savedBonusTime == s.timeRemaining
      && r.lastTurnEndReason == CompletedAllCards && !r.turnActive && r.deck == []
  {
    CheckTurnEndEffects(RecordCorrect(s, eventId, duration));
  }
}
