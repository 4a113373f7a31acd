# bgb-cpg game store, modelled in Dafny

bgb-cpg is a pass-and-play party game: players write or pick titles, and two teams
take turns getting their team-mates to guess them over three rounds. Round one is
"describe", round two is "one word" and round three is "charades". This project
models the game's central state machine, `GameStore`, as an immutable `GameStore`
datatype (`state.dfy`). Each store action is a pure transition function. It also
models the value types the store mutates and the pure rules of the settings and
intake screens.

- `models.dfy`: teams, round phases and their skip rules, cards, players, correct
  events, round scores, and per-player statistics (`addCorrectAnswer`, `addTurn`,
  `averageAnswerTime`).
- `deck.dfy`: how cards move in the working deck. A card can be popped from the
  head, rotated from the head to the tail, inserted at a clamped index, or
  appended at the tail.
- `state.dfy`: the store's state, and the invariants the transitions keep:
  - card conservation (`Conserved`);
  - non-negative scores and statistics;
  - the turn bookkeeping (`TurnAccounting`).
- `flow.dfy`: clue-giver rotation, with priority for the bonus-time holder;
  round-end routing; and the round progression one → two → three → game end,
  with a fresh shuffle of the master list each time.
- `turn.dfy`: the running turn, covering `beginTurn` (bonus consumption), the
  per-second tick, pause and resume, `markCorrect`, `skipCard`, the turn-end check,
  and `finishTurnToRecap`.
- `recap.dfy`: `undo`, the recap highlight toggle, and `recapDoneNextHandoff`.
- `intake.dfy`: player intake (`submitPlayerAndWords`, `advanceIntakePointer`,
  `togglePick`, `wordCount`). The master card list is kept free of titles that are
  equal ignoring case.
- `settings_rules.dfy`: the view-side rules:
  - name validation;
  - the subject and category chip toggles;
  - the two-thumb range slider;
  - the picks submit gate.
- `summary.dfy`: the longest-streak count, the tie test, and the "no-say" tokens
  of a title.
- `text.dfy`: trimming, lower-casing and splitting, over ASCII.

To state card conservation as an equality, the store carries one extra field,
`banked`. It holds the cards confirmed as correct in earlier turns of the current
round. With it, every card of the master list is in exactly one of three places:
the deck, this turn's events, or the banked cards.

Some inputs come from the environment and are passed in as parameters:

- UUIDs become caller-supplied `nat` identifiers.
- An answer's duration is a caller-supplied number of whole seconds.
- The one-second timer is an explicit `Tick` event.
- A shuffle is any permutation of the master list supplied by the caller (`IsShuffleOf`).
- A replacement draw from the shared title pool is a caller-supplied function. It is
  only required to avoid the titles it is given (`DrawAvoids`).

Where the documented behaviour and the code differ, the model follows the code:

- Bonus time is capped by the timer setting (`min(savedBonusTime, timerSeconds)`).
- The store names a blank-named player "Player N"; it does not reject the name.
- Undo and the recap take back the answer count and the total time, but leave the
  fastest and slowest answers alone.
- `beginTurn` does not reset the pause flag.
- The per-team turn counters are never reset, not even by `goHome`.
- A full `goHome` reset clears the roster, the cards, the scores and the bonus. It
  leaves the running turn as it was (events, flags, countdown, skip count,
  clue-giver) and the intake buffers, and it does not cancel the timer. A turn left
  running keeps counting down on the home screen and still ends by timeout. The
  banked cards are cleared with the master list, so card conservation survives the
  reset exactly when no answer of the turn is pending.
- When no manual words are configured, the manual words are not validated at all.

## Model

| member | source | states |
|---|---|---|
| Models.RoundFromRaw | bgb-cpg/GameModels.swift:24-25 | exactly the raw values 1, 2 and 3 name a round, and decoding inverts the raw value |
| Models.RawValueRoundTrip | bgb-cpg/GameModels.swift:24-25 | every round's raw value lies in 1..3 and decodes back to that round |
| Models.DefaultSkipsMatchPolicy | bgb-cpg/GameModels.swift:221-225 | in the default settings, skipping is disabled exactly in the round whose policy says "not allowed" (round one); the other rounds allow skips until the start card comes back |
| Models.NewStats | bgb-cpg/GameModels.swift:125-138 | fresh statistics carry the player's id, zero counters and no fastest or slowest answer |
| Models.AverageAnswerTime | bgb-cpg/GameModels.swift:132-134 | zero while no answer is recorded; otherwise the total time divided by the answer count (rounded down) |
| Models.AddCorrectAnswer | bgb-cpg/GameModels.swift:140-155 | the count rises by exactly 1 and the total time by exactly the duration; fastest and slowest are then both set, bracket the duration, and only ever move outward; the turn count is untouched; the extremes stay ordered |
| Models.AddTurn | bgb-cpg/GameModels.swift:157-159 | the clue-giver turn count rises by 1 and nothing else changes |
| Models.RemoveCorrectAnswer | bgb-cpg/GameStore.swift:930-935 | count and total time drop by one answer, floored at zero; fastest, slowest and the turn count are kept |
| Models.RemoveUndoesAdd | bgb-cpg/GameStore.swift:930-935 | removing an answer right after adding it restores both counters of non-negative statistics |
| Models.ObserveAllSummarises | bgb-cpg/GameModels.swift:140-155 | from fresh statistics, any sequence of answers leaves the count, total, fastest and slowest equal to the length, sum, minimum and maximum of the durations, with fastest ≤ slowest |
| Deck.RotationKeepsCards | bgb-cpg/GameStore.swift:850-851 | rotating keeps the same multiset of cards, puts the old head last and keeps the others in order |
| Deck.RotateTimesIsRotation | bgb-cpg/GameStore.swift:850-851 | k rotations (k ≤ deck size) move the first k cards, in order, behind the rest |
| Deck.FullCycleRestoresDeck | bgb-cpg/GameModels.swift:46-50 | skipping every card once returns the deck to its starting order, the "return to the start card" of the skip policy |
| Deck.ClampIndex | bgb-cpg/GameStore.swift:919 | `max(0, min(index, count))`: in range indices are kept, larger ones become the count, negative ones 0 |
| Deck.InsertAt | bgb-cpg/GameStore.swift:919-920 | the card lands exactly at the clamped index, the cards before and after it are unchanged, and the multiset grows by that card |
| Deck.PopThenReinsertAtFront | bgb-cpg/GameStore.swift:814-818 | popping the head (original index 0) and reinserting it at index 0 restores the deck |
| Store.GoHome | bgb-cpg/GameStore.swift:108-129 | without a reset only the stage becomes home; a full reset restores the default settings and clears roster, team orders, cards, deck, scores, statistics and bonus, back to round one, and changes nothing else; scores and statistics are then non-negative, and card conservation holds exactly when no answer of the turn is pending |
| Turn.HomeKeepsTheClockRunning | bgb-cpg/GameStore.swift:694-705 | after a full reset the timer still runs: the last second of a running turn ends it by timeout, scores the pending answers and leaves the home screen for turn-complete |
| Store.FloorDecrement | bgb-cpg/GameStore.swift:924-925 | `max(0, x - 1)`: never negative, exactly one less for positive values |
| Flow.RotationPick | bgb-cpg/GameStore.swift:636-640 | the chosen clue-giver is a member of the team's roster, at index turns mod roster size |
| Flow.SetNextClueGiverIfNeeded | bgb-cpg/GameStore.swift:621-642 | the bonus holder goes first and takes their team with them; otherwise the current team's roster entry at turns mod size, or nobody for an empty roster; nothing else changes |
| Flow.RotationWindowIsRotation | bgb-cpg/GameStore.swift:636-640 | the clue-givers of up to one lap of consecutive turns read the roster cyclically from the current index |
| Flow.RoundRobinFairness | bgb-cpg/GameStore.swift:636-640 | any roster-size run of consecutive turns gives every rostered player exactly one turn, in intake order from zero turns |
| Flow.EndRoundIfNeeded | bgb-cpg/GameStore.swift:992-1008 | an empty deck ends the game in round three and the round otherwise; a non-empty deck returns to the hand-off; only the stage changes |
| Flow.ResetDeckForRound | bgb-cpg/GameStore.swift:607-611 | the new deck is a permutation of the master list, so with no pending events every card is accounted for again |
| Flow.StartRound | bgb-cpg/GameStore.swift:613-619 | a deck is dealt only when none is left; the stage becomes the turn hand-off; conservation is kept |
| Flow.ProceedToNextRoundOrEnd | bgb-cpg/GameStore.swift:1010-1033 | round three ends the game and changes nothing else; otherwise the round number rises by one, the deck is re-dealt as a permutation of the master list, the starting team leads unless a bonus holder takes over, and scores are kept |
| Flow.RoundsEndAfterThree | bgb-cpg/GameStore.swift:1010-1024 | three advances from round one go through rounds two and three and then end the game without re-dealing |
| Turn.AddPoints | bgb-cpg/GameStore.swift:880-891 | the team's round and cumulative scores rise by n, creating the round entry if missing; the other team and the other rounds are untouched; non-negativity is kept |
| Turn.AddPointsRaisesTotal | bgb-cpg/GameModels.swift:191-195 | the round total (team A plus team B, from a zero snapshot when new) rises by exactly the points added |
| Turn.FinishTurnToRecap | bgb-cpg/GameStore.swift:866-904 | a timeout rotates the stuck card to the tail and every other reason leaves the deck alone; the acting team gains one point per event in both scores and one turn, and the other team is untouched; the stage is the recap after a skip cycle and the turn-complete screen otherwise |
| Turn.FinishTurnKeepsCards | bgb-cpg/GameStore.swift:871-874 | finishing a turn keeps the deck's multiset, card conservation and the turn bookkeeping |
| Turn.FinishTurnKeepsScoresNonNegative | bgb-cpg/GameStore.swift:880-891 | finishing a turn never makes a score negative |
| Turn.CheckTurnEndConditions | bgb-cpg/GameStore.swift:787-803 | a completed skip cycle is tested first and only stops the turn on the skip-complete screen; only otherwise does an empty deck save the bonus and finish the turn as "completed all cards"; in any other case nothing changes |
| Turn.CheckTurnEndEffects | bgb-cpg/GameStore.swift:787-803 | the check never moves a card; the bonus changes only when the deck ran out without a skip cycle, and then it goes to the clue-giver with the remaining time and the team is credited with the turn's answers |
| Turn.CheckTurnEndKeepsInvariants | bgb-cpg/GameStore.swift:787-803 | the check keeps non-negative scores, conservation and the turn bookkeeping |
| Turn.UpdateClueGiverStats | bgb-cpg/GameStore.swift:821-823 | only the clue-giver's statistics are updated, and only when they exist; the keys are unchanged |
| Turn.MarkCorrect | bgb-cpg/GameStore.swift:805-838 | nothing happens outside a running turn or with an empty deck |
| Turn.MarkCorrectEffects | bgb-cpg/GameStore.swift:805-838 | exactly the head card leaves the deck into a new highlighted event with original index 0; the turn keeps running exactly when cards remain and no skip cycle has completed |
| Turn.MarkCorrectKeepsCards | bgb-cpg/GameStore.swift:814-818 | marking correct keeps conservation (deck, events and banked cards) and the turn bookkeeping |
| Turn.MarkCorrectKeepsScores | bgb-cpg/GameStore.swift:805-838 | marking correct keeps scores and statistics non-negative |
| Turn.SkipCard | bgb-cpg/GameStore.swift:840-848 | nothing happens outside a running turn, with an empty deck, or in round one |
| Turn.SkipCardEffects | bgb-cpg/GameStore.swift:840-864 | a skip rotates the head to the tail and adds one skip; the turn ends on the skip-complete screen exactly when skips plus corrects reach the starting deck size; no bonus and no score ever changes |
| Turn.SkipCardKeepsInvariants | bgb-cpg/GameStore.swift:850-851 | skipping keeps the deck's multiset, conservation and the turn bookkeeping |
| Turn.BeginTurn | bgb-cpg/GameStore.swift:659-695 | with an empty deck it only routes to the round-end decision; otherwise it starts clean (no events or skips, the deck size recorded), takes the bonus capped by the timer setting and clears it when the holder is the clue-giver with time saved, uses the timer setting otherwise, and counts the clue-giver's turn |
| Turn.Tick | bgb-cpg/GameStore.swift:698-705 | only a running, unpaused turn with time left counts down, and reaching zero finishes the turn as timed out |
| Turn.TickKeepsInvariants | bgb-cpg/GameStore.swift:698-705 | a tick keeps non-negative scores, conservation and the turn bookkeeping |
| Turn.TicksRunOutTheClock | bgb-cpg/GameStore.swift:698-705 | with n seconds left, fewer than n ticks only count down, and exactly n ticks end the turn by timeout |
| Turn.EndedTurnIgnoresTicks | bgb-cpg/GameStore.swift:699 | ticks after the turn has ended change nothing |
| Turn.PauseTurn | bgb-cpg/GameStore.swift:711-720 | acts only on a running, unpaused turn; never changes the remaining time |
| Turn.UnpauseTurn | bgb-cpg/GameStore.swift:722-731 | acts only on a running, paused turn; never changes the remaining time |
| Turn.PauseThenResume | bgb-cpg/GameStore.swift:711-731 | pausing and resuming returns the same state, and ticks while paused change nothing |
| Turn.ShowPauseSettings | bgb-cpg/GameStore.swift:759-762 | the editor starts from the current timer setting |
| Turn.SavePauseSettings | bgb-cpg/GameStore.swift:764-769 | only the timer setting changes; the running countdown is untouched |
| Turn.TimerChangeAppliesNextTurn | bgb-cpg/GameStore.swift:764-769 | a mid-turn timer change takes effect at the next turn start (without bonus), and saving an unedited setting changes nothing |
| Turn.BonusConsumedOnce | bgb-cpg/GameStore.swift:669-679 | a turn that uses the bonus clears it, gets at most both the timer setting and the saved time, and the next turn start runs on the plain timer |
| Turn.ConfirmEndTurn | bgb-cpg/GameStore.swift:737-740 | a manual end shows the turn-complete screen and leaves the deck alone |
| Turn.ProceedFromSkipComplete | bgb-cpg/GameStore.swift:783-785 | leaving the skip-complete screen finishes the turn straight into the recap, deck untouched |
| Turn.ProceedFromTurnComplete | bgb-cpg/GameStore.swift:906-908 | only the stage changes, to the recap |
| Turn.NoBonusAfterSkip | bgb-cpg/GameStore.swift:787-803 | once any card was skipped this turn, marking correct never awards bonus time, even when it empties the deck |
| Turn.ClearingTheDeckEarnsBonus | bgb-cpg/GameStore.swift:796-802 | clearing the last card without a skip saves the remaining time for the clue-giver and ends the turn as "completed all cards" |
| Recap.FindEvent | bgb-cpg/GameStore.swift:911 | the index of the first event with the identifier, and none exactly when no event has it |
| Recap.RemoveAt | bgb-cpg/GameStore.swift:915 | the events before the index are kept and the ones after shift down by one |
| Recap.RemoveAtCards | bgb-cpg/GameStore.swift:915 | removing an event removes exactly its card from the turn's cards |
| Recap.SetHighlight | bgb-cpg/Views_RoundturnRecap.swift:413-420 | an unknown identifier changes nothing; otherwise the first matching event shows the new highlight and no other field of any event changes |
| Recap.SetHighlightKeepsCards | bgb-cpg/Views_RoundturnRecap.swift:416-419 | toggling highlights never moves a card, so conservation is kept |
| Recap.TakeBackPoint | bgb-cpg/GameStore.swift:923-927 | when the round has a score entry, the acting team loses one round and one cumulative point, floored at zero; with no entry nothing changes; the other team is never touched |
| Recap.Retract | bgb-cpg/GameStore.swift:923-935 | one point is taken back and, when the clue-giver has statistics, exactly their counters for that answer are removed; all other statistics are kept |
| Recap.RetractKeepsNonNegative | bgb-cpg/GameStore.swift:923-935 | taking an answer back keeps scores and statistics non-negative |
| Recap.Undo | bgb-cpg/GameStore.swift:910-914 | an unknown event identifier changes nothing |
| Recap.UndoEffects | bgb-cpg/GameStore.swift:910-938 | undo moves exactly the event's card back into the deck at the clamped original index, keeps every invariant, and takes exactly one point back when there is one, keeping round score minus pending events unchanged |
| Recap.UndoReversesMarkCorrect | bgb-cpg/GameStore.swift:910-920 | undoing the answer just marked correct puts its card back on top and restores the deck and the events, also when that answer cleared the deck and ended the turn, and after skips |
| Recap.HighlightCount | bgb-cpg/GameStore.swift:943 | each event is either highlighted or not; with all highlighted, nothing is un-highlighted |
| Recap.HighlightPartition | bgb-cpg/GameStore.swift:943 | the highlighted and un-highlighted events split the turn's cards |
| Recap.ReturnAll | bgb-cpg/GameStore.swift:947-965 | every un-highlighted card goes to the bottom of the deck in event order, and the acting team loses one point per card, floored at zero (only when the round has an entry); the other team is untouched |
| Recap.ReturnAllKeepsNonNegative | bgb-cpg/GameStore.swift:947-965 | returning cards keeps scores and statistics non-negative |
| Recap.SettleRecap | bgb-cpg/GameStore.swift:940-975 | the events are cleared, un-highlighted cards return to the deck, highlighted ones become final, and the bonus is cleared exactly when an answer was switched off and its holder is the clue-giver |
| Recap.RecapDoneNextHandoff | bgb-cpg/GameStore.swift:940-990 | after the recap the events are empty and the un-highlighted cards sit at the tail; an empty deck goes to round-end routing, otherwise the other team is handed the next turn |
| Recap.RecapDoneKeepsCards | bgb-cpg/GameStore.swift:943-975 | closing the recap keeps card conservation |
| Recap.RecapDoneKeepsSettledScores | bgb-cpg/GameStore.swift:976-989 | handing over changes no score or statistic |
| Recap.RecapDoneKeepsNonNegative | bgb-cpg/GameStore.swift:940-990 | closing the recap keeps scores and statistics non-negative |
| Recap.RecapDoneRouting | bgb-cpg/GameStore.swift:968-989 | the round ends exactly when the deck is empty (game end in round three); otherwise the stage is the hand-off and, with no bonus holder left, the other team plays; a forfeited bonus is cleared |
| Recap.FinishTurnScores | bgb-cpg/GameStore.swift:880-891 | finishing a turn always leaves a score entry for the round and keeps round, team and events |
| Recap.RecapScoresHighlighted | bgb-cpg/GameStore.swift:943-965 | finishing a turn and closing its recap credits the acting team with exactly the number of highlighted answers, in both scores |
| Intake.AddUnique | bgb-cpg/GameStore.swift:543-550 | a card is appended only when its title is new ignoring case; titles stay distinct |
| Intake.AddAllUnique | bgb-cpg/GameStore.swift:543-550 | the earlier cards stay a prefix, only given cards are appended, the title set grows by exactly the given titles, and titles stay distinct |
| Intake.DrawExtras | bgb-cpg/GameStore.swift:552-557 | at most the needed number of cards is drawn; it stops early only when the pool has nothing left to offer; titles stay distinct |
| Intake.WordCount | bgb-cpg/GameStore.swift:294-296 | the number of whitespace-separated words is the number of word starts |
| Intake.ManualWords | bgb-cpg/GameStore.swift:495-497 | no more words than entries, every kept word non-empty, and none lost when no entry is blank |
| Intake.ManualWordsContents | bgb-cpg/GameStore.swift:495-497 | a word is kept exactly when it is the trim of some non-blank entry |
| Intake.ManualWordsAllKept | bgb-cpg/GameStore.swift:495-497 | with no blank entry, the k-th word is the trim of the k-th entry |
| Intake.ManualWordsAppend | bgb-cpg/GameStore.swift:495-497 | the words keep entry order: the words of two lists in a row are the first list's words followed by the second's |
| Intake.ToSetCardinality | bgb-cpg/GameStore.swift:516 | a list has as many distinct elements as entries exactly when no entry repeats |
| Intake.Chosen | bgb-cpg/GameStore.swift:511 | the chosen cards are exactly the offered candidates whose id is selected |
| Intake.Validate | bgb-cpg/GameStore.swift:488-526 | the verdict follows the store's check order: pick mismatch, then (when manual words are required) incomplete, too long, repeated, clashing with the game or the picks; each verdict holds exactly when its check is the first to fail, and acceptance exactly when none does |
| Intake.NatToStringRoundTrip | bgb-cpg/GameStore.swift:577 | the decimal rendering of a number reads back as that number |
| Intake.DefaultPlayerName | bgb-cpg/GameStore.swift:574-578 | the default name is "Player " followed by the player's position in decimal, and is never blank |
| Intake.NextIntakeTeam | bgb-cpg/GameStore.swift:586-591 | team A exactly while it holds fewer than half the expected players (rounded down) |
| Intake.AdvanceIntakePointer | bgb-cpg/GameStore.swift:580-603 | while players remain, the next hand-off is for the team `NextIntakeTeam` chooses; afterwards round one starts with the starting team |
| Intake.IntakeProceed | bgb-cpg/GameStore.swift:257-265 | name entry starts for the team being collected with empty staging buffers |
| Intake.TogglePick | bgb-cpg/GameStore.swift:476-486 | exactly that candidate's selection flips |
| Intake.TogglePickTwice | bgb-cpg/GameStore.swift:476-486 | toggling the same candidate twice restores the state |
| Intake.ManualCards | bgb-cpg/GameStore.swift:559-565 | each manual word becomes a card with subject "Manual", in order |
| Intake.NewPlayer | bgb-cpg/GameStore.swift:529-531 | the player gets the trimmed name, or the default name when it is blank, so the name is never blank |
| Intake.GrowCards | bgb-cpg/GameStore.swift:539-565 | the earlier cards stay a prefix, titles stay distinct ignoring case, and every chosen pick and every manual word ends up present ignoring case |
| Intake.SubmitPlayerAndWords | bgb-cpg/GameStore.swift:488-572 | a pick mismatch clears the error and changes nothing else; another refusal records its error and changes nothing else; acceptance adds the player, fresh statistics and the grown card list, clears the pending manual words and the error message, and moves intake on |
| Intake.SubmitRefused | bgb-cpg/GameStore.swift:488-526 | a refused submission leaves roster, team orders and cards alone |
| Intake.SubmitAccepted | bgb-cpg/GameStore.swift:529-571 | an accepted submission appends one player to exactly their team's order, keeps earlier cards as a prefix and titles distinct, includes every pick and manual word, and gives the player fresh statistics |
| Intake.TeamFillSplitsInHalves | bgb-cpg/GameStore.swift:580-591 | over a whole intake, team A gets the first half of the players (rounded down, at least the first player) and team B the rest |
| SettingsRules.IsNameValid | bgb-cpg/Views_SettingsIntake.swift:205-208 | valid exactly when the name is not blank and, trimmed and lower-cased, differs from every saved player's lower-cased name |
| SettingsRules.NameValidationError | bgb-cpg/Views_SettingsIntake.swift:187-203 | no message before typing starts; afterwards no message exactly for a valid name, and the blank-name message takes precedence over the taken-name one |
| SettingsRules.NameClashIgnoresCase | bgb-cpg/Views_SettingsIntake.swift:205-208 | "Alex" is refused once "alex" is saved |
| SettingsRules.NameTakenMessage | bgb-cpg/Views_SettingsIntake.swift:197-200 | typing "Alex" after "alex" shows the name-taken message |
| SettingsRules.FreshNameAccepted | bgb-cpg/Views_SettingsIntake.swift:205-208 | "Sam" is accepted after "alex" |
| SettingsRules.ValidNameIsKept | bgb-cpg/GameStore.swift:529-531 | a player submitted under a valid name keeps that trimmed name, which is new to the roster ignoring case |
| SettingsRules.ToggleSubject | bgb-cpg/Views_SettingsIntake.swift:133-138 | choosing "Everything" selects only it; another subject drops "Everything" and flips itself; the selection is never empty, and holds "Everything" only alone |
| SettingsRules.ToggleSubjectTwice | bgb-cpg/Views_SettingsIntake.swift:133-138 | tapping the same specific subject twice restores a selection without "Everything" |
| SettingsRules.Flip | bgb-cpg/Views_SettingsIntake.swift:505-509 | only the tapped element's membership changes |
| SettingsRules.ToggleCategory | bgb-cpg/Views_SettingsIntake.swift:505-512 | the category's membership flips; an emptied selection falls back to the first offered category, so it is never empty while categories are offered |
| SettingsRules.ToggleCategoryTwice | bgb-cpg/Views_SettingsIntake.swift:505-512 | tapping twice restores the selection unless the first tap emptied it |
| SettingsRules.UpdateRange | bgb-cpg/Views_SettingsIntake.swift:596-601 | the range is written back from the thumbs, reporting a change exactly when it differed |
| SettingsRules.UpdateRangeIdempotent | bgb-cpg/Views_SettingsIntake.swift:596-601 | a second write-back changes nothing |
| SettingsRules.OnLowerChanged | bgb-cpg/Views_SettingsIntake.swift:564-572 | the lower thumb takes the value, the upper one follows it up when passed, so lower ≤ upper and the range matches |
| SettingsRules.OnUpperChanged | bgb-cpg/Views_SettingsIntake.swift:582-590 | the upper thumb takes the value, the lower one follows it down when passed, so lower ≤ upper and the range matches |
| SettingsRules.DragsKeepRangeOrdered | bgb-cpg/Views_SettingsIntake.swift:564-590 | after any series of drags the thumbs are ordered and the range equals them |
| SettingsRules.PicksSubmitEnabled | bgb-cpg/Views_SettingsIntake.swift:334-340 | the button is enabled exactly when the selection has the configured number of picks |
| SettingsRules.PicksGateMatchesStore | bgb-cpg/GameStore.swift:490-493 | when the button's count and the store's count agree, the button's gate and the store's pick check agree |
| Summary.MaxStreakCount | bgb-cpg/GameStore.swift:1072-1079 | the result is the length of some run of positive entries and no such run is longer |
| Summary.StreakOfCorrects | bgb-cpg/GameStore.swift:1063-1064 | on a turn where every answer counts, the streak is the whole turn |
| Summary.IsTie | bgb-cpg/GameStore.swift:1083 | a tie exactly when both teams' cumulative scores are equal |
| Summary.Tokens | bgb-cpg/GameStore.swift:1101-1115 | one token per lower-cased letter-and-digit run, in order; all required except a leading article when articles are ignored |
| Summary.TokensKeepEveryLetter | bgb-cpg/GameStore.swift:1101-1104 | the tokens concatenated give exactly the title's lower-cased letters and digits, one token per word start |
| Summary.LeadingArticleIsOptional | bgb-cpg/GameStore.swift:1107-1112 | "The Who" yields an optional "the" and a required "who" |
| Text.Trim | bgb-cpg/GameStore.swift:529 | the result is a contiguous slice with only whitespace cut off at both ends, and empty exactly for blank input |
| Text.TrimIdempotent | bgb-cpg/GameStore.swift:529 | trimming twice is trimming once |
| Text.Lower | bgb-cpg/GameStore.swift:544 | lower-casing keeps length and maps each character |
| Text.SplitKeepsContent | bgb-cpg/GameStore.swift:295 | splitting drops exactly the separators: the parts concatenated are the kept characters |
| Text.SplitCountsWordStarts | bgb-cpg/GameStore.swift:295 | the number of parts is the number of word starts |

## Left out

- I/O and presentation: logging, haptics, SwiftUI layout, the highlight strings of
  `roundHighlights`, colours, and the confirmation-dialog flags.
- Wall-clock time: the `Date()` timestamps and the `Timer` subscription. Durations
  are caller-supplied whole seconds and the timer is an explicit `Tick` event.
- Floating point: `TimeInterval` arithmetic. Durations and the average are integers,
  and the average is rounded down.
- Randomness and content: `shuffled`, `randomElement`, `drawPremadeCard`,
  `preloadPremadeTitles`, `generateCandidatesFromSharedPool` and `reroll`. They are
  replaced by caller-supplied permutations, draws and candidate lists.
- The pack and category set-up (`startIntakeWithPack`, the custom pack builder,
  `categoryUniverse`), and the network client for titles. They are configuration and
  I/O, not game logic.
- Unicode: whitespace, letters, digits and case mapping are their ASCII subsets.
- The settings fields and `Stage` cases the store uses but the value types do not
  declare. Settings are modelled as plain counts, and `Stage` holds the cases the
  store assigns.
- Pure stage setters that carry no logic (`showHowTo`, `startSettings`,
  `showGameStats`, `hideGameStats`, `newGame`, the cancel and show dialog helpers),
  and `intakeSaveNameAndShowPicks`/`prepareManualWordEntry`, which only set up
  buffers around candidate generation.
- Rematch: a view refers to it, but the store does not implement it.
- The picks submit button calls `submitPlayerAndPicks`, which the store does not
  define. Only its enabling rule is modelled.
- `WikipediaCategory` values: the category toggle is generic in the element type.
- The range slider's step and bounds: thumbs are unbounded integers.
- Models.AverageAnswerTime: is rounded down to whole seconds, where the source divides floating-point time.
- Intake.DrawExtras: assumes only that a draw avoids the titles it is given; which title is drawn is left open.
