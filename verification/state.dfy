/**
 * The state of the game store: settings, roster, master card list, the
 * round's deck, scores, statistics, the running turn, bonus time and the
 * intake staging buffers; plus the invariants the transitions keep.
 *
 * `banked` is not a field of the source: it records the cards already
 * finalized as correct earlier in the current round, so that card
 * conservation can be stated as an equality.
 */
module Store {
  import opened Wrappers
  import opened Models
  import opened Deck

  /** The settings the store reads. */
  datatype GameSettings = GameSettings(
    players: nat,
    startingTeam: Team,
    timerSeconds: int,
    picksPerPlayer: nat,
    nonManualWordsPerPlayer: nat,
    manualWordsPerPlayer: nat,
    ignoreLeadingArticle: bool,
    leadingArticles: seq<string>)

  /** Why a player submission was refused with a message. */
  datatype ManualEntryError = Incomplete | TooLong | NotUnique | DuplicatesExisting

  datatype GameStore = GameStore(
    stage: Stage,
    settings: GameSettings,
    // Roster and cards
    players: seq<Player>,
    teamAOrder: seq<Player>,
    teamBOrder: seq<Player>,
    allCards: seq<Card>,
    deck: seq<Card>,
    banked: seq<Card>,
    // Scores and statistics
    roundScores: map<nat, RoundScore>,
    cumulativeA: int,
    cumulativeB: int,
    playerStats: map<nat, PlayerStats>,
    // Round and turn
    currentRound: RoundPhase,
    currentTeam: Team,
    clueGiver: Option<Player>,
    timeRemaining: int,
    turnActive: bool,
    turnPaused: bool,
    skipCount: nat,
    initialDeckSize: nat,
    thisTurnCorrect: seq<CorrectEvent>,
    lastTurnEndReason: TurnEndReason,
    savedBonusTime: int,
    bonusTimePlayer: Option<Player>,
    teamATurns: nat,
    teamBTurns: nat,
    pendingTimerSeconds: int,
    // Intake
    intakeExpectedCount: nat,
    intakeTeamCollecting: Team,
    pendingName: string,
    pendingTeam: Team,
    candidateTitles: seq<Card>,
    selectedPicks: set<nat>,
    pendingManualWords: seq<string>,
    manualEntryError: Option<ManualEntryError>)
  {
    function TeamOrder(t: Team): seq<Player> {
      if t == A then teamAOrder else teamBOrder
    }

    function TurnsTaken(t: Team): nat {
      if t == A then teamATurns else teamBTurns
    }

    function Cumulative(t: Team): int {
      if t == A then cumulativeA else cumulativeB
    }

    /** The score of round `r` for team `t`, zero when the round has no entry yet. */
    function RoundPoints(r: RoundPhase, t: Team): int {
      if r.RawValue() in roundScores then roundScores[r.RawValue()].ForTeam(t) else 0
    }
  }

  /**
   * The declared values of `Settings.default`; the two word counts the store
   * reads but `Settings` does not declare are supplied by the caller.
   */
  function DefaultSettings(nonManualWords: nat, manualWords: nat): GameSettings {
    GameSettings(8, A, 60, 3, nonManualWords, manualWords, true, ["the", "a", "an"])
  }

  /**
   * Going back to the home screen. Without a reset only the stage changes.
   * A full reset restores the default settings and clears the roster, the
   * master card list, the deck, the scores, the statistics and the bonus,
   * back to round one; it leaves the running turn (its events, flags,
   * countdown, skip count and clue-giver), the turn counters and the intake
   * buffers as they were. The banked cards belong to the master list and are
   * cleared with it, so conservation survives exactly when no event of the
   * turn is pending.
   */
  function GoHome(s: GameStore, resetAll: bool, nonManualWords: nat, manualWords: nat): (r: GameStore)
    ensures !resetAll ==> r == s.(stage := Home)
    ensures r.stage == Home
    ensures resetAll ==>
      && r.settings == DefaultSettings(nonManualWords, manualWords)
      && r.players == [] && r.teamAOrder == [] && r.teamBOrder == []
      && r.allCards == [] && r.deck == [] && r.banked == []
      && r.roundScores == map[] && r.Cumulative(A) == 0 && r.Cumulative(B) == 0 && r.playerStats == map[]
      && r.savedBonusTime == 0 && r.bonusTimePlayer.None?
      && r.currentRound == One && r.currentTeam == r.settings.startingTeam
    ensures resetAll ==> r == s.(
      stage := Home, settings := r.settings, players := [], teamAOrder := [], teamBOrder := [],
      allCards := [], deck := [], banked := [], roundScores := map[], cumulativeA := 0, cumulativeB := 0,
      playerStats := map[], savedBonusTime := 0, bonusTimePlayer := None,
      currentRound := One, currentTeam := r.currentTeam)
    ensures resetAll ==> ScoresNonNegative(r) && StatsNonNegative(r)
    ensures resetAll ==> (Conserved(r) <==> s.thisTurnCorrect == [])
  {
    if resetAll then
      var defaults := DefaultSettings(nonManualWords, manualWords);
      var r := s.(
        stage := Home, settings := defaults, players := [], teamAOrder := [], teamBOrder := [],
        allCards := [], deck := [], banked := [], roundScores := map[], cumulativeA := 0, cumulativeB := 0,
        playerStats := map[], savedBonusTime := 0, bonusTimePlayer := None,
        currentRound := One, currentTeam := defaults.startingTeam);
      assert Conserved(r) <==> multiset(EventCards(s.thisTurnCorrect)) == multiset{};
      assert |EventCards(s.thisTurnCorrect)| == |s.thisTurnCorrect|;
      r
    else
      s.(stage := Home)
  }

  function IdOf(p: Option<Player>): Option<nat> {
    match p
    case Some(q) => Some(q.id)
    case None => None
  }

  /** Every card of the master list is in exactly one of: the deck, this turn's events, the banked cards. */
  ghost predicate Conserved(s: GameStore) {
    multiset(s.deck) + multiset(EventCards(s.thisTurnCorrect)) + multiset(s.banked) == multiset(s.allCards)
  }

  /** No team score, per round or cumulative, is negative. */
  ghost predicate ScoresNonNegative(s: GameStore) {
    s.cumulativeA >= 0 && s.cumulativeB >= 0
    && forall k :: k in s.roundScores ==> s.roundScores[k].teamA >= 0 && s.roundScores[k].teamB >= 0
  }

  ghost predicate StatsNonNegative(s: GameStore) {
    forall id :: id in s.playerStats ==> s.playerStats[id].NonNegative()
  }

  /**
   * Bookkeeping of a turn: the cards present at turn start are either still
   * in the deck or among this turn's events; skips plus corrects never exceed
   * the starting deck size, and while the turn is running with at least one
   * skip they stay strictly below it.
   */
  ghost predicate TurnAccounting(s: GameStore) {
    |s.deck| + |s.thisTurnCorrect| == s.initialDeckSize
    && s.skipCount + |s.thisTurnCorrect| <= s.initialDeckSize
    && (s.turnActive && s.skipCount > 0 ==> s.skipCount + |s.thisTurnCorrect| < s.initialDeckSize)
  }

  /** `max(0, x - 1)`: the floored decrement the source applies to scores and counters. */
  function FloorDecrement(x: int): (r: int)
    ensures r >= 0
    ensures x >= 1 ==> r == x - 1
    ensures x < 1 ==> r == 0
  {
    if x - 1 < 0 then 0 else x - 1
  }
}
