/**
 * The value types the game store mutates: teams, round phases and their
 * skip rules, cards, players, correct-answer events, per-round scores and
 * per-player statistics.
 *
 * Identifiers that are UUIDs in the source are `nat`s here; durations that
 * are `TimeInterval`s are whole seconds.
 */
module Models {
  import opened Wrappers

  datatype Team = A | B {
    function Other(): (t: Team)
      ensures t != this
    {
      if this == A then B else A
    }
  }

  /** The three rounds of a game; `RawValue` is the integer key used for per-round scores. */
  datatype RoundPhase = One | Two | Three {

    function RawValue(): nat {
      match this
      case One => 1
      case Two => 2
      case Three => 3
    }

    /** Only round one forbids skipping ("Skips: Not allowed."). */
    predicate SkipsAllowed() {
      this != One
    }
  }

  /** Decodes a raw round number; exactly 1, 2 and 3 name a round, and decoding inverts `RawValue`. */
  function RoundFromRaw(n: int): (r: Option<RoundPhase>)
    ensures r.Some? <==> 1 <= n <= 3
    ensures r.Some? ==> r.value.RawValue() == n
  {
    if n == 1 then Some(One) else if n == 2 then Some(Two) else if n == 3 then Some(Three) else None
  }

  lemma RawValueRoundTrip(r: RoundPhase)
    ensures 1 <= r.RawValue() <= 3
    ensures RoundFromRaw(r.RawValue()) == Some(r)
  {
  }

  datatype SkipMode = Disabled | UnlimitedUntilReturnToStartCard

  datatype SkipsRule = SkipsRule(round1: SkipMode, round2: SkipMode, round3: SkipMode) {
    function ModeFor(r: RoundPhase): SkipMode {
      match r
      case One => round1
      case Two => round2
      case Three => round3
    }
  }

  /** The skip rules of the default settings. */
  const DefaultSkips := SkipsRule(Disabled, UnlimitedUntilReturnToStartCard, UnlimitedUntilReturnToStartCard)

  /** The default skip rules agree with each round's stated skip policy. */
  lemma DefaultSkipsMatchPolicy(r: RoundPhase)
    ensures DefaultSkips.ModeFor(r) == Disabled <==> !r.SkipsAllowed()
    ensures DefaultSkips.ModeFor(r) != Disabled ==> DefaultSkips.ModeFor(r) == UnlimitedUntilReturnToStartCard
  {
  }

  /** The screens the game store moves between. */
  datatype Stage =
    | Home | HowTo | SettingsScreen
    | IntakeHandoff | IntakeName | IntakePicks | IntakeManualWords
    | RoundIntro | TurnHandoff | Turn | TurnPaused | TurnSkipComplete | TurnComplete
    | Recap | RoundEnd | GameEnd | GameStats

  datatype TurnEndReason = TimerExpired | Manual | SkipCycleComplete | CompletedAllCards

  datatype Card = Card(id: nat, title: string, subject: string)

  datatype Player = Player(id: nat, name: string, team: Team)

  /** A correct answer during a turn; `originalIndex` is where the card sat in the deck. */
  datatype CorrectEvent = CorrectEvent(id: nat, card: Card, originalIndex: int, duration: nat, highlighted: bool)

  datatype RoundScore = RoundScore(teamA: int, teamB: int) {
    function Total(): int {
      teamA + teamB
    }

    function ForTeam(t: Team): int {
      if t == A then teamA else teamB
    }
  }

  const ZeroScore := RoundScore(0, 0)

  datatype PlayerStats = PlayerStats(
    id: nat,
    totalCorrectAnswers: int,
    totalTurnTime: int,
    turnsAsClueGiver: int,
    fastestAnswer: Option<int>,
    slowestAnswer: Option<int>)
  {
    /** Counters never below zero. */
    predicate NonNegative() {
      totalCorrectAnswers >= 0 && totalTurnTime >= 0 && turnsAsClueGiver >= 0
    }

    /** Fastest and slowest are set together, and fastest is never slower than slowest. */
    predicate ExtremesOrdered() {
      fastestAnswer.Some? == slowestAnswer.Some?
      && (fastestAnswer.Some? ==> fastestAnswer.value <= slowestAnswer.value)
    }
  }

  function NewStats(playerId: nat): (p: PlayerStats)
    ensures p.id == playerId && p.NonNegative() && p.ExtremesOrdered()
    ensures p.totalCorrectAnswers == 0 && p.totalTurnTime == 0 && p.turnsAsClueGiver == 0
    ensures p.fastestAnswer.None? && p.slowestAnswer.None?
  {
    PlayerStats(playerId, 0, 0, 0, None, None)
  }

  /** The mean answer time, in whole seconds (rounded down); zero before any answer. */
  function AverageAnswerTime(p: PlayerStats): (avg: int)
    ensures p.totalCorrectAnswers <= 0 ==> avg == 0
    ensures p.totalCorrectAnswers > 0 && p.totalTurnTime >= 0 ==>
      0 <= avg && avg * p.totalCorrectAnswers <= p.totalTurnTime < (avg + 1) * p.totalCorrectAnswers
  {
    if p.totalCorrectAnswers > 0 then p.totalTurnTime / p.totalCorrectAnswers else 0
  }

  /** Records one correct answer that took `duration` seconds. */
  function AddCorrectAnswer(p: PlayerStats, duration: nat): (r: PlayerStats)
    ensures r.id == p.id && r.turnsAsClueGiver == p.turnsAsClueGiver
    ensures r.totalCorrectAnswers == p.totalCorrectAnswers + 1
    ensures r.totalTurnTime == p.totalTurnTime + duration
    ensures r.fastestAnswer.Some? && r.slowestAnswer.Some?
    ensures r.fastestAnswer.value <= duration <= r.slowestAnswer.value
    ensures r.fastestAnswer.value == duration || r.fastestAnswer == p.fastestAnswer
    ensures r.slowestAnswer.value == duration || r.slowestAnswer == p.slowestAnswer
    ensures p.fastestAnswer.Some? ==> r.fastestAnswer.value <= p.fastestAnswer.value
    ensures p.slowestAnswer.Some? ==> r.slowestAnswer.value >= p.slowestAnswer.value
    ensures p.NonNegative() ==> r.NonNegative()
    ensures p.ExtremesOrdered() ==> r.ExtremesOrdered()
  {
    var fastest := match p.fastestAnswer
      case Some(current) => if duration < current then duration else current
      case None => duration;
    var slowest := match p.slowestAnswer
      case Some(current) => if duration > current then duration else current
      case None => duration;
    p.(totalCorrectAnswers := p.totalCorrectAnswers + 1,
       totalTurnTime := p.totalTurnTime + duration,
       fastestAnswer := Some(fastest),
       slowestAnswer := Some(slowest))
  }

  /** Records that the player took one turn as clue-giver. */
  function AddTurn(p: PlayerStats): (r: PlayerStats)
    ensures r.turnsAsClueGiver == p.turnsAsClueGiver + 1
    ensures r.(turnsAsClueGiver := p.turnsAsClueGiver) == p
  {
    p.(turnsAsClueGiver := p.turnsAsClueGiver + 1)
  }

  /**
   * Reverses the counters of one correct answer (undo or recap correction):
   * both counters floored at zero; fastest and slowest are left as they are.
   */
  function RemoveCorrectAnswer(p: PlayerStats, duration: nat): (r: PlayerStats)
    ensures r.totalCorrectAnswers >= 0 && r.totalTurnTime >= 0
    ensures p.totalCorrectAnswers >= 1 ==> r.totalCorrectAnswers == p.totalCorrectAnswers - 1
    ensures p.totalTurnTime >= duration ==> r.totalTurnTime == p.totalTurnTime - duration
    ensures p.totalCorrectAnswers < 1 ==> r.totalCorrectAnswers == 0
    ensures p.totalTurnTime < duration ==> r.totalTurnTime == 0
    ensures r.(totalCorrectAnswers := p.totalCorrectAnswers, totalTurnTime := p.totalTurnTime) == p
    ensures p.NonNegative() ==> r.NonNegative()
  {
    p.(totalCorrectAnswers := if p.totalCorrectAnswers - 1 < 0 then 0 else p.totalCorrectAnswers - 1,
       totalTurnTime := if p.totalTurnTime - duration < 0 then 0 else p.totalTurnTime - duration)
  }

  /** Removing an answer right after adding it restores both counters of non-negative stats. */
  lemma RemoveUndoesAdd(p: PlayerStats, duration: nat)
    requires p.NonNegative()
    ensures var r := RemoveCorrectAnswer(AddCorrectAnswer(p, duration), duration);
      r.totalCorrectAnswers == p.totalCorrectAnswers && r.totalTurnTime == p.totalTurnTime
      && r.turnsAsClueGiver == p.turnsAsClueGiver
  {
  }

  /** Statistics after recording each of `ds`, oldest first. */
  function ObserveAll(p: PlayerStats, ds: seq<nat>): PlayerStats
    decreases |ds|
  {
    if |ds| == 0 then p else AddCorrectAnswer(ObserveAll(p, ds[..|ds| - 1]), ds[|ds| - 1])
  }

  function Sum(ds: seq<nat>): nat {
    if |ds| == 0 then 0 else Sum(ds[..|ds| - 1]) + ds[|ds| - 1]
  }

  function Min(ds: seq<nat>): nat
    requires |ds| > 0
  {
    if |ds| == 1 then ds[0]
    else var m := Min(ds[..|ds| - 1]); if ds[|ds| - 1] < m then ds[|ds| - 1] else m
  }

  function Max(ds: seq<nat>): nat
    requires |ds| > 0
  {
    if |ds| == 1 then ds[0]
    else var m := Max(ds[..|ds| - 1]); if ds[|ds| - 1] > m then ds[|ds| - 1] else m
  }

  /**
   * From fresh statistics, any sequence of answers leaves the count, the total time,
   * and the fastest and slowest answers equal to the count, sum, minimum and maximum.
   */
  lemma {:induction false} ObserveAllSummarises(id: nat, ds: seq<nat>)
    ensures var p := ObserveAll(NewStats(id), ds);
      p.totalCorrectAnswers == |ds| && p.totalTurnTime == Sum(ds) && p.turnsAsClueGiver == 0
      && (|ds| == 0 ==> p.fastestAnswer.None? && p.slowestAnswer.None?)
      && (|ds| > 0 ==> p.fastestAnswer == Some(Min(ds)) && p.slowestAnswer == Some(Max(ds)))
      && p.ExtremesOrdered()
    decreases |ds|
  {
    if |ds| > 0 {
      ObserveAllSummarises(id, ds[..|ds| - 1]);
    }
  }
}
