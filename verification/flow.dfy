/**
 * Round and turn orchestration: choosing the next clue-giver, ending a
 * round when the deck runs out, and advancing round one -> two -> three ->
 * game end with a fresh shuffle of the master card list.
 *
 * A shuffle is any permutation of the master list, supplied by the caller.
 */
module Flow {
  import opened Wrappers
  import opened Models
  import opened Deck
  import opened Store

  /** `shuffled` is a reordering of `cards`. */
  predicate IsShuffleOf(shuffled: seq<Card>, cards: seq<Card>) {
    multiset(shuffled) == multiset(cards)
  }

  /** The player whose turn it is after `turns` turns of a team with roster `order`. */
  function RotationPick(order: seq<Player>, turns: nat): (p: Player)
    requires |order| > 0
    ensures p in order
    ensures p == order[turns % |order|]
  {
    order[turns % |order|]
  }

  /**
   * Picks the clue-giver: the bonus-time holder first (taking their team
   * with them), otherwise the current team's roster entry at
   * `turns taken % roster size`, or nobody for an empty roster.
   */
  function SetNextClueGiverIfNeeded(s: GameStore): (r: GameStore)
    ensures s.bonusTimePlayer.Some? ==>
      r.clueGiver == s.bonusTimePlayer && r.currentTeam == s.bonusTimePlayer.value.team
    ensures s.bonusTimePlayer.None? ==> r.currentTeam == s.currentTeam
    ensures s.bonusTimePlayer.None? && |s.TeamOrder(s.currentTeam)| == 0 ==> r.clueGiver.None?
    ensures s.bonusTimePlayer.None? && |s.TeamOrder(s.currentTeam)| > 0 ==>
      r.clueGiver == Some(RotationPick(s.TeamOrder(s.currentTeam), s.TurnsTaken(s.currentTeam)))
    ensures r == s.(clueGiver := r.clueGiver, currentTeam := r.currentTeam)
  {
    match s.bonusTimePlayer
    case Some(bonusPlayer) => s.(clueGiver := Some(bonusPlayer), currentTeam := bonusPlayer.team)
    case None =>
      var order := if s.currentTeam == A then s.teamAOrder else s.teamBOrder;
      if |order| == 0 then s.(clueGiver := None)
      else
        var turnsForTeam := if s.currentTeam == A then s.teamATurns else s.teamBTurns;
        s.(clueGiver := Some(order[turnsForTeam % |order|]))
  }

  /** The clue-givers of `n` consecutive turns of one team, starting after `turns` turns. */
  function RotationWindow(order: seq<Player>, turns: nat, n: nat): (w: seq<Player>)
    requires |order| > 0
    ensures |w| == n
  {
    if n == 0 then [] else RotationWindow(order, turns, n - 1) + [RotationPick(order, turns + n - 1)]
  }

  lemma ModUnique(a: int, m: int, q: int, r: int)
    requires m > 0 && 0 <= r < m && a == q * m + r
    ensures a % m == r
  {
    var q', r' := a / m, a % m;
    assert a == q' * m + r';
    assert (q - q') * m == r' - r;
    MultipleAtLeast(q - q', m);
    MultipleAtLeast(q' - q, m);
  }

  lemma MultipleAtLeast(d: int, m: int)
    requires m > 0
    ensures d >= 1 ==> d * m >= m
  {
    if d >= 1 {
      assert d * m == (d - 1) * m + m;
    }
  }

  lemma ModSucc(a: nat, m: nat)
    requires m > 0
    ensures (a + 1) % m == if a % m + 1 == m then 0 else a % m + 1
  {
    var q := a / m;
    var r := a % m;
    assert a == q * m + r;
    if r + 1 == m {
      ModUnique(a + 1, m, q + 1, 0);
    } else {
      ModUnique(a + 1, m, q, r + 1);
    }
  }

  /** Within one lap the roster index advances by one per turn and wraps once. */
  lemma {:induction false} RotationIndex(turns: nat, n: nat, m: nat)
    requires m > 0 && n <= m
    ensures var t := turns % m;
      (turns + n) % m == if t + n < m then t + n else t + n - m
  {
    if n > 0 {
      RotationIndex(turns, n - 1, m);
      ModSucc(turns + n - 1, m);
    }
  }

  /** A window of turns reads the roster, doubled, from the current index on. */
  lemma {:induction false} RotationWindowIsRotation(order: seq<Player>, turns: nat, n: nat)
    requires |order| > 0 && n <= |order|
    ensures RotationWindow(order, turns, n) == (order + order)[turns % |order|..turns % |order| + n]
  {
    if n > 0 {
      var t := turns % |order|;
      var doubled := order + order;
      RotationWindowIsRotation(order, turns, n - 1);
      RotationIndex(turns, n - 1, |order|);
      assert doubled[t + n - 1] == order[(turns + n - 1) % |order|];
      assert doubled[t..t + n] == doubled[t..t + n - 1] + [doubled[t + n - 1]];
    }
  }

  /**
   * Round-robin fairness: any `|order|` consecutive turns of a team give
   * every rostered player exactly one turn; starting from zero turns they
   * come in intake order.
   */
  lemma RoundRobinFairness(order: seq<Player>, turns: nat)
    requires |order| > 0
    ensures multiset(RotationWindow(order, turns, |order|)) == multiset(order)
    ensures turns % |order| == 0 ==> RotationWindow(order, turns, |order|) == order
  {
    var t := turns % |order|;
    var doubled := order + order;
    RotationWindowIsRotation(order, turns, |order|);
    assert doubled[t..t + |order|] == order[t..] + order[..t];
    assert order == order[..t] + order[t..];
  }

  /** Ends the round when the deck is empty (game end after round three); otherwise back to the handoff. */
  function EndRoundIfNeeded(s: GameStore): (r: GameStore)
    ensures |s.deck| == 0 && s.currentRound == Three ==> r.stage == GameEnd
    ensures |s.deck| == 0 && s.currentRound != Three ==> r.stage == RoundEnd
    ensures |s.deck| > 0 ==> r.stage == TurnHandoff
    ensures r == s.(stage := r.stage)
  {
    if |s.deck| == 0 then
      if s.currentRound == Three then s.(stage := GameEnd) else s.(stage := RoundEnd)
    else s.(stage := TurnHandoff)
  }

  /** Deals the round's deck: the whole master list in the caller's shuffled order. */
  function ResetDeckForRound(s: GameStore, shuffled: seq<Card>): (r: GameStore)
    requires IsShuffleOf(shuffled, s.allCards)
    ensures multiset(r.deck) == multiset(r.allCards) && |r.deck| == |r.allCards|
    ensures r.thisTurnCorrect == [] ==> Conserved(r)
    ensures r == s.(deck := r.deck, banked := [])
  {
    assert |multiset(shuffled)| == |multiset(s.allCards)|;
    s.(deck := shuffled, banked := [])
  }

  /** Starts a round: deals a deck if none is dealt yet, then hands over to the next clue-giver. */
  function StartRound(s: GameStore, shuffled: seq<Card>): (r: GameStore)
    requires IsShuffleOf(shuffled, s.allCards)
    ensures |s.deck| == 0 ==> IsShuffleOf(r.deck, s.allCards) && r.banked == []
    ensures |s.deck| > 0 ==> r.deck == s.deck && r.banked == s.banked
    ensures r.stage == TurnHandoff
    ensures r.currentRound == s.currentRound && r.allCards == s.allCards
    ensures s.thisTurnCorrect == [] && (|s.deck| > 0 ==> Conserved(s)) ==> Conserved(r)
  {
    var dealt := if |s.deck| == 0 then ResetDeckForRound(s, shuffled) else s;
    SetNextClueGiverIfNeeded(dealt.(stage := TurnHandoff))
  }

  function NextRound(r: RoundPhase): RoundPhase
    requires r != Three
  {
    if r == One then Two else Three
  }

  /**
   * Advances round one -> two -> three; after round three the game ends and
   * nothing else changes. A new round re-deals the whole master list and
   * gives the starting team the first turn (unless a bonus holder takes it).
   */
  function ProceedToNextRoundOrEnd(s: GameStore, shuffled: seq<Card>): (r: GameStore)
    requires IsShuffleOf(shuffled, s.allCards)
    ensures s.currentRound == Three ==> r == s.(stage := GameEnd)
    ensures s.currentRound != Three ==>
      && r.currentRound.RawValue() == s.currentRound.RawValue() + 1
      && r.stage == RoundIntro
      && IsShuffleOf(r.deck, s.allCards) && r.banked == []
      && (s.bonusTimePlayer.None? ==> r.currentTeam == s.settings.startingTeam)
      && r.allCards == s.allCards && r.thisTurnCorrect == s.thisTurnCorrect
      && r.roundScores == s.roundScores && r.cumulativeA == s.cumulativeA && r.cumulativeB == s.cumulativeB
    ensures s.currentRound != Three && s.thisTurnCorrect == [] ==> Conserved(r)
  {
    if s.currentRound == Three then s.(stage := GameEnd)
    else
      var advanced := s.(currentRound := NextRound(s.currentRound));
      var dealt := ResetDeckForRound(advanced, shuffled);
      SetNextClueGiverIfNeeded(dealt.(currentTeam := s.settings.startingTeam)).(stage := RoundIntro)
  }

  /** Three advances from round one pass through rounds two and three and then end the game. */
  lemma RoundsEndAfterThree(s: GameStore, d1: seq<Card>, d2: seq<Card>, d3: seq<Card>)
    requires s.currentRound == One
    requires IsShuffleOf(d1, s.allCards) && IsShuffleOf(d2, s.allCards) && IsShuffleOf(d3, s.allCards)
    ensures var s1 := ProceedToNextRoundOrEnd(s, d1);
      s1.currentRound == Two && s1.stage == RoundIntro
      && var s2 := ProceedToNextRoundOrEnd(s1, d2);
      s2.currentRound == Three && s2.stage == RoundIntro
      && var s3 := ProceedToNextRoundOrEnd(s2, d3);
      s3.currentRound == Three && s3.stage == GameEnd && s3.deck == s2.deck
  {
  }
}
