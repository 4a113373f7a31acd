/**
 * Player intake: the hand-off prompt, toggling candidate picks, validating
 * and submitting one player with their words, and advancing to the next
 * player (team A is filled up to half the expected players first).
 *
 * The master card list is kept free of titles that are equal ignoring
 * case. Card and player identifiers are supplied by the caller; drawing a
 * replacement card from the shared pool is a caller-supplied function that
 * only has to avoid the titles it is given.
 */
module Intake {
  import opened Wrappers
  import opened Text
  import opened Models
  import opened Store

  /** The lower-cased titles of `cards`. */
  function Titles(cards: seq<Card>): set<string> {
    set c | c in cards :: Lower(c.title)
  }

  /** No two cards share a title ignoring case. */
  predicate DistinctTitles(cards: seq<Card>) {
    forall i, j :: 0 <= i < j < |cards| ==> Lower(cards[i].title) != Lower(cards[j].title)
  }

  /** Appends `c` unless its title is already present ignoring case. */
  function AddUnique(cards: seq<Card>, c: Card): (r: seq<Card>)
    ensures Lower(c.title) !in Titles(cards) ==> r == cards + [c]
    ensures Lower(c.title) in Titles(cards) ==> r == cards
    ensures Titles(r) == Titles(cards) + {Lower(c.title)}
    ensures DistinctTitles(cards) ==> DistinctTitles(r)
  {
    if Lower(c.title) in Titles(cards) then cards
    else
      assert forall i :: 0 <= i < |cards| ==> Lower(cards[i].title) in Titles(cards);
      cards + [c]
  }

  /** Appends each of `cs` in order, skipping titles already present ignoring case. */
  function AddAllUnique(cards: seq<Card>, cs: seq<Card>): (r: seq<Card>)
    decreases |cs|
    ensures |cards| <= |r| && r[..|cards|] == cards
    ensures forall k :: |cards| <= k < |r| ==> r[k] in cs
    ensures Titles(r) == Titles(cards) + Titles(cs)
    ensures DistinctTitles(cards) ==> DistinctTitles(r)
  {
    if |cs| == 0 then cards
    else
      var next := AddUnique(cards, cs[0]);
      var r := AddAllUnique(next, cs[1..]);
      AddAllUniqueStep(cards, cs, next, r);
      r
  }

  /** Adding one card and then the rest gives what the whole list promises. */
  lemma AddAllUniqueStep(cards: seq<Card>, cs: seq<Card>, next: seq<Card>, r: seq<Card>)
    requires |cs| > 0 && next == AddUnique(cards, cs[0])
    requires |next| <= |r| && r[..|next|] == next
    requires forall k :: |next| <= k < |r| ==> r[k] in cs[1..]
    requires Titles(r) == Titles(next) + Titles(cs[1..])
    requires DistinctTitles(next) ==> DistinctTitles(r)
    ensures |cards| <= |r| && r[..|cards|] == cards
    ensures forall k :: |cards| <= k < |r| ==> r[k] in cs
    ensures Titles(r) == Titles(cards) + Titles(cs)
    ensures DistinctTitles(cards) ==> DistinctTitles(r)
  {
    assert Titles(cs) == {Lower(cs[0].title)} + Titles(cs[1..]) by {
      assert cs == [cs[0]] + cs[1..];
    }
    PrefixTrans(cards, next, r);
    forall k | |cards| <= k < |r| ensures r[k] in cs {
      if k < |next| {
        assert r[k] == next[k] == cs[0];
      } else {
        assert r[k] in cs[1..];
      }
    }
  }

  /** Being a prefix is transitive. */
  lemma PrefixTrans(a: seq<Card>, b: seq<Card>, c: seq<Card>)
    requires |a| <= |b| && b[..|a|] == a
    requires |b| <= |c| && c[..|b|] == b
    ensures |a| <= |c| && c[..|a|] == a
  {
    assert c[..|a|] == c[..|b|][..|a|];
  }

  /** A draw from the shared pool never returns a title it was asked to avoid. */
  ghost predicate DrawAvoids(draw: set<string> -> Option<Card>) {
    forall avoid: set<string> :: draw(avoid).Some? ==> Lower(draw(avoid).value.title) !in avoid
  }

  /** Draws up to `need` replacement cards, each avoiding every title present so far; stops early when the pool has none. */
  function DrawExtras(cards: seq<Card>, need: nat, draw: set<string> -> Option<Card>): (r: seq<Card>)
    requires DrawAvoids(draw)
    decreases need
    ensures |cards| <= |r| <= |cards| + need && r[..|cards|] == cards
    ensures |r| < |cards| + need ==> draw(Titles(r)).None?
    ensures DistinctTitles(cards) ==> DistinctTitles(r)
  {
    if need == 0 then cards
    else match draw(Titles(cards))
      case None => cards
      case Some(c) => DrawExtras(AddUnique(cards, c), need - 1, draw)
  }

  /** The number of whitespace-separated words of `text`. */
  function WordCount(text: string): (n: nat)
    ensures n == WordStarts(text, Whitespace, true)
  {
    SplitCountsWordStarts(text, Whitespace);
    |Split(text, Whitespace)|
  }

  /** The manual words as entered, trimmed, with blank entries dropped. */
  function ManualWords(pending: seq<string>): (r: seq<string>)
    ensures |r| <= |pending|
    ensures forall k :: 0 <= k < |r| ==> r[k] != []
    ensures (forall k :: 0 <= k < |pending| ==> !IsBlank(pending[k])) ==> |r| == |pending|
  {
    if |pending| == 0 then []
    else
      var w := Trim(pending[0]);
      (if w == [] then [] else [w]) + ManualWords(pending[1..])
  }

  /** A word is kept exactly when it is the trim of a non-blank entry. */
  lemma {:induction false} ManualWordsContents(pending: seq<string>, w: string)
    ensures w in ManualWords(pending) <==> exists j :: 0 <= j < |pending| && !IsBlank(pending[j]) && w == Trim(pending[j])
  {
    if |pending| > 0 {
      var rest := pending[1..];
      ManualWordsContents(rest, w);
      var head := if Trim(pending[0]) == [] then [] else [Trim(pending[0])];
      assert ManualWords(pending) == head + ManualWords(rest);
      if w in ManualWords(pending) {
        if w in head {
          assert !IsBlank(pending[0]) && w == Trim(pending[0]);
        } else {
          var j :| 0 <= j < |rest| && !IsBlank(rest[j]) && w == Trim(rest[j]);
          assert pending[j + 1] == rest[j];
        }
      }
      if exists j :: 0 <= j < |pending| && !IsBlank(pending[j]) && w == Trim(pending[j]) {
        var j :| 0 <= j < |pending| && !IsBlank(pending[j]) && w == Trim(pending[j]);
        if j > 0 {
          assert rest[j - 1] == pending[j];
        }
      }
    }
  }

  /** With no blank entry, every entry is kept, trimmed, in entry order. */
  lemma {:induction false} ManualWordsAllKept(pending: seq<string>)
    requires forall k :: 0 <= k < |pending| ==> !IsBlank(pending[k])
    ensures |ManualWords(pending)| == |pending|
    ensures forall k :: 0 <= k < |pending| ==> ManualWords(pending)[k] == Trim(pending[k])
  {
    if |pending| > 0 {
      ManualWordsAllKept(pending[1..]);
      ManualWordsAllKeptStep(pending);
    }
  }

  lemma ManualWordsAllKeptStep(pending: seq<string>)
    requires |pending| > 0 && !IsBlank(pending[0])
    requires var rest := pending[1..];
      |ManualWords(rest)| == |rest| && forall k :: 0 <= k < |rest| ==> ManualWords(rest)[k] == Trim(rest[k])
    ensures |ManualWords(pending)| == |pending|
    ensures forall k :: 0 <= k < |pending| ==> ManualWords(pending)[k] == Trim(pending[k])
  {
    var rest := pending[1..];
    var r, tail := ManualWords(pending), ManualWords(rest);
    assert Trim(pending[0]) != [];
    assert r == [Trim(pending[0])] + tail;
    forall k | 0 <= k < |pending| ensures r[k] == Trim(pending[k]) {
      if k > 0 {
        var j := k - 1;
        assert r[k] == tail[j] == Trim(rest[j]);
        assert rest[j] == pending[k];
      }
    }
  }

  /** Entries are kept in entry order: the words of two lists one after the other are the two lists' words. */
  lemma {:induction false} ManualWordsAppend(a: seq<string>, b: seq<string>)
    ensures ManualWords(a + b) == ManualWords(a) + ManualWords(b)
  {
    if |a| > 0 {
      var ab := a + b;
      assert ab[1..] == a[1..] + b && ab[0] == a[0];
      var w := Trim(a[0]);
      var head := if w == [] then [] else [w];
      ManualWordsAppend(a[1..], b);
      var x, y := ManualWords(a[1..]), ManualWords(b);
      assert ManualWords(ab) == head + (x + y);
      assert ManualWords(a) == head + x;
      assert head + (x + y) == (head + x) + y;
    } else {
      assert a + b == b;
    }
  }

  function LowerAll(ws: seq<string>): (r: seq<string>)
    ensures |r| == |ws| && forall k :: 0 <= k < |ws| ==> r[k] == Lower(ws[k])
  {
    seq(|ws|, k requires 0 <= k < |ws| => Lower(ws[k]))
  }

  /** The set of the elements of `xs`, built one element at a time. */
  function ToSet(xs: seq<string>): (r: set<string>)
    ensures forall x :: x in r <==> x in xs
  {
    if |xs| == 0 then {} else ToSet(xs[..|xs| - 1]) + {xs[|xs| - 1]}
  }

  predicate NoDuplicates(xs: seq<string>) {
    forall i, j :: 0 <= i < j < |xs| ==> xs[i] != xs[j]
  }

  /** Appending an element keeps a list repetition-free exactly when the element is new. */
  lemma NoDuplicatesSnoc(init: seq<string>, last: string)
    ensures NoDuplicates(init + [last]) <==> NoDuplicates(init) && last !in init
  {
    var xs := init + [last];
    if NoDuplicates(xs) {
      forall i, j | 0 <= i < j < |init| ensures init[i] != init[j] {
        assert xs[i] == init[i] && xs[j] == init[j];
      }
    }
    if last in init {
      var i :| 0 <= i < |init| && init[i] == last;
      assert xs[i] == xs[|init|];
    }
  }

  /** A list has as many distinct elements as entries exactly when no entry repeats. */
  lemma {:induction false} ToSetCardinality(xs: seq<string>)
    ensures |ToSet(xs)| <= |xs|
    ensures |ToSet(xs)| == |xs| <==> NoDuplicates(xs)
  {
    if |xs| > 0 {
      var init, last := xs[..|xs| - 1], xs[|xs| - 1];
      ToSetCardinality(init);
      assert xs == init + [last];
      NoDuplicatesSnoc(init, last);
      if last in init {
        assert last in ToSet(init);
        assert ToSet(xs) == ToSet(init);
      } else {
        assert last !in ToSet(init);
        assert |ToSet(xs)| == |ToSet(init)| + 1;
      }
    }
  }

  /** The offered candidates the player selected, in offer order. */
  function Chosen(candidates: seq<Card>, picks: set<nat>): (r: seq<Card>)
    ensures |r| <= |candidates|
    ensures forall c :: c in r <==> c in candidates && c.id in picks
  {
    if |candidates| == 0 then []
    else (if candidates[0].id in picks then [candidates[0]] else []) + Chosen(candidates[1..], picks)
  }

  /** The outcome of checking a submission before anything is saved. */
  datatype Verdict = Accepted | PicksMismatch | Rejected(error: ManualEntryError)

  /** The pick count matches the required number of candidate picks (when picks are required). */
  predicate PicksOk(s: GameStore) {
    s.settings.nonManualWordsPerPlayer == 0 || |s.selectedPicks| == s.settings.nonManualWordsPerPlayer
  }

  /** As many non-blank manual words as required. */
  predicate ManualComplete(s: GameStore) {
    |ManualWords(s.pendingManualWords)| == s.settings.manualWordsPerPlayer
  }

  /** No manual word runs over six whitespace-separated words. */
  predicate ManualShort(s: GameStore) {
    var words := ManualWords(s.pendingManualWords);
    forall k :: 0 <= k < |words| ==> WordCount(words[k]) <= 6
  }

  /** The manual words differ pairwise ignoring case. */
  predicate ManualDistinct(s: GameStore) {
    NoDuplicates(LowerAll(ManualWords(s.pendingManualWords)))
  }

  /** No manual word matches, ignoring case, a title already in the game or among the chosen picks. */
  predicate ManualNew(s: GameStore) {
    var words := ManualWords(s.pendingManualWords);
    forall k :: 0 <= k < |words| ==>
      Lower(words[k]) !in Titles(s.allCards) + Titles(Chosen(s.candidateTitles, s.selectedPicks))
  }

  /** The manual words are complete, short, pairwise different ignoring case, and new to the game and to the picks. */
  predicate ManualWordsOk(s: GameStore) {
    ManualComplete(s) && ManualShort(s) && ManualDistinct(s) && ManualNew(s)
  }

  /**
   * Checks a submission in the store's order: the pick count first (refused
   * without a message), then, when manual words are required, completeness,
   * length, uniqueness among themselves and uniqueness across the game; the
   * first failing check decides the verdict.
   */
  function Validate(s: GameStore): (v: Verdict)
    ensures v.Accepted? <==> PicksOk(s) && (s.settings.manualWordsPerPlayer > 0 ==> ManualWordsOk(s))
    ensures v == PicksMismatch <==> !PicksOk(s)
    ensures v == Rejected(Incomplete) <==>
      PicksOk(s) && s.settings.manualWordsPerPlayer > 0 && !ManualComplete(s)
    ensures v == Rejected(TooLong) <==>
      PicksOk(s) && s.settings.manualWordsPerPlayer > 0 && ManualComplete(s) && !ManualShort(s)
    ensures v == Rejected(NotUnique) <==>
      PicksOk(s) && s.settings.manualWordsPerPlayer > 0 && ManualComplete(s) && ManualShort(s)
      && !ManualDistinct(s)
    ensures v == Rejected(DuplicatesExisting) <==>
      PicksOk(s) && s.settings.manualWordsPerPlayer > 0 && ManualComplete(s) && ManualShort(s)
      && ManualDistinct(s) && !ManualNew(s)
  {
    var words := ManualWords(s.pendingManualWords);
    var lowered := LowerAll(words);
    var disallowed := Titles(s.allCards) + Titles(Chosen(s.candidateTitles, s.selectedPicks));
    ToSetCardinality(lowered);
    if s.settings.nonManualWordsPerPlayer > 0 && |s.selectedPicks| != s.settings.nonManualWordsPerPlayer then PicksMismatch
    else if s.settings.manualWordsPerPlayer > 0 && |words| != s.settings.manualWordsPerPlayer then Rejected(Incomplete)
    else if s.settings.manualWordsPerPlayer > 0 && exists k :: 0 <= k < |words| && WordCount(words[k]) > 6 then Rejected(TooLong)
    else if s.settings.manualWordsPerPlayer > 0 && |ToSet(lowered)| != |lowered| then Rejected(NotUnique)
    else if s.settings.manualWordsPerPlayer > 0 && exists k :: 0 <= k < |lowered| && lowered[k] in disallowed then Rejected(DuplicatesExisting)
    else Accepted
  }

  function DigitChar(d: nat): (c: char)
    requires d < 10
    ensures '0' <= c <= '9' && c as int - '0' as int == d
  {
    ('0' as int + d) as char
  }

  /** The decimal representation of `n`, without leading zeros. */
  function NatToString(n: nat): (r: string)
    ensures |r| > 0 && forall i :: 0 <= i < |r| ==> '0' <= r[i] <= '9'
    ensures r[0] == '0' ==> n == 0
    decreases n
  {
    if n < 10 then [DigitChar(n)] else NatToString(n / 10) + [DigitChar(n % 10)]
  }

  /** The number a string of decimal digits denotes. */
  function DigitsValue(s: string): nat
    requires forall i :: 0 <= i < |s| ==> '0' <= s[i] <= '9'
  {
    if |s| == 0 then 0 else DigitsValue(s[..|s| - 1]) * 10 + (s[|s| - 1] as int - '0' as int)
  }

  /** Reading back the decimal representation gives the number. */
  lemma {:induction false} NatToStringRoundTrip(n: nat)
    ensures DigitsValue(NatToString(n)) == n
    decreases n
  {
    if n >= 10 {
      NatToStringRoundTrip(n / 10);
      var r := NatToString(n);
      assert r[..|r| - 1] == NatToString(n / 10);
    }
  }

  /** The name given to a player who leaves the name blank: "Player " and the player's position. */
  function DefaultPlayerName(playerCount: nat): (name: string)
    ensures |name| > 7 && name[..7] == "Player " && name[7..] == NatToString(playerCount + 1)
    ensures !IsBlank(name)
  {
    assert !IsWhitespace("Player "[0]);
    "Player " + NatToString(playerCount + 1)
  }

  /** The team the next player is collected for: team A until it holds half the expected players (rounded down). */
  function NextIntakeTeam(expected: nat, collectedA: nat): (t: Team)
    ensures t == A <==> collectedA < expected / 2
  {
    if collectedA < expected / 2 then A else B
  }

  /** After each submission: the next hand-off while players remain, otherwise round one begins with the starting team. */
  function AdvanceIntakePointer(s: GameStore): (r: GameStore)
    ensures |s.players| < s.intakeExpectedCount ==>
      r == s.(intakeTeamCollecting := NextIntakeTeam(s.intakeExpectedCount, |s.teamAOrder|), stage := IntakeHandoff)
    ensures |s.players| >= s.intakeExpectedCount ==>
      r == s.(currentRound := One, currentTeam := s.settings.startingTeam, stage := RoundIntro)
  {
    if |s.players| < s.intakeExpectedCount then
      s.(intakeTeamCollecting := NextIntakeTeam(s.intakeExpectedCount, |s.teamAOrder|), stage := IntakeHandoff)
    else
      s.(currentRound := One, currentTeam := s.settings.startingTeam, stage := RoundIntro)
  }

  /** Moving from the hand-off to name entry for the team being collected, with empty staging buffers. */
  function IntakeProceed(s: GameStore): (r: GameStore)
    ensures r.pendingTeam == s.intakeTeamCollecting && r.pendingName == [] && r.pendingManualWords == []
    ensures r.manualEntryError.None? && r.stage == IntakeName
    ensures r == s.(pendingName := [], pendingTeam := r.pendingTeam, pendingManualWords := [],
                    manualEntryError := None, stage := IntakeName)
  {
    s.(pendingName := [], pendingTeam := s.intakeTeamCollecting, pendingManualWords := [],
       manualEntryError := None, stage := IntakeName)
  }

  /** Selects an unselected candidate, or deselects a selected one. */
  function TogglePick(s: GameStore, id: nat): (r: GameStore)
    ensures id in r.selectedPicks <==> id !in s.selectedPicks
    ensures forall other :: other != id ==> (other in r.selectedPicks <==> other in s.selectedPicks)
    ensures r == s.(selectedPicks := r.selectedPicks)
  {
    if id in s.selectedPicks then s.(selectedPicks := s.selectedPicks - {id})
    else s.(selectedPicks := s.selectedPicks + {id})
  }

  /** Toggling the same candidate twice restores the selection. */
  lemma TogglePickTwice(s: GameStore, id: nat)
    ensures TogglePick(TogglePick(s, id), id) == s
  {
    var r := TogglePick(TogglePick(s, id), id);
    assert r.selectedPicks == s.selectedPicks;
  }

  /** The cards of the manual words, all with subject "Manual", numbered from `idBase`. */
  function ManualCards(words: seq<string>, idBase: nat): (cards: seq<Card>)
    ensures |cards| == |words|
    ensures forall k :: 0 <= k < |words| ==> cards[k] == Card(idBase + k, words[k], "Manual")
  {
    seq(|words|, k requires 0 <= k < |words| => Card(idBase + k, words[k], "Manual"))
  }

  /** The player a submission creates: the trimmed name, or the default name when it is blank. */
  function NewPlayer(s: GameStore, newId: nat): (p: Player)
    ensures p.id == newId && p.team == s.pendingTeam && !IsBlank(p.name)
    ensures !IsBlank(s.pendingName) ==> p.name == Trim(s.pendingName)
    ensures IsBlank(s.pendingName) ==> p.name == DefaultPlayerName(|s.players|)
  {
    var trimmed := Trim(s.pendingName);
    assert trimmed != [] ==> !IsBlank(trimmed);
    Player(newId, if trimmed == [] then DefaultPlayerName(|s.players|) else trimmed, s.pendingTeam)
  }

  /** A list's titles are among the titles of any list it is a prefix of. */
  lemma PrefixTitles(a: seq<Card>, b: seq<Card>)
    requires |a| <= |b| && b[..|a|] == a
    ensures Titles(a) <= Titles(b)
  {
    forall t | t in Titles(a) ensures t in Titles(b) {
      var c :| c in a && Lower(c.title) == t;
      var i :| 0 <= i < |a| && a[i] == c;
      assert b[i] == c;
    }
  }

  lemma ManualTitles(words: seq<string>, idBase: nat)
    ensures forall w :: w in words ==> Lower(w) in Titles(ManualCards(words, idBase))
  {
    var manual := ManualCards(words, idBase);
    forall w | w in words ensures Lower(w) in Titles(manual) {
      var k :| 0 <= k < |words| && words[k] == w;
      assert manual[k] in manual && manual[k].title == w;
    }
  }

  /**
   * The master card list after an accepted submission: the chosen picks,
   * then replacement draws for picks lost to de-duplication, then the manual
   * words, each skipped when its title is already present ignoring case.
   */
  function GrowCards(s: GameStore, manualIdBase: nat, draw: set<string> -> Option<Card>): (cards: seq<Card>)
    requires DrawAvoids(draw)
    ensures |s.allCards| <= |cards| && cards[..|s.allCards|] == s.allCards
    ensures DistinctTitles(s.allCards) ==> DistinctTitles(cards)
    ensures Titles(Chosen(s.candidateTitles, s.selectedPicks)) <= Titles(cards)
    ensures forall w :: w in ManualWords(s.pendingManualWords) ==> Lower(w) in Titles(cards)
  {
    var withPicks := AddAllUnique(s.allCards, Chosen(s.candidateTitles, s.selectedPicks));
    var added := |withPicks| - |s.allCards|;
    var need := if added < s.settings.nonManualWordsPerPlayer then s.settings.nonManualWordsPerPlayer - added else 0;
    var withDraws := DrawExtras(withPicks, need, draw);
    var words := ManualWords(s.pendingManualWords);
    var manual := ManualCards(words, manualIdBase);
    var cards := AddAllUnique(withDraws, manual);
    PrefixTrans(s.allCards, withPicks, withDraws);
    PrefixTrans(s.allCards, withDraws, cards);
    PrefixTitles(withPicks, withDraws);
    assert Titles(Chosen(s.candidateTitles, s.selectedPicks)) <= Titles(withDraws);
    ManualTitles(words, manualIdBase);
    assert Titles(manual) <= Titles(cards);
    cards
  }

  /**
   * Submits the pending player: a refused submission records its error (none
   * for a pick mismatch) and changes nothing else; an accepted one adds the
   * player to the roster and to their team's order with fresh statistics,
   * grows the master card list, clears the staging buffers and advances the
   * intake pointer.
   */
  function SubmitPlayerAndWords(s: GameStore, newId: nat, manualIdBase: nat, draw: set<string> -> Option<Card>): (r: GameStore)
    requires DrawAvoids(draw)
    ensures Validate(s) == PicksMismatch ==> r == s.(manualEntryError := None)
    ensures Validate(s).Rejected? ==> r == s.(manualEntryError := Some(Validate(s).error))
    ensures Validate(s).Accepted? ==>
      r == AdvanceIntakePointer(s.(
        players := s.players + [NewPlayer(s, newId)],
        teamAOrder := if s.pendingTeam == A then s.teamAOrder + [NewPlayer(s, newId)] else s.teamAOrder,
        teamBOrder := if s.pendingTeam == B then s.teamBOrder + [NewPlayer(s, newId)] else s.teamBOrder,
        playerStats := s.playerStats[newId := NewStats(newId)],
        allCards := GrowCards(s, manualIdBase, draw),
        pendingManualWords := [],
        manualEntryError := None))
  {
    match Validate(s)
    case PicksMismatch => s.(manualEntryError := None)
    case Rejected(e) => s.(manualEntryError := Some(e))
    case Accepted =>
      var p := NewPlayer(s, newId);
      AdvanceIntakePointer(s.(
        players := s.players + [p],
        teamAOrder := if p.team == A then s.teamAOrder + [p] else s.teamAOrder,
        teamBOrder := if p.team == B then s.teamBOrder + [p] else s.teamBOrder,
        playerStats := s.playerStats[newId := NewStats(newId)],
        allCards := GrowCards(s, manualIdBase, draw),
        pendingManualWords := [],
        manualEntryError := None))
  }

  /** A refused submission leaves the roster, the team orders and the master card list alone. */
  lemma SubmitRefused(s: GameStore, newId: nat, manualIdBase: nat, draw: set<string> -> Option<Card>)
    requires DrawAvoids(draw)
    requires !Validate(s).Accepted?
    ensures var r := SubmitPlayerAndWords(s, newId, manualIdBase, draw);
      && r.players == s.players && r.allCards == s.allCards
      && r.teamAOrder == s.teamAOrder && r.teamBOrder == s.teamBOrder
  {
  }

  /**
   * An accepted submission appends exactly one player, to exactly their
   * team's order, keeps the earlier cards as a prefix, keeps titles distinct
   * ignoring case, and leaves every pick and manual word present (ignoring case).
   */
  lemma SubmitAccepted(s: GameStore, newId: nat, manualIdBase: nat, draw: set<string> -> Option<Card>)
    requires DrawAvoids(draw)
    requires Validate(s).Accepted?
    ensures var r := SubmitPlayerAndWords(s, newId, manualIdBase, draw);
      && r.players == s.players + [NewPlayer(s, newId)]
      && r.TeamOrder(s.pendingTeam) == s.TeamOrder(s.pendingTeam) + [NewPlayer(s, newId)]
      && r.TeamOrder(s.pendingTeam.Other()) == s.TeamOrder(s.pendingTeam.Other())
      && r.allCards[..|s.allCards|] == s.allCards
      && (DistinctTitles(s.allCards) ==> DistinctTitles(r.allCards))
      && Titles(Chosen(s.candidateTitles, s.selectedPicks)) <= Titles(r.allCards)
      && (forall w :: w in ManualWords(s.pendingManualWords) ==> Lower(w) in Titles(r.allCards))
      && newId in r.playerStats && r.playerStats[newId] == NewStats(newId)
      && r.pendingManualWords == [] && r.manualEntryError.None?
  {
    var p := NewPlayer(s, newId);
    var cards := GrowCards(s, manualIdBase, draw);
    var mid := s.(
        players := s.players + [p],
        teamAOrder := if s.pendingTeam == A then s.teamAOrder + [p] else s.teamAOrder,
        teamBOrder := if s.pendingTeam == B then s.teamBOrder + [p] else s.teamBOrder,
        playerStats := s.playerStats[newId := NewStats(newId)],
        allCards := cards,
        pendingManualWords := [],
        manualEntryError := None);
    var r := SubmitPlayerAndWords(s, newId, manualIdBase, draw);
    assert r == AdvanceIntakePointer(mid);
    AdvanceKeepsRoster(mid);
    assert r.allCards == cards;
    assert r.players == s.players + [p];
    assert r.teamAOrder == mid.teamAOrder && r.teamBOrder == mid.teamBOrder;
  }

  /** Advancing the intake pointer leaves the roster, team orders, statistics, cards and staging buffers alone. */
  lemma AdvanceKeepsRoster(s: GameStore)
    ensures var r := AdvanceIntakePointer(s);
      && r.players == s.players && r.teamAOrder == s.teamAOrder && r.teamBOrder == s.teamBOrder
      && r.playerStats == s.playerStats && r.allCards == s.allCards
      && r.pendingManualWords == s.pendingManualWords && r.manualEntryError == s.manualEntryError
  {
  }

  /** The team sizes after `n` players joined: the first joins A, each later one the team `NextIntakeTeam` chooses. */
  function TeamFill(expected: nat, n: nat): (counts: (nat, nat))
    ensures counts.0 + counts.1 == n
  {
    if n == 0 then (0, 0)
    else
      var (a, b) := TeamFill(expected, n - 1);
      var team := if n == 1 then A else NextIntakeTeam(expected, a);
      if team == A then (a + 1, b) else (a, b + 1)
  }

  function MinNat(a: nat, b: nat): nat {
    if a < b then a else b
  }

  /**
   * Team A receives the first half of the players (rounded down, but at
   * least the first player) and team B the rest.
   */
  lemma {:induction false} TeamFillSplitsInHalves(expected: nat, n: nat)
    ensures var half := if expected / 2 < 1 then 1 else expected / 2;
      TeamFill(expected, n) == (MinNat(n, half), n - MinNat(n, half))
  {
    if n > 0 {
      TeamFillSplitsInHalves(expected, n - 1);
    }
  }
}
