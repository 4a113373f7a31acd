/**
 * The pure rules of the settings and intake screens: player-name
 * validation, the subject and category chip toggles, the two-thumb range
 * slider, and the gate on the picks submit button.
 *
 * Category values are not part of this model; the category toggle is
 * generic in the element type.
 */
module SettingsRules {
  import opened Wrappers
  import opened Text
  import opened Models
  import opened Store
  import opened Intake

  /** The lower-cased names of the players saved so far. */
  function ExistingNames(players: seq<Player>): set<string> {
    set p | p in players :: Lower(p.name)
  }

  /** A name is valid when it is not blank and, trimmed, differs ignoring case from every saved player's name. */
  function IsNameValid(pendingName: string, players: seq<Player>): (valid: bool)
    ensures valid <==> !IsBlank(pendingName)
                       && forall k :: 0 <= k < |players| ==> Lower(players[k].name) != Lower(Trim(pendingName))
  {
    var trimmed := Trim(pendingName);
    assert forall k :: 0 <= k < |players| ==> Lower(players[k].name) in ExistingNames(players);
    trimmed != [] && Lower(trimmed) !in ExistingNames(players)
  }

  datatype NameError = BlankName | NameTaken

  /** The message under the name field: nothing until typing starts, then a blank name before a taken one. */
  function NameValidationError(hasStartedTyping: bool, pendingName: string, players: seq<Player>): (e: Option<NameError>)
    ensures !hasStartedTyping ==> e.None?
    ensures hasStartedTyping ==> (e.None? <==> IsNameValid(pendingName, players))
    ensures e == Some(BlankName) <==> hasStartedTyping && IsBlank(pendingName)
    ensures e == Some(NameTaken) ==> !IsBlank(pendingName)
  {
    if !hasStartedTyping then None
    else
      var trimmed := Trim(pendingName);
      if trimmed == [] then Some(BlankName)
      else if Lower(trimmed) in ExistingNames(players) then Some(NameTaken)
      else None
  }

  /** A name that differs from a saved one only in case is refused: "Alex" after "alex". */
  lemma NameClashIgnoresCase()
    ensures !IsNameValid("Alex", [Player(0, "alex", A)])
  {
    var players := [Player(0, "alex", A)];
    TrimUnpadded("Alex");
    LowerAlex();
    assert Lower(players[0].name) == Lower(Trim("Alex"));
  }

  /** The message shown for "Alex" after "alex" is the name-taken one. */
  lemma NameTakenMessage()
    ensures NameValidationError(true, "Alex", [Player(0, "alex", A)]) == Some(NameTaken)
  {
    var players := [Player(0, "alex", A)];
    TrimUnpadded("Alex");
    LowerAlex();
    assert Lower(players[0].name) == Lower(Trim("Alex"));
  }

  lemma LowerAlex()
    ensures Lower("Alex") == Lower("alex")
  {
    assert Lower("Alex") == "alex";
    assert Lower("alex") == "alex";
  }

  /** A name new to the roster is accepted: "Sam" after "alex". */
  lemma FreshNameAccepted()
    ensures IsNameValid("Sam", [Player(0, "alex", A)])
  {
    var players := [Player(0, "alex", A)];
    TrimUnpadded("Sam");
    assert !IsBlank("Sam") by {
      assert !IsWhitespace("Sam"[0]);
    }
    assert |Lower(Trim("Sam"))| == 3 && |Lower(players[0].name)| == 4;
    assert forall k :: 0 <= k < |players| ==> Lower(players[k].name) != Lower(Trim("Sam"));
  }

  /** A player submitted under a valid name keeps that name, which is new to the roster ignoring case. */
  lemma ValidNameIsKept(s: GameStore, newId: nat)
    requires IsNameValid(s.pendingName, s.players)
    ensures NewPlayer(s, newId).name == Trim(s.pendingName)
    ensures Lower(NewPlayer(s, newId).name) !in ExistingNames(s.players)
  {
  }

  datatype Subject = People | Places | FilmTV | Music | Sports | ScienceTech | History | FoodDrink | Everything

  /**
   * Tapping a subject chip: "Everything" selects only itself; any other
   * subject drops "Everything" and flips itself, falling back to
   * "Everything" when nothing would be left.
   */
  function ToggleSubject(selected: set<Subject>, sub: Subject): (r: set<Subject>)
    ensures r != {}
    ensures sub == Everything ==> r == {Everything}
    ensures sub != Everything ==>
      forall o :: o != Everything ==> (o in r <==> (if o == sub then o !in selected else o in selected))
    ensures sub != Everything ==> (Everything in r <==> r == {Everything})
  {
    if sub == Everything then {Everything}
    else
      var without := selected - {Everything};
      var flipped := if sub in selected then without - {sub} else without + {sub};
      if flipped == {} then {Everything} else flipped
  }

  /** Tapping the same specific subject twice restores a non-empty selection that does not hold "Everything". */
  lemma ToggleSubjectTwice(selected: set<Subject>, sub: Subject)
    requires sub != Everything && Everything !in selected && selected != {}
    ensures ToggleSubject(ToggleSubject(selected, sub), sub) == selected
  {
    var r := ToggleSubject(ToggleSubject(selected, sub), sub);
    assert forall o :: o in r <==> o in selected;
  }

  /** `selected` with the membership of `x` flipped. */
  function Flip<C(==)>(selected: set<C>, x: C): (r: set<C>)
    ensures x in r <==> x !in selected
    ensures r - {x} == selected - {x}
  {
    if x in selected then selected - {x} else selected + {x}
  }

  /**
   * Tapping a category chip flips its membership; when that empties the
   * selection and categories are on offer, the first offered one is selected.
   */
  function ToggleCategory<C(==)>(selected: set<C>, category: C, available: seq<C>): (r: set<C>)
    ensures |available| > 0 ==> r != {}
    ensures Flip(selected, category) != {} ==> r == Flip(selected, category)
    ensures Flip(selected, category) == {} && |available| > 0 ==> r == {available[0]}
    ensures |available| == 0 ==> r == Flip(selected, category)
  {
    var flipped := Flip(selected, category);
    if flipped == {} && |available| > 0 then {available[0]} else flipped
  }

  /** Tapping a category twice restores the selection unless the first tap emptied it. */
  lemma ToggleCategoryTwice<C>(selected: set<C>, category: C, available: seq<C>)
    requires selected != {} && selected != {category}
    ensures ToggleCategory(ToggleCategory(selected, category, available), category, available) == selected
  {
    var y :| y in selected;
    if y == category {
      y :| y in selected && y != category;
    }
    var once := Flip(selected, category);
    assert once != {} by {
      if category in selected { assert y in once; } else { assert category in once; }
    }
    assert Flip(once, category) == selected;
  }

  datatype Bounds = Bounds(lo: int, hi: int)

  /** The two thumbs and the range they write back. */
  datatype Slider = Slider(lower: int, upper: int, range: Bounds)

  /** Writes the thumbs' range back, reporting whether the stored range changed. */
  function UpdateRange(s: Slider): (r: (Slider, bool))
    ensures r.0.range == Bounds(s.lower, s.upper) && r.0.lower == s.lower && r.0.upper == s.upper
    ensures r.1 <==> s.range != Bounds(s.lower, s.upper)
  {
    var newRange := Bounds(s.lower, s.upper);
    if s.range != newRange then (s.(range := newRange), true) else (s, false)
  }

  /** Writing back twice: the second write changes nothing. */
  lemma UpdateRangeIdempotent(s: Slider)
    ensures UpdateRange(UpdateRange(s).0) == (UpdateRange(s).0, false)
  {
  }

  /** The lower thumb moved to `v`: the upper thumb follows it up when passed. */
  function OnLowerChanged(s: Slider, v: int): (r: Slider)
    ensures r.lower == v && r.upper == (if v > s.upper then v else s.upper)
    ensures r.lower <= r.upper && r.range == Bounds(r.lower, r.upper)
  {
    var moved := s.(lower := v);
    var ordered := if moved.lower > moved.upper then moved.(upper := moved.lower) else moved;
    UpdateRange(ordered).0
  }

  /** The upper thumb moved to `v`: the lower thumb follows it down when passed. */
  function OnUpperChanged(s: Slider, v: int): (r: Slider)
    ensures r.upper == v && r.lower == (if v < s.lower then v else s.lower)
    ensures r.lower <= r.upper && r.range == Bounds(r.lower, r.upper)
  {
    var moved := s.(upper := v);
    var ordered := if moved.upper < moved.lower then moved.(lower := moved.upper) else moved;
    UpdateRange(ordered).0
  }

  datatype Drag = MoveLower(to: int) | MoveUpper(to: int)

  function ApplyDrags(s: Slider, drags: seq<Drag>): Slider
    decreases |drags|
  {
    if |drags| == 0 then s
    else
      var next := match drags[0]
        case MoveLower(v) => OnLowerChanged(s, v)
        case MoveUpper(v) => OnUpperChanged(s, v);
      ApplyDrags(next, drags[1..])
  }

  /** After any non-empty series of drags the range is ordered and equals the thumbs. */
  lemma {:induction false} DragsKeepRangeOrdered(s: Slider, drags: seq<Drag>)
    requires |drags| > 0
    ensures var r := ApplyDrags(s, drags);
      r.lower <= r.upper && r.range == Bounds(r.lower, r.upper)
    decreases |drags|
  {
    if |drags| > 1 {
      var next := match drags[0]
        case MoveLower(v) => OnLowerChanged(s, v)
        case MoveUpper(v) => OnUpperChanged(s, v);
      DragsKeepRangeOrdered(next, drags[1..]);
    }
  }

  /** The picks submit button is enabled exactly when the selection has the configured number of picks. */
  function PicksSubmitEnabled(s: GameStore): (enabled: bool)
    ensures enabled <==> |s.selectedPicks| == s.settings.picksPerPlayer
  {
    |s.selectedPicks| == s.settings.picksPerPlayer
  }

  /**
   * When the configured picks count is the count the store requires, the
   * button's gate and the store's pick check agree.
   */
  lemma PicksGateMatchesStore(s: GameStore)
    requires s.settings.picksPerPlayer == s.settings.nonManualWordsPerPlayer > 0
    ensures PicksSubmitEnabled(s) <==> Validate(s) != PicksMismatch
  {
  }
}
