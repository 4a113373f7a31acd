/**
 * Read-only helpers of the game-end and turn screens: the longest streak of
 * positive entries, the tie test, and the "no-say" tokens of a title.
 */
module Summary {
  import opened Text
  import opened Store

  /** `arr[i..j]` is a slice of `arr` holding only positive entries. */
  predicate PositiveRun(arr: seq<int>, i: int, j: int) {
    0 <= i <= j <= |arr| && forall k :: i <= k < j ==> arr[k] > 0
  }

  /**
   * The length of the longest run of consecutive positive entries: some run
   * has that length and no run is longer.
   */
  method MaxStreakCount(arr: seq<int>) returns (best: nat)
    ensures exists i, j :: PositiveRun(arr, i, j) && j - i == best
    ensures forall i, j :: PositiveRun(arr, i, j) ==> j - i <= best
  {
    best := 0;
    var cur: nat := 0;
    var n := 0;
    ghost var bestStart := 0;
    while n < |arr|
      invariant 0 <= n <= |arr|
      invariant cur <= best
      invariant bestStart + best <= n && PositiveRun(arr, bestStart, bestStart + best)
      invariant cur <= n && PositiveRun(arr, n - cur, n)
      invariant forall i, j :: PositiveRun(arr, i, j) && j <= n ==> j - i <= best
      invariant forall i :: PositiveRun(arr, i, n) ==> n - i <= cur
    {
      var m := n + 1;
      if arr[n] > 0 {
        forall i | PositiveRun(arr, i, m)
          ensures m - i <= cur + 1
        {
          if i <= n {
            assert PositiveRun(arr, i, n);
          }
        }
        cur := cur + 1;
        if cur > best {
          best := cur;
          bestStart := n + 1 - cur;
        }
      } else {
        forall i | PositiveRun(arr, i, m)
          ensures i == m
        {
        }
        cur := 0;
      }
      n := m;
    }
  }

  /** On a turn where every answer counts (all entries positive), the streak is the whole turn. */
  method StreakOfCorrects(count: nat) returns (streak: nat)
    ensures streak == count
  {
    var ones := seq(count, _ => 1);
    streak := MaxStreakCount(ones);
    assert PositiveRun(ones, 0, count);
    assert forall i, j :: PositiveRun(ones, i, j) ==> j - i <= count;
  }

  /** The game ends in a tie when both teams have the same cumulative score. */
  function IsTie(s: GameStore): (tie: bool)
    ensures tie <==> s.Cumulative(s.currentTeam) == s.Cumulative(s.currentTeam.Other())
  {
    s.cumulativeA == s.cumulativeB
  }

  /** One word of a title shown as a "no-say" chip; a leading article may be optional. */
  datatype Token = Token(text: string, required: bool)

  /**
   * The tokens of a title: its lower-cased letter-and-digit runs, all
   * required except a first run that is one of the leading articles when
   * leading articles are ignored.
   */
  function Tokens(title: string, ignoreLeadingArticle: bool, leadingArticles: seq<string>): (r: seq<Token>)
    ensures |r| == |Split(Lower(title), NonAlphanumeric)|
    ensures forall k :: 0 <= k < |r| ==> r[k].text == Split(Lower(title), NonAlphanumeric)[k]
    ensures forall k :: 0 < k < |r| ==> r[k].required
    ensures |r| > 0 ==> (r[0].required <==> !(ignoreLeadingArticle && r[0].text in leadingArticles))
  {
    var parts := Split(Lower(title), NonAlphanumeric);
    seq(|parts|, k requires 0 <= k < |parts| =>
      Token(parts[k], !(k == 0 && ignoreLeadingArticle && parts[k] in leadingArticles)))
  }

  function TokenTexts(tokens: seq<Token>): (texts: seq<string>)
    ensures |texts| == |tokens| && forall k :: 0 <= k < |tokens| ==> texts[k] == tokens[k].text
  {
    seq(|tokens|, k requires 0 <= k < |tokens| => tokens[k].text)
  }

  /**
   * The tokens lose only separators: spelled out one after another they give
   * exactly the title's lower-cased letters and digits, and there is one
   * token per word start of the lower-cased title.
   */
  lemma TokensKeepEveryLetter(title: string, ignoreLeadingArticle: bool, leadingArticles: seq<string>)
    ensures var tokens := Tokens(title, ignoreLeadingArticle, leadingArticles);
      && Concat(TokenTexts(tokens)) == Keep(Lower(title), NonAlphanumeric)
      && |tokens| == WordStarts(Lower(title), NonAlphanumeric, true)
  {
    var tokens := Tokens(title, ignoreLeadingArticle, leadingArticles);
    assert TokenTexts(tokens) == Split(Lower(title), NonAlphanumeric);
    SplitKeepsContent(Lower(title), NonAlphanumeric);
    SplitCountsWordStarts(Lower(title), NonAlphanumeric);
  }

  /** With articles ignored, "The Who" yields an optional "the" and a required "who". */
  lemma LeadingArticleIsOptional()
    ensures Tokens("The Who", true, ["the", "a", "an"]) == [Token("the", false), Token("who", true)]
  {
    var lower := Lower("The Who");
    assert lower == "the who";
    SplitTheWho();
  }

  /** "the who" splits into its two words. */
  lemma SplitTheWho()
    ensures Split("the who", NonAlphanumeric) == ["the", "who"]
  {
    var lower := "the who";
    assert RunLength(lower, NonAlphanumeric) == 3 by {
      assert RunLength(" who", NonAlphanumeric) == 0;
      assert RunLength("e who", NonAlphanumeric) == 1;
      assert RunLength("he who", NonAlphanumeric) == 2;
    }
    assert lower[..3] == "the" && lower[3..] == " who";
    SplitWho();
  }

  /** " who" and "who" both split into the single word "who". */
  lemma SplitWho()
    ensures Split(" who", NonAlphanumeric) == ["who"]
  {
    assert RunLength("who", NonAlphanumeric) == 3 by {
      assert RunLength("", NonAlphanumeric) == 0;
      assert RunLength("o", NonAlphanumeric) == 1;
      assert RunLength("ho", NonAlphanumeric) == 2;
    }
    assert "who"[..3] == "who" && "who"[3..] == [];
    assert Split("who", NonAlphanumeric) == ["who"];
    assert " who"[1..] == "who";
  }
}
