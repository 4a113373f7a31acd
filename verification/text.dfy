/**
 * Character and string helpers the game store relies on: trimming
 * (`trimmingCharacters(in: .whitespacesAndNewlines)`), lower-casing
 * (`lowercased()`), and splitting a string into its maximal runs of
 * non-delimiter characters (`split(whereSeparator:)`).
 *
 * Character classes are the ASCII subset of Swift's Unicode classes.
 */
module Text {

  /** Space and the ASCII control characters tab, newline, vertical tab, form feed, carriage return. */
  predicate IsWhitespace(c: char) {
    c == ' ' || ('\t' <= c <= '\r')
  }

  predicate IsAlphanumeric(c: char) {
    ('a' <= c <= 'z') || ('A' <= c <= 'Z') || ('0' <= c <= '9')
  }

  function ToLower(c: char): (r: char)
    ensures 'A' <= c <= 'Z' ==> 'a' <= r <= 'z'
    ensures !('A' <= c <= 'Z') ==> r == c
    ensures IsAlphanumeric(r) <==> IsAlphanumeric(c)
    ensures IsWhitespace(r) <==> IsWhitespace(c)
  {
    if 'A' <= c <= 'Z' then (c as int - 'A' as int + 'a' as int) as char else c
  }

  function Lower(s: string): (r: string)
    ensures |r| == |s|
    ensures forall i :: 0 <= i < |s| ==> r[i] == ToLower(s[i])
  {
    seq(|s|, i requires 0 <= i < |s| => ToLower(s[i]))
  }

  /** True when every character of `s` is whitespace (the empty string included). */
  predicate IsBlank(s: string) {
    forall i :: 0 <= i < |s| ==> IsWhitespace(s[i])
  }

  function TrimLeading(s: string): (r: string)
    ensures |r| <= |s| && r == s[|s| - |r|..]
    ensures IsBlank(s[..|s| - |r|])
    ensures r == [] || !IsWhitespace(r[0])
  {
    if |s| > 0 && IsWhitespace(s[0]) then TrimLeading(s[1..]) else s
  }

  function TrimTrailing(s: string): (r: string)
    ensures |r| <= |s| && r == s[..|r|]
    ensures IsBlank(s[|r|..])
    ensures r == [] || !IsWhitespace(r[|r| - 1])
  {
    if |s| > 0 && IsWhitespace(s[|s| - 1]) then
      var shorter := s[..|s| - 1];
      var r := TrimTrailing(shorter);
      assert r == s[..|r|] by {
        assert shorter[..|r|] == s[..|r|];
      }
      assert s[|r|..] == shorter[|r|..] + [s[|s| - 1]];
      r
    else s
  }

  /** Removes leading and trailing whitespace; the result is a contiguous slice of `s`. */
  function Trim(s: string): (r: string)
    ensures exists i, j :: 0 <= i <= j <= |s| && r == s[i..j] && IsBlank(s[..i]) && IsBlank(s[j..])
    ensures r == [] || (!IsWhitespace(r[0]) && !IsWhitespace(r[|r| - 1]))
    ensures r == [] <==> IsBlank(s)
  {
    var lead := TrimLeading(s);
    var r := TrimTrailing(lead);
    TrimSlices(s, lead, r);
    r
  }

  /** A string with no whitespace at either end is its own trim, so trimming twice equals trimming once. */
  lemma TrimUnpadded(s: string)
    requires s == [] || (!IsWhitespace(s[0]) && !IsWhitespace(s[|s| - 1]))
    ensures Trim(s) == s
  {
    assert TrimLeading(s) == s;
    assert TrimTrailing(s) == s;
  }

  lemma TrimIdempotent(s: string)
    ensures Trim(Trim(s)) == Trim(s)
  {
    TrimUnpadded(Trim(s));
  }

  lemma TrimSlices(s: string, lead: string, r: string)
    requires |lead| <= |s| && lead == s[|s| - |lead|..] && IsBlank(s[..|s| - |lead|])
    requires lead == [] || !IsWhitespace(lead[0])
    requires |r| <= |lead| && r == lead[..|r|] && IsBlank(lead[|r|..])
    ensures exists i, j :: 0 <= i <= j <= |s| && r == s[i..j] && IsBlank(s[..i]) && IsBlank(s[j..])
    ensures r == [] <==> IsBlank(s)
  {
    var i := |s| - |lead|;
    var j := i + |r|;
    assert r == s[i..j];
    forall k | j <= k < |s|
      ensures IsWhitespace(s[k])
    {
      var m := k - i;
      assert s[k] == lead[m];
      assert lead[m] == lead[|r|..][m - |r|];
    }
    assert 0 <= i <= j <= |s| && r == s[i..j] && IsBlank(s[..i]) && IsBlank(s[j..]);
    if r == [] {
      assert IsBlank(lead);
      BlankConcat(s[..i], lead);
      assert s == s[..i] + lead;
    }
  }

  lemma BlankConcat(a: string, b: string)
    requires IsBlank(a) && IsBlank(b)
    ensures IsBlank(a + b)
  {
  }

  /** The two separator classes the source splits on. */
  datatype Delimiter = Whitespace | NonAlphanumeric

  predicate IsDelimiter(d: Delimiter, c: char) {
    match d
    case Whitespace => IsWhitespace(c)
    case NonAlphanumeric => !IsAlphanumeric(c)
  }

  /** Length of the longest prefix of `s` holding no delimiter. */
  function RunLength(s: string, d: Delimiter): (n: nat)
    ensures n <= |s|
    ensures forall i :: 0 <= i < n ==> !IsDelimiter(d, s[i])
    ensures n == |s| || IsDelimiter(d, s[n])
  {
    if |s| == 0 || IsDelimiter(d, s[0]) then 0 else 1 + RunLength(s[1..], d)
  }

  /** A string is a word when it is non-empty and holds no delimiter. */
  predicate IsWord(w: string, d: Delimiter) {
    |w| > 0 && forall i :: 0 <= i < |w| ==> !IsDelimiter(d, w[i])
  }

  /** The maximal delimiter-free runs of `s`, in order; empty runs are dropped. */
  function Split(s: string, d: Delimiter): (parts: seq<string>)
    ensures forall k :: 0 <= k < |parts| ==> IsWord(parts[k], d)
    decreases |s|
  {
    if |s| == 0 then []
    else if IsDelimiter(d, s[0]) then Split(s[1..], d)
    else
      var n := RunLength(s, d);
      [s[..n]] + Split(s[n..], d)
  }

  /** The non-delimiter characters of `s`, in order. */
  function Keep(s: string, d: Delimiter): string {
    if |s| == 0 then []
    else if IsDelimiter(d, s[0]) then Keep(s[1..], d)
    else [s[0]] + Keep(s[1..], d)
  }

  function Concat(parts: seq<string>): string {
    if |parts| == 0 then [] else parts[0] + Concat(parts[1..])
  }

  /** Number of positions where a word begins: a non-delimiter not preceded by a non-delimiter. */
  function WordStarts(s: string, d: Delimiter, afterDelimiter: bool): nat {
    if |s| == 0 then 0
    else
      (if afterDelimiter && !IsDelimiter(d, s[0]) then 1 else 0)
      + WordStarts(s[1..], d, IsDelimiter(d, s[0]))
  }

  lemma {:induction false} KeepWordPrefix(s: string, n: nat, d: Delimiter)
    requires n <= |s|
    requires forall i :: 0 <= i < n ==> !IsDelimiter(d, s[i])
    ensures Keep(s, d) == s[..n] + Keep(s[n..], d)
  {
    if n > 0 {
      KeepWordPrefix(s[1..], n - 1, d);
      assert s[1..][n - 1..] == s[n..];
      assert s[..n] == [s[0]] + s[1..][..n - 1];
    }
  }

  /** Splitting loses exactly the delimiters: the words, concatenated, are the kept characters. */
  lemma {:induction false} SplitKeepsContent(s: string, d: Delimiter)
    ensures Concat(Split(s, d)) == Keep(s, d)
    decreases |s|
  {
    if |s| == 0 {
    } else if IsDelimiter(d, s[0]) {
      SplitKeepsContent(s[1..], d);
    } else {
      var n := RunLength(s, d);
      SplitKeepsContent(s[n..], d);
      KeepWordPrefix(s, n, d);
      assert Split(s, d)[1..] == Split(s[n..], d);
    }
  }

  lemma {:induction false} WordStartsInsideWord(s: string, n: nat, d: Delimiter)
    requires n <= |s|
    requires forall i :: 0 <= i < n ==> !IsDelimiter(d, s[i])
    ensures WordStarts(s, d, false) == WordStarts(s[n..], d, false)
  {
    if n > 0 {
      WordStartsInsideWord(s[1..], n - 1, d);
      assert s[1..][n - 1..] == s[n..];
    }
  }

  lemma WordStartsAtDelimiter(s: string, d: Delimiter)
    requires |s| == 0 || IsDelimiter(d, s[0])
    ensures WordStarts(s, d, false) == WordStarts(s, d, true)
  {
  }

  /** The number of words `Split` returns is the number of word starts in `s`. */
  lemma {:induction false} SplitCountsWordStarts(s: string, d: Delimiter)
    ensures |Split(s, d)| == WordStarts(s, d, true)
    decreases |s|
  {
    if |s| == 0 {
    } else if IsDelimiter(d, s[0]) {
      SplitCountsWordStarts(s[1..], d);
    } else {
      var n := RunLength(s, d);
      SplitCountsWordStarts(s[n..], d);
      WordStartsInsideWord(s[1..], n - 1, d);
      assert s[1..][n - 1..] == s[n..];
      WordStartsAtDelimiter(s[n..], d);
    }
  }
}
