/**
 * The metrics engine: word tokens, filler counts, sentence splitting,
 * words-per-minute and fillers-per-minute, and filler highlights.
 *
 * The regular-expression class `\w` is kept abstract: every member that
 * depends on it takes the predicate `w` as a parameter.
 */
module Metrics {
  import opened Wrappers
  import opened Strings

  // ---------------------------------------------------------------------
  // Word tokens: re.findall(r"\b[\w'-]+\b", s)
  // ---------------------------------------------------------------------

  /** The character class `[\w'-]`. */
  predicate InTokenClass(w: char -> bool, c: char)
  {
    w(c) || c == '\'' || c == '-'
  }

  /** The assertion `\b` at position `p` of `s`: a word character on
      exactly one side of `p`. */
  predicate IsBoundary(w: char -> bool, s: string, p: nat)
    requires p <= |s|
  {
    (p > 0 && w(s[p - 1])) != (p < |s| && w(s[p]))
  }

  /** The end of the maximal run of `[\w'-]` characters starting at `i`. */
  function RunEnd(w: char -> bool, s: string, i: nat): (e: nat)
    requires i <= |s|
    ensures i <= e <= |s|
    ensures forall k :: i <= k < e ==> InTokenClass(w, s[k])
    ensures e == |s| || !InTokenClass(w, s[e])
    decreases |s| - i
  {
    if i < |s| && InTokenClass(w, s[i]) then RunEnd(w, s, i + 1) else i
  }

  /** The backtracking of the greedy `+`: the largest end in `(i, j]` at
      which the closing `\b` holds, if there is one. */
  function BacktrackEnd(w: char -> bool, s: string, i: nat, j: nat): (r: Option<nat>)
    requires i < j <= |s|
    ensures r.Some? ==> i < r.value <= j && IsBoundary(w, s, r.value)
    ensures r.Some? ==> forall k :: r.value < k <= j ==> !IsBoundary(w, s, k)
    ensures r.None? ==> forall k :: i < k <= j ==> !IsBoundary(w, s, k)
    decreases j
  {
    if IsBoundary(w, s, j) then Some(j)
    else if j == i + 1 then None
    else BacktrackEnd(w, s, i, j - 1)
  }

  /** The end of the match of `\b[\w'-]+\b` that starts at `i`, if any. */
  function TokenMatchAt(w: char -> bool, s: string, i: nat): (r: Option<nat>)
    requires i < |s|
    ensures r.Some? ==> i < r.value <= |s|
  {
    if !IsBoundary(w, s, i) then None
    else
      var e := RunEnd(w, s, i);
      if e == i then None else BacktrackEnd(w, s, i, e)
  }

  /** The match at `i` is the greedy one: the `+` takes the whole run of
      `[\w'-]` characters and gives characters back until the closing `\b`
      holds, and there is no match when no end in the run allows one. */
  lemma TokenMatchGreedy(w: char -> bool, s: string, i: nat)
    requires i < |s|
    ensures var r := TokenMatchAt(w, s, i);
            (r.Some? ==> i < r.value <= RunEnd(w, s, i) &&
                         IsBoundary(w, s, i) && IsBoundary(w, s, r.value) &&
                         forall j :: r.value < j <= RunEnd(w, s, i) ==> !IsBoundary(w, s, j)) &&
            (r.None? ==> !IsBoundary(w, s, i) || forall j :: i < j <= RunEnd(w, s, i) ==> !IsBoundary(w, s, j))
  {
  }

  /** `re.findall` of the word pattern, scanning `s` from position `i`:
      a match is taken at the leftmost position where one exists and the
      scan resumes where it ended. */
  function FindTokens(w: char -> bool, s: string, i: nat): (r: seq<string>)
    requires i <= |s|
    ensures forall k :: 0 <= k < |r| ==> r[k] != []
    decreases |s| - i
  {
    if i == |s| then []
    else
      match TokenMatchAt(w, s, i)
      case Some(j) => [s[i..j]] + FindTokens(w, s, j)
      case None => FindTokens(w, s, i + 1)
  }

  /** The word tokens of a transcript (see `TokenCountBound`, `TokenShaped`
      and `WordTokensAreRuns`). */
  function WordTokens(w: char -> bool, s: string): (r: seq<string>)
  {
    FindTokens(w, s, 0)
  }

  /** Every token takes at least one character, so there are no more tokens
      from `i` on than characters left; at `i == 0`, no more word tokens than
      the transcript has characters. */
  lemma {:induction false} TokenCountBound(w: char -> bool, s: string, i: nat)
    requires i <= |s|
    ensures |FindTokens(w, s, i)| <= |s| - i
    decreases |s| - i
  {
    if i < |s| {
      match TokenMatchAt(w, s, i)
      case Some(j) => TokenCountBound(w, s, j);
      case None => TokenCountBound(w, s, i + 1);
    }
  }

  /** The first `\w` character in `[i, e)`, or `e` when there is none. */
  function FirstWordChar(w: char -> bool, s: string, i: nat, e: nat): (f: nat)
    requires i <= e <= |s|
    ensures i <= f <= e
    ensures forall k :: i <= k < f ==> !w(s[k])
    ensures f < e ==> w(s[f])
    decreases e - i
  {
    if i < e && !w(s[i]) then FirstWordChar(w, s, i + 1, e) else i
  }

  /** One past the last `\w` character in `[i, e)`, or `i` when there is none. */
  function LastWordEnd(w: char -> bool, s: string, i: nat, e: nat): (l: nat)
    requires i <= e <= |s|
    ensures i <= l <= e
    ensures forall k :: l <= k < e ==> !w(s[k])
    ensures l > i ==> w(s[l - 1])
    decreases e - i
  {
    if i < e && !w(s[e - 1]) then LastWordEnd(w, s, i, e - 1) else e
  }

  /** The token a run `[i, e)` of `[\w'-]` characters gives: the run with
      its leading and trailing apostrophes and hyphens removed, or nothing
      when the run holds no `\w` character. */
  function RunHead(w: char -> bool, s: string, i: nat, e: nat): seq<string>
    requires i <= e <= |s|
  {
    var f := FirstWordChar(w, s, i, e);
    if f < e then [s[f..LastWordEnd(w, s, i, e)]] else []
  }

  /** Reference tokenisation: every maximal run of `[\w'-]` characters that
      holds at least one `\w` character gives one token, the run with its
      leading and trailing apostrophes and hyphens removed. */
  function RunTokens(w: char -> bool, s: string, i: nat): seq<string>
    requires i <= |s|
    decreases |s| - i
  {
    if i == |s| then []
    else if !InTokenClass(w, s[i]) then RunTokens(w, s, i + 1)
    else
      var e := RunEnd(w, s, i);
      RunHead(w, s, i, e) + RunTokens(w, s, e)
  }

  lemma {:induction false} SkipNoMatch(w: char -> bool, s: string, a: nat, b: nat)
    requires a <= b <= |s|
    requires forall p :: a <= p < b ==> TokenMatchAt(w, s, p).None?
    ensures FindTokens(w, s, a) == FindTokens(w, s, b)
    decreases b - a
  {
    if a < b {
      SkipNoMatch(w, s, a + 1, b);
    }
  }

  lemma {:induction false} RunEndFrom(w: char -> bool, s: string, i: nat, k: nat)
    requires i <= |s| && i <= k <= RunEnd(w, s, i)
    ensures RunEnd(w, s, k) == RunEnd(w, s, i)
    decreases k - i
  {
    if i < k {
      RunEndFrom(w, s, i + 1, k);
    }
  }

  /** Before the first `\w` character of a maximal run no match starts. */
  lemma LeadingSkip(w: char -> bool, s: string, i: nat)
    requires i < |s| && InTokenClass(w, s[i])
    requires i == 0 || !InTokenClass(w, s[i - 1])
    ensures FindTokens(w, s, i) == FindTokens(w, s, FirstWordChar(w, s, i, RunEnd(w, s, i)))
  {
    var e := RunEnd(w, s, i);
    var f := FirstWordChar(w, s, i, e);
    forall p | i <= p < f
      ensures TokenMatchAt(w, s, p).None?
    {
      assert p == i || !w(s[p - 1]);
      assert !IsBoundary(w, s, p);
    }
    SkipNoMatch(w, s, i, f);
  }

  /** After the last `\w` character of a run no `\b` holds up to the run's end. */
  lemma NoBoundaryAfterLast(w: char -> bool, s: string, i: nat)
    requires i < |s|
    ensures var e := RunEnd(w, s, i);
            forall k :: LastWordEnd(w, s, i, e) < k <= e ==> !IsBoundary(w, s, k)
  {
    var e := RunEnd(w, s, i);
    var l := LastWordEnd(w, s, i, e);
    forall k | l < k <= e
      ensures !IsBoundary(w, s, k)
    {
      assert !w(s[k - 1]);
      assert k == |s| || !w(s[k]);
    }
  }

  /** `\b` holds before the first `\w` character of a maximal run and after
      its last one. */
  lemma RunBoundaries(w: char -> bool, s: string, i: nat)
    requires i < |s| && InTokenClass(w, s[i])
    requires i == 0 || !InTokenClass(w, s[i - 1])
    requires FirstWordChar(w, s, i, RunEnd(w, s, i)) < RunEnd(w, s, i)
    ensures var e := RunEnd(w, s, i);
            var f := FirstWordChar(w, s, i, e);
            var l := LastWordEnd(w, s, i, e);
            f < l && IsBoundary(w, s, f) && IsBoundary(w, s, l)
  {
    var e := RunEnd(w, s, i);
    var f := FirstWordChar(w, s, i, e);
    assert f == i || !w(s[f - 1]);
  }

  /** The match that starts at the first `\w` character of a run ends after
      its last one. */
  lemma MatchAtFirst(w: char -> bool, s: string, i: nat)
    requires i < |s| && InTokenClass(w, s[i])
    requires i == 0 || !InTokenClass(w, s[i - 1])
    requires FirstWordChar(w, s, i, RunEnd(w, s, i)) < RunEnd(w, s, i)
    ensures var e := RunEnd(w, s, i);
            var f := FirstWordChar(w, s, i, e);
            TokenMatchAt(w, s, f) == Some(LastWordEnd(w, s, i, e))
  {
    var e := RunEnd(w, s, i);
    var f := FirstWordChar(w, s, i, e);
    RunBoundaries(w, s, i);
    RunEndFrom(w, s, i, f);
    NoBoundaryAfterLast(w, s, i);
    BacktrackFinds(w, s, f, e, LastWordEnd(w, s, i, e));
  }

  /** Backtracking stops at the largest end where `\b` holds. */
  lemma BacktrackFinds(w: char -> bool, s: string, i: nat, j: nat, l: nat)
    requires i < l <= j <= |s| && IsBoundary(w, s, l)
    requires forall k :: l < k <= j ==> !IsBoundary(w, s, k)
    ensures BacktrackEnd(w, s, i, j) == Some(l)
  {
  }

  /** Between the end of a run's token and the end of the run no match starts. */
  lemma TrailingSkip(w: char -> bool, s: string, i: nat)
    requires i < |s|
    ensures var e := RunEnd(w, s, i);
            FindTokens(w, s, LastWordEnd(w, s, i, e)) == FindTokens(w, s, e)
  {
    var e := RunEnd(w, s, i);
    var l := LastWordEnd(w, s, i, e);
    NoBoundaryAfterLast(w, s, i);
    forall p | l <= p < e
      ensures TokenMatchAt(w, s, p).None?
    {
      RunEndFrom(w, s, i, p);
    }
    SkipNoMatch(w, s, l, e);
  }

  /** Scanning one maximal run yields exactly the run's reference token. */
  lemma RunScan(w: char -> bool, s: string, i: nat)
    requires i < |s| && InTokenClass(w, s[i])
    requires i == 0 || !InTokenClass(w, s[i - 1])
    ensures var e := RunEnd(w, s, i);
            FindTokens(w, s, i) == RunHead(w, s, i, e) + FindTokens(w, s, e)
  {
    var e := RunEnd(w, s, i);
    var f := FirstWordChar(w, s, i, e);
    LeadingSkip(w, s, i);
    if f < e {
      var l := LastWordEnd(w, s, i, e);
      MatchAtFirst(w, s, i);
      assert FindTokens(w, s, f) == [s[f..l]] + FindTokens(w, s, l);
      TrailingSkip(w, s, i);
    }
  }

  /** A character outside `[\w'-]` is skipped by both the scan and the
      reference. */
  lemma SkipSeparator(w: char -> bool, s: string, e: nat)
    requires e < |s| && !InTokenClass(w, s[e])
    ensures FindTokens(w, s, e) == FindTokens(w, s, e + 1)
    ensures RunTokens(w, s, e) == RunTokens(w, s, e + 1)
  {
    assert TokenMatchAt(w, s, e).None?;
  }

  /** One maximal run: the scan and the reference agree from its start when
      they agree from just past the separator that ends it. */
  lemma RunStep(w: char -> bool, s: string, i: nat)
    requires i < |s| && InTokenClass(w, s[i])
    requires i == 0 || !InTokenClass(w, s[i - 1])
    requires RunEnd(w, s, i) < |s| ==>
               FindTokens(w, s, RunEnd(w, s, i) + 1) == RunTokens(w, s, RunEnd(w, s, i) + 1)
    ensures FindTokens(w, s, i) == RunTokens(w, s, i)
  {
    var e := RunEnd(w, s, i);
    if e < |s| {
      SkipSeparator(w, s, e);
    } else {
      assert FindTokens(w, s, e) == [] == RunTokens(w, s, e);
    }
    RunScan(w, s, i);
    RunTokensStep(w, s, i);
  }

  /** The reference tokens from the start of a run: the run's token, then
      the tokens after it. */
  lemma RunTokensStep(w: char -> bool, s: string, i: nat)
    requires i < |s| && InTokenClass(w, s[i])
    ensures RunTokens(w, s, i) == RunHead(w, s, i, RunEnd(w, s, i)) + RunTokens(w, s, RunEnd(w, s, i))
  {
  }

  lemma {:induction false} TokensAreRunsFrom(w: char -> bool, s: string, i: nat)
    requires i <= |s|
    requires i == 0 || !InTokenClass(w, s[i - 1])
    ensures FindTokens(w, s, i) == RunTokens(w, s, i)
    decreases |s| - i
  {
    if i == |s| {
    } else if !InTokenClass(w, s[i]) {
      SkipSeparator(w, s, i);
      TokensAreRunsFrom(w, s, i + 1);
    } else {
      var e := RunEnd(w, s, i);
      if e < |s| {
        TokensAreRunsFrom(w, s, e + 1);
      }
      RunStep(w, s, i);
    }
  }

  /** The regular-expression scan gives exactly one token per maximal run of
      `[\w'-]` characters that holds a `\w` character. */
  lemma WordTokensAreRuns(w: char -> bool, s: string)
    ensures WordTokens(w, s) == RunTokens(w, s, 0)
  {
    TokensAreRunsFrom(w, s, 0);
  }

  /** A predicate on tokens: non-empty, made of `[\w'-]` characters, and
      beginning and ending with a `\w` character. */
  predicate TokenShaped(w: char -> bool, t: string)
  {
    |t| > 0 && w(t[0]) && w(t[|t| - 1]) &&
    forall k :: 0 <= k < |t| ==> InTokenClass(w, t[k])
  }

  lemma RunHeadShape(w: char -> bool, s: string, i: nat)
    requires i <= |s|
    ensures forall t :: t in RunHead(w, s, i, RunEnd(w, s, i)) ==> TokenShaped(w, t)
  {
    var e := RunEnd(w, s, i);
    var f := FirstWordChar(w, s, i, e);
    if f < e {
      var l := LastWordEnd(w, s, i, e);
      assert f < l;
      var t := s[f..l];
      assert t[0] == s[f] && t[|t| - 1] == s[l - 1];
      assert forall k :: 0 <= k < |t| ==> t[k] == s[f + k];
      assert TokenShaped(w, t);
    }
  }

  /** Every reference token is non-empty, made of `[\w'-]` characters, and
      begins and ends with a `\w` character. */
  lemma {:induction false} RunTokenShape(w: char -> bool, s: string, i: nat)
    requires i <= |s|
    ensures forall t :: t in RunTokens(w, s, i) ==> TokenShaped(w, t)
    decreases |s| - i
  {
    if i == |s| {
    } else if !InTokenClass(w, s[i]) {
      RunTokenShape(w, s, i + 1);
    } else {
      var e := RunEnd(w, s, i);
      RunTokenShape(w, s, e);
      RunHeadShape(w, s, i);
    }
  }

  // ---------------------------------------------------------------------
  // Words per minute
  // ---------------------------------------------------------------------

  /** `max(float(duration_seconds), 0.1)`: the duration used as divisor. */
  function SafeDuration(durationSeconds: real): (d: real)
    ensures d >= 0.1
    ensures d == durationSeconds || (d == 0.1 && durationSeconds < 0.1)
  {
    if 0.1 > durationSeconds then 0.1 else durationSeconds
  }

  /** A count per second, scaled to a minute. */
  lemma PerMinute(n: real, d: real)
    requires d > 0.0
    ensures (n / d) * 60.0 == (n * 60.0) / d
  {
    var q := n / d;
    assert q * d == n;
    assert (q * 60.0) * d == n * 60.0;
  }

  /** `compute_wpm`: zero without word tokens, otherwise the token count per
      minute over the floored duration. The floor applies to non-positive
      durations too, so those give a positive rate. */
  function ComputeWpm(w: char -> bool, transcript: string, durationSeconds: real): (wpm: real)
    ensures wpm == (|WordTokens(w, transcript)| as real * 60.0) / SafeDuration(durationSeconds)
    ensures wpm == 0.0 <==> |WordTokens(w, transcript)| == 0
    ensures wpm >= 0.0
  {
    if transcript == [] then 0.0
    else
      var wordCount := |WordTokens(w, transcript)|;
      if wordCount == 0 then 0.0
      else
        PerMinute(wordCount as real, SafeDuration(durationSeconds));
        (wordCount as real / SafeDuration(durationSeconds)) * 60.0
  }

  /** Despite the doc-comment's "returns 0.0 if duration_seconds is
      non-positive", a transcript with words and a duration of at most 0.1 s
      gets 600 words per minute per token. */
  lemma WpmAtTinyDuration(w: char -> bool, transcript: string, durationSeconds: real)
    requires durationSeconds <= 0.1
    ensures ComputeWpm(w, transcript, durationSeconds) == 600.0 * |WordTokens(w, transcript)| as real
    ensures |WordTokens(w, transcript)| > 0 ==> ComputeWpm(w, transcript, durationSeconds) > 0.0
  {
  }

  // ---------------------------------------------------------------------
  // Fillers: re.findall(r"\b" + re.escape(filler) + r"\b", text)
  // ---------------------------------------------------------------------

  /** The lexicon used when no filler list is given. */
  const DefaultFillers: seq<string> := ["um", "uh", "like", "you know"]

  function Lexicon(fillerList: Option<seq<string>>): seq<string>
  {
    if fillerList.None? then DefaultFillers else fillerList.value
  }

  /** `pat` occurs at `i` as a whole word: `\b`, then `pat` literally, then `\b`. */
  predicate WholeWordAt(w: char -> bool, text: string, pat: string, i: nat)
    requires i <= |text|
  {
    i + |pat| <= |text| && IsBoundary(w, text, i) &&
    text[i..i + |pat|] == pat && IsBoundary(w, text, i + |pat|)
  }

  /** The number of matches `re.findall` returns for `\b pat \b`, scanning
      from `i`: matches do not overlap, the scan resumes at the end of each
      match, and one position later after an empty match. */
  function Occurrences(w: char -> bool, text: string, pat: string, i: nat): (r: nat)
    requires i <= |text|
    decreases |text| - i
  {
    var next := if |pat| == 0 then i + 1 else i + |pat|;
    if WholeWordAt(w, text, pat, i) then
      1 + (if next <= |text| then Occurrences(w, text, pat, next) else 0)
    else if i == |text| then 0
    else Occurrences(w, text, pat, i + 1)
  }

  /** The sum, over `lexicon`, of the matches of each lower-cased entry. */
  function LexiconTotal(w: char -> bool, text: string, lexicon: seq<string>): nat
  {
    if lexicon == [] then 0
    else LexiconTotal(w, text, lexicon[..|lexicon| - 1]) +
         Occurrences(w, text, Lower(lexicon[|lexicon| - 1]), 0)
  }

  /** What `count_fillers` returns. */
  function FillerCount(w: char -> bool, transcript: string, fillerList: Option<seq<string>>): nat
  {
    if transcript == [] then 0 else LexiconTotal(w, Lower(transcript), Lexicon(fillerList))
  }

  /** `count_fillers`: accumulates, entry by entry, the whole-word matches of
      each filler in the lower-cased transcript. */
  method CountFillers(w: char -> bool, transcript: string, fillerList: Option<seq<string>>)
    returns (total: nat)
    ensures total == FillerCount(w, transcript, fillerList)
    ensures transcript == [] ==> total == 0
  {
    if transcript == [] {
      return 0;
    }
    var fillers := Lexicon(fillerList);
    var text := Lower(transcript);
    total := 0;
    var k := 0;
    while k < |fillers|
      invariant 0 <= k <= |fillers|
      invariant total == LexiconTotal(w, text, fillers[..k])
    {
      assert fillers[..k + 1][..k] == fillers[..k];
      total := total + Occurrences(w, text, Lower(fillers[k]), 0);
      k := k + 1;
    }
    assert fillers[..k] == fillers;
  }

  /** Matching is case-insensitive: transcripts that agree once lower-cased
      have the same filler count. */
  lemma FillerCountIgnoresCase(w: char -> bool, t1: string, t2: string, fillerList: Option<seq<string>>)
    requires Lower(t1) == Lower(t2)
    ensures FillerCount(w, t1, fillerList) == FillerCount(w, t2, fillerList)
  {
  }

  /** The number of positions from `i` on where `pat` occurs as a whole word. */
  function WholeWordPositions(w: char -> bool, text: string, pat: string, i: nat): nat
    requires i <= |text|
    decreases |text| - i
  {
    (if WholeWordAt(w, text, pat, i) then 1 else 0) +
    (if i < |text| then WholeWordPositions(w, text, pat, i + 1) else 0)
  }

  lemma {:induction false} SkipPositions(w: char -> bool, text: string, pat: string, a: nat, b: nat)
    requires a <= b <= |text|
    requires forall q :: a <= q < b ==> !WholeWordAt(w, text, pat, q)
    ensures WholeWordPositions(w, text, pat, a) == WholeWordPositions(w, text, pat, b)
    decreases b - a
  {
    if a < b {
      SkipPositions(w, text, pat, a + 1, b);
    }
  }

  /** For a filler made only of `\w` characters, whole-word occurrences can
      never overlap, so the count is simply the number of positions at which
      the filler occurs as a whole word. */
  lemma {:induction false} SingleWordOccurrences(w: char -> bool, text: string, pat: string, i: nat)
    requires i <= |text|
    requires |pat| > 0 && forall k :: 0 <= k < |pat| ==> w(pat[k])
    ensures Occurrences(w, text, pat, i) == WholeWordPositions(w, text, pat, i)
    decreases |text| - i
  {
    if WholeWordAt(w, text, pat, i) {
      var n := |pat|;
      forall q | i < q < i + n
        ensures !WholeWordAt(w, text, pat, q)
      {
        assert text[q - 1] == text[i..i + n][q - 1 - i] == pat[q - 1 - i];
        assert text[q] == text[i..i + n][q - i] == pat[q - i];
        assert !IsBoundary(w, text, q);
      }
      SkipPositions(w, text, pat, i + 1, i + n);
      SingleWordOccurrences(w, text, pat, i + n);
    } else if i < |text| {
      SingleWordOccurrences(w, text, pat, i + 1);
    }
  }

  /** The lexicon total is zero exactly when no entry is found. */
  lemma {:induction false} LexiconTotalZero(w: char -> bool, text: string, lexicon: seq<string>)
    ensures LexiconTotal(w, text, lexicon) == 0 <==>
              forall k :: 0 <= k < |lexicon| ==> Occurrences(w, text, Lower(lexicon[k]), 0) == 0
    decreases |lexicon|
  {
    if lexicon != [] {
      var init := lexicon[..|lexicon| - 1];
      LexiconTotalZero(w, text, init);
      assert forall k :: 0 <= k < |init| ==> init[k] == lexicon[k];
    }
  }

  /** The scan finds nothing exactly when `pat` occurs as a whole word at
      no position from `i` on. */
  lemma {:induction false} NoOccurrences(w: char -> bool, text: string, pat: string, i: nat)
    requires i <= |text|
    ensures Occurrences(w, text, pat, i) == 0 <==>
              forall p :: i <= p <= |text| ==> !WholeWordAt(w, text, pat, p)
    decreases |text| - i
  {
    if !WholeWordAt(w, text, pat, i) && i < |text| {
      NoOccurrences(w, text, pat, i + 1);
    }
  }

  /** Matches do not overlap: a non-empty filler fits into the rest of the
      text at most as many times as its length allows. */
  lemma {:induction false} OccurrencesFit(w: char -> bool, text: string, pat: string, i: nat)
    requires i <= |text| && |pat| > 0
    ensures Occurrences(w, text, pat, i) * |pat| <= |text| - i
    decreases |text| - i
  {
    if WholeWordAt(w, text, pat, i) {
      OccurrencesFit(w, text, pat, i + |pat|);
      MultiplyStep(Occurrences(w, text, pat, i + |pat|), |pat|);
    } else if i < |text| {
      OccurrencesFit(w, text, pat, i + 1);
    }
  }

  lemma MultiplyStep(m: nat, n: nat)
    ensures (1 + m) * n == n + m * n
  {
  }

  // ---------------------------------------------------------------------
  // Sentences: re.split(r"[\.\?!]+", s), then strip and drop empties
  // ---------------------------------------------------------------------

  predicate IsTerminator(c: char)
  {
    c == '.' || c == '?' || c == '!'
  }

  predicate NoTerminator(s: string)
  {
    forall k :: 0 <= k < |s| ==> !IsTerminator(s[k])
  }

  /** `s` without its leading run of terminators. */
  function DropTerminators(s: string): (r: string)
    ensures |r| <= |s| && r == s[|s| - |r|..]
    ensures r == [] || !IsTerminator(r[0])
    ensures s != [] && IsTerminator(s[0]) ==> |r| < |s|
    decreases |s|
  {
    if s != [] && IsTerminator(s[0]) then DropTerminators(s[1..]) else s
  }

  /** `re.split(r"[\.\?!]+", s)`: the pieces between maximal runs of
      terminators, with an empty piece before a leading run and after a
      trailing one. */
  function SplitOnTerminators(s: string): (parts: seq<string>)
    ensures |parts| >= 1
    ensures forall k :: 0 <= k < |parts| ==> NoTerminator(parts[k])
    decreases |s|
  {
    if s == [] then [""]
    else if IsTerminator(s[0]) then [""] + SplitOnTerminators(DropTerminators(s))
    else
      var rest := SplitOnTerminators(s[1..]);
      [[s[0]] + rest[0]] + rest[1..]
  }

  /** `[p.strip() for p in parts if p.strip()]`. */
  function KeepStripped(parts: seq<string>): (r: seq<string>)
    ensures |r| <= |parts|
    ensures forall k :: 0 <= k < |r| ==> r[k] != [] && !IsSpace(r[k][0]) && !IsSpace(r[k][|r[k]| - 1])
  {
    if parts == [] then []
    else (if Strip(parts[0]) != [] then [Strip(parts[0])] else []) + KeepStripped(parts[1..])
  }

  /** `split_sentences`: no sentences for an empty transcript, and every
      sentence non-empty with no whitespace at either end. */
  function SplitSentences(transcript: string): (r: seq<string>)
    ensures transcript == [] ==> r == []
    ensures forall k :: 0 <= k < |r| ==> r[k] != [] && !IsSpace(r[k][0]) && !IsSpace(r[k][|r[k]| - 1])
  {
    if transcript == [] then [] else KeepStripped(SplitOnTerminators(transcript))
  }

  /** A stripped piece has nothing left to strip and keeps the piece's
      freedom from terminators. */
  lemma StrippedPiece(p: string)
    requires NoTerminator(p)
    ensures Strip(Strip(p)) == Strip(p) && NoTerminator(Strip(p))
  {
    var t := Strip(p);
    StripNoOp(t);
    var b := StripStart(p, 0);
    assert t == p[b..StripEnd(p, b, |p|)];
    forall k | 0 <= k < |t|
      ensures !IsTerminator(t[k])
    {
      assert t[k] == p[b + k];
    }
  }

  lemma {:induction false} KeepStrippedShape(parts: seq<string>)
    requires forall k :: 0 <= k < |parts| ==> NoTerminator(parts[k])
    ensures forall k :: 0 <= k < |KeepStripped(parts)| ==>
              var t := KeepStripped(parts)[k];
              t != [] && Strip(t) == t && NoTerminator(t)
  {
    if parts != [] {
      KeepStrippedShape(parts[1..]);
      StrippedPiece(parts[0]);
    }
  }

  /** Every sentence is non-empty, has no leading or trailing whitespace and
      holds none of `.`, `?`, `!`. */
  lemma SentencesShape(transcript: string)
    ensures forall k :: 0 <= k < |SplitSentences(transcript)| ==>
              var t := SplitSentences(transcript)[k];
              t != [] && Strip(t) == t && NoTerminator(t)
  {
    if transcript != [] {
      KeepStrippedShape(SplitOnTerminators(transcript));
    }
  }

  /** `s` with every maximal run of terminators replaced by a single `.`. */
  function CollapseTerminators(s: string): string
    decreases |s|
  {
    if s == [] then []
    else if IsTerminator(s[0]) then "." + CollapseTerminators(DropTerminators(s))
    else [s[0]] + CollapseTerminators(s[1..])
  }

  /** The pieces are exactly what lies between maximal runs of terminators:
      joined back with one `.` per run they give the input with each run
      collapsed. As no piece holds a terminator, this fixes the pieces. */
  lemma {:induction false} PiecesJoin(s: string)
    ensures Join(".", SplitOnTerminators(s)) == CollapseTerminators(s)
    decreases |s|
  {
    if s == [] {
    } else if IsTerminator(s[0]) {
      PiecesJoin(DropTerminators(s));
      JoinAfterRun(s);
    } else {
      PiecesJoin(s[1..]);
      JoinAfterChar(s);
    }
  }

  /** A leading run of terminators becomes the `.` after an empty piece. */
  lemma JoinAfterRun(s: string)
    requires s != [] && IsTerminator(s[0])
    requires Join(".", SplitOnTerminators(DropTerminators(s))) == CollapseTerminators(DropTerminators(s))
    ensures Join(".", SplitOnTerminators(s)) == CollapseTerminators(s)
  {
    var pieces := SplitOnTerminators(DropTerminators(s));
    assert SplitOnTerminators(s) == [[]] + pieces;
    JoinAfterEmpty(".", pieces);
  }

  /** A leading non-terminator is the first character of the join. */
  lemma JoinAfterChar(s: string)
    requires s != [] && !IsTerminator(s[0])
    requires Join(".", SplitOnTerminators(s[1..])) == CollapseTerminators(s[1..])
    ensures Join(".", SplitOnTerminators(s)) == CollapseTerminators(s)
  {
    var rest := SplitOnTerminators(s[1..]);
    assert SplitOnTerminators(s) == [[s[0]] + rest[0]] + rest[1..];
    JoinGrowFirst(".", s[0], rest);
  }

  /** `KeepStripped` distributes over concatenation; with `KeepStrippedOne`
      this makes it the filter-map that keeps the stripped text of each
      non-blank piece, in order. */
  lemma {:induction false} KeepStrippedDistributes(a: seq<string>, b: seq<string>)
    ensures KeepStripped(a + b) == KeepStripped(a) + KeepStripped(b)
    decreases |a|
  {
    if a == [] {
      assert a + b == b;
    } else {
      var r := a[1..];
      KeepStrippedDistributes(r, b);
      assert a == [a[0]] + r;
      Assoc3([a[0]], r, b);
      KeepStrippedCons(a[0], r + b);
      KeepStrippedCons(a[0], r);
      Assoc3(KeepStripped([a[0]]), KeepStripped(r), KeepStripped(b));
    }
  }

  /** The first piece contributes on its own. */
  lemma KeepStrippedCons(x: string, rest: seq<string>)
    ensures KeepStripped([x] + rest) == KeepStripped([x]) + KeepStripped(rest)
  {
    assert ([x] + rest)[0] == x && ([x] + rest)[1..] == rest;
    assert [x][1..] == [];
  }

  /** A single piece gives its stripped text when that is non-blank, and
      nothing otherwise. */
  lemma KeepStrippedOne(p: string)
    ensures KeepStripped([p]) == (if Strip(p) != [] then [Strip(p)] else [])
  {
    assert [p][1..] == [];
  }

  /** The characters of `s` other than terminators. */
  function RemoveTerminators(s: string): string
  {
    if s == [] then [] else (if IsTerminator(s[0]) then [] else [s[0]]) + RemoveTerminators(s[1..])
  }

  lemma {:induction false} DropKeepsRest(s: string)
    ensures RemoveTerminators(DropTerminators(s)) == RemoveTerminators(s)
    decreases |s|
  {
    if s != [] && IsTerminator(s[0]) {
      DropKeepsRest(s[1..]);
    }
  }

  lemma ConcatCons(x: string, xs: seq<string>)
    ensures Concat([x] + xs) == x + Concat(xs)
  {
    assert ([x] + xs)[0] == x && ([x] + xs)[1..] == xs;
  }

  /** A leading run of terminators contributes an empty piece. */
  lemma PiecesAfterRun(s: string)
    requires s != [] && IsTerminator(s[0])
    requires Concat(SplitOnTerminators(DropTerminators(s))) == RemoveTerminators(DropTerminators(s))
    ensures Concat(SplitOnTerminators(s)) == RemoveTerminators(s)
  {
    var rest := SplitOnTerminators(DropTerminators(s));
    DropKeepsRest(s);
    assert SplitOnTerminators(s) == [""] + rest;
    ConcatCons("", rest);
  }

  /** A leading non-terminator joins the first piece. */
  lemma PiecesGrow(c: char, rest: seq<string>)
    requires |rest| >= 1
    ensures Concat([[c] + rest[0]] + rest[1..]) == [c] + Concat(rest)
  {
    ConcatCons([c] + rest[0], rest[1..]);
    Assoc3([c], rest[0], Concat(rest[1..]));
  }

  lemma {:induction false} PiecesConcat(s: string)
    ensures Concat(SplitOnTerminators(s)) == RemoveTerminators(s)
    decreases |s|
  {
    if s == [] {
      ConcatCons("", []);
    } else if IsTerminator(s[0]) {
      PiecesConcat(DropTerminators(s));
      PiecesAfterRun(s);
    } else {
      PiecesConcat(s[1..]);
      var rest := SplitOnTerminators(s[1..]);
      assert SplitOnTerminators(s) == [[s[0]] + rest[0]] + rest[1..];
      PiecesGrow(s[0], rest);
      assert RemoveTerminators(s) == [s[0]] + RemoveTerminators(s[1..]);
    }
  }

  lemma {:induction false} NonSpaceOfAllSpace(s: string)
    requires AllSpace(s)
    ensures NonSpace(s) == []
  {
    if s != [] {
      NonSpaceOfAllSpace(s[1..]);
    }
  }

  lemma StripKeepsNonSpace(s: string)
    ensures NonSpace(Strip(s)) == NonSpace(s)
  {
    var r := Strip(s);
    StripSlice(s);
    var b := StripStart(s, 0);
    var e := StripEnd(s, b, |s|);
    assert s[..e] == s[..b] + r;
    assert s == s[..e] + s[e..];
    NonSpaceAppend(s[..e], s[e..]);
    NonSpaceAppend(s[..b], r);
    NonSpaceOfAllSpace(s[..b]);
    NonSpaceOfAllSpace(s[e..]);
  }

  lemma {:induction false} KeepStrippedNonSpace(parts: seq<string>)
    ensures NonSpace(Concat(KeepStripped(parts))) == NonSpace(Concat(parts))
  {
    if parts != [] {
      KeepStrippedNonSpace(parts[1..]);
      var t := Strip(parts[0]);
      var head := if t != [] then [t] else [];
      var tail := KeepStripped(parts[1..]);
      assert KeepStripped(parts) == head + tail;
      assert Concat(head) == t by {
        if t != [] {
          assert Concat([t]) == t + Concat([]);
        }
      }
      assert Concat(head + tail) == t + Concat(tail) by {
        if t != [] {
          assert (head + tail)[0] == t && (head + tail)[1..] == tail;
        } else {
          assert head + tail == tail;
        }
      }
      StripKeepsNonSpace(parts[0]);
      NonSpaceAppend(t, Concat(tail));
      NonSpaceAppend(parts[0], Concat(parts[1..]));
      assert Concat(parts) == parts[0] + Concat(parts[1..]);
    }
  }

  /** Splitting loses only whitespace and terminators: the visible
      characters of the sentences, in order, are those of the transcript. */
  lemma SentencesKeepText(transcript: string)
    ensures NonSpace(Concat(SplitSentences(transcript))) == NonSpace(RemoveTerminators(transcript))
  {
    if transcript != [] {
      KeepStrippedNonSpace(SplitOnTerminators(transcript));
      PiecesConcat(transcript);
    }
  }

  // ---------------------------------------------------------------------
  // Metrics
  // ---------------------------------------------------------------------

  datatype SpeechMetrics = SpeechMetrics(wpm: real, totalWords: nat, totalFillers: nat, fillersPerMin: real)

  /** `compute_metrics` (before rounding `fillersPerMin`): token count,
      words-per-minute, default-lexicon filler count and fillers-per-minute,
      the latter zero for a non-positive duration. */
  function ComputeMetrics(w: char -> bool, transcript: string, durationSeconds: real): (m: SpeechMetrics)
    ensures m.totalWords == |WordTokens(w, transcript)|
    ensures m.totalFillers == FillerCount(w, transcript, None)
    ensures m.wpm == (m.totalWords as real * 60.0) / SafeDuration(durationSeconds)
    ensures durationSeconds <= 0.0 ==> m.fillersPerMin == 0.0
    ensures durationSeconds > 0.0 ==>
              m.fillersPerMin == (m.totalFillers as real * 60.0) / SafeDuration(durationSeconds)
    ensures m.wpm >= 0.0 && m.fillersPerMin >= 0.0
  {
    var words := if transcript != [] then WordTokens(w, transcript) else [];
    var totalFillers := FillerCount(w, transcript, None);
    SpeechMetrics(ComputeWpm(w, transcript, durationSeconds), |words|, totalFillers,
                  FillerRate(totalFillers, durationSeconds))
  }

  /** The fillers-per-minute branch of `compute_metrics`. */
  function FillerRate(totalFillers: nat, durationSeconds: real): (r: real)
    ensures durationSeconds <= 0.0 ==> r == 0.0
    ensures durationSeconds > 0.0 ==> r == (totalFillers as real * 60.0) / SafeDuration(durationSeconds)
    ensures r >= 0.0
  {
    if durationSeconds <= 0.0 then 0.0
    else
      (PerMinute(totalFillers as real, SafeDuration(durationSeconds));
       (totalFillers as real / SafeDuration(durationSeconds)) * 60.0)
  }

  /** For a duration of at least 0.1 s the two rates are in the same ratio as
      the two counts. */
  lemma RatesAgree(w: char -> bool, transcript: string, durationSeconds: real)
    requires durationSeconds >= 0.1
    ensures var m := ComputeMetrics(w, transcript, durationSeconds);
            m.fillersPerMin * m.totalWords as real == m.wpm * m.totalFillers as real
  {
    var m := ComputeMetrics(w, transcript, durationSeconds);
    MetricsCross(m, SafeDuration(durationSeconds));
  }

  lemma MetricsCross(m: SpeechMetrics, d: real)
    requires d > 0.0
    requires m.wpm == (m.totalWords as real * 60.0) / d
    requires m.fillersPerMin == (m.totalFillers as real * 60.0) / d
    ensures m.fillersPerMin * m.totalWords as real == m.wpm * m.totalFillers as real
  {
    CrossRates(m.totalWords as real, m.totalFillers as real, d);
  }

  lemma CrossRates(a: real, b: real, d: real)
    requires d > 0.0
    ensures ((b * 60.0) / d) * a == ((a * 60.0) / d) * b
  {
    var q := 60.0 / d;
    assert (b * 60.0) / d == b * q;
    assert (a * 60.0) / d == a * q;
  }

  // ---------------------------------------------------------------------
  // Highlights
  // ---------------------------------------------------------------------

  datatype Highlight = Highlight(wordIndex: nat, issueType: string)

  /** `{f.lower() for f in filler_list}`. */
  function LoweredLexicon(fillers: seq<string>): set<string>
  {
    set f | f in fillers :: Lower(f)
  }

  predicate IsFillerToken(token: string, fillers: seq<string>)
  {
    Lower(token) in LoweredLexicon(fillers)
  }

  /** The word indices of `hs`, in order. */
  function Positions(hs: seq<Highlight>): (ps: seq<nat>)
    ensures |ps| == |hs| && forall j :: 0 <= j < |hs| ==> ps[j] == hs[j].wordIndex
  {
    seq(|hs|, j requires 0 <= j < |hs| => hs[j].wordIndex)
  }

  /** `hs` flags, in ascending order and as type "filler", exactly the
      positions of `words` whose lower-case form is in the lexicon. */
  predicate HighlightsOf(hs: seq<Highlight>, words: seq<string>, fillers: seq<string>)
  {
    (forall j :: 0 <= j < |hs| ==> hs[j].issueType == "filler" && hs[j].wordIndex < |words|) &&
    (forall i, j :: 0 <= i < j < |hs| ==> hs[i].wordIndex < hs[j].wordIndex) &&
    (forall k :: 0 <= k < |words| ==>
       (IsFillerToken(words[k], fillers) <==> k in Positions(hs)))
  }

  /** `compute_highlights`: one "filler" highlight per whitespace token whose
      lower-case form is in the lexicon, in token order. */
  method ComputeHighlights(transcript: string, fillerList: Option<seq<string>>)
    returns (hs: seq<Highlight>)
    ensures HighlightsOf(hs, Split(transcript), Lexicon(fillerList))
    ensures transcript == [] ==> hs == []
  {
    if transcript == [] {
      return [];
    }
    var fillers := Lexicon(fillerList);
    var words := Split(transcript);
    var lowered := LoweredLexicon(fillers);
    hs := [];
    for idx := 0 to |words|
      invariant forall j :: 0 <= j < |hs| ==> hs[j].issueType == "filler" && hs[j].wordIndex < idx
      invariant forall i, j :: 0 <= i < j < |hs| ==> hs[i].wordIndex < hs[j].wordIndex
      invariant forall k :: 0 <= k < idx ==>
                  (IsFillerToken(words[k], fillers) <==> k in Positions(hs))
    {
      if Lower(words[idx]) in lowered {
        assert Positions(hs + [Highlight(idx, "filler")]) == Positions(hs) + [idx];
        hs := hs + [Highlight(idx, "filler")];
      }
    }
  }

  /** Tokens come from a whitespace split, so the two-word default filler
      "you know" never matches one: with the default lexicon a token is
      highlighted exactly when it is "um", "uh" or "like" in some case. */
  lemma MultiWordFillerNeverHighlighted(transcript: string)
    ensures forall k :: 0 <= k < |Split(transcript)| ==>
              (IsFillerToken(Split(transcript)[k], DefaultFillers) <==>
               Lower(Split(transcript)[k]) in {"um", "uh", "like"})
  {
    var words := Split(transcript);
    SplitTokens(transcript);
    DefaultLexiconLowered();
    forall k | 0 <= k < |words|
      ensures Lower(words[k]) != "you know"
    {
      NotAPhrase(words[k]);
    }
  }

  /** Highlight indices count whitespace tokens, word counts count word
      tokens: on "um - um" the second "um" is highlighted at index 2, while
      the transcript has only 2 word tokens. */
  lemma HighlightIndexPastWordCount(w: char -> bool)
    requires w('u') && w('m') && !w(' ') && !w('-')
    ensures Split("um - um") == ["um", "-", "um"]
    ensures |WordTokens(w, "um - um")| == 2
    ensures IsFillerToken(Split("um - um")[2], DefaultFillers)
  {
    UmDashUmSplit();
    WordTokensAreRuns(w, "um - um");
    RunTokenCount(w, "um - um");
    DefaultLexiconLowered();
  }

  /** The whitespace tokens of "um - um". */
  lemma UmDashUmSplit()
    ensures Split("um - um") == ["um", "-", "um"]
  {
    ThreeWords("um", "-", "um", ' ');
    assert "um" + [' '] + "-" + [' '] + "um" == "um - um";
  }

  /** Three words separated by single spaces split into those words. */
  lemma ThreeWords(a: string, b: string, c: string, sp: char)
    requires a != [] && NoSpace(a) && b != [] && NoSpace(b) && c != [] && NoSpace(c) && IsSpace(sp)
    ensures Split(a + [sp] + b + [sp] + c) == [a, b, c]
  {
    var tail := b + ([sp] + c);
    SingleWord(c);
    WordThenRest(b, sp, c);
    assert Split(tail) == [b, c];
    WordThenRest(a, sp, tail);
    AppendFive(a, [sp], b, [sp], c);
  }

  lemma AppendFive(a: string, b: string, c: string, d: string, e: string)
    ensures a + b + c + d + e == a + (b + (c + (d + e)))
  {
  }

  /** The reference tokens of "um - um", run by run. */
  lemma RunTokenCount(w: char -> bool, s: string)
    requires s == "um - um" && w('u') && w('m') && !w(' ') && !w('-')
    ensures |RunTokens(w, s, 0)| == 2
  {
    assert RunEnd(w, s, 7) == 7 && RunEnd(w, s, 6) == 7 && RunEnd(w, s, 5) == 7;
    assert RunEnd(w, s, 2) == 2 && RunEnd(w, s, 1) == 2 && RunEnd(w, s, 0) == 2;
    assert RunEnd(w, s, 4) == 4 && RunEnd(w, s, 3) == 4;
    assert |RunHead(w, s, 5, 7)| == 1 && |RunHead(w, s, 0, 2)| == 1;
    assert FirstWordChar(w, s, 4, 4) == 4 && FirstWordChar(w, s, 3, 4) == 4;
    assert RunHead(w, s, 3, 4) == [];
    assert RunTokens(w, s, 5) == RunHead(w, s, 5, 7) + RunTokens(w, s, 7);
    assert RunTokens(w, s, 4) == RunTokens(w, s, 5);
    assert RunTokens(w, s, 3) == RunHead(w, s, 3, 4) + RunTokens(w, s, 4);
    assert RunTokens(w, s, 2) == RunTokens(w, s, 3);
    assert RunTokens(w, s, 0) == RunHead(w, s, 0, 2) + RunTokens(w, s, 2);
  }

  /** The default lexicon is already lower-case. */
  lemma DefaultLexiconLowered()
    ensures LoweredLexicon(DefaultFillers) == {"um", "uh", "like", "you know"}
  {
    assert Lower("um") == "um" && Lower("uh") == "uh" && Lower("like") == "like";
    assert Lower("you know") == "you know";
  }

  /** A token without whitespace never lower-cases to a two-word phrase. */
  lemma NotAPhrase(t: string)
    requires NoSpace(t)
    ensures Lower(t) != "you know"
  {
    LowerKeepsSpaces(t);
    var lt := Lower(t);
    assert |lt| < 4 || !IsSpace(lt[3]);
    assert IsSpace("you know"[3]);
  }
}
