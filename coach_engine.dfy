/**
 * Scoring of speech metrics against a persona's targets, and the handling
 * of the generative model's coaching reply with its deterministic fallback.
 */
module Coach {
  import opened Wrappers
  import opened Json
  import Metrics

  // ---------------------------------------------------------------------
  // Scoring
  // ---------------------------------------------------------------------

  /** Distance of `wpm` to the band edge it lies beyond, relative to the band
      width, the width being at least 1. */
  function PaceDiff(wpm: real, low: real, high: real): (diff: real)
    ensures wpm < low ==> diff > 0.0
    ensures high < wpm ==> diff > 0.0
  {
    var width := if 1.0 > high - low then 1.0 else high - low;
    if wpm < low then (low - wpm) / width else (wpm - high) / width
  }

  /** `_score_pace`: 0.95 inside the target band, then 0.8, 0.5 or 0.2 as the
      relative distance to the band passes 0.15 and 0.5. */
  function ScorePace(wpm: real, targetRange: seq<int>): (r: real)
    ensures r == 0.2 || r == 0.5 || r == 0.8 || r == 0.95
    ensures wpm <= 0.0 || |targetRange| != 2 ==> r == 0.2
    ensures wpm > 0.0 && |targetRange| == 2 ==>
              (r == 0.95 <==> targetRange[0] as real <= wpm <= targetRange[1] as real)
  {
    if wpm <= 0.0 || |targetRange| != 2 then 0.2
    else
      var low, high := targetRange[0] as real, targetRange[1] as real;
      if low <= wpm <= high then 0.95
      else
        var diff := PaceDiff(wpm, low, high);
        if diff <= 0.15 then 0.8 else if diff <= 0.5 then 0.5 else 0.2
  }

  lemma DivideMonotone(a: real, b: real, c: real)
    requires a <= b && c > 0.0
    ensures a / c <= b / c
  {
    assert b / c - a / c == (b - a) / c;
  }

  /** Above the band, a faster pace never scores better. */
  lemma PaceFallsAboveBand(w1: real, w2: real, targetRange: seq<int>)
    requires |targetRange| == 2 && targetRange[0] <= targetRange[1]
    requires 0.0 < w1 && targetRange[1] as real < w1 <= w2
    ensures ScorePace(w2, targetRange) <= ScorePace(w1, targetRange)
  {
    var low, high := targetRange[0] as real, targetRange[1] as real;
    var width := if 1.0 > high - low then 1.0 else high - low;
    DivideMonotone(w1 - high, w2 - high, width);
  }

  /** Below the band, a slower pace never scores better. */
  lemma PaceFallsBelowBand(w1: real, w2: real, targetRange: seq<int>)
    requires |targetRange| == 2
    requires 0.0 < w1 <= w2 && w2 < targetRange[0] as real
    ensures ScorePace(w1, targetRange) <= ScorePace(w2, targetRange)
  {
    var low, high := targetRange[0] as real, targetRange[1] as real;
    var width := if 1.0 > high - low then 1.0 else high - low;
    DivideMonotone(low - w2, low - w1, width);
  }

  /** A quotient by a positive divisor is at most `k` exactly when the
      dividend is at most `k` times the divisor. */
  lemma QuotientAtMost(a: real, c: real, k: real)
    requires c > 0.0
    ensures a / c <= k <==> a <= k * c
  {
    var q := a / c;
    assert q * c == a;
    if q <= k {
      ScaleAtLeast(k, c, q);
    } else {
      ScaleAtLeast(q, c, k);
      assert q * c - k * c == (q - k) * c;
      assert (q - k) * c > 0.0;
    }
  }

  /** The pace bands in words per minute: with `W` the band width (at least
      1), a pace at most `0.15 W` outside the band scores 0.8, one between
      `0.15 W` and `0.5 W` outside scores 0.5, and one further out 0.2. */
  lemma PaceBands(wpm: real, targetRange: seq<int>)
    requires |targetRange| == 2 && targetRange[0] <= targetRange[1] && wpm > 0.0
    ensures var low, high := targetRange[0] as real, targetRange[1] as real;
            var width := if 1.0 > high - low then 1.0 else high - low;
            var dist := if wpm < low then low - wpm else wpm - high;
            !(low <= wpm <= high) ==>
              (ScorePace(wpm, targetRange) == 0.8 <==> dist <= 0.15 * width) &&
              (ScorePace(wpm, targetRange) == 0.5 <==> 0.15 * width < dist <= 0.5 * width) &&
              (ScorePace(wpm, targetRange) == 0.2 <==> 0.5 * width < dist)
  {
    var low, high := targetRange[0] as real, targetRange[1] as real;
    var width := if 1.0 > high - low then 1.0 else high - low;
    var dist := if wpm < low then low - wpm else wpm - high;
    QuotientAtMost(dist, width, 0.15);
    QuotientAtMost(dist, width, 0.5);
  }

  lemma RatioAbove(f: real, m: real)
    requires m > 0.0
    ensures f > m ==> f / m > 1.0
    ensures f >= 3.0 * m ==> f / m >= 3.0
    ensures f < 3.0 * m ==> f / m < 3.0
  {
    assert f / m * m == f;
    ScaleAtLeast(f / m, m, 3.0);
  }

  lemma ScaleAtLeast(q: real, m: real, c: real)
    requires m > 0.0
    ensures q >= c ==> q * m >= c * m
  {
    if q >= c {
      assert q * m - c * m == (q - c) * m;
    }
  }

  /** `_score_filler_control`: 0.98 up to the allowed rate, then a linear
      fall to 0.2 at three times that rate, and 0.2 beyond; 0.5 when the
      persona allows no fillers at all. */
  function ScoreFillerControl(fillersPerMin: real, maxAllowed: real): (r: real)
    ensures 0.2 <= r <= 0.98
    ensures maxAllowed <= 0.0 ==> r == 0.5
    ensures maxAllowed > 0.0 ==> (r == 0.98 <==> fillersPerMin <= maxAllowed)
    ensures maxAllowed > 0.0 && fillersPerMin >= 3.0 * maxAllowed ==> r == 0.2
  {
    if maxAllowed <= 0.0 then 0.5
    else if fillersPerMin <= maxAllowed then 0.98
    else
      var ratio := fillersPerMin / maxAllowed;
      RatioAbove(fillersPerMin, maxAllowed);
      if ratio >= 3.0 then 0.2
      else
        var score := 0.98 - (ratio - 1.0) * ((0.98 - 0.2) / 2.0);
        if 0.2 > score then 0.2 else score
  }

  /** Between the allowed rate and three times it the score is the linear
      interpolation, strictly between 0.2 and 0.98: the clamp at 0.2 never
      takes effect there. */
  lemma FillerControlLinear(fillersPerMin: real, maxAllowed: real)
    requires maxAllowed > 0.0 && maxAllowed < fillersPerMin < 3.0 * maxAllowed
    ensures ScoreFillerControl(fillersPerMin, maxAllowed) ==
              0.98 - (fillersPerMin / maxAllowed - 1.0) * 0.39
    ensures 0.2 < ScoreFillerControl(fillersPerMin, maxAllowed) < 0.98
  {
    RatioAbove(fillersPerMin, maxAllowed);
  }

  /** More fillers per minute never score better. */
  lemma FillerControlNonIncreasing(f1: real, f2: real, maxAllowed: real)
    requires f1 <= f2
    ensures ScoreFillerControl(f2, maxAllowed) <= ScoreFillerControl(f1, maxAllowed)
  {
    if maxAllowed > 0.0 && f1 > maxAllowed {
      RatioAbove(f1, maxAllowed);
      RatioAbove(f2, maxAllowed);
      DivideMonotone(f1, f2, maxAllowed);
    }
  }

  /** The `targets` part of a persona, as far as scoring reads it; a missing
      key is `None`. */
  datatype PersonaTargets = PersonaTargets(wpm: Option<seq<int>>, maxFillersPerMin: Option<int>)

  datatype Dimensions = Dimensions(pace: real, clarity: real, confidence: real, fillerControl: real)

  datatype PersonaScore = PersonaScore(overall: real, dimensions: Dimensions)

  /** `targets.get("wpm", [0, 0])`: the persona's band when it has one;
      otherwise the band [0, 0], inside which no speech falls. */
  function TargetRange(targets: Option<PersonaTargets>): (r: seq<int>)
    ensures targets.Some? && targets.value.wpm.Some? ==> r == targets.value.wpm.value
    ensures targets.None? || targets.value.wpm.None? ==>
              r == [0, 0] && forall wpm :: ScorePace(wpm, r) != 0.95
  {
    if targets.Some? && targets.value.wpm.Some? then targets.value.wpm.value else [0, 0]
  }

  /** `float(targets.get("maxFillersPerMin", 0))`: the persona's allowance
      when it has one; otherwise 0, for which every rate scores 0.5. */
  function MaxFillers(targets: Option<PersonaTargets>): (r: real)
    ensures targets.Some? && targets.value.maxFillersPerMin.Some? ==>
              r == targets.value.maxFillersPerMin.value as real
    ensures targets.None? || targets.value.maxFillersPerMin.None? ==>
              r == 0.0 && forall f :: ScoreFillerControl(f, r) == 0.5
  {
    if targets.Some? && targets.value.maxFillersPerMin.Some? then targets.value.maxFillersPerMin.value as real
    else 0.0
  }

  /** `score_against_persona` (before rounding): pace and filler control from
      the two step functions, clarity fixed at 0.9, confidence equal to
      filler control, and the overall score their mean. */
  function ScoreAgainstPersona(metrics: Metrics.SpeechMetrics, targets: Option<PersonaTargets>): (s: PersonaScore)
    ensures s.dimensions.pace == ScorePace(metrics.wpm, TargetRange(targets))
    ensures s.dimensions.fillerControl == ScoreFillerControl(metrics.fillersPerMin, MaxFillers(targets))
    ensures s.dimensions.clarity == 0.9
    ensures s.dimensions.confidence == s.dimensions.fillerControl
    ensures s.overall == (s.dimensions.pace + s.dimensions.clarity +
                          s.dimensions.confidence + s.dimensions.fillerControl) / 4.0
    ensures 0.2 <= s.overall <= 0.98
    ensures targets.None? ==> s.dimensions.fillerControl == 0.5 && s.dimensions.pace != 0.95
  {
    var pace := ScorePace(metrics.wpm, TargetRange(targets));
    var fillerControl := ScoreFillerControl(metrics.fillersPerMin, MaxFillers(targets));
    var dims := Dimensions(pace, 0.9, fillerControl, fillerControl);
    PersonaScore((dims.pace + dims.clarity + dims.confidence + dims.fillerControl) / 4.0, dims)
  }

  // ---------------------------------------------------------------------
  // Coaching
  // ---------------------------------------------------------------------

  /** The keys a coaching payload must have. */
  const RequiredKeys: seq<string> := ["summary", "tips", "exercise", "personaScores10", "perSentenceEmotions"]

  predicate HasRequiredKeys(data: Json)
  {
    data.JObject? && forall k :: k in RequiredKeys ==> k in data.fields
  }

  const FallbackSummary: string := "FALLBACK COACHING \U{2013} GEMINI NOT USED"

  const FallbackTips: seq<string> := [
    "This is fallback. Gemini call failed or no key.",
    "Check GOOGLE_API_KEY or model configuration.",
    "Once Gemini is working, this text should disappear."
  ]

  const FallbackExercise: string :=
    "Repeat your introduction while consciously avoiding filler words like 'um' and 'uh'."

  /** `_default_coaching_fallback`, which ignores its arguments: all required
      keys, three non-empty tips, every 10-point score 5.0 and a single
      "neutral" emotion. */
  function DefaultCoachingFallback(): (r: Json)
    ensures HasRequiredKeys(r)
    ensures r.fields["summary"] == JString(FallbackSummary)
    ensures r.fields["tips"].JArray? && |r.fields["tips"].items| == 3
    ensures forall i :: 0 <= i < 3 ==>
              r.fields["tips"].items[i].JString? && r.fields["tips"].items[i].str != []
    ensures r.fields["personaScores10"].JObject?
    ensures var scores := r.fields["personaScores10"].fields;
            scores.Keys == {"confidence", "clarity", "energy", "structure"} &&
            forall k :: k in scores ==> scores[k] == JNumber(5.0)
    ensures r.fields["perSentenceEmotions"] == JArray([JString("neutral")])
  {
    JObject(map[
      "summary" := JString(FallbackSummary),
      "tips" := JArray([JString(FallbackTips[0]), JString(FallbackTips[1]), JString(FallbackTips[2])]),
      "exercise" := JString(FallbackExercise),
      "personaScores10" := JObject(map[
        "confidence" := JNumber(5.0),
        "clarity" := JNumber(5.0),
        "energy" := JNumber(5.0),
        "structure" := JNumber(5.0)]),
      "perSentenceEmotions" := JArray([JString("neutral")])])
  }

  /** What the call to the generative model produced: no model configured,
      a call (or access to its text) that raised, or the reply text. */
  datatype ModelReply = NoModel | CallFailed | Replied(text: string)

  /** The largest index in `[lo, hi)` holding `c`, if any. */
  function LastIndexIn(s: string, c: char, lo: nat, hi: nat): (r: Option<nat>)
    requires lo <= hi <= |s|
    ensures r.Some? ==> lo <= r.value < hi && s[r.value] == c
    ensures r.Some? ==> forall k :: r.value < k < hi ==> s[k] != c
    ensures r.None? ==> forall k :: lo <= k < hi ==> s[k] != c
    decreases hi
  {
    if lo == hi then None
    else if s[hi - 1] == c then Some(hi - 1)
    else LastIndexIn(s, c, lo, hi - 1)
  }

  /** `re.search(r"\{.*\}", s, re.DOTALL)` tried from position `i` on: the
      start and the last index of the match. The match found begins at the
      first `{` and ends at the last `}`, and there is none exactly when no
      `}` follows any `{`. */
  function SearchObject(s: string, i: nat): (r: Option<(nat, nat)>)
    requires i <= |s|
    ensures r.Some? ==> i <= r.value.0 < r.value.1 < |s|
    ensures r.Some? ==> s[r.value.0] == '{' && s[r.value.1] == '}'
    ensures r.Some? ==> forall k :: i <= k < r.value.0 ==> s[k] != '{'
    ensures r.Some? ==> forall k :: r.value.1 < k < |s| ==> s[k] != '}'
    ensures r.None? ==> forall a, b :: i <= a < b < |s| && s[a] == '{' ==> s[b] != '}'
    decreases |s| - i
  {
    if i == |s| then None
    else if s[i] == '{' && LastIndexIn(s, '}', i + 1, |s|).Some? then
      Some((i, LastIndexIn(s, '}', i + 1, |s|).value))
    else SearchObject(s, i + 1)
  }

  /** `match.group(0)`: the text handed to `json.loads`. */
  function JsonCandidate(text: string): (r: Option<string>)
    ensures r.Some? ==> |r.value| >= 2 && r.value[0] == '{' && r.value[|r.value| - 1] == '}'
    ensures r.None? <==> forall a, b :: 0 <= a < b < |text| && text[a] == '{' ==> text[b] != '}'
  {
    match SearchObject(text, 0)
    case Some((a, b)) => Some(text[a..b + 1])
    case None => None
  }

  /** The reply is used as is when it holds a `{...}` span that parses to an
      object with every required key. */
  predicate Accepted(reply: ModelReply, parse: string -> Option<Json>)
  {
    reply.Replied? && JsonCandidate(reply.text).Some? &&
    parse(JsonCandidate(reply.text).value).Some? &&
    HasRequiredKeys(parse(JsonCandidate(reply.text).value).value)
  }

  /** The validation and fallback branches of `generate_coaching_with_gemini`.
      `parse` stands for `json.loads`, `None` for a decoding error. The
      result always has every required key: it is the parsed reply when the
      reply is accepted and the fallback otherwise. */
  function GenerateCoaching(reply: ModelReply, parse: string -> Option<Json>): (data: Json)
    ensures HasRequiredKeys(data)
    ensures Accepted(reply, parse) ==> parse(JsonCandidate(reply.text).value) == Some(data)
    ensures !Accepted(reply, parse) ==> data == DefaultCoachingFallback()
  {
    match reply
    case NoModel => DefaultCoachingFallback()
    case CallFailed => DefaultCoachingFallback()
    case Replied(text) =>
      match JsonCandidate(text)
      case None => DefaultCoachingFallback()
      case Some(candidate) =>
        match parse(candidate)
        case None => DefaultCoachingFallback()
        case Some(data) =>
          if !data.JObject? then DefaultCoachingFallback()
          else if exists k :: k in RequiredKeys && k !in data.fields then DefaultCoachingFallback()
          else data
  }
}
