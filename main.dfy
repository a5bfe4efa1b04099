/**
 * The two endpoints that change or read the in-memory attempt cache:
 * `analyze_speech`, which scores a transcript and stores the narration text
 * under a fresh attempt id, and `confirm_feedback`, which turns that text
 * into audio through a text-to-speech oracle.
 */
module Backend {
  import opened Wrappers
  import opened Strings
  import opened Json
  import opened Metrics
  import opened Coach
  import opened Personas

  /** One `attempt_cache` entry. */
  datatype AttemptRecord = AttemptRecord(personaId: string, coachingText: string)

  datatype HttpError = HttpError(statusCode: nat, detail: string)

  const UnknownPersona: HttpError := HttpError(400, "Unknown personaId")

  /** The response to an uncaught exception in a handler. */
  const InternalError: HttpError := HttpError(500, "Internal Server Error")

  datatype CoachingOut = CoachingOut(summary: Json, tips: Json, exercise: Json, personaScores10: Json)

  datatype AnalyzeResponse = AnalyzeResponse(
    metrics: SpeechMetrics,
    personaScore: PersonaScore,
    coaching: CoachingOut,
    highlights: seq<Highlight>,
    perSentenceEmotions: Json,
    attemptId: string,
    needsConfirmation: bool,
    coachingTextForTts: string)

  datatype ConfirmResponse = ConfirmResponse(audioUrl: Option<string>, fallbackText: Option<string>)

  const NoTextFound: string := "No coaching text found for this attemptId."
  const NoTextAvailable: string := "No coaching text available for this attemptId."

  /** `dict.get(key, default)`. */
  function GetOr(fields: map<string, Json>, key: string, default: Json): Json
  {
    if key in fields then fields[key] else default
  }

  /** The strings of a JSON array, or `None` when an item is not a string
      (`" ".join` then raises a TypeError). */
  function StringItems(items: seq<Json>): (r: Option<seq<string>>)
    ensures r.Some? <==> forall i :: 0 <= i < |items| ==> items[i].JString?
    ensures r.Some? ==> |r.value| == |items| &&
                        forall i :: 0 <= i < |items| ==> r.value[i] == items[i].str
  {
    if items == [] then Some([])
    else if !items[0].JString? then None
    else
      match StringItems(items[1..])
      case None => None
      case Some(rest) => Some([items[0].str] + rest)
  }

  /** `" ".join(tips)` when `tips` is a list, `""` when it is absent or not a
      list, and `None` when the join raises a TypeError on a non-string tip. */
  function JoinedTips(coaching: map<string, Json>): (r: Option<string>)
    ensures r.Some? <==>
              ("tips" !in coaching || !coaching["tips"].JArray? ||
               forall i :: 0 <= i < |coaching["tips"].items| ==> coaching["tips"].items[i].JString?)
  {
    if "tips" in coaching && coaching["tips"].JArray? then
      match StringItems(coaching["tips"].items)
      case Some(tips) => Some(Join(" ", tips))
      case None => None
    else Some("")
  }

  /** The summary text, `""` when absent, and `None` when it is not a string
      (the concatenation then raises a TypeError). */
  function SummaryText(coaching: map<string, Json>): (r: Option<string>)
    ensures r.Some? <==> ("summary" !in coaching || coaching["summary"].JString?)
  {
    if "summary" !in coaching then Some("")
    else if coaching["summary"].JString? then Some(coaching["summary"].str)
    else None
  }

  /** The text to narrate: the summary, then " - " and the space-joined tips
      when that join is non-empty, stripped. `None` is the TypeError raised
      when the summary is not a string or a tip is not a string. */
  function TtsText(coaching: map<string, Json>): (r: Option<string>)
    ensures r.Some? <==>
              ("summary" !in coaching || coaching["summary"].JString?) &&
              ("tips" !in coaching || !coaching["tips"].JArray? ||
               forall i :: 0 <= i < |coaching["tips"].items| ==> coaching["tips"].items[i].JString?)
    ensures r.Some? ==> r.value == [] || (!IsSpace(r.value[0]) && !IsSpace(r.value[|r.value| - 1]))
  {
    var tipsJoined := JoinedTips(coaching);
    var summary := SummaryText(coaching);
    if tipsJoined.None? || summary.None? then None
    else Some(Narration(summary.value, tipsJoined.value))
  }

  /** The summary, then " - " and the joined tips when they are non-empty,
      stripped. */
  function Narration(summary: string, tipsJoined: string): (r: string)
    ensures r == [] || (!IsSpace(r[0]) && !IsSpace(r[|r| - 1]))
  {
    Strip(summary + (if tipsJoined != [] then " - " + tipsJoined else []))
  }

  /** When `tips` is missing or not a list, the narration is the stripped
      summary alone. */
  lemma TtsTextWithoutTips(coaching: map<string, Json>, summary: string)
    requires "summary" in coaching && coaching["summary"] == JString(summary)
    requires "tips" !in coaching || !coaching["tips"].JArray?
    ensures TtsText(coaching) == Some(Strip(summary))
  {
    assert summary + [] == summary;
  }

  /** With a string summary and a list of string tips, the narration is the
      summary, then " - " and the space-joined tips when that join is
      non-empty, stripped. */
  lemma TtsTextWithTips(coaching: map<string, Json>, summary: string, tips: seq<string>)
    requires "summary" in coaching && coaching["summary"] == JString(summary)
    requires "tips" in coaching && coaching["tips"].JArray?
    requires StringItems(coaching["tips"].items) == Some(tips)
    ensures TtsText(coaching) == Some(Narration(summary, Join(" ", tips)))
  {
  }

  /** The narration of the fallback payload. */
  const FallbackNarration: string := FallbackSummary + (" - " + Join(" ", FallbackTips))

  /** The space-joined fallback tips. */
  lemma FallbackTipsJoined()
    ensures Join(" ", FallbackTips) == FallbackTips[0] + " " + FallbackTips[1] + " " + FallbackTips[2]
  {
    var tips := FallbackTips;
    assert Join(" ", tips[2..]) == tips[2];
    assert Join(" ", tips[1..]) == tips[1] + " " + Join(" ", tips[1..][1..]);
    assert tips[1..][1..] == tips[2..];
  }

  /** The fallback tips are all strings. */
  lemma FallbackTipItems()
    ensures DefaultCoachingFallback().fields["tips"].JArray?
    ensures StringItems(DefaultCoachingFallback().fields["tips"].items) == Some(FallbackTips)
  {
    var items := DefaultCoachingFallback().fields["tips"].items;
    assert items == [JString(FallbackTips[0]), JString(FallbackTips[1]), JString(FallbackTips[2])];
    var r := StringItems(items);
    assert r.Some? && |r.value| == 3;
    assert r.value == FallbackTips;
  }

  /** The fallback narration has nothing for `strip` to remove. */
  lemma FallbackNarrationStripped()
    ensures FallbackNarration != [] && Strip(FallbackNarration) == FallbackNarration
  {
    FallbackTipsEnd();
    assert FallbackSummary[0] == 'F';
    JoinedNarrationStripped(FallbackSummary, Join(" ", FallbackTips));
  }

  /** The space-joined fallback tips end with the last tip's full stop. */
  lemma FallbackTipsEnd()
    ensures var joined := Join(" ", FallbackTips); joined != [] && joined[|joined| - 1] == '.'
  {
    var joined := Join(" ", FallbackTips);
    var tip := FallbackTips[2];
    assert tip[|tip| - 1] == '.';
    assert joined[|joined| - |tip|..] == tip;
  }

  /** A summary starting with non-whitespace, " - " and tips ending with
      non-whitespace have nothing for `strip` to remove. */
  lemma JoinedNarrationStripped(summary: string, joined: string)
    requires summary != [] && !IsSpace(summary[0])
    requires joined != [] && !IsSpace(joined[|joined| - 1])
    ensures var n := summary + (" - " + joined); n != [] && Strip(n) == n
  {
    var n := summary + (" - " + joined);
    LastOfAppend(" - ", joined);
    LastOfAppend(summary, " - " + joined);
    assert n[0] == summary[0];
    StripNoOp(n);
  }

  /** The fallback payload narrates its summary followed by its three tips,
      so its narration is never empty. */
  lemma FallbackTtsText()
    ensures TtsText(DefaultCoachingFallback().fields) == Some(FallbackNarration)
    ensures FallbackNarration != []
  {
    FallbackTipItems();
    TtsTextWithTips(DefaultCoachingFallback().fields, FallbackSummary, FallbackTips);
    FallbackNarrationStripped();
    assert Join(" ", FallbackTips) != [];
  }

  /** The scoring view of a registered persona's targets. */
  function TargetsOf(p: Persona): PersonaTargets
  {
    PersonaTargets(Some(p.targets.wpm), Some(p.targets.maxFillersPerMin))
  }

  /** For a registered persona, filler control is 0.98 up to the persona's
      tolerance (the 0.5 branch for a non-positive tolerance is never taken),
      and pace is 0.95 exactly inside its band. */
  lemma RegisteredPersonaScoring(personaId: string, m: SpeechMetrics)
    requires GetPersona(personaId).Some?
    ensures var p := GetPersona(personaId).value;
            var s := ScoreAgainstPersona(m, Some(TargetsOf(p)));
            (s.dimensions.fillerControl == 0.98 <==>
               m.fillersPerMin <= p.targets.maxFillersPerMin as real) &&
            (m.wpm > 0.0 ==>
               (s.dimensions.pace == 0.95 <==>
                  p.targets.wpm[0] as real <= m.wpm <= p.targets.wpm[1] as real))
  {
    RegistryWellFormed(personaId);
  }

  /** A transcript of 90 word tokens and 3 default fillers spoken in 36
      seconds, scored against the TED persona: 150 words and 5 fillers per
      minute, a pace score of 0.95, a filler-control score of 0.72 and an
      overall score of 0.8225. */
  lemma TedScenario(w: char -> bool, transcript: string)
    requires |WordTokens(w, transcript)| == 90 && FillerCount(w, transcript, None) == 3
    ensures var m := ComputeMetrics(w, transcript, 36.0);
            m.wpm == 150.0 && m.fillersPerMin == 5.0
    ensures var s := ScoreAgainstPersona(ComputeMetrics(w, transcript, 36.0),
                                         Some(TargetsOf(GetPersona("ted").value)));
            s.dimensions.pace == 0.95 && s.dimensions.fillerControl == 0.72 && s.overall == 0.8225
  {
    var m := ComputeMetrics(w, transcript, 36.0);
    TedRates(m);
    RegistryValues();
    FillerControlLinear(5.0, 3.0);
  }

  /** The arithmetic of the TED scenario. */
  lemma TedRates(m: SpeechMetrics)
    requires m.totalWords == 90 && m.totalFillers == 3
    requires m.wpm == (m.totalWords as real * 60.0) / 36.0
    requires m.fillersPerMin == (m.totalFillers as real * 60.0) / 36.0
    ensures m.wpm == 150.0 && m.fillersPerMin == 5.0
  {
  }

  /** The `.get` defaults in `analyze_speech` never apply: whatever the
      model replies, the coaching payload holds every required key. */
  lemma CoachingDefaultsUnused(reply: ModelReply, parse: string -> Option<Json>, default: Json)
    ensures var c := GenerateCoaching(reply, parse).fields;
            "summary" in c && GetOr(c, "summary", default) == c["summary"] &&
            "tips" in c && GetOr(c, "tips", default) == c["tips"] &&
            "exercise" in c && GetOr(c, "exercise", default) == c["exercise"] &&
            "personaScores10" in c && GetOr(c, "personaScores10", default) == c["personaScores10"] &&
            "perSentenceEmotions" in c && GetOr(c, "perSentenceEmotions", default) == c["perSentenceEmotions"]
  {
    assert RequiredKeys[0] == "summary" && RequiredKeys[1] == "tips" && RequiredKeys[2] == "exercise";
    assert RequiredKeys[3] == "personaScores10" && RequiredKeys[4] == "perSentenceEmotions";
  }

  /** The backend application and its module-level `attempt_cache`. */
  class App {
    var attemptCache: map<string, AttemptRecord>

    constructor ()
      ensures attemptCache == map[]
    {
      attemptCache := map[];
    }

    /** `analyze_speech`. `w` is the `\w` predicate, `attemptId` stands for
        the fresh `uuid4`, `reply` for the generative model's outcome and
        `parse` for `json.loads`. An unknown persona fails with 400 and a
        malformed summary or tip with 500, both before the cache is touched;
        otherwise the one new entry is stored and the computed fields are
        returned. */
    method AnalyzeSpeech(w: char -> bool, personaId: string, transcript: string, durationSeconds: real,
                         attemptId: string, reply: ModelReply, parse: string -> Option<Json>)
      returns (res: Result<AnalyzeResponse, HttpError>)
      modifies this
      ensures GetPersona(personaId).None? ==>
                res == Failure(UnknownPersona) && attemptCache == old(attemptCache)
      ensures GetPersona(personaId).Some? && TtsText(GenerateCoaching(reply, parse).fields).None? ==>
                res == Failure(InternalError) && attemptCache == old(attemptCache)
      ensures res.Success? <==>
                GetPersona(personaId).Some? && TtsText(GenerateCoaching(reply, parse).fields).Some?
      ensures res.Success? ==>
                attemptCache == old(attemptCache)[attemptId := AttemptRecord(personaId, res.value.coachingTextForTts)]
      ensures res.Success? ==> Some(res.value.coachingTextForTts) == TtsText(GenerateCoaching(reply, parse).fields)
      ensures res.Success? ==> res.value.metrics == ComputeMetrics(w, transcript, durationSeconds)
      ensures res.Success? ==>
                res.value.personaScore == ScoreAgainstPersona(res.value.metrics, Some(TargetsOf(GetPersona(personaId).value)))
      ensures res.Success? ==>
                var coaching := GenerateCoaching(reply, parse).fields;
                res.value.coaching == CoachingOut(GetOr(coaching, "summary", JString("")),
                                                  GetOr(coaching, "tips", JArray([])),
                                                  GetOr(coaching, "exercise", JString("")),
                                                  GetOr(coaching, "personaScores10", JObject(map[]))) &&
                res.value.perSentenceEmotions == GetOr(coaching, "perSentenceEmotions", JArray([]))
      ensures res.Success? ==> HighlightsOf(res.value.highlights, Split(transcript), DefaultFillers)
      ensures res.Success? ==> res.value.attemptId == attemptId && res.value.needsConfirmation
    {
      var persona := GetPersona(personaId);
      if persona.None? {
        return Failure(UnknownPersona);
      }
      var metrics := ComputeMetrics(w, transcript, durationSeconds);
      var personaScore := ScoreAgainstPersona(metrics, Some(TargetsOf(persona.value)));
      var coaching := GenerateCoaching(reply, parse).fields;
      var highlights := ComputeHighlights(transcript, None);
      var text := TtsText(coaching);
      if text.None? {
        return Failure(InternalError);
      }
      attemptCache := attemptCache[attemptId := AttemptRecord(personaId, text.value)];
      var out := CoachingOut(GetOr(coaching, "summary", JString("")), GetOr(coaching, "tips", JArray([])),
                             GetOr(coaching, "exercise", JString("")),
                             GetOr(coaching, "personaScores10", JObject(map[])));
      var emotions := GetOr(coaching, "perSentenceEmotions", JArray([]));
      res := Success(AnalyzeResponse(metrics, personaScore, out, highlights, emotions,
                                     attemptId, true, text.value));
    }

    /** `confirm_feedback`. `tts` stands for the text-to-speech call, `None`
        for an exception. Exactly one of audio URL and fallback text is set,
        and neither is ever empty. */
    function ConfirmFeedback(attemptId: string, personaId: string, tts: string -> Option<string>)
      : (r: ConfirmResponse)
      reads this
      ensures attemptId !in attemptCache ==> r == ConfirmResponse(None, Some(NoTextFound))
      ensures attemptId in attemptCache && attemptCache[attemptId].coachingText == [] ==>
                r == ConfirmResponse(None, Some(NoTextAvailable))
      ensures attemptId in attemptCache && attemptCache[attemptId].coachingText != [] ==>
                var text := attemptCache[attemptId].coachingText;
                if tts(text).Some? && tts(text).value != [] then r == ConfirmResponse(tts(text), None)
                else r == ConfirmResponse(None, Some(text))
      ensures r.audioUrl.Some? != r.fallbackText.Some?
      ensures r.audioUrl.Some? ==> r.audioUrl.value != []
      ensures r.fallbackText.Some? ==> r.fallbackText.value != []
    {
      if attemptId !in attemptCache then ConfirmResponse(None, Some(NoTextFound))
      else
        var text := attemptCache[attemptId].coachingText;
        if text == [] then ConfirmResponse(None, Some(NoTextAvailable))
        else
          var url := tts(text);
          if url.Some? && url.value != [] then ConfirmResponse(url, None)
          else ConfirmResponse(None, Some(text))
    }
  }

  /** `confirm_feedback` does not look at the persona id it is given. */
  lemma ConfirmIgnoresPersona(app: App, attemptId: string, p1: string, p2: string,
                              tts: string -> Option<string>)
    ensures app.ConfirmFeedback(attemptId, p1, tts) == app.ConfirmFeedback(attemptId, p2, tts)
  {
  }

  /** After an analysis that fell back to the default coaching, confirming
      the attempt hands the fallback narration to text-to-speech and returns
      either its URL or that narration. */
  lemma ConfirmAfterFallback(app: App, attemptId: string, personaId: string, tts: string -> Option<string>)
    requires attemptId in app.attemptCache
    requires app.attemptCache[attemptId].coachingText == TtsText(DefaultCoachingFallback().fields).value
    ensures var r := app.ConfirmFeedback(attemptId, personaId, tts);
            r == (if tts(FallbackNarration).Some? && tts(FallbackNarration).value != []
                  then ConfirmResponse(tts(FallbackNarration), None)
                  else ConfirmResponse(None, Some(FallbackNarration)))
  {
    FallbackTtsText();
  }
}
