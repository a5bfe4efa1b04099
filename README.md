# Speech persona backend, modelled in Dafny

This project models the deterministic core of the AI Speech Persona Builder
backend. The backend takes a speech transcript and its duration and does the
following:

- it measures the transcript: word tokens, filler words, sentences, words per
  minute and fillers per minute;
- it scores those metrics against a persona's targets;
- it validates or replaces the coaching reply of a generative model;
- it stores the narration text under a fresh attempt id;
- on confirmation, it turns that narration into audio through a
  text-to-speech service, or falls back to the text.

Modules, file by file:

- `wrappers.dfy`, module `Wrappers`: `Option` and `Result`.
- `strings.dfy`, module `Strings`: the Python `str` built-ins the backend
  uses. These are `isspace` (the full Python whitespace set), ASCII
  `lower`, `strip`, `split()` and `join`.
- `json.dfy`, module `Json`: a parsed JSON value.
- `metrics.dfy`, module `Metrics`: `backend/agents/metrics.py`. The regex word
  tokeniser `\b[\w'-]+\b` is modelled as a left-to-right scanner with greedy
  matching and backtracking. It is proved equal to a simple reference: one
  token per maximal run of `[\w'-]` characters that holds a `\w` character,
  trimmed of its leading and trailing `'` and `-`. `count_fillers` and
  `compute_highlights` keep their loops as methods.
- `coach_engine.dfy`, module `Coach`: `backend/agents/coach_engine.py`. This
  covers the pace and filler-control step functions, the aggregation, the
  constant fallback payload, and the validation of the model's reply.
- `persona_profiles.dfy`, module `Personas`:
  `backend/agents/persona_profiles.py`. This is the three-entry registry and
  its lookups.
- `main.dfy`, module `Backend`: `backend/main.py`. The class `App` holds the
  `attempt_cache` map. `AnalyzeSpeech` is the method that inserts the
  attempt. `ConfirmFeedback` is a read-only function over the map.

Inputs that the code takes from outside are parameters of the model:

- the `\w` character class (`w: char -> bool`);
- the generative model's outcome (`ModelReply`: no model, a failed call, or a
  reply text);
- `json.loads` (`parse: string -> Option<Json>`, where `None` is a decoding
  error);
- the fresh `uuid4` attempt id;
- the text-to-speech call (`tts: string -> Option<string>`, where `None` is an
  exception).

Durations and rates are exact `real`s.

Where the code and its own comments differ, the model follows the code:

- The doc-comment of `compute_wpm` (backend/agents/metrics.py:20-21) promises
  0.0 for a non-positive duration. Line 37 floors the duration at 0.1 s, so a
  non-positive duration gives 600 words per minute per word token. The rate
  is positive as soon as there is one word token (`Metrics.WpmAtTinyDuration`).
- The docstring of `_score_pace` (backend/agents/coach_engine.py:49) promises
  about 0.6–0.8 just outside the band. Lines 65-69 return exactly 0.8 within
  0.15 band widths and 0.5 up to 0.5 widths (`Coach.PaceBands`).

Highlights and word counts also count different things. Highlight indices
number the tokens of the whitespace split (backend/agents/metrics.py:145),
while `totalWords` counts the regular-expression word tokens (line 106).
A highlight index can therefore reach or pass `totalWords`. On "um - um"
the highlights are at 0 and 2 while `totalWords` is 2
(`Metrics.HighlightIndexPastWordCount`).

## Model

| member | source | states |
|---|---|---|
| `Metrics.WordTokensAreRuns` | backend/agents/metrics.py:31-32 | The `re.findall` scan of `\b[\w'-]+\b` yields exactly one token per maximal `[\w'-]` run that contains a `\w` character: that run with its leading and trailing apostrophes and hyphens removed, in order. |
| `Metrics.RunTokenShape` | backend/agents/metrics.py:32 | Every word token is non-empty, consists of `[\w'-]` characters, and begins and ends with a `\w` character. |
| `Metrics.ComputeWpm` | backend/agents/metrics.py:10-39 | wpm is the token count times 60 over `max(duration, 0.1)`. It is zero exactly when there are no word tokens (an empty transcript included) and is never negative. |
| `Metrics.WpmAtTinyDuration` | backend/agents/metrics.py:20-37 | For a duration of at most 0.1 s (non-positive ones included), wpm is 600 per token, so it is positive whenever there are tokens. The doc-comment promises 0.0 for non-positive durations. |
| `Metrics.TokenMatchAt` | backend/agents/metrics.py:32 | A match of the word pattern starting at a position ends after it and within the transcript. |
| `Metrics.TokenMatchGreedy` | backend/agents/metrics.py:32 | The match at a position is the greedy one. It needs `\b` at the start and ends at the largest end inside the run of `[\w'-]` characters where `\b` holds. There is no match when no such end exists. |
| `Metrics.IsBoundary` | backend/agents/metrics.py:32 | No contract of its own: `\b` at a position, meaning exactly one of the characters before and after it is a `\w` character, with the text's ends counting as non-word. The same test closes the filler pattern at line 66. |
| `Metrics.FindTokens` | backend/agents/metrics.py:32 | The leftmost-first `findall` scan, resuming after each match, yields only non-empty tokens. |
| `Metrics.WordTokens` | backend/agents/metrics.py:32 | No contract of its own: the scan from position 0. Its meaning is stated by `Metrics.WordTokensAreRuns`, `Metrics.RunTokenShape` and `Metrics.TokenCountBound`. |
| `Metrics.TokenCountBound` | backend/agents/metrics.py:32-33 | The scan from any position yields no more tokens than characters remain. From position 0: no more word tokens than the transcript has characters. |
| `Metrics.SafeDuration` | backend/agents/metrics.py:37 | The duration used as divisor is at least 0.1. It is the duration itself, or 0.1 when the duration is below 0.1. |
| `Metrics.Lexicon` | backend/agents/metrics.py:58-59 | No contract of its own: the filler list given, or the default `DefaultFillers` (`um`, `uh`, `like`, `you know`) when it is `None`. `compute_highlights` applies the same default at lines 142-143. |
| `Metrics.WholeWordAt` | backend/agents/metrics.py:66 | No contract of its own: the pattern `\b` + filler + `\b` matches at a position, meaning `\b` holds there, the filler follows literally, and `\b` holds after it. `Metrics.NoOccurrences` and `Metrics.SingleWordOccurrences` relate it to the match count. |
| `Metrics.Occurrences` | backend/agents/metrics.py:66-68 | No contract of its own: the number of `findall` matches of `\b pat \b`. Its meaning is stated by `Metrics.NoOccurrences`, `Metrics.SingleWordOccurrences` and `Metrics.OccurrencesFit`. |
| `Metrics.NoOccurrences` | backend/agents/metrics.py:66-68 | The match count is zero exactly when the filler occurs as a whole word at no position. |
| `Metrics.LexiconTotal` | backend/agents/metrics.py:62-70 | No contract of its own: the loop's running total over the lexicon. `Metrics.CountFillers` is proved to return it. |
| `Metrics.LexiconTotalZero` | backend/agents/metrics.py:62-70 | The total is zero exactly when no lexicon entry is found. |
| `Metrics.FillerCount` | backend/agents/metrics.py:55-70 | No contract of its own: 0 for an empty transcript, else the lexicon total on the lower-cased text, the default lexicon replacing `None`. `Metrics.CountFillers` is proved to return it. |
| `Metrics.CountFillers` | backend/agents/metrics.py:42-70 | The loop returns the sum over the lexicon (default `um`, `uh`, `like`, `you know`) of the whole-word, non-overlapping matches of each lower-cased entry in the lower-cased transcript. It returns 0 on an empty transcript. |
| `Metrics.FillerCountIgnoresCase` | backend/agents/metrics.py:61-66 | Two transcripts that agree once lower-cased have the same filler count. |
| `Metrics.SingleWordOccurrences` | backend/agents/metrics.py:66-68 | For a filler made solely of `\w` characters, the number of `findall` matches equals the number of positions where it occurs between two word boundaries. |
| `Metrics.OccurrencesFit` | backend/agents/metrics.py:66-68 | Matches of a non-empty filler never overlap: count times length is at most the length of the text scanned. |
| `Metrics.IsTerminator` | backend/agents/metrics.py:88 | No contract of its own: the character class `[\.\?!]`. |
| `Metrics.SplitOnTerminators` | backend/agents/metrics.py:88 | `re.split` on runs of `.?!` yields at least one piece, and no piece contains a terminator. `Metrics.PiecesJoin` fixes exactly where the pieces break. |
| `Metrics.PiecesJoin` | backend/agents/metrics.py:88 | The pieces, joined with `.`, give the transcript with every maximal run of terminators collapsed to one `.`. As no piece holds a terminator, the pieces are exactly the stretches between those runs, with an empty piece before a leading run and after a trailing one. |
| `Metrics.PiecesConcat` | backend/agents/metrics.py:88 | The pieces, concatenated, are the transcript with every terminator removed. |
| `Metrics.KeepStripped` | backend/agents/metrics.py:89 | The comprehension keeps at most one sentence per piece. Every sentence kept is non-empty and starts and ends with non-whitespace. `Metrics.KeepStrippedDistributes` and `Metrics.KeepStrippedOne` fix it as the stripped non-blank pieces, in order. |
| `Metrics.KeepStrippedDistributes` | backend/agents/metrics.py:89 | Filtering two lists of pieces one after the other gives the filtered first list followed by the filtered second. |
| `Metrics.KeepStrippedOne` | backend/agents/metrics.py:89 | One piece gives its stripped text when that is non-empty, and nothing when it is blank. |
| `Metrics.KeepStrippedNonSpace` | backend/agents/metrics.py:89 | Filtering and stripping drop only whitespace: the non-whitespace characters of the kept sentences, in order, are those of all the pieces. |
| `Metrics.SplitSentences` | backend/agents/metrics.py:73-90 | No sentences for an empty transcript. Every sentence is non-empty and starts and ends with non-whitespace. Otherwise the sentences are the stripped non-blank pieces of the split, in order (`Metrics.PiecesJoin`, `Metrics.KeepStrippedDistributes`, `Metrics.KeepStrippedOne`). |
| `Metrics.SentencesShape` | backend/agents/metrics.py:73-90 | Every sentence is non-empty, has nothing left for `strip` to remove, and contains none of `.`, `?`, `!`. |
| `Metrics.SentencesKeepText` | backend/agents/metrics.py:73-90 | Splitting drops only whitespace and terminators: the non-whitespace characters of the sentences, in order, are those of the transcript without its terminators. |
| `Metrics.ComputeMetrics` | backend/agents/metrics.py:93-123 | totalWords is the token count and totalFillers the default-lexicon count. wpm is as in `compute_wpm`. fillersPerMin is 0 for a duration ≤ 0 and otherwise totalFillers times 60 over `max(duration, 0.1)`. All values are non-negative. |
| `Metrics.FillerRate` | backend/agents/metrics.py:112-116 | fillersPerMin is 0 for a duration ≤ 0, and otherwise the filler count times 60 over the floored duration. It is never negative. |
| `Metrics.RatesAgree` | backend/agents/metrics.py:106-116 | For a duration of at least 0.1 s the two rates are in the ratio of the two counts. |
| `Metrics.ComputeHighlights` | backend/agents/metrics.py:126-153 | The loop's result has every type "filler" and indices strictly ascending and below the number of whitespace tokens. A token is highlighted exactly when its lower-case form is in the lower-cased lexicon. The result is empty for an empty transcript. |
| `Metrics.LoweredLexicon` | backend/agents/metrics.py:147 | No contract of its own: the set of the lower-cased fillers. `Metrics.DefaultLexiconLowered` gives it for the default list. |
| `Metrics.DefaultLexiconLowered` | backend/agents/metrics.py:143-147 | The lower-cased default lexicon is the set `um`, `uh`, `like`, `you know`. |
| `Metrics.IsFillerToken` | backend/agents/metrics.py:150 | No contract of its own: a token is a filler when its lower-case form is in the lowered lexicon. `Metrics.ComputeHighlights` highlights exactly those tokens. |
| `Metrics.MultiWordFillerNeverHighlighted` | backend/agents/metrics.py:142-150 | With the default lexicon, a whitespace token is highlighted exactly when it lower-cases to "um", "uh" or "like". The multi-word filler "you know" can never match a single token. |
| `Metrics.HighlightIndexPastWordCount` | backend/agents/metrics.py:106-153 | When `u` and `m` are word characters and space and `-` are not, "um - um" splits into "um", "-", "um". It has 2 word tokens, and its third whitespace token is a filler, so it is highlighted at index 2. |
| `Strings.IsSpace` | backend/agents/metrics.py:145 | No contract of its own: Python's `str.isspace` set, the characters `split()` and `strip()` treat as whitespace. |
| `Strings.Lower` | backend/agents/metrics.py:61 | Lower-casing keeps the length. It maps `A`–`Z` to `a`–`z`, character by character, and leaves every other character alone. |
| `Strings.Strip` | backend/main.py:166 | `strip()` never lengthens its input. Its result is empty or starts and ends with non-whitespace. |
| `Strings.Split` | backend/agents/metrics.py:145 | `split()` yields non-empty tokens free of whitespace, and none for a string of whitespace only. With `Strings.SplitAtSpace` and `Strings.SingleWord` this fixes the split of every string. |
| `Strings.SplitAtSpace` | backend/agents/metrics.py:145 | `split()` breaks at every whitespace character: the split of `a`, a whitespace character, and `b` is the split of `a` followed by the split of `b`. |
| `Strings.SingleWord` | backend/agents/metrics.py:145 | A non-empty string without whitespace splits into itself alone. |
| `Strings.Join` | backend/main.py:165 | `" ".join` of no items is empty. Otherwise the result starts with the first item and ends with the last. |
| `Strings.SplitTokens` | backend/agents/metrics.py:145 | `split()` yields non-empty tokens without whitespace, whose concatenation is exactly the non-whitespace characters of the input. |
| `Strings.StripSlice` | backend/main.py:166 | `strip` returns a slice of its input and removes only whitespace, on both sides. |
| `Coach.PaceDiff` | backend/agents/coach_engine.py:59-63 | The relative distance to the band is positive whenever the pace is below or above the band. |
| `Coach.ScorePace` | backend/agents/coach_engine.py:45-69 | The score is one of 0.2, 0.5, 0.8, 0.95. It is 0.2 for wpm ≤ 0 or a range without exactly two elements. Otherwise it is 0.95 exactly when low ≤ wpm ≤ high. |
| `Coach.PaceBands` | backend/agents/coach_engine.py:59-69 | Outside the band, with W = max(high − low, 1): 0.8 exactly when the distance to the nearest edge is ≤ 0.15 W, 0.5 exactly when it lies in (0.15 W, 0.5 W], and 0.2 exactly when it is beyond 0.5 W. |
| `Coach.PaceFallsAboveBand` | backend/agents/coach_engine.py:59-69 | Above the band, a faster pace never scores higher. |
| `Coach.PaceFallsBelowBand` | backend/agents/coach_engine.py:59-69 | Below the band, a slower pace never scores higher. |
| `Coach.ScoreFillerControl` | backend/agents/coach_engine.py:72-89 | The score lies in [0.2, 0.98]. It is 0.5 when the allowed rate is ≤ 0. Otherwise it is 0.98 exactly when the rate is within the allowance, and 0.2 from three times the allowance on. |
| `Coach.FillerControlLinear` | backend/agents/coach_engine.py:84-89 | Strictly between the allowance and three times it, the score is the linear interpolation 0.98 − (ratio − 1) · 0.39, strictly between 0.2 and 0.98. The clamp never takes effect there. |
| `Coach.FillerControlNonIncreasing` | backend/agents/coach_engine.py:72-89 | More fillers per minute never score higher. |
| `Coach.TargetRange` | backend/agents/coach_engine.py:114-115 | The persona's pace band when present. Otherwise the default [0, 0], for which no pace ever scores 0.95. |
| `Coach.MaxFillers` | backend/agents/coach_engine.py:114-116 | The persona's filler allowance when present. Otherwise the default 0, for which every rate scores 0.5. |
| `Coach.ScoreAgainstPersona` | backend/agents/coach_engine.py:92-132 | pace and fillerControl come from the two step functions, with missing targets defaulting to range [0, 0] and allowance 0. clarity is 0.9 and confidence equals fillerControl. overall is the mean of the four and lies in [0.2, 0.98]. Without targets, fillerControl is 0.5 and pace is never 0.95. |
| `Coach.DefaultCoachingFallback` | backend/agents/coach_engine.py:139-161 | The fallback payload has the five required keys and the fixed summary. It has exactly three non-empty string tips, four personaScores10 entries (confidence, clarity, energy, structure) each 5.0, and perSentenceEmotions `["neutral"]`. |
| `Coach.SearchObject` | backend/agents/coach_engine.py:224 | `re.search(r"\{.*\}", …, DOTALL)` finds the first `{` and the last `}` after it. It finds nothing exactly when no `{` is followed by a `}`. |
| `Coach.JsonCandidate` | backend/agents/coach_engine.py:224-229 | The extracted candidate starts with `{` and ends with `}`. There is none exactly when no `{` is followed by a `}`. |
| `Coach.LastIndexIn` | backend/agents/coach_engine.py:224 | The greedy `.*` before `\}` ends at the last `}` in the window: a position found holds the character and no later position in the window does. Nothing is found exactly when the window holds no such character. |
| `Coach.HasRequiredKeys` | backend/agents/coach_engine.py:232-238 | No contract of its own: the parsed value is an object holding each of `RequiredKeys` (`summary`, `tips`, `exercise`, `personaScores10`, `perSentenceEmotions`). |
| `Coach.Accepted` | backend/agents/coach_engine.py:218-242 | No contract of its own: the model replied, the reply holds a `{…}` span, that span parses, and the result passes `Coach.HasRequiredKeys`. `Coach.GenerateCoaching` returns the parsed reply exactly when this holds. |
| `Coach.GenerateCoaching` | backend/agents/coach_engine.py:164-245 | The result always holds the five required keys. It is the parsed reply when the model replied with a `{…}` span that parses to an object holding them. Otherwise (no model, a failed call, no span, a parse error, a non-object, a missing key) it is the fallback. |
| `Personas.Find` | backend/agents/persona_profiles.py:51 | `dict.get` finds nothing exactly when no entry has the key. What it finds is the value of an entry with that key. |
| `Personas.GetPersona` | backend/agents/persona_profiles.py:42-51 | A persona is found exactly for the ids ted, leader and teacher, and the one found carries the id it was looked up by. |
| `Personas.GetPersonas` | backend/agents/persona_profiles.py:33-39 | The three table values in the order ted, leader, teacher. Each equals the lookup of its own id. |
| `Personas.RegistryWellFormed` | backend/agents/persona_profiles.py:11-30 | Every registered persona has a two-element pace band with low ≤ high and a positive filler allowance. |
| `Personas.RegistryValues` | backend/agents/persona_profiles.py:12-29 | ted has [140, 170] and 3, leader [130, 160] and 2, teacher [110, 140] and 2. |
| `Backend.StringItems` | backend/main.py:165 | The strings of a JSON list, or nothing when an item is not a string; item for item when present. |
| `Backend.GetOr` | backend/main.py:180-186 | No contract of its own: `dict.get` with a default. `Backend.CoachingDefaultsUnused` shows that the defaults never apply to the coaching payload. |
| `Backend.JoinedTips` | backend/main.py:165 | The tips join fails exactly when `tips` is a list with a non-string item. |
| `Backend.SummaryText` | backend/main.py:166 | The summary read fails exactly when a summary is present and is not a string. |
| `Backend.TtsText` | backend/main.py:164-166 | The narration exists exactly when the summary is absent or a string and the tips are absent, not a list, or all strings. A narration is empty or starts and ends with non-whitespace. |
| `Backend.Narration` | backend/main.py:166 | The narration is empty or starts and ends with a non-whitespace character. |
| `Backend.TtsTextWithoutTips` | backend/main.py:165-166 | With `tips` missing or not a list, the narration is the stripped summary. |
| `Backend.TtsTextWithTips` | backend/main.py:165-166 | With string tips, the narration is the summary, then " - " and the space-joined tips when that join is non-empty, stripped. |
| `Backend.FallbackTtsText` | backend/main.py:164-166 | The fallback payload narrates as its summary, " - ", and its three tips joined by spaces, and that narration is non-empty. |
| `Backend.RegisteredPersonaScoring` | backend/agents/coach_engine.py:114-119 | For a registered persona, fillerControl is 0.98 exactly within the persona's allowance (the 0.5 branch is never taken). For wpm > 0, pace is 0.95 exactly inside its band. |
| `Backend.TargetsOf` | backend/agents/coach_engine.py:114-116 | No contract of its own: the `targets` of the registered persona that `analyze_speech` passes to `score_against_persona` (backend/main.py:151), as the pace band and allowance the scoring reads. `Backend.RegisteredPersonaScoring` states what it means for the scores. |
| `Backend.TedScenario` | backend/agents/coach_engine.py:92-132 | Take any transcript with 90 word tokens and 3 default fillers, measured by `compute_metrics` over 36 s. It gives 150 wpm and 5 fillers per minute. Scored against ted, pace is 0.95, fillerControl 0.72 and overall 0.8225. |
| `Backend.CoachingDefaultsUnused` | backend/main.py:176-186 | Whatever the model replies, the coaching payload holds every key `analyze_speech` reads. Its `.get` defaults never apply. |
| `Backend.App.constructor` | backend/main.py:38 | The attempt cache starts empty. |
| `Backend.App.AnalyzeSpeech` | backend/main.py:134-201 | See the breakdown below this table. |
| `Backend.App.ConfirmFeedback` | backend/main.py:204-235 | See the breakdown below this table. |
| `Backend.ConfirmIgnoresPersona` | backend/main.py:225-227 | The result does not depend on the persona id passed in. |
| `Backend.ConfirmAfterFallback` | backend/main.py:210-235 | For an attempt stored with the fallback narration, confirming returns the speech service's URL when it is non-empty, and that narration otherwise. |

`Backend.App.AnalyzeSpeech` (backend/main.py:134-201) states the following:

- An unknown persona fails with 400 "Unknown personaId" and leaves the cache
  unchanged.
- A non-string summary or tip fails with 500, also with the cache unchanged.
- It succeeds exactly when neither of these happens. On success:
  - exactly one entry, `attemptId` → (personaId, narration), is added or
    replaced;
  - the narration is `TtsText` of the coaching payload;
  - metrics, score, coaching fields, emotions and highlights are as computed
    by the functions above;
  - `needsConfirmation` holds.

`Backend.App.ConfirmFeedback` (backend/main.py:204-235) states the following:

- An unknown id gives the "No coaching text found" message.
- Empty stored text gives the "No coaching text available" message.
- Otherwise it returns the speech service's URL when that is non-empty, and
  the stored text if not.
- Exactly one of URL and fallback text is set, and neither is empty.
- It only reads the cache.

## Left out

- Text-to-speech (`backend/agents/tts_murf.py`) is an outside HTTP call. It is the `tts` parameter of `ConfirmFeedback`. Its voice choice never matters, because the persona passed to it is always `None`.
- Session logging (`backend/logs/session_logger.py`) is file I/O. It is treated as a no-op.
- The Gemini SDK is outside code: its configuration, prompt text, `generate_content` and the `str(result)` fallback. Its outcome is the `ModelReply` input. `json.loads` is the `parse` input.
- FastAPI routing, Pydantic response models, CORS, the `/health` and `/api/personas` wrappers, `uuid4` and `datetime.utcnow` are framework and environment. The attempt id is a parameter. The timestamp is not modelled.
- Debug output is not modelled.
- `round(…, 2)` on fillersPerMin and `round(…, 3)` on the scores are not modelled: every rate and score is the exact real. `Coach.ScoreAgainstPersona` therefore scores the unrounded fillers-per-minute, where the code scores the rounded one.
- `Backend.TedScenario` states the overall score as the exact mean 0.8225, not its rounding to three places.
- `\w` is an abstract predicate, because its Unicode definition is not modelled.
- `lower` maps only the ASCII letters `A`–`Z`. Unicode case mapping is not modelled.
- Python floats are modelled as exact reals, so overflow and rounding error are not captured. Nor are the non-finite durations the request model accepts. With `durationSeconds` infinite, the code gives 0.0 words per minute even when there are word tokens. With a NaN duration, `max(duration, 0.1)` is NaN (backend/agents/metrics.py:37 and 115). So fillersPerMin is always NaN, while wpm is NaN only when there are word tokens and 0.0 otherwise (lines 33-35). The attempt is cached before the response fails to encode.
- The uncaught `TypeError` raised at backend/main.py:165-166 is modelled as a 500 response. A non-string tip raises it in the `" ".join` at line 165; a non-string summary raises it in the `+` at line 166. The rest of the web server's exception handling is not modelled.
- Concurrent requests sharing `attempt_cache` are not modelled; each call is one atomic step.
