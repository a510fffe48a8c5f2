# English tutor bot core, modelled in Dafny

This project models the core of a Telegram bot that teaches English to Russian
speakers. The core has three parts.

- **The learning engine** (`learning_engine.py`), module `LearningEngine`. It
  places a learner in a tier (beginner, intermediate, advanced), recommends
  topics, picks the next exercise's difficulty, and normalises free-text
  answers. It then compares them exactly and by word overlap, and chooses the
  feedback and motivation messages. Everything in it is pure.
- **The progress store** (`database.py`), module `Database`. It holds one
  record per Telegram user and an append-only exercise history. Recording an
  exercise updates the counters, the accuracy, the weak-topic window (at most
  five topics, newest last, no repeats), the day streak and the optional level.
  The pure rules are functions. The store itself is the class
  `Database.UserDatabase`: a map keyed by Telegram id, a history sequence and
  the autoincrement counter. Its methods change those fields.
- **The chat client** (`openai_api.py`), module `ChatClient`. Conversation
  histories are mutable message lists, and the model keeps the aliasing: the
  list `_get_conversation` returns is a `MessageList` object shared with the
  map. There are four more pieces: the cleanup of a generated exercise (trim,
  drop a Markdown code fence, trim), the filling of missing exercise fields
  (`FillDefaults`, a loop over the required fields), the fixed fallback
  exercises, and the decision between a parsed exercise and the fallback
  (`GenerateExercise`).

`Text` holds the character classes and string helpers the parts share:
whitespace, word characters, `lower`, `strip` and `split`. `Wrappers` holds
`Option`. `EngineExamples` holds worked examples, stated as lemmas about the
model.

Every operation has a partner: an independent characterisation, an invariant
it keeps, a fixed point, or idempotence. An all-inputs lemma or a method
postcondition links the two.

Three behaviours of the code are worth knowing:

- **Apostrophes.** The punctuation pattern in `normalize_answer` has a
  lookahead for contractions. That lookahead can never fail, because it needs
  a word character where the pattern only accepts a non-word character. So
  every apostrophe survives, including leading and trailing ones.
  `NormalizeAnswer` and `ApostrophesKept` state this.
- **Lower-casing.** `normalize_answer` uses `lower()`, not `casefold()`.
- **Unreadable dates.** When the stored `last_exercise_date` is not an ISO
  date, it counts as yesterday: the streak grows by one.
  `Database.NewStreak` and `Database.RecordedStreak` state this.

## Model

| member | source | states |
|---|---|---|
| LearningEngine.GetUserLevel | learning_engine.py:26-33 | fewer than 10 exercises means beginner; advanced exactly when volume >= 50 and accuracy >= 0.85; intermediate exactly when not advanced and volume >= 20 and accuracy >= 0.70; beginner otherwise |
| LearningEngine.LevelMonotoneInAccuracy | learning_engine.py:26-33 | at a fixed volume, higher accuracy never gives a lower tier |
| LearningEngine.LevelMonotoneInVolume | learning_engine.py:26-33 | at a fixed accuracy, more exercises never give a lower tier |
| LearningEngine.RecommendTopics | learning_engine.py:35-38 | with weak topics: a prefix of them of length min(3, count); without: the level's curriculum, or the beginner one for an unknown level; never more than five |
| LearningEngine.RecommendForClassifiedLevel | learning_engine.py:19-38 | every tier the classifier can return has its own curriculum, so the beginner default never applies to it |
| LearningEngine.CalculateDifficulty | learning_engine.py:40-50 | 0.3 under five exercises; otherwise within [0.2, 0.9]; above 0.55 for accuracy >= 0.9; below 0.45 for accuracy <= 0.5; 0.5 in between; a missing or zero accuracy reads as 0.5 |
| LearningEngine.EffectiveAccuracy | learning_engine.py:41 | a missing or zero accuracy reads as 0.5; any other accuracy is used as given |
| LearningEngine.EffectiveTotal | learning_engine.py:42 | a missing exercise count reads as 0; any other count is used as given |
| LearningEngine.MissingAccuracyIsLow | learning_engine.py:41-50 | a missing or zero accuracy gives the same difficulty as any accuracy up to 0.5 |
| LearningEngine.DifficultyMonotoneInAccuracy | learning_engine.py:40-50 | at a fixed volume, for any two raw accuracies a1 <= a2 (including a missing-like 0.0), the higher one never gets an easier exercise |
| LearningEngine.LowerAll | learning_engine.py:53 | lower-cases each character and keeps the length |
| LearningEngine.ReplacePunctuation | learning_engine.py:54 | same length; word characters, whitespace and apostrophes are kept, every other character becomes a space |
| LearningEngine.Normalize | learning_engine.py:53-55 | the four steps in source order; the result is never longer than the input |
| LearningEngine.CollapseSpaces | learning_engine.py:55 | never longer and empty only for empty input; starts with whitespace exactly when the input does, and ends with whitespace exactly when the input does; no two whitespace characters in a row; every whitespace character of the result is a plain space; the non-whitespace characters are exactly those of the input, in the same order |
| LearningEngine.CollapseKeepsWords | learning_engine.py:55 | collapsing whitespace keeps the words: `split()` of the result is `split()` of the input, word for word, so no whitespace run is deleted and no word is split or joined |
| LearningEngine.CollapseKeepsCount | learning_engine.py:55 | collapsing whitespace keeps the count of every non-whitespace character |
| LearningEngine.NormalizeAnswer | learning_engine.py:52-56 | the result is in normal form (lower case; only word characters, apostrophes and single inner spaces; no space at either end); apart from those spaces it is exactly the input's word characters and apostrophes, lower-cased, in input order; None and "" give ""; the apostrophe count of the input is kept; its words under `split()` are exactly the input's answer words (each maximal run of word characters and apostrophes, lower-cased, in order), so every punctuation mark and whitespace run between two words leaves a word break |
| LearningEngine.AnswerWords | learning_engine.py:52-56 | the words of an answer: its maximal runs of word characters and apostrophes, lower-cased, in order; every other character only separates words; no contract of its own: LearningEngine.NormalizedWords and LearningEngine.PartialMatchByAnswerWords state its role |
| LearningEngine.NormalizedWords | learning_engine.py:52-56 | `split()` of a normalised text gives exactly the answer words of the input |
| LearningEngine.SplitOfSeparated | learning_engine.py:53-55 | when every character other than a word character or an apostrophe has become whitespace and the rest is lower-cased, `split()` gives the answer words of the original |
| LearningEngine.StripKeepsAnswerWords | learning_engine.py:53 | the first strip keeps the answer words |
| LearningEngine.NormalFormOfNormalize | learning_engine.py:52-56 | every normalised text is in normal form |
| LearningEngine.NormalizedText | learning_engine.py:52-56 | the non-whitespace characters of a normalised text are the input's word characters and apostrophes, lower-cased, in input order |
| LearningEngine.StripKeepsWordText | learning_engine.py:53 | the first strip keeps every word character and apostrophe, in order |
| LearningEngine.ReplacedVisible | learning_engine.py:54 | after the punctuation substitution, the non-whitespace characters are exactly the word characters and apostrophes before it, in order |
| LearningEngine.LoweredWordText | learning_engine.py:53 | lower-casing and then picking out the word characters and apostrophes equals picking them out and then lower-casing |
| LearningEngine.ApostrophesKept | learning_engine.py:52-56 | normalisation keeps exactly as many apostrophes as the input has |
| LearningEngine.NormalFormUnchanged | learning_engine.py:52-56 | a text already in normal form is a fixed point of normalisation |
| LearningEngine.NormalizeOnlyLowers | learning_engine.py:52-56 | a text without edge whitespace whose lower-case form is normal normalises to that lower-case form |
| LearningEngine.NormalizeIdempotent | learning_engine.py:52-56 | normalising twice gives the same as normalising once |
| LearningEngine.CheckPartialMatch | learning_engine.py:70-77 | true exactly when both texts are non-empty, the expected answer has at least one word, and 5 times the shared distinct words is at least 3 times the expected distinct words (the 0.6 ratio in integer form) |
| LearningEngine.RatioThreshold | learning_engine.py:77 | the ratio test x / y >= 0.6 equals the integer comparison 5x >= 3y for positive y |
| LearningEngine.PartialMatchOnContainment | learning_engine.py:70-77 | when every expected word occurs in the answer, the partial match holds |
| LearningEngine.NoPartialMatchWhenDisjoint | learning_engine.py:70-77 | answers with no word in common never match partially |
| LearningEngine.NormalizedHasWords | learning_engine.py:73-76 | a non-empty normalised text has at least one word, so the empty word-set guard cannot fire after normalisation |
| LearningEngine.GenerateFeedback | learning_engine.py:79-97 | correct feedback exactly for a correct answer; partial exactly for an incorrect answer with a partial match; incorrect otherwise |
| LearningEngine.EvaluateAnswer | learning_engine.py:58-68 | both normalised forms are reported; correct exactly when they are equal; partial exactly when incorrect with a word-overlap match; never both; the feedback category follows the two flags |
| LearningEngine.PartialMatchByAnswerWords | learning_engine.py:58-77 | on the raw answers: a non-exact answer is a partial match exactly when the expected answer has a word and 5 times the shared distinct answer words is at least 3 times the expected distinct answer words |
| LearningEngine.EvaluateReflexive | learning_engine.py:58-68 | every answer is correct against itself |
| LearningEngine.CorrectnessSymmetric | learning_engine.py:58-62 | exact correctness does not depend on which answer is the expected one |
| LearningEngine.EvaluateIgnoresNormalization | learning_engine.py:58-68 | normalising either answer first changes no part of the evaluation |
| LearningEngine.MotivationMessage | learning_engine.py:99-111 | a streak message exactly for streaks of 3 or more, at the 14/7/3 thresholds; otherwise the accuracy message at the 0.9/0.7 thresholds |
| LearningEngine.StreakTakesPrecedence | learning_engine.py:99-105 | from a three-day streak on, accuracy does not change the message |
| Text.Lower | learning_engine.py:53 | lower-casing keeps word characters, whitespace and apostrophes in their classes |
| Text.LowerIdempotent | learning_engine.py:53 | lower-casing twice is lower-casing once |
| Text.LStrip | learning_engine.py:53 | the result is a suffix of the input, the dropped prefix is all whitespace, and the result does not start with whitespace |
| Text.RStrip | learning_engine.py:53 | the result is a prefix of the input, the dropped suffix is all whitespace, and the result does not end with whitespace |
| Text.Strip | learning_engine.py:53 | `str.strip()` as right-strip after left-strip; no contract of its own: Text.StripSlice, Text.StripUnchanged, Text.StripPadded and Text.StripKeepsVisible state what it does |
| Text.StripKeepsVisible | learning_engine.py:55 | strip keeps every non-whitespace character, in order |
| Text.StripSlice | learning_engine.py:53 | strip returns a slice of its input with only whitespace cut at both ends and none left at either edge |
| Text.StripUnchanged | learning_engine.py:55 | a text with no whitespace at its edges is unchanged by strip |
| Text.StripKeepsCount | learning_engine.py:55 | strip keeps the count of every non-whitespace character |
| Text.StripPadded | openai_api.py:288 | whitespace added around a text does not change what strip returns |
| Text.WordLength | learning_engine.py:73 | the first word has no whitespace and ends at whitespace or at the end of the text |
| Text.Split | learning_engine.py:73-74 | `str.split()` with no separator, word by word; no contract of its own: Text.SplitNonEmpty, Text.SplitWord, Text.SplitCons, Text.SplitConsChar and Text.SplitPadded state what it yields |
| Text.SplitConsChar | learning_engine.py:73 | a non-whitespace character in front of a text is a word of its own when the text is empty or starts with whitespace, and otherwise becomes the start of the text's first word |
| Text.SplitTrailing | learning_engine.py:73 | trailing whitespace adds no word |
| Text.SplitPadded | learning_engine.py:73 | whitespace on either side adds no word |
| Text.StripKeepsSplit | learning_engine.py:55 | strip keeps the words |
| Text.WordSet | learning_engine.py:73-74 | the set of words of a text; no contract of its own: Text.WordSetCons and Text.WordSetWord state it |
| Text.SplitWord | learning_engine.py:73 | a single word without whitespace splits into exactly that word |
| Text.WordSetWord | learning_engine.py:73-74 | a single word without whitespace has exactly itself as its word set |
| Text.SplitNonEmpty | learning_engine.py:73-76 | a text holding a non-whitespace character splits into at least one word |
| Text.WordSetCons | learning_engine.py:73 | the words of a word, a space and the rest are that word plus the words of the rest |
| EngineExamples.ApostropheExample | learning_engine.py:52-56 | "I'm fine." normalises to "i'm fine" |
| EngineExamples.ContractionExample | learning_engine.py:52-56 | "Don't!! worry." and "dont worry" normalise differently |
| EngineExamples.ApostropheCountsDiffer | learning_engine.py:52-56 | answers with different apostrophe counts never normalise to the same text |
| EngineExamples.Unchanged | learning_engine.py:52-56 | a lower-case ASCII word normalises to itself |
| EngineExamples.CommaExample | learning_engine.py:52-56 | "Go,to" normalises to the two words "go" and "to": the comma leaves a word break |
| EngineExamples.DisjointExample | learning_engine.py:58-77 | "cat" against "dog" is neither correct nor partial, with incorrect feedback |
| EngineExamples.NormalizedMismatch | learning_engine.py:58-68 | two different normal-form answers without partial overlap are wrong |
| EngineExamples.OmittedWordIsPartial | learning_engine.py:70-77 | leaving one word out of five distinct expected words still reaches the 0.6 share |
| EngineExamples.PartialExample | learning_engine.py:58-77 | "I go to school" against "I go to the school" is not correct, is partial, and gets partial feedback |
| Database.StreakUpdate | database.py:120-136 | the date is always today; keep exactly when the stored date is today; increment exactly when it is absent, unreadable or yesterday; reset exactly when it is any other day |
| Database.NewStreak | database.py:163-171 | same day keeps the streak; yesterday or an unreadable date adds one; no date or an older date restarts at 1 |
| Database.StreakStep | database.py:163-171 | a recorded exercise raises the streak by at most one and leaves it at least 1, except a zero streak kept on the same day |
| Database.StreakCountsDays | database.py:120-171 | over a run of exercise days without gaps, starting the day after the stored date, the streak grows by the number of calendar days covered |
| Database.FirstStreak | database.py:120-171 | for a new user, practising on consecutive days gives a streak equal to the number of days |
| Database.LastN | database.py:161 | the last n entries, all of them when there are fewer, as a suffix of the input |
| Database.WeakTopicsAfter | database.py:158-161 | unchanged for a correct answer, an empty topic or a known topic; otherwise the topic is appended last and the oldest entries beyond five are dropped |
| Database.WeakTopicsStayValid | database.py:158-161 | the window keeps having no duplicates, no empty topic and at most five entries |
| Database.LastNAbsorbs | database.py:161 | cutting to the last n before appending does not change the last n after appending |
| Database.DistinctMisses | database.py:158-161 | missing a sequence of new distinct topics leaves the last five of the old window followed by those topics |
| Database.SixDistinctMisses | database.py:158-161 | after six distinct misses from an empty window, the first one has been evicted |
| Database.NewUser | database.py:36-50 | the inserted row with the given ids and name, level beginner (the engine's tier for no exercises), goal general, zero counters, no weak topics, zero streak and no date; it is a valid record |
| Database.FetchOrCreate | database.py:96-113 | an existing user keeps every field except the name, which COALESCE replaces only when one is given; an unknown id gives a new record with the next id |
| Database.UpdatedRecord | database.py:151-171 | the record written back is the one the recording rules define |
| Database.Recorded | database.py:154-243 | the record as written back; no contract of its own: Database.RecordedCounters, Database.RecordedValid, Database.RecordedLevel, Database.RecordedStreak and Database.StatsAfterRecord state its columns |
| Database.RecordedCounters | database.py:154-156 | the total grows by one; the correct count grows by one exactly on a correct answer; the accuracy times the total is the correct count |
| Database.RecordedValid | database.py:154-156 | recording keeps a record valid (correct count at most the total) and the accuracy within [0, 1] |
| Database.RecordedLevel | database.py:194-243 | the level changes exactly when a non-empty new level is given; identity, name, goal and vocabulary are kept; the stored date becomes today |
| Database.RecordedStreak | database.py:163-171 | the stored streak follows the streak rule for each kind of stored date |
| Database.StatsOf | database.py:264-273 | the reported level, accuracy, counters, weak topics and streak are the stored ones |
| Database.StatsAfterRecord | database.py:246-273 | after recording, the reported total grows by one, the accuracy is correct over total, and the streak is at least 1 except for a zero streak kept on the same day |
| Database.UserDatabase.constructor | database.py:12-14 | an empty store, as for a new database file |
| Database.UserDatabase.GetUser | database.py:87-94 | the stored record exactly for a known Telegram id, nothing otherwise |
| Database.UserDatabase.GetUserStats | database.py:246-249 | nothing for an unknown user; the stats of the stored record otherwise |
| Database.UserDatabase.GetOrCreateUser | database.py:96-113 | returns the fetched-or-created record and stores it under the id; the id counter moves only for a new user; the history is unchanged; the store stays valid |
| Database.UserDatabase.SetUserLevel | database.py:115-118 | a known user's level is overwritten and nothing else changes; an unknown id changes nothing |
| Database.UserDatabase.RecordExercise | database.py:138-244 | the user is fetched or created, the recorded record is stored, exactly one history row with that user's id and the answer's data is appended, and the store stays valid |
| ChatClient.MessageList.Append | openai_api.py:181 | the message is added at the end of the list |
| ChatClient.Truncate | openai_api.py:177-178 | histories of ten or fewer stay as they are; longer ones become the first message and the last nine |
| ChatClient.HistoryAfterAsk | openai_api.py:174-191 | the stored history after an ask with credentials; no contract of its own: ChatClient.AskKeepsWellFormed, ChatClient.AnsweredEndsWithExchange, ChatClient.RetryRepeatsQuestion and ChatClient.FailureAfterCutChangesNothing state it, and ChatClient.Client.AskQuestion is proved against it |
| ChatClient.AskKeepsWellFormed | openai_api.py:169-191 | a history that starts with the system message and holds 1 to 12 messages keeps that shape after any question |
| ChatClient.AnsweredEndsWithExchange | openai_api.py:177-189 | after an answered question the history keeps its first message and ends with the question and then the answer |
| ChatClient.RetryRepeatsQuestion | openai_api.py:177-191 | under the cut limit, a failed question stays in the history, so a successful retry leaves it there twice |
| ChatClient.FailureAfterCutChangesNothing | openai_api.py:177-191 | once the history is over the limit, a failed question leaves the stored history as it was, because only the cut copy saw it |
| ChatClient.Client.constructor | openai_api.py:17-33 | the given credentials and no conversations |
| ChatClient.Client.HasCredentials | openai_api.py:171 | both credentials are set and non-empty, the test opening `ask_question` and `generate_exercise_structured`; a definition without a contract |
| ChatClient.Client.GetConversation | openai_api.py:109-113 | returns the stored list object, creating one holding the system message for a new user; no other user's history changes |
| ChatClient.Client.ClearConversation | openai_api.py:319-324 | true exactly for a known user, whose history is replaced by a new list holding the system message; false leaves everything unchanged |
| ChatClient.Client.AppendTo | openai_api.py:181-187 | appending to the stored list changes that user's history; appending to a cut copy changes no stored history |
| ChatClient.Client.Store | openai_api.py:188 | the list is stored under the user, and only that user's history changes |
| ChatClient.Client.AskQuestion | openai_api.py:169-191 | without credentials: the not-configured message and nothing changes; with them: the reply or the no-answer message, and the user's stored history becomes the result of the history-after-ask rule |
| ChatClient.Client.AskWith | openai_api.py:177-191 | whether the stored list or a cut copy is extended, the stored histories end up as the history-after-ask rule says |
| ChatClient.StripFences | openai_api.py:278-288 | the imperative cleanup equals the trimmed, unfenced text |
| ChatClient.Unfenced | openai_api.py:278-288 | the cleanup as a function: trim, drop a JSON-tagged then a bare opening fence, drop a closing fence, trim; no contract of its own: ChatClient.UnfencedTrimmed, ChatClient.UnfencedPlain, ChatClient.UnfencedJsonBlock and ChatClient.UnfencedPlainBlock state it |
| ChatClient.UnfencedTrimmed | openai_api.py:278-288 | the cleaned text has no whitespace at either end |
| ChatClient.UnfencedPlain | openai_api.py:278-288 | text without a fence at either end is only trimmed |
| ChatClient.JsonFenceIsFence | openai_api.py:281-284 | a text opening with the JSON fence also opens with a bare fence, so both prefix steps can apply |
| ChatClient.UnfencedJsonBlock | openai_api.py:278-288 | a JSON text on its own lines inside a JSON-tagged fence block cleans up to that text, trimmed |
| ChatClient.UnfencedPlainBlock | openai_api.py:278-288 | a JSON text on its own lines inside a bare fence block cleans up to that text, trimmed |
| ChatClient.FillDefaults | openai_api.py:294-305 | the result is the parsed object with a "Missing <field>" text for each missing required field, an empty tips list unless tips is a list, an empty explanation when it is missing, and nothing else changed |
| ChatClient.DefaultedIsComplete | openai_api.py:294-305 | a defaulted exercise has every required field, a tips list and an explanation |
| ChatClient.DefaultedUnique | openai_api.py:294-305 | the defaulting rule determines the result uniquely |
| ChatClient.CompleteIsFixed | openai_api.py:294-305 | an already complete exercise is left unchanged by defaulting |
| ChatClient.Fallback | openai_api.py:326-355 | each fallback exercise is complete, with the translation sentence, "B" or "goes" as its answer depending on the exercise type |
| ChatClient.TranslateFallbackComplete | openai_api.py:330-338 | the translation fallback is complete and expects the English sentence |
| ChatClient.VocabFallbackComplete | openai_api.py:339-347 | the vocabulary fallback is complete and expects "B" |
| ChatClient.GrammarFallbackComplete | openai_api.py:348-355 | the grammar fallback is complete and expects "goes" |
| ChatClient.FallbackIgnoresTopicAndLevel | openai_api.py:326-355 | the fallback depends only on the exercise type |
| ChatClient.Client.GenerateExercise | openai_api.py:223-317 | without the client's credentials or without a reply: the fallback; an unparsable cleaned reply: the fallback; otherwise the defaulted parse of the cleaned reply; the result is always complete |

## Left out

- `Database.UserDatabase.constructor`: the store always starts empty, as on a new database file. A database file that already holds users and history is not modelled; every method is specified against the state it starts from.
- The SQL layer is replaced by the map and the sequence: connections, the schema migrations (`_ensure_column`) and the `learning_plans` table.
- `get_user_stats`: the two averages over the history rows (`avg_difficulty`, `avg_time`) are not modelled.
- Timestamps are left out. `last_active` and `created_at` are not modelled, and `datetime.now()` is not called. Today's date is a day-number parameter, and ISO parsing is reduced to three cases: absent, unreadable, a day.
- `weak_topics` is a sequence, not its JSON text encoding in the table.
- The network is left out: OAuth token handling, `_call_gigachat_api` and the async machinery. The model's reply is a parameter, with `None` for no reply. Credentials come from the environment and are constructor arguments.
- `json.loads` is a parameter of `GenerateExercise`. A decode error and a decoded value that is not an object both give `None`. Both reach the fallback in the source: the first through the decode error handler, the second through the outer handler.
- `ChatClient.Client.AskQuestion`: the exception branch of `ask_question` is not modelled. That branch returns the "temporarily unavailable" text when the API call raises.
- `check_homework` and the prompt text built in `generate_exercise_structured` are not modelled, because they only assemble prompts for the remote model.
- `EvaluateAnswer` returns a feedback category (correct, partial, incorrect) rather than the text `random.choice` would pick. The messages inside each category are not modelled.
- Logging is left out.
- Accuracy and difficulty are exact reals, not binary floating point.
- `\w` and `lower()` cover ASCII and the basic Cyrillic block (U+0400–U+045F): other letters are not word characters here and are not lower-cased. `\s` covers the ASCII whitespace, U+001C–U+001F, U+0085 and U+00A0: other Unicode whitespace, such as U+2000–U+200A and U+3000, is not whitespace here.
- Concurrency is not modelled: two bot handlers interleaving on the store or on one history.
