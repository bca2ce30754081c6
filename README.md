# Screen-text game translator — a verified model

The repository holds three versions of one desktop tool. The tool reads a
selected rectangle of the screen with OCR every few tenths of a second and
translates each new text. It shows the translation and keeps a history.

- **multilingual-game-translator.py** recognises one of nineteen Tesseract
  languages. In "multi" or auto-detect mode it tries every installed
  language and keeps the most confident read. It translates into one of
  twelve target languages through a cache keyed by text, source and target.
  It emits a translation only when the OCR confidence reaches a threshold.
  Its history is a `deque` of 500 entries.
- **game-translator-enhanced.py** (Pro v2.0) translates Korean into
  Traditional Chinese. It reads with Tesseract or EasyOCR and caches by the
  recognised text alone, keeping error strings too. It has a show/hide
  overlay window and a 100-entry history that can be searched, imported,
  inspected and copied from.
- **game-korean-translator.py** is the small original. It uses Tesseract in
  Korean, has no cache, compares each text with the last one, and keeps an
  unbounded history that can be cleared or saved.

The project models the decision logic these share:

- the drag rule that accepts a capture region;
- the capture on/off switch;
- the per-cycle gate that decides whether a recognised text is new, and
  whether it is translated or only its confidence is shown;
- OCR aggregation and the choice between languages;
- both translation caches;
- the history logs;
- the small lookups and the overlay's state machine.

Modules, one per file:

| module | file | contents |
|---|---|---|
| `Wrappers` | wrappers.dfy | `Option` |
| `Collections` | collections.dfy | order-keeping filter, association-list lookup |
| `Text` | text.dfy | Python's `str.strip`, `str.lower` (ASCII), `in` on strings, `' '.join` |
| `HistoryLog` | history_log.dfy | `deque(maxlen=n)`: append with eviction, the newest-n window |
| `Capture` | capture.dfy | corner normalisation, the >10 px rule, `toggle_capture` |
| `ChangeDetector` | change_detector.dfy | the "non-empty and different from the last one" gate over a run of cycles |
| `Translation` | translation.dfy | the translation service as an oracle with a call log, the error sentinel, the multilingual cache key, Korean→Chinese calls |
| `Recognition` | recognition.dfy | Tesseract tokens, confidence mean, single- and multi-language selection |
| `Multilingual` | multilingual.dfy | the multilingual app: language tables, quick switch, translation with its cache, capture loop, history |
| `Enhanced` | enhanced.dfy | the enhanced app: overlay window, text-keyed cache, capture loop, history operations |
| `Korean` | korean.dfy | the Korean app: capture loop on `last_text`, unbounded history, clear and save |

Outside effects are parameters:

- **Translation service.** `googletrans` is a `TranslatorClient` whose
  answer to its n-th call is `respond(n, request)`: either a translation
  or a failure with a reason. Every call is logged in `calls`, so a
  contract can say that a cache hit makes no call. Answers may change from
  call to call.
- **Screen and OCR.** One capture cycle is a `Frame`. For the multilingual
  app it holds the tokens Tesseract gives per installed language, and a
  language that raises is absent. For the enhanced app it holds Tesseract's
  text and EasyOCR's fragments. A frame whose screenshot raised is
  `CaptureFailed`.
- **`root.after` callbacks.** A capture loop over a finite sequence of
  frames returns the callbacks it posted, in order. The history methods
  (`UpdateTranslation`, `UpdateDisplay`) are separate methods, as in the
  source, where the worker thread never touches the history.
- **Clock.** The clock is a parameter.

Each capture loop is a `while` loop over the frames. It is specified by a
value-level `Step`/`Run` of the same cycle, and the lemmas relate `Run` to
the change detector `ChangeDetector.Accepted`/`LastSeen`. Python's
`hash(text) != last_text_hash` is string inequality. The initial `""` hash
sentinel is `None`. In the Korean app the initial `last_text` is `""`, and
`Korean.GateIsChangeDetector` shows this is the same gate because no
accepted text is empty.

Some of the code's behaviour is easy to misread; the model follows the code:

- `multi_language_ocr` returns `None` when no language qualifies.
- A drag of exactly 10 px in either direction is rejected, because the
  test is `> 10`.
- The multilingual `update_translation` looks up the language name before
  it appends. A language missing from the installed table raises there,
  so nothing is recorded.
- The multilingual `translate_text` reports a missing source language as
  the sentinel followed by Python's `str(KeyError)`, which is the code in
  quotes.
- The target selector starts from the saved setting `'zh-tw'`, which is a
  code and not a display name. `get_target_code` therefore falls back to
  its default for it, and `TargetCodeRoundTrip` states that case too.

## Model

| member | source | states |
|---|---|---|
| `Capture.Select` | multilingual-game-translator.py:877-894 | a drag yields a region iff both extents exceed 10 px, and the region is (min x, min y, \|dx\|, \|dy\|) |
| `Capture.NormalizeSpansCorners` | multilingual-game-translator.py:883-887 | the stored region is (min x, min y, \|dx\|, \|dy\|): its corner is one of the two drag points and it contains both |
| `Capture.SelectSymmetric` | game-translator-enhanced.py:577-589 | dragging from either corner selects the same region |
| `Capture.BoundaryDrags` | game-korean-translator.py:198-208 | a 10 px drag is rejected; an 11 px drag is accepted from either direction with its min corner |
| `Capture.AfterRelease` | multilingual-game-translator.py:877-894 | without a press, or on a too-small drag, the region is unchanged; otherwise it becomes the selected region |
| `Capture.Toggled` | multilingual-game-translator.py:915-921 | with no region the capture flag is unchanged; with one it flips |
| `ChangeDetector.AcceptedNeverRepeats` | multilingual-game-translator.py:972-975 | accepted texts are never empty, the first differs from the initial last-seen value, and no two consecutive ones are equal |
| `ChangeDetector.LastSeenIsLastAccepted` | multilingual-game-translator.py:973-975 | the last-seen value after a run is the last accepted text, or the initial value when none was accepted |
| `ChangeDetector.LastSeenNeverEmpty` | game-korean-translator.py:264-271 | from a fresh start the last-seen value is never the empty text |
| `ChangeDetector.AcceptedSnoc` | game-translator-enhanced.py:679-681 | one more cycle accepts its text iff it is new relative to the last-seen value so far, and moves the last-seen value accordingly |
| `ChangeDetector.AcceptedStep` | game-translator-enhanced.py:679-681 | the same step on prefixes of one run of cycles |
| `ChangeDetector.RepeatIsIgnored` | game-korean-translator.py:266-271 | reading the same text twice in a row accepts it at most once |
| `Collections.Filter` | multilingual-game-translator.py:1236-1238 | the kept items are items of the input satisfying the predicate, every input item satisfying it is kept, and there are no more of them than input items |
| `Collections.FilterIsSubsequence` | multilingual-game-translator.py:1236-1238 | the kept items keep their input order: the result is a subsequence of the input |
| `Collections.FilterCounts` | multilingual-game-translator.py:1236-1238 | each kept item occurs in the result exactly as often as in the input, and a dropped item not at all, so repeats survive filtering |
| `Collections.SubsequenceOfItself` | multilingual-game-translator.py:104-115 | a table with nothing left out is a subsequence of itself |
| `Collections.FilterConcat` | game-translator-enhanced.py:850-856 | filtering distributes over concatenation, so input order is preserved |
| `Collections.FilterKeepsAll` | game-translator-enhanced.py:850-856 | a predicate true of every item keeps the whole sequence |
| `Collections.FilterSnoc` | game-translator-enhanced.py:852-856 | one more input item is appended to the result exactly when it satisfies the predicate, as the search loop inserts a matching row |
| `Collections.Lookup` | multilingual-game-translator.py:1100 | a key is found iff some entry has it, and the value returned is that of the first such entry |
| `HistoryLog.Window` | multilingual-game-translator.py:73 | the newest min(\|s\|, n) entries, as a suffix of the log |
| `HistoryLog.Append` | multilingual-game-translator.py:1175-1184 | below capacity the item is appended; at capacity the oldest entry is evicted; the log never exceeds capacity |
| `HistoryLog.WindowAppend` | game-translator-enhanced.py:797 | appending to a full deque keeps the window of the whole history seen so far |
| `Text.TrimStart` | multilingual-game-translator.py:1051 | drops exactly the leading whitespace: what is dropped is whitespace and the rest starts with a non-space |
| `Text.TrimEnd` | multilingual-game-translator.py:1051 | drops exactly the trailing whitespace |
| `Text.Strip` | game-korean-translator.py:264 | the result is a contiguous piece of the input, all of whose surroundings are whitespace and whose ends are not |
| `Text.StripIdempotent` | multilingual-game-translator.py:1083-1086 | stripping twice is stripping once |
| `Text.StripEmptyIffAllSpace` | game-korean-translator.py:266 | a stripped text is empty iff the input is all whitespace |
| `Text.Lower` | game-translator-enhanced.py:847-852 | lower-casing keeps the length, turns each ASCII capital into its small letter, leaves every other character alone, and leaves no ASCII capital |
| `Text.ContainsIffOccurs` | game-translator-enhanced.py:851-852 | the executable substring test agrees with "occurs at some position" |
| `Text.EmptyContained` | game-translator-enhanced.py:847-856 | the empty keyword occurs in every text |
| `Text.JoinWords` | game-translator-enhanced.py:676 | joining no fragments gives "" and joining one gives the fragment itself; `JoinWordsSnoc` gives the rest |
| `Text.JoinWordsSnoc` | multilingual-game-translator.py:1047-1048 | one more fragment is joined after exactly one space, so `n` fragments are separated by single spaces in order |
| `Translation.ErrorText` | game-korean-translator.py:302-306 | the sentinel is the fixed error prefix followed by exactly the reason |
| `Translation.TranslatorClient.constructor` | multilingual-game-translator.py:69 | a fresh client has made no calls |
| `Translation.TranslatorClient.Translate` | game-korean-translator.py:300-306 | one call, appended to the log, answered by the oracle's answer for that call number |
| `Translation.CacheKeyInjective` | multilingual-game-translator.py:1104 | with underscore-free language codes, equal cache keys mean equal text, source and target |
| `Translation.SplitLast` | multilingual-game-translator.py:1104 | `a + "_" + b` determines `a` and `b` when `b` has no underscore |
| `Translation.KoreanRequests` | game-korean-translator.py:300-306 | one Korean→Traditional Chinese call per text |
| `Translation.KoreanRequestsAt` | game-translator-enhanced.py:733-739 | the k-th call translates the k-th text |
| `Translation.KoreanRequestsConcat` | game-translator-enhanced.py:733-739 | the calls for two runs of texts are those of the first run, then the second |
| `Recognition.Confident` | multilingual-game-translator.py:1043 | exactly the tokens with positive confidence are kept, each as often as it occurs in the input, in their original order |
| `Recognition.Mean` | multilingual-game-translator.py:1044 | the mean of no confidences is 0 |
| `Recognition.SumBounds` | multilingual-game-translator.py:1044 | a sum of values within [lo, hi] lies within [n·lo, n·hi] |
| `Recognition.MeanBounds` | multilingual-game-translator.py:1044 | a mean of values within [lo, hi] lies within [lo, hi] |
| `Recognition.QuotientBounds` | multilingual-game-translator.py:1044 | dividing a sum bounded by n·lo and n·hi by n gives a value within [lo, hi] |
| `Recognition.Aggregate` | multilingual-game-translator.py:1043-1054 | the result carries the scanned language; its text is the confident tokens' words joined by single spaces and stripped; its confidence is positive iff some token is confident, and with no confident token the text is empty |
| `Recognition.AggregateIsMean` | multilingual-game-translator.py:1043-1044 | the confidence is the sum of the confident tokens' confidences divided by their number, and 0 when none is confident |
| `Recognition.MeanOfPositives` | multilingual-game-translator.py:1044 | the mean of positive confidences is positive iff there is at least one |
| `Recognition.SumOfPositives` | multilingual-game-translator.py:1044 | a sum of positive integers is at least their count |
| `Recognition.AggregateConfidenceInRange` | multilingual-game-translator.py:1043-1044 | with Tesseract confidences of at most 100, the aggregate confidence lies in [0, 100] |
| `Recognition.SingleLanguage` | multilingual-game-translator.py:1029-1057 | no result iff the language's scan raised; otherwise the aggregate of its tokens |
| `Recognition.BestSnoc` | multilingual-game-translator.py:1079-1089 | a further candidate replaces the best so far only if it has text and strictly greater confidence |
| `Recognition.BestIsEarliestMaximum` | multilingual-game-translator.py:1059-1094 | no result iff no candidate has text and positive confidence; otherwise the earliest candidate of strictly greatest confidence among those |
| `Recognition.SelectsMostConfident` | multilingual-game-translator.py:1059-1094 | on a concrete scan the Korean read beats an empty English one and an earlier-tied candidate wins |
| `Multilingual.InstalledLanguages` | multilingual-game-translator.py:101-115 | the whole table when the engine cannot be asked; otherwise exactly the table entries whose code the engine lists, in table order |
| `Multilingual.TargetCode` | multilingual-game-translator.py:815-821 | the first code whose display name matches, or "zh-tw" when none does |
| `Multilingual.FirstCodeNamed` | multilingual-game-translator.py:815-821 | the same reverse lookup over any table |
| `Multilingual.TargetNamesDistinct` | multilingual-game-translator.py:47-60 | no two target languages share a display name |
| `Multilingual.TargetCodeRoundTrip` | multilingual-game-translator.py:815-821 | looking up a target language's own name gives back its code, and the saved default "zh-tw" falls back to "zh-tw" |
| `Multilingual.NoNameIsDefaultCode` | multilingual-game-translator.py:47-60 | no display name equals the default code |
| `Multilingual.SourceCodesHaveNoUnderscore` | multilingual-game-translator.py:19-44 | no translation-service code in the language table contains an underscore |
| `Multilingual.TargetCodesHaveNoUnderscore` | multilingual-game-translator.py:47-60 | no target code, nor the default "zh-tw", contains an underscore |
| `Multilingual.FirstCodeNamedNoUnderscore` | multilingual-game-translator.py:815-821 | so the target code `get_target_code` returns never contains an underscore |
| `Multilingual.RequestKeysInjective` | multilingual-game-translator.py:1100-1105 | two requests the translator can make share a cache key only if they are the same text, source and target, so the string-keyed cache acts as a cache of requests |
| `Multilingual.IndexOf` | multilingual-game-translator.py:790-792 | `list.index`: absent iff the value is not in the list; otherwise the first position holding it |
| `Multilingual.NextQuickLanguage` | multilingual-game-translator.py:785-797 | jpn→kor→eng→chi_sim→jpn, and any other language becomes jpn |
| `Multilingual.QuickPositions` | multilingual-game-translator.py:788 | the positions of the four quick languages |
| `Multilingual.QuickSwitchCycles` | multilingual-game-translator.py:785-797 | four quick switches from a quick language return to it |
| `Multilingual.DecisionsFollowChangeDetector` | multilingual-game-translator.py:972-993 | the gate makes exactly one decision per accepted text, in order; each is "translate" iff the text's confidence reaches the threshold |
| `Multilingual.DecisionsSnoc` | multilingual-game-translator.py:972-993 | one more cycle adds a decision iff its text is new |
| `Multilingual.LastSeenSnoc` | multilingual-game-translator.py:973-975 | the last-seen text moves on a new text before the threshold check |
| `Multilingual.TranslateCountSnoc` | multilingual-game-translator.py:978-990 | only "translate" decisions count as translations |
| `Multilingual.OutcomeKeepsSound` | multilingual-game-translator.py:1096-1120 | every cached entry is a successful answer the service gave for that key; a translation keeps this, keeps old entries, and makes at most one call, appended to the log |
| `Multilingual.OutcomeMemoises` | multilingual-game-translator.py:1104-1118 | after a successful translation, asking again returns the identical string with no further call |
| `Multilingual.OutcomeRetriesAfterFailure` | multilingual-game-translator.py:1107-1120 | a failed call returns the sentinel with the reason, leaves the cache unchanged, and the same request is sent to the service again next time |
| `Multilingual.AnsweredGrows` | multilingual-game-translator.py:1096-1120 | a translation traced to a logged call stays traced when the log grows |
| `Multilingual.OutcomeAnswered` | multilingual-game-translator.py:1096-1120 | the string `translate_text` returns is the service's translation or failure sentinel for a logged call under its key, or the missing-language sentinel |
| `Multilingual.RunFollowsDecisions` | multilingual-game-translator.py:945-998 | a capture run posts one update per gate decision, of that decision's kind and in order; it ends on the change detector's last-seen text; it keeps the cache sound; and it makes at most one call per translate decision |
| `Multilingual.RunPostsAnswered` | multilingual-game-translator.py:972-993 | every translation a capture run posts is the answer, or failure sentinel, of a logged call for that text and languages, or the missing-language sentinel |
| `Multilingual.MultilingualTranslator.constructor` | multilingual-game-translator.py:69-87 | the initial state: installed table, empty cache and history, no region, not capturing, jpn source, threshold 60 |
| `Multilingual.MultilingualTranslator.OnMouseUp` | multilingual-game-translator.py:877-894 | the region follows the drag rule |
| `Multilingual.MultilingualTranslator.ToggleCapture` | multilingual-game-translator.py:915-921 | capture flips only when a region is selected |
| `Multilingual.MultilingualTranslator.QuickSwitchLanguage` | multilingual-game-translator.py:785-797 | the source language moves to the next quick language |
| `Multilingual.MultilingualTranslator.MultiLanguageOcr` | multilingual-game-translator.py:1059-1094 | the loop's best result is the earliest most-confident qualifying candidate over the installed languages |
| `Multilingual.MultilingualTranslator.RecognizeFrame` | multilingual-game-translator.py:965-970 | a failed screenshot gives no result; otherwise the selected OCR mode's result |
| `Multilingual.MultilingualTranslator.TranslateText` | multilingual-game-translator.py:1096-1120 | the returned string, new cache and call log are those of the value-level translation, whose properties are `OutcomeKeepsSound` and `OutcomeMemoises` |
| `Multilingual.MultilingualTranslator.UpdateTranslation` | multilingual-game-translator.py:1148-1193 | an uninstalled language records nothing; otherwise one item is appended to the 500-entry log, evicting the oldest at capacity |
| `Multilingual.MultilingualTranslator.FilterHistory` | multilingual-game-translator.py:1232-1240 | "all" lists the whole history; otherwise exactly the entries of that language name, each as often as it occurs, in history order |
| `Multilingual.MultilingualTranslator.GateCycle` | multilingual-game-translator.py:972-993 | one cycle changes last-seen text, cache, call log and posts exactly as the value-level step |
| `Multilingual.MultilingualTranslator.CaptureLoop` | multilingual-game-translator.py:945-998 | the loop ends in the state of the value-level run; it posts one update per decision of the matching kind, each posted translation being the service's answer for that text; it makes no more calls than translate decisions |
| `Enhanced.OverlayWindow.constructor` | game-translator-enhanced.py:22-25 | no window yet, not showing |
| `Enhanced.OverlayWindow.CreateOverlay` | game-translator-enhanced.py:27-29 | the window exists and is on screen with empty text |
| `Enhanced.OverlayWindow.Toggle` | game-translator-enhanced.py:76-86 | the first toggle creates and shows the window; every later one flips showing and keeps the text |
| `Enhanced.OverlayWindow.UpdateText` | game-translator-enhanced.py:70-74 | the text is set, creating the window if needed, without changing whether it is showing |
| `Enhanced.TextsByEngine` | game-translator-enhanced.py:667-676 | with Tesseract every text the gate sees is already stripped; with EasyOCR chosen but no reader every text is empty |
| `Enhanced.MissesTranslatedOnce` | game-translator-enhanced.py:684-689 | across a run, each text is sent to the service at most once, only if it was not cached at the start, and every uncached accepted text is sent |
| `Enhanced.MissesSnoc` | game-translator-enhanced.py:684-689 | one more accepted text is a miss iff it was neither cached nor accepted before |
| `Enhanced.CallsStep` | game-translator-enhanced.py:684-689 | a hit adds no call and a miss adds the call for its text |
| `Enhanced.PostsMatchAt` | game-translator-enhanced.py:690-697 | each posted pair is an accepted text with its cached translation |
| `Enhanced.PostsMatchExtends` | game-translator-enhanced.py:684-689 | entries already cached never change, so earlier posts stay consistent with the cache |
| `Enhanced.ExtendsTrans` | game-translator-enhanced.py:105 | keeping entries is transitive |
| `Enhanced.PostsMatchStep` | game-translator-enhanced.py:690-697 | posting the cached translation of a new text extends a consistent run |
| `Enhanced.ElementsOfSnoc` | game-translator-enhanced.py:684-689 | the texts met so far grow by the new one |
| `Enhanced.CacheStaysSound` | game-translator-enhanced.py:686-688 | caching what `translate_text` returned, error sentinel included, keeps every entry equal to some logged call's rendered answer |
| `Enhanced.ProgressStep` | game-translator-enhanced.py:679-697 | the run invariant survives one accepted cycle: cache keys, misses, calls, posts and clipboard |
| `Enhanced.RunLastSeen` | game-translator-enhanced.py:679-681 | the run ends on the change detector's last-seen text |
| `Enhanced.RunProgress` | game-translator-enhanced.py:647-702 | after a run, the cache keys are the old keys plus the accepted texts; the calls are exactly one per miss, in order; each post is an accepted text with its cached translation; and with auto-copy the clipboard holds the last posted translation |
| `Enhanced.EnhancedTranslator.constructor` | game-translator-enhanced.py:95-106 | empty cache and history, no region, Tesseract engine, not capturing |
| `Enhanced.EnhancedTranslator.OnMouseUp` | game-translator-enhanced.py:572-589 | the region follows the drag rule |
| `Enhanced.EnhancedTranslator.SelectEngine` | game-translator-enhanced.py:311-335 | the radio buttons set the engine to Tesseract or EasyOCR |
| `Enhanced.EnhancedTranslator.ToggleCapture` | game-translator-enhanced.py:610-627 | capture flips only when a region is selected; starting with EasyOCR and no reader loads it, or on failure switches the engine to Tesseract; otherwise engine and reader are unchanged |
| `Enhanced.EnhancedTranslator.TranslateText` | game-translator-enhanced.py:733-739 | one Korean→Chinese call; the translation or the sentinel |
| `Enhanced.EnhancedTranslator.RecognizeFrame` | game-translator-enhanced.py:665-676 | the engine's text for the frame |
| `Enhanced.EnhancedTranslator.CachedTranslation` | game-translator-enhanced.py:684-689 | a hit returns the cached string with no call; a miss makes one call and caches whatever came back |
| `Enhanced.EnhancedTranslator.GateCycle` | game-translator-enhanced.py:679-697 | one cycle changes last-seen text, cache, call log, clipboard and posts exactly as the value-level step |
| `Enhanced.EnhancedTranslator.CaptureLoop` | game-translator-enhanced.py:647-702 | the loop ends in the state of the value-level run, whose properties are `RunProgress` and `RunLastSeen`, and keeps the cache sound |
| `Enhanced.EnhancedTranslator.UpdateTranslation` | game-translator-enhanced.py:767-797 | one record appended to the 100-entry log; the overlay text changes only while it is showing, and the overlay becomes visible only when it is showing but had no window yet |
| `Enhanced.EnhancedTranslator.ImportHistory` | game-translator-enhanced.py:925-949 | the log becomes the newest 100 of the old entries followed by the imported ones |
| `Enhanced.EnhancedTranslator.ClearAllHistory` | game-translator-enhanced.py:951-957 | the log is emptied only when the user confirms |
| `Enhanced.EnhancedTranslator.CopyLatestTranslation` | game-translator-enhanced.py:836-843 | an empty log leaves the clipboard alone; otherwise it receives the newest record's Korean and Chinese on two lines |
| `Enhanced.EnhancedTranslator.SearchHistory` | game-translator-enhanced.py:845-856 | exactly the records whose lowercased Korean or Chinese contains the lowercased keyword, in order; an empty keyword lists everything |
| `Enhanced.EmptyNeedleListsAll` | game-translator-enhanced.py:849-853 | the empty keyword occurs in every record, so the search lists the whole history |
| `Enhanced.ShowHistoryDetail` | game-translator-enhanced.py:858-864 | as written: a record is shown iff the selected row is below the history length, and it is the history record at that row |
| `Enhanced.DetailAfterSearchShowsOtherRecord` | game-translator-enhanced.py:858-864 | after a search, selecting the only listed row shows a record that is not the listed one |
| `Enhanced.SelectedDetail` | game-translator-enhanced.py:858-864 | the record shown is the listed row that was selected, and only a listed row can be shown |
| `Enhanced.SelectedDetailIsListedMatch` | game-translator-enhanced.py:845-864 | after a search the shown record matches the keyword; with nothing filtered it agrees with the code as written |
| `Korean.TextsStripped` | game-korean-translator.py:260-264 | every text the gate sees has no surrounding whitespace, and a failed screenshot offers the empty text |
| `Korean.Posts` | game-korean-translator.py:266-274 | one posted update per accepted text |
| `Korean.PostsSnoc` | game-korean-translator.py:266-274 | a further accepted text posts itself with the answer to the next call |
| `Korean.PostsAt` | game-korean-translator.py:266-274 | the k-th post pairs the k-th accepted text with the answer to its own call |
| `Korean.GateIsChangeDetector` | game-korean-translator.py:264-271 | comparing with `last_text`, initially "", is the change detector's "non-empty and new" test |
| `Korean.RunFollowsChangeDetector` | game-korean-translator.py:243-282 | a run calls the service once per accepted text, in order; it posts each with its answer; it ends with the last accepted text |
| `Korean.PostsFollowChangeDetector` | game-korean-translator.py:266-274 | posted texts are non-empty and no two consecutive ones are equal |
| `Korean.KoreanTranslator.constructor` | game-korean-translator.py:26-28 | not capturing, no region, empty history |
| `Korean.KoreanTranslator.OnMouseUp` | game-korean-translator.py:196-211 | the region follows the drag rule |
| `Korean.KoreanTranslator.ToggleCapture` | game-korean-translator.py:225-231 | capture flips only when a region is selected |
| `Korean.KoreanTranslator.TranslateText` | game-korean-translator.py:300-306 | one Korean→Chinese call; the translation or the sentinel |
| `Korean.KoreanTranslator.GateCycle` | game-korean-translator.py:264-274 | one cycle changes `last_text`, the call log and posts exactly as the value-level step |
| `Korean.KoreanTranslator.CaptureLoop` | game-korean-translator.py:243-282 | the calls are exactly one per accepted text, in order, and the posts pair each accepted text with the answer to its own call |
| `Korean.KoreanTranslator.UpdateDisplay` | game-korean-translator.py:343-347 | exactly one record is appended and nothing is evicted |
| `Korean.KoreanTranslator.ClearHistory` | game-korean-translator.py:349-353 | the history becomes empty |
| `Korean.KoreanTranslator.SaveHistory` | game-korean-translator.py:355-364 | nothing is saved iff the history is empty; otherwise the whole history goes to the time-stamped file name |

## Left out

- The Tkinter interface: windows, canvases, listboxes, dialogs, styles and the widget-tree button search. The listbox is modelled only as the sequence of rows it lists.
- Screenshots (`pyautogui`), the full-screen drag overlay, and pixel coordinates beyond the corner arithmetic.
- OpenCV preprocessing (`preprocess_image`, `advanced_preprocess`). It is foreign pixel code.
- The internals of Tesseract, EasyOCR and `googletrans`. They are the oracles described above.
- Whether `easyocr.Reader(['ko', 'ch_tra'])` loads. `ToggleCapture` takes that outcome as its `readerLoads` parameter.
- Threads, `root.after` scheduling, `time.sleep` cadence and global hotkeys. A capture loop runs over a given finite sequence of frames, and stopping is the end of that sequence.
- File I/O: JSON, CSV and TXT export, `load_history`, and settings persistence. Only the guard and the content of the Korean `save_history` are modelled, and of `import_history` only the effect on the deque.
- `update_preview`, `update_confidence`, `update_statistics`, `update_language_display` and the other display refreshes. They only draw.
- `set_language_preset`, `show_history_detail` of the multilingual app and the settings dialogs. They are presentation, not part of the decision logic modelled here.
- Dates and timestamps. They are opaque strings supplied by the caller.
- Text.Lower: lowers ASCII letters only. Python's `str.lower` is full Unicode case mapping, and Korean and Chinese have no case.
- Text.Strip: uses the whitespace set of Python's `str.isspace` as written out in text.dfy. It ignores Unicode version differences.
- `hash(text)` comparisons are string comparisons. Two different texts with equal hashes would be treated as new in the model but as repeats in the program.
- Enhanced.EnhancedTranslator.ImportHistory: does not model a JSON item missing a key. The program raises after appending part of the list.
- Multilingual.RunFollowsDecisions: bounds the calls by the number of translate decisions rather than listing them, because cache hits depend on the earlier answers.
- Multilingual.MultilingualTranslator.CaptureLoop: states the call count as the same bound, for the same reason.
- Multilingual.MultilingualTranslator.CaptureLoop: fixes the OCR mode, auto-detect switch, source language and threshold for a whole run. The program reads them again on every cycle while keeping `last_text_hash`, so a change during capture takes effect from the next cycle. The model cannot express such a change within one run.
- Enhanced.EnhancedTranslator.CaptureLoop: fixes the OCR engine and the auto-copy switch for a whole run. The program reads them on every cycle while keeping `last_text_hash`, so a change during capture is not modelled within one run.
- Confidence: Tesseract's `conf` values are integers here. The threshold is compared with the real mean, and floating-point rounding of that mean is not modelled.

## Findings

| source | as written | input that shows it | evidently intended | confidence | as-written member | corrected member |
|---|---|---|---|---|---|---|
| game-translator-enhanced.py:858-864 | the selected listbox row is used as an index into the whole history | history [a, b] where only b contains "b"; search "b" lists [b]; selecting row 0 opens a | open the record on the selected row | not executed | `Enhanced.DetailAfterSearchShowsOtherRecord` | `Enhanced.SelectedDetailIsListedMatch` |
