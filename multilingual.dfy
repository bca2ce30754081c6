/**
 * The multilingual translator (v3.0): OCR in one chosen language or in every
 * installed language, a confidence threshold, a translation cache keyed by
 * text and both language codes, and a 500-entry history.
 */
module Multilingual {
  import opened Wrappers
  import opened Collections
  import opened Capture
  import opened ChangeDetector
  import opened Translation
  import opened Recognition
  import HistoryLog

  /** An entry of the language table: display name and translation-service code. */
  datatype LangInfo = LangInfo(name: string, googleCode: string)

  /** The recognition languages the translator knows, in table order. */
  const LANGUAGES: seq<(string, LangInfo)> := [
    ("jpn", LangInfo("日文", "ja")),
    ("kor", LangInfo("韓文", "ko")),
    ("chi_sim", LangInfo("簡體中文", "zh-cn")),
    ("chi_tra", LangInfo("繁體中文", "zh-tw")),
    ("eng", LangInfo("英文", "en")),
    ("fra", LangInfo("法文", "fr")),
    ("deu", LangInfo("德文", "de")),
    ("spa", LangInfo("西班牙文", "es")),
    ("ita", LangInfo("義大利文", "it")),
    ("por", LangInfo("葡萄牙文", "pt")),
    ("rus", LangInfo("俄文", "ru")),
    ("ara", LangInfo("阿拉伯文", "ar")),
    ("tha", LangInfo("泰文", "th")),
    ("vie", LangInfo("越南文", "vi")),
    ("ind", LangInfo("印尼文", "id")),
    ("tur", LangInfo("土耳其文", "tr")),
    ("pol", LangInfo("波蘭文", "pl")),
    ("nld", LangInfo("荷蘭文", "nl")),
    ("swe", LangInfo("瑞典文", "sv"))
  ]

  /** Target languages: translation-service code and display name, in table order. */
  const TARGET_LANGUAGES: seq<(string, string)> := [
    ("zh-tw", "繁體中文"),
    ("zh-cn", "簡體中文"),
    ("en", "英文"),
    ("ja", "日文"),
    ("ko", "韓文"),
    ("es", "西班牙文"),
    ("fr", "法文"),
    ("de", "德文"),
    ("ru", "俄文"),
    ("ar", "阿拉伯文"),
    ("th", "泰文"),
    ("vi", "越南文")
  ]

  const DEFAULT_TARGET_CODE: string := "zh-tw"

  /** The rotation the quick-switch key walks through. */
  const QUICK_LANGS: seq<string> := ["jpn", "kor", "eng", "chi_sim"]

  /** `deque(maxlen=500)`. */
  const HISTORY_CAPACITY: nat := 500

  /** The history filter's "all languages" choice. */
  const ALL_LANGUAGES: string := "全部"

  /**
   * The installed languages: the table entries whose code the engine lists,
   * or the whole table when asking the engine raised (`available` is None).
   */
  function InstalledLanguages(available: Option<seq<string>>): (r: seq<(string, LangInfo)>)
    ensures available.None? ==> r == LANGUAGES
    ensures available.Some? ==> forall i :: 0 <= i < |r| ==> r[i] in LANGUAGES && r[i].0 in available.value
    ensures available.Some? ==> forall i :: 0 <= i < |LANGUAGES| && LANGUAGES[i].0 in available.value ==> LANGUAGES[i] in r
    ensures Subsequence(r, LANGUAGES)
  {
    if available.None? then
      SubsequenceOfItself(LANGUAGES);
      LANGUAGES
    else
      FilterIsSubsequence(LANGUAGES, (e: (string, LangInfo)) => e.0 in available.value);
      Filter(LANGUAGES, (e: (string, LangInfo)) => e.0 in available.value)
  }

  /**
   * `get_target_code`: the code of the first target language whose display
   * name is `name`, or `zh-tw` when none matches.
   */
  function TargetCode(name: string): (code: string)
    ensures (forall i :: 0 <= i < |TARGET_LANGUAGES| ==> TARGET_LANGUAGES[i].1 != name) ==> code == DEFAULT_TARGET_CODE
    ensures forall i :: (0 <= i < |TARGET_LANGUAGES| && TARGET_LANGUAGES[i].1 == name &&
                         (forall j :: 0 <= j < i ==> TARGET_LANGUAGES[j].1 != name)) ==> code == TARGET_LANGUAGES[i].0
  {
    FirstCodeNamed(TARGET_LANGUAGES, name)
  }

  function FirstCodeNamed(table: seq<(string, string)>, name: string): (code: string)
    ensures (forall i :: 0 <= i < |table| ==> table[i].1 != name) ==> code == DEFAULT_TARGET_CODE
    ensures forall i :: (0 <= i < |table| && table[i].1 == name &&
                         (forall j :: 0 <= j < i ==> table[j].1 != name)) ==> code == table[i].0
  {
    if |table| == 0 then DEFAULT_TARGET_CODE
    else if table[0].1 == name then table[0].0
    else
      assert forall i :: 1 <= i < |table| ==> table[i] == table[1..][i - 1];
      FirstCodeNamed(table[1..], name)
  }

  /** The target names are pairwise distinct. */
  lemma TargetNamesDistinct()
    ensures forall i, j :: 0 <= i < j < |TARGET_LANGUAGES| ==> TARGET_LANGUAGES[i].1 != TARGET_LANGUAGES[j].1
  {
  }

  /**
   * Looking a target language up by its display name gives back its code,
   * for every entry of the table; the initial setting `zh-tw`, which is a
   * code and not a name, falls through to the default `zh-tw`.
   */
  lemma TargetCodeRoundTrip()
    ensures forall i :: 0 <= i < |TARGET_LANGUAGES| ==> TargetCode(TARGET_LANGUAGES[i].1) == TARGET_LANGUAGES[i].0
    ensures TargetCode("zh-tw") == "zh-tw"
  {
    TargetNamesDistinct();
    forall i | 0 <= i < |TARGET_LANGUAGES|
      ensures TargetCode(TARGET_LANGUAGES[i].1) == TARGET_LANGUAGES[i].0
    {
      assert forall j :: 0 <= j < i ==> TARGET_LANGUAGES[j].1 != TARGET_LANGUAGES[i].1;
    }
    NoNameIsDefaultCode();
  }

  /** No display name of the table spells the default code. */
  lemma NoNameIsDefaultCode()
    ensures forall i :: 0 <= i < |TARGET_LANGUAGES| ==> TARGET_LANGUAGES[i].1 != DEFAULT_TARGET_CODE
  {
    forall i | 0 <= i < |TARGET_LANGUAGES|
      ensures TARGET_LANGUAGES[i].1 != DEFAULT_TARGET_CODE
    {
      assert TARGET_LANGUAGES[i].1[0] != DEFAULT_TARGET_CODE[0];
    }
  }

  /** No translation-service code of the recognition table contains an underscore. */
  lemma SourceCodesHaveNoUnderscore()
    ensures forall i :: 0 <= i < |LANGUAGES| ==> NoUnderscore(LANGUAGES[i].1.googleCode)
  {
    forall i | 0 <= i < |LANGUAGES|
      ensures NoUnderscore(LANGUAGES[i].1.googleCode)
    {
    }
  }

  /** No target code contains an underscore, the default included. */
  lemma TargetCodesHaveNoUnderscore()
    ensures forall i :: 0 <= i < |TARGET_LANGUAGES| ==> NoUnderscore(TARGET_LANGUAGES[i].0)
    ensures NoUnderscore(DEFAULT_TARGET_CODE)
  {
    forall i | 0 <= i < |TARGET_LANGUAGES|
      ensures NoUnderscore(TARGET_LANGUAGES[i].0)
    {
    }
  }

  /** The reverse lookup returns a table code or the default, so no underscore. */
  lemma {:induction false} FirstCodeNamedNoUnderscore(table: seq<(string, string)>, name: string)
    requires forall i :: 0 <= i < |table| ==> NoUnderscore(table[i].0)
    requires NoUnderscore(DEFAULT_TARGET_CODE)
    ensures NoUnderscore(FirstCodeNamed(table, name))
    decreases |table|
  {
    if |table| > 0 && table[0].1 != name {
      assert forall i :: 1 <= i < |table| ==> table[i] == table[1..][i - 1];
      FirstCodeNamedNoUnderscore(table[1..], name);
    }
  }

  /**
   * Two requests the translator can make have the same cache key only if
   * they are the same request: text, installed source code and target
   * code. So the string-keyed cache behaves as a cache keyed by requests.
   */
  lemma RequestKeysInjective(available: Option<seq<string>>, l1: string, l2: string,
                             t1: string, t2: string, n1: string, n2: string)
    requires Lookup(InstalledLanguages(available), l1).Some? && Lookup(InstalledLanguages(available), l2).Some?
    ensures var r1 := Request(t1, Lookup(InstalledLanguages(available), l1).value.googleCode, TargetCode(n1));
      var r2 := Request(t2, Lookup(InstalledLanguages(available), l2).value.googleCode, TargetCode(n2));
      KeyOf(r1) == KeyOf(r2) ==> r1 == r2
  {
    var installed := InstalledLanguages(available);
    SourceCodesHaveNoUnderscore();
    TargetCodesHaveNoUnderscore();
    FirstCodeNamedNoUnderscore(TARGET_LANGUAGES, n1);
    FirstCodeNamedNoUnderscore(TARGET_LANGUAGES, n2);
    var v1 := Lookup(installed, l1).value;
    var v2 := Lookup(installed, l2).value;
    var i1 :| 0 <= i1 < |installed| && installed[i1] == (l1, v1);
    var i2 :| 0 <= i2 < |installed| && installed[i2] == (l2, v2);
    assert installed[i1] in LANGUAGES && installed[i2] in LANGUAGES;
    assert NoUnderscore(v1.googleCode) && NoUnderscore(v2.googleCode);
    var r1 := Request(t1, v1.googleCode, TargetCode(n1));
    var r2 := Request(t2, v2.googleCode, TargetCode(n2));
    if KeyOf(r1) == KeyOf(r2) {
      CacheKeyInjective(t1, r1.src, r1.dst, t2, r2.src, r2.dst);
    }
  }

  /** The position of `x` in `s` (`list.index`), or None (`ValueError`). */
  function IndexOf(s: seq<string>, x: string): (r: Option<nat>)
    ensures r.None? <==> x !in s
    ensures r.Some? ==> r.value < |s| && s[r.value] == x && x !in s[..r.value]
  {
    if |s| == 0 then None
    else if s[0] == x then Some(0)
    else
      var r := IndexOf(s[1..], x);
      if r.None? then None
      else
        assert s[..r.value + 1] == [s[0]] + s[1..][..r.value];
        Some(r.value + 1)
  }

  /**
   * `quick_switch_language`: the next language of the rotation
   * jpn, kor, eng, chi_sim, or jpn when the current one is not in it.
   */
  function NextQuickLanguage(current: string): (next: string)
    ensures next in QUICK_LANGS
    ensures current !in QUICK_LANGS ==> next == "jpn"
    ensures current == "jpn" ==> next == "kor"
    ensures current == "kor" ==> next == "eng"
    ensures current == "eng" ==> next == "chi_sim"
    ensures current == "chi_sim" ==> next == "jpn"
  {
    var i := IndexOf(QUICK_LANGS, current);
    if i.None? then QUICK_LANGS[0]
    else
      QuickPositions();
      QUICK_LANGS[(i.value + 1) % |QUICK_LANGS|]
  }

  /** Where each language of the rotation sits in it. */
  lemma QuickPositions()
    ensures IndexOf(QUICK_LANGS, "jpn") == Some(0)
    ensures IndexOf(QUICK_LANGS, "kor") == Some(1)
    ensures IndexOf(QUICK_LANGS, "eng") == Some(2)
    ensures IndexOf(QUICK_LANGS, "chi_sim") == Some(3)
  {
    assert "jpn" != "kor" && "jpn" != "eng" && "jpn" != "chi_sim";
    assert "kor" != "eng" && "kor" != "chi_sim" && "eng" != "chi_sim";
  }

  /** Four presses of the quick-switch key come back to the starting language. */
  lemma QuickSwitchCycles(current: string)
    requires current in QUICK_LANGS
    ensures NextQuickLanguage(NextQuickLanguage(NextQuickLanguage(NextQuickLanguage(current)))) == current
  {
    assert current == "jpn" || current == "kor" || current == "eng" || current == "chi_sim";
  }

  /** `datetime.now()` read as `%H:%M:%S` and `%Y-%m-%d`. */
  datatype Clock = Clock(time: string, date: string)

  /** One history entry. */
  datatype HistoryItem = HistoryItem(timestamp: string, date: string, language: string,
                                     languageName: string, source: string, target: string,
                                     confidence: real)

  /** One capture cycle: the screenshot failed, or the engine's tokens per language. */
  datatype Frame = CaptureFailed | Captured(scans: map<string, seq<Token>>)

  /** A callback the capture loop posts to the interface thread. */
  datatype Post =
    | ShowTranslation(source: string, target: string, language: string, confidence: real)
    | ShowConfidence(confidence: real)

  /** What the gate decided for a cycle whose text is new. */
  datatype Decision = TranslateIt(result: OcrResult) | ConfidenceOnly(result: OcrResult)

  /** The result a cycle recognises, in multi-language or single-language mode. */
  function Recognize(frame: Frame, multi: bool, sourceLang: string, langs: seq<string>): Option<OcrResult> {
    match frame
    case CaptureFailed => None
    case Captured(scans) => if multi then BestOf(langs, scans) else SingleLanguage(sourceLang, scans)
  }

  function Results(frames: seq<Frame>, multi: bool, sourceLang: string, langs: seq<string>): (r: seq<Option<OcrResult>>)
    ensures |r| == |frames| && forall i :: 0 <= i < |r| ==> r[i] == Recognize(frames[i], multi, sourceLang, langs)
  {
    seq(|frames|, i requires 0 <= i < |frames| => Recognize(frames[i], multi, sourceLang, langs))
  }

  /** The text a cycle offers the gate: empty when nothing was recognised. */
  function TextOf(r: Option<OcrResult>): string {
    if r.Some? then r.value.text else ""
  }

  function Texts(results: seq<Option<OcrResult>>): (r: seq<string>)
    ensures |r| == |results| && forall i :: 0 <= i < |r| ==> r[i] == TextOf(results[i])
  {
    seq(|results|, i requires 0 <= i < |results| => TextOf(results[i]))
  }

  /** A new text is translated when it reaches the threshold, else only its confidence is shown. */
  function Decide(r: OcrResult, threshold: int): Decision {
    if r.confidence >= threshold as real then TranslateIt(r) else ConfidenceOnly(r)
  }

  /** The decisions of the cycles, in order, starting from last-seen text `last`. */
  function Decisions(last: Option<string>, results: seq<Option<OcrResult>>, threshold: int): seq<Decision>
    decreases |results|
  {
    if |results| == 0 then []
    else if IsNew(last, TextOf(results[0])) then
      [Decide(results[0].value, threshold)] + Decisions(Some(TextOf(results[0])), results[1..], threshold)
    else Decisions(last, results[1..], threshold)
  }

  /**
   * The gate acts on exactly the texts the change detector accepts, in
   * order, and translates exactly those whose confidence reaches the
   * threshold.
   */
  lemma {:induction false} DecisionsFollowChangeDetector(last: Option<string>, results: seq<Option<OcrResult>>, threshold: int)
    ensures var ds := Decisions(last, results, threshold);
      var a := Accepted(last, Texts(results));
      && |ds| == |a|
      && (forall k :: 0 <= k < |ds| ==> ds[k].result.text == a[k])
      && (forall k :: 0 <= k < |ds| ==> (ds[k].TranslateIt? <==> ds[k].result.confidence >= threshold as real))
    decreases |results|
  {
    if |results| > 0 {
      assert Texts(results)[1..] == Texts(results[1..]);
      if IsNew(last, TextOf(results[0])) {
        DecisionsFollowChangeDetector(Some(TextOf(results[0])), results[1..], threshold);
      } else {
        DecisionsFollowChangeDetector(last, results[1..], threshold);
      }
    }
  }

  /** One more cycle: its decision is added exactly when its text is new. */
  lemma {:induction false} DecisionsSnoc(last: Option<string>, results: seq<Option<OcrResult>>,
                                         r: Option<OcrResult>, threshold: int)
    ensures Decisions(last, results + [r], threshold) ==
      Decisions(last, results, threshold) +
      (if IsNew(LastSeen(last, Texts(results)), TextOf(r)) then [Decide(r.value, threshold)] else [])
    decreases |results|
  {
    if |results| == 0 {
      assert results + [r] == [r];
      assert Texts(results) == [];
    } else {
      assert (results + [r])[1..] == results[1..] + [r];
      assert Texts(results)[1..] == Texts(results[1..]);
      DecisionsSnoc(Observe(last, TextOf(results[0])), results[1..], r, threshold);
    }
  }

  /** The last-seen text after one more cycle. */
  lemma LastSeenSnoc(last: Option<string>, results: seq<Option<OcrResult>>, r: Option<OcrResult>)
    ensures LastSeen(last, Texts(results + [r])) == Observe(LastSeen(last, Texts(results)), TextOf(r))
  {
    assert Texts(results + [r]) == Texts(results) + [TextOf(r)];
    AcceptedSnoc(last, Texts(results), TextOf(r));
  }

  /** The number of translation decisions. */
  function TranslateCount(ds: seq<Decision>): nat {
    if |ds| == 0 then 0 else (if ds[0].TranslateIt? then 1 else 0) + TranslateCount(ds[1..])
  }

  lemma TranslateCountSnoc(ds: seq<Decision>, d: Decision)
    ensures TranslateCount(ds + [d]) == TranslateCount(ds) + (if d.TranslateIt? then 1 else 0)
  {
    if |ds| > 0 {
      assert (ds + [d])[1..] == ds[1..] + [d];
      TranslateCountSnoc(ds[1..], d);
    }
  }

  /** The post a decision produces, up to the translation text. */
  predicate PostFor(p: Post, d: Decision) {
    match d
    case TranslateIt(r) =>
      p.ShowTranslation? && p.source == r.text && p.language == r.language && p.confidence == r.confidence
    case ConfidenceOnly(r) => p == ShowConfidence(r.confidence)
  }

  /** `str(KeyError(code))`: the missing key in quotes. */
  function MissingKeyReason(code: string): string {
    "'" + code + "'"
  }

  /**
   * Every cached string is an answer the translation service gave, on
   * success, to a call whose key it is stored under.
   */
  ghost predicate SoundCache(cache: map<string, string>, calls: seq<Request>, respond: (nat, Request) -> Reply) {
    forall k :: k in cache ==> SoundEntry(cache, calls, respond, k)
  }

  ghost predicate SoundEntry(cache: map<string, string>, calls: seq<Request>, respond: (nat, Request) -> Reply, k: string)
    requires k in cache
  {
    exists i :: 0 <= i < |calls| && KeyOf(calls[i]) == k && respond(i, calls[i]) == Translated(cache[k])
  }

  /** What `translate_text` returns, with the cache and the call log it leaves behind. */
  datatype Outcome = Outcome(text: string, cache: map<string, string>, calls: seq<Request>)

  /**
   * `translate_text` on values: a source language that is not installed is
   * a KeyError, reported as the sentinel without a call; a cached key is
   * answered from the cache; otherwise the service gets the next call, and
   * only a successful answer is cached.
   */
  function TranslateOutcome(installed: seq<(string, LangInfo)>, targetName: string, respond: (nat, Request) -> Reply,
                       cache: map<string, string>, calls: seq<Request>, text: string, lang: string): Outcome
  {
    var info := Lookup(installed, lang);
    if info.None? then Outcome(ErrorText(MissingKeyReason(lang)), cache, calls)
    else
      var req := Request(text, info.value.googleCode, TargetCode(targetName));
      if KeyOf(req) in cache then Outcome(cache[KeyOf(req)], cache, calls)
      else
        match respond(|calls|, req)
        case Translated(t) => Outcome(t, cache[KeyOf(req) := t], calls + [req])
        case Failed(e) => Outcome(ErrorText(e), cache, calls + [req])
  }

  /**
   * A translation keeps the cache sound, keeps every cached entry, and
   * makes at most one call, appended to the log.
   */
  lemma OutcomeKeepsSound(installed: seq<(string, LangInfo)>, targetName: string, respond: (nat, Request) -> Reply,
                              cache: map<string, string>, calls: seq<Request>, text: string, lang: string)
    requires SoundCache(cache, calls, respond)
    ensures var o := TranslateOutcome(installed, targetName, respond, cache, calls, text, lang);
      && SoundCache(o.cache, o.calls, respond)
      && (forall k :: k in cache ==> k in o.cache && o.cache[k] == cache[k])
      && |calls| <= |o.calls| <= |calls| + 1 && o.calls[..|calls|] == calls
  {
    var o := TranslateOutcome(installed, targetName, respond, cache, calls, text, lang);
    assert o.calls[..|calls|] == calls;
    forall k | k in o.cache
      ensures SoundEntry(o.cache, o.calls, respond, k)
    {
      if k in cache && o.cache[k] == cache[k] {
        var i :| 0 <= i < |calls| && KeyOf(calls[i]) == k && respond(i, calls[i]) == Translated(cache[k]);
        assert o.calls[i] == calls[i];
      } else {
        assert o.calls[|calls|] == Request(text, Lookup(installed, lang).value.googleCode, TargetCode(targetName));
      }
    }
  }

  /**
   * Once a text has been translated successfully, asking again for the
   * same text in the same language is answered from the cache, with the
   * same string and no further call.
   */
  lemma OutcomeMemoises(installed: seq<(string, LangInfo)>, targetName: string, respond: (nat, Request) -> Reply,
                            cache: map<string, string>, calls: seq<Request>, text: string, lang: string)
    requires Lookup(installed, lang).Some?
    requires respond(|calls|, Request(text, Lookup(installed, lang).value.googleCode, TargetCode(targetName))).Translated?
    ensures var o := TranslateOutcome(installed, targetName, respond, cache, calls, text, lang);
      TranslateOutcome(installed, targetName, respond, o.cache, o.calls, text, lang) == o
  {
  }

  /**
   * A failed call returns the sentinel with the service's reason and is
   * not cached, so asking again for the same text makes a fresh call.
   */
  lemma OutcomeRetriesAfterFailure(installed: seq<(string, LangInfo)>, targetName: string, respond: (nat, Request) -> Reply,
                                   cache: map<string, string>, calls: seq<Request>, text: string, lang: string)
    requires Lookup(installed, lang).Some?
    requires CacheKey(text, Lookup(installed, lang).value.googleCode, TargetCode(targetName)) !in cache
    requires respond(|calls|, Request(text, Lookup(installed, lang).value.googleCode, TargetCode(targetName))).Failed?
    ensures var req := Request(text, Lookup(installed, lang).value.googleCode, TargetCode(targetName));
      var o := TranslateOutcome(installed, targetName, respond, cache, calls, text, lang);
      var o2 := TranslateOutcome(installed, targetName, respond, o.cache, o.calls, text, lang);
      && o.text == ErrorText(respond(|calls|, req).reason)
      && o.cache == cache && o.calls == calls + [req]
      && o2.calls == calls + [req, req] && o2.text == Rendered(respond(|calls| + 1, req))
  {
    var info := Lookup(installed, lang).value;
    var req := Request(text, info.googleCode, TargetCode(targetName));
    assert KeyOf(req) !in cache;
    var o := TranslateOutcome(installed, targetName, respond, cache, calls, text, lang);
    assert o == Outcome(ErrorText(respond(|calls|, req).reason), cache, calls + [req]);
    assert |o.calls| == |calls| + 1;
  }

  /**
   * The translation a post shows is what the service answered: its
   * translation, or the sentinel with its failure reason, for some logged
   * call under the post's cache key; or, for a source language that is not
   * installed, the missing-key sentinel.
   */
  ghost predicate Answered(p: Post, installed: seq<(string, LangInfo)>, targetName: string,
                           calls: seq<Request>, respond: (nat, Request) -> Reply)
  {
    p.ShowTranslation? ==>
      match Lookup(installed, p.language)
      case None => p.target == ErrorText(MissingKeyReason(p.language))
      case Some(info) =>
        exists i :: 0 <= i < |calls| && KeyOf(calls[i]) == CacheKey(p.source, info.googleCode, TargetCode(targetName)) &&
          (respond(i, calls[i]) == Translated(p.target) ||
           (respond(i, calls[i]).Failed? && p.target == ErrorText(respond(i, calls[i]).reason)))
  }

  /** An answer stays on record when the call log only grows. */
  lemma AnsweredGrows(p: Post, installed: seq<(string, LangInfo)>, targetName: string,
                      calls: seq<Request>, calls': seq<Request>, respond: (nat, Request) -> Reply)
    requires Answered(p, installed, targetName, calls, respond)
    requires |calls| <= |calls'| && calls'[..|calls|] == calls
    ensures Answered(p, installed, targetName, calls', respond)
  {
    if p.ShowTranslation? && Lookup(installed, p.language).Some? {
      var info := Lookup(installed, p.language).value;
      var i :| 0 <= i < |calls| && KeyOf(calls[i]) == CacheKey(p.source, info.googleCode, TargetCode(targetName)) &&
          (respond(i, calls[i]) == Translated(p.target) ||
           (respond(i, calls[i]).Failed? && p.target == ErrorText(respond(i, calls[i]).reason)));
      assert calls'[i] == calls[i];
    }
  }

  /** The text `translate_text` returns is answered, given a sound cache. */
  lemma OutcomeAnswered(installed: seq<(string, LangInfo)>, targetName: string, respond: (nat, Request) -> Reply,
                        cache: map<string, string>, calls: seq<Request>, text: string, lang: string, confidence: real)
    requires SoundCache(cache, calls, respond)
    ensures var o := TranslateOutcome(installed, targetName, respond, cache, calls, text, lang);
      Answered(ShowTranslation(text, o.text, lang, confidence), installed, targetName, o.calls, respond)
  {
    var o := TranslateOutcome(installed, targetName, respond, cache, calls, text, lang);
    var info := Lookup(installed, lang);
    if info.Some? {
      var req := Request(text, info.value.googleCode, TargetCode(targetName));
      if KeyOf(req) in cache {
        assert SoundEntry(cache, calls, respond, KeyOf(req));
        var i :| 0 <= i < |calls| && KeyOf(calls[i]) == KeyOf(req) && respond(i, calls[i]) == Translated(cache[KeyOf(req)]);
        assert o.calls == calls;
      } else {
        assert o.calls[|calls|] == req;
      }
    }
  }

  /** The state `capture_loop` works on: the last-seen text, cache, call log and posted updates. */
  datatype Session = Session(last: Option<string>, cache: map<string, string>, calls: seq<Request>, posted: seq<Post>)

  /**
   * One cycle of `capture_loop`: a text that is not new changes nothing;
   * a new one is translated and posted with its confidence when the
   * confidence reaches the threshold, and otherwise only the confidence is
   * posted.
   */
  function Step(installed: seq<(string, LangInfo)>, targetName: string, threshold: int, respond: (nat, Request) -> Reply,
                s: Session, result: Option<OcrResult>): Session
  {
    var text := TextOf(result);
    if !IsNew(s.last, text) then s
    else if result.value.confidence >= threshold as real then
      var o := TranslateOutcome(installed, targetName, respond, s.cache, s.calls, text, result.value.language);
      Session(Some(text), o.cache, o.calls,
              s.posted + [ShowTranslation(text, o.text, result.value.language, result.value.confidence)])
    else
      Session(Some(text), s.cache, s.calls, s.posted + [ShowConfidence(result.value.confidence)])
  }

  /** The session after the cycles recognise `results`, in order. */
  function Run(installed: seq<(string, LangInfo)>, targetName: string, threshold: int, respond: (nat, Request) -> Reply,
               s: Session, results: seq<Option<OcrResult>>): Session
    decreases |results|
  {
    if |results| == 0 then s
    else
      var n := |results| - 1;
      Step(installed, targetName, threshold, respond, Run(installed, targetName, threshold, respond, s, results[..n]), results[n])
  }

  /**
   * A capture run from a fresh start posts one update per gate decision,
   * of the decision's kind, in order; it ends on the change detector's
   * last-seen text; it keeps the cache sound; and it calls the service at
   * most once per translation decision, only appending to the log.
   */
  lemma {:induction false} RunFollowsDecisions(installed: seq<(string, LangInfo)>, targetName: string, threshold: int,
                                               respond: (nat, Request) -> Reply,
                                               c0: map<string, string>, base: seq<Request>, results: seq<Option<OcrResult>>)
    requires SoundCache(c0, base, respond)
    ensures var s := Run(installed, targetName, threshold, respond, Session(None, c0, base, []), results);
      var ds := Decisions(None, results, threshold);
      && s.last == LastSeen(None, Texts(results))
      && |s.posted| == |ds| && (forall k :: 0 <= k < |ds| ==> PostFor(s.posted[k], ds[k]))
      && SoundCache(s.cache, s.calls, respond)
      && |base| <= |s.calls| <= |base| + TranslateCount(ds) && s.calls[..|base|] == base
    decreases |results|
  {
    if |results| > 0 {
      var n := |results| - 1;
      var prefix := results[..n];
      var r := results[n];
      assert results == prefix + [r];
      RunFollowsDecisions(installed, targetName, threshold, respond, c0, base, prefix);
      var s := Run(installed, targetName, threshold, respond, Session(None, c0, base, []), prefix);
      var ds := Decisions(None, prefix, threshold);
      DecisionsSnoc(None, prefix, r, threshold);
      LastSeenSnoc(None, prefix, r);
      assert Run(installed, targetName, threshold, respond, Session(None, c0, base, []), results) ==
        Step(installed, targetName, threshold, respond, s, r);
      if IsNew(s.last, TextOf(r)) {
        NewResultFollowsDecision(installed, targetName, threshold, respond, base, s, ds, r);
      } else {
        assert Decisions(None, results, threshold) == ds;
      }
    }
  }

  /**
   * One cycle on a new text keeps a session in step with its decisions:
   * the post it adds is of the new decision's kind, the cache stays sound,
   * and the call log grows by at most one, and only for a translation.
   */
  lemma NewResultFollowsDecision(installed: seq<(string, LangInfo)>, targetName: string, threshold: int,
                                 respond: (nat, Request) -> Reply, base: seq<Request>,
                                 s: Session, ds: seq<Decision>, r: Option<OcrResult>)
    requires IsNew(s.last, TextOf(r))
    requires |s.posted| == |ds| && (forall k :: 0 <= k < |ds| ==> PostFor(s.posted[k], ds[k]))
    requires SoundCache(s.cache, s.calls, respond)
    requires |base| <= |s.calls| <= |base| + TranslateCount(ds) && s.calls[..|base|] == base
    ensures var s' := Step(installed, targetName, threshold, respond, s, r);
      var ds' := ds + [Decide(r.value, threshold)];
      && |s'.posted| == |ds'| && (forall k :: 0 <= k < |ds'| ==> PostFor(s'.posted[k], ds'[k]))
      && SoundCache(s'.cache, s'.calls, respond)
      && |base| <= |s'.calls| <= |base| + TranslateCount(ds') && s'.calls[..|base|] == base
  {
    var s' := Step(installed, targetName, threshold, respond, s, r);
    var d := Decide(r.value, threshold);
    TranslateCountSnoc(ds, d);
    if r.value.confidence >= threshold as real {
      OutcomeKeepsSound(installed, targetName, respond, s.cache, s.calls, TextOf(r), r.value.language);
      var o := TranslateOutcome(installed, targetName, respond, s.cache, s.calls, TextOf(r), r.value.language);
      assert o.calls[..|base|] == s.calls[..|s.calls|][..|base|];
      assert s'.calls == o.calls && d.TranslateIt?;
    } else {
      assert s'.calls == s.calls;
    }
    assert PostFor(s'.posted[|ds|], d);
    assert forall k :: 0 <= k < |ds| ==> s'.posted[k] == s.posted[k];
  }

  /**
   * Every translation a capture run posts is what `translate_text` got
   * from the service for that text (or the missing-language sentinel),
   * and the call it came from is in the run's log.
   */
  lemma {:induction false} RunPostsAnswered(installed: seq<(string, LangInfo)>, targetName: string, threshold: int,
                                            respond: (nat, Request) -> Reply,
                                            c0: map<string, string>, base: seq<Request>, results: seq<Option<OcrResult>>)
    requires SoundCache(c0, base, respond)
    ensures var s := Run(installed, targetName, threshold, respond, Session(None, c0, base, []), results);
      forall k :: 0 <= k < |s.posted| ==> Answered(s.posted[k], installed, targetName, s.calls, respond)
    decreases |results|
  {
    if |results| > 0 {
      var n := |results| - 1;
      var prefix := results[..n];
      var r := results[n];
      RunPostsAnswered(installed, targetName, threshold, respond, c0, base, prefix);
      RunFollowsDecisions(installed, targetName, threshold, respond, c0, base, prefix);
      var s := Run(installed, targetName, threshold, respond, Session(None, c0, base, []), prefix);
      var s' := Step(installed, targetName, threshold, respond, s, r);
      assert Run(installed, targetName, threshold, respond, Session(None, c0, base, []), results) == s';
      var text := TextOf(r);
      if IsNew(s.last, text) && r.value.confidence >= threshold as real {
        OutcomeKeepsSound(installed, targetName, respond, s.cache, s.calls, text, r.value.language);
        OutcomeAnswered(installed, targetName, respond, s.cache, s.calls, text, r.value.language, r.value.confidence);
        forall k | 0 <= k < |s.posted|
          ensures Answered(s'.posted[k], installed, targetName, s'.calls, respond)
        {
          assert s'.posted[k] == s.posted[k];
          AnsweredGrows(s.posted[k], installed, targetName, s.calls, s'.calls, respond);
        }
        assert s'.posted == s.posted + [s'.posted[|s.posted|]];
      } else if IsNew(s.last, text) {
        assert s'.calls == s.calls;
        assert forall k :: 0 <= k < |s.posted| ==> s'.posted[k] == s.posted[k];
        assert !s'.posted[|s.posted|].ShowTranslation?;
      }
    }
  }

  class MultilingualTranslator {
    const installed: seq<(string, LangInfo)>
    const translator: TranslatorClient
    var isCapturing: bool
    var captureRegion: Option<Region>
    var cache: map<string, string>
    var history: seq<HistoryItem>
    var sourceLang: string
    var targetLangName: string
    var ocrMode: string
    var autoDetect: bool
    var threshold: int

    /**
     * The history never exceeds its capacity, and every cached string is
     * an answer the translation service gave, on success, for that key.
     */
    ghost predicate Valid()
      reads this, translator
    {
      |history| <= HISTORY_CAPACITY && CacheSound()
    }

    ghost predicate CacheSound()
      reads this, translator
    {
      SoundCache(cache, translator.calls, translator.respond)
    }

    /** A fresh translator with the default settings. */
    constructor (available: Option<seq<string>>, translator: TranslatorClient)
      ensures Valid()
      ensures installed == InstalledLanguages(available) && this.translator == translator
      ensures !isCapturing && captureRegion.None? && cache == map[] && history == []
      ensures sourceLang == "jpn" && targetLangName == "zh-tw" && ocrMode == "single"
      ensures !autoDetect && threshold == 60
    {
      installed := InstalledLanguages(available);
      this.translator := translator;
      isCapturing := false;
      captureRegion := None;
      cache := map[];
      history := [];
      sourceLang := "jpn";
      targetLangName := "zh-tw";
      ocrMode := "single";
      autoDetect := false;
      threshold := 60;
    }

    /** Mouse release at the end of a region drag. */
    method OnMouseUp(start: Option<Point>, release: Point)
      modifies this`captureRegion
      ensures captureRegion == AfterRelease(old(captureRegion), start, release)
    {
      if start.Some? {
        var region := Select(start.value, release);
        if region.Some? {
          captureRegion := region;
        }
      }
    }

    /** `toggle_capture`: start or stop, but only once a region is selected. */
    method ToggleCapture()
      modifies this`isCapturing
      ensures isCapturing == Toggled(old(isCapturing), captureRegion)
    {
      if captureRegion.None? {
        return;
      }
      isCapturing := !isCapturing;
    }

    /** `quick_switch_language` (F5). */
    method QuickSwitchLanguage()
      modifies this`sourceLang
      ensures sourceLang == NextQuickLanguage(old(sourceLang))
    {
      var i := IndexOf(QUICK_LANGS, sourceLang);
      if i.Some? {
        sourceLang := QUICK_LANGS[(i.value + 1) % |QUICK_LANGS|];
      } else {
        sourceLang := QUICK_LANGS[0];
      }
    }

    /**
     * `multi_language_ocr`: every installed language is tried in order; the
     * result is the earliest of the most confident results that have text,
     * or None when no language produced one.
     */
    method MultiLanguageOcr(scans: map<string, seq<Token>>) returns (best: Option<OcrResult>)
      ensures best == BestOf(Keys(installed), scans)
    {
      var langs := Keys(installed);
      ghost var cands := Candidates(langs, scans);
      best := None;
      var bestConfidence := 0.0;
      for i := 0 to |langs|
        invariant best == Best(cands[..i])
        invariant bestConfidence == BestConfidence(best)
      {
        assert cands[..i + 1] == cands[..i] + [cands[i]];
        BestSnoc(cands[..i], cands[i]);
        var lang := langs[i];
        if lang in scans {
          var r := Aggregate(scans[lang], lang);
          if r.confidence > bestConfidence {
            if r.text != "" {
              bestConfidence := r.confidence;
              best := Some(r);
            }
          }
        }
      }
      assert cands[..|langs|] == cands;
    }

    /** One cycle's recognition: the screenshot failed, or OCR in the current mode. */
    method RecognizeFrame(frame: Frame, multi: bool) returns (result: Option<OcrResult>)
      ensures result == Recognize(frame, multi, sourceLang, Keys(installed))
    {
      match frame
      case CaptureFailed =>
        result := None;
      case Captured(scans) =>
        if multi {
          result := MultiLanguageOcr(scans);
        } else {
          result := SingleLanguage(sourceLang, scans);
        }
    }

    /**
     * `translate_text`, as `TranslateOutcome` describes it; the cache stays sound.
     */
    method TranslateText(text: string, sourceLang: string) returns (r: string)
      requires Valid()
      modifies this`cache, translator
      ensures Valid()
      ensures TranslateOutcome(installed, targetLangName, translator.respond, old(cache), old(translator.calls), text, sourceLang)
           == Outcome(r, cache, translator.calls)
    {
      OutcomeKeepsSound(installed, targetLangName, translator.respond, cache, translator.calls, text, sourceLang);
      var info := Lookup(installed, sourceLang);
      if info.None? {
        return ErrorText(MissingKeyReason(sourceLang));
      }
      var req := Request(text, info.value.googleCode, TargetCode(targetLangName));
      var key := CacheKey(text, req.src, req.dst);
      if key in cache {
        return cache[key];
      }
      var reply := translator.Translate(req);
      match reply
      case Translated(t) =>
        cache := cache[key := t];
        r := t;
      case Failed(e) =>
        r := ErrorText(e);
    }

    /**
     * `update_translation`: one history entry per displayed translation,
     * evicting the oldest at capacity. The language-name lookup raises for
     * a language that is not installed, and then nothing is recorded.
     */
    method UpdateTranslation(source: string, target: string, language: string, confidence: real, now: Clock)
      requires Valid()
      modifies this`history
      ensures Valid()
      ensures Lookup(installed, language).None? ==> history == old(history)
      ensures Lookup(installed, language).Some? ==>
        history == HistoryLog.Append(old(history),
                     HistoryItem(now.time, now.date, language, Lookup(installed, language).value.name,
                                 source, target, confidence), HISTORY_CAPACITY)
    {
      var info := Lookup(installed, language);
      if info.None? {
        return;
      }
      var item := HistoryItem(now.time, now.date, language, info.value.name, source, target, confidence);
      history := HistoryLog.Append(history, item, HISTORY_CAPACITY);
    }

    /**
     * `filter_history`: the entries of one language, or all of them for the
     * "all" choice, in history order.
     */
    function FilterHistory(filterLang: string): (r: seq<HistoryItem>)
      reads this
      ensures filterLang == ALL_LANGUAGES ==> r == history
      ensures forall i :: 0 <= i < |r| ==> r[i] in history && (filterLang == ALL_LANGUAGES || r[i].languageName == filterLang)
      ensures forall i :: 0 <= i < |history| && history[i].languageName == filterLang ==> history[i] in r
      ensures Subsequence(r, history)
      ensures forall item :: multiset(r)[item] ==
                (if filterLang == ALL_LANGUAGES || item.languageName == filterLang then multiset(history)[item] else 0)
    {
      var keep := (item: HistoryItem) => filterLang == ALL_LANGUAGES || item.languageName == filterLang;
      FilterCounts(history, keep);
      FilterIsSubsequence(history, keep);
      if filterLang == ALL_LANGUAGES then FilterKeepsAll(history, keep); Filter(history, keep)
      else Filter(history, keep)
    }

    /**
     * One cycle's gate, as `Step` describes it: a new non-empty text is
     * remembered and either translated and posted or, below the threshold,
     * only its confidence is posted.
     */
    method GateCycle(last: Option<string>, result: Option<OcrResult>, posted: seq<Post>)
      returns (next: Option<string>, posted': seq<Post>)
      requires Valid()
      modifies this`cache, translator
      ensures Valid()
      ensures Step(installed, targetLangName, threshold, translator.respond,
                   Session(last, old(cache), old(translator.calls), posted), result)
           == Session(next, cache, translator.calls, posted')
    {
      next, posted' := last, posted;
      if result.Some? && result.value.text != "" {
        if last != Some(result.value.text) {
          next := Some(result.value.text);
          if result.value.confidence >= threshold as real {
            var translation := TranslateText(result.value.text, result.value.language);
            posted' := posted + [ShowTranslation(result.value.text, translation, result.value.language,
                                                 result.value.confidence)];
          } else {
            posted' := posted + [ShowConfidence(result.value.confidence)];
          }
        }
      }
    }

    /**
     * `capture_loop` over the cycles that run while capturing: the loop
     * ends in the state `Run` gives for the recognised results, so (by
     * `RunFollowsDecisions`) it posts one update per gate decision, of the
     * decision's kind, and calls the service at most once per translation
     * decision.
     */
    method CaptureLoop(frames: seq<Frame>) returns (posted: seq<Post>)
      requires Valid() && isCapturing
      modifies this`cache, translator
      ensures Valid()
      ensures var results := Results(frames, autoDetect || ocrMode == "multi", sourceLang, Keys(installed));
        Run(installed, targetLangName, threshold, translator.respond, Session(None, old(cache), old(translator.calls), []), results)
        == Session(LastSeen(None, Texts(results)), cache, translator.calls, posted)
      ensures var ds := Decisions(None, Results(frames, autoDetect || ocrMode == "multi", sourceLang, Keys(installed)), threshold);
        && |posted| == |ds|
        && (forall k :: 0 <= k < |ds| ==> PostFor(posted[k], ds[k]))
        && |translator.calls| <= |old(translator.calls)| + TranslateCount(ds)
      ensures forall k :: 0 <= k < |posted| ==> Answered(posted[k], installed, targetLangName, translator.calls, translator.respond)
    {
      var multi := autoDetect || ocrMode == "multi";
      ghost var results := Results(frames, multi, sourceLang, Keys(installed));
      ghost var start := Session(None, cache, translator.calls, []);
      var last: Option<string> := None;
      posted := [];
      for i := 0 to |frames|
        invariant Valid()
        invariant Run(installed, targetLangName, threshold, translator.respond, start, results[..i])
               == Session(last, cache, translator.calls, posted)
      {
        var result := RecognizeFrame(frames[i], multi);
        assert result == results[i];
        assert results[..i + 1][..i] == results[..i];
        last, posted := GateCycle(last, result, posted);
      }
      assert results[..|frames|] == results;
      RunFollowsDecisions(installed, targetLangName, threshold, translator.respond, start.cache, start.calls, results);
      RunPostsAnswered(installed, targetLangName, threshold, translator.respond, start.cache, start.calls, results);
    }

  }
}
