/**
 * Turning the recognition engine's word tokens into one result, and picking
 * the best result across languages (the multilingual translator's
 * `single_language_ocr` and `multi_language_ocr`).
 */
module Recognition {
  import opened Wrappers
  import opened Text
  import Collections

  /** One word of `pytesseract.image_to_data`: its text and `int(conf)`. */
  datatype Token = Token(text: string, conf: int)

  /** The dict `{'text', 'language', 'confidence'}` a recognition returns. */
  datatype OcrResult = OcrResult(text: string, language: string, confidence: real)

  /** The tokens that count: those whose confidence is positive, in order. */
  function Confident(tokens: seq<Token>): (r: seq<Token>)
    ensures forall i :: 0 <= i < |r| ==> r[i].conf > 0
    ensures forall i :: 0 <= i < |tokens| && tokens[i].conf > 0 ==> tokens[i] in r
    ensures Collections.Subsequence(r, tokens)
    ensures forall t :: multiset(r)[t] == if t.conf > 0 then multiset(tokens)[t] else 0
  {
    Collections.FilterCounts(tokens, (t: Token) => t.conf > 0);
    Collections.FilterIsSubsequence(tokens, (t: Token) => t.conf > 0);
    Collections.Filter(tokens, (t: Token) => t.conf > 0)
  }

  function Sum(xs: seq<int>): int {
    if |xs| == 0 then 0 else xs[0] + Sum(xs[1..])
  }

  /** `sum(xs) / len(xs) if xs else 0`, in exact arithmetic. */
  function Mean(xs: seq<int>): (r: real)
    ensures |xs| == 0 ==> r == 0.0
  {
    if |xs| == 0 then 0.0 else Sum(xs) as real / |xs| as real
  }

  /** Sums of values within `[lo, hi]` lie within `[n * lo, n * hi]`. */
  lemma {:induction false} SumBounds(xs: seq<int>, lo: int, hi: int)
    requires forall i :: 0 <= i < |xs| ==> lo <= xs[i] <= hi
    ensures |xs| * lo <= Sum(xs) <= |xs| * hi
  {
    if |xs| > 0 {
      SumBounds(xs[1..], lo, hi);
      assert |xs| * lo == (|xs| - 1) * lo + lo;
      assert |xs| * hi == (|xs| - 1) * hi + hi;
    }
  }

  /** The mean of a non-empty sequence of values within `[lo, hi]` is within `[lo, hi]`. */
  lemma MeanBounds(xs: seq<int>, lo: int, hi: int)
    requires |xs| > 0
    requires forall i :: 0 <= i < |xs| ==> lo <= xs[i] <= hi
    ensures lo as real <= Mean(xs) <= hi as real
  {
    SumBounds(xs, lo, hi);
    QuotientBounds(Sum(xs), |xs|, lo, hi);
  }

  /** A total between `n * lo` and `n * hi`, divided by `n`, lies between `lo` and `hi`. */
  lemma QuotientBounds(s: int, n: int, lo: int, hi: int)
    requires n > 0 && n * lo <= s <= n * hi
    ensures lo as real <= s as real / n as real <= hi as real
  {
    var q := s as real / n as real;
    assert q * n as real == s as real;
    assert q - lo as real == (s - n * lo) as real / n as real;
    assert hi as real - q == (n * hi - s) as real / n as real;
  }

  function Confidences(tokens: seq<Token>): (r: seq<int>)
    ensures |r| == |tokens| && forall i :: 0 <= i < |r| ==> r[i] == tokens[i].conf
  {
    seq(|tokens|, i requires 0 <= i < |tokens| => tokens[i].conf)
  }

  function Words(tokens: seq<Token>): (r: seq<string>)
    ensures |r| == |tokens| && forall i :: 0 <= i < |r| ==> r[i] == tokens[i].text
  {
    seq(|tokens|, i requires 0 <= i < |tokens| => tokens[i].text)
  }

  /**
   * One language's result: the confident tokens' words space-joined and
   * stripped, and the mean of their confidences (0 when there are none).
   */
  function Aggregate(tokens: seq<Token>, lang: string): (r: OcrResult)
    ensures r.language == lang
    ensures r.confidence > 0.0 <==> exists i :: 0 <= i < |tokens| && tokens[i].conf > 0
    ensures r.confidence <= 0.0 ==> r.text == ""
    ensures r.text == Strip(JoinWords(Words(Confident(tokens))))
  {
    var kept := Confident(tokens);
    MeanOfPositives(Confidences(kept));
    OcrResult(Strip(JoinWords(Words(kept))), lang, Mean(Confidences(kept)))
  }

  /**
   * The aggregated confidence is the mean of the confident tokens'
   * confidences: their sum divided by their number, and 0 when none is
   * confident.
   */
  lemma AggregateIsMean(tokens: seq<Token>, lang: string)
    ensures var kept := Confident(tokens);
      Aggregate(tokens, lang).confidence ==
        if |kept| == 0 then 0.0 else Sum(Confidences(kept)) as real / |kept| as real
  {
    var kept := Confident(tokens);
    assert Aggregate(tokens, lang).confidence == Mean(Confidences(kept));
  }

  /** The mean of positive values is positive exactly when there is at least one. */
  lemma MeanOfPositives(xs: seq<int>)
    requires forall i :: 0 <= i < |xs| ==> xs[i] > 0
    ensures Mean(xs) > 0.0 <==> |xs| > 0
  {
    if |xs| > 0 {
      SumOfPositives(xs);
      assert Mean(xs) * |xs| as real == Sum(xs) as real;
    }
  }

  lemma {:induction false} SumOfPositives(xs: seq<int>)
    requires forall i :: 0 <= i < |xs| ==> xs[i] > 0
    ensures Sum(xs) >= |xs|
  {
    if |xs| > 0 {
      SumOfPositives(xs[1..]);
    }
  }

  /** Engine confidences lie in 0..100, so the averaged confidence does too. */
  lemma AggregateConfidenceInRange(tokens: seq<Token>, lang: string)
    requires forall i :: 0 <= i < |tokens| ==> tokens[i].conf <= 100
    ensures 0.0 <= Aggregate(tokens, lang).confidence <= 100.0
  {
    var kept := Confident(tokens);
    if |kept| > 0 {
      MeanBounds(Confidences(kept), 0, 100);
    }
  }

  /**
   * `single_language_ocr`: the engine is asked for `lang` only; a call that
   * raises (no entry in `scans`) yields `None`.
   */
  function SingleLanguage(lang: string, scans: map<string, seq<Token>>): (r: Option<OcrResult>)
    ensures r.None? <==> lang !in scans
    ensures r.Some? ==> r.value == Aggregate(scans[lang], lang)
  {
    if lang in scans then Some(Aggregate(scans[lang], lang)) else None
  }

  /** The confidence to beat: `best_confidence`, which starts at 0. */
  function BestConfidence(best: Option<OcrResult>): real {
    if best.None? then 0.0 else best.value.confidence
  }

  /** A language's result replaces the current best: strictly more confident, non-empty text. */
  predicate Improves(r: OcrResult, best: Option<OcrResult>) {
    r.confidence > BestConfidence(best) && r.text != ""
  }

  /** Each language's outcome, in scanning order. */
  function Candidates(langs: seq<string>, scans: map<string, seq<Token>>): (r: seq<Option<OcrResult>>)
    ensures |r| == |langs| && forall i :: 0 <= i < |r| ==> r[i] == SingleLanguage(langs[i], scans)
  {
    seq(|langs|, i requires 0 <= i < |langs| => SingleLanguage(langs[i], scans))
  }

  /**
   * The best result after the candidates are examined in order, as the loop
   * of `multi_language_ocr` updates `best_result`.
   */
  function Best(cands: seq<Option<OcrResult>>): Option<OcrResult>
    decreases |cands|
  {
    if |cands| == 0 then None
    else
      var prev := Best(cands[..|cands| - 1]);
      var c := cands[|cands| - 1];
      if c.Some? && Improves(c.value, prev) then c else prev
  }

  /** One more candidate: it becomes the best exactly when it improves on the best so far. */
  lemma BestSnoc(cands: seq<Option<OcrResult>>, c: Option<OcrResult>)
    ensures Best(cands + [c]) == if c.Some? && Improves(c.value, Best(cands)) then c else Best(cands)
  {
    assert (cands + [c])[..|cands|] == cands;
  }

  /** `multi_language_ocr` over the languages in `langs`. */
  function BestOf(langs: seq<string>, scans: map<string, seq<Token>>): Option<OcrResult> {
    Best(Candidates(langs, scans))
  }

  /** A candidate that can be selected: the call ran, found text, and is confident. */
  predicate Qualifies(c: Option<OcrResult>) {
    c.Some? && c.value.text != "" && c.value.confidence > 0.0
  }

  /** Candidate `i` is the earliest of the most confident qualifying candidates. */
  ghost predicate EarliestBest(cands: seq<Option<OcrResult>>, i: int) {
    && 0 <= i < |cands| && Qualifies(cands[i])
    && (forall j :: 0 <= j < |cands| && Qualifies(cands[j]) ==>
          cands[j].value.confidence <= cands[i].value.confidence)
    && (forall j :: 0 <= j < i && Qualifies(cands[j]) ==>
          cands[j].value.confidence < cands[i].value.confidence)
  }

  /**
   * The selection is `None` exactly when no candidate qualifies, and
   * otherwise the earliest candidate with the greatest confidence among
   * those that qualify.
   */
  lemma {:induction false} BestIsEarliestMaximum(cands: seq<Option<OcrResult>>)
    ensures Best(cands).None? <==> forall i :: 0 <= i < |cands| ==> !Qualifies(cands[i])
    ensures Best(cands).Some? ==> exists i :: EarliestBest(cands, i) && Best(cands) == cands[i]
    decreases |cands|
  {
    if |cands| > 0 {
      var n := |cands| - 1;
      var init := cands[..n];
      BestIsEarliestMaximum(init);
      assert forall j :: 0 <= j < n ==> cands[j] == init[j];
      var prev := Best(init);
      var c := cands[n];
      if c.Some? && Improves(c.value, prev) {
        if prev.Some? {
          var i :| EarliestBest(init, i) && prev == init[i];
          assert forall j :: 0 <= j < n && Qualifies(cands[j]) ==>
            cands[j].value.confidence <= prev.value.confidence;
        }
        NewcomerIsEarliestBest(cands);
      } else if prev.Some? {
        var i :| EarliestBest(init, i) && prev == init[i];
        IncumbentStaysEarliestBest(cands, i);
      }
    }
  }

  /** A qualifying last candidate above every earlier qualifying one is the earliest best. */
  lemma NewcomerIsEarliestBest(cands: seq<Option<OcrResult>>)
    requires |cands| > 0 && Qualifies(cands[|cands| - 1])
    requires forall j :: 0 <= j < |cands| - 1 && Qualifies(cands[j]) ==>
      cands[j].value.confidence < cands[|cands| - 1].value.confidence
    ensures EarliestBest(cands, |cands| - 1)
  {
  }

  /** The earliest best so far stays so when the last candidate does not beat it. */
  lemma IncumbentStaysEarliestBest(cands: seq<Option<OcrResult>>, i: int)
    requires |cands| > 0 && EarliestBest(cands[..|cands| - 1], i)
    requires Qualifies(cands[|cands| - 1]) ==> cands[|cands| - 1].value.confidence <= cands[i].value.confidence
    ensures EarliestBest(cands, i)
  {
    assert forall j :: 0 <= j < |cands| - 1 ==> cands[j] == cands[..|cands| - 1][j];
  }

  /**
   * Candidates with nothing, "안녕" at 72 and "안?" at 40: the selection
   * takes the 72 result.
   */
  lemma SelectsMostConfident()
    ensures Best([Some(OcrResult("", "eng", 0.0)), Some(OcrResult("안녕", "kor", 72.0)),
                  Some(OcrResult("안?", "jpn", 40.0))])
            == Some(OcrResult("안녕", "kor", 72.0))
  {
    var cands := [Some(OcrResult("", "eng", 0.0)), Some(OcrResult("안녕", "kor", 72.0)),
                  Some(OcrResult("안?", "jpn", 40.0))];
    assert cands[..2][..1] == cands[..1];
    assert cands[..1][..0] == [];
    assert Best(cands[..1]) == None;
    assert Best(cands[..2]) == cands[1];
  }
}
