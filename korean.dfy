/**
 * The Korean-only translator: a region of the screen is read with Tesseract
 * in Korean every half second, each new non-empty text is translated from
 * Korean to Traditional Chinese without any cache, and every translation is
 * appended to an unbounded history that can be cleared or saved.
 */
module Korean {
  import opened Wrappers
  import opened Text
  import opened Capture
  import opened ChangeDetector
  import opened Translation


  /** One `{timestamp, korean, chinese}` record of `translation_history`. */
  datatype HistoryItem = HistoryItem(timestamp: string, korean: string, chinese: string)

  /** One cycle's screenshot: it raised, or Tesseract read `ocr` from it. */
  datatype Frame = CaptureFailed | Captured(ocr: string)

  /** An `update_display(screenshot, korean, chinese)` callback posted by the capture loop. */
  datatype Post = Post(korean: string, chinese: string)

  /**
   * The text a cycle hands to the gate: Tesseract's output stripped. A
   * failed screenshot is caught and skips the gate, which is what an empty
   * text does.
   */
  function RecognizedText(frame: Frame): string {
    match frame
    case CaptureFailed => ""
    case Captured(ocr) => Strip(ocr)
  }

  function Texts(frames: seq<Frame>): (r: seq<string>)
    ensures |r| == |frames| && forall i :: 0 <= i < |r| ==> r[i] == RecognizedText(frames[i])
  {
    seq(|frames|, i requires 0 <= i < |frames| => RecognizedText(frames[i]))
  }

  /**
   * Every text the gate sees has no surrounding whitespace, and a failed
   * screenshot offers the empty text.
   */
  lemma TextsStripped(frames: seq<Frame>)
    ensures forall i :: 0 <= i < |frames| ==> Strip(Texts(frames)[i]) == Texts(frames)[i]
    ensures forall i :: 0 <= i < |frames| && frames[i].CaptureFailed? ==> Texts(frames)[i] == ""
  {
    forall i | 0 <= i < |frames|
      ensures Strip(Texts(frames)[i]) == Texts(frames)[i]
    {
      if frames[i].Captured? {
        StripIdempotent(frames[i].ocr);
      }
    }
  }


  /**
   * The callbacks a run posts for the accepted `texts` when the run's first
   * call is the service's call number `n0`: each text with the answer to
   * its own call.
   */
  function Posts(texts: seq<string>, n0: nat, respond: (nat, Request) -> Reply): (r: seq<Post>)
    ensures |r| == |texts|
    decreases |texts|
  {
    if |texts| == 0 then []
    else
      var n := |texts| - 1;
      Posts(texts[..n], n0, respond) + [Post(texts[n], Rendered(respond(n0 + n, KoreanRequest(texts[n]))))]
  }


  lemma PostsSnoc(texts: seq<string>, text: string, n0: nat, respond: (nat, Request) -> Reply)
    ensures Posts(texts + [text], n0, respond) ==
            Posts(texts, n0, respond) + [Post(text, Rendered(respond(n0 + |texts|, KoreanRequest(text))))]
  {
    assert (texts + [text])[..|texts|] == texts;
  }


  /** The k-th post pairs the k-th text with the answer to call `n0 + k`. */
  lemma {:induction false} PostsAt(texts: seq<string>, n0: nat, respond: (nat, Request) -> Reply)
    ensures forall k :: 0 <= k < |texts| ==>
      Posts(texts, n0, respond)[k] == Post(texts[k], Rendered(respond(n0 + k, KoreanRequest(texts[k]))))
    decreases |texts|
  {
    if |texts| > 0 {
      PostsAt(texts[..|texts| - 1], n0, respond);
    }
  }

  /**
   * `last_text` after the cycles recognise `texts`: the last accepted text,
   * or the initial `""` when none was accepted.
   */
  function LastText(texts: seq<string>): string {
    match LastSeen(None, texts)
    case None => ""
    case Some(t) => t
  }

  /**
   * The source's test `korean_text and korean_text != last_text` is the
   * change detector's: starting from `""` behaves exactly like starting
   * from nothing accepted.
   */
  lemma GateIsChangeDetector(texts: seq<string>, text: string)
    ensures (text != "" && text != LastText(texts)) == IsNew(LastSeen(None, texts), text)
  {
    LastSeenNeverEmpty(texts);
  }

  /** The state `capture_loop` works on: `last_text`, the call log and the posted callbacks. */
  datatype Session = Session(lastText: string, calls: seq<Request>, posted: seq<Post>)

  /**
   * One cycle: a non-empty text that differs from `last_text` becomes the
   * last text, is translated by the next call and posted with the answer;
   * any other text changes nothing.
   */
  function Step(s: Session, text: string, respond: (nat, Request) -> Reply): Session {
    if text != "" && text != s.lastText then
      Session(text, s.calls + [KoreanRequest(text)], s.posted + [Post(text, Rendered(respond(|s.calls|, KoreanRequest(text))))])
    else s
  }

  /** The session after the cycles recognise `texts`, in order. */
  function Run(s: Session, texts: seq<string>, respond: (nat, Request) -> Reply): Session
    decreases |texts|
  {
    if |texts| == 0 then s
    else Step(Run(s, texts[..|texts| - 1], respond), texts[|texts| - 1], respond)
  }

  /**
   * A run from the initial `""` makes exactly one call per text the change
   * detector accepts, in order, and posts each accepted text with the
   * answer to its own call.
   */
  lemma {:induction false} RunFollowsChangeDetector(base: seq<Request>, texts: seq<string>, respond: (nat, Request) -> Reply)
    ensures var a := Accepted(None, texts);
      Run(Session("", base, []), texts, respond) ==
      Session(LastText(texts), base + KoreanRequests(a), Posts(a, |base|, respond))
    decreases |texts|
  {
    if |texts| > 0 {
      var n := |texts| - 1;
      var a := Accepted(None, texts[..n]);
      RunFollowsChangeDetector(base, texts[..n], respond);
      AcceptedStep(texts, n);
      GateIsChangeDetector(texts[..n], texts[n]);
      KoreanRequestsConcat(a, [texts[n]]);
      PostsSnoc(a, texts[n], |base|, respond);
      assert texts[..n + 1] == texts;
      var s := Run(Session("", base, []), texts[..n], respond);
      if texts[n] != "" && texts[n] != LastText(texts[..n]) {
        assert Accepted(None, texts) == a + [texts[n]];
        assert |s.calls| == |base| + |a|;
        assert base + KoreanRequests(a + [texts[n]]) == base + KoreanRequests(a) + [KoreanRequest(texts[n])];
        assert LastSeen(None, texts) == Some(texts[n]);
      } else {
        assert LastSeen(None, texts) == LastSeen(None, texts[..n]);
        assert Accepted(None, texts) == a;
      }
    }
  }

  /** The posted translations are of the accepted texts, in order, and no two consecutive ones repeat a text. */
  lemma PostsFollowChangeDetector(texts: seq<string>, n0: nat, respond: (nat, Request) -> Reply)
    ensures var a := Accepted(None, texts);
      var p := Posts(a, n0, respond);
      && (forall k :: 0 <= k < |p| ==> p[k].korean == a[k] && p[k].korean != "")
      && (forall k :: 0 <= k < |p| - 1 ==> p[k].korean != p[k + 1].korean)
  {
    AcceptedNeverRepeats(None, texts);
    PostsAt(Accepted(None, texts), n0, respond);
  }

  class KoreanTranslator {
    const translator: TranslatorClient
    var isCapturing: bool
    var captureRegion: Option<Region>
    var history: seq<HistoryItem>

    /** A translator that is not capturing, has no region and an empty history. */
    constructor (translator: TranslatorClient)
      ensures this.translator == translator
      ensures !isCapturing && captureRegion.None? && history == []
    {
      this.translator := translator;
      isCapturing := false;
      captureRegion := None;
      history := [];
    }

    /**
     * `on_mouse_up`: the drag is normalised and stored only when both
     * extents exceed 10 pixels.
     */
    method OnMouseUp(start: Option<Point>, release: Point)
      modifies this`captureRegion
      ensures captureRegion == AfterRelease(old(captureRegion), start, release)
    {
      if start.Some? {
        var region := Select(start.value, release);
        if region.Some? {
          captureRegion := region;
        }
      }
    }

    /** `toggle_capture`: start or stop, but only once a region is selected. */
    method ToggleCapture()
      modifies this`isCapturing
      ensures isCapturing == Toggled(old(isCapturing), captureRegion)
    {
      if captureRegion.None? {
        return;
      }
      isCapturing := !isCapturing;
    }

    /** `translate_text`: one call, Korean to Traditional Chinese; the sentinel on failure. */
    method TranslateText(text: string) returns (r: string)
      modifies translator
      ensures translator.calls == old(translator.calls) + [KoreanRequest(text)]
      ensures r == Rendered(old(translator.Answer(KoreanRequest(text))))
    {
      var reply := translator.Translate(KoreanRequest(text));
      r := Rendered(reply);
    }

    /** One cycle's gate, as `Step` describes it. */
    method GateCycle(lastText: string, text: string, posted: seq<Post>) returns (lastText': string, posted': seq<Post>)
      modifies translator
      ensures Step(Session(lastText, old(translator.calls), posted), text, translator.respond)
           == Session(lastText', translator.calls, posted')
    {
      lastText', posted' := lastText, posted;
      if text != "" && text != lastText {
        lastText' := text;
        var chineseText := TranslateText(text);
        posted' := posted + [Post(text, chineseText)];
      }
    }

    /**
     * `capture_loop` over the cycles that run while capturing: every text
     * the change detector accepts is translated by exactly one call, in
     * order, and posted with the answer to that call; no other call is
     * made.
     */
    method CaptureLoop(frames: seq<Frame>) returns (posted: seq<Post>)
      requires isCapturing
      modifies translator
      ensures translator.calls == old(translator.calls) + KoreanRequests(Accepted(None, Texts(frames)))
      ensures posted == Posts(Accepted(None, Texts(frames)), |old(translator.calls)|, translator.respond)
    {
      ghost var texts := Texts(frames);
      ghost var start := Session("", translator.calls, []);
      var lastText := "";
      posted := [];
      for i := 0 to |frames|
        invariant Run(start, texts[..i], translator.respond) == Session(lastText, translator.calls, posted)
      {
        var koreanText := RecognizedText(frames[i]);
        assert koreanText == texts[i];
        assert texts[..i + 1][..i] == texts[..i];
        lastText, posted := GateCycle(lastText, koreanText, posted);
      }
      assert texts[..|frames|] == texts;
      RunFollowsChangeDetector(start.calls, texts, translator.respond);
    }

    /** `update_display`: one record is appended; the history has no bound. */
    method UpdateDisplay(korean: string, chinese: string, timestamp: string)
      modifies this`history
      ensures history == old(history) + [HistoryItem(timestamp, korean, chinese)]
    {
      history := history + [HistoryItem(timestamp, korean, chinese)];
    }

    /** `clear_history`: the history is emptied. */
    method ClearHistory()
      modifies this`history
      ensures history == []
    {
      history := [];
    }

    /**
     * `save_history`: nothing is written when the history is empty;
     * otherwise every record, in order, goes to the file named after the
     * moment of saving.
     */
    method SaveHistory(stamp: string) returns (saved: Option<(string, seq<HistoryItem>)>)
      ensures saved.None? <==> history == []
      ensures saved.Some? ==> saved.value == ("translation_history_" + stamp + ".json", history)
    {
      if history == [] {
        return None;
      }
      saved := Some(("translation_history_" + stamp + ".json", history));
    }
  }
}
