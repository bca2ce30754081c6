/**
 * The enhanced Korean translator (Pro v2.0): a Tesseract or EasyOCR read of
 * the region, a cache keyed by the recognised text alone that keeps
 * whatever translation came back (error sentinels included), a movable
 * overlay window, and a 100-entry history that can be searched, imported
 * and copied from.
 */
module Enhanced {
  import opened Wrappers
  import opened Collections
  import opened Text
  import opened Capture
  import opened ChangeDetector
  import opened Translation
  import HistoryLog

  /** `deque(maxlen=100)`. */
  const HISTORY_CAPACITY: nat := 100


  /**
   * The overlay window: created on first use, then hidden and shown again
   * (`withdraw`/`deiconify`). `visible` is whether the window is on screen.
   */
  class OverlayWindow {
    var hasWindow: bool
    var isShowing: bool
    var visible: bool
    var text: string

    /** The flag agrees with what is on screen. */
    predicate Consistent()
      reads this
    {
      hasWindow ==> visible == isShowing
    }

    constructor ()
      ensures !hasWindow && !isShowing && !visible && text == ""
      ensures Consistent()
    {
      hasWindow, isShowing, visible, text := false, false, false, "";
    }

    /** A new top-level window, which is on screen as soon as it exists. */
    method CreateOverlay()
      modifies this
      ensures hasWindow && visible && text == "" && isShowing == old(isShowing)
    {
      hasWindow, visible, text := true, true, "";
    }

    /**
     * `toggle`: the first call creates the window and marks it shown; every
     * later call hides a shown window or shows a hidden one.
     */
    method Toggle()
      modifies this
      ensures !old(hasWindow) ==> hasWindow && isShowing && visible && text == ""
      ensures old(hasWindow) ==> hasWindow && isShowing == !old(isShowing) && text == old(text)
      ensures Consistent()
    {
      if !hasWindow {
        CreateOverlay();
        isShowing := true;
      } else {
        if isShowing {
          visible := false;
        } else {
          visible := true;
        }
        isShowing := !isShowing;
      }
    }

    /** `update_text`: creates the window if needed, then shows `t` in it. */
    method UpdateText(t: string)
      modifies this
      ensures hasWindow && text == t && isShowing == old(isShowing)
      ensures old(hasWindow) ==> visible == old(visible)
      ensures !old(hasWindow) ==> visible
    {
      if !hasWindow {
        CreateOverlay();
      }
      text := t;
    }
  }

  /** One history record `{timestamp, date, korean, chinese}`. */
  datatype HistoryItem = HistoryItem(timestamp: string, date: string, korean: string, chinese: string)

  /** `datetime.now()` read as `%H:%M:%S` and `%Y-%m-%d`. */
  datatype Clock = Clock(time: string, date: string)

  /**
   * One capture cycle: the screenshot failed, or the Tesseract output and
   * the EasyOCR fragments the engines would give for it.
   */
  datatype Frame = CaptureFailed | Captured(tesseract: string, fragments: seq<string>)

  /** An `update_translation(korean, chinese)` callback posted by the capture loop. */
  datatype Post = Post(korean: string, chinese: string)

  /**
   * The text a cycle recognises: Tesseract output stripped, EasyOCR
   * fragments space-joined (when the reader exists), or nothing. A failed
   * screenshot skips the gate, which is what an empty text does.
   */
  function RecognizedText(frame: Frame, engine: string, readerReady: bool): string {
    match frame
    case CaptureFailed => ""
    case Captured(tesseract, fragments) =>
      if engine == "tesseract" then Strip(tesseract)
      else if engine == "easyocr" && readerReady then JoinWords(fragments)
      else ""
  }

  function Texts(frames: seq<Frame>, engine: string, readerReady: bool): (r: seq<string>)
    ensures |r| == |frames| && forall i :: 0 <= i < |r| ==> r[i] == RecognizedText(frames[i], engine, readerReady)
  {
    seq(|frames|, i requires 0 <= i < |frames| => RecognizedText(frames[i], engine, readerReady))
  }

  /**
   * With Tesseract every text the gate sees has no surrounding whitespace;
   * with EasyOCR chosen but no reader loaded every text is empty, so
   * nothing is ever translated.
   */
  lemma TextsByEngine(frames: seq<Frame>, engine: string, readerReady: bool)
    ensures engine == "tesseract" ==>
      forall i :: 0 <= i < |frames| ==> Strip(Texts(frames, engine, readerReady)[i]) == Texts(frames, engine, readerReady)[i]
    ensures engine != "tesseract" && !(engine == "easyocr" && readerReady) ==>
      forall i :: 0 <= i < |frames| ==> Texts(frames, engine, readerReady)[i] == ""
  {
    forall i | 0 <= i < |frames|
      ensures engine == "tesseract" ==> Strip(Texts(frames, engine, readerReady)[i]) == Texts(frames, engine, readerReady)[i]
    {
      if frames[i].Captured? {
        StripIdempotent(frames[i].tesseract);
      }
    }
  }


  /**
   * The texts of `texts` that miss a cache whose keys are `known`, in the
   * order they are first met; a text met once is cached from then on.
   */
  function Misses(known: set<string>, texts: seq<string>): seq<string>
    decreases |texts|
  {
    if |texts| == 0 then []
    else
      var init := texts[..|texts| - 1];
      var t := texts[|texts| - 1];
      Misses(known, init) + (if t in known || t in init then [] else [t])
  }

  /**
   * Each text is sent to the translation service at most once, and only if
   * it was not cached to begin with.
   */
  lemma {:induction false} MissesTranslatedOnce(known: set<string>, texts: seq<string>)
    ensures var m := Misses(known, texts);
      && (forall i :: 0 <= i < |m| ==> m[i] !in known && m[i] in texts)
      && (forall i, j :: 0 <= i < j < |m| ==> m[i] != m[j])
      && (forall t :: t in texts && t !in known ==> t in m)
    decreases |texts|
  {
    if |texts| > 0 {
      var init := texts[..|texts| - 1];
      var t := texts[|texts| - 1];
      MissesTranslatedOnce(known, init);
      assert texts == init + [t];
    }
  }

  lemma MissesSnoc(known: set<string>, texts: seq<string>, t: string)
    ensures Misses(known, texts + [t]) == Misses(known, texts) + (if t in known || t in texts then [] else [t])
  {
    assert (texts + [t])[..|texts|] == texts;
  }


  /** The call log after one more cycle, when a miss adds one request. */
  lemma CallsStep(base: seq<Request>, missed: seq<string>, extra: seq<string>,
                  calls0: seq<Request>, calls1: seq<Request>, text: string, cached: bool)
    requires calls0 == base + KoreanRequests(missed)
    requires calls1 == calls0 + (if cached then [] else [KoreanRequest(text)])
    requires extra == (if cached then [] else [text])
    ensures calls1 == base + KoreanRequests(missed + extra)
  {
    KoreanRequestsConcat(missed, extra);
    assert KoreanRequests(extra) == (if cached then [] else [KoreanRequest(text)]);
  }

  /** Every posted pair is an accepted text and the cached translation of it, in order. */
  predicate PostsMatch(posted: seq<Post>, texts: seq<string>, cache: map<string, string>)
    decreases |posted|
  {
    && |posted| == |texts|
    && (|posted| > 0 ==>
          && PostsMatch(posted[..|posted| - 1], texts[..|texts| - 1], cache)
          && var t := texts[|texts| - 1];
             t in cache && posted[|posted| - 1] == Post(t, cache[t]))
  }

  /** The recursive match, read position by position. */
  lemma {:induction false} PostsMatchAt(posted: seq<Post>, texts: seq<string>, cache: map<string, string>)
    requires PostsMatch(posted, texts, cache)
    ensures |posted| == |texts|
    ensures forall k :: 0 <= k < |posted| ==>
      posted[k].korean == texts[k] && texts[k] in cache && posted[k].chinese == cache[texts[k]]
    decreases |posted|
  {
    if |posted| > 0 {
      var n := |posted| - 1;
      PostsMatchAt(posted[..n], texts[..n], cache);
      assert forall k :: 0 <= k < n ==> posted[..n][k] == posted[k] && texts[..n][k] == texts[k];
    }
  }

  lemma {:induction false} PostsMatchExtends(posted: seq<Post>, texts: seq<string>, c1: map<string, string>,
                                             c2: map<string, string>)
    requires PostsMatch(posted, texts, c1) && Extends(c1, c2)
    ensures PostsMatch(posted, texts, c2)
    decreases |posted|
  {
    if |posted| > 0 {
      PostsMatchExtends(posted[..|posted| - 1], texts[..|texts| - 1], c1, c2);
    }
  }

  /** `c1` keeps every entry of `c0` unchanged. */
  predicate Extends(c0: map<string, string>, c1: map<string, string>) {
    forall t :: t in c0 ==> t in c1 && c1[t] == c0[t]
  }

  lemma ExtendsTrans(a: map<string, string>, b: map<string, string>, c: map<string, string>)
    requires Extends(a, b) && Extends(b, c)
    ensures Extends(a, c)
  {
  }

  lemma PostsMatchStep(posted: seq<Post>, texts: seq<string>, c0: map<string, string>,
                       c1: map<string, string>, text: string)
    requires PostsMatch(posted, texts, c0) && Extends(c0, c1) && text in c1
    ensures PostsMatch(posted + [Post(text, c1[text])], texts + [text], c1)
  {
    PostsMatchExtends(posted, texts, c0, c1);
    var p := posted + [Post(text, c1[text])];
    assert p[..|p| - 1] == posted && (texts + [text])[..|texts|] == texts;
  }

  /** The set of texts in a sequence. */
  function ElementsOf(s: seq<string>): set<string> {
    set t | t in s
  }

  lemma ElementsOfSnoc(s: seq<string>, t: string)
    ensures ElementsOf(s + [t]) == ElementsOf(s) + {t}
  {
  }

  /** Every cached string is what some logged call for that text returned. */
  ghost predicate SoundCache(cache: map<string, string>, calls: seq<Request>, respond: (nat, Request) -> Reply) {
    forall k :: SoundEntry(cache, calls, respond, k)
  }

  /** The entry for `k`, if any, is what some logged call for `k` returned. */
  ghost predicate SoundEntry(cache: map<string, string>, calls: seq<Request>, respond: (nat, Request) -> Reply,
                             k: string)
  {
    k in cache ==>
      exists i :: 0 <= i < |calls| && calls[i] == KoreanRequest(k) && Rendered(respond(i, calls[i])) == cache[k]
  }

  lemma CacheStaysSound(cache: map<string, string>, cache1: map<string, string>, calls0: seq<Request>,
                        calls1: seq<Request>, respond: (nat, Request) -> Reply, text: string, chinese: string)
    requires SoundCache(cache, calls0, respond)
    requires calls1 == calls0 + [KoreanRequest(text)] && chinese == Rendered(respond(|calls0|, KoreanRequest(text)))
    requires cache1 == cache[text := chinese]
    ensures SoundCache(cache1, calls1, respond)
  {
    forall k
      ensures SoundEntry(cache1, calls1, respond, k)
    {
      if k == text {
        assert calls1[|calls0|] == KoreanRequest(k);
      } else if k in cache {
        assert SoundEntry(cache, calls0, respond, k);
        var i :| 0 <= i < |calls0| && calls0[i] == KoreanRequest(k) && Rendered(respond(i, calls0[i])) == cache[k];
        assert calls1[i] == calls0[i];
      }
    }
  }

  /**
   * The capture loop's progress after accepting `done`, from cache `c0`,
   * call log `base` and clipboard `clip0`: the posts match the accepted
   * texts, the cache gained exactly those texts and kept its old entries,
   * the service was called once per miss, and the clipboard holds the last
   * posted translation when auto-copy is on.
   */
  ghost predicate Progress(done: seq<string>, posted: seq<Post>, c0: map<string, string>, c1: map<string, string>,
                           base: seq<Request>, calls: seq<Request>, clip0: string, clip: string, autoCopy: bool)
  {
    && PostsMatch(posted, done, c1)
    && c1.Keys == c0.Keys + ElementsOf(done)
    && Extends(c0, c1)
    && calls == base + KoreanRequests(Misses(c0.Keys, done))
    && clip == LastCopied(posted, clip0, autoCopy)
  }

  lemma ProgressStep(done: seq<string>, posted: seq<Post>, c0: map<string, string>,
                     c1: map<string, string>, c2: map<string, string>,
                     base: seq<Request>, calls1: seq<Request>, calls2: seq<Request>,
                     clip0: string, clip1: string, clip2: string, autoCopy: bool, text: string)
    requires Progress(done, posted, c0, c1, base, calls1, clip0, clip1, autoCopy)
    requires text in c2 && c2.Keys == c1.Keys + {text} && Extends(c1, c2)
    requires calls2 == calls1 + (if text in c1 then [] else [KoreanRequest(text)])
    requires clip2 == (if autoCopy then c2[text] else clip1)
    ensures Progress(done + [text], posted + [Post(text, c2[text])], c0, c2, base, calls2, clip0, clip2, autoCopy)
  {
    var extra := if text in c0.Keys || text in done then [] else [text];
    MissesSnoc(c0.Keys, done, text);
    assert text in c1 <==> text in c0.Keys || text in done;
    CallsStep(base, Misses(c0.Keys, done), extra, calls1, calls2, text, text in c1);
    PostsMatchStep(posted, done, c1, c2, text);
    ExtendsTrans(c0, c1, c2);
    ElementsOfSnoc(done, text);
  }

  /** The clipboard after the posts: the last posted translation under auto-copy. */
  function LastCopied(posted: seq<Post>, clip0: string, autoCopy: bool): string {
    if autoCopy && |posted| > 0 then posted[|posted| - 1].chinese else clip0
  }

  /** The state one capture run works on: last-seen text, cache, call log, clipboard, posts. */
  datatype Session = Session(last: Option<string>, cache: map<string, string>, calls: seq<Request>,
                             clipboard: string, posted: seq<Post>)

  /**
   * One cycle of the capture loop on the session: a new text is answered
   * from the cache, or translated (the next call of the service) and
   * cached whatever came back; it is posted, and copied under auto-copy.
   */
  function Step(s: Session, text: string, autoCopy: bool, respond: (nat, Request) -> Reply): Session {
    if !IsNew(s.last, text) then s
    else
      var hit := text in s.cache;
      var chinese := if hit then s.cache[text] else Rendered(respond(|s.calls|, KoreanRequest(text)));
      Session(Some(text), s.cache[text := chinese], if hit then s.calls else s.calls + [KoreanRequest(text)],
              if autoCopy then chinese else s.clipboard, s.posted + [Post(text, chinese)])
  }

  /** The session after the cycles recognise `texts`, in order. */
  function Run(s: Session, texts: seq<string>, autoCopy: bool, respond: (nat, Request) -> Reply): Session
    decreases |texts|
  {
    if |texts| == 0 then s
    else Step(Run(s, texts[..|texts| - 1], autoCopy, respond), texts[|texts| - 1], autoCopy, respond)
  }

  /** The run's last-seen text is the change detector's. */
  lemma {:induction false} RunLastSeen(s: Session, texts: seq<string>, autoCopy: bool, respond: (nat, Request) -> Reply)
    requires s.last.None?
    ensures Run(s, texts, autoCopy, respond).last == LastSeen(None, texts)
    decreases |texts|
  {
    if |texts| > 0 {
      var n := |texts| - 1;
      RunLastSeen(s, texts[..n], autoCopy, respond);
      AcceptedStep(texts, n);
      assert texts[..n + 1] == texts;
    }
  }

  /**
   * What a capture run promises: the posts are the accepted texts with
   * their cached translations, the cache gained exactly the accepted texts
   * and kept every old entry, the service was called once per accepted
   * text that missed the cache, in order, and the clipboard holds the last
   * posted translation under auto-copy.
   */
  lemma {:induction false} RunProgress(c0: map<string, string>, base: seq<Request>, clip0: string, texts: seq<string>,
                                       autoCopy: bool, respond: (nat, Request) -> Reply)
    ensures var s := Run(Session(None, c0, base, clip0, []), texts, autoCopy, respond);
      Progress(Accepted(None, texts), s.posted, c0, s.cache, base, s.calls, clip0, s.clipboard, autoCopy)
    decreases |texts|
  {
    if |texts| > 0 {
      var n := |texts| - 1;
      var start := Session(None, c0, base, clip0, []);
      var s := Run(start, texts[..n], autoCopy, respond);
      RunProgress(c0, base, clip0, texts[..n], autoCopy, respond);
      RunLastSeen(start, texts[..n], autoCopy, respond);
      AcceptedStep(texts, n);
      assert texts[..n + 1] == texts;
      var text := texts[n];
      var s' := Step(s, text, autoCopy, respond);
      assert Run(start, texts, autoCopy, respond) == s';
      if IsNew(s.last, text) {
        assert s'.cache.Keys == s.cache.Keys + {text};
        assert Extends(s.cache, s'.cache);
        assert s'.calls == s.calls + (if text in s.cache then [] else [KoreanRequest(text)]);
        ProgressStep(Accepted(None, texts[..n]), s.posted, c0, s.cache, s'.cache, base, s.calls, s'.calls,
                     clip0, s.clipboard, s'.clipboard, autoCopy, text);
        assert Accepted(None, texts) == Accepted(None, texts[..n]) + [text];
        assert s'.posted == s.posted + [Post(text, s'.cache[text])];
        assert s'.clipboard == (if autoCopy then s'.cache[text] else s.clipboard);
      } else {
        assert Accepted(None, texts) == Accepted(None, texts[..n]);
      }
    }
  }

  class EnhancedTranslator {
    const translator: TranslatorClient
    const overlay: OverlayWindow
    var isCapturing: bool
    var captureRegion: Option<Region>
    var cache: map<string, string>
    var history: seq<HistoryItem>
    var ocrEngine: string
    var readerReady: bool
    var autoCopy: bool
    var clipboard: string

    /**
     * The history never exceeds its capacity, and every cached string is
     * what `translate_text` returned for that text on some call: the
     * translation or the error sentinel.
     */
    ghost predicate Valid()
      reads this, translator
    {
      |history| <= HISTORY_CAPACITY && CacheSound()
    }

    ghost predicate CacheSound()
      reads this, translator
    {
      SoundCache(cache, translator.calls, translator.respond)
    }

    constructor (translator: TranslatorClient)
      ensures Valid() && fresh(overlay)
      ensures this.translator == translator
      ensures !isCapturing && captureRegion.None? && cache == map[] && history == []
      ensures ocrEngine == "tesseract" && !readerReady && !autoCopy
    {
      this.translator := translator;
      overlay := new OverlayWindow();
      isCapturing := false;
      captureRegion := None;
      cache := map[];
      history := [];
      ocrEngine := "tesseract";
      readerReady := false;
      autoCopy := false;
      clipboard := "";
    }

    /** Mouse release at the end of a region drag. */
    method OnMouseUp(start: Option<Point>, release: Point)
      modifies this`captureRegion
      ensures captureRegion == AfterRelease(old(captureRegion), start, release)
    {
      if start.Some? {
        var region := Select(start.value, release);
        if region.Some? {
          captureRegion := region;
        }
      }
    }

    /** The OCR engine radio buttons: Tesseract or EasyOCR. */
    method SelectEngine(engine: string)
      requires engine == "tesseract" || engine == "easyocr"
      modifies this`ocrEngine
      ensures ocrEngine == engine
    {
      ocrEngine := engine;
    }

    /**
     * `toggle_capture`: start or stop, but only once a region is selected.
     * Starting with EasyOCR chosen and no reader yet loads the reader;
     * `readerLoads` is whether `easyocr.Reader` succeeds, and when it does
     * not the engine falls back to Tesseract.
     */
    method ToggleCapture(readerLoads: bool)
      modifies this`isCapturing, this`ocrEngine, this`readerReady
      ensures isCapturing == Toggled(old(isCapturing), captureRegion)
      ensures var loading := isCapturing && !old(isCapturing) && old(ocrEngine) == "easyocr" && !old(readerReady);
        && (loading && readerLoads ==> ocrEngine == "easyocr" && readerReady)
        && (loading && !readerLoads ==> ocrEngine == "tesseract" && !readerReady)
        && (!loading ==> ocrEngine == old(ocrEngine) && readerReady == old(readerReady))
    {
      if captureRegion.None? {
        return;
      }
      isCapturing := !isCapturing;
      if isCapturing && ocrEngine == "easyocr" && !readerReady {
        if readerLoads {
          readerReady := true;
        } else {
          ocrEngine := "tesseract";
        }
      }
    }

    /** `translate_text`: Korean to Traditional Chinese, the sentinel on failure. */
    method TranslateText(text: string) returns (r: string)
      modifies translator
      ensures translator.calls == old(translator.calls) + [KoreanRequest(text)]
      ensures r == Rendered(old(translator.Answer(KoreanRequest(text))))
    {
      var reply := translator.Translate(KoreanRequest(text));
      r := Rendered(reply);
    }

    /** One cycle's OCR with the current engine. */
    method RecognizeFrame(frame: Frame) returns (text: string)
      ensures text == RecognizedText(frame, ocrEngine, readerReady)
    {
      match frame
      case CaptureFailed =>
        text := "";
      case Captured(tesseract, fragments) =>
        if ocrEngine == "tesseract" {
          text := Strip(tesseract);
        } else if ocrEngine == "easyocr" && readerReady {
          text := JoinWords(fragments);
        } else {
          text := "";
        }
    }

    /**
     * The cache step of a cycle: a cached text reuses its stored string
     * without calling the service; otherwise the text is translated and
     * whatever came back, translation or sentinel, is stored under it.
     */
    method CachedTranslation(text: string) returns (chinese: string)
      requires Valid()
      modifies this`cache, translator
      ensures Valid()
      ensures text in old(cache) ==>
        chinese == old(cache)[text] && cache == old(cache) && translator.calls == old(translator.calls)
      ensures text !in old(cache) ==>
        && chinese == Rendered(old(translator.Answer(KoreanRequest(text))))
        && cache == old(cache)[text := chinese]
        && translator.calls == old(translator.calls) + [KoreanRequest(text)]
    {
      if text in cache {
        chinese := cache[text];
      } else {
        chinese := TranslateText(text);
        CacheStaysSound(cache, cache[text := chinese], old(translator.calls), translator.calls,
                        translator.respond, text, chinese);
        cache := cache[text := chinese];
      }
    }

    /**
     * The gate of one cycle, as `Step` describes it: a new non-empty text
     * gets its cached or fresh translation, is posted, and is copied to
     * the clipboard when auto-copy is on; any other text changes nothing.
     */
    method GateCycle(last: Option<string>, text: string, posted: seq<Post>) returns (next: Option<string>, posted': seq<Post>)
      requires Valid()
      modifies this`cache, this`clipboard, translator
      ensures Valid()
      ensures Step(Session(last, old(cache), old(translator.calls), old(clipboard), posted), text, autoCopy, translator.respond)
           == Session(next, cache, translator.calls, clipboard, posted')
    {
      next, posted' := last, posted;
      if text != "" && last != Some(text) {
        next := Some(text);
        var chinese := CachedTranslation(text);
        posted' := posted + [Post(text, chinese)];
        if autoCopy {
          clipboard := chinese;
        }
      }
    }

    /**
     * `capture_loop` over the cycles that run while capturing: the loop
     * ends in the state `Run` gives for the recognised texts, so (by
     * `RunProgress`) the posted pairs are exactly the texts the change gate
     * accepts, each with the cached translation of its text; the cache
     * gains one entry per accepted text and keeps the old ones; the service
     * is called once per accepted text that was not cached yet; auto-copy
     * leaves the last posted translation on the clipboard.
     */
    method CaptureLoop(frames: seq<Frame>) returns (posted: seq<Post>)
      requires Valid() && isCapturing
      modifies this`cache, this`clipboard, translator
      ensures Valid()
      ensures Run(Session(None, old(cache), old(translator.calls), old(clipboard), []),
                  Texts(frames, ocrEngine, readerReady), autoCopy, translator.respond)
           == Session(LastSeen(None, Texts(frames, ocrEngine, readerReady)), cache, translator.calls, clipboard, posted)
    {
      ghost var texts := Texts(frames, ocrEngine, readerReady);
      ghost var start := Session(None, cache, translator.calls, clipboard, []);
      var last: Option<string> := None;
      posted := [];
      for i := 0 to |frames|
        invariant Valid()
        invariant Run(start, texts[..i], autoCopy, translator.respond) == Session(last, cache, translator.calls, clipboard, posted)
      {
        var text := RecognizeFrame(frames[i]);
        assert text == texts[i];
        assert texts[..i + 1][..i] == texts[..i];
        last, posted := GateCycle(last, text, posted);
      }
      assert texts[..|frames|] == texts;
      RunLastSeen(start, texts, autoCopy, translator.respond);
    }

    /**
     * `update_translation`: the overlay shows the pair when it is showing,
     * and the history gains one record, evicting the oldest at capacity.
     */
    method UpdateTranslation(korean: string, chinese: string, now: Clock)
      requires Valid()
      modifies this`history, overlay
      ensures Valid()
      ensures history == HistoryLog.Append(old(history), HistoryItem(now.time, now.date, korean, chinese), HISTORY_CAPACITY)
      ensures old(overlay.isShowing) ==> overlay.text == korean + "\n" + chinese
      ensures !old(overlay.isShowing) ==> overlay.text == old(overlay.text)
      ensures overlay.isShowing == old(overlay.isShowing) && overlay.hasWindow == old(overlay.hasWindow || overlay.isShowing)
      ensures old(overlay.isShowing && !overlay.hasWindow) ==> overlay.visible
      ensures !old(overlay.isShowing && !overlay.hasWindow) ==> overlay.visible == old(overlay.visible)
    {
      if overlay.isShowing {
        overlay.UpdateText(korean + "\n" + chinese);
      }
      history := HistoryLog.Append(history, HistoryItem(now.time, now.date, korean, chinese), HISTORY_CAPACITY);
    }

    /**
     * `import_history`: the imported records are appended in order, so the
     * history ends as the newest 100 of the old and imported records.
     */
    method ImportHistory(imported: seq<HistoryItem>)
      requires Valid()
      modifies this`history
      ensures Valid()
      ensures history == HistoryLog.Window(old(history) + imported, HISTORY_CAPACITY)
    {
      for i := 0 to |imported|
        invariant |history| <= HISTORY_CAPACITY
        invariant history == HistoryLog.Window(old(history) + imported[..i], HISTORY_CAPACITY)
      {
        HistoryLog.WindowAppend(old(history) + imported[..i], imported[i], HISTORY_CAPACITY);
        assert old(history) + imported[..i + 1] == old(history) + imported[..i] + [imported[i]];
        history := HistoryLog.Append(history, imported[i], HISTORY_CAPACITY);
      }
      assert imported[..|imported|] == imported;
    }

    /** `clear_all_history`, once the user has confirmed. */
    method ClearAllHistory(confirmed: bool)
      requires Valid()
      modifies this`history
      ensures Valid()
      ensures history == (if confirmed then [] else old(history))
    {
      if confirmed {
        history := [];
      }
    }

    /** `copy_latest_translation`: the newest record's pair, or nothing on an empty history. */
    method CopyLatestTranslation()
      modifies this`clipboard
      ensures |history| == 0 ==> clipboard == old(clipboard)
      ensures |history| > 0 ==>
        clipboard == history[|history| - 1].korean + "\n" + history[|history| - 1].chinese
    {
      if |history| > 0 {
        var latest := history[|history| - 1];
        clipboard := latest.korean + "\n" + latest.chinese;
      }
    }

    /**
     * `search_history`: the records listed, in history order, are exactly
     * those whose lowercased Korean or Chinese contains the lowercased
     * keyword; an empty keyword lists them all.
     */
    method SearchHistory(keyword: string) returns (rows: seq<HistoryItem>)
      ensures rows == Filter(history, (item: HistoryItem) => Matches(item, Lower(keyword)))
      ensures forall i :: 0 <= i < |rows| ==> rows[i] in history && Matches(rows[i], Lower(keyword))
      ensures forall i :: 0 <= i < |history| && Matches(history[i], Lower(keyword)) ==> history[i] in rows
      ensures keyword == "" ==> rows == history
    {
      var needle := Lower(keyword);
      var keep := (item: HistoryItem) => Matches(item, needle);
      rows := [];
      for i := 0 to |history|
        invariant rows == Filter(history[..i], keep)
      {
        FilterSnoc(history[..i], history[i], keep);
        assert history[..i + 1] == history[..i] + [history[i]];
        if Matches(history[i], needle) {
          rows := rows + [history[i]];
        }
      }
      assert history[..|history|] == history;
      if keyword == "" {
        EmptyNeedleListsAll(history, needle);
      }
    }

  }

  /**
   * `show_history_detail` as written: the selected listbox row is used as
   * an index into the history, and names a record only when it is below
   * the history's length.
   */
  function ShowHistoryDetail(history: seq<HistoryItem>, selection: seq<nat>): (r: Option<HistoryItem>)
    ensures r.Some? <==> |selection| > 0 && selection[0] < |history|
    ensures r.Some? ==> r.value in history && r.value == history[selection[0]]
  {
    if |selection| > 0 && selection[0] < |history| then Some(history[selection[0]]) else None
  }

  /**
   * After a search the listbox shows only the matching records, but the
   * selected row still indexes the whole history: with records "a" and
   * "b" and the keyword "b", the only listed row is "b", and selecting it
   * shows "a".
   */
  lemma DetailAfterSearchShowsOtherRecord()
    ensures var a := HistoryItem("12:00:00", "2024-01-01", "a", "x");
      var b := HistoryItem("12:00:01", "2024-01-01", "b", "y");
      var listed := Filter([a, b], (item: HistoryItem) => Matches(item, Lower("b")));
      && listed == [b]
      && ShowHistoryDetail([a, b], [0]) == Some(a)
      && ShowHistoryDetail([a, b], [0]) != Some(listed[0])
  {
    var a := HistoryItem("12:00:00", "2024-01-01", "a", "x");
    var b := HistoryItem("12:00:01", "2024-01-01", "b", "y");
    assert Lower("b") == "b";
    assert Lower("a") == "a" && Lower("x") == "x" && Lower("y") == "y";
    assert "a"[1..] == [] && "x"[1..] == [];
    assert !("b" <= "a") by { assert "b"[0] != "a"[0]; }
    assert !("b" <= "x") by { assert "b"[0] != "x"[0]; }
    assert !Matches(a, "b");
    assert Matches(b, "b");
  }

  /**
   * `show_history_detail` as intended: the record shown is the one on the
   * selected row of what the listbox lists.
   */
  function SelectedDetail(listed: seq<HistoryItem>, selection: seq<nat>): (r: Option<HistoryItem>)
    ensures r.Some? <==> |selection| > 0 && selection[0] < |listed|
    ensures r.Some? ==> r == Some(listed[selection[0]])
  {
    if |selection| > 0 && selection[0] < |listed| then Some(listed[selection[0]]) else None
  }

  /**
   * After a search, the record shown for a selected row is a history
   * record that matches the keyword; with nothing filtered out the
   * corrected lookup agrees with the original one.
   */
  lemma SelectedDetailIsListedMatch(history: seq<HistoryItem>, keyword: string, selection: seq<nat>)
    ensures var r := SelectedDetail(Filter(history, (item: HistoryItem) => Matches(item, Lower(keyword))), selection);
      r.Some? ==> r.value in history && Matches(r.value, Lower(keyword))
    ensures SelectedDetail(history, selection) == ShowHistoryDetail(history, selection)
  {
  }

  /** An empty keyword matches every record, so the search lists the whole history. */
  lemma EmptyNeedleListsAll(history: seq<HistoryItem>, needle: string)
    requires needle == ""
    ensures Filter(history, (item: HistoryItem) => Matches(item, needle)) == history
  {
    forall item: HistoryItem
      ensures Matches(item, needle)
    {
      EmptyContained(Lower(item.korean));
    }
    FilterKeepsAll(history, (item: HistoryItem) => Matches(item, needle));
  }

  /** The search match: the keyword occurs in the lowercased Korean or Chinese. */
  predicate Matches(item: HistoryItem, needle: string) {
    Contains(Lower(item.korean), needle) || Contains(Lower(item.chinese), needle)
  }
}
