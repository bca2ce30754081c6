/**
 * The external translation service (`googletrans.Translator`) as an oracle,
 * the error sentinel the translators return instead of raising, and the
 * string cache key of the multilingual translator.
 */
module Translation {

  /** One `translator.translate(text, src=..., dest=...)` call. */
  datatype Request = Request(text: string, src: string, dst: string)

  /** The call returned a result whose `.text` is `text`, or raised with message `reason`. */
  datatype Reply = Translated(text: string) | Failed(reason: string)

  /** Prefix of the string returned in place of a translation when a call fails. */
  const ERROR_PREFIX: string := "翻譯錯誤: "

  /** `f"翻譯錯誤: {str(e)}"`. */
  function ErrorText(reason: string): (r: string)
    ensures ERROR_PREFIX <= r && r[|ERROR_PREFIX|..] == reason
  {
    ERROR_PREFIX + reason
  }

  /** What `translate_text` hands back for a reply: the translation or the sentinel. */
  function Rendered(reply: Reply): string {
    match reply
    case Translated(t) => t
    case Failed(reason) => ErrorText(reason)
  }

  /**
   * The translation service. Its behaviour is unknown, so it is a fixed but
   * arbitrary answer `respond(n, request)` for the n-th call of the
   * session; this covers transient failures and changing answers. Every
   * call is recorded in `calls`.
   */
  class TranslatorClient {
    const respond: (nat, Request) -> Reply
    var calls: seq<Request>

    constructor (respond: (nat, Request) -> Reply)
      ensures this.respond == respond && calls == []
    {
      this.respond := respond;
      calls := [];
    }

    /** The answer to the next call, recorded in the call log. */
    function Answer(req: Request): Reply
      reads this
    {
      respond(|calls|, req)
    }

    method Translate(req: Request) returns (reply: Reply)
      modifies this
      ensures calls == old(calls) + [req]
      ensures reply == old(Answer(req))
    {
      reply := respond(|calls|, req);
      calls := calls + [req];
    }
  }

  /** The multilingual translator's cache key `f"{text}_{src}_{dst}"`. */
  function CacheKey(text: string, src: string, dst: string): string {
    text + "_" + src + "_" + dst
  }

  /** The key of a request. */
  function KeyOf(req: Request): string {
    CacheKey(req.text, req.src, req.dst)
  }

  /** No underscore in a language code (true of every code the translator uses). */
  predicate NoUnderscore(code: string) {
    forall i :: 0 <= i < |code| ==> code[i] != '_'
  }

  /**
   * The string key identifies text, source and target uniquely as long as
   * the two language codes contain no underscore, so the cache behaves as
   * if keyed by the triple.
   */
  lemma CacheKeyInjective(t1: string, s1: string, d1: string, t2: string, s2: string, d2: string)
    requires NoUnderscore(s1) && NoUnderscore(d1) && NoUnderscore(s2) && NoUnderscore(d2)
    requires CacheKey(t1, s1, d1) == CacheKey(t2, s2, d2)
    ensures t1 == t2 && s1 == s2 && d1 == d2
  {
    SplitLast(t1 + "_" + s1, d1, t2 + "_" + s2, d2);
    SplitLast(t1, s1, t2, s2);
  }

  /** `a + "_" + b` determines `a` and `b` when `b` has no underscore. */
  lemma SplitLast(a1: string, b1: string, a2: string, b2: string)
    requires NoUnderscore(b1) && NoUnderscore(b2)
    requires a1 + "_" + b1 == a2 + "_" + b2
    ensures a1 == a2 && b1 == b2
  {
    var s := a1 + "_" + b1;
    assert forall p :: |a1| < p < |s| ==> s[p] == b1[p - |a1| - 1] != '_';
    assert forall p :: |a2| < p < |s| ==> s[p] == b2[p - |a2| - 1] != '_';
    assert s[|a1|] == '_' && s[|a2|] == '_';
    assert |a1| == |a2|;
    assert b1 == s[|s| - |b1|..] == b2;
    assert a1 == s[..|a1|] == a2;
  }

  /** Source and target of every call the two Korean translators make. */
  const KOREAN: string := "ko"
  const TRADITIONAL_CHINESE: string := "zh-tw"

  /** `translator.translate(text, src='ko', dest='zh-tw')`. */
  function KoreanRequest(text: string): Request {
    Request(text, KOREAN, TRADITIONAL_CHINESE)
  }

  /** The calls that translate `texts` from Korean, in order. */
  function KoreanRequests(texts: seq<string>): (r: seq<Request>)
    ensures |r| == |texts|
    decreases |texts|
  {
    if |texts| == 0 then []
    else KoreanRequests(texts[..|texts| - 1]) + [KoreanRequest(texts[|texts| - 1])]
  }

  /** The k-th call translates the k-th text. */
  lemma {:induction false} KoreanRequestsAt(texts: seq<string>)
    ensures forall k :: 0 <= k < |texts| ==> KoreanRequests(texts)[k] == KoreanRequest(texts[k])
    decreases |texts|
  {
    if |texts| > 0 {
      KoreanRequestsAt(texts[..|texts| - 1]);
    }
  }

  /** Translating two runs of texts is translating the first, then the second. */
  lemma {:induction false} KoreanRequestsConcat(a: seq<string>, b: seq<string>)
    ensures KoreanRequests(a + b) == KoreanRequests(a) + KoreanRequests(b)
    decreases |b|
  {
    if |b| == 0 {
      assert a + b == a;
    } else {
      var n := |b| - 1;
      KoreanRequestsConcat(a, b[..n]);
      assert (a + b)[..|a| + n] == a + b[..n];
      assert KoreanRequests(b) == KoreanRequests(b[..n]) + [KoreanRequest(b[n])];
    }
  }
}
