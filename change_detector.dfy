/**
 * The gate that keeps an unchanged on-screen sentence from being translated
 * again every cycle. The translators compare Python `hash(text)` values (or
 * the texts themselves) with the last accepted one; the model compares the
 * texts, and `None` stands for "nothing accepted yet" (the initial `""`
 * sentinel, which no recognised text's hash equals).
 */
module ChangeDetector {
  import opened Wrappers

  /** A recognised text is new: non-empty and different from the last accepted one. */
  predicate IsNew(last: Option<string>, text: string) {
    text != "" && last != Some(text)
  }

  /** The last-seen value after one cycle: updated exactly when the text is new. */
  function Observe(last: Option<string>, text: string): Option<string> {
    if IsNew(last, text) then Some(text) else last
  }

  /** The texts accepted, in order, when the cycles recognise `texts` one by one. */
  function Accepted(last: Option<string>, texts: seq<string>): seq<string>
    decreases |texts|
  {
    if |texts| == 0 then []
    else if IsNew(last, texts[0]) then [texts[0]] + Accepted(Some(texts[0]), texts[1..])
    else Accepted(last, texts[1..])
  }

  /** The last-seen value after the cycles recognise `texts`. */
  function LastSeen(last: Option<string>, texts: seq<string>): Option<string>
    decreases |texts|
  {
    if |texts| == 0 then last else LastSeen(Observe(last, texts[0]), texts[1..])
  }

  /**
   * Every accepted text is non-empty, differs from the value seen before
   * the run, and differs from the text accepted just before it.
   */
  lemma {:induction false} AcceptedNeverRepeats(last: Option<string>, texts: seq<string>)
    ensures var a := Accepted(last, texts);
      && (forall k :: 0 <= k < |a| ==> a[k] != "")
      && (|a| > 0 ==> last != Some(a[0]))
      && (forall k :: 0 <= k < |a| - 1 ==> a[k] != a[k + 1])
    decreases |texts|
  {
    if |texts| > 0 {
      if IsNew(last, texts[0]) {
        AcceptedNeverRepeats(Some(texts[0]), texts[1..]);
      } else {
        AcceptedNeverRepeats(last, texts[1..]);
      }
    }
  }

  /** The last-seen value is the last accepted text, or the initial one when none was accepted. */
  lemma {:induction false} LastSeenIsLastAccepted(last: Option<string>, texts: seq<string>)
    ensures var a := Accepted(last, texts);
      LastSeen(last, texts) == if |a| == 0 then last else Some(a[|a| - 1])
    decreases |texts|
  {
    if |texts| > 0 {
      LastSeenIsLastAccepted(Observe(last, texts[0]), texts[1..]);
    }
  }

  /** From a fresh start, the last-seen value is never the empty text. */
  lemma LastSeenNeverEmpty(texts: seq<string>)
    ensures LastSeen(None, texts) != Some("")
  {
    LastSeenIsLastAccepted(None, texts);
    AcceptedNeverRepeats(None, texts);
  }

  /**
   * One more cycle: its text is accepted exactly when it is new relative to
   * the last-seen value of the cycles before it.
   */
  lemma {:induction false} AcceptedSnoc(last: Option<string>, texts: seq<string>, text: string)
    ensures Accepted(last, texts + [text]) ==
            Accepted(last, texts) + (if IsNew(LastSeen(last, texts), text) then [text] else [])
    ensures LastSeen(last, texts + [text]) == Observe(LastSeen(last, texts), text)
    decreases |texts|
  {
    if |texts| == 0 {
      assert texts + [text] == [text];
    } else {
      assert (texts + [text])[1..] == texts[1..] + [text];
      AcceptedSnoc(Observe(last, texts[0]), texts[1..], text);
    }
  }

  /** The cycles up to `i + 1` from the cycles up to `i`: the form a capture loop's invariant takes. */
  lemma AcceptedStep(texts: seq<string>, i: nat)
    requires i < |texts|
    ensures Accepted(None, texts[..i + 1]) ==
            Accepted(None, texts[..i]) + (if IsNew(LastSeen(None, texts[..i]), texts[i]) then [texts[i]] else [])
    ensures LastSeen(None, texts[..i + 1]) == Observe(LastSeen(None, texts[..i]), texts[i])
  {
    assert texts[..i + 1] == texts[..i] + [texts[i]];
    AcceptedSnoc(None, texts[..i], texts[i]);
  }

  /** A text seen twice in consecutive cycles is accepted at most once. */
  lemma RepeatIsIgnored(last: Option<string>, texts: seq<string>, text: string)
    ensures Accepted(last, texts + [text, text]) == Accepted(last, texts + [text])
  {
    assert texts + [text, text] == (texts + [text]) + [text];
    AcceptedSnoc(last, texts, text);
    AcceptedSnoc(last, texts + [text], text);
  }
}
