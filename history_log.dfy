/**
 * The translation history: a `collections.deque(maxlen=N)` in two of the
 * translators (appending to a full deque drops its oldest entry) and a
 * plain unbounded list in the third.
 */
module HistoryLog {

  /** The newest `n` entries of `s`: what a deque of capacity `n` keeps. */
  function Window<T>(s: seq<T>, n: nat): (r: seq<T>)
    ensures |r| == if |s| <= n then |s| else n
    ensures r == s[|s| - |r|..]
  {
    if |s| <= n then s else s[|s| - n..]
  }

  /**
   * `deque.append(item)` on a deque of capacity `maxLen`: the item goes on
   * the right and, when the deque was full, the leftmost (oldest) entry is
   * evicted.
   */
  function Append<T>(log: seq<T>, item: T, maxLen: nat): (r: seq<T>)
    requires |log| <= maxLen
    ensures |r| <= maxLen
    ensures |log| < maxLen ==> r == log + [item]
    ensures |log| == maxLen > 0 ==> r == log[1..] + [item]
    ensures r == Window(log + [item], maxLen)
  {
    if |log| < maxLen then log + [item] else (log + [item])[1..]
  }

  /** Appending to the newest `n` entries keeps the newest `n` of the longer history. */
  lemma WindowAppend<T>(s: seq<T>, item: T, n: nat)
    ensures Append(Window(s, n), item, n) == Window(s + [item], n)
  {
    var w := Window(s, n);
    if |s| > n {
      assert w + [item] == (s + [item])[|s| - n..];
    }
  }
}
