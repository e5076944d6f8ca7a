/**
 * The price history's container: Python's `collections.deque(maxlen=n)`, seen as the
 * sequence of the last at most `n` values appended, oldest first.
 */
module Deque {

  /** What a deque bounded by `maxLen` holds after `s` was appended to it, one value at a time. */
  function Window<T>(s: seq<T>, maxLen: nat): (w: seq<T>)
    ensures |w| <= maxLen && |w| <= |s|
    ensures |s| <= maxLen ==> w == s
    ensures |s| > maxLen ==> |w| == maxLen
    ensures w == s[|s| - |w|..]
  {
    if |s| <= maxLen then s else s[|s| - maxLen..]
  }

  /** Appending to a full window evicts exactly the oldest value. */
  lemma AppendEvictsOldest<T>(h: seq<T>, x: T, maxLen: nat)
    requires 1 <= maxLen && |h| == maxLen
    ensures Window(h + [x], maxLen) == h[1..] + [x]
  {
    assert (h + [x])[1..] == h[1..] + [x];
  }

  /** Appending to a window that is not full keeps every value and adds `x` last. */
  lemma AppendWithinCapacity<T>(h: seq<T>, x: T, maxLen: nat)
    requires |h| < maxLen
    ensures Window(h + [x], maxLen) == h + [x]
  {
  }

  /**
   * Bounding after every append is the same as bounding once at the end: the deque's
   * per-element eviction agrees with `Window` of everything appended.
   */
  lemma WindowAppend<T>(s: seq<T>, x: T, maxLen: nat)
    ensures Window(Window(s, maxLen) + [x], maxLen) == Window(s + [x], maxLen)
  {
    var w := Window(s, maxLen);
    if |s| + 1 > maxLen {
      var t := s + [x];
      assert w + [x] == t[|t| - |w| - 1..];
    }
  }

  /** Extending with at least `maxLen` values keeps exactly the last `maxLen` of them, in order. */
  lemma ExtendKeepsLast<T>(h: seq<T>, xs: seq<T>, maxLen: nat)
    requires |xs| >= maxLen
    ensures Window(h + xs, maxLen) == xs[|xs| - maxLen..]
  {
    var s := h + xs;
    assert s[|s| - maxLen..] == xs[|xs| - maxLen..];
  }
}
