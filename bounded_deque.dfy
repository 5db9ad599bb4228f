/**
 * A `collections.deque` with a `maxlen`, as a sequence: appending to a
 * full deque drops its oldest element, so it always holds the most recent
 * elements appended.
 */
module BoundedDeque {
  /** The last min(|h|, n) elements of h, oldest first. */
  function LastN<T>(h: seq<T>, n: nat): (w: seq<T>)
    ensures |w| == if |h| <= n then |h| else n
    ensures forall i :: 0 <= i < |w| ==> w[i] == h[|h| - |w| + i]
  {
    if |h| <= n then h else h[|h| - n..]
  }

  /** `append` on a deque with maxlen n. */
  function Push<T>(q: seq<T>, x: T, n: nat): (r: seq<T>)
    requires |q| <= n
    ensures |r| == if |q| < n then |q| + 1 else n
    ensures n > 0 ==> r[|r| - 1] == x
  {
    if |q| < n then q + [x]
    else if n == 0 then []
    else q[1..] + [x]
  }

  /** Appending keeps the deque equal to the last n elements ever appended. */
  lemma PushLastN<T>(h: seq<T>, x: T, n: nat)
    ensures Push(LastN(h, n), x, n) == LastN(h + [x], n)
  {
    var h' := h + [x];
    if |h| >= n && n > 0 {
      assert h[|h| - n..][1..] + [x] == h'[|h'| - n..];
    }
  }
}
