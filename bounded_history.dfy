/**
 * The per-file undo buffer of `MiniPaint.record_file_history`
 * (generate_png.py): append a snapshot, then drop the oldest one when the
 * buffer has grown past its limit.
 */
module BoundedHistory {

  function Min(a: nat, b: nat): nat
  {
    if a <= b then a else b
  }

  /**
   * `hist.append(x)` followed by `hist.pop(0)` when the length exceeds
   * `limit`: the newest snapshot is last, the buffer keeps a suffix of
   * `hist + [x]`, and it drops exactly one snapshot when it overflows.
   */
  function PushBounded<T>(hist: seq<T>, x: T, limit: nat): (r: seq<T>)
    ensures |r| == (if |hist| + 1 > limit then |hist| else |hist| + 1)
    ensures r == (hist + [x])[|hist| + 1 - |r|..]
    ensures |hist| <= limit ==> |r| <= limit
  {
    var h := hist + [x];
    if |h| > limit then h[1..] else h
  }

  /** The buffer after pushing each of `xs` in turn. */
  function PushAll<T>(hist: seq<T>, xs: seq<T>, limit: nat): seq<T>
  {
    if xs == [] then hist else PushBounded(PushAll(hist, xs[..|xs| - 1], limit), xs[|xs| - 1], limit)
  }

  /** Starting empty, the buffer holds the last `min(n, limit)` snapshots, oldest first. */
  lemma {:induction false} PushAllWindow<T>(xs: seq<T>, limit: nat)
    ensures PushAll([], xs, limit) == xs[|xs| - Min(|xs|, limit)..]
    decreases |xs|
  {
    if xs != [] {
      var init := xs[..|xs| - 1];
      PushAllWindow(init, limit);
      var m := Min(|init|, limit);
      assert init[|init| - m..] + [xs[|xs| - 1]] == xs[|init| - m..];
    }
  }

  /** A buffer within its limit stays within it, however many snapshots are pushed. */
  lemma {:induction false} PushAllBounded<T>(hist: seq<T>, xs: seq<T>, limit: nat)
    requires |hist| <= limit
    ensures |PushAll(hist, xs, limit)| <= limit
    decreases |xs|
  {
    if xs != [] {
      PushAllBounded(hist, xs[..|xs| - 1], limit);
    }
  }
}
