/** Geometry of the sliding-window scan: which cursor positions are visited
    and which slice of the sequence each one evaluates. */
module Sliding {

  /** Number of cursor positions `w + k * step` (k = 0, 1, ...) strictly
      below `n`, in closed form: the ceiling of (n - w) / step. */
  function WindowCount(n: nat, w: nat, step: nat): nat
    requires 0 < step && w <= n
  {
    (n - w + step - 1) / step
  }

  lemma MulMonotone(a: nat, b: nat, c: nat)
    requires a <= b
    ensures a * c <= b * c
  {
  }

  /** Cursor `w + k * step` passes the loop test exactly for the first
      `WindowCount` values of k; in particular no cursor is visited when
      the window already spans the whole sequence. */
  lemma CursorBelowLength(n: nat, w: nat, step: nat, k: nat)
    requires 0 < step && w <= n
    ensures k < WindowCount(n, w, step) <==> w + k * step < n
    ensures n == w ==> WindowCount(n, w, step) == 0
  {
    var m := n - w + step - 1;
    var q, r := m / step, m % step;
    assert m == q * step + r && 0 <= r < step;
    if k < q {
      MulMonotone(k, q - 1, step);
      assert (q - 1) * step == q * step - step;
    } else {
      MulMonotone(q, k, step);
    }
  }

  /** The loop makes at most n - w passes. */
  lemma WindowCountBound(n: nat, w: nat, step: nat)
    requires 0 < step && w <= n
    ensures WindowCount(n, w, step) <= n - w
  {
    var m := n - w;
    if m > 0 {
      CursorBelowLength(n, w, step, m);
      MulMonotone(1, step, m);
    } else {
      CursorBelowLength(n, w, step, 0);
    }
  }

  /** The windows the scan evaluates, in the order it evaluates them:
      window k is the slice that ends at cursor `w + k * step`. */
  function Windows(s: seq<char>, w: nat, step: nat): (ws: seq<seq<char>>)
    requires 0 < step && w <= |s|
    ensures |ws| == WindowCount(|s|, w, step)
    ensures forall k :: 0 <= k < |ws| ==>
              k * step + w < |s| && ws[k] == s[k * step .. k * step + w]
    ensures forall k :: 0 <= k < |ws| ==> |ws[k]| == w
  {
    var count := WindowCount(|s|, w, step);
    assert forall k :: 0 <= k < count ==> k * step + w < |s| by {
      forall k | 0 <= k < count
        ensures k * step + w < |s|
      {
        CursorBelowLength(|s|, w, step, k);
      }
    }
    seq(count, k requires 0 <= k < count => s[k * step .. k * step + w])
  }

  /** The k-th cursor position lies inside the sequence, the slice ending
      there is window k, and the next cursor position is one step on. */
  lemma CursorWindow(s: seq<char>, w: nat, step: nat, k: nat)
    requires 0 < step && w <= |s|
    requires k < WindowCount(|s|, w, step)
    ensures w <= w + k * step < |s|
    ensures s[w + k * step - w .. w + k * step] == Windows(s, w, step)[k]
    ensures w + k * step + step == w + (k + 1) * step
  {
    CursorBelowLength(|s|, w, step, k);
    assert (k + 1) * step == k * step + step;
  }
}
