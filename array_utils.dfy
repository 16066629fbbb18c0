/** `slidingWindow` of the extraction broker: every run of `window`
    consecutive elements, starting at multiples of `offset`. */
module ArrayUtils {
  /** The offset used when the caller gives none. */
  const DefaultOffset: nat := 1

  /** `xs.slice(offset)`: what is left after dropping `offset` elements, or
      nothing when there are fewer. */
  function Drop<A>(xs: seq<A>, offset: nat): (r: seq<A>)
    ensures offset <= |xs| ==> r == xs[offset..]
    ensures offset > |xs| ==> r == []
  {
    if offset <= |xs| then xs[offset..] else []
  }

  /** The windows of `xs`: none when `xs` is shorter than the window, else
      its first `window` elements followed by the windows of `xs` after
      `offset` elements.  Both sizes must be positive for the recursion to
      stop. */
  function SlidingWindow<A>(window: nat, offset: nat, xs: seq<A>): (r: seq<seq<A>>)
    requires window >= 1 && offset >= 1
    ensures r == [] <==> |xs| < window
    ensures r != [] ==> r[0] == xs[..window]
    decreases |xs|
  {
    if |xs| < window then []
    else [xs[..window]] + SlidingWindow(window, offset, Drop(xs, offset))
  }

  lemma {:induction false} MulPos(a: nat, d: nat)
    requires a >= 1 && d >= 1
    ensures a * d >= d
    decreases a
  {
    if a > 1 { MulPos(a - 1, d); assert a * d == (a - 1) * d + d; }
  }
  lemma SliceOfDrop<A>(xs: seq<A>, offset: nat, start: nat, window: nat)
    requires offset <= |xs| && start + window <= |xs| - offset
    ensures xs[offset..][start .. start + window] == xs[offset + start .. offset + start + window]
  {
  }

  lemma MulSucc(j: nat, d: nat)
    ensures j * d >= 0 && (j + 1) * d == j * d + d
  {
  }

  /** Euclidean division has one quotient. */
  lemma DivUnique(n: int, d: nat, q: int, r: int)
    requires d >= 1 && 0 <= r < d && n == q * d + r
    ensures n / d == q
  {
    var q', r' := n / d, n % d;
    assert n == q' * d + r';
    if q' < q {
      assert q * d - q' * d == (q - q') * d;
      MulPos(q - q', d);
    } else if q < q' {
      assert q' * d - q * d == (q' - q) * d;
      MulPos(q' - q, d);
    }
  }
  lemma DivStep(m: nat, d: nat)
    requires d >= 1 && m >= d
    ensures (m - d) / d + 1 == m / d
  {
    var q, r := (m - d) / d, (m - d) % d;
    assert m - d == q * d + r;
    assert m == (q + 1) * d + r;
    DivUnique(m, d, q + 1, r);
  }

  /** From `n >= window` on, there are `(n - window) / offset + 1` windows. */
  lemma {:induction false} WindowCount<A>(window: nat, offset: nat, xs: seq<A>)
    requires window >= 1 && offset >= 1 && |xs| >= window
    ensures |SlidingWindow(window, offset, xs)| == (|xs| - window) / offset + 1
    decreases |xs|
  {
    var rest := Drop(xs, offset);
    assert SlidingWindow(window, offset, xs) == [xs[..window]] + SlidingWindow(window, offset, rest);
    if |rest| < window {
      DivUnique(|xs| - window, offset, 0, |xs| - window);
    } else {
      assert |rest| == |xs| - offset;
      WindowCount(window, offset, rest);
      DivStep(|xs| - window, offset);
    }
  }

  /** Window `k` is the slice of `xs` of length `window` that starts at
      `k * offset`. */
  lemma {:induction false} WindowAt<A>(window: nat, offset: nat, xs: seq<A>, k: nat)
    requires window >= 1 && offset >= 1 && k < |SlidingWindow(window, offset, xs)|
    ensures k * offset + window <= |xs|
    ensures SlidingWindow(window, offset, xs)[k] == xs[k * offset .. k * offset + window]
    decreases |xs|
  {
    var rest := Drop(xs, offset);
    assert SlidingWindow(window, offset, xs) == [xs[..window]] + SlidingWindow(window, offset, rest);
    if k > 0 {
      WindowAt(window, offset, rest, k - 1);
      var start := (k - 1) * offset;
      MulSucc(k - 1, offset);
      SliceOfDrop(xs, offset, start, window);
    }
  }

  /** The windows, described without recursion. */
  function Slices<A>(window: nat, offset: nat, xs: seq<A>): (r: seq<seq<A>>)
    requires window >= 1 && offset >= 1
    ensures forall k :: 0 <= k < |r| ==> |r[k]| == window
  {
    if |xs| < window then []
    else
      var count := (|xs| - window) / offset + 1;
      assert forall k :: 0 <= k < count ==> k * offset + window <= |xs| by {
        forall k | 0 <= k < count ensures k * offset + window <= |xs| {
          BoundedStart(|xs| - window, offset, k);
        }
      }
      seq(count, k requires 0 <= k < count => xs[k * offset .. k * offset + window])
  }

  lemma BoundedStart(m: nat, d: nat, k: nat)
    requires d >= 1 && k < m / d + 1
    ensures k * d <= m
  {
    assert k <= m / d;
    assert k * d <= (m / d) * d;
  }

  /** The recursive definition yields exactly those slices, in order. */
  lemma SlidingWindowIsSlices<A>(window: nat, offset: nat, xs: seq<A>)
    requires window >= 1 && offset >= 1
    ensures SlidingWindow(window, offset, xs) == Slices(window, offset, xs)
  {
    if |xs| >= window {
      WindowCount(window, offset, xs);
      forall k | 0 <= k < |SlidingWindow(window, offset, xs)|
        ensures SlidingWindow(window, offset, xs)[k] == Slices(window, offset, xs)[k]
      {
        WindowAt(window, offset, xs, k);
      }
    }
  }

  /** With the default offset the windows start at every index:
      `n - window + 1` of them. */
  lemma DefaultOffsetWindows<A>(window: nat, xs: seq<A>)
    requires window >= 1 && |xs| >= window
    ensures |SlidingWindow(window, DefaultOffset, xs)| == |xs| - window + 1
    ensures forall k :: 0 <= k <= |xs| - window ==>
      SlidingWindow(window, DefaultOffset, xs)[k] == xs[k .. k + window]
  {
    WindowCount(window, DefaultOffset, xs);
    forall k | 0 <= k <= |xs| - window
      ensures SlidingWindow(window, DefaultOffset, xs)[k] == xs[k .. k + window]
    {
      WindowAt(window, DefaultOffset, xs, k);
    }
  }
}
