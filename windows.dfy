/**
 * The sliding-window arithmetic shared by the character-wise chunker and both
 * branches of the token-wise chunker: windows of at most `maxLen` units, the
 * next window starting at `max(end - overlap, end - maxLen + 1)`.
 */
module Windows {

  /** The half-open index range `[lo, hi)` of one window. */
  datatype Span = Span(lo: nat, hi: nat)

  function Min(a: int, b: int): int {
    if a <= b then a else b
  }

  function Max(a: int, b: int): int {
    if a >= b then a else b
  }

  /** How many units two consecutive windows share: the overlap, capped below the window size. */
  function Shared(maxLen: nat, overlap: nat): nat
    requires 0 < maxLen
  {
    Min(overlap, maxLen - 1)
  }

  /** How far consecutive window starts lie apart. */
  function Stride(maxLen: nat, overlap: nat): (d: nat)
    requires 0 < maxLen
    ensures 1 <= d <= maxLen
  {
    maxLen - Shared(maxLen, overlap)
  }

  /**
   * The start after a full window ending at `end`: back off by the overlap, but
   * never to or before the previous start.
   */
  function NextStart(end: nat, maxLen: nat, overlap: nat): (s: nat)
    requires 0 < maxLen <= end
    ensures end - maxLen < s <= end
    ensures end - s == Shared(maxLen, overlap)
  {
    Max(end - overlap, end - maxLen + 1)
  }

  /** The windows the loop visits over `n` units once `start` has been reached. */
  function SpansFrom(n: nat, maxLen: nat, overlap: nat, start: nat): (r: seq<Span>)
    requires 0 < maxLen && start <= n
    ensures (r == []) == (start == n)
    ensures r != [] ==> r[0] == Span(start, Min(start + maxLen, n)) && r[|r| - 1].hi == n
    decreases n - start
  {
    if start == n then []
    else
      var end := Min(start + maxLen, n);
      if end == n then [Span(start, end)]
      else [Span(start, end)] + SpansFrom(n, maxLen, overlap, NextStart(end, maxLen, overlap))
  }

  /** The windows over `n` units, starting at index 0. */
  function AllSpans(n: nat, maxLen: nat, overlap: nat): seq<Span>
    requires 0 < maxLen
  {
    SpansFrom(n, maxLen, overlap, 0)
  }

  /**
   * Every window is a non-empty range inside the input that ends `maxLen` units
   * after its start or at the end of the input, whichever comes first.
   */
  lemma {:induction false} SpanBounds(n: nat, maxLen: nat, overlap: nat, start: nat, k: nat)
    requires 0 < maxLen && start <= n && k < |SpansFrom(n, maxLen, overlap, start)|
    ensures var r := SpansFrom(n, maxLen, overlap, start);
      && start <= r[k].lo < r[k].hi <= n && r[k].hi - r[k].lo <= maxLen
      && r[k].hi == Min(r[k].lo + maxLen, n)
    decreases n - start
  {
    if k > 0 {
      var end := Min(start + maxLen, n);
      SpanBounds(n, maxLen, overlap, NextStart(end, maxLen, overlap), k - 1);
    }
  }

  lemma WindowsInBounds(n: nat, maxLen: nat, overlap: nat)
    requires 0 < maxLen
    ensures var w := AllSpans(n, maxLen, overlap);
      forall k :: 0 <= k < |w| ==> w[k].lo < w[k].hi <= n && w[k].hi - w[k].lo <= maxLen
  {
    forall k | 0 <= k < |AllSpans(n, maxLen, overlap)| {
      SpanBounds(n, maxLen, overlap, 0, k);
    }
  }

  /** Python's `units[sp.lo:sp.hi]` for a span inside the input. */
  function Slice<T>(units: seq<T>, sp: Span): seq<T> {
    if sp.lo <= sp.hi <= |units| then units[sp.lo..sp.hi] else []
  }

  /** The units each span selects. */
  function Pieces<T>(units: seq<T>, spans: seq<Span>): (ps: seq<seq<T>>)
    ensures |ps| == |spans|
  {
    seq(|spans|, k requires 0 <= k < |spans| => Slice(units, spans[k]))
  }

  /** The window contents the chunkers render: `units[start:end]` for every window. */
  function Windowed<T>(units: seq<T>, maxLen: nat, overlap: nat): (ws: seq<seq<T>>)
    requires 0 < maxLen
    ensures |ws| == |AllSpans(|units|, maxLen, overlap)|
  {
    Pieces(units, AllSpans(|units|, maxLen, overlap))
  }

  /** Window `k`'s contents are the units it spans. */
  lemma WindowedAt<T>(units: seq<T>, maxLen: nat, overlap: nat, k: nat)
    requires 0 < maxLen && k < |AllSpans(|units|, maxLen, overlap)|
    ensures var w := AllSpans(|units|, maxLen, overlap);
      && |Windowed(units, maxLen, overlap)| == |w|
      && w[k].lo < w[k].hi <= |units| && w[k].hi - w[k].lo <= maxLen
      && Windowed(units, maxLen, overlap)[k] == units[w[k].lo..w[k].hi]
  {
    SpanBounds(|units|, maxLen, overlap, 0, k);
  }

  /** The first window followed by each later window less the units it shares with its predecessor. */
  function Reassemble<T>(chunks: seq<seq<T>>, shared: nat): seq<T> {
    if chunks == [] then [] else chunks[0] + Tails(chunks[1..], shared)
  }

  function Tails<T>(chunks: seq<seq<T>>, shared: nat): seq<T> {
    if chunks == [] then [] else DropFirst(chunks[0], shared) + Tails(chunks[1..], shared)
  }

  /** Python's `c[d:]`. */
  function DropFirst<T>(c: seq<T>, d: nat): seq<T> {
    if d <= |c| then c[d..] else []
  }

  // ---------------------------------------------------------------- the loop

  /**
   * The loop of the chunkers: walk the windows, render each one and stop after the
   * window that reaches the end.
   */
  method ChunkByWindows<T, R>(units: seq<T>, maxLen: nat, overlap: nat, render: seq<T> -> R)
    returns (chunks: seq<R>)
    requires 0 < maxLen
    ensures |chunks| == |Windowed(units, maxLen, overlap)|
    ensures forall k :: 0 <= k < |chunks| ==> chunks[k] == render(Windowed(units, maxLen, overlap)[k])
  {
    ghost var all := AllSpans(|units|, maxLen, overlap);
    ghost var pieces := Windowed(units, maxLen, overlap);
    chunks := [];
    var start := 0;
    var n := |units|;
    while start < n
      invariant start <= n && |chunks| <= |all|
      invariant all[|chunks|..] == SpansFrom(n, maxLen, overlap, start)
      invariant forall k :: 0 <= k < |chunks| ==> chunks[k] == render(pieces[k])
      decreases n - start
    {
      ghost var rest := all[|chunks|..];
      var end := Min(start + maxLen, n);
      SpansStep(n, maxLen, overlap, start);
      assert all[|chunks|] == Span(start, end);
      WindowedAt(units, maxLen, overlap, |chunks|);
      chunks := chunks + [render(units[start..end])];
      if end == n {
        break;
      }
      start := NextStart(end, maxLen, overlap);
      assert all[|chunks|..] == rest[1..];
    }
  }

  /** One turn of the loop: the window at `start`, and what is left after it. */
  lemma SpansStep(n: nat, maxLen: nat, overlap: nat, start: nat)
    requires 0 < maxLen && start < n
    ensures var r := SpansFrom(n, maxLen, overlap, start); var end := Min(start + maxLen, n);
      && r[0] == Span(start, end)
      && (end == n ==> |r| == 1)
      && (end < n ==> r[1..] == SpansFrom(n, maxLen, overlap, NextStart(end, maxLen, overlap)))
  {
  }

  // ---------------------------------------------------------------- properties

  /**
   * Two consecutive windows: the earlier one is full and stops short of the end,
   * and the later one starts where the loop's update puts it.
   */
  lemma {:induction false} ConsecutiveSpans(n: nat, maxLen: nat, overlap: nat, start: nat, k: nat)
    requires 0 < maxLen && start <= n
    requires k + 1 < |SpansFrom(n, maxLen, overlap, start)|
    ensures var r := SpansFrom(n, maxLen, overlap, start);
      r[k].hi == r[k].lo + maxLen < n && r[k + 1].lo == NextStart(r[k].hi, maxLen, overlap)
    decreases n - start
  {
    var end := Min(start + maxLen, n);
    if k > 0 {
      ConsecutiveSpans(n, maxLen, overlap, NextStart(end, maxLen, overlap), k - 1);
    }
  }

  /**
   * Progress and overlap: each start lies strictly after the previous one and no
   * later than the previous end, every window but the last holds exactly `maxLen`
   * units, and consecutive windows share exactly `min(overlap, maxLen - 1)` units.
   */
  lemma WindowsAdvance(n: nat, maxLen: nat, overlap: nat, k: nat)
    requires 0 < maxLen && k + 1 < |AllSpans(n, maxLen, overlap)|
    ensures var w := AllSpans(n, maxLen, overlap);
      && w[k].lo < w[k + 1].lo <= w[k].hi < w[k + 1].hi
      && w[k].hi - w[k].lo == maxLen
      && w[k].hi - w[k + 1].lo == Shared(maxLen, overlap)
  {
    ConsecutiveSpans(n, maxLen, overlap, 0, k);
    if k + 2 < |AllSpans(n, maxLen, overlap)| {
      ConsecutiveSpans(n, maxLen, overlap, 0, k + 1);
    }
  }

  /** Empty input has no windows; otherwise the last window ends at the end of the input. */
  lemma WindowsCover(n: nat, maxLen: nat, overlap: nat)
    requires 0 < maxLen
    ensures var w := AllSpans(n, maxLen, overlap);
      && (w == [] <==> n == 0)
      && (w != [] ==> w[0].lo == 0 && w[|w| - 1].hi == n)
  {
  }

  /** Closed form: window `k` is `[k * stride, min(k * stride + maxLen, n))`. */
  lemma {:induction false} WindowAt(n: nat, maxLen: nat, overlap: nat, k: nat)
    requires 0 < maxLen && k < |AllSpans(n, maxLen, overlap)|
    ensures var lo := k * Stride(maxLen, overlap);
      AllSpans(n, maxLen, overlap)[k] == Span(lo, Min(lo + maxLen, n))
  {
    var w := AllSpans(n, maxLen, overlap);
    var d := Stride(maxLen, overlap);
    if k > 0 {
      WindowAt(n, maxLen, overlap, k - 1);
      ConsecutiveSpans(n, maxLen, overlap, 0, k - 1);
      assert w[k].lo == (k - 1) * d + d;
      assert (k - 1) * d + d == k * d;
    }
    SpanBounds(n, maxLen, overlap, 0, k);
  }

  /**
   * The number of windows: the last one is the first whose start plus `maxLen`
   * reaches `n`, so there are `1 + ceil((n - maxLen) / stride)` of them when
   * `n > maxLen`.
   */
  lemma WindowCount(n: nat, maxLen: nat, overlap: nat)
    requires 0 < maxLen < n
    ensures var c := |AllSpans(n, maxLen, overlap)|; var d := Stride(maxLen, overlap);
      && c >= 2
      && (c - 1) * d + maxLen >= n
      && (c - 2) * d + maxLen < n
  {
    var w := AllSpans(n, maxLen, overlap);
    var c := |w|;
    var d := Stride(maxLen, overlap);
    WindowsCover(n, maxLen, overlap);
    assert c >= 2 by {
      if c == 1 {
        assert w[0] == Span(0, Min(maxLen, n));
      }
    }
    WindowAt(n, maxLen, overlap, c - 1);
    WindowAt(n, maxLen, overlap, c - 2);
    ConsecutiveSpans(n, maxLen, overlap, 0, c - 2);
  }

  // ---------------------------------------------------------------- window contents

  /** The contents of each window, as the chunkers see them. */
  lemma WindowedShape<T>(units: seq<T>, maxLen: nat, overlap: nat)
    requires 0 < maxLen
    ensures var ws := Windowed(units, maxLen, overlap);
      && (ws == [] <==> units == [])
      && (forall k :: 0 <= k < |ws| ==> 0 < |ws[k]| <= maxLen)
      && (forall k :: 0 <= k < |ws| - 1 ==> |ws[k]| == maxLen)
      && (ws != [] ==> ws[0] == units[..|ws[0]|] && ws[|ws| - 1] == units[|units| - |ws[|ws| - 1]|..])
  {
    var ws := Windowed(units, maxLen, overlap);
    var w := AllSpans(|units|, maxLen, overlap);
    WindowsCover(|units|, maxLen, overlap);
    forall k | 0 <= k < |ws| ensures 0 < |ws[k]| <= maxLen {
      WindowedAt(units, maxLen, overlap, k);
    }
    forall k | 0 <= k < |ws| - 1 ensures |ws[k]| == maxLen {
      WindowedAt(units, maxLen, overlap, k);
      WindowsAdvance(|units|, maxLen, overlap, k);
    }
    if ws != [] {
      WindowedAt(units, maxLen, overlap, 0);
      WindowedAt(units, maxLen, overlap, |ws| - 1);
    }
  }

  /**
   * Consecutive chunks overlap: the last `min(overlap, maxLen - 1)` units of a
   * chunk are the first units of the next one.
   */
  lemma WindowedOverlap<T>(units: seq<T>, maxLen: nat, overlap: nat, k: nat)
    requires 0 < maxLen && k + 1 < |Windowed(units, maxLen, overlap)|
    ensures var ws := Windowed(units, maxLen, overlap); var m := Shared(maxLen, overlap);
      m < |ws[k]| && m <= |ws[k + 1]| && ws[k][|ws[k]| - m..] == ws[k + 1][..m]
  {
    var w := AllSpans(|units|, maxLen, overlap);
    WindowedAt(units, maxLen, overlap, k);
    WindowedAt(units, maxLen, overlap, k + 1);
    WindowsAdvance(|units|, maxLen, overlap, k);
  }

  /** The last `m` units of `a` are the first `m` units of `b`. */
  predicate Shares<T(==)>(a: seq<T>, b: seq<T>, m: nat) {
    m <= |a| && m <= |b| && a[|a| - m..] == b[..m]
  }

  /** Consecutive chunks share `m` units, and no chunk but the last is shorter than `m + 1`. */
  predicate Overlapping<T(==)>(cs: seq<seq<T>>, m: nat) {
    forall k :: 0 <= k < |cs| - 1 ==> m < |cs[k]| && Shares(cs[k], cs[k + 1], m)
  }

  lemma WindowedOverlapping<T>(units: seq<T>, maxLen: nat, overlap: nat)
    requires 0 < maxLen
    ensures Overlapping(Windowed(units, maxLen, overlap), Shared(maxLen, overlap))
  {
    var ws := Windowed(units, maxLen, overlap);
    var m := Shared(maxLen, overlap);
    forall k | 0 <= k < |ws| - 1 ensures m < |ws[k]| && Shares(ws[k], ws[k + 1], m) {
      WindowedOverlap(units, maxLen, overlap, k);
    }
  }

  /**
   * From a start the loop reached by backing off `m` units, the later windows minus
   * their first `m` units continue the input exactly where the previous window ended.
   */
  lemma {:induction false} TailsFrom<T>(units: seq<T>, maxLen: nat, overlap: nat, start: nat)
    requires 0 < maxLen && start + Shared(maxLen, overlap) < |units|
    ensures Tails(Pieces(units, SpansFrom(|units|, maxLen, overlap, start)), Shared(maxLen, overlap))
      == units[start + Shared(maxLen, overlap)..]
    decreases |units| - start
  {
    var n := |units|;
    var m := Shared(maxLen, overlap);
    var p := Pieces(units, SpansFrom(n, maxLen, overlap, start));
    var end := Min(start + maxLen, n);
    PiecesStep(units, maxLen, overlap, start);
    if end < n {
      TailsFrom(units, maxLen, overlap, NextStart(end, maxLen, overlap));
      SliceJoin(units, start + m, end);
    }
  }

  /** The first window from `start` minus its shared prefix, and the windows after it. */
  lemma PiecesStep<T>(units: seq<T>, maxLen: nat, overlap: nat, start: nat)
    requires 0 < maxLen && start + Shared(maxLen, overlap) < |units|
    ensures var p := Pieces(units, SpansFrom(|units|, maxLen, overlap, start));
      var m := Shared(maxLen, overlap); var end := Min(start + maxLen, |units|);
      && p != []
      && Tails(p, m) == units[start + m..end] + Tails(p[1..], m)
      && (end == |units| ==> p[1..] == [])
      && (end < |units| ==> p[1..] == Pieces(units, SpansFrom(|units|, maxLen, overlap, NextStart(end, maxLen, overlap))))
  {
    var n := |units|;
    var m := Shared(maxLen, overlap);
    var p := Pieces(units, SpansFrom(n, maxLen, overlap, start));
    var end := Min(start + maxLen, n);
    SpansStep(n, maxLen, overlap, start);
    assert DropFirst(p[0], m) == units[start + m..end];
    if end < n {
      assert p[1..] == Pieces(units, SpansFrom(n, maxLen, overlap, NextStart(end, maxLen, overlap)));
    }
  }

  lemma SliceJoin<T>(s: seq<T>, a: nat, b: nat)
    requires a <= b <= |s|
    ensures s[a..b] + s[b..] == s[a..]
  {
  }

  /**
   * Reconstruction: the first chunk followed by every later chunk minus its first
   * `min(overlap, maxLen - 1)` units is the input again.
   */
  lemma WindowedReassembles<T>(units: seq<T>, maxLen: nat, overlap: nat)
    requires 0 < maxLen
    ensures Reassemble(Windowed(units, maxLen, overlap), Shared(maxLen, overlap)) == units
  {
    var n := |units|;
    if n != 0 {
      var p := Windowed(units, maxLen, overlap);
      var end := Min(maxLen, n);
      SpansStep(n, maxLen, overlap, 0);
      assert p[0] == units[..end];
      if end < n {
        var next := NextStart(end, maxLen, overlap);
        assert p[1..] == Pieces(units, SpansFrom(n, maxLen, overlap, next));
        TailsFrom(units, maxLen, overlap, next);
        assert units == units[..end] + units[end..];
      } else {
        assert p[1..] == [];
      }
    }
  }
}
