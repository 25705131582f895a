/**
 The abstract meaning of a ring buffer of capacity `c`: of everything ever
 appended, it retains the last `min(total, c)` rows, oldest first. The same
 "keep the last `c` rows" cut is what `RingBuffer.append` applies to an
 oversized input chunk before writing it (wyrm/ringbuffer.py:53-54).
 */
module Windows {

  function Min(a: nat, b: nat): nat {
    if a <= b then a else b
  }

  /** What a buffer of capacity `c` retains after seeing `h`: the oldest row
      is dropped until at most `c` remain. */
  function Window<T>(h: seq<T>, c: nat): (w: seq<T>)
    ensures |w| == Min(|h|, c)
    decreases |h|
  {
    if |h| <= c then h else Window(h[1..], c)
  }

  /** The window is the suffix of the history that starts `min(|h|, c)`
      rows before its end: the slice `h[-c:]` of the source. */
  lemma {:induction false} WindowIsSuffix<T>(h: seq<T>, c: nat)
    ensures Window(h, c) == h[|h| - Min(|h|, c)..]
    decreases |h|
  {
    if |h| > c {
      WindowIsSuffix(h[1..], c);
      assert h[1..][|h| - 1 - c..] == h[|h| - c..];
    }
  }

  /** Appending a chunk that fits: the window keeps what it had room for,
      then the whole chunk. */
  lemma {:induction false} WindowOfConcat<T>(a: seq<T>, b: seq<T>, c: nat)
    requires |b| <= c
    ensures Window(a + b, c) == Window(a, c - |b|) + b
  {
    WindowIsSuffix(a + b, c);
    WindowIsSuffix(a, c - |b|);
    var k := |a| - Min(|a|, c - |b|);
    assert (a + b)[k..] == a[k..] + b;
  }

  /** A chunk at least as long as the window pushes out all earlier rows. */
  lemma {:induction false} WindowOfLongChunk<T>(a: seq<T>, b: seq<T>, c: nat)
    requires |b| >= c
    ensures Window(a + b, c) == Window(b, c)
  {
    WindowIsSuffix(a + b, c);
    WindowIsSuffix(b, c);
    assert (a + b)[|a| + |b| - c..] == b[|b| - c..];
  }

  /** Shrinking a window is the same as taking the smaller window directly. */
  lemma {:induction false} WindowOfWindow<T>(h: seq<T>, c: nat, k: nat)
    requires k <= c
    ensures Window(Window(h, c), k) == Window(h, k)
  {
    var w := Window(h, c);
    WindowIsSuffix(h, c);
    WindowIsSuffix(w, k);
    WindowIsSuffix(h, k);
    assert w[|w| - Min(|w|, k)..] == h[|h| - Min(|h|, k)..];
  }

  /** Truncating an oversized chunk to its last `c` rows loses nothing the
      window would have kept: earlier INPUT rows are discarded, never
      retained rows that a shorter chunk would have kept. */
  lemma {:induction false} OversizedAppend<T>(h: seq<T>, rows: seq<T>, c: nat)
    ensures Window(h + rows, c) == Window(h + Window(rows, c), c)
  {
    if |rows| > c {
      WindowOfLongChunk(h, rows, c);
      WindowOfLongChunk(h, Window(rows, c), c);
      WindowOfWindow(rows, c, c);
    }
  }

  /** The window alone determines every future window: a buffer that keeps
      only its last `c` rows answers exactly as one that keeps everything.
      It also makes one append of `a + b` equal to an append of `a` followed
      by an append of `b`. */
  lemma {:induction false} ContinueFromWindow<T>(h: seq<T>, rows: seq<T>, c: nat)
    ensures Window(Window(h, c) + rows, c) == Window(h + rows, c)
  {
    if |rows| >= c {
      WindowOfLongChunk(Window(h, c), rows, c);
      WindowOfLongChunk(h, rows, c);
    } else {
      WindowOfConcat(Window(h, c), rows, c);
      WindowOfConcat(h, rows, c);
      WindowOfWindow(h, c, c - |rows|);
    }
  }

  /** Once exactly `c` rows are retained, one more row evicts the oldest and
      lands at the end. */
  lemma {:induction false} OverwriteOldest<T>(rows: seq<T>, x: T, c: nat)
    requires 1 <= c && |rows| == c
    ensures Window(rows + [x], c) == rows[1..] + [x]
  {
    WindowOfConcat(rows, [x], c);
    WindowIsSuffix(rows, c - 1);
  }
}
