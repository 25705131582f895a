/**
 The circular buffer of wyrm/ringbuffer.py: a fixed store of `capacity` rows,
 a write cursor `idx` and a flag `full`. Rows are opaque values of type `T`
 (a row of `channels` samples in the source).
 */
module RingBuffers {
  import opened Windows

  /** NumPy slice assignment `a[lo:lo+|src|] = src`: rows are copied one by
      one and every row outside the slice keeps its value. */
  method WriteSlice<T>(a: array<T>, lo: nat, src: seq<T>)
    requires lo + |src| <= a.Length
    modifies a
    ensures a[..] == old(a[..])[..lo] + src + old(a[..])[lo + |src|..]
  {
    var k := 0;
    while k < |src|
      invariant 0 <= k <= |src|
      invariant forall j :: 0 <= j < lo ==> a[j] == old(a[j])
      invariant forall j :: 0 <= j < k ==> a[lo + j] == src[j]
      invariant forall j :: lo + k <= j < a.Length ==> a[j] == old(a[j])
    {
      a[lo + k] := src[k];
      k := k + 1;
    }
    assert a[..] == old(a[..])[..lo] + src + old(a[..])[lo + |src|..] by {
      forall j | 0 <= j < a.Length
        ensures a[j] == (old(a[..])[..lo] + src + old(a[..])[lo + |src|..])[j]
      {
        if lo <= j < lo + |src| {
          assert a[lo + (j - lo)] == src[j - lo];
        }
      }
    }
  }

  /** The abstraction relation between a store `d` with cursor `i` and fill
      flag `full`, and the history `h` of appended rows: before the first
      wrap the rows `[0, i)` are the whole history; afterwards reading from
      `i` round to `i - 1` gives the last `c` rows appended. */
  ghost predicate Represents<T>(d: seq<T>, i: nat, full: bool, h: seq<T>, c: nat) {
    && |d| == c
    && i < c
    && full == (|h| >= c)
    && (if full then d[i..] + d[..i] == Window(h, c) else d[..i] == h)
  }

  /** How the retained rows change on a non-empty append: those the chunk
      (cut to its last `c` rows) does not push out, then the chunk. */
  lemma {:induction false} AppendedWindow<T>(h: seq<T>, rows: seq<T>, c: nat)
    ensures Window(h + rows, c) == Window(Window(h, c), c - |Window(rows, c)|) + Window(rows, c)
  {
    var s := Window(rows, c);
    OversizedAppend(h, rows, c);
    WindowOfConcat(h, s, c);
    WindowOfWindow(h, c, c - |s|);
  }

  /** What survives a non-wrapping append of `n` rows: in a full store the
      rows from `i + n` round to `i - 1`, otherwise every valid row. */
  lemma {:induction false} SurvivorsWithin<T>(d: seq<T>, i: nat, full: bool, h: seq<T>, c: nat, n: nat)
    requires Represents(d, i, full, h, c)
    requires i + n < c
    ensures Window(Window(h, c), c - n) == if full then d[i + n..] + d[..i] else d[..i]
  {
    if full {
      var v := d[i..] + d[..i];
      WindowIsSuffix(v, c - n);
      assert v[n..] == d[i + n..] + d[..i];
    }
  }

  /** What survives a wrapping append of `n` rows: whatever the fill state,
      the rows `[l2, i)` with `l2 = n - (c - i)`. */
  lemma {:induction false} SurvivorsAcrossEnd<T>(d: seq<T>, i: nat, full: bool, h: seq<T>, c: nat, n: nat)
    requires Represents(d, i, full, h, c)
    requires c <= i + n <= i + c
    ensures Window(Window(h, c), c - n) == d[n - (c - i)..i]
  {
    WindowIsSuffix(Window(h, c), c - n);
    if full {
      var v := d[i..] + d[..i];
      assert v[n..] == d[n - (c - i)..i];
    }
  }

  /** The no-wrap branch (`i + n < c`): writing the chunk at `[i, i + n)` and
      advancing the cursor by `n` keeps the store representing the history
      extended by the chunk; the fill flag is untouched. */
  lemma {:induction false} PlaceWithin<T>(d: seq<T>, i: nat, full: bool, h: seq<T>, rows: seq<T>, c: nat)
    requires Represents(d, i, full, h, c)
    requires 0 < |rows| && i + |rows| < c
    ensures Represents(d[..i] + rows + d[i + |rows|..], i + |rows|, full, h + rows, c)
  {
    if full {
      PlaceWithinFull(d, i, h, rows, c);
    } else {
      var e := d[..i] + rows + d[i + |rows|..];
      assert e[..i + |rows|] == d[..i] + rows;
    }
  }

  /** `PlaceWithin` for a store that has already wrapped: the rows read from
      the new cursor round are the survivors, then the chunk. */
  lemma {:induction false} PlaceWithinFull<T>(d: seq<T>, i: nat, h: seq<T>, rows: seq<T>, c: nat)
    requires Represents(d, i, true, h, c)
    requires 0 < |rows| && i + |rows| < c
    ensures var e := d[..i] + rows + d[i + |rows|..];
      e[i + |rows|..] + e[..i + |rows|] == Window(h + rows, c)
  {
    var n := |rows|;
    var e := d[..i] + rows + d[i + n..];
    AppendedWindow(h, rows, c);
    SurvivorsWithin(d, i, true, h, c, n);
    assert Window(rows, c) == rows;
    assert e[i + n..] == d[i + n..];
    assert e[..i + n] == d[..i] + rows;
    assert d[i + n..] + d[..i] + rows == d[i + n..] + (d[..i] + rows);
  }

  /** Reading the store from `l2` round after the wrap writes gives the old
      rows `[l2, i)`, then the whole chunk. */
  lemma {:induction false} WrapReadOut<T>(d: seq<T>, i: nat, s: seq<T>)
    requires i < |d| <= i + |s| && |s| <= |d|
    ensures var l1 := |d| - i;
      var l2 := |s| - l1;
      var e := s[l1..] + d[l2..i] + s[..l1];
      e[l2..] + e[..l2] == d[l2..i] + s
  {
    var l1 := |d| - i;
    var l2 := |s| - l1;
    var e := s[l1..] + d[l2..i] + s[..l1];
    assert e[l2..] == d[l2..i] + s[..l1];
    assert e[..l2] == s[l1..];
    assert s[..l1] + s[l1..] == s;
  }

  /** The wrap branch (`i + n >= c`, an exact fill included): with `s` the
      last `c` rows of the input, `l1 = c - i` and `l2 = n - l1`, the first
      `l1` rows of `s` at `[i, c)` and the rest at `[0, l2)` make a full
      store, with cursor `l2`, of the history extended by the input. */
  lemma {:induction false} PlaceAcrossEnd<T>(d: seq<T>, i: nat, full: bool, h: seq<T>, rows: seq<T>, c: nat, s: seq<T>, e: seq<T>)
    requires Represents(d, i, full, h, c)
    requires s == Window(rows, c) && c <= i + |s|
    requires e == s[c - i..] + d[|s| - (c - i)..i] + s[..c - i]
    ensures Represents(e, |s| - (c - i), true, h + rows, c)
  {
    WrapReadOut(d, i, s);
    AppendedWindow(h, rows, c);
    SurvivorsAcrossEnd(d, i, full, h, c, |s|);
  }

  /** The two slice writes of the wrap branch, one after the other: the
      first `l1 = a.Length - i` rows of `s` to `a[-l1:]`, which is
      `[i, a.Length)`, then the remaining `l2 = |s| - l1` rows to `a[:l2]`. */
  method WrapWrite<T>(a: array<T>, i: nat, s: seq<T>)
    requires i < a.Length <= i + |s| && |s| <= a.Length
    modifies a
    ensures a[..] == s[a.Length - i..] + old(a[..])[|s| - (a.Length - i)..i] + s[..a.Length - i]
  {
    ghost var d := a[..];
    var l1 := a.Length - i;
    var l2 := |s| - l1;
    WriteSlice(a, a.Length - l1, s[..l1]);
    ghost var e1 := a[..];
    assert e1 == d[..i] + s[..l1];
    WriteSlice(a, 0, s[l1..]);
    assert e1[l2..] == d[l2..i] + s[..l1];
  }

  class RingBuffer<T(0)> {
    /** `shape[0]`: the number of rows the buffer retains. */
    const capacity: nat
    /** The store, allocated once and never resized. */
    const data: array<T>
    /** The row where the next write begins. */
    var idx: nat
    /** Set once the store has wrapped; never cleared. */
    var full: bool
    /** Every row ever passed to `Append`, in order (including the rows an
        oversized append drops). */
    ghost var history: seq<T>

    /** The object invariant: the store represents the history. */
    ghost predicate Valid()
      reads this, data
    {
      1 <= capacity && Represents(data[..], idx, full, history, capacity)
    }

    constructor (capacity: nat)
      requires 1 <= capacity
      ensures Valid() && fresh(data)
      ensures this.capacity == capacity && data.Length == capacity
      ensures idx == 0 && !full && history == []
    {
      this.capacity := capacity;
      data := new T[capacity];
      idx := 0;
      full := false;
      history := [];
    }

    /** Appends `rows`, overwriting the oldest rows once the store wraps. */
    method Append(rows: seq<T>)
      requires Valid()
      modifies this, data
      ensures Valid()
      ensures history == old(history) + rows
      ensures old(full) ==> full
      // an empty chunk changes nothing
      ensures rows == [] ==> idx == old(idx) && full == old(full) && data[..] == old(data[..])
      // no wrap: the (short) chunk lands at [idx, idx + n) and the cursor advances
      ensures rows != [] && old(idx) + |rows| < capacity ==>
        && idx == old(idx) + |rows|
        && full == old(full)
        && data[..] == old(data[..])[..old(idx)] + rows + old(data[..])[idx..]
      // wrap (an exact fill included): of the last `capacity` rows, the first
      // `capacity - idx` go to the physical end, the rest to the start
      ensures old(idx) + |rows| >= capacity ==>
        var s := Window(rows, capacity);
        var l1 := capacity - old(idx);
        && full
        && idx == |s| - l1
        && data[..] == s[l1..] + old(data[..])[idx..old(idx)] + s[..l1]
    {
      var chunk := rows;
      if |chunk| > capacity {
        chunk := chunk[|chunk| - capacity..];
      }
      WindowIsSuffix(rows, capacity);
      if |chunk| == 0 {
        return;
      }
      if idx + |chunk| < capacity {
        WriteWithin(chunk);
      } else {
        WriteAcrossEnd(rows, chunk);
      }
    }

    /** The no-wrap branch of `Append`: the chunk lands at `[idx, idx + n)`. */
    method WriteWithin(chunk: seq<T>)
      requires Valid()
      requires 0 < |chunk| && idx + |chunk| < capacity
      modifies this, data
      ensures Valid()
      ensures history == old(history) + chunk
      ensures idx == old(idx) + |chunk| && full == old(full)
      ensures data[..] == old(data[..])[..old(idx)] + chunk + old(data[..])[old(idx) + |chunk|..]
    {
      PlaceWithin(data[..], idx, full, history, chunk, capacity);
      WriteSlice(data, idx, chunk);
      idx := idx + |chunk|;
      history := history + chunk;
    }

    /** The wrap branch of `Append`, taken also on an exact fill: `full` is
        set, the first `l1 = capacity - idx` rows of the (already cut) chunk
        go to the physical end and the remaining `l2` rows to the start. */
    method WriteAcrossEnd(ghost rows: seq<T>, chunk: seq<T>)
      requires Valid()
      requires chunk == Window(rows, capacity) && capacity <= idx + |chunk|
      modifies this, data
      ensures Valid()
      ensures history == old(history) + rows
      ensures full && idx == |chunk| - (capacity - old(idx))
      ensures data[..] == chunk[data.Length - old(idx)..] + old(data[..])[|chunk| - (data.Length - old(idx))..old(idx)] + chunk[..data.Length - old(idx)]
    {
      ghost var d := data[..];
      var l1 := capacity - idx;
      var l2 := |chunk| - l1;
      WrapWrite(data, idx, chunk);
      PlaceAcrossEnd(d, idx, full, history, rows, capacity, chunk, data[..]);
      // the source sets `full` before the writes; the final state is the same
      full, idx := true, l2;
      history := history + rows;
    }

    /** Returns the retained rows, oldest first, as a new sequence. */
    method Get() returns (r: seq<T>)
      requires Valid()
      ensures r == Window(history, capacity)
      ensures |r| == (if full then capacity else idx) && |r| <= capacity
    {
      if full {
        r := data[idx..] + data[..idx];
      } else {
        r := data[..idx];
      }
    }
  }
}
