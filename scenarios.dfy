/**
 Clients of `RingBuffer` that use nothing but its contracts: the worked
 example of the buffer's behaviour and the boundary cases around the wrap.
 */
module Scenarios {
  import opened Windows
  import opened RingBuffers

  /** Capacity 4, one channel (a row is a single sample): three rows fit
      without wrapping; two more wrap and evict the oldest row; five rows at
      once keep only their last four. */
  method WorkedExample() returns (first: seq<int>, second: seq<int>, third: seq<int>, fullAfterFirst: bool, fullAfterSecond: bool)
    ensures first == [1, 2, 3] && !fullAfterFirst
    ensures second == [2, 3, 4, 5] && fullAfterSecond
    ensures third == [7, 8, 9, 10]
  {
    var rb := new RingBuffer<int>(4);
    rb.Append([1, 2, 3]);
    first := rb.Get();
    fullAfterFirst := rb.full;
    rb.Append([4, 5]);
    second := rb.Get();
    fullAfterSecond := rb.full;
    assert rb.history == [1, 2, 3, 4, 5];
    rb.Append([6, 7, 8, 9, 10]);
    third := rb.Get();
    assert rb.history == [1, 2, 3, 4, 5, 6, 7, 8, 9, 10];
  }

  /** Filling a buffer of capacity `n` exactly, in two appends of `k` and
      `n - k` rows: the second append lands exactly on the physical end, so
      it takes the wrap branch, which sets `full` and puts the cursor back at
      0; the read-out is still every row in order. */
  method ExactFillInTwoSteps<T(0)>(rows: seq<T>, k: nat) returns (r: seq<T>, isFull: bool, cursor: nat)
    requires 1 <= k < |rows|
    ensures r == rows
    ensures isFull && cursor == 0
  {
    var rb := new RingBuffer<T>(|rows|);
    rb.Append(rows[..k]);
    rb.Append(rows[k..]);
    assert rb.history == rows;
    r := rb.Get();
    isFull, cursor := rb.full, rb.idx;
  }

  /** Appending `c` rows to an empty buffer of capacity `c`, then one row
      `x`: the oldest row is dropped and `x` is last. */
  method OverwriteOldestRow<T(0)>(rows: seq<T>, x: T) returns (r: seq<T>)
    requires 1 <= |rows|
    ensures r == rows[1..] + [x]
  {
    var rb := new RingBuffer<T>(|rows|);
    rb.Append(rows);
    rb.Append([x]);
    r := rb.Get();
    OverwriteOldest(rows, x, |rows|);
  }

  /** One append of `a + b` against an append of `a` followed by one of `b`:
      both buffers read back the same rows and agree on `full`, although
      their cursors may differ (capacity 4, `a = [1, 2]`, `b = [3, 4, 5]`
      leaves the cursor at 0 in one and at 1 in the other). */
  method SplitAppendAgrees<T(0)>(capacity: nat, a: seq<T>, b: seq<T>) returns (one: seq<T>, two: seq<T>, fullOne: bool, fullTwo: bool)
    requires 1 <= capacity
    ensures one == two && fullOne == fullTwo
    ensures one == Window(a + b, capacity)
  {
    var x := new RingBuffer<T>(capacity);
    x.Append(a + b);
    one := x.Get();
    var y := new RingBuffer<T>(capacity);
    y.Append(a);
    y.Append(b);
    assert y.history == a + b;
    two := y.Get();
    fullOne, fullTwo := x.full, y.full;
  }

  /** Appending at most `capacity` rows to an empty buffer reads them back
      unchanged and in order. */
  method FillPreservesOrder<T(0)>(capacity: nat, rows: seq<T>) returns (r: seq<T>)
    requires 1 <= capacity && |rows| <= capacity
    ensures r == rows
  {
    var rb := new RingBuffer<T>(capacity);
    rb.Append(rows);
    r := rb.Get();
  }
}
