# wyrm ring buffer, modelled in Dafny

This project models `RingBuffer` from wyrm: a fixed-capacity circular buffer
for multi-channel time-series data. The buffer holds `capacity` rows in one
store allocated at construction. A write cursor `idx` says where the next
row goes, and a flag `full` records that the store has wrapped at least once.

- `append` first cuts an oversized chunk down to its last `capacity` rows.
  An empty chunk changes nothing. A chunk that fits strictly before the
  physical end is copied in place and the cursor advances. Otherwise the
  buffer takes the wrap branch, which also covers an exact fill: it sets
  `full`, writes the first `capacity - idx` rows up to the physical end and
  the rest from the start, and moves the cursor past them.
- `get` reads the retained rows oldest first. When full it reads
  `data[idx:]` then `data[:idx]`; otherwise it reads `data[:idx]`.

Files:

- `window.dfy` (module `Windows`) holds the abstract meaning.
  `Window(h, c)` is the last `min(|h|, c)` rows of the history `h`. Its
  lemmas cover appending a chunk that fits, a chunk at least `c` long, the
  truncation of an oversized chunk, and continuing from the window alone.
- `ringbuffer.dfy` (module `RingBuffers`) holds the class `RingBuffer<T>`.
  It has the array `data`, the cursor `idx`, the flag `full`, and a ghost
  `history` of every row ever appended. `Valid()` relates the store to the
  history through `Represents`. Before the first wrap, `data[..idx]` is the
  history. After it, `data[idx..] + data[..idx]` is `Window(history,
  capacity)`. In both states, `full` holds exactly when at least `capacity`
  rows have been appended. The two branches of `append` are the helper
  methods `WriteWithin` and `WriteAcrossEnd`. NumPy's slice assignment is
  `WriteSlice`.
- `scenarios.dfy` (module `Scenarios`) holds clients that rely only on the
  class contracts: the worked example with capacity 4, an exact fill in two
  appends, overwriting the oldest row, one append against two, and an
  in-order fill.

## Model

| member | source | states |
|---|---|---|
| `RingBuffers.RingBuffer.constructor` | wyrm/ringbuffer.py:31-43 | The store has exactly `capacity` rows and is freshly allocated; `idx == 0`, `full` is false, nothing is retained yet |
| `RingBuffers.RingBuffer.Append` | wyrm/ringbuffer.py:45-66 | Keeps the invariant and extends the history by the input. An empty input changes `idx`, `full` and the store not at all. With `idx + n < capacity`, the rows land at `[idx, idx + n)`, `idx` advances by `n`, `full` is unchanged and every other row is unchanged. Otherwise (an exact fill included) `full` becomes true, the last `capacity` input rows are split at `l1 = capacity - idx` between `[idx, capacity)` and `[0, l2)`, the rows `[l2, idx)` are kept and `idx == l2`. `full` is never reset |
| `RingBuffers.RingBuffer.WriteWithin` | wyrm/ringbuffer.py:57-59 | The no-wrap branch: the chunk occupies `[idx, idx + n)`, every other row and `full` are unchanged, `idx` grows by `n`, and the invariant holds for the extended history |
| `RingBuffers.RingBuffer.WriteAcrossEnd` | wyrm/ringbuffer.py:60-66 | The wrap branch: `full` is set. The chunk's first `capacity - idx` rows go to the physical end and the rest to the start. The new cursor is `n - (capacity - idx)`, and the invariant holds for the extended history |
| `RingBuffers.RingBuffer.Get` | wyrm/ringbuffer.py:68-79 | Returns exactly the last `min(total appended, capacity)` rows ever appended, oldest first; its length is `capacity` when full and `idx` otherwise, so never above `capacity`; it changes nothing |
| `RingBuffers.WriteSlice` | wyrm/ringbuffer.py:58 | Slice assignment `a[lo:lo+n] = src`: the slice becomes `src`, all rows outside it keep their values |
| `RingBuffers.WrapWrite` | wyrm/ringbuffer.py:62-65 | The two writes of the wrap branch. `a[-l1:]`, which is `[i, capacity)`, receives the first `l1 = capacity - i` rows. `a[:l2]` receives the remaining `l2` rows. The rows `[l2, i)` are untouched |
| `RingBuffers.AppendedWindow` | wyrm/ringbuffer.py:53-66 | After any append, the retained rows are those the cut chunk does not push out, followed by the cut chunk |
| `RingBuffers.SurvivorsWithin` | wyrm/ringbuffer.py:57-59 | A non-wrapping append of `n` rows keeps the old rows `[idx + n, capacity)` and `[0, idx)` when full, and all of `[0, idx)` otherwise |
| `RingBuffers.SurvivorsAcrossEnd` | wyrm/ringbuffer.py:60-66 | A wrapping append of `n` rows keeps exactly the old rows `[l2, idx)`, whether the buffer was full or not |
| `RingBuffers.PlaceWithinFull` | wyrm/ringbuffer.py:57-59 | In a store that has already wrapped, a non-wrapping write of `n` rows leaves `[idx + n, capacity)` then `[0, idx + n)` reading exactly the last `capacity` rows of the extended history |
| `RingBuffers.PlaceWithin` | wyrm/ringbuffer.py:57-59 | The no-wrap write with the cursor advanced by `n` still represents the history extended by the chunk, with the same `full` |
| `RingBuffers.WrapReadOut` | wyrm/ringbuffer.py:76-77 | After the wrap writes, reading from `l2` to the end and then from the start gives the surviving rows `[l2, idx)` followed by the whole chunk |
| `RingBuffers.PlaceAcrossEnd` | wyrm/ringbuffer.py:60-66 | The wrap write with cursor `l2` and `full` set represents the history extended by the input, whatever the previous fill state |
| `Windows.Window` | wyrm/ringbuffer.py:53-54 | The retained rows number `min(len, capacity)`: dropping the oldest row until `capacity` remain |
| `Windows.WindowIsSuffix` | wyrm/ringbuffer.py:53-54 | Dropping oldest rows until `c` remain gives exactly the slice `rows[-c:]` the source takes for `c >= 1` (the whole input when it is shorter) |
| `Windows.WindowOfConcat` | wyrm/ringbuffer.py:57-66 | Appending a chunk of at most `c` rows keeps the last `c - n` earlier rows, then the whole chunk |
| `Windows.WindowOfLongChunk` | wyrm/ringbuffer.py:53-54 | A chunk of at least `c` rows leaves only its own last `c` rows retained |
| `Windows.WindowOfWindow` | wyrm/ringbuffer.py:53-66 | Taking the last `k` of the last `c` retained rows (`k <= c`) is taking the last `k` directly |
| `Windows.OversizedAppend` | wyrm/ringbuffer.py:53-54 | Appending an oversized chunk retains the same rows as appending only its last `c` rows: the dropped rows are input rows, never buffered ones |
| `Windows.ContinueFromWindow` | wyrm/ringbuffer.py:45-79 | The retained rows alone determine every later read-out: a buffer that keeps only its last `c` rows answers exactly as one that keeps everything |
| `Windows.OverwriteOldest` | wyrm/ringbuffer.py:60-66 | With exactly `c` rows retained, one more row evicts the oldest and becomes the newest |
| `Scenarios.WorkedExample` | wyrm/ringbuffer.py:45-79 | Capacity 4: `[1,2,3]` reads `[1,2,3]`, not full; then `[4,5]` reads `[2,3,4,5]`, full; then `[6..10]` reads `[7,8,9,10]` |
| `Scenarios.ExactFillInTwoSteps` | wyrm/ringbuffer.py:57-66 | Filling capacity `n` with `k` then `n - k` rows (`1 <= k < n`) takes the wrap branch because the boundary test is strict, ends with `full` set and `idx == 0`, and reads every row in order |
| `Scenarios.OverwriteOldestRow` | wyrm/ringbuffer.py:60-79 | `c` rows then one row `x` read as the last `c - 1` rows followed by `x` |
| `Scenarios.SplitAppendAgrees` | wyrm/ringbuffer.py:45-79 | One append of `a + b` and an append of `a` followed by an append of `b`, to buffers of the same capacity, read back the same rows |
| `Scenarios.FillPreservesOrder` | wyrm/ringbuffer.py:57-79 | At most `capacity` rows appended to an empty buffer read back unchanged and in order |

## Left out

- `profile`, `pretty_print` and `main` (wyrm/ringbuffer.py:82-137) are wall-clock timing, console output and plotting, with no buffer logic. The module constants `FS`, `BUFFER_TIME` and `CHANNELS` (lines 9-11) are used only by them.
- Rows are an opaque type `T`. The channel count (`shape[1]`), the float element type and NumPy broadcasting are not modelled, and neither is a row of the wrong width, which the source does not check.
- The initial store is whatever `new T[capacity]` holds. Nothing is claimed about rows outside the valid region, just as `np.empty` leaves them undefined.
- The source accepts a capacity of zero: construction succeeds, and a later append of two or more rows fails with a broadcast error at line 65 after line 61 has already set `full`. A negative capacity makes `np.empty` raise at line 41. The model requires `capacity >= 1` of the constructor instead of modelling either path.
- The timing bounds in the class docstring (lines 17-28) are performance claims, not behaviour.
- Rows are values, so `Get` returns a fresh sequence that later appends cannot alter; NumPy's view/copy distinction does not arise.
- The branches of `append` are separate methods (`WriteWithin`, `WriteAcrossEnd`) rather than inline code; the behaviour is the same.
