# RingBuffer: a verified model of the plot-point ring buffer

The modelled program is a real-time plotting application. It keeps the most
recent samples of each plotted series in a fixed-capacity circular buffer,
`RingBuffer`. The buffer stores `(x, y)` points (`QPointF`) in a vector of
`capacity` slots. `head` is the next slot to write, `tail` the oldest point
and `count` the number of points retained. When the buffer is full, an
append overwrites the oldest point. The buffer also caches the smallest and
largest retained y value (`yMin`, `yMax`, `minMaxValid`) so that the chart
axes can be scaled without a scan. The cache is updated incrementally on
every append. It falls back to a full rescan only when the evicted point's y
equals one of the extended extremes. `QLineSeriesBuffer` wraps one
`RingBuffer` and forwards its read accessors to it.

The model has three modules:

- `Samples` (samples.dfy) defines points and the reference definitions that
  specify the buffer:
  - `IsLeastY` and `IsGreatestY`: an attained lower or upper bound of the y values.
  - `MinY` and `MaxY`: the naive full scans.
  - `Window`: the clamped index window.
  - Lemmas saying why the incremental cache rule is sound.
- `RingBuffers` (ringbuffer.dfy) defines the class `RingBuffer`:
  - It is a `class` over an `array<Point>`, with the source's fields.
  - The ghost field `Contents` holds the retained points, oldest first.
  - The ghost field `History` holds every point appended since construction
    or the last clear.
  - `ValidStorage()` is the storage invariant, stated through the value-level
    predicate `Layout`. Reading the array circularly from `tail` yields
    `Contents`. `head` is `tail + count` reduced modulo the capacity.
    `Contents` is the newest `min(|History|, capacity)` points of `History`.
  - `Valid()` adds `CacheExact`. The valid flag holds exactly when a point
    is retained. Otherwise the cache holds the two sentinels. When a point is
    retained, `yMin` and `yMax` are the least and greatest retained y values.
- `LineSeries` (lineseries.dfy) defines the class `LineSeriesBuffer` (the
  source's `QLineSeriesBuffer`). Each accessor is proved equal to the wrapped
  buffer's accessor, and its meaning is stated in terms of the buffer's
  `Contents`.

Exceptions become results:
- `std::invalid_argument` becomes `Err(InvalidArgument(message))`.
- `std::out_of_range` becomes `Err(OutOfRange(message))`.
- Both carry the source's message strings.

A constructor cannot fail in Dafny. Each class therefore has a constructor
that requires a positive capacity, plus a static `New` that returns the
error for capacity 0 and otherwise the freshly constructed object.

The sentinels are `std::numeric_limits<double>::max()` and `lowest()`. They
are the constants `DoubleMax`, the exact value of the largest finite double,
and `DoubleLowest`, its negation. Coordinates are mathematical reals. The
y values are only compared, never computed with.

## Model

| member | source | states |
|---|---|---|
| `RingBuffers.RingBuffer.constructor` | ringbuffer.cpp:6-14 | a buffer of positive capacity starts with head, tail and count zero, nothing retained, the cache invalid and at the sentinels (initialisers at ringbuffer.h:42-44), and the invariant established |
| `RingBuffers.RingBuffer.New` | ringbuffer.cpp:9 | construction fails with invalid_argument "Capacity must be greater than 0" exactly when the capacity is 0; otherwise it yields a valid, freshly initialised buffer of that capacity |
| `RingBuffers.RingBuffer.Append` | ringbuffer.cpp:17-43 | not full: the retained points become old + [p] and count grows by one; full: they become old[1..] + [p] (FIFO eviction) and count stays at capacity; History grows by p; the cache stays exact; the rescan runs exactly when a point was evicted, more than one is retained and the evicted y equals the extended minimum or maximum; the first append to an empty buffer sets yMin == yMax == p.y |
| `RingBuffers.RingBuffer.UpdateMinMax` | ringbuffer.cpp:120-147 | given the retained points before the append, the new point and the evicted point (if any), makes the cache exact for the new retained points, and reports whether it fell back to the full rescan |
| `RingBuffers.RingBuffer.RecalculateMinMax` | ringbuffer.cpp:149-167 | on an empty buffer it only clears the valid flag; otherwise its loop leaves yMin and yMax the least and greatest retained y and sets the flag |
| `RingBuffers.RingBuffer.ResetMinMax` | ringbuffer.cpp:169 | on a valid buffer the forced recalculation leaves yMin, yMax and the flag unchanged, so recalculation is idempotent and the incremental cache always agrees with a full rescan |
| `RingBuffers.RingBuffer.Clear` | ringbuffer.cpp:171-179 | the buffer is back in its freshly constructed state: empty, cache invalid, sentinels restored |
| `RingBuffers.RingBuffer.Size` | ringbuffer.cpp:45-48 | the number of retained points, at most the capacity, equal to min(number of appends since the last clear, capacity) |
| `RingBuffers.RingBuffer.IsFull` | ringbuffer.cpp:50-53 | true exactly when the number of retained points equals the capacity |
| `RingBuffers.RingBuffer.At` | ringbuffer.cpp:55-59 | an index at or past the count fails with out_of_range "Index out of range"; otherwise the slot (tail + index) % capacity holds retained point number index, 0 the oldest |
| `RingBuffers.RingBuffer.Front` | ringbuffer.cpp:62-66 | fails with out_of_range "Buffer is empty" on an empty buffer; otherwise the oldest retained point |
| `RingBuffers.RingBuffer.Back` | ringbuffer.cpp:69-73 | fails with out_of_range "Buffer is empty" on an empty buffer; otherwise the newest retained point, which is the point appended last |
| `RingBuffers.RingBuffer.Get` | ringbuffer.cpp:76-80 | the same results and errors as At |
| `RingBuffers.RingBuffer.ToQVector` | ringbuffer.cpp:82-91 | its loop returns every retained point, oldest first |
| `RingBuffers.RingBuffer.ToQVectorWindow` | ringbuffer.cpp:93-118 | for any int bounds it returns the clamped window of the retained points, and never fails |
| `RingBuffers.RingBuffer.BuffSize` | ringbuffer.h:19 | the fixed construction capacity, which is the length of the slot array and positive |
| `RingBuffers.RingBuffer.GetYMin` | ringbuffer.h:29 | the least retained y, attained by some retained point, when a point is retained; the max sentinel when empty |
| `RingBuffers.RingBuffer.GetYMax` | ringbuffer.h:30 | the greatest retained y, attained by some retained point, when a point is retained; the lowest sentinel when empty |
| `RingBuffers.RingBuffer.HeadFollowsTail` | ringbuffer.cpp:28-39 | the write slot is (tail + count) % capacity |
| `RingBuffers.RingBuffer.FullHeadIsOldest` | ringbuffer.cpp:23-28 | on a full buffer head == tail, so the slot written next holds the oldest point |
| `RingBuffers.RingBuffer.OldestIsFromAppend` | ringbuffer.cpp:23-39 | after k > capacity appends, front() and at(0) are the point of append number k - capacity, counting from 0 |
| `RingBuffers.RingBuffer.CachedRangeIsScan` | ringbuffer.cpp:120-167 | on a valid non-empty buffer the cached yMin and yMax equal the full scans MinY and MaxY of the retained points |
| `RingBuffers.RingBuffer.SinglePointRange` | ringbuffer.cpp:125-129 | a valid buffer holding one point p reports yMin == yMax == p.y |
| `RingBuffers.LayoutStore` | ringbuffer.cpp:28-39 | on values: writing the head slot, advancing head, then growing count (not full) or advancing tail (full) keeps the layout, with old + [p] or old[1..] + [p] retained; when full the overwritten slot held the oldest point |
| `RingBuffers.StoredAppend` | ringbuffer.cpp:28-34 | writing the slot after the newest point of a non-full buffer appends to the circular contents |
| `RingBuffers.StoredOverwrite` | ringbuffer.cpp:28-39 | overwriting the tail slot of a full buffer and advancing the tail evicts the oldest point and appends the new one |
| `RingBuffers.RetainsAppend` | ringbuffer.cpp:31-39 | the retained points stay the newest min(appends, capacity) points after one more append |
| `RingBuffers.ModIsWrap` | ringbuffer.cpp:29 | the source's % on an index below twice the capacity is one conditional subtraction |
| `Samples.MinY` | ringbuffer.cpp:157-164 | the full scan's minimum is a lower bound of every y and is attained |
| `Samples.MaxY` | ringbuffer.cpp:157-164 | the full scan's maximum is an upper bound of every y and is attained |
| `Samples.LeastYIsMinY` | ringbuffer.cpp:157-164 | an attained lower bound of the y values is the scan minimum, so the exact minimum is unique |
| `Samples.GreatestYIsMaxY` | ringbuffer.cpp:157-164 | an attained upper bound of the y values is the scan maximum |
| `Samples.SnocKeepsLeastY` | ringbuffer.cpp:133 | with no eviction, lowering the cached minimum to the new y gives the minimum of the extended points |
| `Samples.SnocKeepsGreatestY` | ringbuffer.cpp:134 | with no eviction, raising the cached maximum to the new y gives the maximum of the extended points |
| `Samples.ScanStep` | ringbuffer.cpp:159-164 | one iteration of the rescan extends the exact extremes of the first i points to the first i + 1 |
| `Samples.EvictionKeepsLeastY` | ringbuffer.cpp:133-146 | when the evicted y differs from the extended minimum, the extended minimum is exact for the points retained after eviction, so skipping the rescan is sound |
| `Samples.EvictionKeepsGreatestY` | ringbuffer.cpp:134-146 | the same for the maximum |
| `Samples.EvictingUniqueMinimumIsStale` | ringbuffer.cpp:142-145 | evicting the unique minimum leaves the extended minimum stale, so the rescan is needed |
| `Samples.Window` | ringbuffer.cpp:93-118 | the clamped window is empty exactly when there are no points or max(0, imin) > min(imax, n - 1); otherwise it has min(imax, n - 1) - max(0, imin) + 1 elements, element k being point max(0, imin) + k |
| `Samples.WindowCoveringAll` | ringbuffer.cpp:82-118 | a window whose bounds cover every index returns what toQVector() returns |
| `Samples.WindowClampIdempotent` | ringbuffer.cpp:100-102 | clamping the bounds before the call changes nothing |
| `Samples.WindowSingle` | ringbuffer.cpp:93-118 | the window [i, i] at a valid index is exactly point i |
| `Samples.WindowSplit` | ringbuffer.cpp:93-118 | adjacent windows concatenate to the window of their union |
| `LineSeries.LineSeriesBuffer.constructor` | ringbuffer.h:55 | wrapping a new buffer of positive size gives an empty, freshly initialised buffer of that capacity |
| `LineSeries.LineSeriesBuffer.New` | ringbuffer.h:55 | construction fails with the wrapped buffer's invalid_argument exactly when the size is 0 |
| `LineSeries.LineSeriesBuffer.Clear` | ringbuffer.h:58 | exactly RingBuffer::clear on the wrapped buffer; the wrapper itself is unchanged |
| `LineSeries.LineSeriesBuffer.GetYMin` | ringbuffer.h:59 | the wrapped buffer's getYMin: the least retained y, or the max sentinel when empty |
| `LineSeries.LineSeriesBuffer.GetYMax` | ringbuffer.h:60 | the wrapped buffer's getYMax: the greatest retained y, or the lowest sentinel when empty |
| `LineSeries.LineSeriesBuffer.Get` | ringbuffer.h:61 | the wrapped buffer's get, including its out_of_range error |
| `LineSeries.LineSeriesBuffer.Size` | ringbuffer.h:62 | the wrapped buffer's size: the number of retained points |
| `LineSeries.LineSeriesBuffer.Capacity` | ringbuffer.h:63 | the wrapped buffer's buffSize: its positive construction capacity |
| `LineSeries.LineSeriesBuffer.Front` | ringbuffer.h:64 | the wrapped buffer's front, including the empty-buffer error |
| `LineSeries.LineSeriesBuffer.Back` | ringbuffer.h:65 | the wrapped buffer's back, including the empty-buffer error |
| `LineSeries.LineSeriesBuffer.ToQVector` | ringbuffer.h:67 | every retained point of the wrapped buffer, oldest first |
| `LineSeries.LineSeriesBuffer.ToQVectorWindow` | ringbuffer.h:68 | the clamped window of the wrapped buffer's retained points |

## Left out

- The `QObject` base and its parent pointer, the `Q_OBJECT` machinery and the `QPen` member of `QLineSeriesBuffer` carry no buffer logic.
- Floating point: coordinates are reals, so NaN (which breaks `<` and `==`) and rounding are not modelled.
- The sentinels are exact reals, not IEEE-754 values.
- Integer widths: `size_t` and `int` arithmetic is unbounded in the model. Overflow of `head + capacity - 1` and of `tail + index`, the `static_cast<int>(count)` narrowing in the windowed `toQVector`, and the `int` return type of `buffSize` are not modelled.
- References: `at` is modelled as returning the point by value. The C++ returns a `const` reference into the slot vector, and any aliasing of that reference is not captured.
- Evicted-point pointer: the C++ passes the evicted point to `updateMinMax` as a nullable pointer to a local copy. The model passes an `Option<Point>`.
- Rescan observation: `Append` and `UpdateMinMax` have the ghost out-parameter `rescanned`, which tells whether the rescan ran. It is an observation added for the proof; the source has no such output.
- The constructor's `throw` is modelled by the static `New` factories. The constructors themselves require a positive capacity.
- Threads: the buffer is modelled as single-threaded. The application's producer/consumer threads, mutex and signal/slot ordering are not part of this model.
- plotwindow.cpp, plotwindow.h and main.cpp are not part of this model. They hold Qt widget setup, timers, file I/O, the random sample generator and application start-up.
