/** The fixed-capacity circular buffer of plot points with its cached
    y range (RingBuffer in ringbuffer.h / ringbuffer.cpp). */
module RingBuffers {
  import opened Samples

  /** The two C++ exception types the buffer throws, with their messages. */
  datatype Error = InvalidArgument(message: string) | OutOfRange(message: string)

  datatype Result<T> = Ok(value: T) | Err(error: Error)

  datatype Option<T> = None | Some(value: T)

  const CapacityMessage: string := "Capacity must be greater than 0"
  const IndexMessage: string := "Index out of range"
  const EmptyMessage: string := "Buffer is empty"

  /** std::numeric_limits<double>::max(), the initial yMin. */
  const DoubleMax: real := 179769313486231570814527423731704356798070567525844996598917476803157260780028538760589558632766878171540458953514382464234321326889464182768467546703537516986049910576551282076245490090389328944075868508455133942304583236903222948165808559332123348274797826204144723168738177180919299881250404026184124858368.0

  /** std::numeric_limits<double>::lowest(), the initial yMax. */
  const DoubleLowest: real := -DoubleMax

  /** Reduction of an index below twice the capacity, without division. */
  function Wrap(x: int, n: int): int { if x < n then x else x - n }

  lemma ModIsWrap(x: int, n: int)
    requires 0 < n && 0 <= x < 2 * n
    ensures x % n == Wrap(x, n)
  {
  }

  /** `buf`, read circularly from slot `tail`, holds `contents`. */
  ghost predicate Stored(buf: seq<Point>, tail: nat, contents: seq<Point>) {
    tail < |buf| && |contents| <= |buf| &&
    forall i :: 0 <= i < |contents| ==> contents[i] == buf[Wrap(tail + i, |buf|)]
  }

  /** `contents` is the newest min(|history|, n) points of `history`. */
  ghost predicate Retains(history: seq<Point>, contents: seq<Point>, n: nat) {
    |contents| == MinInt(|history|, n) &&
    forall k :: 0 <= k < |contents| ==> contents[k] == history[|history| - |contents| + k]
  }

  /** The storage layout of a buffer with slots `buf`: `head` is the slot
      after the newest point, `contents` is read circularly from `tail`, and
      it is the newest points of `history` that fit. */
  ghost predicate Layout(buf: seq<Point>, head: nat, tail: nat, count: nat,
                         contents: seq<Point>, history: seq<Point>)
  {
    0 < |buf| && head < |buf| && count <= |buf| &&
    head == Wrap(tail + count, |buf|) &&
    |contents| == count &&
    Stored(buf, tail, contents) &&
    Retains(history, contents, |buf|)
  }

  /** The storage step of append, on values: write the head slot, advance
      the head, and grow the count or, when full, advance the tail. */
  lemma LayoutStore(buf: seq<Point>, head: nat, tail: nat, count: nat,
                    contents: seq<Point>, history: seq<Point>, p: Point)
    requires Layout(buf, head, tail, count, contents, history)
    ensures count < |buf| ==>
              Layout(buf[head := p], Wrap(head + 1, |buf|), tail, count + 1,
                     contents + [p], history + [p])
    ensures count == |buf| ==>
              contents[0] == buf[head] &&
              Layout(buf[head := p], Wrap(head + 1, |buf|), Wrap(tail + 1, |buf|), count,
                     contents[1..] + [p], history + [p])
  {
    RetainsAppend(history, contents, |buf|, p);
    if count < |buf| {
      StoredAppend(buf, tail, contents, p);
      assert Wrap(head + 1, |buf|) == Wrap(tail + count + 1, |buf|);
    } else {
      assert contents[0] == buf[Wrap(tail + 0, |buf|)];
      StoredOverwrite(buf, tail, contents, p);
    }
  }

  /** The cached range for the points `s`: valid exactly when `s` is
      non-empty, exact when valid, the sentinels when not. */
  ghost predicate CacheExact(s: seq<Point>, valid: bool, lo: real, hi: real) {
    (valid <==> |s| > 0) &&
    (|s| == 0 ==> lo == DoubleMax && hi == DoubleLowest) &&
    (|s| > 0 ==> IsLeastY(s, lo) && IsGreatestY(s, hi))
  }

  /** Writing the next free slot of a non-full buffer appends to its contents. */
  lemma StoredAppend(buf: seq<Point>, tail: nat, s: seq<Point>, p: Point)
    requires Stored(buf, tail, s) && |s| < |buf|
    ensures Stored(buf[Wrap(tail + |s|, |buf|) := p], tail, s + [p])
  {
    var buf' := buf[Wrap(tail + |s|, |buf|) := p];
    var s' := s + [p];
    forall i | 0 <= i < |s'| ensures s'[i] == buf'[Wrap(tail + i, |buf|)] {
      if i < |s| {
        assert s'[i] == s[i];
      }
    }
  }

  /** Overwriting the oldest slot of a full buffer and advancing the tail
      evicts the oldest point and appends the new one. */
  lemma StoredOverwrite(buf: seq<Point>, tail: nat, s: seq<Point>, p: Point)
    requires Stored(buf, tail, s) && |s| == |buf|
    ensures Stored(buf[tail := p], Wrap(tail + 1, |buf|), s[1..] + [p])
  {
    var buf' := buf[tail := p];
    var s' := s[1..] + [p];
    var t' := Wrap(tail + 1, |buf|);
    forall i | 0 <= i < |s'| ensures s'[i] == buf'[Wrap(t' + i, |buf|)] {
      if i < |s'| - 1 {
        assert s'[i] == s[i + 1];
        assert Wrap(t' + i, |buf|) == Wrap(tail + i + 1, |buf|);
      }
    }
  }

  /** FIFO retention: one more point in the history appends it to the
      retained points, evicting the oldest when `n` were already held. */
  lemma RetainsAppend(history: seq<Point>, s: seq<Point>, n: nat, p: Point)
    requires n > 0 && Retains(history, s, n)
    ensures Retains(history + [p], if |s| < n then s + [p] else s[1..] + [p], n)
  {
    var h' := history + [p];
    var s' := if |s| < n then s + [p] else s[1..] + [p];
    forall k | 0 <= k < |s'| ensures s'[k] == h'[|h'| - |s'| + k] {
      if k < |s'| - 1 {
        if |s| < n {
          assert s'[k] == s[k];
        } else {
          assert s'[k] == s[k + 1];
        }
      }
    }
  }

  class RingBuffer {
    const data: array<Point>
    const capacity: nat
    var head: nat         // index of the next write
    var tail: nat         // index of the oldest point
    var count: nat        // number of retained points
    var yMin: real
    var yMax: real
    var minMaxValid: bool

    /** The retained points, oldest first. */
    ghost var Contents: seq<Point>
    /** Every point appended since construction or the last clear. */
    ghost var History: seq<Point>

    /** The storage invariant: read circularly from `tail`, the array holds
        Contents; `head` is the slot after the newest point; Contents is the
        newest min(|History|, capacity) points of History. */
    ghost predicate ValidStorage()
      reads this`head, this`tail, this`count, this`Contents, this`History, data
    {
      capacity == data.Length &&
      Layout(data[..], head, tail, count, Contents, History)
    }

    ghost predicate Valid()
      reads this, data
    {
      ValidStorage() && CacheExact(Contents, minMaxValid, yMin, yMax)
    }

    /** The state of a freshly constructed (or cleared) buffer. */
    ghost predicate Pristine()
      reads this
    {
      head == 0 && tail == 0 && count == 0 &&
      Contents == [] && History == [] &&
      !minMaxValid && yMin == DoubleMax && yMax == DoubleLowest
    }

    constructor (capacity: nat)
      requires capacity > 0
      ensures Valid() && Pristine() && fresh(data)
      ensures this.capacity == capacity
    {
      data := new Point[capacity];
      this.capacity := capacity;
      head, tail, count := 0, 0, 0;
      yMin, yMax, minMaxValid := DoubleMax, DoubleLowest, false;
      Contents, History := [], [];
    }

    /** Construction, including the std::invalid_argument thrown for a
        capacity of zero. */
    static method New(capacity: nat) returns (r: Result<RingBuffer>)
      ensures r.Err? <==> capacity == 0
      ensures r.Err? ==> r.error == InvalidArgument(CapacityMessage)
      ensures r.Ok? ==> fresh(r.value) && fresh(r.value.data)
      ensures r.Ok? ==> r.value.Valid() && r.value.Pristine() && r.value.capacity == capacity
    {
      if capacity == 0 {
        return Err(InvalidArgument(CapacityMessage));
      }
      var b := new RingBuffer(capacity);
      r := Ok(b);
    }

    /** Appends a point, overwriting the oldest one when the buffer is full,
        and updates the y range. `rescanned` tells whether the full rescan
        ran: exactly when a point was evicted, more than one point is
        retained and the evicted y equals the extended minimum or maximum. */
    method Append(point: Point) returns (ghost rescanned: bool)
      requires Valid()
      modifies this, data
      ensures Valid()
      ensures History == old(History) + [point]
      ensures old(count) < capacity ==> Contents == old(Contents) + [point] && count == old(count) + 1
      ensures old(count) == capacity ==> Contents == old(Contents)[1..] + [point] && count == capacity
      ensures rescanned <==>
                old(count) == capacity > 1 &&
                (old(Contents)[0].y == Min(old(yMin), point.y) ||
                 old(Contents)[0].y == Max(old(yMax), point.y))
      ensures old(count) == 0 ==> minMaxValid && yMin == point.y && yMax == point.y
    {
      ghost var prev, before := Contents, data[..];
      LayoutStore(before, head, tail, count, Contents, History, point);
      ModIsWrap(head + 1, capacity);
      ModIsWrap(tail + 1, capacity);
      var removed: Option<Point> := None;
      if count == capacity {
        removed := Some(data[head]);
      }
      ghost var h := head;
      data[head] := point;
      assert data[..] == before[h := point];
      head := (head + 1) % capacity;
      if count < capacity {
        count := count + 1;
        Contents := Contents + [point];
      } else {
        tail := (tail + 1) % capacity;
        Contents := Contents[1..] + [point];
      }
      History := History + [point];
      rescanned := UpdateMinMax(point, removed, prev);
      assert old(count) == 0 ==> Contents[0] == point;
    }

    /** Incremental y-range maintenance after `newPoint` was stored; `prev`
        is the retained sequence before the store and `removed` the point it
        overwrote, if any. Falls back to a full rescan when the evicted y
        equals either extended extremum. */
    method UpdateMinMax(newPoint: Point, removed: Option<Point>, ghost prev: seq<Point>)
      returns (ghost rescanned: bool)
      requires ValidStorage() && CacheExact(prev, minMaxValid, yMin, yMax)
      requires removed.None? ==> Contents == prev + [newPoint]
      requires removed.Some? ==> |prev| > 0 && prev[0] == removed.value && Contents == prev[1..] + [newPoint]
      modifies this`yMin, this`yMax, this`minMaxValid
      ensures ValidStorage() && CacheExact(Contents, minMaxValid, yMin, yMax)
      ensures rescanned <==>
                removed.Some? && old(minMaxValid) && count > 1 &&
                (removed.value.y == Min(old(yMin), newPoint.y) ||
                 removed.value.y == Max(old(yMax), newPoint.y))
    {
      rescanned := false;
      var newY := newPoint.y;
      if !minMaxValid || count <= 1 {
        assert Contents == [newPoint];
        yMin, yMax := newY, newY;
        minMaxValid := true;
        assert Contents[0].y == yMin;
        return;
      }
      if newY < yMin { yMin := newY; }
      if newY > yMax { yMax := newY; }
      if removed.Some? {
        var removedY := removed.value.y;
        if removedY == yMin || removedY == yMax {
          RecalculateMinMax();
          rescanned := true;
        } else {
          EvictionKeepsLeastY(prev, newPoint, old(yMin));
          EvictionKeepsGreatestY(prev, newPoint, old(yMax));
        }
      } else {
        SnocKeepsLeastY(prev, newPoint, old(yMin));
        SnocKeepsGreatestY(prev, newPoint, old(yMax));
      }
    }

    /** The full O(count) rescan of the retained y values. */
    method RecalculateMinMax()
      requires ValidStorage()
      modifies this`yMin, this`yMax, this`minMaxValid
      ensures ValidStorage()
      ensures count == 0 ==> !minMaxValid && yMin == old(yMin) && yMax == old(yMax)
      ensures count > 0 ==> minMaxValid && IsLeastY(Contents, yMin) && IsGreatestY(Contents, yMax)
    {
      if count == 0 {
        minMaxValid := false;
        return;
      }
      var first := At(0);
      yMin, yMax := first.value.y, first.value.y;
      assert Contents[..1] == [Contents[0]];
      for i := 1 to count
        invariant IsLeastY(Contents[..i], yMin) && IsGreatestY(Contents[..i], yMax)
      {
        var y := At(i).value.y;
        ScanStep(Contents, i, yMin, yMax);
        if y < yMin { yMin := y; }
        if y > yMax { yMax := y; }
      }
      assert Contents[..count] == Contents;
      minMaxValid := true;
    }

    /** Public forced recomputation; on a valid buffer the cache is already
        exact, so it leaves every field as it was. */
    method ResetMinMax()
      requires Valid()
      modifies this`yMin, this`yMax, this`minMaxValid
      ensures Valid()
      ensures yMin == old(yMin) && yMax == old(yMax) && minMaxValid == old(minMaxValid)
    {
      RecalculateMinMax();
      if count > 0 {
        LeastYIsMinY(Contents, old(yMin));
        LeastYIsMinY(Contents, yMin);
        GreatestYIsMaxY(Contents, old(yMax));
        GreatestYIsMaxY(Contents, yMax);
      }
    }

    /** Empties the buffer and puts the cache back to its initial sentinels. */
    method Clear()
      requires Valid()
      modifies this
      ensures Valid() && Pristine()
    {
      head := 0;
      tail := 0;
      count := 0;
      minMaxValid := false;
      yMin := DoubleMax;
      yMax := DoubleLowest;
      Contents, History := [], [];
    }

    function Size(): (n: nat)
      reads this, data
      requires ValidStorage()
      ensures n == |Contents| && n <= capacity
      ensures n == MinInt(|History|, capacity)
    {
      count
    }

    /** The construction capacity (buffSize). */
    function BuffSize(): (n: nat)
      reads this, data
      requires ValidStorage()
      ensures n == data.Length && n > 0
    {
      capacity
    }

    function IsFull(): (b: bool)
      reads this, data
      requires ValidStorage()
      ensures b <==> |Contents| == capacity
    {
      count == capacity
    }

    /** Element `index` of the retained points, 0 the oldest. */
    function At(index: nat): (r: Result<Point>)
      reads this, data
      requires ValidStorage()
      ensures index >= |Contents| ==> r == Err(OutOfRange(IndexMessage))
      ensures index < |Contents| ==> r == Ok(Contents[index])
    {
      if index >= count then Err(OutOfRange(IndexMessage))
      else
        ModIsWrap(tail + index, capacity);
        Ok(data[(tail + index) % capacity])
    }

    /** The oldest retained point. */
    function Front(): (r: Result<Point>)
      reads this, data
      requires ValidStorage()
      ensures |Contents| == 0 ==> r == Err(OutOfRange(EmptyMessage))
      ensures |Contents| > 0 ==> r == Ok(Contents[0])
    {
      if count == 0 then Err(OutOfRange(EmptyMessage))
      else Ok(data[tail])
    }

    /** The newest retained point, the one appended last. */
    function Back(): (r: Result<Point>)
      reads this, data
      requires ValidStorage()
      ensures |Contents| == 0 ==> r == Err(OutOfRange(EmptyMessage))
      ensures |Contents| > 0 ==> r == Ok(Contents[|Contents| - 1]) && r == Ok(History[|History| - 1])
    {
      if count == 0 then Err(OutOfRange(EmptyMessage))
      else
        ModIsWrap(head + capacity - 1, capacity);
        ModIsWrap(tail + count - 1, capacity);
        ModIsWrap(tail + count, capacity);
        Ok(data[(head + capacity - 1) % capacity])
    }

    /** Bounds-checked access; the same as At. */
    function Get(index: nat): (r: Result<Point>)
      reads this, data
      requires ValidStorage()
      ensures index >= |Contents| ==> r == Err(OutOfRange(IndexMessage))
      ensures index < |Contents| ==> r == Ok(Contents[index])
    {
      if index >= count then Err(OutOfRange(IndexMessage))
      else At(index)
    }

    /** The cached minimum: exact whenever a point is retained. */
    function GetYMin(): (r: real)
      reads this, data
      requires Valid()
      ensures |Contents| > 0 ==> IsLeastY(Contents, r)
      ensures |Contents| == 0 ==> r == DoubleMax
    {
      yMin
    }

    /** The cached maximum: exact whenever a point is retained. */
    function GetYMax(): (r: real)
      reads this, data
      requires Valid()
      ensures |Contents| > 0 ==> IsGreatestY(Contents, r)
      ensures |Contents| == 0 ==> r == DoubleLowest
    {
      yMax
    }

    /** All retained points, oldest first. */
    method ToQVector() returns (vout: seq<Point>)
      requires Valid()
      ensures vout == Contents
    {
      vout := [];
      for i := 0 to count
        invariant vout == Contents[..i]
      {
        var p := At(i);
        vout := vout + [p.value];
      }
      assert Contents[..count] == Contents;
    }

    /** The retained points with logical indices in the clamped range
        [max(0, imin), min(imax, count - 1)]; never fails. */
    method ToQVectorWindow(imin: int, imax: int) returns (vout: seq<Point>)
      requires Valid()
      ensures vout == Window(Contents, imin, imax)
    {
      if count == 0 {
        return [];
      }
      var lo := MaxInt(0, imin);
      var hi := MinInt(imax, count - 1);
      if lo > hi {
        return [];
      }
      vout := [];
      var i := lo;
      while i <= hi
        invariant lo <= i <= hi + 1
        invariant vout == Contents[lo..i]
      {
        var p := At(i);
        vout := vout + [p.value];
        i := i + 1;
      }
    }

    /** The write slot is the oldest slot advanced by the count, modulo the
        capacity. */
    lemma HeadFollowsTail()
      requires ValidStorage()
      ensures head == (tail + count) % capacity
    {
      ModIsWrap(tail + count, capacity);
    }

    /** Cache tightness: on a valid non-empty buffer the cached extremes are
        the ones a full scan of the retained points computes. */
    lemma CachedRangeIsScan()
      requires Valid() && count > 0
      ensures yMin == MinY(Contents) && yMax == MaxY(Contents)
    {
      LeastYIsMinY(Contents, yMin);
      GreatestYIsMaxY(Contents, yMax);
    }

    /** When full, the next write slot is the oldest point's slot. */
    lemma FullHeadIsOldest()
      requires ValidStorage() && count == capacity
      ensures head == tail && data[head] == Contents[0]
    {
      ModIsWrap(tail + count, capacity);
    }

    /** FIFO eviction: after more than `capacity` appends the oldest
        retained point is the one from append number |History| - capacity. */
    lemma OldestIsFromAppend()
      requires ValidStorage() && |History| > capacity
      ensures Front() == Ok(History[|History| - capacity])
      ensures At(0) == Ok(History[|History| - capacity])
    {
    }

    /** The first point after construction or clear sets both extremes. */
    lemma SinglePointRange(p: Point)
      requires Valid() && Contents == [p]
      ensures GetYMin() == p.y && GetYMax() == p.y
    {
    }
  }
}
