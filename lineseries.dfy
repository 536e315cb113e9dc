/** QLineSeriesBuffer (ringbuffer.h): a ring buffer of plot points held in
    place of a chart series, with read accessors that forward to it. */
module LineSeries {
  import opened Samples
  import opened RingBuffers

  class LineSeriesBuffer {
    /** The wrapped buffer; public in the source, so points are appended
        through it directly. */
    const buffer: RingBuffer

    ghost predicate Valid()
      reads this, buffer, buffer.data
    {
      buffer.Valid()
    }

    constructor (bufferSize: nat)
      requires bufferSize > 0
      ensures Valid() && fresh(buffer) && fresh(buffer.data)
      ensures buffer.Pristine() && buffer.capacity == bufferSize
    {
      buffer := new RingBuffer(bufferSize);
    }

    /** Construction, failing as the wrapped buffer's construction does for
        a size of zero. */
    static method New(bufferSize: nat) returns (r: Result<LineSeriesBuffer>)
      ensures r.Err? <==> bufferSize == 0
      ensures r.Err? ==> r.error == InvalidArgument(CapacityMessage)
      ensures r.Ok? ==> fresh(r.value) && fresh(r.value.buffer) && fresh(r.value.buffer.data)
      ensures r.Ok? ==> r.value.Valid() && r.value.buffer.Pristine() && r.value.buffer.capacity == bufferSize
    {
      if bufferSize == 0 {
        return Err(InvalidArgument(CapacityMessage));
      }
      var s := new LineSeriesBuffer(bufferSize);
      r := Ok(s);
    }

    /** Clears the wrapped buffer; its slots are left as they were. */
    method Clear()
      requires Valid()
      modifies buffer
      ensures Valid() && buffer.Pristine()
    {
      buffer.Clear();
    }

    function GetYMin(): (r: real)
      reads this, buffer, buffer.data
      requires Valid()
      ensures r == buffer.GetYMin()
      ensures |buffer.Contents| > 0 ==> IsLeastY(buffer.Contents, r)
      ensures |buffer.Contents| == 0 ==> r == DoubleMax
    {
      buffer.GetYMin()
    }

    function GetYMax(): (r: real)
      reads this, buffer, buffer.data
      requires Valid()
      ensures r == buffer.GetYMax()
      ensures |buffer.Contents| > 0 ==> IsGreatestY(buffer.Contents, r)
      ensures |buffer.Contents| == 0 ==> r == DoubleLowest
    {
      buffer.GetYMax()
    }

    function Get(index: nat): (r: Result<Point>)
      reads this, buffer, buffer.data
      requires Valid()
      ensures r == buffer.Get(index)
      ensures index >= |buffer.Contents| ==> r == Err(OutOfRange(IndexMessage))
      ensures index < |buffer.Contents| ==> r == Ok(buffer.Contents[index])
    {
      buffer.Get(index)
    }

    function Size(): (n: nat)
      reads this, buffer, buffer.data
      requires Valid()
      ensures n == buffer.Size() && n == |buffer.Contents|
    {
      buffer.Size()
    }

    /** The wrapped buffer's construction capacity. */
    function Capacity(): (n: nat)
      reads this, buffer, buffer.data
      requires Valid()
      ensures n == buffer.BuffSize() && n == buffer.capacity && n > 0
    {
      buffer.BuffSize()
    }

    function Front(): (r: Result<Point>)
      reads this, buffer, buffer.data
      requires Valid()
      ensures r == buffer.Front()
      ensures |buffer.Contents| == 0 ==> r == Err(OutOfRange(EmptyMessage))
      ensures |buffer.Contents| > 0 ==> r == Ok(buffer.Contents[0])
    {
      buffer.Front()
    }

    function Back(): (r: Result<Point>)
      reads this, buffer, buffer.data
      requires Valid()
      ensures r == buffer.Back()
      ensures |buffer.Contents| == 0 ==> r == Err(OutOfRange(EmptyMessage))
      ensures |buffer.Contents| > 0 ==> r == Ok(buffer.Contents[|buffer.Contents| - 1])
    {
      buffer.Back()
    }

    method ToQVector() returns (vout: seq<Point>)
      requires Valid()
      ensures vout == buffer.Contents
    {
      vout := buffer.ToQVector();
    }

    method ToQVectorWindow(imin: int, imax: int) returns (vout: seq<Point>)
      requires Valid()
      ensures vout == Window(buffer.Contents, imin, imax)
    {
      vout := buffer.ToQVectorWindow(imin, imax);
    }
  }
}
