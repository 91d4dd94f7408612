/** The capture writer of ImageWriter.h/.cpp: a ring of 100 slots, each a worker
    thread and a fixed data record with a 1920x1080x4-byte buffer. A thread is
    modelled by its `joinable` flag; starting a worker records a snapshot of the
    slot's record as a job, which the worker turns into one call of the BMP
    encoder. */
module ImageWriter {

  /** `_maxThreads`. */
  const MAX_THREADS: nat := 100

  /** The size of each slot's pixel buffer (ImageWriter.h:24). */
  const BUFFER_BYTES: nat := 1920 * 1080 * 4

  /** `ImageWriterData`: a record the capture fills and a worker reads. */
  class WriterData {
    const buffer: array<bv8>
    var width: int
    var height: int
    var comp: int
    var index: int

    /** `new ImageWriterData()` zero-initialises the ints; the buffer is a
        fresh 1920x1080x4-byte allocation. */
    constructor ()
      ensures fresh(buffer) && buffer.Length == BUFFER_BYTES
      ensures width == 0 && height == 0 && comp == 0 && index == 0
    {
      buffer := new bv8[BUFFER_BYTES];
      width, height, comp, index := 0, 0, 0, 0;
    }
  }

  /** What a started worker sees: the record's fields and buffer contents. */
  datatype Capture = Capture(index: int, width: int, height: int, comp: int, data: seq<bv8>)

  ghost function Snapshot(d: WriterData): Capture
    reads d, d.buffer
  {
    Capture(d.index, d.width, d.height, d.comp, d.buffer[..])
  }

  /** What each slot's worker would see if started now, slot by slot. */
  ghost function Slots(data: seq<WriterData>): (s: seq<Capture>)
    reads set k | 0 <= k < |data| :: data[k]
    reads set k | 0 <= k < |data| :: data[k].buffer
    ensures |s| == |data|
    ensures forall k :: 0 <= k < |data| ==> s[k] == Snapshot(data[k])
  {
    seq(|data|, k requires 0 <= k < |data|
                  reads set j | 0 <= j < |data| :: data[j]
                  reads set j | 0 <= j < |data| :: data[j].buffer
                  => Snapshot(data[k]))
  }

  /** Assigning a new `std::thread` to a joinable one calls `std::terminate`. */
  datatype WriteOutcome = Started | Terminated

  class ImageWriter {
    /** `_threads[k].joinable()`. */
    var threads: seq<bool>
    /** `_data`: filled once by the constructor. */
    var data: seq<WriterData>
    /** `_threadIndex`. */
    var threadIndex: int
    /** The workers started so far, in order. */
    ghost var jobs: seq<Capture>
    ghost var Repr: set<object>

    ghost predicate Valid()
      reads this
    {
      && this in Repr
      && |threads| == MAX_THREADS
      && |data| == MAX_THREADS
      && 0 <= threadIndex < MAX_THREADS
      && (forall k :: 0 <= k < |data| ==>
            data[k] in Repr && data[k].buffer in Repr && data[k].buffer.Length == BUFFER_BYTES)
      && (forall j, k :: 0 <= j < k < |data| ==> data[j] != data[k] && data[j].buffer != data[k].buffer)
    }

    /** The constructor (ImageWriter.h:18-27): 100 idle threads and 100
        records, and the ring index at 0. */
    constructor ()
      ensures Valid() && fresh(Repr)
      ensures threadIndex == 0 && jobs == []
      ensures forall k :: 0 <= k < |threads| ==> !threads[k]
    {
      var ts: seq<bool> := [];
      var ds: seq<WriterData> := [];
      ghost var repr: set<object> := {};
      var i := 0;
      while i < MAX_THREADS
        invariant 0 <= i <= MAX_THREADS
        invariant |ts| == i && |ds| == i
        invariant forall k :: 0 <= k < i ==> !ts[k]
        invariant forall k :: 0 <= k < i ==>
                    ds[k] in repr && ds[k].buffer in repr && ds[k].buffer.Length == BUFFER_BYTES
        invariant forall j, k :: 0 <= j < k < i ==> ds[j] != ds[k] && ds[j].buffer != ds[k].buffer
        invariant fresh(repr)
      {
        ts := ts + [false];
        var d := new WriterData();
        assert d !in repr && d.buffer !in repr;
        ds := ds + [d];
        repr := repr + {d, d.buffer};
        i := i + 1;
      }
      threads := ts;
      data := ds;
      threadIndex := 0;
      jobs := [];
      Repr := repr + {this};
    }

    /** `getNext` (ImageWriter.h:38-45): advance the ring, join the slot's
        worker if it is still running, and hand out the slot's record. */
    method GetNext() returns (d: WriterData)
      requires Valid()
      modifies this`threadIndex, this`threads
      ensures Valid()
      ensures threadIndex == (old(threadIndex) + 1) % MAX_THREADS
      ensures threads == old(threads)[threadIndex := false]
      ensures d == data[threadIndex]
    {
      threadIndex := (threadIndex + 1) % MAX_THREADS;
      if threads[threadIndex] {
        threads := threads[threadIndex := false];
      } else {
        assert threads == threads[threadIndex := false];
      }
      d := data[threadIndex];
    }

    /** `write` (ImageWriter.h:48-50): start a worker on the current slot's
        record. Right after `GetNext` the slot is idle, so the worker starts. */
    method Write() returns (r: WriteOutcome)
      requires Valid()
      modifies this`threads, this`jobs
      ensures Valid()
      ensures r == Started <==> !old(threads[threadIndex])
      ensures r == Started ==>
                threads == old(threads)[threadIndex := true] &&
                jobs == old(jobs) + [Snapshot(data[threadIndex])]
      ensures r == Terminated ==> threads == old(threads) && jobs == old(jobs)
    {
      if threads[threadIndex] {
        return Terminated;
      }
      threads := threads[threadIndex := true];
      jobs := jobs + [Snapshot(data[threadIndex])];
      return Started;
    }

    /** The destructor (ImageWriter.h:29-36): join every running worker. */
    method Destroy()
      requires Valid()
      modifies this`threads
      ensures Valid()
      ensures |threads| == MAX_THREADS && forall k :: 0 <= k < MAX_THREADS ==> !threads[k]
    {
      var i := 0;
      while i < MAX_THREADS
        invariant 0 <= i <= MAX_THREADS
        invariant Valid()
        invariant forall k :: 0 <= k < i ==> !threads[k]
      {
        if threads[i] {
          threads := threads[i := false];
        }
        i := i + 1;
      }
    }
  }

  // ---------------------------------------------------------------------------
  // ImageWriter::work (ImageWriter.cpp:8-16)

  predicate IsDigit(c: char) {
    '0' <= c <= '9'
  }

  function DigitChar(d: nat): (c: char)
    requires d < 10
    ensures IsDigit(c)
  {
    ('0' as int + d) as char
  }

  /** The decimal rendering `operator<<` gives a non-negative int. */
  function NatToDecimal(n: nat): (s: string)
    ensures |s| >= 1 && (n < 10 <==> |s| == 1)
    ensures forall k :: 0 <= k < |s| ==> IsDigit(s[k])
  {
    if n < 10 then [DigitChar(n)] else NatToDecimal(n / 10) + [DigitChar(n % 10)]
  }

  /** The decimal rendering of an int: a minus sign, then the digits. */
  function IntToDecimal(i: int): string {
    if i < 0 then "-" + NatToDecimal(-i) else NatToDecimal(i)
  }

  /** The file a capture is written to: "images/" then "img", the index in
      decimal and ".bmp". */
  function Filename(index: int): string {
    "images/" + "img" + IntToDecimal(index) + ".bmp"
  }

  lemma {:induction false} NatToDecimalInjective(a: nat, b: nat)
    requires NatToDecimal(a) == NatToDecimal(b)
    ensures a == b
    decreases a
  {
    var s := NatToDecimal(a);
    if a >= 10 && b >= 10 {
      var p := NatToDecimal(a / 10);
      var q := NatToDecimal(b / 10);
      assert s == p + [DigitChar(a % 10)] && s == q + [DigitChar(b % 10)];
      assert |p| == |q|;
      assert p == s[..|s| - 1] == q;
      assert DigitChar(a % 10) == s[|s| - 1] == DigitChar(b % 10);
      NatToDecimalInjective(a / 10, b / 10);
    }
  }

  /** A rendering with a minus sign never equals one without. */
  lemma SignedDiffers(n: nat, m: nat)
    ensures "-" + NatToDecimal(n) != NatToDecimal(m)
  {
    assert ("-" + NatToDecimal(n))[0] == '-';
    assert IsDigit(NatToDecimal(m)[0]);
  }

  lemma IntToDecimalInjective(a: int, b: int)
    requires IntToDecimal(a) == IntToDecimal(b)
    ensures a == b
  {
    var s := IntToDecimal(a);
    if a < 0 && b < 0 {
      assert NatToDecimal(-a) == s[1..] == NatToDecimal(-b);
      NatToDecimalInjective(-a, -b);
    } else if a >= 0 && b >= 0 {
      NatToDecimalInjective(a, b);
    } else if a < 0 {
      SignedDiffers(-a, b);
    } else {
      SignedDiffers(-b, a);
    }
  }

  /** Distinct capture indices never share a file. */
  lemma FilenameInjective(a: int, b: int)
    requires Filename(a) == Filename(b)
    ensures a == b
  {
    var f := Filename(a);
    assert IntToDecimal(a) == f[10..|f| - 4];
    assert IntToDecimal(b) == f[10..|f| - 4];
    IntToDecimalInjective(a, b);
  }

  lemma FilenameExamples()
    ensures Filename(1) == "images/img1.bmp"
    ensures Filename(999) == "images/img999.bmp"
  {
    assert NatToDecimal(999) == NatToDecimal(99) + ['9'];
    assert NatToDecimal(99) == NatToDecimal(9) + ['9'];
  }

  /** One call of `stbi_write_bmp`. */
  datatype SinkCall = SinkCall(filename: string, width: int, height: int, comp: int, data: seq<bv8>)

  /** `work`: the encoder gets the computed file name and the record's other
      fields as they are; its result is dropped. */
  function Work(c: Capture): (call: SinkCall)
    ensures call.filename == Filename(c.index)
    ensures call.width == c.width && call.height == c.height && call.comp == c.comp && call.data == c.data
  {
    SinkCall(Filename(c.index), c.width, c.height, c.comp, c.data)
  }

  /** The file name depends on the index alone, and two workers whose records
      carry different indices write different files. */
  lemma WorkFilenames(c: Capture, d: Capture)
    ensures c.index == d.index ==> Work(c).filename == Work(d).filename
    ensures c.index != d.index ==> Work(c).filename != Work(d).filename
  {
    if Work(c).filename == Work(d).filename {
      FilenameInjective(c.index, d.index);
    }
  }
}
