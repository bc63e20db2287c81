/**
 * IOBufferData: one extent of a byte stream, a window onto a shared storage block.
 *
 * The block is an `array<uint8>`; copies of an extent share it, as the C++ copies
 * share it through a shared_ptr.  The three cursors are offsets from the block's
 * start: bytes [consumer, producer) are readable, [producer, end) is free space.
 * IOBufferData is a value type in the source (it is copied into and out of the
 * segment list), so the extent is a datatype: the members that only move cursors
 * are functions returning the moved extent with the count they return, and the
 * members that write bytes into the block are methods with `modifies block`.
 */
module Extents {
  import opened Bytes
  import opened Syscalls

  /** default_buffer_size_ = 4 << 10 (io_buffer.cpp:12). */
  const DefaultBufferSize: int := 4096

  datatype IOBufferData = IOBufferData(block: array<uint8>, consumer: int, producer: int, end: int)
  {
    /** block_start <= consumer <= producer <= end <= block_end. */
    predicate Valid()
    {
      0 <= consumer <= producer <= end <= block.Length
    }

    function BytesConsumable(): int { producer - consumer }

    function SpaceAvailable(): int { end - producer }

    predicate IsFull() { producer >= end }

    predicate IsEmpty() { producer <= consumer }

    /** The readable bytes, block[consumer..producer). */
    ghost function Window(): seq<uint8>
      reads block
      requires Valid()
    {
      block[consumer..producer]
    }

    /** The largest count in [0, SpaceAvailable()] that does not exceed the request. */
    function MaxAvailable(n: int): (k: int)
      requires Valid()
      ensures 0 <= k <= SpaceAvailable() && k <= Max(n, 0)
      ensures k == Max(n, 0) || k == SpaceAvailable()
    {
      Max(0, Min(SpaceAvailable(), n))
    }

    /** The largest count in [0, BytesConsumable()] that does not exceed the request. */
    function MaxConsumable(n: int): (k: int)
      requires Valid()
      ensures 0 <= k <= BytesConsumable() && k <= Max(n, 0)
      ensures k == Max(n, 0) || k == BytesConsumable()
    {
      Max(0, Min(BytesConsumable(), n))
    }

    /** Fill: bytes were written into the free space, so advance the producer. */
    function Fill(n: int): (r: (IOBufferData, int))
      requires Valid()
      ensures r.0.Valid() && r.1 == MaxAvailable(n)
      ensures r.0 == this.(producer := producer + r.1)
      ensures n >= SpaceAvailable() ==> r.0.IsFull()
    {
      var k := MaxAvailable(n);
      (this.(producer := producer + k), k)
    }

    /** Consume: advance the consumer over the first readable bytes. */
    function Consume(n: int): (r: (IOBufferData, int))
      requires Valid()
      ensures r.0.Valid() && r.1 == MaxConsumable(n)
      ensures r.0 == this.(consumer := consumer + r.1)
      ensures n >= BytesConsumable() ==> r.0.IsEmpty()
    {
      var k := MaxConsumable(n);
      (this.(consumer := consumer + k), k)
    }

    /** Trim: pull the producer back so that only the first readable bytes remain. */
    function Trim(n: int): (r: (IOBufferData, int))
      requires Valid()
      ensures r.0.Valid() && r.1 == MaxConsumable(n)
      ensures r.0 == this.(producer := consumer + r.1)
    {
      var k := MaxConsumable(n);
      (this.(producer := consumer + k), k)
    }

    /** Write the window to a descriptor that accepts `room` more bytes. */
    function Write(room: nat, errno: int): (r: (IOBufferData, int))
      requires Valid()
      ensures r.0.Valid()
      ensures BytesConsumable() <= 0 ==> r == (this, -1)
      ensures BytesConsumable() > 0 && room == 0 ==>
                r.0 == this && r.1 == (if errno > 0 then -errno else -1)
      ensures BytesConsumable() > 0 && room > 0 ==>
                r.1 == Min(room, BytesConsumable()) && r.0 == this.(consumer := consumer + r.1)
    {
      var nbytes := BytesConsumable();
      if nbytes > 0 then
        var nwrote := WriteCall(room, nbytes);
        var e := if nwrote > 0 then this.(consumer := consumer + nwrote) else this;
        (e, if nwrote > 0 then nwrote else if errno > 0 then -errno else nwrote)
      else
        (this, -1)
    }

    /** ZeroFill: Fill the free space with zero bytes. */
    method ZeroFill(n: int) returns (r: IOBufferData, k: int)
      requires Valid()
      modifies block
      ensures (r, k) == Fill(n)
      ensures WrittenOnly(block, producer, producer + k)
      ensures r.Window() == old(Window()) + Zeros(k)
    {
      k := MaxAvailable(n);
      forall i | producer <= i < producer + k {
        block[i] := 0;
      }
      r := this.(producer := producer + k);
      WindowGrown(this, k, Zeros(k), old(Window()));
    }

    /** CopyIn: copy the first bytes of `src` into the free space (memmove). */
    method CopyIn(src: seq<uint8>, n: int) returns (r: IOBufferData, k: int)
      requires Valid() && n <= |src|
      modifies block
      ensures (r, k) == Fill(n)
      ensures WrittenOnly(block, producer, producer + k)
      ensures r.Window() == old(Window()) + src[..k]
    {
      k := MaxAvailable(n);
      forall i | producer <= i < producer + k {
        block[i] := src[i - producer];
      }
      r := this.(producer := producer + k);
      WindowGrown(this, k, src[..k], old(Window()));
    }

    /**
     * Copy: append the front of `other`'s readable bytes to the free space.
     * The count is clipped to both this extent's free space and `other`'s window;
     * see CopyLengthAsWritten for the source's own clip.
     */
    method Copy(other: IOBufferData, n: int) returns (r: IOBufferData, k: int)
      requires Valid() && other.Valid()
      modifies block
      ensures k == Min(MaxAvailable(n), other.BytesConsumable())
      ensures r == this.(producer := producer + k)
      ensures WrittenOnly(block, producer, producer + k)
      ensures r.Window() == old(Window()) + old(other.Window())[..k]
    {
      k := Min(MaxAvailable(n), other.BytesConsumable());
      var src := other.block[other.consumer..other.consumer + k];
      WindowPrefix(other, k);
      forall i | producer <= i < producer + k {
        block[i] := src[i - producer];
      }
      r := this.(producer := producer + k);
      WindowGrown(this, k, src, old(Window()));
    }

    /** The count IOBufferData::Copy uses as written: free space only. */
    function CopyLengthAsWritten(other: IOBufferData, n: int): int
      requires Valid()
    {
      MaxAvailable(n)
    }

    /**
     * When this extent has more room than `other` has bytes, the memmove as written
     * reads [other.consumer, other.consumer + ncopy), which runs past `other`'s
     * producer into bytes that are not in its window, while Copy stops at the end
     * of the window.
     */
    lemma CopyLengthAsWrittenOverreads(other: IOBufferData, n: int)
      requires Valid() && other.Valid()
      requires other.BytesConsumable() < n <= SpaceAvailable()
      ensures other.consumer + CopyLengthAsWritten(other, n) > other.producer
      ensures other.consumer + Min(MaxAvailable(n), other.BytesConsumable()) == other.producer
    {
    }

    /**
     * CopyOut: copy the first readable bytes into `buf` at `at`, without moving any
     * cursor (memmove, so `buf` may be this extent's own block).
     */
    method CopyOut(buf: array<uint8>, at: int, n: int) returns (k: int)
      requires Valid() && 0 <= at && at + MaxConsumable(n) <= buf.Length
      modifies buf
      ensures k == MaxConsumable(n)
      ensures buf[at..at + k] == old(Window())[..k]
      ensures WrittenOnly(buf, at, at + k)
    {
      k := MaxConsumable(n);
      ghost var w := Window();
      var src := block[consumer..consumer + k];
      WindowPrefix(this, k);
      forall i | at <= i < at + k {
        buf[i] := src[i - at];
      }
    }

    /**
     * Read a descriptor into the free space, at most `maxReadAhead` bytes. Returns the
     * count read, or -errno / read(2)'s own value when it read nothing, or -1 when
     * there is no room to read into.
     */
    method Read(src: Source, errno: int, maxReadAhead: int) returns (r: IOBufferData, ret: int)
      requires Valid()
      modifies block
      ensures r.Valid() && r.block == block && r.consumer == consumer && r.end == end
      ensures MaxAvailable(maxReadAhead) <= 0 ==> r == this && ret == -1
      ensures MaxAvailable(maxReadAhead) > 0 ==>
                var nread := ReadCall(src, MaxAvailable(maxReadAhead));
                && r.producer == producer + Max(nread, 0)
                && ret == (if nread > 0 then nread else if errno > 0 then -errno else nread)
                && r.Window() == old(Window()) + Received(src, Max(nread, 0))
      ensures WrittenOnly(block, producer, r.producer)
    {
      var nbytes := MaxAvailable(maxReadAhead);
      if nbytes > 0 {
        var nread := ReadCall(src, nbytes);
        var k := Max(nread, 0);
        var data := Received(src, k);
        forall i | producer <= i < producer + k {
          block[i] := data[i - producer];
        }
        r := this.(producer := producer + k);
        ret := if nread > 0 then nread else if errno > 0 then -errno else nread;
        WindowGrown(this, k, data, old(Window()));
      } else {
        r, ret := this, -1;
      }
    }
  }

  /** Trim keeps the first readable bytes: the trimmed window is a prefix. */
  lemma TrimWindow(d: IOBufferData, n: int)
    requires d.Valid()
    ensures d.Trim(n).0.Window() == d.Window()[..d.Trim(n).1]
  {
    var (e, k) := d.Trim(n);
    assert e.Window() == d.block[d.consumer..d.consumer + k];
  }

  /** Consume drops the first readable bytes: the consumed window is a suffix. */
  lemma ConsumeWindow(d: IOBufferData, n: int)
    requires d.Valid()
    ensures d.Consume(n).0.Window() == d.Window()[d.Consume(n).1..]
  {
    var (e, k) := d.Consume(n);
    assert e.Window() == d.block[d.consumer + k..d.producer];
  }

  /** A view over the first k readable bytes holds exactly those bytes. */
  lemma ViewPrefix(d: IOBufferData, k: int)
    requires d.Valid() && 0 <= k <= d.BytesConsumable()
    ensures View(d, d.consumer, d.consumer + k, None).Window() == d.Window()[..k]
    ensures View(d, d.consumer, d.consumer + k, None).BytesConsumable() == k
  {
    WindowPrefix(d, k);
  }

  /** The first k bytes of the window are the k bytes of the block at the consumer. */
  lemma WindowPrefix(d: IOBufferData, k: int)
    requires d.Valid() && 0 <= k <= d.BytesConsumable()
    ensures d.block[d.consumer..d.consumer + k] == d.Window()[..k]
  {
    forall i | 0 <= i < k
      ensures d.block[d.consumer..d.consumer + k][i] == d.Window()[..k][i]
    {
    }
  }

  /**
   * A window whose bytes are still `before`, with `data` written into the free space
   * just after it, grows by exactly `data`.
   */
  lemma WindowGrown(d: IOBufferData, k: int, data: seq<uint8>, before: seq<uint8>)
    requires d.Valid() && 0 <= k <= d.SpaceAvailable() && |data| == k && |before| == d.BytesConsumable()
    requires forall i :: d.consumer <= i < d.producer ==> d.block[i] == before[i - d.consumer]
    requires forall i :: d.producer <= i < d.producer + k ==> d.block[i] == data[i - d.producer]
    ensures d.(producer := d.producer + k).Window() == before + data
  {
    var w := d.(producer := d.producer + k).Window();
    forall i | 0 <= i < |w|
      ensures w[i] == (before + data)[i]
    {
      assert w[i] == d.block[d.consumer + i];
    }
  }

  /** Only block[lo..hi) may differ from the earlier state. */
  twostate predicate WrittenOnly(b: array<uint8>, lo: int, hi: int)
    reads b
  {
    forall i :: 0 <= i < b.Length && !(lo <= i < hi) ==> b[i] == old(b[i])
  }

  /** IOBufferData(): a fresh default-size block, empty (io_buffer.cpp:95-106, 63-70). */
  method NewDefault() returns (e: IOBufferData)
    ensures fresh(e.block) && e.Valid()
    ensures e.block.Length == e.end == DefaultBufferSize && e.consumer == e.producer == 0
  {
    var b := new uint8[DefaultBufferSize];
    e := IOBufferData(b, 0, 0, DefaultBufferSize);
  }

  /** IOBufferData(buf_size): a fresh block of max(0, buf_size) bytes, empty. */
  method NewSized(bufSize: int) returns (e: IOBufferData)
    ensures fresh(e.block) && e.Valid()
    ensures e.block.Length == e.end == Max(0, bufSize) && e.consumer == e.producer == 0
  {
    var size := Max(0, bufSize);
    var b := new uint8[size];
    e := IOBufferData(b, 0, 0, size);
  }

  /**
   * IOBufferData(buf, buf_size, offset, size): wrap `buf` (or a fresh block when it is
   * null) of capacity max(0, buf_size), then Fill(offset + size) and Consume(offset).
   */
  method FromBuffer(buf: array?<uint8>, bufSize: int, offset: int, size: int) returns (e: IOBufferData)
    requires buf != null ==> Max(0, bufSize) <= buf.Length
    ensures e.Valid() && e.end == Max(0, bufSize)
    ensures buf != null ==> e.block == buf
    ensures buf == null ==> fresh(e.block)
    ensures e.producer == Max(0, Min(e.end, offset + size))
    ensures e.consumer == Max(0, Min(e.producer, offset))
  {
    var cap := Max(0, bufSize);
    var b: array<uint8>;
    if buf != null { b := buf; } else { b := new uint8[cap]; }
    var empty := IOBufferData(b, 0, 0, cap);
    var filled := empty.Fill(offset + size).0;
    e := filled.Consume(offset).0;
  }

  /**
   * The slicing constructor IOBufferData(other, s, e, p): a view sharing `other`'s
   * block with window [s, p) and end `e`; an omitted `p` means p = e. The source
   * asserts the bounds; they are this function's precondition.
   */
  function View(other: IOBufferData, s: int, e: int, p: Option<int>): (r: IOBufferData)
    requires other.Valid()
    requires 0 <= s <= (if p.Some? then p.value else e) <= e <= other.end
    ensures r.Valid() && r.block == other.block
    ensures r.consumer == s && r.end == e
    ensures r.producer == (if p.Some? then p.value else e)
    ensures p.None? ==> r.IsFull()
  {
    IOBufferData(other.block, s, if p.Some? then p.value else e, e)
  }
}
