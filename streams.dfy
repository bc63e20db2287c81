/**
 * IOBuffer: a byte stream held as a list of extents (IOBufferData) with a cached
 * byte count.  The list and the count are fields that the operations reassign;
 * the stream's bytes, Contents(), are the extents' windows in order.
 */
module Streams {
  import opened Bytes
  import opened Syscalls
  import opened Extents
  import opened Segments
  import BufList

  class IOBuffer {
    /** buf_list_: the extents, front first. */
    var segs: seq<IOBufferData>
    /** byte_count_: the cached number of bytes in the stream. */
    var count: int

    /** Every extent is well formed and byte_count_ is the sum of the extents' counts. */
    predicate Valid()
      reads this
    {
      ValidSegs(segs) && count == Length(segs)
    }

    /** The storage blocks the stream's extents look into. */
    ghost function Blocks(): set<array<uint8>>
      reads this
    {
      BlocksOf(segs)
    }

    /** The bytes of the stream, front first. */
    ghost function Contents(): (c: seq<uint8>)
      requires Valid()
      reads this, Blocks()
      ensures |c| == count
    {
      Flatten(segs)
    }

    /** IOBuffer(): an empty stream (io_buffer.cpp:240-244). */
    constructor ()
      ensures Valid() && segs == [] && Contents() == []
    {
      segs := [];
      count := 0;
    }

    /** The number of bytes in the stream, read from the cached count. */
    function BytesConsumable(): (r: int)
      requires Valid()
      reads this, Blocks()
      ensures r == |Contents()| && r >= 0
    {
      count
    }

    /** The stream holds no bytes. */
    function IsEmpty(): (r: bool)
      requires Valid()
      reads this, Blocks()
      ensures r <==> Contents() == []
    {
      count <= 0
    }

    /** Drop every extent. */
    method Clear()
      modifies this
      ensures Valid() && segs == [] && Contents() == []
    {
      segs := [];
      count := 0;
    }

    /** Append(const IOBufferData&): put a copy of `e`, sharing its block, at the back. */
    method Append(e: IOBufferData)
      requires Valid() && e.Valid()
      modifies this
      ensures Valid() && segs == old(segs) + [e]
      ensures Contents() == old(Contents()) + e.Window()
    {
      FlattenSnoc(segs, e);
      Apart(this, segs + [e]);
      segs := segs + [e];
      count := count + e.BytesConsumable();
    }

    /**
     * Append(IOBuffer*): move every extent of `other` that holds bytes to the back of
     * this stream and drop its empty ones; `other` ends empty.  A null `other` is
     * refused with -1.
     */
    method AppendBuffer(other: IOBuffer?) returns (r: int)
      requires Valid() && (other != null ==> other != this && other.Valid())
      modifies this, other
      ensures other == null ==> r == -1 && segs == old(segs) && count == old(count)
      ensures other != null ==>
                && Valid() && other.Valid()
                && r == old(other.count)
                && segs == old(segs) + NonEmpty(old(other.segs))
                && Contents() == old(Contents()) + old(other.Contents())
                && other.segs == [] && other.count == 0
    {
      if other == null {
        return -1;
      }
      ghost var before, theirs := Contents(), other.Contents();
      var mine, nbytes := BufList.Splice(segs, other.segs);
      FlattenKept(segs);
      FlattenKept(other.segs);
      assert Flatten(mine) == before + theirs;
      label spliced:
      segs, other.segs := mine, [];
      count, other.count := count + nbytes, 0;
      r := nbytes;
      FlattenKept@spliced(mine);
    }

    /**
     * Move(IOBuffer*): splice all of `other`'s extents onto the back of this stream.
     * The source asserts its guard; MoveGuard is that guard as intended.
     */
    method MoveAll(other: IOBuffer)
      requires Valid() && other.Valid() && other != this
      modifies this, other
      ensures Valid() && other.Valid()
      ensures segs == old(segs) + old(other.segs)
      ensures Contents() == old(Contents()) + old(other.Contents())
      ensures other.segs == [] && other.count == 0
    {
      MoveGuardHolds(this, other);
      assert MoveGuard(other.count, count);
      var all := segs + other.segs;
      LengthAppend(segs, other.segs);
      FlattenAppend(segs, other.segs);
      Apart(this, all);
      Apart(other, all);
      segs, other.segs := all, [];
      count, other.count := count + other.count, 0;
    }

    /**
     * Move(IOBuffer*, n): move the first n bytes of `other` to the back of this
     * stream, whole extents by splicing and the last part by sharing its block.
     * Returns the count moved, or -1 for a null `other` or a negative n.  `other`
     * may be this stream itself when n is below its count (MoveWithin).
     */
    method Move(other: IOBuffer?, n: int) returns (r: int)
      requires Valid() && (other != null ==> other.Valid() && (other == this ==> n < count))
      modifies this, other
      ensures other == null || n < 0 ==>
                && r == -1 && segs == old(segs) && count == old(count)
                && (other != null ==> other.segs == old(other.segs) && other.count == old(other.count))
      ensures other == this && n >= 0 ==>
                && Valid() && r == n
                && Contents() == old(Contents())[n..] + old(Contents())[..n]
      ensures other != null && other != this && n >= 0 ==>
                && Valid() && other.Valid()
                && r == Min(n, old(other.count))
                && Contents() == old(Contents()) + old(other.Contents())[..r]
                && other.Contents() == old(other.Contents())[r..]
                && (other.segs == [] || !other.segs[0].IsEmpty())
    {
      if other == null || n < 0 {
        return -1;
      }
      if other == this {
        r := MoveWithin(n);
        return;
      }
      var nbytes := other.count;
      if n >= nbytes {
        MoveAll(other);
        return nbytes;
      }
      r := MovePart(other, n);
    }

    /**
     * Move(this, n) for 0 <= n < count: the same loops with both lists the same one,
     * so the first n bytes' extents go to the back of the list they come from, and
     * the stream's bytes rotate by n.
     */
    method MoveWithin(n: int) returns (r: int)
      requires Valid() && 0 <= n < count
      modifies this
      ensures Valid() && r == n
      ensures Contents() == old(Contents())[n..] + old(Contents())[..n]
    {
      ghost var before := Contents();
      var taken, rest, moved := BufList.Move(segs, n);
      FlattenKept(segs);
      var all := rest + taken;
      LengthAppend(rest, taken);
      FlattenAppend(rest, taken);
      assert Flatten(all) == before[n..] + before[..n];
      Apart(this, all);
      label rotated:
      segs := all;
      r := moved;
      FlattenKept@rotated(all);
    }

    /** Move(other, n) for 0 <= n < other's count: share the first n bytes of `other`'s extents. */
    method MovePart(other: IOBuffer, n: int) returns (r: int)
      requires Valid() && other != this && other.Valid() && 0 <= n < other.count
      modifies this, other
      ensures Valid() && other.Valid() && r == n
      ensures Contents() == old(Contents()) + old(other.Contents())[..n]
      ensures other.Contents() == old(other.Contents())[n..]
      ensures other.segs == [] || !other.segs[0].IsEmpty()
    {
      var all, rest, moved := BufList.MoveOnto(segs, other.segs, n);
      FlattenKept(segs);
      FlattenKept(other.segs);
      Apart(this, all);
      Apart(other, all);
      Apart(this, rest);
      Apart(other, rest);
      label split:
      segs, other.segs := all, rest;
      count, other.count := count + moved, other.count - moved;
      r := moved;
      FlattenKept@split(all);
      FlattenKept@split(rest);
    }

    /**
     * Consume: drop the first n bytes (all of them when n is at least the count;
     * none when n is not positive), erasing the extents that become empty.  The list
     * is cleared when n is at least the count and left as it was when n is not
     * positive; otherwise it is the extents from some j on, the first one consumed
     * into (FrontCut).
     */
    method Consume(n: int) returns (r: int)
      requires Valid()
      modifies this
      ensures Valid() && Blocks() <= old(Blocks())
      ensures r == Max(0, Min(n, old(count)))
      ensures Contents() == old(Contents())[r..]
      ensures n >= old(count) ==> segs == []
      ensures n <= 0 && n < old(count) ==> segs == old(segs)
      ensures 0 < n < old(count) ==> exists j :: BufList.FrontCut(old(segs), segs, j)
    {
      if n >= count {
        segs := [];
        r := count;
        count := 0;
        return;
      }
      var rest, k := BufList.Consume(segs, n);
      Apart(this, rest);
      segs := rest;
      count := count - k;
      r := k;
    }

    /**
     * Trim: keep only the first n bytes.  No change when n is at least the count;
     * everything goes when n is not positive.  Returns the new count.
     */
    method Trim(n: int) returns (r: int)
      requires Valid()
      modifies this
      ensures Valid() && Blocks() <= old(Blocks())
      ensures r == Max(0, Min(n, old(count))) && count == r
      ensures Contents() == old(Contents())[..r]
      ensures n >= old(count) ==> segs == old(segs)
      ensures n <= 0 && n < old(count) ==> segs == []
    {
      if n >= count {
        return count;
      }
      if n <= 0 {
        segs := [];
        count := 0;
        return count;
      }
      var kept := BufList.Trim(segs, n);
      Apart(this, kept);
      segs := kept;
      count := n;
      r := count;
    }

    /**
     * Clone: a new stream whose extents are full views sharing this stream's blocks,
     * one for each extent that holds bytes; nothing is copied.
     */
    method Clone() returns (c: IOBuffer)
      requires Valid()
      ensures fresh(c) && c.Valid()
      ensures c.Contents() == Contents() && c.Blocks() <= Blocks()
      ensures forall i :: 0 <= i < |c.segs| ==> c.segs[i].IsFull() && !c.segs[i].IsEmpty()
    {
      var views := BufList.Clone(segs);
      c := new IOBuffer();
      Apart(c, views);
      c.segs := views;
      c.count := count;
    }

    /**
     * Copy: append views sharing the blocks of the first n bytes of `other`, which
     * is left as it was.  Returns the count copied, or -1 for a null `other` or a
     * negative n.  `other` may be this stream itself, for n up to its count.  See
     * BufList.CopyViewsAsWritten and BufList.SelfCopyAfter for the loop as the
     * source writes it.
     */
    method Copy(other: IOBuffer?, n: int) returns (r: int)
      requires Valid() && (other != null ==> other.Valid() && (other == this ==> n <= count))
      modifies this
      ensures other == null || n < 0 ==> r == -1 && segs == old(segs) && count == old(count)
      ensures other != null && n >= 0 ==>
                && Valid()
                && r == Min(n, old(other.count))
                && Contents() == old(Contents()) + old(other.Contents())[..r]
      ensures other != null && other != this ==> other.segs == old(other.segs) && other.count == old(other.count)
    {
      if other == null || n < 0 {
        return -1;
      }
      ghost var before, theirs := Contents(), other.Contents();
      var source := other.segs;
      var views, k := BufList.Copy(source, n);
      FlattenKept(segs);
      FlattenKept(source);
      var all := segs + views;
      LengthAppend(segs, views);
      FlattenAppend(segs, views);
      label copied:
      segs := all;
      count := count + k;
      r := k;
      FlattenKept@copied(all);
    }

    /**
     * CopyIn(buf, n): append the first n bytes of `buf`, copying into the free space
     * of the last extent and then into new default extents.  Returns n, or -1 for a
     * null `buf` or a negative n.  The bytes already in the stream stay as they were
     * when the last extent's free space is no other extent's window or the last
     * extent is full (AppendSafe).
     */
    method CopyIn(buf: Option<seq<uint8>>, n: int) returns (r: int)
      requires Valid() && (buf.Some? && n >= 0 ==> n <= |buf.value|)
      modifies this, if segs == [] then {} else {segs[|segs| - 1].block}
      ensures buf.None? || n < 0 ==> r == -1 && segs == old(segs) && count == old(count)
      ensures buf.Some? && n >= 0 ==>
                && Valid() && segs != []
                && r == n && count == old(count) + n
                && (AppendSafe(old(segs)) ==> Contents() == old(Contents()) + buf.value[..n])
    {
      if buf.None? || n < 0 {
        return -1;
      }
      var grown := BufList.CopyIn(segs, buf.value, n);
      label copied:
      segs := grown;
      count := count + n;
      r := n;
      FlattenKept@copied(grown);
    }

    /**
     * Read: read a descriptor into the stream.  A read-ahead bound that fits the last
     * extent (or a new one on an empty stream) makes one read(2) of that many bytes;
     * otherwise readv(2) rounds read up to the bound (INT_MAX when it is negative)
     * until one comes up short.  Returns the count read, or an error return when
     * nothing was read; the stream grows by the bytes read.
     */
    method Read(src: Source, errno: int, maxReadAhead: int) returns (r: int, rest: Source)
      requires Valid()
      modifies this, if segs == [] then {} else {segs[|segs| - 1].block}
      ensures Valid() && r == BufList.ReadReturn(old(segs), src, errno, maxReadAhead)
      ensures src.Ready? ==> r <= |src.pending|
      ensures count == old(count) + Max(r, 0) && rest == AfterRead(src, Max(r, 0))
      ensures AppendSafe(old(segs)) ==> Contents() == old(Contents()) + Received(src, Max(r, 0))
    {
      var grown;
      grown, r, rest := BufList.Read(segs, src, errno, maxReadAhead);
      label read:
      segs := grown;
      if r > 0 {
        count := count + r;
      }
      FlattenKept@read(grown);
    }

    /**
     * Write: write the stream to a descriptor that accepts `room` more bytes, in
     * batches of at most 32 extents and 64 KiB, dropping what was written.  Returns
     * the count written, 0 for a stream without bytes, or, when the first writev
     * fails, the negated errno (-EAGAIN when errno is 0).
     */
    method Write(room: nat, errno: int) returns (r: int)
      requires Valid()
      modifies this
      ensures Valid() && Blocks() <= old(Blocks())
      ensures old(count) == 0 ==> r == 0 && segs == []
      ensures old(count) > 0 && room == 0 ==> r == ErrorReturn(errno) && Contents() == old(Contents())
      ensures old(count) > 0 && room > 0 ==> r == Min(room, old(count)) && Contents() == old(Contents())[r..]
    {
      var rest, total := BufList.Write(segs, room, errno);
      Apart(this, rest);
      segs := rest;
      if total > 0 {
        count := count - total;
      }
      r := total;
    }

    /**
     * CopyOut: copy the first n bytes (fewer if the stream is shorter) into `buf`
     * without consuming them.  When n > 0 the first byte of `buf` is zeroed first.
     * Returns the count copied, or -1 for a null `buf` or a negative n.
     */
    method CopyOut(buf: array?<uint8>, n: int) returns (r: int)
      requires Valid()
      requires buf != null && n > 0 ==> Max(1, Min(n, count)) <= buf.Length
      modifies buf
      ensures buf == null || n < 0 ==> r == -1
      ensures buf != null && n >= 0 ==>
                && r == Min(n, count)
                && (buf !in old(Blocks()) ==> buf[..r] == old(Contents())[..r])
                && (n > 0 && r == 0 ==> buf[0] == 0)
                && WrittenOnly(buf, 0, if n > 0 then Max(r, 1) else 0)
    {
      if buf == null || n < 0 {
        return -1;
      }
      if n > 0 {
        buf[0] := 0;
      }
      ghost var zeroed := buf[..];
      r := BufList.CopyOut(segs, buf, n);
      assert forall i :: 0 <= i < buf.Length && !(0 <= i < r) ==> buf[i] == zeroed[i];
    }

    /** CopyOut of every byte into a new buffer: the stream's bytes, left in place. */
    method Peek() returns (out: seq<uint8>)
      requires Valid()
      ensures out == Contents()
    {
      ghost var blocks := Blocks();
      var buf := new uint8[count];
      assert buf !in blocks;
      var r := CopyOut(buf, count);
      out := buf[..r];
    }

    /**
     * ZeroFill: pop the empty extents off the back, zero-fill the free space of the
     * last extent, then push default extents and zero-fill them until n zero bytes
     * have been added; the count grows by n when n > 0.  The bytes already in the
     * stream stay as they were when the last extent's free space is no other
     * extent's window (TailIsolated).
     */
    method ZeroFill(n: int)
      requires Valid()
      modifies this, if DropEmptyTail(segs) == [] then {} else {DropEmptyTail(segs)[|DropEmptyTail(segs)| - 1].block}
      ensures Valid() && count == old(count) + Max(n, 0)
      ensures TailIsolated(old(DropEmptyTail(segs))) ==> Contents() == old(Contents()) + Zeros(Max(n, 0))
    {
      var grown := BufList.ZeroFill(segs, n);
      label filled:
      segs := grown;
      if n > 0 {
        count := count + n;
      }
      FlattenKept@filled(grown);
    }
  }

  /** CopyIn into a new stream followed by CopyOut gives back the bytes copied in. */
  method CopyInThenOut(data: seq<uint8>) returns (out: seq<uint8>)
    ensures out == data
  {
    var b := new IOBuffer();
    var k := b.CopyIn(Some(data), |data|);
    ghost var blocks := b.Blocks();
    var buf := new uint8[|data|];
    assert buf !in blocks;
    var r := b.CopyOut(buf, |data|);
    out := buf[..r];
  }

  /**
   * Reading a descriptor into a new stream without a read-ahead bound, then
   * CopyOut, gives back what the descriptor had, up to INT_MAX bytes.
   */
  method ReadThenOut(data: seq<uint8>) returns (out: seq<uint8>)
    ensures out == data[..Min(|data|, IntMax)]
  {
    var b := new IOBuffer();
    var r, rest := b.Read(Ready(data), 0, -1);
    ghost var blocks := b.Blocks();
    var buf := new uint8[r];
    assert buf !in blocks;
    var k := b.CopyOut(buf, r);
    out := buf[..k];
  }

  /**
   * Move(other, k) between a stream holding `data` and a new stream: reading both
   * out, the receiver holds the first k bytes and the source the rest.
   */
  method MoveThenOut(data: seq<uint8>, k: nat) returns (moved: seq<uint8>, left: seq<uint8>)
    requires k <= |data|
    ensures moved == data[..k] && left == data[k..]
  {
    var a := new IOBuffer();
    var _ := a.CopyIn(Some(data), |data|);
    ghost var full := a.Contents();
    label filled:
    var b := new IOBuffer();
    Apart(b, a.segs);
    FlattenKept@filled(a.segs);
    assert full == data;
    var m := b.Move(a, k);
    assert b.Contents() == data[..k] && a.Contents() == data[k..];
    label split:
    moved := b.Peek();
    FlattenKept@split(b.segs);
    FlattenKept@split(a.segs);
    left := a.Peek();
  }

  /** CopyIn into a new stream, Trim(n), then CopyOut of everything: the first n bytes (none for n <= 0). */
  method TrimThenOut(data: seq<uint8>, n: int) returns (out: seq<uint8>)
    ensures out == data[..Max(0, Min(n, |data|))]
  {
    var b := new IOBuffer();
    var _ := b.CopyIn(Some(data), |data|);
    assert data[..|data|] == data;
    assert b.Contents() == data;
    var r := b.Trim(n);
    assert b.Contents() == data[..r] && r == Max(0, Min(n, |data|));
    label trimmed:
    out := b.Peek();
    FlattenKept@trimmed(b.segs);
  }

  /** ZeroFill(n) on a new stream, then CopyOut of n bytes, gives n zero bytes. */
  method ZeroFillThenOut(n: nat) returns (out: seq<uint8>)
    ensures out == Zeros(n)
  {
    var b := new IOBuffer();
    assert DropEmptyTail(b.segs) == [] && TailIsolated([]);
    b.ZeroFill(n);
    assert b.Contents() == Zeros(n);
    label zeroed:
    out := b.Peek();
    FlattenKept@zeroed(b.segs);
  }

  /** No storage block is a stream object, so assigning a stream's fields leaves every block as it was. */
  lemma Apart(b: IOBuffer, s: seq<IOBufferData>)
    ensures forall a | a in BlocksOf(s) :: a as object != b
  {
  }

  /** The guard IOBuffer::Move(IOBuffer*) asserts, as intended: both counts are not negative. */
  predicate MoveGuard(otherCount: int, count: int)
  {
    otherCount >= 0 && count >= 0
  }

  /** The same guard as the source writes it: `byte_count_ >> 0` is byte_count_ itself, so it demands a non-empty destination. */
  predicate MoveGuardAsWritten(otherCount: int, count: int)
  {
    otherCount >= 0 && count != 0
  }

  /** Move(other) on two well-formed streams passes the intended guard. */
  lemma MoveGuardHolds(b: IOBuffer, other: IOBuffer)
    requires b.Valid() && other.Valid()
    ensures MoveGuard(other.count, b.count)
  {
  }

  /**
   * Move(other) into a stream with no bytes, as a new stream is, fails the guard as
   * written while it passes the intended one: the debug build aborts on the common
   * case.
   */
  lemma MoveGuardAsWrittenRejectsEmpty(b: IOBuffer, other: IOBuffer)
    requires b.Valid() && other.Valid() && b.IsEmpty()
    ensures !MoveGuardAsWritten(other.count, b.count)
    ensures MoveGuard(other.count, b.count)
  {
  }
}
