/**
 * The descriptor side of the buffer engine, given as inputs instead of performed.
 * A read(2)/readv(2) call, and a write(2)/writev(2) call, are modelled by what the
 * descriptor can deliver or accept; errno is an input as well.
 */
module Syscalls {
  import opened Bytes

  /** EAGAIN on Linux, what a failed vectored call reports when errno is still 0. */
  const EAGAIN: int := 11

  /**
   * The descriptor being read: `Ready(pending)` will deliver up to the bytes in
   * `pending` (none left means end of file), `Broken` fails every call with -1.
   */
  datatype Source = Ready(pending: seq<uint8>) | Broken

  /** The value read(2)/readv(2) returns when asked for `n > 0` bytes. */
  function ReadCall(src: Source, n: int): (r: int)
    requires n > 0
    ensures src.Broken? ==> r == -1
    ensures src.Ready? ==> 0 <= r <= n && r <= |src.pending|
    ensures src.Ready? && r < n ==> r == |src.pending|
  {
    match src
    case Ready(p) => Min(n, |p|)
    case Broken => -1
  }

  /** The first `k` bytes the descriptor delivers. */
  function Received(src: Source, k: int): (r: seq<uint8>)
    requires src.Ready? ==> 0 <= k <= |src.pending|
    ensures src.Ready? ==> r == src.pending[..k]
    ensures src.Broken? ==> r == []
  {
    match src
    case Ready(p) => p[..k]
    case Broken => []
  }

  /** The descriptor after `k` of its bytes have been read. */
  function AfterRead(src: Source, k: int): (r: Source)
    requires src.Ready? ==> 0 <= k <= |src.pending|
    ensures src.Ready? ==> r.Ready? && src.pending == Received(src, k) + r.pending
    ensures src.Broken? ==> r.Broken?
  {
    match src
    case Ready(p) => Ready(p[k..])
    case Broken => Broken
  }

  /** Reading `k` more bytes after the first `got` continues where those left off. */
  lemma ReceivedMore(src: Source, got: int, k: int)
    requires 0 <= got && 0 <= k && (src.Ready? ==> got + k <= |src.pending|)
    ensures Received(src, got) + Received(AfterRead(src, got), k) == Received(src, got + k)
    ensures AfterRead(AfterRead(src, got), k) == AfterRead(src, got + k)
  {
    if src.Ready? {
      var p := src.pending;
      assert p[..got + k] == p[..got] + p[got..][..k];
      assert p[got..][k..] == p[got + k..];
    }
  }

  /**
   * The value write(2)/writev(2) returns when offered `n > 0` bytes by a descriptor
   * that accepts `room` more bytes before it would block: a short count, or -1 when
   * it can take none.
   */
  function WriteCall(room: nat, n: int): (r: int)
    requires n > 0
    ensures room == 0 <==> r == -1
    ensures room > 0 ==> 0 < r <= n && r <= room && (r < n ==> r == room)
  {
    if room == 0 then -1 else Min(n, room)
  }

  /**
   * What IOBuffer::Read and IOBuffer::Write return when the first call fails with no
   * progress made (io_buffer.cpp:624-627, 689-690): the negated errno, or -EAGAIN when
   * errno is 0.
   */
  function ErrorReturn(errno: int): (r: int)
    ensures r < 0
    ensures errno == 0 ==> r == -EAGAIN
    ensures errno > 0 ==> r == -errno
    ensures errno < 0 ==> r == errno
  {
    var t := if errno == 0 then EAGAIN else -errno;
    if t > 0 then -t else t
  }
}
