/**
 * The loops IOBuffer runs over its list of extents, as methods on list values:
 * each takes the lists it walks and returns the lists it leaves, and the IOBuffer
 * methods (module Streams) store the results back into their fields.
 */
module BufList {
  import opened Bytes
  import opened Extents
  import opened Syscalls
  import opened Segments

  /**
   * The loop of Append(IOBuffer*): every extent of `theirs` that holds bytes goes to
   * the back of `mine`, the empty ones are dropped; returns the bytes moved.
   */
  method Splice(mine: seq<IOBufferData>, theirs: seq<IOBufferData>) returns (m: seq<IOBufferData>, nbytes: int)
    requires ValidSegs(mine) && ValidSegs(theirs)
    ensures m == mine + NonEmpty(theirs) && ValidSegs(m)
    ensures nbytes == Length(theirs)
    ensures Flatten(m) == Flatten(mine) + Flatten(theirs)
    ensures Length(m) == Length(mine) + Length(theirs)
  {
    var rest := theirs;
    ghost var j := 0;
    m, nbytes := mine, 0;
    while rest != []
      invariant 0 <= j <= |theirs| && rest == theirs[j..]
      invariant m == mine + NonEmpty(theirs[..j])
      invariant nbytes == Length(theirs[..j])
      decreases |rest|
    {
      var e := rest[0];
      assert e == theirs[j];
      assert theirs[..j + 1][..j] == theirs[..j];
      var nb := e.BytesConsumable();
      if nb > 0 {
        m := m + [e];
        nbytes := nbytes + nb;
      } else {
        assert NonEmpty(theirs[..j + 1]) == NonEmpty(theirs[..j]) + [];
      }
      rest := rest[1..];
      j := j + 1;
    }
    assert theirs[..j] == theirs;
    NonEmptyKeeps(theirs);
    LengthAppend(mine, NonEmpty(theirs));
    FlattenAppend(mine, NonEmpty(theirs));
  }

  /**
   * The partial-move loop of Move(IOBuffer*, n), for 0 <= n below the bytes of
   * `theirs`: whole front extents are taken (spliced), the extent holding the n-th
   * byte is split by a view sharing its block and a Consume, and the empty extents
   * left at the front of `theirs` are popped.  Returns the extents to append to the
   * receiving stream, what remains of `theirs`, and the bytes moved.
   */
  method Move(theirs: seq<IOBufferData>, n: int)
    returns (taken: seq<IOBufferData>, o: seq<IOBufferData>, moved: int)
    requires ValidSegs(theirs) && 0 <= n < Length(theirs)
    ensures ValidSegs(taken) && ValidSegs(o) && moved == n
    ensures Flatten(taken) == Flatten(theirs)[..n] && Length(taken) == n
    ensures Flatten(o) == Flatten(theirs)[n..] && Length(o) == Length(theirs) - n
    ensures o == [] || !o[0].IsEmpty()
    ensures BlocksOf(taken) <= BlocksOf(theirs) && BlocksOf(o) <= BlocksOf(theirs)
  {
    taken, o := MoveBytes(theirs, n);
    o := PopEmpty(theirs, n, taken, o);
    moved := n;
  }

  /** Move(other, n) for 0 <= n < Length(theirs): the first n bytes of `theirs` appended to `mine`, and the rest. */
  method MoveOnto(mine: seq<IOBufferData>, theirs: seq<IOBufferData>, n: int)
    returns (all: seq<IOBufferData>, rest: seq<IOBufferData>, moved: int)
    requires ValidSegs(mine) && ValidSegs(theirs) && 0 <= n < Length(theirs)
    ensures ValidSegs(all) && ValidSegs(rest) && moved == n
    ensures Flatten(all) == Flatten(mine) + Flatten(theirs)[..n] && Length(all) == Length(mine) + n
    ensures Flatten(rest) == Flatten(theirs)[n..] && Length(rest) == Length(theirs) - n
    ensures rest == [] || !rest[0].IsEmpty()
  {
    var taken;
    taken, rest, moved := Move(theirs, n);
    all := mine + taken;
    LengthAppend(mine, taken);
    FlattenAppend(mine, taken);
  }

  /** The first loop of Move: take whole extents, then a view of part of one, until n bytes are taken. */
  method MoveBytes(theirs: seq<IOBufferData>, n: int) returns (taken: seq<IOBufferData>, o: seq<IOBufferData>)
    requires ValidSegs(theirs) && 0 <= n < Length(theirs)
    ensures Moving(theirs, n, n, taken, o)
  {
    taken, o := [], theirs;
    var toMove := n;
    ghost var done := 0;
    assert Flatten(theirs)[..0] == [] && Flatten(theirs)[0..] == Flatten(theirs);
    while o != [] && toMove > 0
      invariant done == n - toMove && Moving(theirs, n, done, taken, o)
      decreases |o|, toMove
    {
      var data := o[0];
      var nb := data.BytesConsumable();
      if toMove > nb {
        if nb > 0 {
          var taken2, o2, done2 := taken + [data], o[1..], done + nb;
          MoveWhole(theirs, n, done, taken, o, done2, taken2, o2);
          taken, o, done := taken2, o2, done2;
          toMove := toMove - nb;
        } else {
          var o2 := o[1..];
          MovePop(theirs, n, done, taken, o, o2);
          o := o2;
        }
      } else {
        var v := View(data, data.consumer, data.consumer + toMove, None);
        var (d, k) := data.Consume(toMove);
        var taken2, o2, done2 := taken + [v], o[0 := d], done + toMove;
        MoveSplit(theirs, n, done, toMove, taken, o, v, d, k, done2, taken2, o2);
        taken, o, done := taken2, o2, done2;
        toMove := toMove - k;
      }
    }
  }

  /** The second loop of Move: pop the extents left empty at the front of the rest. */
  method PopEmpty(ghost theirs: seq<IOBufferData>, ghost n: int, ghost taken: seq<IOBufferData>, o: seq<IOBufferData>)
    returns (o2: seq<IOBufferData>)
    requires Moving(theirs, n, n, taken, o)
    ensures Moving(theirs, n, n, taken, o2) && (o2 == [] || !o2[0].IsEmpty())
  {
    o2 := o;
    while o2 != [] && o2[0].IsEmpty()
      invariant Moving(theirs, n, n, taken, o2)
      decreases |o2|
    {
      var o3 := o2[1..];
      MovePop(theirs, n, n, taken, o2, o3);
      o2 := o3;
    }
  }

  /** The state of Move's loops: `done` bytes taken, the rest left in `o`. */
  ghost predicate Moving(theirs: seq<IOBufferData>, n: int, done: int,
                         taken: seq<IOBufferData>, o: seq<IOBufferData>)
    reads BlocksOf(theirs), BlocksOf(taken), BlocksOf(o)
  {
    && ValidSegs(theirs) && 0 <= done <= n < Length(theirs)
    && ValidSegs(taken) && ValidSegs(o)
    && BlocksOf(taken) <= BlocksOf(theirs) && BlocksOf(o) <= BlocksOf(theirs)
    && Length(taken) == done && Flatten(taken) == Flatten(theirs)[..done]
    && Length(o) == Length(theirs) - done && Flatten(o) == Flatten(theirs)[done..]
  }

  /** Taking a whole non-empty front extent moves its bytes across. */
  lemma MoveWhole(theirs: seq<IOBufferData>, n: int, done: int, taken: seq<IOBufferData>, o: seq<IOBufferData>,
                  done2: int, taken2: seq<IOBufferData>, o2: seq<IOBufferData>)
    requires Moving(theirs, n, done, taken, o) && o != []
    requires 0 < o[0].BytesConsumable() && done + o[0].BytesConsumable() < n
    requires done2 == done + o[0].BytesConsumable() && taken2 == taken + [o[0]] && o2 == o[1..]
    ensures Moving(theirs, n, done2, taken2, o2)
  {
    FrontOf(o);
    MoveStep(theirs, n, done, taken, o, o[0], o2, o[0].BytesConsumable());
  }

  /** Popping an empty front extent moves nothing. */
  lemma MovePop(theirs: seq<IOBufferData>, n: int, done: int, taken: seq<IOBufferData>, o: seq<IOBufferData>,
                o2: seq<IOBufferData>)
    requires Moving(theirs, n, done, taken, o) && o != [] && o[0].IsEmpty() && o2 == o[1..]
    ensures Moving(theirs, n, done, taken, o2)
  {
    FrontOf(o);
  }

  /** Splitting the front extent: a view of its first toMove bytes, the rest consumed. */
  lemma MoveSplit(theirs: seq<IOBufferData>, n: int, done: int, toMove: int,
                  taken: seq<IOBufferData>, o: seq<IOBufferData>, v: IOBufferData, d: IOBufferData, k: int,
                  done2: int, taken2: seq<IOBufferData>, o2: seq<IOBufferData>)
    requires Moving(theirs, n, done, taken, o) && o != [] && done + toMove == n
    requires 0 < toMove <= o[0].BytesConsumable()
    requires v == View(o[0], o[0].consumer, o[0].consumer + toMove, None)
    requires (d, k) == o[0].Consume(toMove)
    requires done2 == done + toMove && taken2 == taken + [v] && o2 == o[0 := d]
    ensures k == toMove
    ensures Moving(theirs, n, done2, taken2, o2)
  {
    SplitFront(o, toMove, v, d, k);
    MoveStep(theirs, n, done, taken, o, v, o2, toMove);
  }

  /** Any step that moves the first c bytes of `o` over as one extent `e` keeps Moving. */
  lemma MoveStep(theirs: seq<IOBufferData>, n: int, done: int, taken: seq<IOBufferData>,
                 o: seq<IOBufferData>, e: IOBufferData, o2: seq<IOBufferData>, c: int)
    requires Moving(theirs, n, done, taken, o) && 0 < c && done + c <= n
    requires e.Valid() && e.BytesConsumable() == c && e.block in BlocksOf(o)
    requires e.Window() == Flatten(o)[..c]
    requires ValidSegs(o2) && BlocksOf(o2) <= BlocksOf(o)
    requires Flatten(o2) == Flatten(o)[c..] && Length(o2) == Length(o) - c
    ensures Moving(theirs, n, done + c, taken + [e], o2)
  {
    FlattenSnoc(taken, e);
    BlocksSnoc(taken, e);
    Advance(Flatten(theirs), done, c);
  }

  /** The front extent of a list: its window, its count and its block, and the rest's. */
  lemma FrontOf(o: seq<IOBufferData>)
    requires ValidSegs(o) && o != []
    ensures ValidSegs(o[1..]) && o[0].Valid()
    ensures 0 <= o[0].BytesConsumable() <= Length(o)
    ensures o[0].Window() == Flatten(o)[..o[0].BytesConsumable()]
    ensures Flatten(o[1..]) == Flatten(o)[o[0].BytesConsumable()..]
    ensures Length(o[1..]) == Length(o) - o[0].BytesConsumable()
    ensures o[0].block in BlocksOf(o) && BlocksOf(o[1..]) <= BlocksOf(o)
  {
    FlattenFront(o);
    assert o[0] in o;
    assert forall x | x in o[1..] :: x in o;
  }

  /** A view of the front's first t bytes, and the front consumed by t. */
  lemma SplitFront(o: seq<IOBufferData>, t: int, v: IOBufferData, d: IOBufferData, k: int)
    requires ValidSegs(o) && o != [] && 0 <= t <= o[0].BytesConsumable() && t <= Length(o)
    requires v == View(o[0], o[0].consumer, o[0].consumer + t, None)
    requires (d, k) == o[0].Consume(t)
    ensures k == t && v.Valid() && v.BytesConsumable() == t
    ensures v.Window() == Flatten(o)[..t] && v.block in BlocksOf(o)
    ensures ValidSegs(o[0 := d]) && BlocksOf(o[0 := d]) <= BlocksOf(o)
    ensures Flatten(o[0 := d]) == Flatten(o)[t..] && Length(o[0 := d]) == Length(o) - t
  {
    FlattenFront(o);
    ConsumeFront(o, d, k);
    ViewPrefix(o[0], t);
    assert o[0] in o;
    BlocksUpdate(o, 0, d);
  }

  /** Moving k more bytes: the taken prefix grows by them, the remaining suffix loses them. */
  lemma Advance(all: seq<uint8>, done: int, k: int)
    requires 0 <= done && 0 <= k && done + k <= |all|
    ensures all[..done + k] == all[..done] + all[done..][..k]
    ensures all[done + k..] == all[done..][k..]
  {
    assert all[..done + k] == all[..done] + all[done..done + k];
  }

  /**
   * The list Consume leaves: the extents of `s` from j on, the first of them with
   * its consumer moved forward (or not at all); the extents before j are erased.
   */
  predicate FrontCut(s: seq<IOBufferData>, t: seq<IOBufferData>, j: int)
  {
    && 0 <= j < |s| && |t| == |s| - j && t[1..] == s[j + 1..]
    && t[0] == s[j].(consumer := t[0].consumer) && s[j].consumer <= t[0].consumer
  }

  /**
   * The loop of Consume(n), for n below the stream's bytes: advance the front
   * extents' consumers over the first n bytes, erasing every extent that empties.
   * Nothing changes for n <= 0; otherwise the list left is a FrontCut of `s`.
   */
  method Consume(s: seq<IOBufferData>, n: int) returns (t: seq<IOBufferData>, r: int)
    requires ValidSegs(s) && n < Length(s)
    ensures ValidSegs(t) && BlocksOf(t) <= BlocksOf(s)
    ensures r == Max(0, n)
    ensures Flatten(t) == Flatten(s)[r..] && Length(t) == Length(s) - r
    ensures n <= 0 ==> t == s
    ensures n > 0 ==> exists j :: FrontCut(s, t, j)
  {
    t := s;
    var nbytes := n;
    var i := 0;
    ghost var done := 0;
    ghost var j := 0;
    assert Flatten(s)[0..] == Flatten(s);
    assert s == [] || FrontCut(s, s, 0);
    while nbytes > 0 && i < |t|
      invariant Consuming(s, n, done, i, t)
      invariant nbytes == n - done && done <= Max(n, 0)
      invariant t == [] || FrontCut(s, t, j)
      invariant n <= 0 ==> t == s
      decreases |t| - i
    {
      t, i, nbytes, done, j := ConsumeRound(s, n, done, i, t, nbytes, j);
    }
    if t == [] {
      assert Length(t) == 0;
    }
    if nbytes > 0 {
      assert false;
    }
    r := n - nbytes;
  }

  /** One round of Consume's loop: consume from extent i, and erase it if it empties. */
  method ConsumeRound(ghost s: seq<IOBufferData>, n: int, ghost done: int, i: int, t: seq<IOBufferData>, nbytes: int,
                      ghost j: int)
    returns (t2: seq<IOBufferData>, i2: int, nbytes2: int, ghost done2: int, ghost j2: int)
    requires Consuming(s, n, done, i, t) && i < |t| && 0 < nbytes == n - done
    requires FrontCut(s, t, j)
    ensures Consuming(s, n, done2, i2, t2) && nbytes2 == n - done2 && done2 <= n
    ensures i <= i2 && |t2| - i2 == |t| - i - 1
    ensures t2 == [] || FrontCut(s, t2, j2)
  {
    var (e, k) := t[i].Consume(nbytes);
    ConsumeStep(s, n, done, i, t, e, k);
    nbytes2, done2 := nbytes - k, done + k;
    if e.IsEmpty() {
      t2, i2, j2 := t[..i] + t[i + 1..], i, j + 1;
      CutNext(s, t, j);
    } else {
      t2, i2, j2 := t[i := e], i + 1, j;
    }
  }

  /** Erasing the front extent of a FrontCut of `s` leaves the next one. */
  lemma CutNext(s: seq<IOBufferData>, t: seq<IOBufferData>, j: int)
    requires FrontCut(s, t, j) && 0 < |t|
    ensures t[0..0] + t[1..] == [] || FrontCut(s, t[0..0] + t[1..], j + 1)
  {
    var u := t[0..0] + t[1..];
    assert u == s[j + 1..];
    if u != [] {
      assert u[0] == s[j + 1] && u[1..] == s[j + 2..];
    }
  }

  /** The state of Consume's loop: `done` bytes consumed off the front. */
  ghost predicate Consuming(s: seq<IOBufferData>, n: int, done: int, i: int, t: seq<IOBufferData>)
    reads BlocksOf(s), BlocksOf(t)
  {
    && ValidSegs(s) && ValidSegs(t) && 0 <= i <= |t| && BlocksOf(t) <= BlocksOf(s)
    && 0 <= done && (i > 0 ==> done == n) && Length(t) == Length(s) - done
    && Flatten(t) == Flatten(s)[done..]
  }

  /** One round of Consume: the front extent gives up k bytes, and is erased if emptied. */
  lemma ConsumeStep(s: seq<IOBufferData>, n: int, done: int, i: int, t: seq<IOBufferData>,
                    e: IOBufferData, k: int)
    requires Consuming(s, n, done, i, t) && i < |t| && done < n
    requires (e, k) == t[i].Consume(n - done)
    ensures e.IsEmpty() || k == n - done
    ensures e.IsEmpty() ==> Consuming(s, n, done + k, i, t[..i] + t[i + 1..])
    ensures !e.IsEmpty() ==> Consuming(s, n, done + k, i + 1, t[i := e])
  {
    assert i == 0;
    ConsumeFront(t, e, k);
    assert Flatten(s)[done..][k..] == Flatten(s)[done + k..];
    if e.IsEmpty() {
      assert t[..i] + t[i + 1..] == t[1..];
      assert forall x | x in t[1..] :: x in t;
      assert Flatten(t[1..]) == Flatten(s)[done + k..];
    } else {
      BlocksUpdate(t, 0, e);
      assert Flatten(t[0 := e]) == Flatten(s)[done + k..];
    }
  }

  /**
   * The loop of Trim(n), for 0 < n below the stream's bytes: walk to the extent
   * holding the n-th byte, erasing empty extents on the way, trim it, and erase
   * everything after it (and it too, if trimming left it empty).
   */
  method Trim(s: seq<IOBufferData>, n: int) returns (t: seq<IOBufferData>)
    requires ValidSegs(s) && 0 < n < Length(s)
    ensures ValidSegs(t) && BlocksOf(t) <= BlocksOf(s)
    ensures Flatten(t) == Flatten(s)[..n] && Length(t) == n
  {
    t := s;
    var nbytes := n;
    var i := 0;
    while i < |t|
      invariant Trimming(s, n, nbytes, i, t)
      decreases |t| - i
    {
      var nb := t[i].BytesConsumable();
      if nb <= 0 {
        TrimErase(s, n, nbytes, i, t);
        t := t[..i] + t[i + 1..];
      } else {
        if nb > nbytes {
          var (e, _) := t[i].Trim(nbytes);
          var u := if e.IsEmpty() then t[..i] else t[..i] + [e];
          TrimDone(s, n, nbytes, i, t, e, u);
          t := u;
          return;
        }
        TrimPass(s, n, nbytes, i, t);
        nbytes := nbytes - nb;
        i := i + 1;
      }
    }
    PrefixWhole(t);
    assert false;
  }

  /** The state of Trim's loop: the same bytes, the first i extents holding n - nbytes of them. */
  ghost predicate Trimming(s: seq<IOBufferData>, n: int, nbytes: int, i: int, t: seq<IOBufferData>)
    reads BlocksOf(s), BlocksOf(t)
  {
    && ValidSegs(s) && ValidSegs(t) && 0 <= i <= |t| && BlocksOf(t) <= BlocksOf(s)
    && 0 <= nbytes <= n && Flatten(t) == Flatten(s) && Length(t) == Length(s)
    && Length(t[..i]) == n - nbytes
  }

  /** Cutting extent i, which holds the n-th byte, leaves exactly the first n bytes. */
  lemma TrimDone(s: seq<IOBufferData>, n: int, nbytes: int, i: int, t: seq<IOBufferData>,
                 e: IOBufferData, u: seq<IOBufferData>)
    requires Trimming(s, n, nbytes, i, t) && i < |t| && nbytes < t[i].BytesConsumable()
    requires e == t[i].(producer := t[i].consumer + nbytes)
    requires u == if e.IsEmpty() then t[..i] else t[..i] + [e]
    ensures n <= Length(s) == |Flatten(s)|
    ensures ValidSegs(u) && BlocksOf(u) <= BlocksOf(s)
    ensures Flatten(u) == Flatten(s)[..n] && Length(u) == n
  {
    TrimCut(t, i, nbytes, e, u);
  }

  /** Erasing the empty extent i keeps Trim's loop state. */
  lemma TrimErase(s: seq<IOBufferData>, n: int, nbytes: int, i: int, t: seq<IOBufferData>)
    requires Trimming(s, n, nbytes, i, t) && i < |t| && t[i].IsEmpty()
    ensures Trimming(s, n, nbytes, i, t[..i] + t[i + 1..])
  {
    EraseEmpty(t, i);
    assert forall x | x in t[..i] + t[i + 1..] :: x in t;
  }

  /** Passing over extent i, which the count still covers, keeps Trim's loop state. */
  lemma TrimPass(s: seq<IOBufferData>, n: int, nbytes: int, i: int, t: seq<IOBufferData>)
    requires Trimming(s, n, nbytes, i, t) && i < |t| && t[i].BytesConsumable() <= nbytes
    ensures Trimming(s, n, nbytes - t[i].BytesConsumable(), i + 1, t)
  {
    PrefixStep(t, i);
  }

  /**
   * Trimming segment i to its first k bytes, and erasing the segments after it (and
   * it too when it is left empty), leaves the first Length(t[..i]) + k bytes.
   */
  lemma TrimCut(t: seq<IOBufferData>, i: int, k: int, e: IOBufferData, u: seq<IOBufferData>)
    requires ValidSegs(t) && 0 <= i < |t| && 0 <= k < t[i].BytesConsumable()
    requires e == t[i].(producer := t[i].consumer + k)
    requires u == if e.IsEmpty() then t[..i] else t[..i] + [e]
    ensures ValidSegs(u) && BlocksOf(u) <= BlocksOf(t)
    ensures 0 <= Length(t[..i]) && Length(t[..i]) + k <= Length(t)
    ensures Length(u) == Length(t[..i]) + k
    ensures Flatten(u) == Flatten(t)[..Length(t[..i]) + k]
  {
    if e.IsEmpty() {
      CutBefore(t, i);
    } else {
      CutInside(t, i, k, e);
    }
  }

  /** Erasing segment i and everything after it leaves the first Length(t[..i]) bytes. */
  lemma CutBefore(t: seq<IOBufferData>, i: int)
    requires ValidSegs(t) && 0 <= i < |t|
    ensures ValidSegs(t[..i]) && BlocksOf(t[..i]) <= BlocksOf(t)
    ensures 0 <= Length(t[..i]) <= Length(t)
    ensures Flatten(t[..i]) == Flatten(t)[..Length(t[..i])]
  {
    FlattenPrefix(t, i, 0);
    assert t[i].Window()[..0] == [];
  }

  /** Keeping the first k > 0 bytes of segment i, and erasing what follows it. */
  lemma CutInside(t: seq<IOBufferData>, i: int, k: int, e: IOBufferData)
    requires ValidSegs(t) && 0 <= i < |t| && 0 <= k <= t[i].BytesConsumable()
    requires e == t[i].(producer := t[i].consumer + k)
    ensures ValidSegs(t[..i] + [e]) && BlocksOf(t[..i] + [e]) <= BlocksOf(t)
    ensures 0 <= Length(t[..i]) && Length(t[..i]) + k <= Length(t)
    ensures Length(t[..i] + [e]) == Length(t[..i]) + k
    ensures Flatten(t[..i] + [e]) == Flatten(t)[..Length(t[..i]) + k]
  {
    CutBefore(t, i);
    CutBytes(t, i, k, e);
    assert t[i] in t;
    FlattenSnoc(t[..i], e);
    BlocksSnoc(t[..i], e);
  }

  /** The bytes of CutInside: the first Length(t[..i]) + k bytes of the list. */
  lemma CutBytes(t: seq<IOBufferData>, i: int, k: int, e: IOBufferData)
    requires ValidSegs(t) && 0 <= i < |t| && 0 <= k <= t[i].BytesConsumable()
    requires e == t[i].(producer := t[i].consumer + k)
    ensures 0 <= Length(t[..i]) && Length(t[..i]) + k <= Length(t) == |Flatten(t)|
    ensures Flatten(t[..i] + [e]) == Flatten(t)[..Length(t[..i]) + k]
  {
    CutBefore(t, i);
    FlattenPrefix(t, i, k);
    assert t[i] in t;
    calc {
      Flatten(t[..i] + [e]);
      == { FlattenSnoc(t[..i], e); }
      Flatten(t[..i]) + e.Window();
      == { WindowPrefix(t[i], k); }
      Flatten(t[..i]) + t[i].Window()[..k];
    }
  }

  /**
   * The loop of Clone(): a full view (end = producer) sharing the block of every
   * extent that holds bytes.
   */
  method Clone(s: seq<IOBufferData>) returns (views: seq<IOBufferData>)
    requires ValidSegs(s)
    ensures ValidSegs(views) && BlocksOf(views) <= BlocksOf(s)
    ensures Flatten(views) == Flatten(s) && Length(views) == Length(s)
    ensures forall j :: 0 <= j < |views| ==> views[j].IsFull() && !views[j].IsEmpty()
  {
    views := [];
    var i := 0;
    while i < |s|
      invariant Cloning(s, i, views)
    {
      var e := s[i];
      var v := View(e, e.consumer, e.producer, None);
      CloneStep(s, i, views, v);
      if !e.IsEmpty() {
        views := views + [v];
      }
      i := i + 1;
    }
    PrefixWhole(s);
  }

  /** The state of Clone's loop: full views of the non-empty extents among the first i. */
  ghost predicate Cloning(s: seq<IOBufferData>, i: int, views: seq<IOBufferData>)
    reads BlocksOf(s), BlocksOf(views)
  {
    && ValidSegs(s) && 0 <= i <= |s|
    && ValidSegs(views) && BlocksOf(views) <= BlocksOf(s)
    && Length(views) == Length(s[..i]) && Flatten(views) == Flatten(s[..i])
    && forall j :: 0 <= j < |views| ==> views[j].IsFull() && !views[j].IsEmpty()
  }

  /** One round of Clone: extent i's window joins the views when it is not empty. */
  lemma CloneStep(s: seq<IOBufferData>, i: int, views: seq<IOBufferData>, v: IOBufferData)
    requires Cloning(s, i, views) && i < |s|
    requires v == View(s[i], s[i].consumer, s[i].producer, None)
    ensures Cloning(s, i + 1, if s[i].IsEmpty() then views else views + [v])
  {
    PrefixStep(s, i);
    assert s[i] in s;
    if s[i].IsEmpty() {
      assert s[i].Window() == [];
    } else {
      FlattenSnoc(views, v);
      BlocksSnoc(views, v);
    }
  }

  /**
   * The loop of Copy(other, n), with the count of bytes still to copy decreasing
   * as it goes: a view sharing the block of each front part of `theirs`, until n
   * bytes are covered.  Returns the views, to go at the back of the stream, and the
   * bytes they hold.
   */
  method Copy(theirs: seq<IOBufferData>, n: int) returns (views: seq<IOBufferData>, r: int)
    requires ValidSegs(theirs) && n >= 0
    ensures ValidSegs(views) && BlocksOf(views) <= BlocksOf(theirs)
    ensures r == Min(n, Length(theirs))
    ensures Flatten(views) == Flatten(theirs)[..r] && Length(views) == r
  {
    views := [];
    var nbytes := n;
    var i := 0;
    while i < |theirs| && nbytes > 0
      invariant Copying(theirs, n, nbytes, i, views)
      decreases |theirs| - i
    {
      var e := theirs[i];
      var nb := Min(e.BytesConsumable(), nbytes);
      var v := View(e, e.consumer, e.consumer + nb, None);
      if nb < e.BytesConsumable() {
        // The view covers only part of the extent: the n bytes are all copied.
        CopyPart(theirs, n, nbytes, i, views, v);
        views, r := views + [v], n;
        return;
      }
      CopyWhole(theirs, n, nbytes, i, views, v);
      if nb > 0 {
        views := views + [v];
      }
      nbytes := nbytes - nb;
      i := i + 1;
    }
    CopyDone(theirs, n, nbytes, i, views);
    r := n - nbytes;
  }

  /** The state of Copy's loop: views over the first i extents, n - nbytes bytes. */
  ghost predicate Copying(theirs: seq<IOBufferData>, n: int, nbytes: int, i: int, views: seq<IOBufferData>)
    reads BlocksOf(theirs), BlocksOf(views)
  {
    && ValidSegs(theirs) && 0 <= i <= |theirs| && 0 <= nbytes <= n
    && ValidSegs(views) && BlocksOf(views) <= BlocksOf(theirs)
    && Length(views) == Length(theirs[..i]) == n - nbytes
    && Flatten(views) == Flatten(theirs[..i])
  }

  /** A view over all of extent i (nothing, when it is empty) moves Copy's loop on. */
  lemma CopyWhole(theirs: seq<IOBufferData>, n: int, nbytes: int, i: int, views: seq<IOBufferData>, v: IOBufferData)
    requires Copying(theirs, n, nbytes, i, views) && i < |theirs| && nbytes > 0
    requires theirs[i].BytesConsumable() <= nbytes
    requires v == View(theirs[i], theirs[i].consumer, theirs[i].producer, None)
    ensures var nb := theirs[i].BytesConsumable();
      Copying(theirs, n, nbytes - nb, i + 1, if nb > 0 then views + [v] else views)
  {
    var e := theirs[i];
    assert e in theirs;
    PrefixStep(theirs, i);
    ViewPrefix(e, e.BytesConsumable());
    assert e.Window()[..e.BytesConsumable()] == e.Window();
    if e.BytesConsumable() > 0 {
      FlattenSnoc(views, v);
      BlocksSnoc(views, v);
    } else {
      assert e.Window() == [];
    }
  }

  /** A view over the first nbytes of a longer extent i completes Copy. */
  lemma CopyPart(theirs: seq<IOBufferData>, n: int, nbytes: int, i: int, views: seq<IOBufferData>, v: IOBufferData)
    requires Copying(theirs, n, nbytes, i, views) && i < |theirs| && nbytes > 0
    requires nbytes < theirs[i].BytesConsumable()
    requires v == View(theirs[i], theirs[i].consumer, theirs[i].consumer + nbytes, None)
    ensures ValidSegs(views + [v]) && BlocksOf(views + [v]) <= BlocksOf(theirs)
    ensures n == Min(n, Length(theirs))
    ensures Flatten(views + [v]) == Flatten(theirs)[..n] && Length(views + [v]) == n
  {
    var e := theirs[i];
    assert e in theirs;
    FlattenPrefix(theirs, i, nbytes);
    assert Length(theirs[..i]) + nbytes == n;
    ViewPrefix(e, nbytes);
    FlattenSnoc(views, v);
    BlocksSnoc(views, v);
    assert Flatten(views + [v]) == Flatten(theirs[..i]) + e.Window()[..nbytes];
  }

  /** When Copy's loop stops on its own, the views hold min(n, all) bytes. */
  lemma CopyDone(theirs: seq<IOBufferData>, n: int, nbytes: int, i: int, views: seq<IOBufferData>)
    requires Copying(theirs, n, nbytes, i, views) && (i == |theirs| || nbytes <= 0)
    ensures ValidSegs(views) && BlocksOf(views) <= BlocksOf(theirs)
    ensures n - nbytes == Min(n, Length(theirs))
    ensures Flatten(views) == Flatten(theirs)[..n - nbytes] && Length(views) == n - nbytes
  {
    if i < |theirs| {
      FlattenPrefix(theirs, i, 0);
    } else {
      PrefixWhole(theirs);
    }
  }

  /**
   * The views the loop of Copy(other, n) appends as the source writes it: the
   * count still to copy is never decreased, so each extent of `theirs` with bytes
   * gives a view of up to n of them, whatever the extents before it gave.  The
   * count Copy then returns, num_bytes - nbytes, is 0.
   */
  function CopyViewsAsWritten(theirs: seq<IOBufferData>, n: int): (views: seq<IOBufferData>)
    requires ValidSegs(theirs)
    ensures ValidSegs(views)
  {
    if theirs == [] then []
    else CopyViewsAsWritten(theirs[..|theirs| - 1], n) + ViewAsWritten(theirs[|theirs| - 1], n)
  }

  /** The view one extent gives in Copy's loop as written: up to n of its bytes. */
  function ViewAsWritten(e: IOBufferData, n: int): (r: seq<IOBufferData>)
    requires e.Valid()
    ensures ValidSegs(r)
    ensures n >= 0 ==> Length(r) == Min(e.BytesConsumable(), n)
  {
    var nb := Min(e.BytesConsumable(), n);
    if nb > 0 then
      var v := View(e, e.consumer, e.consumer + nb, None);
      LengthOne(v);
      [v]
    else []
  }

  /** Each extent with bytes adds a view of up to n of them to the views before it. */
  lemma ViewsAsWrittenSnoc(theirs: seq<IOBufferData>, n: int)
    requires ValidSegs(theirs) && theirs != [] && n >= 0
    ensures Length(CopyViewsAsWritten(theirs, n)) ==
            Length(CopyViewsAsWritten(theirs[..|theirs| - 1], n)) + Min(theirs[|theirs| - 1].BytesConsumable(), n)
  {
    LengthAppend(CopyViewsAsWritten(theirs[..|theirs| - 1], n), ViewAsWritten(theirs[|theirs| - 1], n));
  }

  /**
   * Copy as written appends at least as many bytes as the corrected Copy, which
   * returns that count, min(n, Length(theirs)), while it returns 0.
   */
  lemma {:induction false} CopyAsWrittenAppendsAll(theirs: seq<IOBufferData>, n: int)
    requires ValidSegs(theirs) && n >= 0
    ensures Length(CopyViewsAsWritten(theirs, n)) >= Min(n, Length(theirs))
    decreases |theirs|
  {
    if theirs != [] {
      CopyAsWrittenAppendsAll(theirs[..|theirs| - 1], n);
      ViewsAsWrittenSnoc(theirs, n);
    }
  }

  /** With two extents holding bytes, Copy(other, 1) as written appends two bytes. */
  lemma CopyAsWrittenMiscounts(theirs: seq<IOBufferData>)
    requires ValidSegs(theirs) && |theirs| == 2 && !theirs[0].IsEmpty() && !theirs[1].IsEmpty()
    ensures Length(CopyViewsAsWritten(theirs, 1)) == 2
  {
    var front := theirs[..1];
    assert front == [theirs[0]];
    ViewsAsWrittenSnoc(theirs, 1);
    ViewsAsWrittenOne(theirs[0], 1);
  }

  /** A single extent gives a view of up to n of its bytes. */
  lemma ViewsAsWrittenOne(e: IOBufferData, n: int)
    requires e.Valid() && n >= 0
    ensures Length(CopyViewsAsWritten([e], n)) == Min(e.BytesConsumable(), n)
  {
    assert [e][..0] == [];
    assert CopyViewsAsWritten([e], n) == [] + ViewAsWritten(e, n);
  }

  /**
   * What Copy as written returns and adds to byte_count_: num_bytes - nbytes, where
   * nbytes is set to num_bytes before the loop and no statement of the loop assigns
   * it again.
   */
  function CopyReturnAsWritten(n: int): int
  {
    var nbytes := n;
    n - nbytes
  }

  /**
   * Copy as written, for n > 0 from a stream holding bytes: it appends views holding
   * bytes, yet returns 0 and adds 0 to byte_count_, so the count no longer matches
   * the bytes.
   */
  lemma CopyAsWrittenReturnsZero(theirs: seq<IOBufferData>, n: int)
    requires ValidSegs(theirs) && n > 0 && Length(theirs) > 0
    ensures CopyReturnAsWritten(n) == 0
    ensures Length(CopyViewsAsWritten(theirs, n)) > CopyReturnAsWritten(n)
  {
    CopyAsWrittenAppendsAll(theirs, n);
  }

  /**
   * The state of Copy's loop as written when `other` is the stream itself: the
   * iterator `it` walks the list the views are pushed onto, and an extent at or
   * after it still holds bytes.
   */
  predicate SelfCopyLive(t: seq<IOBufferData>, it: int)
  {
    ValidSegs(t) && 0 <= it < |t| && Length(t[it..]) > 0
  }

  /** One round of Copy's loop as written on its own list: a view of up to n bytes of t[it] pushed on t. */
  function SelfCopyStep(t: seq<IOBufferData>, it: int, n: int): (r: (seq<IOBufferData>, int))
    requires ValidSegs(t) && 0 <= it < |t|
    ensures ValidSegs(r.0) && r.1 == it + 1 && |r.0| >= |t| && r.0[..|t|] == t
  {
    (t + ViewAsWritten(t[it], n), it + 1)
  }

  /** With n > 0 a round keeps the loop live: the list grows by a view behind the iterator whenever t[it] has bytes. */
  lemma SelfCopyStaysLive(t: seq<IOBufferData>, it: int, n: int)
    requires n > 0 && SelfCopyLive(t, it)
    ensures SelfCopyLive(SelfCopyStep(t, it, n).0, SelfCopyStep(t, it, n).1)
  {
    var (t2, it2) := SelfCopyStep(t, it, n);
    var views := ViewAsWritten(t[it], n);
    assert t[it..] == [t[it]] + t[it + 1..];
    LengthAppend([t[it]], t[it + 1..]);
    LengthOne(t[it]);
    if t[it].IsEmpty() {
      assert views == [];
      assert t2 == t;
    } else {
      assert t2[it2..] == t[it + 1..] + views;
      LengthAppend(t[it + 1..], views);
    }
  }

  /**
   * The state after k rounds of Copy(this, n) as written on a stream holding bytes:
   * the iterator has not reached the end and the count to copy is still n, so the
   * loop's condition holds after every round and the loop never ends.
   */
  function SelfCopyAfter(t: seq<IOBufferData>, it: int, n: int, k: nat): (r: (seq<IOBufferData>, int))
    requires n > 0 && SelfCopyLive(t, it)
    ensures SelfCopyLive(r.0, r.1) && r.1 == it + k
    decreases k
  {
    if k == 0 then (t, it)
    else
      SelfCopyStaysLive(t, it, n);
      var (t2, it2) := SelfCopyStep(t, it, n);
      SelfCopyAfter(t2, it2, n, k - 1)
  }

  /** Copy(this, n) as written, n > 0, on a stream holding bytes: after any number of rounds the loop goes on. */
  lemma SelfCopyAsWrittenNeverEnds(t: seq<IOBufferData>, n: int, k: nat)
    requires ValidSegs(t) && Length(t) > 0 && n > 0
    ensures SelfCopyLive(t, 0)
    ensures SelfCopyAfter(t, 0, n, k).1 == k < |SelfCopyAfter(t, 0, n, k).0|
  {
    assert t[0..] == t;
  }

  /**
   * The loop of CopyOut(buf, n), for n >= 0: copy the extents' windows one after
   * the other into buf, until n bytes are copied or the list ends.  Returns the
   * bytes copied.  When buf is one of the list's own blocks only the count is
   * promised.
   */
  method CopyOut(s: seq<IOBufferData>, buf: array<uint8>, n: int) returns (r: int)
    requires ValidSegs(s) && 0 <= n && Min(n, Length(s)) <= buf.Length
    modifies buf
    ensures r == Min(n, Length(s))
    ensures buf !in BlocksOf(s) ==> buf[..r] == old(Flatten(s))[..r]
    ensures WrittenOnly(buf, 0, r)
  {
    ghost var whole := Flatten(s);
    ghost var apart := buf !in BlocksOf(s);
    var cur := 0;
    var nbytes := n;
    var i := 0;
    while nbytes > 0 && i < |s|
      invariant CopyingOut(s, n, nbytes, i, cur) && cur <= Min(n, Length(s)) <= buf.Length
      invariant apart ==> Flatten(s) == whole && buf[..cur] == whole[..cur]
      invariant WrittenOnly(buf, 0, cur)
      decreases |s| - i
    {
      var nb := CopyOutRound(s, buf, whole, apart, n, nbytes, i, cur);
      cur := cur + nb;
      nbytes := nbytes - nb;
      i := i + 1;
    }
    CopyOutDone(s, n, nbytes, i, cur);
    r := cur;
  }

  /** One round of CopyOut's loop: copy up to nbytes of extent i into buf at cur. */
  method CopyOutRound(s: seq<IOBufferData>, buf: array<uint8>, ghost whole: seq<uint8>, ghost apart: bool,
                      ghost n: int, nbytes: int, i: int, cur: int) returns (nb: int)
    requires CopyingOut(s, n, nbytes, i, cur) && i < |s| && nbytes > 0 && Min(n, Length(s)) <= buf.Length
    requires apart ==> buf !in BlocksOf(s) && Flatten(s) == whole && buf[..cur] == whole[..cur]
    modifies buf
    ensures 0 <= nb && CopyingOut(s, n, nbytes - nb, i + 1, cur + nb)
    ensures apart ==> Flatten(s) == whole && buf[..cur + nb] == whole[..cur + nb]
    ensures WrittenOnly(buf, cur, cur + nb)
  {
    ghost var before := buf[..];
    CopyOutStep(s, n, nbytes, i, cur, s[i].MaxConsumable(nbytes));
    if apart {
      assert s[i] in s;
    }
    nb := s[i].CopyOut(buf, cur, nbytes);
    if apart {
      Glue(before, buf[..], whole, cur, nb);
    }
  }

  /** The state of CopyOut's loop: cur bytes copied, all of the first i extents. */
  predicate CopyingOut(s: seq<IOBufferData>, n: int, nbytes: int, i: int, cur: int)
  {
    && ValidSegs(s) && 0 <= i <= |s| && 0 <= nbytes <= n && cur == n - nbytes
    && cur <= Length(s) && (nbytes > 0 ==> cur == Length(s[..i]))
  }

  /** One round of CopyOut: MaxConsumable(nbytes) more bytes, the front of extent i. */
  lemma CopyOutStep(s: seq<IOBufferData>, n: int, nbytes: int, i: int, cur: int, k: int)
    requires CopyingOut(s, n, nbytes, i, cur) && i < |s| && nbytes > 0
    requires k == s[i].MaxConsumable(nbytes)
    ensures CopyingOut(s, n, nbytes - k, i + 1, cur + k)
    ensures Flatten(s)[cur..cur + k] == s[i].Window()[..k]
  {
    TakeStep(s, i, k);
    assert Flatten(s)[cur..cur + k] == Flatten(s)[..cur + k][cur..];
  }

  /** When CopyOut's loop stops, it has copied min(n, all) bytes. */
  lemma CopyOutDone(s: seq<IOBufferData>, n: int, nbytes: int, i: int, cur: int)
    requires CopyingOut(s, n, nbytes, i, cur) && (nbytes <= 0 || i == |s|)
    ensures cur == Min(n, Length(s))
  {
    if nbytes > 0 {
      PrefixWhole(s);
    }
  }

  /** A copy that agreed on its first cur bytes and now also on the next k, agrees on cur + k. */
  lemma Glue(before: seq<uint8>, after: seq<uint8>, whole: seq<uint8>, cur: int, k: int)
    requires 0 <= cur && 0 <= k && cur + k <= |whole| && cur + k <= |before| == |after|
    requires before[..cur] == whole[..cur] && after[cur..cur + k] == whole[cur..cur + k]
    requires forall j :: 0 <= j < cur ==> after[j] == before[j]
    ensures after[..cur + k] == whole[..cur + k]
  {
    assert after[..cur + k] == after[..cur] + after[cur..cur + k];
    assert whole[..cur + k] == whole[..cur] + whole[cur..cur + k];
  }

  /**
   * The list work of ZeroFill: pop the empty extents off the back, zero-fill the
   * free space of the last extent, then push zero-filled default extents until n
   * zero bytes have been added.  The bytes before them are kept when the last
   * extent left after the pops is isolated.
   */
  method ZeroFill(s: seq<IOBufferData>, n: int) returns (t: seq<IOBufferData>)
    requires ValidSegs(s)
    modifies if DropEmptyTail(s) == [] then {} else {DropEmptyTail(s)[|DropEmptyTail(s)| - 1].block}
    ensures ValidSegs(t) && Length(t) == Length(s) + Max(n, 0)
    ensures TailIsolated(DropEmptyTail(s)) ==> Flatten(t) == old(Flatten(s)) + Zeros(Max(n, 0))
  {
    ghost var before := Flatten(s);
    var kept := PopEmptyTail(s);
    DropEmptyTailKeeps(s);
    FlattenKept(s);
    assert Flatten(kept) == before;
    t := ZeroAppend(kept, n);
  }

  /** ZeroFill after the pops: zero-fill the last extent's free space, then push zero-filled default extents. */
  method ZeroAppend(s: seq<IOBufferData>, n: int) returns (t: seq<IOBufferData>)
    requires ValidSegs(s)
    modifies if s == [] then {} else {s[|s| - 1].block}
    ensures ValidSegs(t) && Length(t) == Length(s) + Max(n, 0)
    ensures TailIsolated(s) ==> Flatten(t) == old(Flatten(s)) + Zeros(Max(n, 0))
  {
    ghost var before := Flatten(s);
    var body, k := ZeroBack(s, n);
    var grown := PushZeros(body, n - k);
    assert k + Max(n - k, 0) == Max(n, 0);
    ZerosAdd(k, Max(n - k, 0));
    Regroup(before, Zeros(k), Zeros(Max(n - k, 0)));
    t := grown;
  }

  /**
   * The list work of CopyIn(buf, n) for 0 <= n: push a default extent when the list
   * is empty; then, while bytes remain, push a default extent when the last one is
   * full and copy as much as fits into the last one's free space.  The bytes before
   * the copy are kept when appending is safe (the last extent isolated or full).
   */
  method CopyIn(s: seq<IOBufferData>, src: seq<uint8>, n: int) returns (t: seq<IOBufferData>)
    requires ValidSegs(s) && 0 <= n <= |src|
    modifies if s == [] then {} else {s[|s| - 1].block}
    ensures ValidSegs(t) && t != [] && Length(t) == Length(s) + n
    ensures AppendSafe(s) ==> AppendSafe(t) && Flatten(t) == old(Flatten(s)) + src[..n]
    ensures (s != [] && t[|t| - 1].block == s[|s| - 1].block) || fresh(t[|t| - 1].block)
  {
    ghost var iso, whole := AppendSafe(s), Flatten(s);
    t := PushIfEmpty(s);
    assert iso ==> AppendSafe(t) && Flatten(t) == whole + src[..0];
    t := CopyInLoop(s, src, whole, iso, n, t);
  }

  /** CopyIn's loop: room at the tail, then the next bytes copied there, until all `n` are in. */
  method CopyInLoop(ghost s: seq<IOBufferData>, src: seq<uint8>, ghost whole: seq<uint8>, ghost iso: bool,
                    n: int, t0: seq<IOBufferData>) returns (t: seq<IOBufferData>)
    requires CopyingIn(s, src, whole, iso, n, 0, t0)
    modifies t0[|t0| - 1].block
    ensures CopyingIn(s, src, whole, iso, n, n, t)
    ensures t[|t| - 1].block == t0[|t0| - 1].block || fresh(t[|t| - 1].block)
  {
    t := t0;
    var nbytes := n;
    var cur := 0;
    while nbytes > 0
      invariant CopyingIn(s, src, whole, iso, n, cur, t) && nbytes == n - cur
      invariant t[|t| - 1].block == t0[|t0| - 1].block || fresh(t[|t| - 1].block)
      decreases nbytes
    {
      var nb;
      t := MakeRoom(s, src, whole, iso, n, cur, t);
      t, nb := CopyBack(s, src, whole, iso, n, cur, t);
      cur, nbytes := cur + nb, nbytes - nb;
      assert CopyInCheck(nbytes, t[|t| - 1]);
    }
  }

  /**
   * The first half of a round of CopyIn's loop: push a default extent when the last
   * one is full, so that the last one has free space.
   */
  method MakeRoom(ghost s: seq<IOBufferData>, ghost src: seq<uint8>, ghost whole: seq<uint8>, ghost iso: bool,
                  ghost n: int, ghost cur: int, t: seq<IOBufferData>) returns (t2: seq<IOBufferData>)
    requires CopyingIn(s, src, whole, iso, n, cur, t)
    ensures CopyingIn(s, src, whole, iso, n, cur, t2)
    ensures t2[|t2| - 1].SpaceAvailable() > 0 && (iso ==> TailIsolated(t2))
    ensures t2[|t2| - 1].block == t[|t| - 1].block || fresh(t2[|t2| - 1].block)
  {
    t2 := t;
    if t2[|t2| - 1].IsFull() {
      label full:
      var e := NewDefault();
      FlattenKept@full(t2);
      assert e.block !in BlocksOf(t2);
      CopyInPush(s, src, whole, iso, n, cur, t2, e);
      t2 := t2 + [e];
    }
  }

  /**
   * The second half of a round of CopyIn's loop, with n - cur bytes left to copy:
   * copy as much as fits into the last extent's free space.  Returns the list and
   * the count copied.
   */
  method CopyBack(ghost s: seq<IOBufferData>, src: seq<uint8>, ghost whole: seq<uint8>, ghost iso: bool,
                  n: int, cur: int, t: seq<IOBufferData>) returns (t2: seq<IOBufferData>, nb: int)
    requires CopyingIn(s, src, whole, iso, n, cur, t) && cur < n
    requires t[|t| - 1].SpaceAvailable() > 0 && (iso ==> TailIsolated(t))
    modifies t[|t| - 1].block
    ensures CopyingIn(s, src, whole, iso, n, cur + nb, t2) && 0 < nb
    ensures CopyInCheck(n - cur - nb, t2[|t2| - 1])
    ensures t2[|t2| - 1].block == t[|t| - 1].block
  {
    var last := t[|t| - 1];
    label copy:
    var e;
    e, nb := last.CopyIn(src[cur..], n - cur);
    ghost var extra := src[cur..][..nb];
    if iso {
      TailGrown@copy(t, e, extra);
    }
    CopyInStep(s, src, whole, iso, n, cur, t, e, nb, t[..|t| - 1] + [e], extra);
    t2 := t[..|t| - 1] + [e];
  }

  /** The state of CopyIn's loop: the first `cur` bytes of `src` follow the bytes `whole` of `s`. */
  ghost predicate CopyingIn(s: seq<IOBufferData>, src: seq<uint8>, whole: seq<uint8>, iso: bool,
                            n: int, cur: int, t: seq<IOBufferData>)
    reads BlocksOf(t)
  {
    && ValidSegs(t) && t != [] && 0 <= cur <= n <= |src|
    && Length(t) == Length(s) + cur
    && (iso ==> AppendSafe(t) && Flatten(t) == whole + src[..cur])
  }

  /** Pushing an empty extent on a fresh block keeps CopyIn's loop state. */
  lemma CopyInPush(s: seq<IOBufferData>, src: seq<uint8>, whole: seq<uint8>, iso: bool,
                   n: int, cur: int, t: seq<IOBufferData>, e: IOBufferData)
    requires CopyingIn(s, src, whole, iso, n, cur, t)
    requires e.Valid() && e.IsEmpty() && e.block !in BlocksOf(t)
    ensures CopyingIn(s, src, whole, iso, n, cur, t + [e]) && TailIsolated(t + [e])
  {
    FlattenSnoc(t, e);
    forall j | 0 <= j < |t| ensures t[j].block != e.block {
      assert t[j] in t;
    }
    assert (t + [e])[..|t|] == t;
  }

  /** One copy into the last extent, grown by the next `nb` bytes of `src`, keeps CopyIn's loop state. */
  lemma CopyInStep(s: seq<IOBufferData>, src: seq<uint8>, whole: seq<uint8>, iso: bool, n: int, cur: int,
                   t: seq<IOBufferData>, e: IOBufferData, nb: int, u: seq<IOBufferData>, extra: seq<uint8>)
    requires ValidSegs(t) && t != [] && e.Valid() && 0 <= nb && 0 <= cur && cur + nb <= n <= |src|
    requires Length(t) == Length(s) + cur && u == t[..|t| - 1] + [e]
    requires e.BytesConsumable() == t[|t| - 1].BytesConsumable() + nb
    requires extra == src[cur..][..nb]
    requires iso ==> TailIsolated(u) && Flatten(u) == whole + src[..cur] + extra
    ensures CopyingIn(s, src, whole, iso, n, cur + nb, u)
  {
    LengthBack(t, e);
    Advance(src, cur, nb);
    Regroup(whole, src[..cur], extra);
  }

  /** The check CopyIn's loop makes after each copy, as intended: bytes remain only when the last extent is full. */
  predicate CopyInCheck(nbytes: int, back: IOBufferData)
  {
    nbytes == 0 || back.IsFull()
  }

  /**
   * Every copy CopyIn makes into an extent with room to spare leaves it not full, so
   * the check as written (nb == 0 || IsFull()) fails there while the intended one
   * holds.
   */
  lemma CopyInCheckAsWrittenFails(e: IOBufferData, n: int)
    requires e.Valid() && 0 < n < e.SpaceAvailable()
    ensures !CopyInCheckAsWritten(e.Fill(n).1, e.Fill(n).0)
    ensures CopyInCheck(n - e.Fill(n).1, e.Fill(n).0)
  {
  }

  /** The check CopyIn's loop makes after each copy, as the source writes it: nothing copied, or the last extent full. */
  predicate CopyInCheckAsWritten(nb: int, back: IOBufferData)
  {
    nb == 0 || back.IsFull()
  }

  /** The loop at the start of ZeroFill that pops the empty extents off the back. */
  method PopEmptyTail(s: seq<IOBufferData>) returns (t: seq<IOBufferData>)
    ensures t == DropEmptyTail(s)
  {
    t := s;
    while t != [] && t[|t| - 1].IsEmpty()
      invariant DropEmptyTail(t) == DropEmptyTail(s)
      decreases |t|
    {
      t := t[..|t| - 1];
    }
  }

  /**
   * The first step of ZeroFill after the pops: when n > 0, zero-fill the free space
   * of the last extent.  Returns the list and the zero bytes added; the bytes
   * before them are kept when the last extent is isolated.
   */
  method ZeroBack(s: seq<IOBufferData>, n: int) returns (t: seq<IOBufferData>, k: int)
    requires ValidSegs(s)
    modifies if s == [] then {} else {s[|s| - 1].block}
    ensures ValidSegs(t) && |t| == |s| && Length(t) == Length(s) + k
    ensures k == (if n > 0 && s != [] then s[|s| - 1].MaxAvailable(n) else 0)
    ensures 0 <= k <= Max(n, 0)
    ensures TailIsolated(s) ==> Flatten(t) == old(Flatten(s)) + Zeros(k)
  {
    t, k := s, 0;
    if n > 0 && s != [] {
      var last := s[|s| - 1];
      var e;
      e, k := last.ZeroFill(n);
      if TailIsolated(s) {
        TailGrown(s, e, Zeros(k));
      }
      LengthBack(s, e);
      t := s[..|s| - 1] + [e];
    }
  }

  /**
   * The second loop of ZeroFill: push a default extent and zero-fill it, until n
   * zero bytes have been added behind the bytes of `s`.  Only fresh blocks are
   * written.
   */
  method PushZeros(s: seq<IOBufferData>, n: int) returns (t: seq<IOBufferData>)
    requires ValidSegs(s)
    ensures ValidSegs(t) && Length(t) == Length(s) + Max(n, 0)
    ensures Flatten(t) == old(Flatten(s)) + Zeros(Max(n, 0))
    ensures |s| <= |t| && t[..|s|] == s
    ensures forall j :: |s| <= j < |t| ==> fresh(t[j].block)
  {
    t := s;
    var nbytes := n;
    ghost var whole, done := Flatten(s), 0;
    while nbytes > 0
      invariant ZeroPushing(s, whole, n, done, t) && nbytes == n - done
      invariant forall j :: |s| <= j < |t| ==> fresh(t[j].block)
      decreases nbytes
    {
      label top:
      var z, k := NewZeros(nbytes);
      FlattenKept@top(t);
      ZeroPushStep(s, whole, n, done, t, z, k);
      FreshSnoc(s, t, z);
      t := t + [z];
      nbytes, done := nbytes - k, done + k;
    }
  }

  /** Appending an extent over a fresh block keeps every block behind the first |s| fresh. */
  twostate lemma FreshSnoc(new s: seq<IOBufferData>, new t: seq<IOBufferData>, new z: IOBufferData)
    requires forall j :: |s| <= j < |t| ==> fresh(t[j].block)
    requires fresh(z.block)
    ensures forall j :: |s| <= j < |t + [z]| ==> fresh((t + [z])[j].block)
  {
  }

  /** A fresh default-sized extent holding min(n, 4096) zero bytes. */
  method NewZeros(n: int) returns (z: IOBufferData, k: int)
    requires n > 0
    ensures fresh(z.block) && z.Valid()
    ensures z.BytesConsumable() == k == Min(n, DefaultBufferSize) && z.Window() == Zeros(k)
  {
    var e := NewDefault();
    z, k := e.ZeroFill(n);
    assert e.Window() == [];
  }

  /** The state of PushZeros' loop: `done` zero bytes pushed behind the bytes `whole` of `s`. */
  ghost predicate ZeroPushing(s: seq<IOBufferData>, whole: seq<uint8>, n: int, done: int, t: seq<IOBufferData>)
    reads BlocksOf(t)
  {
    && ValidSegs(s) && ValidSegs(t) && 0 <= done <= Max(n, 0)
    && |s| <= |t| && t[..|s|] == s
    && Length(t) == Length(s) + done
    && Flatten(t) == whole + Zeros(done)
  }

  /** One round of PushZeros: a fresh extent holding k zero bytes goes to the back. */
  lemma ZeroPushStep(s: seq<IOBufferData>, whole: seq<uint8>, n: int, done: int, t: seq<IOBufferData>,
                     z: IOBufferData, k: int)
    requires ZeroPushing(s, whole, n, done, t) && done < n
    requires z.Valid() && z.BytesConsumable() == k == Min(n - done, DefaultBufferSize)
    requires z.Window() == Zeros(k)
    ensures ZeroPushing(s, whole, n, done + k, t + [z])
  {
    FlattenSnoc(t, z);
    assert Zeros(done) + Zeros(k) == Zeros(done + k);
    assert (t + [z])[..|s|] == t[..|s|];
  }

  /** kMaxWritevNum = 32, below Linux's IOV_MAX (1024): a batch holds at most 32 extents. */
  const MaxWriteVecs: int := 32

  /** kPreferredWriteSize = 64 << 10. */
  const PreferredWriteSize: int := 65536

  /** Write's batching guard as intended: fewer than 32 extents and 64 KiB in this batch. */
  predicate GatherGuard(nvec: int, toWrite: int)
  {
    nvec < MaxWriteVecs && toWrite < PreferredWriteSize
  }

  /**
   * The batching loop of Write: walk the list from the front, erasing the empty
   * extents met, and take the others into the batch while the guard allows.
   * Returns the list, the extents batched (its first nvec) and their bytes.
   */
  method Gather(s: seq<IOBufferData>) returns (t: seq<IOBufferData>, nvec: int, toWrite: int)
    requires ValidSegs(s)
    ensures ValidSegs(t) && BlocksOf(t) <= BlocksOf(s)
    ensures Flatten(t) == Flatten(s) && Length(t) == Length(s)
    ensures 0 <= nvec <= |t| && toWrite == Length(t[..nvec])
    ensures forall j :: 0 <= j < nvec ==> !t[j].IsEmpty()
    ensures nvec < |t| ==> !GatherGuard(nvec, toWrite)
    ensures nvec == 0 ==> t == [] && Length(s) == 0
    ensures nvec > 0 ==> 0 < toWrite <= Length(t)
  {
    t, nvec, toWrite := s, 0, 0;
    while nvec < |t| && GatherGuard(nvec, toWrite)
      invariant Gathering(s, t, nvec, toWrite) && (nvec > 0 ==> toWrite > 0)
      decreases |t| - nvec
    {
      var nbytes := t[nvec].BytesConsumable();
      if nbytes <= 0 {
        GatherErase(s, t, nvec, toWrite);
        t := t[..nvec] + t[nvec + 1..];
        assert Gathering(s, t, nvec, toWrite);
      } else {
        GatherTake(s, t, nvec, toWrite);
        toWrite, nvec := toWrite + nbytes, nvec + 1;
        assert Gathering(s, t, nvec, toWrite);
      }
    }
    LengthPrefix(t, nvec);
  }

  /** The state of Gather's loop: the same bytes, with a batch of nvec non-empty extents at the front. */
  ghost predicate Gathering(s: seq<IOBufferData>, t: seq<IOBufferData>, nvec: int, toWrite: int)
    reads BlocksOf(s), BlocksOf(t)
  {
    && ValidSegs(s) && ValidSegs(t) && BlocksOf(t) <= BlocksOf(s)
    && Flatten(t) == Flatten(s) && Length(t) == Length(s)
    && 0 <= nvec <= |t| && toWrite == Length(t[..nvec])
    && forall j :: 0 <= j < nvec ==> !t[j].IsEmpty()
  }

  /** Taking the non-empty extent just after the batch keeps Gather's loop state. */
  lemma GatherTake(s: seq<IOBufferData>, t: seq<IOBufferData>, nvec: int, toWrite: int)
    requires Gathering(s, t, nvec, toWrite) && nvec < |t| && !t[nvec].IsEmpty()
    ensures Gathering(s, t, nvec + 1, toWrite + t[nvec].BytesConsumable())
  {
    PrefixStep(t, nvec);
  }

  /** Erasing the empty extent just after the batch keeps Gather's loop state. */
  lemma GatherErase(s: seq<IOBufferData>, t: seq<IOBufferData>, nvec: int, toWrite: int)
    requires Gathering(s, t, nvec, toWrite) && nvec < |t| && t[nvec].IsEmpty()
    ensures Gathering(s, t[..nvec] + t[nvec + 1..], nvec, toWrite)
  {
    var u := t[..nvec] + t[nvec + 1..];
    EraseEmpty(t, nvec);
    forall x | x in u ensures x.block in BlocksOf(t) {
      assert x in t;
    }
    assert u[..nvec] == t[..nvec];
    assert forall j :: 0 <= j < nvec ==> u[j] == t[j];
  }

  /**
   * The batch Write's gathering loop takes as the source writes it, guarded by the
   * bytes written in earlier batches (total_write) rather than by this batch's:
   * the extents and the bytes taken from the front of `s`, empty extents skipped.
   */
  function GatherAsWritten(s: seq<IOBufferData>, totalWrite: int, nvec: int, toWrite: int): (r: (int, int))
    requires ValidSegs(s)
    ensures nvec <= r.0 && toWrite <= r.1
    decreases |s|
  {
    if s == [] || !(nvec < MaxWriteVecs && totalWrite < PreferredWriteSize) then (nvec, toWrite)
    else if s[0].BytesConsumable() <= 0 then GatherAsWritten(s[1..], totalWrite, nvec, toWrite)
    else GatherAsWritten(s[1..], totalWrite, nvec + 1, toWrite + s[0].BytesConsumable())
  }

  /**
   * Once 64 KiB have been written, the gathering loop as written batches nothing
   * however many bytes remain, where Gather batches whenever bytes remain.
   */
  lemma GatherAsWrittenTakesNothing(s: seq<IOBufferData>, totalWrite: int)
    requires ValidSegs(s) && totalWrite >= PreferredWriteSize
    ensures GatherAsWritten(s, totalWrite, 0, 0) == (0, 0)
    ensures GatherGuard(0, 0)
  {
  }

  /**
   * The pop loop after a writev as the source writes it, which does not stop at
   * the end of the list: whether dropping `toErase` bytes reaches front() of an
   * empty list.
   */
  predicate PopsPastEndAsWritten(s: seq<IOBufferData>, toErase: int)
    decreases |s|
  {
    s == [] || (s[0].BytesConsumable() <= toErase && PopsPastEndAsWritten(s[1..], toErase - s[0].BytesConsumable()))
  }

  /**
   * Dropping every byte of the list sends the pop loop as written past its end
   * (the source reaches it when a batch stopped short of the end and only empty
   * extents follow it), where DropFront stops with an empty list.
   */
  lemma {:induction false} PopsPastEndWhenAllWritten(s: seq<IOBufferData>, toErase: int)
    requires ValidSegs(s) && toErase == Length(s)
    ensures PopsPastEndAsWritten(s, toErase)
  {
    if s != [] {
      FlattenFront(s);
      PopsPastEndWhenAllWritten(s[1..], toErase - s[0].BytesConsumable());
    }
  }

  /**
   * The pops after a writev that took `toErase` bytes: pop the front extents that
   * the count covers, then consume the rest from the new front.  The loop stops at
   * the end of the list; see PopsPastEndAsWritten for the loop without that stop.
   */
  method DropFront(t: seq<IOBufferData>, toErase: int) returns (u: seq<IOBufferData>)
    requires ValidSegs(t) && toErase <= Length(t)
    ensures ValidSegs(u) && BlocksOf(u) <= BlocksOf(t)
    ensures Flatten(u) == Flatten(t)[Max(toErase, 0)..] && Length(u) == Length(t) - Max(toErase, 0)
  {
    var left;
    ghost var done;
    u, left, done := PopCovered(t, toErase);
    if left > 0 {
      var (e, k) := u[0].Consume(left);
      DropPart(t, done, u, e, k);
      u := u[0 := e];
      done := done + k;
    }
    DropDone(t, toErase, done, u);
  }

  /**
   * The pop loop of DropFront: pop the front extents while the count left covers
   * them.  Returns the list left and the count still to drop.
   */
  method PopCovered(t: seq<IOBufferData>, toErase: int) returns (u: seq<IOBufferData>, left: int, ghost done: int)
    requires ValidSegs(t) && toErase <= Length(t)
    ensures Dropping(t, done, u) && left == toErase - done
    ensures if toErase >= 0 then left >= 0 else done == 0
    ensures u == [] || u[0].BytesConsumable() > left
  {
    u := t;
    left := toErase;
    done := 0;
    assert Flatten(t)[0..] == Flatten(t);
    while u != [] && u[0].BytesConsumable() <= left
      invariant Dropping(t, done, u) && left == toErase - done
      invariant if toErase >= 0 then left >= 0 else done == 0
      decreases |u|
    {
      var nb := u[0].BytesConsumable();
      DropStep(t, done, u);
      left, done := left - nb, done + nb;
      u := u[1..];
    }
  }

  /** DropFront's postcondition, once Max(toErase, 0) bytes are gone. */
  lemma DropDone(t: seq<IOBufferData>, toErase: int, done: int, u: seq<IOBufferData>)
    requires Dropping(t, done, u) && done == Max(toErase, 0)
    ensures ValidSegs(u) && BlocksOf(u) <= BlocksOf(t)
    ensures Flatten(u) == Flatten(t)[Max(toErase, 0)..] && Length(u) == Length(t) - Max(toErase, 0)
  {
  }

  /** The state of DropFront's loop: the first `done` bytes of `t` are gone. */
  ghost predicate Dropping(t: seq<IOBufferData>, done: int, u: seq<IOBufferData>)
    reads BlocksOf(t), BlocksOf(u)
  {
    && ValidSegs(t) && ValidSegs(u) && BlocksOf(u) <= BlocksOf(t)
    && 0 <= done <= Length(t)
    && Flatten(u) == Flatten(t)[done..] && Length(u) == Length(t) - done
  }

  /** Popping the front extent drops its bytes. */
  lemma DropStep(t: seq<IOBufferData>, done: int, u: seq<IOBufferData>)
    requires Dropping(t, done, u) && u != []
    ensures Dropping(t, done + u[0].BytesConsumable(), u[1..])
  {
    var nb := u[0].BytesConsumable();
    FlattenFront(u);
    assert |u[0].Window()| == nb;
    assert Flatten(u[1..]) == Flatten(u)[nb..];
    Advance(Flatten(t), done, nb);
    forall x | x in u[1..] ensures x.block in BlocksOf(u) {
      assert x in u;
    }
  }

  /** Consuming k bytes of the front extent drops them. */
  lemma DropPart(t: seq<IOBufferData>, done: int, u: seq<IOBufferData>, e: IOBufferData, k: int)
    requires Dropping(t, done, u) && u != [] && 0 <= k <= u[0].BytesConsumable()
    requires e == u[0].(consumer := u[0].consumer + k)
    ensures Dropping(t, done + k, u[0 := e])
  {
    ConsumeFront(u, e, k);
    Advance(Flatten(t), done, k);
    BlocksUpdate(u, 0, e);
  }

  /**
   * The loop of Write: batch, writev to a descriptor accepting `room` more bytes,
   * drop what was written, until the list is empty or a write comes up short.
   * Returns the list left and Write's result: the bytes written, or, when the first
   * writev fails, the negated errno.
   */
  method Write(s: seq<IOBufferData>, room: nat, errno: int) returns (t: seq<IOBufferData>, total: int)
    requires ValidSegs(s)
    ensures ValidSegs(t) && BlocksOf(t) <= BlocksOf(s)
    ensures Length(s) == 0 ==> t == [] && total == 0
    ensures Length(s) > 0 && room == 0 ==>
              total == ErrorReturn(errno) && Flatten(t) == Flatten(s) && Length(t) == Length(s)
    ensures Length(s) > 0 && room > 0 ==>
              total == Min(room, Length(s)) && Flatten(t) == Flatten(s)[total..] && Length(t) == Length(s) - total
  {
    t, total := s, 0;
    var left := room;
    assert Flatten(s)[0..] == Flatten(s);
    while t != []
      invariant Writing(s, room, left, total, t)
      decreases Length(t)
    {
      var stop;
      t, total, left, stop := WriteRound(s, room, errno, left, total, t);
      if stop {
        return;
      }
    }
    WriteEmpty(s, room, errno, left, total, t);
  }

  /**
   * One round of Write's loop: batch, writev, drop the bytes written and count
   * them (or take the negated errno when nothing was ever written).  `stop` is set
   * where the source breaks out: nothing batched, or a short write.
   */
  method WriteRound(ghost s: seq<IOBufferData>, ghost room: nat, errno: int, left: int, total: int, t: seq<IOBufferData>)
    returns (t2: seq<IOBufferData>, total2: int, left2: int, stop: bool)
    requires Writing(s, room, left, total, t) && t != []
    ensures stop ==> Wrote(s, room, errno, t2, total2)
    ensures !stop ==> Writing(s, room, left2, total2, t2) && Length(t2) < Length(t)
  {
    var u, nvec, toWrite := Gather(t);
    if nvec <= 0 {
      WriteEmpty(s, room, errno, left, total, t);
      return [], total, left, true;
    }
    t2, total2, left2, stop := WriteGathered(s, room, errno, left, total, t, u, nvec, toWrite);
  }

  /** The rest of a round of Write, once the extents are gathered: write them and drop what was written. */
  method WriteGathered(ghost s: seq<IOBufferData>, ghost room: nat, errno: int, left: int, total: int,
                       ghost t: seq<IOBufferData>, u: seq<IOBufferData>, nvec: int, toWrite: int)
    returns (t2: seq<IOBufferData>, total2: int, left2: int, stop: bool)
    requires Writing(s, room, left, total, t) && ValidSegs(u) && BlocksOf(u) <= BlocksOf(t)
    requires Flatten(u) == Flatten(t) && Length(u) == Length(t)
    requires 0 <= nvec <= |u| && toWrite == Length(u[..nvec]) && 0 < toWrite <= Length(u)
    ensures stop ==> Wrote(s, room, errno, t2, total2)
    ensures !stop ==> Writing(s, room, left2, total2, t2) && Length(t2) < Length(t)
  {
    var nw := WriteCall(left, toWrite);
    t2 := WriteDrop(u, nvec, toWrite, nw);
    total2, left2 := total, left;
    if nw > 0 {
      total2, left2 := total + nw, left - nw;
    } else if total <= 0 {
      total2 := ErrorReturn(errno);
    }
    stop := nw != toWrite;
    if stop {
      WriteShort(s, room, errno, left, total, t, u, toWrite, nw, t2, total2);
    } else {
      WriteStep(s, room, left, total, t, u, toWrite, nw, t2, left2, total2);
    }
  }

  /**
   * Drop the nw bytes a write took from the gathered list: all of it when the write
   * took every byte of every extent, otherwise the front nw bytes.
   */
  method WriteDrop(u: seq<IOBufferData>, nvec: int, toWrite: int, nw: int) returns (rest: seq<IOBufferData>)
    requires ValidSegs(u) && 0 <= nvec <= |u| && toWrite == Length(u[..nvec]) && 0 < toWrite <= Length(u)
    requires nw <= toWrite
    ensures ValidSegs(rest) && BlocksOf(rest) <= BlocksOf(u)
    ensures Flatten(rest) == Flatten(u)[Max(nw, 0)..] && Length(rest) == Length(u) - Max(nw, 0)
  {
    if nw == toWrite && nvec == |u| {
      PrefixWhole(u);
      rest := [];
    } else {
      rest := DropFront(u, nw);
    }
  }

  /** The state of Write's loop: `total` bytes written out of `room`, and dropped from the front. */
  ghost predicate Writing(s: seq<IOBufferData>, room: nat, left: int, total: int, t: seq<IOBufferData>)
    reads BlocksOf(s), BlocksOf(t)
  {
    && ValidSegs(s) && ValidSegs(t) && BlocksOf(t) <= BlocksOf(s)
    && 0 <= total == room - left <= room && total <= Length(s)
    && Flatten(t) == Flatten(s)[total..] && Length(t) == Length(s) - total
  }

  /** What Write leaves and returns, as its postcondition states it. */
  ghost predicate Wrote(s: seq<IOBufferData>, room: nat, errno: int, t: seq<IOBufferData>, total: int)
    reads BlocksOf(s), BlocksOf(t)
  {
    && ValidSegs(s) && ValidSegs(t) && BlocksOf(t) <= BlocksOf(s)
    && (Length(s) == 0 ==> t == [] && total == 0)
    && (Length(s) > 0 && room == 0 ==>
          total == ErrorReturn(errno) && Flatten(t) == Flatten(s) && Length(t) == Length(s))
    && (Length(s) > 0 && room > 0 ==>
          total == Min(room, Length(s)) && Flatten(t) == Flatten(s)[total..] && Length(t) == Length(s) - total)
  }

  /** One writev of the batch, nw > 0 bytes or -1, followed by the drops. */
  lemma WriteStep(s: seq<IOBufferData>, room: nat, left: int, total: int, t: seq<IOBufferData>,
                  u: seq<IOBufferData>, toWrite: int, nw: int, rest: seq<IOBufferData>, left2: int, total2: int)
    requires Writing(s, room, left, total, t) && ValidSegs(u) && BlocksOf(u) <= BlocksOf(t)
    requires Flatten(u) == Flatten(t) && Length(u) == Length(t)
    requires 0 < toWrite <= Length(u) && nw == WriteCall(left, toWrite)
    requires ValidSegs(rest) && BlocksOf(rest) <= BlocksOf(u)
    requires Flatten(rest) == Flatten(u)[Max(nw, 0)..] && Length(rest) == Length(u) - Max(nw, 0)
    requires left2 == left - Max(nw, 0) && total2 == total + Max(nw, 0)
    ensures Writing(s, room, left2, total2, rest)
    ensures nw == toWrite ==> Length(rest) < Length(t)
    ensures nw != toWrite ==> Length(rest) > 0
  {
    Advance(Flatten(s), total, Max(nw, 0));
  }

  /** The list holds no more bytes: all of them were written. */
  lemma WriteEmpty(s: seq<IOBufferData>, room: nat, errno: int, left: int, total: int, t: seq<IOBufferData>)
    requires Writing(s, room, left, total, t) && Length(t) == 0
    ensures Wrote(s, room, errno, [], total)
  {
  }

  /** A short write ends the loop with Write's result. */
  lemma WriteShort(s: seq<IOBufferData>, room: nat, errno: int, left: int, total: int, t: seq<IOBufferData>,
                   u: seq<IOBufferData>, toWrite: int, nw: int, rest: seq<IOBufferData>, result: int)
    requires Writing(s, room, left, total, t) && ValidSegs(u) && BlocksOf(u) <= BlocksOf(t)
    requires Flatten(u) == Flatten(t) && Length(u) == Length(t)
    requires 0 < toWrite <= Length(u) && nw == WriteCall(left, toWrite) && nw != toWrite
    requires ValidSegs(rest) && BlocksOf(rest) <= BlocksOf(u)
    requires Flatten(rest) == Flatten(u)[Max(nw, 0)..] && Length(rest) == Length(u) - Max(nw, 0)
    requires result == (if nw > 0 then total + nw else if total <= 0 then ErrorReturn(errno) else total)
    ensures Wrote(s, room, errno, rest, result)
  {
    WriteStep(s, room, left, total, t, u, toWrite, nw, rest, left - Max(nw, 0), total + Max(nw, 0));
    if nw < 0 {
      assert left == 0 && total == room;
      if total == 0 {
        assert Flatten(s)[0..] == Flatten(s);
      }
    } else {
      assert nw == left && total + nw == room;
    }
  }

  /** The byte budget of one readv(2) in IOBuffer::Read (kMaxReadv): 64 KiB. */
  const MaxReadv: int := 65536

  /**
   * The most vectors one readv(2) of IOBuffer::Read is given: 64 KiB worth of
   * default-size blocks plus one (IOV_MAX, 1024 on Linux, is larger).
   */
  const MaxReadvNum: int := MaxReadv / DefaultBufferSize + 1

  /** The fast path of IOBuffer::Read applies: a read-ahead bound that fits the last (or a new) extent. */
  predicate ReadsAhead(s: seq<IOBufferData>, maxReadAhead: int)
  {
    && 0 < maxReadAhead <= DefaultBufferSize
    && (s == [] || s[|s| - 1].SpaceAvailable() >= maxReadAhead)
  }

  /** The read budget of IOBuffer::Read's general path: the read-ahead bound, or INT_MAX when it is negative. */
  function ReadBudget(maxReadAhead: int): (b: int)
    ensures b >= 0
    ensures maxReadAhead >= 0 ==> b == maxReadAhead
  {
    if maxReadAhead >= 0 then maxReadAhead else IntMax
  }

  /**
   * What the general path of IOBuffer::Read returns for a budget of `budget` bytes:
   * every byte the descriptor has, up to the budget; the error return when the
   * descriptor fails; 0 for a budget of 0.
   */
  function ReadResult(src: Source, errno: int, budget: int): (r: int)
    requires budget >= 0
    ensures src.Ready? ==> 0 <= r <= budget && r <= |src.pending|
    ensures src.Ready? && r < budget ==> r == |src.pending|
    ensures src.Broken? ==> (r < 0 <==> budget > 0)
  {
    if budget == 0 then 0
    else match src
      case Ready(p) => Min(budget, |p|)
      case Broken => ErrorReturn(errno)
  }

  /** What IOBuffer::Read returns: the fast path's read(2) result, or the general path's total. */
  function ReadReturn(s: seq<IOBufferData>, src: Source, errno: int, maxReadAhead: int): (r: int)
  {
    if ReadsAhead(s, maxReadAhead) then AheadReturn(src, errno, maxReadAhead)
    else ReadResult(src, errno, ReadBudget(maxReadAhead))
  }

  /**
   * The list work of Read(fd, max_read_ahead): when the bound fits, one read(2) into
   * the last extent (pushing a default extent on an empty list); otherwise readv(2)
   * rounds until the budget is spent or a read comes up short.  The bytes read
   * follow the bytes already in the list when appending is safe.
   */
  method Read(s: seq<IOBufferData>, src: Source, errno: int, maxReadAhead: int)
    returns (t: seq<IOBufferData>, r: int, rest: Source)
    requires ValidSegs(s)
    modifies if s == [] then {} else {s[|s| - 1].block}
    ensures r == ReadReturn(s, src, errno, maxReadAhead)
    ensures src.Ready? ==> r <= |src.pending|
    ensures ValidSegs(t) && Length(t) == Length(s) + Max(r, 0) && rest == AfterRead(src, Max(r, 0))
    ensures AppendSafe(s) ==> Flatten(t) == old(Flatten(s)) + Received(src, Max(r, 0))
  {
    if ReadsAhead(s, maxReadAhead) {
      t, r, rest := ReadAhead(s, src, errno, maxReadAhead);
    } else {
      t, r, rest := ReadV(s, src, errno, ReadBudget(maxReadAhead));
    }
  }

  /** The fast path of Read: one read(2) of at most maxReadAhead bytes into the last extent. */
  method ReadAhead(s: seq<IOBufferData>, src: Source, errno: int, maxReadAhead: int)
    returns (t: seq<IOBufferData>, r: int, rest: Source)
    requires ValidSegs(s) && ReadsAhead(s, maxReadAhead)
    modifies if s == [] then {} else {s[|s| - 1].block}
    ensures r == ReadReturn(s, src, errno, maxReadAhead)
    ensures src.Ready? ==> r <= |src.pending|
    ensures ValidSegs(t) && Length(t) == Length(s) + Max(r, 0) && rest == AfterRead(src, Max(r, 0))
    ensures AppendSafe(s) ==> Flatten(t) == old(Flatten(s)) + Received(src, Max(r, 0))
  {
    var u := PushIfEmpty(s);
    assert AppendSafe(s) ==> TailIsolated(u);
    t, r, rest := ReadBack(u, src, errno, maxReadAhead);
  }

  /** Push a default extent on an empty list; a list with extents is left as it is. */
  method PushIfEmpty(s: seq<IOBufferData>) returns (t: seq<IOBufferData>)
    requires ValidSegs(s)
    ensures ValidSegs(t) && t != [] && Length(t) == Length(s) && Flatten(t) == old(Flatten(s))
    ensures s != [] ==> t == s
    ensures s == [] ==> |t| == 1 && fresh(t[0].block) && t[0].SpaceAvailable() == DefaultBufferSize
  {
    t := s;
    if t == [] {
      var e := NewDefault();
      t := [e];
    }
  }

  /** What the fast path of Read returns for one read(2) of maxReadAhead bytes. */
  function AheadReturn(src: Source, errno: int, maxReadAhead: int): (r: int)
    requires maxReadAhead > 0
    ensures src.Ready? ==> r <= |src.pending| && r <= maxReadAhead
    ensures r > 0 ==> r == ReadCall(src, maxReadAhead)
    ensures r <= 0 ==> ReadCall(src, maxReadAhead) <= 0
  {
    var nread := ReadCall(src, maxReadAhead);
    if nread > 0 then nread else if errno > 0 then -errno else nread
  }

  /**
   * The fast path returns what the general path would for the same bound, except
   * at end of file with errno set (-errno instead of 0) and on a failure with errno
   * 0 (-1 instead of -EAGAIN).
   */
  lemma ReadAheadAgrees(src: Source, errno: int, maxReadAhead: int)
    requires maxReadAhead > 0
    ensures src.Ready? && (src.pending != [] || errno <= 0) ==>
              AheadReturn(src, errno, maxReadAhead) == ReadResult(src, errno, maxReadAhead)
    ensures src.Ready? && src.pending == [] && errno > 0 ==>
              AheadReturn(src, errno, maxReadAhead) == -errno && ReadResult(src, errno, maxReadAhead) == 0
    ensures src.Broken? && errno > 0 ==>
              AheadReturn(src, errno, maxReadAhead) == ReadResult(src, errno, maxReadAhead) < 0
    ensures src.Broken? && errno == 0 ==>
              AheadReturn(src, errno, maxReadAhead) == -1 && ReadResult(src, errno, maxReadAhead) == -EAGAIN
  {
  }

  /** One read(2) of maxReadAhead bytes into the free space of the last extent, which has room for them. */
  method ReadBack(t: seq<IOBufferData>, src: Source, errno: int, maxReadAhead: int)
    returns (t2: seq<IOBufferData>, r: int, rest: Source)
    requires ValidSegs(t) && t != [] && 0 < maxReadAhead <= t[|t| - 1].SpaceAvailable()
    modifies t[|t| - 1].block
    ensures r == AheadReturn(src, errno, maxReadAhead)
    ensures ValidSegs(t2) && Length(t2) == Length(t) + Max(r, 0) && rest == AfterRead(src, Max(r, 0))
    ensures TailIsolated(t) ==> Flatten(t2) == old(Flatten(t)) + Received(src, Max(r, 0))
  {
    var last := t[|t| - 1];
    assert last.MaxAvailable(maxReadAhead) == maxReadAhead;
    var e;
    e, r := last.Read(src, errno, maxReadAhead);
    var k := Max(r, 0);
    assert k == Max(ReadCall(src, maxReadAhead), 0);
    if TailIsolated(t) {
      TailGrown(t, e, Received(src, k));
    }
    LengthBack(t, e);
    t2 := t[..|t| - 1] + [e];
    rest := AfterRead(src, k);
  }

  /**
   * The general path of Read, as intended, for a budget of `budget` bytes: while
   * budget is left, one readv(2) over the free space of the last extent (first round
   * only) and fresh default-size blocks, at most MaxReadvNum vectors; the bytes read
   * are distributed over the last extent and new extents; a short read ends it.
   */
  method ReadV(s: seq<IOBufferData>, src: Source, errno: int, budget: int)
    returns (t: seq<IOBufferData>, total: int, rest: Source)
    requires ValidSegs(s) && budget >= 0
    modifies if s == [] then {} else {s[|s| - 1].block}
    ensures total == ReadResult(src, errno, budget)
    ensures src.Ready? ==> total <= |src.pending|
    ensures ValidSegs(t) && Length(t) == Length(s) + Max(total, 0) && rest == AfterRead(src, Max(total, 0))
    ensures AppendSafe(s) ==> Flatten(t) == old(Flatten(s)) + Received(src, Max(total, 0))
  {
    ghost var iso, whole := AppendSafe(s), Flatten(s);
    t, total, rest := s, 0, src;
    var useLast := s != [] && !s[|s| - 1].IsFull();
    var maxRead := budget;
    ghost var got := 0;
    while maxRead > 0
      invariant ReadCounts(src, errno, budget, maxRead, got, total, rest)
      invariant ReadList(s, src, whole, iso, got, t)
      invariant useLast ==> t == s && t != [] && !t[|t| - 1].IsFull()
      invariant t == [] || (s != [] && t[|t| - 1].block == s[|s| - 1].block) || fresh(t[|t| - 1].block)
      decreases maxRead
    {
      t, maxRead, total, rest, got := ReadRound(s, src, errno, whole, iso, budget, got, maxRead, total, useLast, t, rest);
      useLast := false;
    }
  }

  /** One round of ReadV's loop: one readv(2) and the distribution of what it read. */
  method ReadRound(ghost s: seq<IOBufferData>, ghost src: Source, errno: int, ghost whole: seq<uint8>,
                   ghost iso: bool, ghost budget: int, ghost got: int, maxRead: int, total: int,
                   useLast: bool, t: seq<IOBufferData>, rest: Source)
    returns (t2: seq<IOBufferData>, maxRead2: int, total2: int, rest2: Source, ghost got2: int)
    requires ReadCounts(src, errno, budget, maxRead, got, total, rest) && maxRead > 0
    requires ReadList(s, src, whole, iso, got, t)
    requires useLast ==> t != [] && !t[|t| - 1].IsFull()
    modifies if t == [] then {} else {t[|t| - 1].block}
    ensures ReadCounts(src, errno, budget, maxRead2, got2, total2, rest2) && maxRead2 < maxRead
    ensures ReadList(s, src, whole, iso, got2, t2)
    ensures t2 == [] || (t != [] && t2[|t2| - 1].block == t[|t| - 1].block) || fresh(t2[|t2| - 1].block)
  {
    var space := if useLast then t[|t| - 1].SpaceAvailable() else 0;
    var k;
    label span:
    k, maxRead2, total2, got2 := ReadvCall(src, errno, budget, got, maxRead, total, useLast, space, rest);
    FlattenKept@span(t);
    assert ReadList(s, src, whole, iso, got, t);
    t2 := ReadAppend(s, src, whole, iso, got, t, rest, k);
    rest2 := AfterRead(rest, k);
  }

  /**
   * The counting half of one round of ReadV: size the readv(2), make it, and update
   * the budget left and the total.  Returns the bytes it read, none on a failure.
   */
  method ReadvCall(ghost src: Source, errno: int, ghost budget: int, ghost got: int, maxRead: int, total: int,
                   useLast: bool, space: int, rest: Source)
    returns (k: int, maxRead2: int, total2: int, ghost got2: int)
    requires ReadCounts(src, errno, budget, maxRead, got, total, rest) && maxRead > 0
    requires useLast ==> space > 0
    ensures 0 <= k && got2 == got + k && (src.Broken? ==> k == 0) && (rest.Ready? ==> k <= |rest.pending|)
    ensures ReadCounts(src, errno, budget, maxRead2, got2, total2, AfterRead(rest, k)) && maxRead2 < maxRead
  {
    var nread := ReadvLength(maxRead, useLast, space);
    var rd := ReadCall(rest, nread);
    maxRead2 := if rd < nread then 0 else maxRead - rd;
    k := Max(rd, 0);
    total2 := if rd > 0 then total + rd else if total == 0 && rd < 0 then ErrorReturn(errno) else total;
    ReadCountStep(src, errno, budget, maxRead, got, total, rest, nread, rd, maxRead2, total2);
    got2 := got + k;
  }

  /**
   * The distribution step of ReadV, as intended: the `k` bytes one readv(2) read go
   * into the free space of the last extent and then into default-size extents
   * pushed behind it, each holding the bytes of one vector.
   */
  method ReadAppend(ghost s: seq<IOBufferData>, ghost src: Source, ghost whole: seq<uint8>, ghost iso: bool,
                    ghost got: int, t: seq<IOBufferData>, rest: Source, k: int) returns (t2: seq<IOBufferData>)
    requires ReadList(s, src, whole, iso, got, t) && 0 <= k
    requires rest == AfterRead(src, got) && (src.Ready? ==> got + k <= |src.pending|) && (src.Broken? ==> k == 0)
    modifies if t == [] then {} else {t[|t| - 1].block}
    ensures ReadList(s, src, whole, iso, got + k, t2)
    ensures t2 == [] || (t != [] && t2[|t2| - 1].block == t[|t| - 1].block) || fresh(t2[|t2| - 1].block)
  {
    if k > 0 {
      var data := Received(rest, k);
      assert data[..k] == data;
      t2 := CopyIn(t, data, k);
      ReadListStep(s, src, whole, iso, got, k, t2, data);
    } else {
      t2 := t;
    }
  }

  /**
   * The count one readv(2) of ReadV asks for (io_buffer.cpp:559-576): the budget
   * left, up to what the vectors hold: the free space of the last extent when it is
   * used, and default-size blocks for the rest of the MaxReadvNum vectors.
   */
  method ReadvLength(maxRead: int, useLast: bool, space: int) returns (nread: int)
    requires maxRead > 0 && (useLast ==> space > 0)
    ensures 0 < nread <= maxRead
    ensures nread == Min(maxRead, (if useLast then space else 0)
                                 + (MaxReadvNum - (if useLast then 1 else 0)) * DefaultBufferSize)
  {
    var nbytes := maxRead;
    var nvec := 0;
    if useLast {
      var nb := Min(nbytes, space);
      nbytes, nvec := nbytes - nb, 1;
    }
    nbytes := ReadvSpan(nbytes, nvec);
    nread := maxRead - nbytes;
  }

  /**
   * The loop of Read that adds readv(2) vectors over fresh default-size blocks:
   * starting from `nvec` vectors with `nbytes` of the budget not yet covered, add
   * vectors of at most DefaultBufferSize bytes up to MaxReadvNum.  Returns the part
   * of the budget still not covered.
   */
  method ReadvSpan(nbytes: int, nvec: int) returns (left: int)
    requires 0 <= nbytes && 0 <= nvec <= 1
    ensures left == Max(0, nbytes - (MaxReadvNum - nvec) * DefaultBufferSize)
    ensures nbytes - left == Sum(VectorBlocks(nbytes, nvec))
  {
    VectorBlocksCover(nbytes, nvec);
    left := nbytes;
    var v := nvec;
    while left > 0 && v < MaxReadvNum
      invariant nvec <= v <= MaxReadvNum
      invariant left == Max(0, nbytes - (v - nvec) * DefaultBufferSize)
      decreases MaxReadvNum - v
    {
      var nb := Min(left, DefaultBufferSize);
      left := left - nb;
      v := v + 1;
    }
  }

  /**
   * The sizes of the blocks the vector loop of ReadV allocates for `nbytes` bytes of
   * the request, from vector `nvec` on: DefaultBufferSize bytes each, the last one
   * holding what is left.
   */
  function VectorBlocks(nbytes: int, nvec: int): (sizes: seq<int>)
    requires 0 <= nvec <= MaxReadvNum
    ensures |sizes| <= MaxReadvNum - nvec
    ensures forall j :: 0 <= j < |sizes| ==> 0 < sizes[j] <= DefaultBufferSize
    decreases MaxReadvNum - nvec
  {
    if nbytes <= 0 || nvec == MaxReadvNum then []
    else [Min(nbytes, DefaultBufferSize)] + VectorBlocks(nbytes - Min(nbytes, DefaultBufferSize), nvec + 1)
  }

  /** The sum of a sequence of counts. */
  function Sum(xs: seq<int>): int
  {
    if xs == [] then 0 else xs[0] + Sum(xs[1..])
  }

  /**
   * The blocks VectorBlocks lists cover what ReadvSpan says the vector loop covers:
   * the request, up to DefaultBufferSize bytes for each vector left.
   */
  lemma {:induction false} VectorBlocksCover(nbytes: int, nvec: int)
    requires 0 <= nbytes && 0 <= nvec <= MaxReadvNum
    ensures Sum(VectorBlocks(nbytes, nvec)) == nbytes - Max(0, nbytes - (MaxReadvNum - nvec) * DefaultBufferSize)
    decreases MaxReadvNum - nvec
  {
    if nbytes > 0 && nvec < MaxReadvNum {
      var nb := Min(nbytes, DefaultBufferSize);
      VectorBlocksCover(nbytes - nb, nvec + 1);
      var rest := VectorBlocks(nbytes - nb, nvec + 1);
      assert ([nb] + rest)[1..] == rest;
    }
  }

  /**
   * As written, the distribution loop wraps each new block as an extent of
   * DefaultBufferSize bytes, IOBufferData(buf, buf_size, 0, nread), whatever size it
   * was allocated with.  A request of fewer than DefaultBufferSize bytes gets one
   * short block, and the extent over it claims free space past the block's end,
   * which a later Fill, CopyIn or ZeroFill writes into.
   */
  lemma ReadWrapAsWrittenOverruns(nbytes: int, nvec: int, block: array<uint8>)
    requires 0 < nbytes < DefaultBufferSize && 0 <= nvec <= 1
    requires block.Length == VectorBlocks(nbytes, nvec)[0]
    ensures VectorBlocks(nbytes, nvec) == [nbytes]
    ensures !IOBufferData(block, 0, nbytes, DefaultBufferSize).Valid()
    ensures IOBufferData(block, 0, nbytes, DefaultBufferSize).end - block.Length == DefaultBufferSize - nbytes
  {
    assert VectorBlocks(0, nvec + 1) == [];
  }

  /** The vectors whose blocks the distribution loop as written wraps, rounds first .. nvec - 1: read_iov[nvec] each time. */
  function PushedVectorsAsWritten(first: int, nvec: int): (r: seq<int>)
    requires 0 <= first <= nvec
    ensures |r| == nvec - first
  {
    seq(nvec - first, _ => nvec)
  }

  /** The vectors the distribution loop means to wrap: read_iov[i] in round i. */
  function PushedVectors(first: int, nvec: int): (r: seq<int>)
    requires 0 <= first <= nvec
    ensures |r| == nvec - first
  {
    seq(nvec - first, j => first + j)
  }

  /**
   * As written, no round wraps a vector that readv(2) filled: each takes read_iov[nvec],
   * one past the last filled vector, and past the end of read_iov when all
   * MaxReadvNum vectors were used.  The intended rounds wrap each filled vector once,
   * in order.
   */
  lemma ReadIndexAsWrittenMissesVectors(first: int, nvec: int)
    requires 0 <= first < nvec <= MaxReadvNum
    ensures forall j :: 0 <= j < nvec - first ==> PushedVectorsAsWritten(first, nvec)[j] !in PushedVectors(first, nvec)
    ensures nvec == MaxReadvNum ==> PushedVectorsAsWritten(first, nvec)[0] == MaxReadvNum
    ensures forall j :: 0 <= j < nvec - first ==> PushedVectors(first, nvec)[j] == first + j < nvec
  {
    forall j | 0 <= j < nvec - first
      ensures PushedVectorsAsWritten(first, nvec)[j] !in PushedVectors(first, nvec)
    {
      var w := PushedVectors(first, nvec);
      assert forall m :: 0 <= m < |w| ==> w[m] < nvec;
    }
  }

  /**
   * The counters of ReadV's loop: `got` bytes read so far, all of them counted in
   * `total` while budget is left; once it is spent or a read came up short, `total`
   * is the general path's result.
   */
  predicate ReadCounts(src: Source, errno: int, budget: int, maxRead: int, got: int, total: int, rest: Source)
  {
    && 0 <= got <= budget && (src.Ready? ==> got <= |src.pending|)
    && rest == AfterRead(src, got)
    && (maxRead > 0 ==> maxRead == budget - got && total == got && (src.Broken? ==> got == 0))
    && (maxRead <= 0 ==> total == ReadResult(src, errno, budget) && got == Max(total, 0))
  }

  /** The list of ReadV's loop: the `got` bytes read so far follow the bytes `whole` of `s`. */
  ghost predicate ReadList(s: seq<IOBufferData>, src: Source, whole: seq<uint8>, iso: bool,
                           got: int, t: seq<IOBufferData>)
    reads BlocksOf(t)
  {
    && ValidSegs(t) && 0 <= got && (src.Ready? ==> got <= |src.pending|)
    && Length(t) == Length(s) + got
    && (iso ==> AppendSafe(t) && Flatten(t) == whole + Received(src, got))
  }

  /** One readv(2) of `nread` bytes, 0 < nread <= maxRead, keeps the counters of ReadV's loop. */
  lemma ReadCountStep(src: Source, errno: int, budget: int, maxRead: int, got: int, total: int, rest: Source,
                      nread: int, rd: int, maxRead2: int, total2: int)
    requires ReadCounts(src, errno, budget, maxRead, got, total, rest) && maxRead > 0
    requires 0 < nread <= maxRead && rd == ReadCall(rest, nread)
    requires maxRead2 == (if rd < nread then 0 else maxRead - rd)
    requires total2 == (if rd > 0 then total + rd else if total == 0 && rd < 0 then ErrorReturn(errno) else total)
    ensures ReadCounts(src, errno, budget, maxRead2, got + Max(rd, 0), total2, AfterRead(rest, Max(rd, 0)))
    ensures maxRead2 < maxRead
  {
    ReceivedMore(src, got, Max(rd, 0));
  }

  /** Appending the `k` bytes of one readv(2) keeps the list of ReadV's loop. */
  lemma ReadListStep(s: seq<IOBufferData>, src: Source, whole: seq<uint8>, iso: bool, got: int, k: int,
                     t2: seq<IOBufferData>, data: seq<uint8>)
    requires 0 <= got && 0 <= k && (src.Ready? ==> got + k <= |src.pending|)
    requires data == Received(AfterRead(src, got), k)
    requires ValidSegs(t2) && Length(t2) == Length(s) + got + k
    requires iso ==> AppendSafe(t2) && Flatten(t2) == whole + Received(src, got) + data
    ensures ReadList(s, src, whole, iso, got + k, t2)
  {
    ReceivedMore(src, got, k);
    Regroup(whole, Received(src, got), data);
  }
}
