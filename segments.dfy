/**
 * The segment list of an IOBuffer as a value: validity, the cached-count sum, the
 * blocks it references, and the bytes it holds (each extent's window, in order).
 */
module Segments {
  import opened Bytes
  import opened Extents

  predicate ValidSegs(s: seq<IOBufferData>)
  {
    forall i :: 0 <= i < |s| ==> s[i].Valid()
  }

  /** The sum of the segments' BytesConsumable, what byte_count_ must equal. */
  function Length(s: seq<IOBufferData>): (r: int)
    ensures ValidSegs(s) ==> r >= 0
  {
    if s == [] then 0 else Length(s[..|s| - 1]) + s[|s| - 1].BytesConsumable()
  }

  ghost function BlocksOf(s: seq<IOBufferData>): set<array<uint8>>
  {
    set e | e in s :: e.block
  }

  /** The stream's bytes: the concatenation of every segment's window. */
  ghost function Flatten(s: seq<IOBufferData>): (r: seq<uint8>)
    requires ValidSegs(s)
    reads BlocksOf(s)
    ensures |r| == Length(s)
  {
    if s == [] then [] else Flatten(s[..|s| - 1]) + s[|s| - 1].Window()
  }

  /** The segments without their trailing empty ones (what ZeroFill pops first). */
  function DropEmptyTail(s: seq<IOBufferData>): (r: seq<IOBufferData>)
    ensures |r| <= |s| && r == s[..|r|]
    ensures r == [] || !r[|r| - 1].IsEmpty()
    ensures forall i :: |r| <= i < |s| ==> s[i].IsEmpty()
  {
    if s != [] && s[|s| - 1].IsEmpty() then DropEmptyTail(s[..|s| - 1]) else s
  }

  /** Only the extents that hold bytes (what Append and Clone keep). */
  function NonEmpty(s: seq<IOBufferData>): (r: seq<IOBufferData>)
    ensures |r| <= |s|
    ensures forall i :: 0 <= i < |r| ==> !r[i].IsEmpty()
  {
    if s == [] then []
    else NonEmpty(s[..|s| - 1]) + (if s[|s| - 1].IsEmpty() then [] else [s[|s| - 1]])
  }

  /**
   * The free space of the last segment overlaps no other segment's window: writing
   * into it (ZeroFill, CopyIn, Read) cannot change bytes already in the list.
   */
  predicate TailIsolated(s: seq<IOBufferData>)
  {
    s == [] ||
    forall j :: 0 <= j < |s| - 1 && s[j].block == s[|s| - 1].block ==>
      s[j].producer <= s[|s| - 1].producer || s[|s| - 1].end <= s[j].consumer
  }

  /**
   * Appending behind the bytes of `s` keeps them: the last segment is isolated, or it
   * is full, so the appended bytes go to fresh blocks (CopyIn, Read).
   */
  predicate AppendSafe(s: seq<IOBufferData>)
  {
    TailIsolated(s) || s[|s| - 1].IsFull()
  }

  lemma {:induction false} LengthAppend(s: seq<IOBufferData>, t: seq<IOBufferData>)
    ensures Length(s + t) == Length(s) + Length(t)
    decreases |t|
  {
    if t == [] {
      assert s + t == s;
    } else {
      assert (s + t)[..|s + t| - 1] == s + t[..|t| - 1];
      LengthAppend(s, t[..|t| - 1]);
    }
  }

  lemma {:induction false} FlattenAppend(s: seq<IOBufferData>, t: seq<IOBufferData>)
    requires ValidSegs(s) && ValidSegs(t)
    ensures ValidSegs(s + t)
    ensures Flatten(s + t) == Flatten(s) + Flatten(t)
    decreases |t|
  {
    if t == [] {
      assert s + t == s;
    } else {
      assert (s + t)[..|s + t| - 1] == s + t[..|t| - 1];
      FlattenAppend(s, t[..|t| - 1]);
    }
  }

  /** The stream read from the front: the first window, then the rest. */
  lemma FlattenFront(s: seq<IOBufferData>)
    requires ValidSegs(s) && s != []
    ensures Flatten(s) == s[0].Window() + Flatten(s[1..])
    ensures Length(s) == s[0].BytesConsumable() + Length(s[1..])
  {
    var h, t := [s[0]], s[1..];
    assert s == h + t;
    FlattenAppend(h, t);
    LengthAppend(h, t);
    assert h[..0] == [];
    assert Flatten(h) == s[0].Window();
  }

  lemma LengthOne(e: IOBufferData)
    ensures Length([e]) == e.BytesConsumable()
  {
    assert [e][..0] == [];
  }

  lemma FlattenSnoc(s: seq<IOBufferData>, e: IOBufferData)
    requires ValidSegs(s) && e.Valid()
    ensures ValidSegs(s + [e])
    ensures Flatten(s + [e]) == Flatten(s) + e.Window()
    ensures Length(s + [e]) == Length(s) + e.BytesConsumable()
  {
    assert (s + [e])[..|s + [e]| - 1] == s;
  }

  /** Re-cutting segment i over its own block adds no block. */
  lemma BlocksUpdate(s: seq<IOBufferData>, i: int, e: IOBufferData)
    requires 0 <= i < |s| && e.block == s[i].block
    ensures BlocksOf(s[i := e]) <= BlocksOf(s)
  {
    forall x | x in s[i := e]
      ensures x.block in BlocksOf(s)
    {
      var m :| 0 <= m < |s| && s[i := e][m] == x;
      assert s[m] in s;
      assert s[i] in s;
    }
  }

  /** k more bytes taken from segment i extend the prefix the first i segments cover. */
  lemma TakeStep(s: seq<IOBufferData>, i: int, k: int)
    requires ValidSegs(s) && 0 <= i < |s| && 0 <= k <= s[i].BytesConsumable()
    ensures 0 <= Length(s[..i]) && Length(s[..i + 1]) <= Length(s)
    ensures Length(s[..i + 1]) == Length(s[..i]) + s[i].BytesConsumable()
    ensures Flatten(s)[..Length(s[..i]) + k] == Flatten(s)[..Length(s[..i])] + s[i].Window()[..k]
  {
    FlattenPrefix(s, i, k);
    FlattenPrefix(s, i, 0);
    PrefixStep(s, i);
    LengthPrefix(s, i + 1);
    ghost var a := Flatten(s[..i]);
    assert a + s[i].Window()[..0] == a;
  }

  lemma BlocksSnoc(s: seq<IOBufferData>, e: IOBufferData)
    ensures BlocksOf(s + [e]) == BlocksOf(s) + {e.block}
  {
    assert forall x | x in s + [e] :: x in s || x == e;
  }

  /** The prefix of every segment is the whole list. */
  lemma PrefixWhole(s: seq<IOBufferData>)
    ensures s[..|s|] == s
  {
  }

  /** One more segment of the prefix adds its window and its count. */
  lemma PrefixStep(s: seq<IOBufferData>, i: int)
    requires ValidSegs(s) && 0 <= i < |s|
    ensures Length(s[..i + 1]) == Length(s[..i]) + s[i].BytesConsumable()
    ensures Flatten(s[..i + 1]) == Flatten(s[..i]) + s[i].Window()
  {
    assert s[..i + 1][..i] == s[..i];
  }

  /** The stream around segment i: the segments before it, its window, the segments after. */
  lemma FlattenSplit(s: seq<IOBufferData>, i: int)
    requires ValidSegs(s) && 0 <= i < |s|
    ensures Flatten(s) == Flatten(s[..i]) + s[i].Window() + Flatten(s[i + 1..])
    ensures Length(s) == Length(s[..i]) + s[i].BytesConsumable() + Length(s[i + 1..])
  {
    assert s == s[..i + 1] + s[i + 1..];
    PrefixStep(s, i);
    FlattenAppend(s[..i + 1], s[i + 1..]);
    LengthAppend(s[..i + 1], s[i + 1..]);
  }

  /** Putting `e` in place of segment i replaces that segment's window by e's. */
  lemma FlattenReplace(s: seq<IOBufferData>, i: int, e: IOBufferData)
    requires ValidSegs(s) && 0 <= i < |s| && e.Valid()
    ensures ValidSegs(s[i := e])
    ensures Flatten(s[i := e]) == Flatten(s[..i]) + e.Window() + Flatten(s[i + 1..])
    ensures Length(s[i := e]) == Length(s[..i]) + e.BytesConsumable() + Length(s[i + 1..])
  {
    var t := s[i := e];
    assert t[..i] == s[..i] && t[i + 1..] == s[i + 1..];
    FlattenSplit(t, i);
  }

  /** Erasing an empty segment changes neither the bytes nor the count. */
  lemma EraseEmpty(s: seq<IOBufferData>, i: int)
    requires ValidSegs(s) && 0 <= i < |s| && s[i].IsEmpty()
    ensures ValidSegs(s[..i] + s[i + 1..])
    ensures Flatten(s[..i] + s[i + 1..]) == Flatten(s)
    ensures Length(s[..i] + s[i + 1..]) == Length(s)
    ensures (s[..i] + s[i + 1..])[..i] == s[..i]
  {
    FlattenSplit(s, i);
    FlattenAppend(s[..i], s[i + 1..]);
    LengthAppend(s[..i], s[i + 1..]);
    assert s[i].Window() == [];
    assert Flatten(s[..i]) + [] == Flatten(s[..i]);
  }

  /**
   * Advancing the front extent's consumer by k drops the first k bytes of the list;
   * if the front is then empty, so does erasing it.
   */
  lemma ConsumeFront(s: seq<IOBufferData>, e: IOBufferData, k: int)
    requires ValidSegs(s) && s != [] && 0 <= k <= s[0].BytesConsumable()
    requires e == s[0].(consumer := s[0].consumer + k)
    ensures ValidSegs(s[0 := e]) && ValidSegs(s[1..])
    ensures |Flatten(s)| == Length(s) && k <= Length(s)
    ensures Flatten(s[0 := e]) == Flatten(s)[k..] && Length(s[0 := e]) == Length(s) - k
    ensures e.IsEmpty() ==> Flatten(s[1..]) == Flatten(s)[k..] && Length(s[1..]) == Length(s) - k
  {
    FlattenFront(s);
    FrontReplaced(s, e);
    TrimFront(s[0], e, k, Flatten(s[1..]));
  }

  /** Putting `e` in place of the front segment puts its window in front of the rest. */
  lemma FrontReplaced(s: seq<IOBufferData>, e: IOBufferData)
    requires ValidSegs(s) && s != [] && e.Valid()
    ensures ValidSegs(s[0 := e]) && ValidSegs(s[1..])
    ensures Flatten(s[0 := e]) == e.Window() + Flatten(s[1..])
    ensures Length(s[0 := e]) == e.BytesConsumable() + Length(s[1..])
  {
    assert s[0 := e] == [e] + s[1..];
    FlattenFront(s[0 := e]);
    assert s[0 := e][1..] == s[1..];
  }

  /** Advancing an extent's consumer by k drops the first k bytes of its window and of what follows it. */
  lemma TrimFront(d: IOBufferData, e: IOBufferData, k: int, f: seq<uint8>)
    requires d.Valid() && 0 <= k <= d.BytesConsumable() && e == d.(consumer := d.consumer + k)
    ensures e.Valid() && e.Window() + f == (d.Window() + f)[k..]
    ensures e.IsEmpty() ==> f == (d.Window() + f)[k..]
  {
    assert e.Window() == d.Window()[k..];
  }

  /** The first `Length(s[..i]) + k` bytes end inside segment i. */
  lemma FlattenPrefix(s: seq<IOBufferData>, i: int, k: int)
    requires ValidSegs(s) && 0 <= i < |s| && 0 <= k <= s[i].BytesConsumable()
    ensures |Flatten(s)| == Length(s) && 0 <= Length(s[..i]) && Length(s[..i]) + k <= Length(s)
    ensures Flatten(s)[..Length(s[..i]) + k] == Flatten(s[..i]) + s[i].Window()[..k]
  {
    var front := s[..i] + [s[i]];
    assert s == front + s[i + 1..];
    FlattenSnoc(s[..i], s[i]);
    FlattenAppend(front, s[i + 1..]);
    LengthAppend(front, s[i + 1..]);
    ghost var a := Flatten(s[..i]);
    ghost var w := s[i].Window();
    assert Flatten(s) == a + w + Flatten(s[i + 1..]);
    assert (a + w + Flatten(s[i + 1..]))[..|a| + k] == a + w[..k];
  }

  lemma {:induction false} DropEmptyTailKeeps(s: seq<IOBufferData>)
    requires ValidSegs(s)
    ensures ValidSegs(DropEmptyTail(s))
    ensures Flatten(DropEmptyTail(s)) == Flatten(s)
    ensures Length(DropEmptyTail(s)) == Length(s)
  {
    if s != [] && s[|s| - 1].IsEmpty() {
      DropEmptyTailKeeps(s[..|s| - 1]);
    }
  }

  lemma {:induction false} NonEmptyKeeps(s: seq<IOBufferData>)
    requires ValidSegs(s)
    ensures ValidSegs(NonEmpty(s))
    ensures Flatten(NonEmpty(s)) == Flatten(s)
    ensures Length(NonEmpty(s)) == Length(s)
  {
    if s != [] {
      var p := s[..|s| - 1];
      NonEmptyKeeps(p);
      if s[|s| - 1].IsEmpty() {
        assert NonEmpty(s) == NonEmpty(p) + [] == NonEmpty(p);
        assert s[|s| - 1].Window() == [];
        assert Flatten(s) == Flatten(p) + [];
      } else {
        FlattenSnoc(NonEmpty(p), s[|s| - 1]);
      }
    }
  }

  /** Every segment's window reads the same bytes now as in the old state. */
  twostate predicate WindowsKept(s: seq<IOBufferData>)
    requires ValidSegs(s)
    reads BlocksOf(s)
  {
    forall j :: 0 <= j < |s| ==> s[j].Window() == old(s[j].Window())
  }

  /** Of the blocks of `s` and `b`, only `b` changed, and only in [lo, hi). */
  twostate predicate OnlyWritten(s: seq<IOBufferData>, b: array<uint8>, lo: int, hi: int)
    reads BlocksOf(s), b
  {
    (forall i :: 0 <= i < b.Length && !(lo <= i < hi) ==> b[i] == old(b[i])) &&
    forall j, i :: 0 <= j < |s| && s[j].block != b && 0 <= i < s[j].block.Length ==> s[j].block[i] == old(s[j].block[i])
  }

  /** Blocks left as they were make the same stream. */
  twostate lemma FlattenKept(s: seq<IOBufferData>)
    requires ValidSegs(s) && unchanged(BlocksOf(s))
    ensures Flatten(s) == old(Flatten(s))
  {
  }

  /** Windows that read the same bytes make the same stream. */
  twostate lemma {:induction false} FlattenUntouched(s: seq<IOBufferData>)
    requires ValidSegs(s) && WindowsKept(s)
    ensures Flatten(s) == old(Flatten(s))
  {
    if s != [] {
      FlattenUntouched(s[..|s| - 1]);
    }
  }

  /** The first i segments hold no more bytes than the whole list. */
  lemma LengthPrefix(s: seq<IOBufferData>, i: int)
    requires ValidSegs(s) && 0 <= i <= |s|
    ensures Length(s[..i]) <= Length(s)
  {
    assert s == s[..i] + s[i..];
    LengthAppend(s[..i], s[i..]);
  }

  /** Replacing the last segment changes the byte count by the difference of the two. */
  lemma LengthBack(s: seq<IOBufferData>, t: IOBufferData)
    requires ValidSegs(s) && s != [] && t.Valid()
    ensures ValidSegs(s[..|s| - 1] + [t])
    ensures Length(s[..|s| - 1] + [t]) == Length(s) - s[|s| - 1].BytesConsumable() + t.BytesConsumable()
  {
    assert (s[..|s| - 1] + [t])[..|s| - 1] == s[..|s| - 1];
  }

  /** Growing the tail into its own free space keeps it isolated. */
  lemma TailIsolatedGrown(s: seq<IOBufferData>, t: IOBufferData)
    requires s != [] && TailIsolated(s)
    requires t.block == s[|s| - 1].block && t.end == s[|s| - 1].end && s[|s| - 1].producer <= t.producer
    ensures TailIsolated(s[..|s| - 1] + [t])
  {
    var p := s[..|s| - 1];
    assert forall j :: 0 <= j < |p| ==> (p + [t])[j] == s[j];
  }

  /**
   * The last segment grew by `extra` bytes written into its own free space: the list
   * now holds the old bytes followed by `extra`, and its tail is still isolated.
   */
  twostate lemma {:induction false} TailGrown(s: seq<IOBufferData>, new t: IOBufferData, new extra: seq<uint8>)
    requires ValidSegs(s) && s != [] && TailIsolated(s)
    requires t == s[|s| - 1].(producer := s[|s| - 1].producer + |extra|) && t.Valid()
    requires OnlyWritten(s, s[|s| - 1].block, s[|s| - 1].producer, t.producer)
    requires t.Window() == old(s[|s| - 1].Window()) + extra
    ensures ValidSegs(s[..|s| - 1] + [t]) && TailIsolated(s[..|s| - 1] + [t])
    ensures Flatten(s[..|s| - 1] + [t]) == old(Flatten(s)) + extra
  {
    var p := s[..|s| - 1];
    PrefixKept(s, t.producer);
    FlattenUntouched(p);
    TailIsolatedGrown(s, t);
    FlattenSnoc(p, t);
  }

  /** Writing only the last segment's block, from its producer to `hi`, keeps the other windows of an isolated list. */
  twostate lemma PrefixKept(s: seq<IOBufferData>, new hi: int)
    requires ValidSegs(s) && s != [] && TailIsolated(s)
    requires OnlyWritten(s, s[|s| - 1].block, s[|s| - 1].producer, hi)
    requires hi <= s[|s| - 1].end
    ensures ValidSegs(s[..|s| - 1]) && WindowsKept(s[..|s| - 1])
  {
    var p := s[..|s| - 1];
    var b, lo := s[|s| - 1].block, s[|s| - 1].producer;
    forall j | 0 <= j < |p|
      ensures p[j].Window() == old(p[j].Window())
    {
      assert p[j] == s[j];
      WindowKept(s[j], b, lo, hi);
    }
  }

  /**
   * An extent whose window lies outside the only range [lo, hi) written in block `b`,
   * or in another, unchanged block, reads the same bytes.
   */
  twostate lemma WindowKept(e: IOBufferData, new b: array<uint8>, new lo: int, new hi: int)
    requires e.Valid()
    requires forall i :: 0 <= i < e.block.Length && !(e.block == b && lo <= i < hi) ==> e.block[i] == old(e.block[i])
    requires e.block == b ==> e.producer <= lo || hi <= e.consumer
    ensures e.Window() == old(e.Window())
  {
    forall i | e.consumer <= i < e.producer
      ensures e.block[i] == old(e.block[i])
    {
    }
  }
}
