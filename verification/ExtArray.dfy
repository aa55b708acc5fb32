/** The flat extensible byte array: the simple reference the block array is
    compared with. */
module ExtArrays {
  import opened Arith
  import opened Strides

  class ExtArray {
    var data: array<byte>
    var len: nat

    ghost predicate Valid()
      reads this
    {
      len <= data.Length
    }

    ghost function Contents(): seq<byte>
      requires Valid()
      reads this, data
    {
      data[..len]
    }

    constructor ()
      ensures Valid() && Contents() == [] && fresh(data)
    {
      data := new byte[0];
      len := 0;
    }

    /** Grow the backing array to twice the requested capacity when it is too small. */
    method Reserve(cap: nat)
      requires Valid()
      modifies this
      ensures Valid() && Contents() == old(Contents())
      ensures data.Length >= cap
      ensures if cap > old(data.Length) then fresh(data) && data.Length == 2 * cap else data == old(data)
    {
      if cap > data.Length {
        var bigger := new byte[cap * 2];
        forall i | 0 <= i < len {
          bigger[i] := data[i];
        }
        data := bigger;
      }
    }

    method Insert(ofst: nat, src: seq<byte>)
      requires Valid() && ofst <= len
      modifies this, data
      ensures Valid() && (data == old(data) || fresh(data))
      ensures Contents() == old(Contents())[..ofst] + src + old(Contents())[ofst..]
    {
      hide Splice;
      ghost var before := Contents();
      var slen := |src|;
      Reserve(len + slen);
      ghost var room := data[..len + slen];
      assert room[..len] == data[..len];
      var tail := data[ofst..len];
      assert tail == before[ofst..];
      CopyInto(data, len + slen, ofst, src);
      CopyInto(data, len + slen, ofst + slen, tail);
      InsertedBetween(room, before, ofst, src);
      len := len + slen;
    }

    /** Only whole elements are read: the result is that of the stride cut down to
        the elements that fit. */
    method Read(str: Stride, size: nat) returns (n: nat, dest: seq<byte>)
      requires Valid() && size >= 1 && str.stride >= 1
      ensures CountsWhole(str, size, len, n)
      ensures dest == TakenAll(Contents(), str.(nelems := n), size)
      ensures |dest| == Bytes(n, size)
    {
      hide Taken, Selected, InElements, At, Bytes, CountsWhole;
      ghost var s := Contents();
      NothingTaken(s, str, size);
      n, dest := 0, [];
      var bidx := str.start * size;
      ghost var p := 0;
      while n < str.nelems
        invariant n <= str.nelems && bidx == At(str, size, n)
        invariant p == EndOf(str, size, n) <= |s| && p <= bidx
        invariant dest == Taken(s, str, size, p) && |dest| == Bytes(n, size)
      {
        if bidx + size > len {
          break;
        }
        BytesSucc(n, size);
        StepElement(s, str, size, n);
        PrefixSlice(data, len, bidx, bidx + size);
        dest := dest + data[bidx..bidx + size];
        p := bidx + size;
        bidx := bidx + str.stride * size;
        n := n + 1;
      }
      CountsUpTo(str, size, len, n);
      FinishElements(s, str, size, n);
    }

    method Write(str: Stride, size: nat, src: seq<byte>) returns (n: nat)
      requires Valid() && size >= 1 && str.stride >= 1
      requires |src| >= Bytes(str.nelems, size)
      modifies data
      ensures Valid() && CountsWhole(str, size, len, n)
      ensures |TakenAll(old(Contents()), str.(nelems := n), size)| == Bytes(n, size)
      ensures Contents() == WrittenAll(old(Contents()), src, str.(nelems := n), size)
    {
      hide PartWritten, Splice, Taken, Selected, InElements, At, Bytes, CountsWhole;
      ghost var s := Contents();
      NothingTaken(s, str, size);
      NothingWritten(s, src, str, size);
      n := 0;
      var bidx := str.start * size;
      var sidx := 0;
      ghost var p := 0;
      while n < str.nelems
        invariant n <= str.nelems && bidx == At(str, size, n)
        invariant p == EndOf(str, size, n) <= |s| && p <= bidx
        invariant sidx == |Taken(s, str, size, p)| == Bytes(n, size)
        invariant data[..len] == PartWritten(s, src, str, size, p)
      {
        if bidx + size > len {
          break;
        }
        RoomFor(n, str.nelems, size);
        BytesSucc(n, size);
        StepElement(s, str, size, n);
        StepWritten(s, src, str, size, n);
        CopyInto(data, len, bidx, src[sidx..sidx + size]);
        sidx := sidx + size;
        p := bidx + size;
        bidx := bidx + str.stride * size;
        n := n + 1;
      }
      CountsUpTo(str, size, len, n);
      FinishElements(s, str, size, n);
      FinishWritten(s, src, str, size, n);
    }

    /** Element-wise compaction with a read and a write position. The code handles whole
        elements: of a last one that the length cuts, the bytes behind the length, which
        must be within the capacity, take part and become contents. */
    method Remove(str: Stride, size: nat, wantDest: bool) returns (n: nat, dest: seq<byte>)
      requires Valid() && size >= 1 && str.stride >= 1 && WholeUp(len, size) <= data.Length
      modifies this`len, data
      ensures Valid() && data == old(data)
      ensures CountsWhole(str, size, WholeUp(old(len), size), n)
      ensures dest == if wantDest then TakenAll(old(data[..WholeUp(len, size)]), str, size) else []
      ensures Contents() == KeptAll(old(data[..WholeUp(len, size)]), str, size)
    {
      hide Taken, Kept, Selected, InElements, Splice, Compacted, Pending, Bytes, Index, Aligned, At,
           CountsWhole, WholeUp;
      ghost var end := WholeUp(len, size);
      ghost var s := data[..end];
      n, dest := 0, [];
      var wpos, rpos := 0, 0;
      var nextRemove := str.start;
      NothingScanned(s, str, size);
      while Bytes(rpos, size) < len
        invariant len == old(len) && end == |s| <= data.Length && data == old(data)
        invariant Bytes(wpos, size) <= Bytes(rpos, size) <= end
        invariant nextRemove == Index(str, n) && Pending(str, size, rpos, n)
        invariant dest == if wantDest then Taken(s, str, size, Bytes(rpos, size)) else []
        invariant Compacted(data[..end], s, Bytes(wpos, size), Bytes(rpos, size),
                            Kept(s, str, size, Bytes(rpos, size)))
        decreases end - Bytes(rpos, size)
      {
        var r, w := Bytes(rpos, size), Bytes(wpos, size);
        WholeElementFits(rpos, size, |s|);
        ScanStep(str, size, rpos, n);
        CompactedChunk(data[..end], s, w, r, size, Kept(s, str, size, r));
        PrefixSlice(data, end, r, r + size);
        if n < str.nelems && rpos == nextRemove {
          RemoveHit(s, str, size, r, n);
          if wantDest {
            dest := dest + data[r..r + size];
          }
          n := n + 1;
          nextRemove := nextRemove + str.stride;
        } else {
          RemoveMiss(s, str, size, r, n);
          if wpos != rpos {
            CopyInto(data, end, w, data[r..r + size]);
          }
          BytesSucc(wpos, size);
          wpos := wpos + 1;
        }
        rpos := rpos + 1;
      }
      WholeUpReached(rpos, size, len);
      RemoveFinish(s, str, size, rpos, n);
      CompactedDone(data[..end], s, Bytes(wpos, size), Kept(s, str, size, end));
      PrefixSlice(data, end, 0, Bytes(wpos, size));
      len := Bytes(wpos, size);
    }
  }

  lemma InsertedBetween(room: seq<byte>, s: seq<byte>, ofst: nat, src: seq<byte>)
    requires ofst <= |s| && |room| == |s| + |src| && room[..|s|] == s
    ensures Splice(Splice(room, ofst, src), ofst + |src|, s[ofst..]) == s[..ofst] + src + s[ofst..]
  {
  }

  lemma PrefixSlice(a: array<byte>, len: nat, lo: nat, hi: nat)
    requires lo <= hi <= len <= a.Length
    ensures a[lo..hi] == a[..len][lo..hi]
  {
  }

  /** The element index of the n-th element of a stride. */
  ghost function Index(str: Stride, n: nat): nat {
    str.start + n * str.stride
  }

  /** The scan of a removal stands at element rpos with n elements removed: the
      n-th one, if it is still wanted, has not been passed yet. */
  ghost predicate Pending(str: Stride, size: nat, rpos: nat, n: nat) {
    && n <= str.nelems
    && (n < str.nelems ==> rpos <= Index(str, n))
    && EndOf(str, size, n) <= Bytes(rpos, size)
  }

  /** In-place compaction: the kept bytes fill the first w places, the bytes from
      r on have not been touched. */
  ghost predicate Compacted(d: seq<byte>, s: seq<byte>, w: nat, r: nat, kept: seq<byte>) {
    && |d| == |s|
    && w <= r <= |d|
    && d[..w] == kept
    && d[r..] == s[r..]
  }

  lemma NothingTaken(s: seq<byte>, str: Stride, size: nat)
    ensures Taken(s, str, size, 0) == []
    ensures At(str, size, 0) == str.start * size
    ensures Bytes(0, size) == 0
  {
  }

  lemma NothingScanned(s: seq<byte>, str: Stride, size: nat)
    ensures Taken(s, str, size, 0) == Kept(s, str, size, 0) == []
    ensures Compacted(s, s, 0, 0, [])
    ensures Pending(str, size, 0, 0) && Bytes(0, size) == 0 && Index(str, 0) == str.start
  {
  }

  lemma RemoveHit(s: seq<byte>, str: Stride, size: nat, r: nat, n: nat)
    requires n < str.nelems && r == At(str, size, n) && r + size <= |s|
    ensures Taken(s, str, size, r + size) == Taken(s, str, size, r) + s[r..r + size]
    ensures Kept(s, str, size, r + size) == Kept(s, str, size, r)
  {
    hide Taken, Kept, Selected, InElements;
    ElementSelected(str, size, n);
    TakeChunk(s, str, size, r, size);
  }

  lemma RemoveMiss(s: seq<byte>, str: Stride, size: nat, r: nat, n: nat)
    requires str.stride >= 1 && n <= str.nelems && r + size <= |s|
    requires EndOf(str, size, n) <= r && (n < str.nelems ==> r + size <= At(str, size, n))
    ensures Taken(s, str, size, r + size) == Taken(s, str, size, r)
    ensures Kept(s, str, size, r + size) == Kept(s, str, size, r) + s[r..r + size]
  {
    hide Taken, Kept, Selected, InElements;
    forall j | r <= j < r + size ensures !Selected(str, size, j) {
      NotSelectedBetween(str, size, n, j);
    }
    SkipChunk(s, str, size, r, size);
  }

  /** The element index comparison of the scan decides the byte offsets. */
  lemma ScanStep(str: Stride, size: nat, rpos: nat, n: nat)
    requires size >= 1 && str.stride >= 1 && Pending(str, size, rpos, n)
    ensures if n < str.nelems && rpos == Index(str, n) then
              && Bytes(rpos, size) == At(str, size, n)
              && Pending(str, size, rpos + 1, n + 1)
              && Index(str, n + 1) == Index(str, n) + str.stride
            else
              && Pending(str, size, rpos + 1, n)
              && EndOf(str, size, n) <= Bytes(rpos, size)
              && (n < str.nelems ==> Bytes(rpos, size) + size <= At(str, size, n))
  {
    AtClosed(str, size, n);
    BytesSucc(rpos, size);
    if n < str.nelems {
      if rpos == Index(str, n) {
        assert str.start + (n + 1) * str.stride == str.start + n * str.stride + str.stride;
      } else {
        MulMonotone(rpos + 1, str.start + n * str.stride, size);
      }
    }
  }

  lemma CompactedChunk(d: seq<byte>, s: seq<byte>, w: nat, r: nat, size: nat, kept: seq<byte>)
    requires Compacted(d, s, w, r, kept) && r + size <= |s|
    ensures d[r..r + size] == s[r..r + size]
    ensures Compacted(d, s, w, r + size, kept)
    ensures Compacted(Splice(d, w, d[r..r + size]), s, w + size, r + size, kept + s[r..r + size])
    ensures w == r ==> Compacted(d, s, w + size, r + size, kept + s[r..r + size])
  {
    assert d[r..r + size] == d[r..][..size];
    assert d[r + size..] == d[r..][size..];
  }

  lemma CompactedDone(d: seq<byte>, s: seq<byte>, w: nat, kept: seq<byte>)
    requires Compacted(d, s, w, |s|, kept)
    ensures w <= |d| && d[..w] == kept
  {
  }

  lemma RemoveFinish(s: seq<byte>, str: Stride, size: nat, rpos: nat, n: nat)
    requires size >= 1 && str.stride >= 1 && Bytes(rpos, size) == |s| && Pending(str, size, rpos, n)
    ensures CountsWhole(str, size, |s|, n)
  {
    AtClosed(str, size, n);
    if n < str.nelems {
      MulMonotone(rpos, Index(str, n), size);
    }
    CountsUpTo(str, size, |s|, n);
  }

  lemma RoomFor(n: nat, nelems: nat, size: nat)
    requires n < nelems
    ensures Bytes(n, size) + size <= Bytes(nelems, size)
  {
    MulMonotone(n + 1, nelems, size);
  }

  lemma StepWritten(s: seq<byte>, src: seq<byte>, str: Stride, size: nat, n: nat)
    requires size >= 1 && str.stride >= 1 && n < str.nelems
    requires At(str, size, n) + size <= |s|
    requires EndOf(str, size, n) <= At(str, size, n)
    requires |Taken(s, str, size, EndOf(str, size, n))| + size <= |src|
    ensures var p, b := EndOf(str, size, n), At(str, size, n);
            var m := |Taken(s, str, size, p)|;
            PartWritten(s, src, str, size, b + size)
            == Splice(PartWritten(s, src, str, size, p), b, src[m..m + size])
  {
    hide Taken, Selected, At, Splice, EndOf;
    GapBefore(str, size, n);
    ElementSelected(str, size, n);
    var p, b := EndOf(str, size, n), At(str, size, n);
    var m := |Taken(s, str, size, p)|;
    WriteSkip(s, src, str, size, p, b - p);
    WriteChunk(s, src, str, size, b, size);
    SplicePast(Written(s, src, str, size, p), s, p, b, src[m..m + size]);
  }

  /** Cutting a stride down to its first n elements does not change what lies
      before the end of element n - 1, and selects nothing behind it. */
  lemma {:induction false} CutStride(s: seq<byte>, str: Stride, size: nat, n: nat, p: nat)
    requires str.stride >= 1 && n <= str.nelems && p <= |s|
    requires n > 0 ==> p <= At(str, size, n - 1) + size
    requires n == 0 ==> p == 0
    ensures Taken(s, str.(nelems := n), size, p) == Taken(s, str, size, p)
    ensures Kept(s, str.(nelems := n), size, p) == Kept(s, str, size, p)
    decreases p
  {
    if p > 0 {
      CutStride(s, str, size, n, p - 1);
      CutSelected(str, size, n, p - 1);
    }
  }

  lemma {:induction false} CutWritten(s: seq<byte>, src: seq<byte>, str: Stride, size: nat, n: nat, p: nat)
    requires str.stride >= 1 && n <= str.nelems && p <= |s|
    requires n > 0 ==> p <= At(str, size, n - 1) + size
    requires n == 0 ==> p == 0
    ensures Taken(s, str.(nelems := n), size, p) == Taken(s, str, size, p)
    ensures Written(s, src, str.(nelems := n), size, p) == Written(s, src, str, size, p)
    decreases p
  {
    CutStride(s, str, size, n, p);
    if p > 0 {
      CutStride(s, str, size, n, p - 1);
      CutWritten(s, src, str, size, n, p - 1);
      CutSelected(str, size, n, p - 1);
    }
  }

  lemma CutSelected(str: Stride, size: nat, n: nat, j: nat)
    requires str.stride >= 1 && 0 < n <= str.nelems && j < At(str, size, n - 1) + size
    ensures Selected(str.(nelems := n), size, j) == Selected(str, size, j)
  {
    var cut := str.(nelems := n);
    SelectedMeaning(str, size, str.nelems, j);
    SelectedMeaning(cut, size, n, j);
    if t: nat :| t < str.nelems && Inside(str, size, t, j) {
      AtOrdered(str, size, n - 1, t);
      AtSame(str, size, n, t);
      assert Inside(cut, size, t, j);
    }
    if t: nat :| t < n && Inside(cut, size, t, j) {
      AtSame(str, size, n, t);
      assert Inside(str, size, t, j);
    }
  }

  lemma {:induction false} AtSame(str: Stride, size: nat, n: nat, t: nat)
    ensures At(str.(nelems := n), size, t) == At(str, size, t)
  {
    if t > 0 {
      AtSame(str, size, n, t - 1);
    }
  }

  lemma FinishElements(s: seq<byte>, str: Stride, size: nat, n: nat)
    requires str.stride >= 1 && n <= str.nelems && EndOf(str, size, n) <= |s|
    ensures var p := EndOf(str, size, n);
            && TakenAll(s, str.(nelems := n), size) == Taken(s, str, size, p)
            && KeptAll(s, str.(nelems := n), size) == Kept(s, str, size, p) + s[p..]
  {
    hide Taken, Kept, Selected, At;
    var cut := str.(nelems := n);
    var p := EndOf(str, size, n);
    CutStride(s, str, size, n, p);
    CutTail(str, size, n, |s|);
    SkipChunk(s, cut, size, p, |s| - p);
    assert s[p..|s|] == s[p..];
  }

  /** The stride cut down to n elements selects nothing behind element n - 1. */
  lemma CutTail(str: Stride, size: nat, n: nat, len: nat)
    requires str.stride >= 1 && n <= str.nelems
    ensures forall j :: EndOf(str, size, n) <= j < len ==> !Selected(str.(nelems := n), size, j)
  {
    if n > 0 {
      AtSame(str, size, n, n - 1);
    }
    NothingBehind(str.(nelems := n), size, EndOf(str, size, n), len);
  }

  lemma FinishWritten(s: seq<byte>, src: seq<byte>, str: Stride, size: nat, n: nat)
    requires str.stride >= 1 && n <= str.nelems && EndOf(str, size, n) <= |s|
    ensures var p := EndOf(str, size, n);
            WrittenAll(s, src, str.(nelems := n), size) == PartWritten(s, src, str, size, p)
  {
    var cut := str.(nelems := n);
    var p := EndOf(str, size, n);
    CutWritten(s, src, str, size, n, p);
    CutTail(str, size, n, |s|);
    WriteSkip(s, src, cut, size, p, |s| - p);
    assert s[p..|s|] == s[p..];
  }
}
