/** The circular buffer: a bounded byte queue over a caller's array. */
module CBuffers {
  import opened Arith
  import opened Strides
  import opened Rings

  /** The number of bytes held, from the cursors. */
  function Held(head: nat, tail: nat, isfull: bool, cap: nat): nat
    requires head < cap && tail < cap
  {
    if isfull then cap else if head >= tail then head - tail else cap - (tail - head)
  }

  ghost predicate Cursors(head: nat, tail: nat, isfull: bool, cap: nat) {
    head < cap && tail < cap && (isfull ==> head == tail)
  }

  /** The head stands right behind the bytes held. */
  lemma HeadBehind(head: nat, tail: nat, isfull: bool, cap: nat)
    requires Cursors(head, tail, isfull, cap)
    ensures var n := Held(head, tail, isfull, cap);
            n <= cap && head == Turn(tail + n, cap) && (isfull <==> n == cap)
  {
  }

  /** Moving the head past k more bytes. */
  lemma HeadMoved(head: nat, tail: nat, isfull: bool, cap: nat, k: nat)
    requires Cursors(head, tail, isfull, cap) && k <= cap - Held(head, tail, isfull, cap)
    ensures var head' := Turn(head + k, cap);
            var isfull' := isfull || (k > 0 && head' == tail);
            && Cursors(head', tail, isfull', cap)
            && Held(head', tail, isfull', cap) == Held(head, tail, isfull, cap) + k
  {
    hide Turn;
  }

  /** Moving the tail past k of the bytes held. */
  lemma TailMoved(head: nat, tail: nat, isfull: bool, cap: nat, k: nat)
    requires Cursors(head, tail, isfull, cap) && k <= Held(head, tail, isfull, cap)
    ensures var tail' := Turn(tail + k, cap);
            var isfull' := isfull && k == 0;
            && Cursors(head, tail', isfull', cap)
            && Held(head, tail', isfull', cap) == Held(head, tail, isfull, cap) - k
  {
    hide Turn;
  }

  /** Moving the tail back to make room for k bytes in front. */
  lemma TailBack(head: nat, tail: nat, isfull: bool, cap: nat, k: nat)
    requires Cursors(head, tail, isfull, cap) && 0 < k <= cap - Held(head, tail, isfull, cap)
    ensures var tail' := Turn(tail + cap - k, cap);
            && Cursors(head, tail', head == tail', cap)
            && Held(head, tail', head == tail', cap) == Held(head, tail, isfull, cap) + k
            && Turn(tail' + k, cap) == tail
  {
    hide Turn;
  }

  /** How much of the next left bytes to read lies in one piece. */
  function ReadPiece(head: nat, tail: nat, isfull: bool, cap: nat, left: nat): (next: nat)
    requires head < cap && tail < cap && 0 < left <= Held(head, tail, isfull, cap)
    ensures 0 < next <= left && tail + next <= cap
    ensures next == left || tail + next == cap
  {
    if !isfull && head > tail then Min(head - tail, left) else Min(cap - tail, left)
  }

  /** How much of the next left bytes to write fits in one piece. */
  function WritePiece(head: nat, tail: nat, cap: nat, left: nat): (next: nat)
    requires head < cap && tail < cap && 0 < left <= cap - Held(head, tail, false, cap)
    ensures 0 < next <= left && head + next <= cap
    ensures next == left || head + next == cap
  {
    if head >= tail then Min(cap - head, left) else Min(tail - head, left)
  }

  /** After k bytes of the front, the rest still lies before the head (isfull is not
      reset while a plan is made). */
  lemma RoomAhead(head: nat, tail: nat, isfull: bool, cap: nat, k: nat)
    requires Cursors(head, tail, isfull, cap) && k < Held(head, tail, isfull, cap)
    ensures Held(head, Turn(tail + k, cap), isfull, cap) >= Held(head, tail, isfull, cap) - k
  {
    hide Turn;
  }

  /** After k bytes behind the head, the rest of the room still lies before the tail. */
  lemma RoomBehind(head: nat, tail: nat, isfull: bool, cap: nat, k: nat)
    requires Cursors(head, tail, isfull, cap) && k < cap - Held(head, tail, isfull, cap)
    ensures Held(Turn(head + k, cap), tail, false, cap) == Held(head, tail, isfull, cap) + k
  {
    hide Turn;
  }

  /** Taking a contiguous chunk off the front. */
  lemma TakeFront(d: seq<byte>, head: nat, tail: nat, isfull: bool, next: nat)
    requires Cursors(head, tail, isfull, |d|)
    requires next <= Held(head, tail, isfull, |d|) <= |d| && 0 < next && tail + next <= |d|
    ensures var n := Held(head, tail, isfull, |d|);
            var tail' := Turn(tail + next, |d|);
            && Cursors(head, tail', false, |d|)
            && Held(head, tail', false, |d|) == n - next
            && d[tail..tail + next] == Ring(d, tail, n)[..next]
            && Ring(d, tail', n - next) == Ring(d, tail, n)[next..]
  {
    hide Turn, Ring;
    TailMoved(head, tail, isfull, |d|, next);
    RingSplit(d, tail, Held(head, tail, isfull, |d|), next);
    RingPlain(d, tail, next);
  }

  /** Putting a contiguous chunk behind the head. */
  lemma PutBack(d: seq<byte>, head: nat, tail: nat, isfull: bool, c: seq<byte>)
    requires Cursors(head, tail, isfull, |d|) && |c| > 0
    requires Held(head, tail, isfull, |d|) + |c| <= |d| && head + |c| <= |d|
    ensures var n := Held(head, tail, isfull, |d|);
            var head' := Turn(head + |c|, |d|);
            && Cursors(head', tail, head' == tail, |d|)
            && Held(head', tail, head' == tail, |d|) == n + |c|
            && Ring(Splice(d, head, c), tail, n + |c|) == Ring(d, tail, n) + c
  {
    hide Turn, Ring, Laid;
    HeadBehind(head, tail, isfull, |d|);
    HeadMoved(head, tail, isfull, |d|, |c|);
    LaidPlain(d, head, c);
    LaidAppends(d, Splice(d, head, c), tail, Held(head, tail, isfull, |d|), c);
  }

  /** The pops compare nothing but emptiness: taking more than is held does not shorten
      the buffer by that much, it wraps round and hands stale bytes back in. */
  lemma PopShortens(head: nat, tail: nat, isfull: bool, cap: nat, size: nat)
    requires Cursors(head, tail, isfull, cap) && 0 < size <= cap && Held(head, tail, isfull, cap) > 0
    ensures var n, n' := Held(head, tail, isfull, cap), Held(head, Turn(tail + size, cap), false, cap);
            && (n' < n <==> size <= n)
            && n' == if size <= n then n - size else n - size + cap
  {
    hide Turn;
  }

  class CBuffer {
    const data: array<byte>
    var head: nat
    var tail: nat
    var isfull: bool

    ghost predicate Valid()
      reads this
    {
      Cursors(head, tail, isfull, data.Length)
    }

    function Length(): (n: nat)
      requires Valid()
      reads this
    {
      Held(head, tail, isfull, data.Length)
    }

    function Avail(): (n: nat)
      requires Valid()
      reads this
      ensures Length() + n == data.Length
    {
      HeadBehind(head, tail, isfull, data.Length);
      data.Length - Length()
    }

    /** The bytes held, oldest first. */
    ghost function Contents(): (s: seq<byte>)
      requires Valid()
      reads this, data
      ensures |s| == Length() <= data.Length
    {
      HeadBehind(head, tail, isfull, data.Length);
      Ring(data[..], tail, Length())
    }

    lemma FullLength()
      requires Valid()
      ensures Length() <= data.Length && (isfull <==> Length() == data.Length)
    {
      HeadBehind(head, tail, isfull, data.Length);
    }

    constructor Create(data: array<byte>)
      requires data.Length > 0
      ensures Valid() && this.data == data && Contents() == []
    {
      this.data := data;
      head, tail, isfull := 0, 0, false;
    }

    constructor CreateWith(data: array<byte>, len: nat)
      requires data.Length > 0 && len <= data.Length
      ensures Valid() && this.data == data && Contents() == data[..len]
    {
      this.data := data;
      head, tail, isfull := Turn(len, data.Length), 0, len == data.Length;
    }

    method DiscardAll()
      requires Valid()
      modifies this
      ensures Valid() && Contents() == []
    {
      head, tail, isfull := 0, 0, false;
    }

    /** The next contiguous data: as much of the front as lies before the end of the array. */
    method NextDataBytes() returns (at: nat, len: nat)
      requires Valid()
      ensures at + len <= data.Length && len <= Length()
      ensures data[at..at + len] == Contents()[..len]
      ensures len == Length() || (len > 0 && at + len == data.Length)
    {
      if head == tail && !isfull {
        return 0, 0;
      }
      if head > tail {
        return tail, head - tail;
      } else {
        return tail, data.Length - tail;
      }
    }

    /** The next contiguous free region: a fakewrite commits what the caller puts there. */
    method NextAvailBytes() returns (at: nat, len: nat)
      requires Valid()
      ensures at + len <= data.Length && len <= Avail()
      ensures forall n :: 0 <= n <= len ==> Ring(data[..], head, n) == data[at..at + n]
      ensures len == Avail() || (len > 0 && at + len == data.Length)
      ensures len > 0 ==> at == head
    {
      if isfull {
        return 0, 0;
      }
      if head >= tail {
        return head, data.Length - head;
      } else {
        return head, tail - head;
      }
    }

    method FakeWrite(nbytes: nat)
      requires Valid() && nbytes <= Avail()
      modifies this
      ensures Valid() && Contents() == old(Contents()) + old(Ring(data[..], head, nbytes))
    {
      hide Turn, Ring;
      HeadBehind(head, tail, isfull, data.Length);
      HeadMoved(head, tail, isfull, data.Length, nbytes);
      RingSplit(data[..], tail, Length() + nbytes, Length());
      head := Turn(head + nbytes, data.Length);
      if nbytes > 0 && head == tail {
        isfull := true;
      }
    }

    method FakeRead(nbytes: nat)
      requires Valid() && nbytes <= Length()
      modifies this
      ensures Valid() && Contents() == old(Contents())[nbytes..]
    {
      hide Turn, Ring;
      HeadBehind(head, tail, isfull, data.Length);
      TailMoved(head, tail, isfull, data.Length, nbytes);
      RingSplit(data[..], tail, Length(), nbytes);
      tail := Turn(tail + nbytes, data.Length);
      if nbytes > 0 {
        isfull := false;
      }
    }

    /** Take off the front what lies in one piece there, at most left bytes. */
    method TakePiece(left: nat) returns (chunk: seq<byte>)
      requires Valid() && 0 < left <= Length()
      modifies this
      ensures Valid() && 0 < |chunk| <= left
      ensures chunk == old(Contents())[..|chunk|] && Contents() == old(Contents())[|chunk|..]
    {
      hide Turn, Ring, Held, ReadPiece;
      HeadBehind(head, tail, isfull, data.Length);
      var next := ReadPiece(head, tail, isfull, data.Length, left);
      TakeFront(data[..], head, tail, isfull, next);
      chunk := data[tail..tail + next];
      tail := Turn(tail + next, data.Length);
      isfull := false;
    }

    /** Read up to n elements; without a destination they are only dropped. */
    method Read(size: nat, n: nat, wantDest: bool) returns (count: nat, dest: seq<byte>)
      requires Valid() && size >= 1 && n >= 1
      modifies this
      ensures Valid() && count == Elements(n, size, old(Length()))
      ensures Contents() == old(Contents())[Bytes(count, size)..]
      ensures dest == if wantDest then old(Contents())[..Bytes(count, size)] else []
    {
      hide Turn, Ring, Bytes, Elements, Valid, Contents, Length;
      ghost var s := Contents();
      count := Elements(n, size, Length());
      var btoread := Bytes(count, size);
      var bread := 0;
      dest := [];
      while bread < btoread
        invariant bread <= btoread <= |s| && Valid() && Contents() == s[bread..]
        invariant dest == if wantDest then s[..bread] else []
      {
        var chunk := TakePiece(btoread - bread);
        if wantDest {
          dest := dest + chunk;
        }
        PrefixGrows(s, bread, |chunk|);
        bread := bread + |chunk|;
      }
    }

    /** Like a read that leaves the buffer as it is. */
    method Copy(size: nat, n: nat, wantDest: bool) returns (count: nat, dest: seq<byte>)
      requires Valid() && size >= 1 && n >= 1
      ensures count == Elements(n, size, Length())
      ensures dest == if wantDest then Contents()[..Bytes(count, size)] else []
    {
      hide Turn, Ring, Bytes, Elements, Held, ReadPiece;
      ghost var s := Contents();
      count := Elements(n, size, Length());
      var btoread := Bytes(count, size);
      var bread := 0;
      dest := [];
      var tail, isfull := this.tail, this.isfull;
      while bread < btoread
        invariant bread <= btoread <= |s| && Cursors(head, tail, isfull, data.Length)
        invariant Held(head, tail, isfull, data.Length) == |s| - bread
        invariant Ring(data[..], tail, |s| - bread) == s[bread..]
        invariant dest == if wantDest then s[..bread] else []
      {
        var next := ReadPiece(head, tail, isfull, data.Length, btoread - bread);
        TakeFront(data[..], head, tail, isfull, next);
        if wantDest {
          dest := dest + data[tail..tail + next];
        }
        PrefixGrows(s, bread, next);
        tail := Turn(tail + next, data.Length);
        bread := bread + next;
        isfull := false;
      }
    }

    /** Append as many of the n elements of src as fit. */
    method Write(src: seq<byte>, size: nat, n: nat) returns (count: nat)
      requires Valid() && size >= 1 && n >= 1 && |src| >= Bytes(n, size)
      modifies this, data
      ensures Valid() && count == Elements(n, size, old(Avail()))
      ensures Contents() == old(Contents()) + src[..Bytes(count, size)]
    {
      hide Turn, Ring, Bytes, Elements, Splice, Held, WritePiece;
      ghost var s := Contents();
      count := Elements(n, size, Avail());
      BytesMonotone(count, n, size);
      var btowrite := Bytes(count, size);
      var bwrite := 0;
      while bwrite < btowrite
        invariant bwrite <= btowrite <= |src| && |s| + btowrite <= data.Length && Valid()
        invariant Contents() == s + src[..bwrite]
      {
        HeadBehind(head, tail, isfull, data.Length);
        var next := WritePiece(head, tail, data.Length, btowrite - bwrite);
        ghost var c := src[bwrite..bwrite + next];
        PutBack(data[..], head, tail, isfull, c);
        assert data[..data.Length] == data[..];
        CopyInto(data, data.Length, head, src[bwrite..bwrite + next]);
        assert s + src[..bwrite] + c == s + src[..bwrite + next];
        assert data[..data.Length] == data[..];
        head := Turn(head + next, data.Length);
        bwrite := bwrite + next;
        if head == tail {
          isfull := true;
        }
      }
    }

    /** The part of the next left bytes that lies in one piece. */
    function Piece(left: nat): (next: nat)
      requires Valid() && 0 < left <= Length()
      reads this
      ensures 0 < next <= left && tail + next <= data.Length
      ensures next == left || Turn(tail + next, data.Length) == 0
    {
      ReadPiece(head, tail, isfull, data.Length, left)
    }

    /** Append bytes that there is room for. */
    method Append(bytes: seq<byte>)
      requires Valid() && 1 <= |bytes| <= Avail()
      modifies this, data
      ensures Valid() && Contents() == old(Contents()) + bytes
    {
      ByteWise(|bytes|, Avail());
      var _ := Write(bytes, 1, |bytes|);
      assert bytes[..|bytes|] == bytes;
    }

    /** Append a contiguous chunk at the front of src and take it off there. */
    method MoveChunk(src: CBuffer, k: nat)
      requires Valid() && src.Valid() && src != this && src.data != data
      requires 0 < k <= src.Length() && src.tail + k <= src.data.Length && k <= Avail()
      modifies this, data, src
      ensures Valid() && src.Valid()
      ensures Contents() == old(Contents()) + old(src.Contents())[..k]
      ensures src.Contents() == old(src.Contents())[k..]
      ensures src.tail == Turn(old(src.tail) + k, src.data.Length)
    {
      hide Turn, Ring, Held;
      HeadBehind(src.head, src.tail, src.isfull, src.data.Length);
      TakeFront(src.data[..], src.head, src.tail, src.isfull, k);
      Append(src.data[src.tail..src.tail + k]);
      src.tail := Turn(src.tail + k, src.data.Length);
      src.isfull := false;
    }

    /** Transfer up to cnt elements from src, in at most two contiguous chunks. */
    method MoveFrom(src: CBuffer, sz: nat, cnt: nat) returns (n: nat)
      requires Valid() && src.Valid() && src != this && src.data != data && sz >= 1 && cnt >= 1
      modifies this, data, src
      ensures Valid() && src.Valid()
      ensures n == Elements(cnt, sz, Min(old(src.Length()), old(Avail())))
      ensures Contents() == old(Contents()) + old(src.Contents())[..Bytes(n, sz)]
      ensures src.Contents() == old(src.Contents())[Bytes(n, sz)..]
      ensures Contents() + src.Contents() == old(Contents()) + old(src.Contents())
    {
      hide Turn, Bytes, Elements, Valid, Length, Avail, Contents, Piece;
      ghost var c, s := Contents(), src.Contents();
      n := Elements(Elements(cnt, sz, src.Length()), sz, Avail());
      ElementsBoth(cnt, sz, src.Length(), Avail());
      if n == 0 {
        BytesNone(sz);
        PiecesJoin(c, s, 0, 0);
        return;
      }
      BytesSome(n, sz);
      var nbytes := Bytes(n, sz);
      var first := src.Piece(nbytes);
      MoveChunk(src, first);
      PiecesJoin(c, s, first, nbytes);
      nbytes := nbytes - first;
      if nbytes > 0 {
        MoveChunk(src, nbytes);
      }
    }

    /** The same without taking anything from src. */
    method CopyFrom(src: CBuffer, sz: nat, cnt: nat) returns (n: nat)
      requires Valid() && src.Valid() && src != this && src.data != data && sz >= 1 && cnt >= 1
      modifies this, data
      ensures Valid() && src.Valid() && src.Contents() == old(src.Contents())
      ensures n == Elements(cnt, sz, Min(src.Length(), old(Avail())))
      ensures Contents() == old(Contents()) + src.Contents()[..Bytes(n, sz)]
    {
      hide Turn, Ring, Bytes, Elements, Held, Piece;
      ghost var c, s := Contents(), src.Contents();
      n := Elements(Elements(cnt, sz, src.Length()), sz, Avail());
      ElementsBoth(cnt, sz, src.Length(), Avail());
      if n == 0 {
        BytesNone(sz);
        return;
      }
      BytesSome(n, sz);
      var nbytes := Bytes(n, sz);
      var pos := src.tail;
      var first := src.Piece(nbytes);
      TakeFront(src.data[..], src.head, pos, src.isfull, first);
      Append(src.data[pos..pos + first]);
      pos := Turn(pos + first, src.data.Length);
      PiecesJoin(c, s, first, nbytes);
      nbytes := nbytes - first;
      if nbytes > 0 {
        TakeFront(src.data[..], src.head, pos, false, nbytes);
        Append(src.data[pos..pos + nbytes]);
      }
    }

    /** The size bytes from an offset on, in one copy or two. */
    method Fetch(at: nat, size: nat) returns (dest: seq<byte>)
      requires at < data.Length && size <= data.Length
      ensures dest == Ring(data[..], at, size)
    {
      if at + size <= data.Length {
        dest := data[at..at + size];
      } else {
        var first := data.Length - at;
        dest := data[at..at + first] + data[..size - first];
      }
    }

    /** Put bytes at an offset, in one copy or two. */
    method Store(at: nat, src: seq<byte>)
      requires at < data.Length && |src| <= data.Length
      modifies data
      ensures Laid(old(data[..]), data[..], at, src)
    {
      hide Laid, Splice, Turn;
      ghost var d := data[..];
      assert data[..data.Length] == d;
      if at + |src| <= data.Length {
        CopyInto(data, data.Length, at, src);
        assert data[..data.Length] == data[..];
        LaidPlain(d, at, src);
      } else {
        var first := data.Length - at;
        CopyInto(data, data.Length, at, src[..first]);
        ghost var d' := data[..];
        assert data[..data.Length] == d';
        CopyInto(data, data.Length, 0, src[first..]);
        assert data[..data.Length] == data[..];
        LaidPlain(d, at, src[..first]);
        LaidPlain(d', 0, src[first..]);
        LaidMore(d, d', data[..], at, src[..first], src[first..]);
        assert src[..first] + src[first..] == src;
      }
    }

    /** Element idx, if its index is below the number of bytes held; ok tells that the
        assertions behind that guard hold, which is not so for every such index. */
    method Get(size: nat, idx: nat) returns (ok: bool, found: bool, dest: seq<byte>)
      requires Valid() && size >= 1
      ensures ok <==> (idx >= Length() && !isfull) || Bytes(idx, size) + size <= Length()
      ensures ok ==> (found <==> Bytes(idx, size) + size <= Length())
      ensures ok && found ==> dest == Contents()[Bytes(idx, size)..Bytes(idx, size) + size]
    {
      hide Turn, Ring, Bytes, WholeIn;
      HeadBehind(head, tail, isfull, data.Length);
      BytesReach(idx, size, Length());
      if !isfull && idx >= Turn(head + data.Length - tail, data.Length) {
        return true, false, [];
      }
      if !(Bytes(idx, size) < data.Length && idx < WholeIn(Length(), size)) {
        return false, false, [];
      }
      dest := Fetch(Turn(tail + Bytes(idx, size), data.Length), size);
      RingSplit(data[..], tail, Length(), Bytes(idx, size));
      RingSplit(data[..], Turn(tail + Bytes(idx, size), data.Length), Length() - Bytes(idx, size), size);
      assert dest == Contents()[Bytes(idx, size)..][..size];
      SliceOfRest(Contents(), Bytes(idx, size), size);
      ok, found := true, true;
    }

    /** The oldest element; both peeks are this. */
    method Peek(size: nat) returns (ok: bool, found: bool, dest: seq<byte>)
      requires Valid() && size >= 1
      ensures ok <==> Length() == 0 || size <= Length()
      ensures ok ==> (found <==> Length() > 0)
      ensures ok && found ==> dest == Contents()[..size]
    {
      if !isfull && head == tail {
        return true, false, [];
      }
      BytesOne(size);
      ok, found, dest := Get(size, 0);
    }

    method PushBack(src: seq<byte>) returns (ok: bool)
      requires Valid() && |src| >= 1
      modifies this, data
      ensures Valid() && (ok <==> |src| <= old(Avail()))
      ensures Contents() == if ok then old(Contents()) + src else old(Contents())
    {
      hide Turn, Ring, Laid, Held;
      if Avail() < |src| {
        return false;
      }
      ghost var d, n := data[..], Length();
      HeadBehind(head, tail, isfull, data.Length);
      HeadMoved(head, tail, isfull, data.Length, |src|);
      Store(head, src);
      LaidAppends(d, data[..], tail, n, src);
      head := Turn(head + |src|, data.Length);
      if head == tail {
        isfull := true;
      }
      ok := true;
    }

    method PushFront(src: seq<byte>) returns (ok: bool)
      requires Valid() && |src| >= 1
      modifies this, data
      ensures Valid() && (ok <==> |src| <= old(Avail()))
      ensures Contents() == if ok then src + old(Contents()) else old(Contents())
    {
      hide Turn, Ring, Laid, Held;
      if Avail() < |src| {
        return false;
      }
      ghost var d, n := data[..], Length();
      HeadBehind(head, tail, isfull, data.Length);
      TailBack(head, tail, isfull, data.Length, |src|);
      var newTail := Turn(tail + data.Length - |src|, data.Length);
      Store(newTail, src);
      LaidPrepends(d, data[..], newTail, n, src);
      tail := newTail;
      if head == tail {
        isfull := true;
      }
      ok := true;
    }

    /** Take size bytes off the front; both pops are this. The code checks only that the
        buffer is not empty: what is held and then size - |held| stale bytes are handed
        out when more is asked for, and the buffer then holds what lies from there on
        round to its head. */
    method Pop(size: nat) returns (ok: bool, dest: seq<byte>)
      requires Valid() && size >= 1 && (Length() > 0 ==> size <= data.Length)
      modifies this
      ensures Valid() && (ok <==> old(Length()) > 0)
      ensures ok ==> dest == old(Ring(data[..], tail, size))
      ensures ok && size <= old(Length()) ==> dest == old(Contents())[..size] && Contents() == old(Contents())[size..]
      ensures ok && size > old(Length()) ==>
                && dest[..old(Length())] == old(Contents())
                && Contents() == old(Ring(data[..], Turn(tail + size, data.Length), Length() + data.Length - size))
      ensures !ok ==> dest == [] && Contents() == old(Contents())
    {
      hide Turn, Ring;
      if !isfull && head == tail {
        return false, [];
      }
      HeadBehind(head, tail, isfull, data.Length);
      PopShortens(head, tail, isfull, data.Length, size);
      if size <= Length() {
        TailMoved(head, tail, isfull, data.Length, size);
        RingSplit(data[..], tail, Length(), size);
      } else {
        RingSplit(data[..], tail, size, Length());
      }
      dest := Fetch(tail, size);
      tail := Turn(tail + size, data.Length);
      isfull := false;
      ok := true;
    }

    /** The slices of the front that a file write of at most len bytes sends. */
    method DataPlan(len: nat) returns (total: nat, io: seq<Slice>)
      requires Valid()
      ensures total == Min(Length(), len) && io == Plan(tail, total, data.Length)
    {
      hide Turn, Held;
      HeadBehind(head, tail, isfull, data.Length);
      total, io := Min(Length(), len), [];
      var bread, newtail := 0, tail;
      while bread < total
        invariant bread <= total && newtail == Turn(tail + bread, data.Length)
        invariant io == Plan(tail, bread, data.Length)
        invariant bread == 0 || bread == total || tail + bread == data.Length
      {
        RoomAhead(head, tail, isfull, data.Length, bread);
        var next := ReadPiece(head, newtail, isfull, data.Length, total - bread);
        assert |io| < 2;
        io := io + [Slice(newtail, next)];
        newtail := Turn(newtail + next, data.Length);
        bread := bread + next;
      }
    }

    /** The slices of the free space that a file read of at most len bytes fills. */
    method FreePlan(len: nat) returns (total: nat, io: seq<Slice>)
      requires Valid()
      ensures total == Min(Avail(), len) && io == Plan(head, total, data.Length)
    {
      hide Turn, Held;
      HeadBehind(head, tail, isfull, data.Length);
      total, io := Min(Avail(), len), [];
      var bwrite, newhead := 0, head;
      while bwrite < total
        invariant bwrite <= total && newhead == Turn(head + bwrite, data.Length)
        invariant io == Plan(head, bwrite, data.Length)
        invariant bwrite == 0 || bwrite == total || head + bwrite == data.Length
      {
        RoomBehind(head, tail, isfull, data.Length, bwrite);
        var next := WritePiece(newhead, tail, data.Length, total - bwrite);
        assert |io| < 2;
        io := io + [Slice(newhead, next)];
        newhead := Turn(newhead + next, data.Length);
        bwrite := bwrite + next;
      }
    }

    /** A file write: the front goes out slice by slice and is then consumed. A transfer
        that fails may have sent any part of it, up to reached bytes; nothing is consumed. */
    method WriteToFile(len: nat, fails: bool, reached: nat) returns (r: int, sent: seq<byte>)
      requires Valid()
      modifies this
      ensures Valid()
      ensures var total := Min(old(Length()), len);
              if total > 0 && fails then
                r == -1 && sent == old(Contents())[..Min(reached, total)] && Contents() == old(Contents())
              else r == total && sent == old(Contents())[..total] && Contents() == old(Contents())[total..]
    {
      hide Turn, Ring, Held;
      var total, io := DataPlan(len);
      if total == 0 {
        return 0, [];
      }
      HeadBehind(head, tail, isfull, data.Length);
      PlanCovers(data[..], tail, total);
      RingSplit(data[..], tail, Length(), total);
      sent := Gather(data[..], io);
      if fails {
        return -1, sent[..Min(reached, total)];
      }
      FakeRead(total);
      r := total;
    }

    /** What the file has to give fills the slices in order. */
    method FillSlices(io: seq<Slice>, incoming: seq<byte>, ghost at: nat, ghost total: nat) returns (got: nat)
      requires at < data.Length && total <= data.Length && io == Plan(at, total, data.Length)
      modifies data
      ensures got == Min(|incoming|, total)
      ensures Laid(old(data[..]), data[..], at, incoming[..got])
    {
      hide Turn, Laid, Splice;
      ghost var d := data[..];
      LaidNothing(d, at);
      got := 0;
      var i := 0;
      while i < |io| && got < |incoming|
        invariant i <= |io| && got <= total && got <= |incoming|
        invariant got == |incoming| || got == if i == |io| then total else if i == 0 then 0 else io[0].len
        invariant Laid(d, data[..], at, incoming[..got])
      {
        var k := Min(io[i].len, |incoming| - got);
        ghost var d' := data[..];
        assert data[..data.Length] == d';
        CopyInto(data, data.Length, io[i].at, incoming[got..got + k]);
        assert data[..data.Length] == data[..];
        LaidPlain(d', io[i].at, incoming[got..got + k]);
        LaidMore(d, d', data[..], at, incoming[..got], incoming[got..got + k]);
        assert incoming[..got] + incoming[got..got + k] == incoming[..got + k];
        got := got + k;
        i := i + 1;
      }
    }

    /** A file read: the free slices are filled with what the file gives and that much
        is then committed, unless the transfer fails. */
    method ReadFromFile(incoming: seq<byte>, fails: bool, len: nat) returns (r: int)
      requires Valid()
      modifies this, data
      ensures Valid()
      ensures var total := Min(old(Avail()), len);
              if total > 0 && fails then r == -1 && Contents() == old(Contents())
              else r == Min(|incoming|, total) && Contents() == old(Contents()) + incoming[..r]
    {
      hide Turn, Ring, Held, Laid;
      var total, io := FreePlan(len);
      if total == 0 {
        return 0;
      }
      HeadBehind(head, tail, isfull, data.Length);
      ghost var d, n := data[..], Length();
      var got := FillSlices(io, incoming, head, total);
      LaidAppends(d, data[..], tail, n, incoming[..got]);
      LaidOutside(d, data[..], tail, n, incoming[..got]);
      if fails {
        return -1;
      }
      HeadMoved(head, tail, isfull, data.Length, got);
      head := Turn(head + got, data.Length);
      if head == tail && got > 0 {
        isfull := true;
      }
      r := got;
    }
  }

  /** Two bytes held in four, a pop of three: three bytes are held afterwards. */
  method PopOverrun() returns (b: CBuffer)
    ensures b.Valid() && b.Length() == 3
  {
    var data := new byte[4];
    b := new CBuffer.Create(data);
    var count := b.Write([1, 2], 1, 2);
    ByteWise(2, 4);
    assert b.Length() == |b.Contents()| == 2;
    var ok, dest := b.Pop(3);
    assert b.Length() == |b.Contents()|;
  }

  /** Two bytes held, element 1 of two bytes each asked for: it is out of range, but its
      index is below the number of bytes held, so that an assertion is met instead of
      the answer false. */
  method GetStops() returns (ok: bool)
    ensures !ok
  {
    var data := new byte[4];
    var b := new CBuffer.Create(data);
    var count := b.Write([1, 2], 1, 2);
    ByteWise(2, 4);
    assert b.Length() == |b.Contents()| == 2;
    BytesOne(2);
    var found, dest;
    ok, found, dest := b.Get(2, 1);
  }

  lemma SliceOfRest(s: seq<byte>, a: nat, b: nat)
    requires a + b <= |s|
    ensures s[a..][..b] == s[a..a + b]
  {
  }

  lemma PrefixGrows(s: seq<byte>, a: nat, b: nat)
    requires a + b <= |s|
    ensures s[..a] + s[a..][..b] == s[..a + b] && s[a..][b..] == s[a + b..]
  {
  }

  lemma PiecesJoin(c: seq<byte>, s: seq<byte>, k: nat, n: nat)
    requires k <= n <= |s|
    ensures c + s[..k] + s[k..][..n - k] == c + s[..n] && s[k..][n - k..] == s[n..]
    ensures c + s[..n] + s[n..] == c + s
  {
    PrefixGrows(s, k, n - k);
    assert s == s[..n] + s[n..];
  }
}
