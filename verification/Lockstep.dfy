/** The data validator: the block array and its flat reference run the same
    history of operations side by side. */
module Lockstep {
  import opened Arith
  import opened Strides
  import opened StrideLaws
  import opened BlockArrays
  import opened ExtArrays

  datatype Op =
    | Insert(ofst: nat, src: seq<byte>)
    | Read(str: Stride, size: nat)
    | Write(str: Stride, size: nat, src: seq<byte>)
    | Remove(str: Stride, size: nat)

  /** What the validator compares after an operation: the element count and the
      bytes of that many elements (nothing for an insertion). */
  datatype Reply = Reply(count: nat, bytes: seq<byte>)

  /** The operations the validator issues on data of len bytes. */
  ghost predicate InScope(len: nat, op: Op) {
    match op
    case Insert(ofst, src) => ofst <= len && src != []
    case Read(str, size) => size >= 1 && str.stride >= 1
    case Write(str, size, src) =>
      size >= 1 && str.stride >= 1 && Aligned(len, size) && |src| >= Bytes(str.nelems, size)
    case Remove(str, size) =>
      size >= 1 && str.stride >= 1 && str.nelems >= 1 && Aligned(len, size)
  }

  /** The flat bytes after one operation. */
  ghost function After(s: seq<byte>, op: Op): seq<byte> {
    match op
    case Insert(ofst, src) => if ofst <= |s| then s[..ofst] + src + s[ofst..] else s
    case Read(_, _) => s
    case Write(str, size, src) => WrittenAll(s, src, str, size)
    case Remove(str, size) => KeptAll(s, str, size)
  }

  /** The reply to one operation, as a function of the flat bytes alone. */
  ghost function Answer(s: seq<byte>, op: Op): Reply {
    match op
    case Insert(_, _) => Reply(0, [])
    case Read(str, size) =>
      var n := WholeCount(str, size, |s|);
      Reply(n, TakenAll(s, str.(nelems := n), size))
    case Write(str, size, _) => Reply(WholeCount(str, size, |s|), [])
    case Remove(str, size) => Reply(WholeCount(str, size, |s|), TakenAll(s, str, size))
  }

  ghost function Final(s: seq<byte>, ops: seq<Op>): seq<byte>
    decreases |ops|
  {
    if ops == [] then s else Final(After(s, ops[0]), ops[1..])
  }

  ghost function Answers(s: seq<byte>, ops: seq<Op>): seq<Reply>
    decreases |ops|
  {
    if ops == [] then [] else [Answer(s, ops[0])] + Answers(After(s, ops[0]), ops[1..])
  }

  ghost predicate AllInScope(s: seq<byte>, ops: seq<Op>)
    decreases |ops|
  {
    ops == [] || (InScope(|s|, ops[0]) && AllInScope(After(s, ops[0]), ops[1..]))
  }

  /** A strided read cut to whole elements is a prefix of the bytes selected. */
  lemma CutPrefix(s: seq<byte>, str: Stride, size: nat, n: nat)
    requires str.stride >= 1 && CountsWhole(str, size, |s|, n)
    ensures |TakenAll(s, str.(nelems := n), size)| == Bytes(n, size) <= |TakenAll(s, str, size)|
    ensures TakenAll(s, str.(nelems := n), size) == TakenAll(s, str, size)[..Bytes(n, size)]
  {
    hide Taken, Kept, Selected, At, EndOf, CountsWhole;
    CountedEnd(str, size, |s|, n);
    FinishElements(s, str, size, n);
    TakenElements(s, str, size, n);
    TakenMonotone(s, str, size, EndOf(str, size, n), |s|);
  }

  /** With whole elements only, cutting the stride to the elements that fit changes nothing. */
  lemma CutNothing(s: seq<byte>, src: seq<byte>, str: Stride, size: nat, n: nat)
    requires size >= 1 && str.stride >= 1 && Aligned(|s|, size) && CountsWhole(str, size, |s|, n)
    ensures |TakenAll(s, str, size)| == Bytes(n, size)
    ensures TakenAll(s, str.(nelems := n), size) == TakenAll(s, str, size)
    ensures WrittenAll(s, src, str.(nelems := n), size) == WrittenAll(s, src, str, size)
  {
    hide Taken, Kept, Selected, At, CountsWhole, Aligned;
    CutPrefix(s, str, size, n);
    CountIsWhole(str, size, |s|, n);
    AlignedTaken(s, str, size);
    CountedEnd(str, size, |s|, n);
    var p := EndOf(str, size, n);
    AlignedNext(str, size, |s|, n);
    forall j | p <= j < |s| ensures !Selected(str, size, j) {
      NotSelectedBetween(str, size, n, j);
    }
    WriteSkip(s, src, str, size, p, |s| - p);
    FinishWritten(s, src, str, size, n);
    assert s[p..|s|] == s[p..];
  }

  /** The end of the data cuts through no element: n of them fit and the next, if any,
      starts behind the end. */
  ghost predicate NoneCut(str: Stride, size: nat, len: nat, n: nat) {
    n < str.nelems ==> At(str, size, n) >= len
  }

  /** Reads on data of any length, whole elements or not: taking only the elements that
      fit and taking every selected byte is the same exactly when none is cut. */
  lemma SameIffNoneCut(s: seq<byte>, str: Stride, size: nat, n: nat)
    requires size >= 1 && str.stride >= 1 && CountsWhole(str, size, |s|, n)
    ensures TakenAll(s, str.(nelems := n), size) == TakenAll(s, str, size) <==> NoneCut(str, size, |s|, n)
  {
    hide Taken, Kept, Selected, At, EndOf, CountsWhole;
    var p := EndOf(str, size, n);
    CountedEnd(str, size, |s|, n);
    FinishElements(s, str, size, n);
    GapBefore(str, size, n);
    if NoneCut(str, size, |s|, n) {
      forall j | p <= j < |s| ensures !Selected(str, size, j) {
        BehindWhole(str, size, |s|, n, j);
      }
      SkipChunk(s, str, size, p, |s| - p);
    } else {
      var q := At(str, size, n);
      ElementSelected(str, size, n);
      TakenMonotone(s, str, size, p, q);
      LastByte(s, str, size, q + 1);
      TakenMonotone(s, str, size, q + 1, |s|);
    }
  }

  /** Writes on data of any length: replacing only the elements that fit, as the flat array
      does, and replacing every selected byte, as the block array does, leave the same
      bytes for every source exactly when no element is cut. */
  lemma WritesSameIffNoneCut(s: seq<byte>, str: Stride, size: nat, n: nat)
    requires size >= 1 && str.stride >= 1 && CountsWhole(str, size, |s|, n)
    ensures (forall src: seq<byte> :: |src| >= Bytes(str.nelems, size) ==>
               WrittenAll(s, src, str.(nelems := n), size) == WrittenAll(s, src, str, size))
       <==> NoneCut(str, size, |s|, n)
  {
    hide Bytes, WrittenAll, CountsWhole;
    if NoneCut(str, size, |s|, n) {
      forall src: seq<byte> | |src| >= Bytes(str.nelems, size)
        ensures WrittenAll(s, src, str.(nelems := n), size) == WrittenAll(s, src, str, size)
      {
        WholeWrite(s, src, str, size, n);
      }
    } else {
      var src := CutWrite(s, str, size, n);
    }
  }

  lemma WholeWrite(s: seq<byte>, src: seq<byte>, str: Stride, size: nat, n: nat)
    requires str.stride >= 1 && CountsWhole(str, size, |s|, n) && NoneCut(str, size, |s|, n)
    ensures WrittenAll(s, src, str.(nelems := n), size) == WrittenAll(s, src, str, size)
  {
    hide Taken, Selected, At, EndOf, CountsWhole;
    var p := EndOf(str, size, n);
    CountedEnd(str, size, |s|, n);
    forall j | p <= j < |s| ensures !Selected(str, size, j) {
      BehindWhole(str, size, |s|, n, j);
    }
    WriteSkip(s, src, str, size, p, |s| - p);
    FinishWritten(s, src, str, size, n);
    assert s[p..|s|] == s[p..];
  }

  /** The first byte of a cut element is replaced by the one array and not by the other. */
  lemma CutWrite(s: seq<byte>, str: Stride, size: nat, n: nat) returns (src: seq<byte>)
    requires size >= 1 && str.stride >= 1 && CountsWhole(str, size, |s|, n) && !NoneCut(str, size, |s|, n)
    ensures |src| >= Bytes(str.nelems, size)
    ensures WrittenAll(s, src, str.(nelems := n), size) != WrittenAll(s, src, str, size)
  {
    hide Taken, Written, At, EndOf, CountsWhole, Selected;
    var q := At(str, size, n);
    src := seq(Bytes(str.nelems, size) + |s| + 1, _ => !s[q]);
    CountedEnd(str, size, |s|, n);
    GapBefore(str, size, n);
    ElementSelected(str, size, n);
    TakenWithin(s, str, size, q);
    WrittenAt(s, src, str, size, q, |s|);
    CutTail(str, size, n, |s|);
    WrittenAt(s, src, str.(nelems := n), size, q, |s|);
    Flipped(s[q]);
  }

  lemma Flipped(x: byte)
    ensures !x != x
  {
  }

  lemma {:induction false} TakenWithin(s: seq<byte>, str: Stride, size: nat, n: nat)
    requires n <= |s|
    ensures |Taken(s, str, size, n)| <= n
  {
    if n > 0 {
      TakenWithin(s, str, size, n - 1);
    }
  }

  /** Removals on data of any length: the block array removes from the bytes held, the flat
      array from these and the ones behind them, d in all, up to whole elements. The bytes
      left and the counts both agree exactly when the data are whole elements. */
  lemma RemovalsSameIffAligned(d: seq<byte>, len: nat, str: Stride, size: nat, n: nat, m: nat)
    requires size >= 1 && str.stride >= 1 && |d| == WholeUp(len, size)
    requires CountsWhole(str, size, len, n) && CountsWhole(str, size, |d|, m)
    ensures KeptAll(d[..len], str, size) == KeptAll(d, str, size) && m == n <==> Aligned(len, size)
  {
    hide Kept, Taken, Selected, Aligned, CountsWhole, At, WholeUp;
    if Aligned(len, size) {
      assert d[..len] == d;
      WholeCountUnique(str, size, len, m, n);
    } else if Selected(str, size, len) {
      CutCounted(len, |d|, str, size, n, m);
    } else {
      CutKept(d, len, str, size);
    }
  }

  /** When the removal asks for the element that the length cuts, only the flat array counts it. */
  lemma CutCounted(len: nat, end: nat, str: Stride, size: nat, n: nat, m: nat)
    requires size >= 1 && str.stride >= 1 && end == WholeUp(len, size) && !Aligned(len, size)
    requires CountsWhole(str, size, len, n) && CountsWhole(str, size, end, m) && Selected(str, size, len)
    ensures n < m
  {
    hide At, Aligned, Bytes, WholeUp, InElements;
    SelectedMeaning(str, size, str.nelems, len);
    var u: nat :| u < str.nelems && Inside(str, size, u, len);
    ElementAligned(str, size, u);
    if At(str, size, u) < end {
      WholeElementFits(str.start + u * str.stride, size, end);
    }
    if m <= u {
      AtOrdered(str, size, m, u);
    }
  }

  lemma ElementAligned(str: Stride, size: nat, u: nat)
    requires size >= 1
    ensures str.start + u * str.stride >= 0
    ensures At(str, size, u) == Bytes(str.start + u * str.stride, size) && Aligned(At(str, size, u), size)
  {
    AtClosed(str, size, u);
    AlignedBytes(str.start + u * str.stride, size);
  }

  /** When it does not, the bytes behind the length are kept by the flat array only. */
  lemma CutKept(d: seq<byte>, len: nat, str: Stride, size: nat)
    requires size >= 1 && |d| == WholeUp(len, size) && !Aligned(len, size) && !Selected(str, size, len)
    ensures |KeptAll(d[..len], str, size)| < |KeptAll(d, str, size)|
  {
    hide Kept, Selected, Aligned, WholeUp;
    assert len < |d|;
    LastByte(d, str, size, len + 1);
    KeptPrefix(d, len, str, size, len);
    KeptMonotone(d, str, size, len + 1, |d|);
  }

  lemma {:induction false} KeptPrefix(d: seq<byte>, len: nat, str: Stride, size: nat, n: nat)
    requires n <= len <= |d|
    ensures Kept(d[..len], str, size, n) == Kept(d, str, size, n)
  {
    if n > 0 {
      KeptPrefix(d, len, str, size, n - 1);
    }
  }

  lemma {:induction false} KeptMonotone(s: seq<byte>, str: Stride, size: nat, m: nat, n: nat)
    requires m <= n <= |s|
    ensures |Kept(s, str, size, m)| <= |Kept(s, str, size, n)|
    decreases n
  {
    if m < n {
      KeptMonotone(s, str, size, m, n - 1);
    }
  }

  lemma BehindWhole(str: Stride, size: nat, len: nat, n: nat, j: int)
    requires str.stride >= 1 && n <= str.nelems && NoneCut(str, size, len, n)
    requires EndOf(str, size, n) <= j < len
    ensures !Selected(str, size, j)
  {
    NotSelectedBetween(str, size, n, j);
  }

  /** One operation on the block array. */
  method BlockStep(b: BlockArray, op: Op) returns (r: Reply)
    requires b.Valid() && InScope(|b.Contents()|, op)
    modifies b, b.live
    ensures b.Valid() && fresh(b.live - old(b.live))
    ensures b.Contents() == After(old(b.Contents()), op)
    ensures r == Answer(old(b.Contents()), op)
  {
    hide Taken, Kept, TakenAll, KeptAll, WrittenAll, CountsWhole, WholeFrom, Bytes, Aligned, FlatAll;
    ghost var s := b.Contents();
    match op {
      case Insert(ofst, src) =>
        var _, _ := b.Insert(ofst, src);
        r := Reply(0, []);
      case Read(str, size) =>
        var n, dest := b.Read(str, size);
        CountIsWhole(str, size, |s|, n);
        CutPrefix(s, str, size, n);
        r := Reply(n, dest[..Bytes(n, size)]);
      case Write(str, size, src) =>
        WriteFits(s, src, str, size);
        b.NodesLive();
        var n := b.Write(str, size, src);
        CountIsWhole(str, size, |s|, n);
        r := Reply(n, []);
      case Remove(str, size) =>
        var ok, n, dest := b.Remove(str, size, true);
        CountIsWhole(str, size, |s|, n);
        r := Reply(n, dest);
    }
  }

  /** The caller's buffer holds all bytes a write needs. */
  lemma WriteFits(s: seq<byte>, src: seq<byte>, str: Stride, size: nat)
    requires size >= 1 && str.stride >= 1 && Aligned(|s|, size) && |src| >= Bytes(str.nelems, size)
    ensures |src| >= |TakenAll(s, str, size)|
  {
    var n := WholeCount(str, size, |s|);
    WholeFromCounts(str, size, |s|, 0);
    AlignedTaken(s, str, size);
    BytesMonotone(n, str.nelems, size);
  }

  /** One operation on the flat reference. */
  method FlatStep(f: ExtArray, op: Op) returns (r: Reply)
    requires f.Valid() && InScope(|f.Contents()|, op)
    modifies f, f.data
    ensures f.Valid() && (f.data == old(f.data) || fresh(f.data))
    ensures f.Contents() == After(old(f.Contents()), op)
    ensures r == Answer(old(f.Contents()), op)
  {
    hide Taken, Kept, TakenAll, KeptAll, WrittenAll, CountsWhole, WholeFrom, Bytes, Aligned;
    ghost var s := f.Contents();
    match op {
      case Insert(ofst, src) =>
        f.Insert(ofst, src);
        r := Reply(0, []);
      case Read(str, size) =>
        var n, dest := f.Read(str, size);
        CountIsWhole(str, size, |s|, n);
        r := Reply(n, dest);
      case Write(str, size, src) =>
        var n := f.Write(str, size, src);
        CountIsWhole(str, size, |s|, n);
        CutNothing(s, src, str, size, n);
        r := Reply(n, []);
      case Remove(str, size) =>
        var n, dest := f.Remove(str, size, true);
        CountIsWhole(str, size, |s|, n);
        r := Reply(n, dest);
    }
  }

  /** The history from place i on, one operation unfolded. */
  lemma NextOp(s: seq<byte>, ops: seq<Op>, i: nat)
    requires i < |ops| && AllInScope(s, ops[i..])
    ensures InScope(|s|, ops[i]) && AllInScope(After(s, ops[i]), ops[i + 1..])
    ensures Final(s, ops[i..]) == Final(After(s, ops[i]), ops[i + 1..])
    ensures Answers(s, ops[i..]) == [Answer(s, ops[i])] + Answers(After(s, ops[i]), ops[i + 1..])
  {
    assert ops[i..][1..] == ops[i + 1..];
  }

  lemma LastOp(s: seq<byte>, ops: seq<Op>)
    ensures Final(s, ops[|ops|..]) == s && Answers(s, ops[|ops|..]) == []
  {
  }

  /** For every history of operations in scope, and whatever the capacity of a
      block is, the two arrays started empty end with the same flat contents and
      give the same replies, which depend on the history alone. */
  method RunBoth(cap: nat, ops: seq<Op>)
    returns (b: BlockArray, f: ExtArray, blockReplies: seq<Reply>, flatReplies: seq<Reply>)
    requires cap > 0 && AllInScope([], ops)
    ensures b.Valid() && f.Valid() && b.cap == cap
    ensures b.Contents() == f.Contents() == Final([], ops)
    ensures blockReplies == flatReplies == Answers([], ops)
  {
    hide BlockArray.Valid, BlockArray.Contents, After, Answer, InScope, FlatAll, Final, Answers, AllInScope;
    b := new BlockArray(cap);
    f := new ExtArray();
    blockReplies, flatReplies := [], [];
    var i := 0;
    assert ops[0..] == ops;
    while i < |ops|
      invariant i <= |ops|
      invariant fresh(b) && fresh(b.live) && fresh(f) && fresh(f.data) && b.cap == cap
      invariant b.Valid() && f.Valid()
      invariant b.Contents() == f.Contents()
      invariant AllInScope(b.Contents(), ops[i..])
      invariant Final(b.Contents(), ops[i..]) == Final([], ops)
      invariant blockReplies + Answers(b.Contents(), ops[i..]) == Answers([], ops)
      invariant flatReplies == blockReplies
    {
      NextOp(b.Contents(), ops, i);
      var x := BlockStep(b, ops[i]);
      var y := FlatStep(f, ops[i]);
      blockReplies, flatReplies := blockReplies + [x], flatReplies + [y];
      i := i + 1;
    }
    LastOp(b.Contents(), ops);
  }

  // ------------------------------------------------------ laws of the replies

  /** Reading elements a to b - 1 that lie inside delivers exactly their bytes. */
  lemma PlainRead(s: seq<byte>, size: nat, a: nat, b: nat)
    requires size >= 1 && a <= b && b * size <= |s|
    ensures a * size <= b * size && InScope(|s|, Read(Stride(a, 1, b - a), size))
    ensures After(s, Read(Stride(a, 1, b - a), size)) == s
    ensures Answer(s, Read(Stride(a, 1, b - a), size)) == Reply(b - a, s[a * size..b * size])
  {
    hide TakenAll, WholeCount;
    MulMonotone(a, b, size);
    RunCounted(size, a, b, |s|);
    RunOfElements(s, [], size, a, b);
  }

  /** Writing them replaces exactly their bytes. */
  lemma PlainWrite(s: seq<byte>, src: seq<byte>, size: nat, a: nat, b: nat)
    requires size >= 1 && a <= b && b * size <= |s| && |s| % size == 0 && |src| >= (b - a) * size
    ensures a * size <= b * size && |src| >= b * size - a * size
    ensures InScope(|s|, Write(Stride(a, 1, b - a), size, src))
    ensures After(s, Write(Stride(a, 1, b - a), size, src))
         == s[..a * size] + src[..b * size - a * size] + s[b * size..]
    ensures Answer(s, Write(Stride(a, 1, b - a), size, src)) == Reply(b - a, [])
  {
    hide WrittenAll, WholeCount;
    MulMonotone(a, b, size);
    assert (b - a) * size == b * size - a * size;
    RunCounted(size, a, b, |s|);
    RunOfElements(s, src, size, a, b);
  }

  /** Removing them takes exactly their bytes out and delivers them. */
  lemma PlainRemove(s: seq<byte>, size: nat, a: nat, b: nat)
    requires size >= 1 && a < b && b * size <= |s| && |s| % size == 0
    ensures a * size <= b * size && InScope(|s|, Remove(Stride(a, 1, b - a), size))
    ensures After(s, Remove(Stride(a, 1, b - a), size)) == s[..a * size] + s[b * size..]
    ensures Answer(s, Remove(Stride(a, 1, b - a), size)) == Reply(b - a, s[a * size..b * size])
  {
    hide TakenAll, KeptAll, WholeCount;
    MulMonotone(a, b, size);
    RunCounted(size, a, b, |s|);
    RunOfElements(s, [], size, a, b);
  }

  /** Every stride that the validator may draw is in scope. */
  lemma AnyStrideInScope(len: nat, str: Stride, size: nat, src: seq<byte>, ofst: nat)
    requires size >= 1 && str.stride >= 1
    ensures InScope(len, Read(str, size))
    ensures len % size == 0 && |src| >= str.nelems * size ==> InScope(len, Write(str, size, src))
    ensures len % size == 0 && str.nelems >= 1 ==> InScope(len, Remove(str, size))
    ensures ofst <= len && src != [] ==> InScope(len, Insert(ofst, src))
  {
  }

  /** The reply to a strided read: byte k of its element t is byte k of the data's element
      start + t * stride, for as many elements as lie inside. */
  lemma StridedReply(s: seq<byte>, str: Stride, size: nat, t: nat, k: nat)
    requires size >= 1 && str.stride >= 1 && k < size
    ensures var r := Answer(s, Read(str, size));
            && r.count <= str.nelems && |r.bytes| == r.count * size
            && (t < r.count <==> t < str.nelems && (str.start + t * str.stride) * size + size <= |s|)
            && (t < r.count ==>
                  && 0 <= t * size + k < |r.bytes| && 0 <= (str.start + t * str.stride) * size + k < |s|
                  && r.bytes[t * size + k] == s[(str.start + t * str.stride) * size + k])
  {
    hide Taken, TakenAll, At, WholeCount, WholeFrom;
    var n := WholeCount(str, size, |s|);
    WholeFromCountsAll(str, size, |s|);
    CutPrefix(s, str, size, n);
    AtClosed(str, size, t);
    if t < n {
      ElementRead(s, str, size, t, k);
      MulMonotone(t + 1, n, size);
      assert (t + 1) * size == t * size + size;
      assert TakenAll(s, str, size)[..Bytes(n, size)][t * size + k] == TakenAll(s, str, size)[t * size + k];
    } else if t < str.nelems {
      AtOrdered(str, size, n, t);
    }
  }

  lemma WholeFromCountsAll(str: Stride, size: nat, len: nat)
    requires str.stride >= 1
    ensures CountsWhole(str, size, len, WholeCount(str, size, len))
  {
    hide At;
    EndOfNothing(str, size);
    WholeFromCounts(str, size, len, 0);
  }

  /** An insertion and the removal of what was inserted are a history in scope at every
      offset: the bytes come back and the data are as they were. */
  lemma InsertedAndRemoved(s: seq<byte>, ofst: nat, src: seq<byte>)
    requires ofst <= |s| && src != []
    ensures var ops := [Insert(ofst, src), Remove(Stride(ofst, 1, |src|), 1)];
            && AllInScope(s, ops) && Final(s, ops) == s
            && Answers(s, ops) == [Reply(0, []), Reply(|src|, src)]
  {
    hide InScope, After, Answer, AllInScope, Final, Answers;
    InsertReply(s, ofst, src);
    RemoveReply(s, ofst, src);
    TwoOps(s, Insert(ofst, src), Remove(Stride(ofst, 1, |src|), 1));
  }

  lemma RemoveReply(s: seq<byte>, ofst: nat, src: seq<byte>)
    requires ofst <= |s| && src != []
    ensures var grown, op := s[..ofst] + src + s[ofst..], Remove(Stride(ofst, 1, |src|), 1);
            InScope(|grown|, op) && After(grown, op) == s && Answer(grown, op) == Reply(|src|, src)
  {
    hide InScope, After, Answer;
    var grown := s[..ofst] + src + s[ofst..];
    PartsOfGrown(s, ofst, src);
    RemovedBytes(grown, ofst, ofst + |src|);
  }

  /** The same for single bytes. */
  lemma RemovedBytes(s: seq<byte>, a: nat, b: nat)
    requires a < b <= |s|
    ensures InScope(|s|, Remove(Stride(a, 1, b - a), 1))
    ensures After(s, Remove(Stride(a, 1, b - a), 1)) == s[..a] + s[b..]
    ensures Answer(s, Remove(Stride(a, 1, b - a), 1)) == Reply(b - a, s[a..b])
  {
    hide After, Answer, InScope;
    assert a * 1 == a && b * 1 == b && |s| % 1 == 0;
    PlainRemove(s, 1, a, b);
  }

  lemma InsertReply(s: seq<byte>, ofst: nat, src: seq<byte>)
    requires ofst <= |s| && src != []
    ensures InScope(|s|, Insert(ofst, src)) && After(s, Insert(ofst, src)) == s[..ofst] + src + s[ofst..]
    ensures Answer(s, Insert(ofst, src)) == Reply(0, [])
  {
  }

  lemma PartsOfGrown(s: seq<byte>, ofst: nat, src: seq<byte>)
    requires ofst <= |s|
    ensures var grown := s[..ofst] + src + s[ofst..];
            && grown[..ofst] + grown[ofst + |src|..] == s
            && grown[ofst..ofst + |src|] == src
  {
    var grown := s[..ofst] + src + s[ofst..];
    assert grown[..ofst] == s[..ofst] && grown[ofst + |src|..] == s[ofst..];
  }

  lemma TwoOps(s: seq<byte>, x: Op, y: Op)
    requires InScope(|s|, x) && InScope(|After(s, x)|, y)
    ensures AllInScope(s, [x, y]) && Final(s, [x, y]) == After(After(s, x), y)
    ensures Answers(s, [x, y]) == [Answer(s, x), Answer(After(s, x), y)]
  {
    hide InScope, After, Answer;
    assert [x, y][1..] == [y] && [y][1..] == [];
    assert Final(After(s, x), [y]) == After(After(s, x), y);
    assert Answers(After(s, x), [y]) == [Answer(After(s, x), y)];
    assert AllInScope(After(s, x), [y]);
  }

  /** The bytes that insertions bring, and those that removals deliver. */
  ghost function BytesIn(ops: seq<Op>): multiset<byte>
    decreases |ops|
  {
    if ops == [] then multiset{}
    else (if ops[0].Insert? then multiset(ops[0].src) else multiset{}) + BytesIn(ops[1..])
  }

  ghost function BytesOut(ops: seq<Op>, replies: seq<Reply>): multiset<byte>
    requires |replies| == |ops|
    decreases |ops|
  {
    if ops == [] then multiset{}
    else (if ops[0].Remove? then multiset(replies[0].bytes) else multiset{}) + BytesOut(ops[1..], replies[1..])
  }

  lemma {:induction false} OneReplyEach(s: seq<byte>, ops: seq<Op>)
    ensures |Answers(s, ops)| == |ops|
    decreases |ops|
  {
    if ops != [] {
      OneReplyEach(After(s, ops[0]), ops[1..]);
    }
  }

  /** Over every history without writes, the bytes at the start and those inserted are those
      in the replies to the removals and those left. */
  lemma {:induction false} BytesBalance(s: seq<byte>, ops: seq<Op>)
    requires AllInScope(s, ops) && forall i :: 0 <= i < |ops| ==> !ops[i].Write?
    ensures |Answers(s, ops)| == |ops|
    ensures multiset(s) + BytesIn(ops) == BytesOut(ops, Answers(s, ops)) + multiset(Final(s, ops))
    decreases |ops|
  {
    hide InScope, After, Answer;
    if ops != [] {
      var s' := After(s, ops[0]);
      OneReplyEach(s', ops[1..]);
      BytesBalance(s', ops[1..]);
      StepBalance(s, ops[0]);
      assert Answers(s, ops)[1..] == Answers(s', ops[1..]);
      var i := if ops[0].Insert? then multiset(ops[0].src) else multiset{};
      var o := if ops[0].Remove? then multiset(Answer(s, ops[0]).bytes) else multiset{};
      Rebalance(multiset(s), i, BytesIn(ops[1..]), o, BytesOut(ops[1..], Answers(s', ops[1..])), multiset(s'),
                multiset(Final(s', ops[1..])));
    }
  }

  lemma Rebalance(s: multiset<byte>, i: multiset<byte>, i': multiset<byte>, o: multiset<byte>, o': multiset<byte>,
                  s': multiset<byte>, f: multiset<byte>)
    requires s + i == o + s' && s' + i' == o' + f
    ensures s + (i + i') == (o + o') + f
  {
    assert s + (i + i') == (s + i) + i';
    assert (o + s') + i' == o + (s' + i');
  }

  lemma StepBalance(s: seq<byte>, op: Op)
    requires InScope(|s|, op) && !op.Write?
    ensures multiset(s) + (if op.Insert? then multiset(op.src) else multiset{})
         == (if op.Remove? then multiset(Answer(s, op).bytes) else multiset{}) + multiset(After(s, op))
  {
    hide Taken, Kept, WholeCount;
    match op
    case Insert(ofst, src) =>
      assert s == s[..ofst] + s[ofst..];
      assert multiset(s[..ofst] + src + s[ofst..]) == multiset(s[..ofst]) + multiset(src) + multiset(s[ofst..]);
    case Remove(str, size) =>
      Conservation(s, str, size, |s|);
      assert s[..|s|] == s;
    case _ =>
  }
}
