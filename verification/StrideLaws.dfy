/** What the strided operations mean to a caller: laws about the specification
    functions that both arrays are proved to compute. */
module StrideLaws {
  import opened Arith
  import opened Strides

  /** The number of elements that fit, counted element by element from element t. */
  ghost function WholeFrom(str: Stride, size: nat, len: nat, t: nat): nat
    requires t <= str.nelems
    decreases str.nelems - t
  {
    if t < str.nelems && At(str, size, t) + size <= len then WholeFrom(str, size, len, t + 1) else t
  }

  ghost function WholeCount(str: Stride, size: nat, len: nat): nat {
    WholeFrom(str, size, len, 0)
  }

  lemma {:induction false} WholeFromCounts(str: Stride, size: nat, len: nat, t: nat)
    requires str.stride >= 1 && t <= str.nelems && EndOf(str, size, t) <= len
    ensures CountsWhole(str, size, len, WholeFrom(str, size, len, t))
    decreases str.nelems - t
  {
    if t < str.nelems && At(str, size, t) + size <= len {
      WholeFromCounts(str, size, len, t + 1);
    } else {
      CountsUpTo(str, size, len, t);
    }
  }

  /** A count of whole elements is the count. */
  lemma CountIsWhole(str: Stride, size: nat, len: nat, n: nat)
    requires str.stride >= 1
    requires CountsWhole(str, size, len, n)
    ensures n == WholeCount(str, size, len)
  {
    WholeFromCounts(str, size, len, 0);
    WholeCountUnique(str, size, len, n, WholeCount(str, size, len));
  }

  /** Taking and keeping share the bytes out: none is lost, none is doubled. */
  lemma {:induction false} Conservation(s: seq<byte>, str: Stride, size: nat, n: nat)
    requires n <= |s|
    ensures |Taken(s, str, size, n)| + |Kept(s, str, size, n)| == n
    ensures multiset(Taken(s, str, size, n)) + multiset(Kept(s, str, size, n)) == multiset(s[..n])
  {
    hide Taken, Kept, Selected;
    if n == 0 {
      TakenNone(s, str, size);
    } else {
      Conservation(s, str, size, n - 1);
      LastByte(s, str, size, n);
      assert s[..n] == s[..n - 1] + [s[n - 1]];
      MovedByte(Taken(s, str, size, n - 1), Kept(s, str, size, n - 1), s[..n - 1], s[n - 1]);
    }
  }

  lemma LastByte(s: seq<byte>, str: Stride, size: nat, n: nat)
    requires 0 < n <= |s|
    ensures if Selected(str, size, n - 1) then
              && Taken(s, str, size, n) == Taken(s, str, size, n - 1) + [s[n - 1]]
              && Kept(s, str, size, n) == Kept(s, str, size, n - 1)
            else
              && Taken(s, str, size, n) == Taken(s, str, size, n - 1)
              && Kept(s, str, size, n) == Kept(s, str, size, n - 1) + [s[n - 1]]
  {
    hide Selected;
  }

  lemma MovedByte(a: seq<byte>, b: seq<byte>, all: seq<byte>, x: byte)
    requires multiset(a) + multiset(b) == multiset(all)
    ensures multiset(a + [x]) + multiset(b) == multiset(all + [x])
    ensures multiset(a) + multiset(b + [x]) == multiset(all + [x])
  {
  }

  /** Up to the end of element t, the bytes taken are whole elements. */
  lemma {:induction false} TakenElements(s: seq<byte>, str: Stride, size: nat, t: nat)
    requires str.stride >= 1 && t <= str.nelems && EndOf(str, size, t) <= |s|
    ensures |Taken(s, str, size, EndOf(str, size, t))| == t * size
    decreases t
  {
    hide Taken, Selected, Kept;
    if t == 0 {
      TakenNone(s, str, size);
    } else {
      AtOrdered(str, size, t - 1, t);
      if t > 1 {
        AtOrdered(str, size, t - 2, t - 1);
      }
      TakenElements(s, str, size, t - 1);
      StepElement(s, str, size, t - 1);
      assert t * size == (t - 1) * size + size;
    }
  }

  lemma TakenNone(s: seq<byte>, str: Stride, size: nat)
    ensures Taken(s, str, size, 0) == [] && Kept(s, str, size, 0) == []
  {
  }

  /** Meaning of a strided read: byte k of the t-th element read is byte k of
      element start + t * stride of the flat sequence. */
  lemma ElementRead(s: seq<byte>, str: Stride, size: nat, t: nat, k: nat)
    requires str.stride >= 1 && t < str.nelems && k < size
    requires (str.start + t * str.stride) * size + size <= |s|
    ensures 0 <= t * size + k < |TakenAll(s, str, size)| && 0 <= (str.start + t * str.stride) * size + k < |s|
    ensures TakenAll(s, str, size)[t * size + k] == s[(str.start + t * str.stride) * size + k]
  {
    hide Taken, Kept, Selected, At;
    AtClosed(str, size, t);
    GapBefore(str, size, t);
    var b, m := At(str, size, t), t * size;
    TakenElements(s, str, size, t);
    StepElement(s, str, size, t);
    TakenMonotone(s, str, size, b + size, |s|);
    ByteInside(Taken(s, str, size, EndOf(str, size, t)), s[b..b + size], TakenAll(s, str, size), m, k);
  }

  lemma ByteInside(front: seq<byte>, element: seq<byte>, all: seq<byte>, m: nat, k: nat)
    requires |front| == m && front + element <= all && k < |element|
    ensures m + k < |all| && all[m + k] == element[k]
  {
    assert all[m + k] == (front + element)[m + k];
  }

  /** What is kept in front of element t is what was kept in front of element
      t - 1, and then the gap between the two: order is preserved. */
  lemma GapKept(s: seq<byte>, str: Stride, size: nat, t: nat)
    requires str.stride >= 1 && 0 < t < str.nelems && At(str, size, t) + size <= |s|
    ensures At(str, size, t - 1) + size <= At(str, size, t)
    ensures Kept(s, str, size, At(str, size, t) + size)
         == Kept(s, str, size, At(str, size, t - 1) + size) + s[At(str, size, t - 1) + size..At(str, size, t)]
  {
    hide Taken, Kept, Selected;
    AtOrdered(str, size, t - 1, t);
    StepElement(s, str, size, t);
  }

  /** Overwriting does not change which bytes are selected: what is kept stays, and
      reading the stride back gives the bytes written. */
  lemma {:induction false} WriteThenRead(s: seq<byte>, src: seq<byte>, str: Stride, size: nat, n: nat)
    requires n <= |s| && |Taken(s, str, size, n)| <= |src|
    ensures var r := WrittenAll(s, src, str, size);
            && Taken(r, str, size, n) == src[..|Taken(s, str, size, n)|]
            && Kept(r, str, size, n) == Kept(s, str, size, n)
    decreases n
  {
    hide Selected;
    if n > 0 {
      WriteThenRead(s, src, str, size, n - 1);
      WrittenAt(s, src, str, size, n - 1, |s|);
    }
  }

  /** The byte at offset j after a write. */
  lemma {:induction false} WrittenAt(s: seq<byte>, src: seq<byte>, str: Stride, size: nat, j: nat, n: nat)
    requires j < n <= |s|
    ensures var rank := |Taken(s, str, size, j)|;
            Written(s, src, str, size, n)[j]
            == if Selected(str, size, j) && rank < |src| then src[rank] else s[j]
    decreases n
  {
    hide Selected, Taken;
    if j < n - 1 {
      WrittenAt(s, src, str, size, j, n - 1);
    }
  }

  /** Removing the elements just inserted gives back the bytes inserted and leaves
      the bytes that were there before. */
  lemma InsertThenRemove(s: seq<byte>, ofst: nat, src: seq<byte>)
    requires ofst <= |s| && src != []
    ensures var grown, str := s[..ofst] + src + s[ofst..], Stride(ofst, 1, |src|);
            && TakenAll(grown, str, 1) == src
            && KeptAll(grown, str, 1) == s
  {
    hide Taken, Kept, Selected;
    var grown, str, m := s[..ofst] + src + s[ofst..], Stride(ofst, 1, |src|), |src|;
    forall j: nat | j < |grown| ensures Selected(str, 1, j) <==> ofst <= j < ofst + m {
      RunSelected(ofst, m, j);
    }
    TakenNone(grown, str, 1);
    SkipChunk(grown, str, 1, 0, ofst);
    TakeChunk(grown, str, 1, ofst, m);
    SkipChunk(grown, str, 1, ofst + m, |grown| - (ofst + m));
    assert grown[ofst..ofst + m] == src;
    assert grown[0..ofst] + grown[ofst + m..|grown|] == s;
  }

  /** A contiguous run of bytes selects just these bytes. */
  lemma RunSelected(ofst: nat, m: nat, j: nat)
    ensures Selected(Stride(ofst, 1, m), 1, j) <==> ofst <= j < ofst + m
  {
    var str := Stride(ofst, 1, m);
    SelectedMeaning(str, 1, m, j);
    if t: nat :| t < m && Inside(str, 1, t, j) {
      RunAt(ofst, m, t);
    }
    if ofst <= j < ofst + m {
      RunAt(ofst, m, j - ofst);
      SelectedInside(str, 1, j - ofst, j);
    }
  }

  lemma {:induction false} RunAt(ofst: nat, m: nat, t: nat)
    ensures At(Stride(ofst, 1, m), 1, t) == ofst + t
  {
    if t > 0 {
      RunAt(ofst, m, t - 1);
    }
  }

  /** In data of whole elements an element that begins inside ends inside, so a
      strided access touches whole elements only. */
  lemma AlignedTaken(s: seq<byte>, str: Stride, size: nat)
    requires size >= 1 && str.stride >= 1 && Aligned(|s|, size)
    ensures |TakenAll(s, str, size)| == Bytes(WholeCount(str, size, |s|), size)
  {
    hide Taken, Kept, Selected, At, WholeFrom, CountsWhole;
    var n := WholeCount(str, size, |s|);
    EndOfNothing(str, size);
    WholeFromCounts(str, size, |s|, 0);
    CountedEnd(str, size, |s|, n);
    TakenElements(s, str, size, n);
    var p := EndOf(str, size, n);
    forall j | p <= j < |s| ensures !Selected(str, size, j) {
      AlignedNext(str, size, |s|, n);
      NotSelectedBetween(str, size, n, j);
    }
    SkipChunk(s, str, size, p, |s| - p);
  }

  lemma EndOfNothing(str: Stride, size: nat)
    ensures EndOf(str, size, 0) == 0
  {
  }

  lemma CountedEnd(str: Stride, size: nat, len: nat, n: nat)
    requires CountsWhole(str, size, len, n)
    ensures n <= str.nelems && EndOf(str, size, n) <= len
    ensures n < str.nelems ==> At(str, size, n) + size > len
  {
  }

  lemma AlignedNext(str: Stride, size: nat, len: nat, n: nat)
    requires size >= 1 && Aligned(len, size)
    requires n < str.nelems ==> At(str, size, n) + size > len
    ensures n < str.nelems ==> At(str, size, n) >= len
  {
    if n < str.nelems {
      AtClosed(str, size, n);
      if At(str, size, n) < len {
        WholeElementFits(str.start + n * str.stride, size, len);
      }
    }
  }

  // ---------------------------------------------------- runs of whole elements

  /** Elements a to b - 1, one next to the other: the bytes taken, kept and replaced are
      those from a * size to b * size. */
  lemma RunOfElements(s: seq<byte>, src: seq<byte>, size: nat, a: nat, b: nat)
    requires size >= 1 && a <= b && a * size <= b * size <= |s|
    ensures TakenAll(s, Stride(a, 1, b - a), size) == s[a * size..b * size]
    ensures KeptAll(s, Stride(a, 1, b - a), size) == s[..a * size] + s[b * size..]
    ensures |src| >= b * size - a * size ==>
              WrittenAll(s, src, Stride(a, 1, b - a), size)
              == s[..a * size] + src[..b * size - a * size] + s[b * size..]
  {
    hide Taken, Selected, At, Kept, Written;
    var str, p, q := Stride(a, 1, b - a), a * size, b * size;
    forall j | 0 <= j < p ensures !Selected(str, size, j) {
      RunBefore(size, a, b, j);
    }
    forall j | p <= j < q ensures Selected(str, size, j) {
      RunElement(size, a, b, j);
    }
    forall j | q <= j < |s| ensures !Selected(str, size, j) {
      RunBehind(size, a, b, j);
    }
    RunTaken(s, str, size, p, q);
    if |src| >= q - p {
      RunWritten(s, src, str, size, p, q);
    }
  }

  lemma RunTaken(s: seq<byte>, str: Stride, size: nat, p: nat, q: nat)
    requires p <= q <= |s|
    requires forall j :: 0 <= j < p ==> !Selected(str, size, j)
    requires forall j :: p <= j < q ==> Selected(str, size, j)
    requires forall j :: q <= j < |s| ==> !Selected(str, size, j)
    ensures Taken(s, str, size, p) == [] && Taken(s, str, size, q) == s[p..q] == TakenAll(s, str, size)
    ensures KeptAll(s, str, size) == s[..p] + s[q..]
  {
    hide Taken, Selected, Kept;
    NothingSeen(s, [], str, size);
    SkipChunk(s, str, size, 0, p);
    TakeChunk(s, str, size, p, q - p);
    SkipChunk(s, str, size, q, |s| - q);
    assert [] + s[0..p] == s[..p] && [] + s[p..q] == s[p..q] && s[q..|s|] == s[q..];
  }

  lemma RunWritten(s: seq<byte>, src: seq<byte>, str: Stride, size: nat, p: nat, q: nat)
    requires p <= q <= |s| && q - p <= |src| && Taken(s, str, size, p) == []
    requires forall j :: 0 <= j < p ==> !Selected(str, size, j)
    requires forall j :: p <= j < q ==> Selected(str, size, j)
    requires forall j :: q <= j < |s| ==> !Selected(str, size, j)
    ensures WrittenAll(s, src, str, size) == s[..p] + src[..q - p] + s[q..]
  {
    hide Taken, Selected, Kept, Written;
    NothingSeen(s, src, str, size);
    WriteSkip(s, src, str, size, 0, p);
    WriteChunk(s, src, str, size, p, q - p);
    WriteSkip(s, src, str, size, q, |s| - q);
    assert [] + s[0..p] == s[..p] && src[0..q - p] == src[..q - p] && s[q..|s|] == s[q..];
  }

  lemma RunBefore(size: nat, a: nat, b: nat, j: nat)
    requires size >= 1 && a <= b && j < a * size
    ensures !Selected(Stride(a, 1, b - a), size, j)
  {
    hide Selected, At;
    AtClosed(Stride(a, 1, b - a), size, 0);
    NotSelectedBetween(Stride(a, 1, b - a), size, 0, j);
  }

  /** Byte j of the run lies in its element j / size. */
  lemma RunElement(size: nat, a: nat, b: nat, j: nat)
    requires size >= 1 && a <= b && a * size <= j < b * size
    ensures Selected(Stride(a, 1, b - a), size, j)
  {
    hide Selected, At;
    var e := j / size;
    assert e * size <= j < e * size + size;
    if e < a {
      MulMonotone(e + 1, a, size);
    } else if e >= b {
      MulMonotone(b, e, size);
    }
    AtClosed(Stride(a, 1, b - a), size, e - a);
    SelectedInside(Stride(a, 1, b - a), size, e - a, j);
  }

  lemma RunBehind(size: nat, a: nat, b: nat, j: nat)
    requires size >= 1 && a <= b && b * size <= j
    ensures !Selected(Stride(a, 1, b - a), size, j)
  {
    hide Selected, At;
    var str := Stride(a, 1, b - a);
    if b > a {
      AtClosed(str, size, b - a - 1);
      assert (b - 1) * size + size == b * size;
    }
    NotSelectedBetween(str, size, b - a, j);
  }

  /** All its elements are whole when they end inside the data. */
  lemma RunCounted(size: nat, a: nat, b: nat, len: nat)
    requires size >= 1 && a <= b && b * size <= len
    ensures WholeCount(Stride(a, 1, b - a), size, len) == b - a
  {
    hide At;
    var str := Stride(a, 1, b - a);
    forall t: nat | t < b - a ensures At(str, size, t) + size <= len {
      AtClosed(str, size, t);
      assert (a + t) * size + size == (a + t + 1) * size;
      MulMonotone(a + t + 1, b, size);
    }
    CountIsWhole(str, size, len, b - a);
  }
}
