/** What a strided access over a flat run of bytes means.

    Element t of a stride occupies the `size` bytes from offset At(str, size, t).
    Reads, writes and removals are all described by the one predicate Selected,
    which says whether a byte offset belongs to some element of the stride. */
module Strides {
  import opened Arith

  type byte = bv8

  /** A resolved stride: element index of the first element, distance between
      neighbouring elements, and number of elements. */
  datatype Stride = Stride(start: nat, stride: nat, nelems: nat)

  /** Byte offset of element t. Defined step by step so that loops reason about
      one addition at a time; AtClosed gives the closed form. */
  ghost function At(str: Stride, size: nat, t: nat): nat {
    if t == 0 then str.start * size else At(str, size, t - 1) + str.stride * size
  }

  /** Byte offset j lies inside one of the first n elements. */
  ghost predicate InElements(str: Stride, size: nat, n: nat, j: int) {
    n > 0 && (At(str, size, n - 1) <= j < At(str, size, n - 1) + size || InElements(str, size, n - 1, j))
  }

  /** Byte offset j lies inside one of the elements of the stride. */
  ghost predicate Selected(str: Stride, size: nat, j: int) {
    InElements(str, size, str.nelems, j)
  }

  /** Where the n-th element ends; 0 when there is none yet. */
  ghost function EndOf(str: Stride, size: nat, n: nat): nat {
    if n == 0 then 0 else At(str, size, n - 1) + size
  }

  /** The selected bytes among the first n, in order. */
  ghost function Taken(s: seq<byte>, str: Stride, size: nat, n: nat): seq<byte>
    requires n <= |s|
  {
    if n == 0 then []
    else Taken(s, str, size, n - 1) + (if Selected(str, size, n - 1) then [s[n - 1]] else [])
  }

  /** The bytes among the first n that are not selected, in order. */
  ghost function Kept(s: seq<byte>, str: Stride, size: nat, n: nat): seq<byte>
    requires n <= |s|
  {
    if n == 0 then []
    else Kept(s, str, size, n - 1) + (if Selected(str, size, n - 1) then [] else [s[n - 1]])
  }

  /** The first n bytes after the selected ones have been replaced, in order, by
      the bytes of src (where src is too short, the old byte stays). */
  ghost function Written(s: seq<byte>, src: seq<byte>, str: Stride, size: nat, n: nat): (r: seq<byte>)
    requires n <= |s|
    ensures |r| == n
  {
    if n == 0 then []
    else
      var rank := |Taken(s, str, size, n - 1)|;
      Written(s, src, str, size, n - 1)
      + [if Selected(str, size, n - 1) && rank < |src| then src[rank] else s[n - 1]]
  }

  ghost function TakenAll(s: seq<byte>, str: Stride, size: nat): seq<byte> {
    Taken(s, str, size, |s|)
  }

  ghost function KeptAll(s: seq<byte>, str: Stride, size: nat): seq<byte> {
    Kept(s, str, size, |s|)
  }

  ghost function WrittenAll(s: seq<byte>, src: seq<byte>, str: Stride, size: nat): seq<byte> {
    Written(s, src, str, size, |s|)
  }

  /** n is the number of elements of the stride that lie wholly inside len bytes. */
  ghost predicate CountsWhole(str: Stride, size: nat, len: nat, n: nat) {
    && n <= str.nelems
    && (forall t: nat :: t < n ==> At(str, size, t) + size <= len)
    && (n < str.nelems ==> At(str, size, n) + size > len)
  }

  /** s with the selected bytes among the first p replaced. */
  ghost function PartWritten(s: seq<byte>, src: seq<byte>, str: Stride, size: nat, p: nat): (r: seq<byte>)
    requires p <= |s|
    ensures |r| == |s|
  {
    Written(s, src, str, size, p) + s[p..]
  }

  /** s with the bytes from offset `at` on overwritten. */
  ghost function Splice(s: seq<byte>, at: nat, bytes: seq<byte>): (r: seq<byte>)
    requires at + |bytes| <= |s|
    ensures |r| == |s|
  {
    s[..at] + bytes + s[at + |bytes|..]
  }

  /** The byte offset of element k. */
  function Bytes(k: nat, size: nat): nat {
    k * size
  }

  /** len is a whole number of elements. */
  ghost predicate Aligned(len: nat, size: nat)
    requires size >= 1
  {
    len % size == 0
  }

  // ------------------------------------------------------------------ offsets

  lemma BytesSucc(k: nat, size: nat)
    ensures Bytes(k + 1, size) == Bytes(k, size) + size
  {
  }

  lemma BytesMonotone(n: nat, m: nat, size: nat)
    requires n <= m
    ensures Bytes(n, size) <= Bytes(m, size)
  {
    MulMonotone(n, m, size);
  }

  /** In a run of whole elements, an element that starts inside ends inside. */
  lemma WholeElementFits(k: nat, size: nat, len: nat)
    requires size >= 1 && Aligned(len, size) && Bytes(k, size) < len
    ensures Bytes(k + 1, size) == Bytes(k, size) + size <= len
  {
    var m := len / size;
    assert len == m * size;
    if k < m {
      MulMonotone(k + 1, m, size);
    } else {
      MulMonotone(m, k, size);
    }
  }


  lemma AlignedBytes(k: nat, size: nat)
    requires size >= 1
    ensures Aligned(Bytes(k, size), size)
  {
    var x := k * size;
    var d := x / size;
    assert x == d * size + x % size;
    if d < k {
      MulMonotone(d + 1, k, size);
    } else if k < d {
      MulMonotone(k + 1, d, size);
    }
  }

  /** len bytes rounded up to whole elements. */
  ghost function WholeUp(len: nat, size: nat): (r: nat)
    requires size >= 1
    ensures len <= r < len + size && Aligned(r, size)
    ensures Aligned(len, size) ==> r == len
  {
    if len % size == 0 then len
    else
      AlignedBytes(len / size + 1, size);
      assert Bytes(len / size + 1, size) == len / size * size + size;
      Bytes(len / size + 1, size)
  }

  /** Elements laid end to end that reach len bytes and not beyond the rounded length
      are the rounded length. */
  lemma WholeUpReached(k: nat, size: nat, len: nat)
    requires size >= 1 && len <= Bytes(k, size) <= WholeUp(len, size)
    ensures Bytes(k, size) == WholeUp(len, size)
  {
    hide Bytes, WholeUp;
    if Bytes(k, size) < WholeUp(len, size) {
      WholeElementFits(k, size, WholeUp(len, size));
    }
  }

  lemma {:induction false} AtClosed(str: Stride, size: nat, t: nat)
    ensures At(str, size, t) == (str.start + t * str.stride) * size
  {
    if t > 0 {
      AtClosed(str, size, t - 1);
      assert str.start + t * str.stride == (str.start + (t - 1) * str.stride) + str.stride;
    }
  }

  /** Elements of a stride do not overlap and come in increasing order. */
  lemma {:induction false} AtOrdered(str: Stride, size: nat, a: nat, b: nat)
    requires str.stride >= 1
    ensures a < b ==> At(str, size, a) + size <= At(str, size, b)
    ensures a == b ==> At(str, size, a) == At(str, size, b)
    decreases b
  {
    if a < b {
      assert str.stride * size >= size;
      AtOrdered(str, size, a, b - 1);
    }
  }

  /** Byte offset j lies inside element t. */
  ghost predicate Inside(str: Stride, size: nat, t: nat, j: int) {
    At(str, size, t) <= j < At(str, size, t) + size
  }

  /** The meaning of selection, free of recursion. */
  lemma {:induction false} SelectedMeaning(str: Stride, size: nat, n: nat, j: int)
    ensures InElements(str, size, n, j) <==> exists t: nat :: t < n && Inside(str, size, t, j)
  {
    if n > 0 {
      assert InElements(str, size, n, j) <==> Inside(str, size, n - 1, j) || InElements(str, size, n - 1, j);
      hide At, InElements, Inside;
      SelectedMeaning(str, size, n - 1, j);
    }
  }

  lemma SelectedInside(str: Stride, size: nat, t: nat, j: int)
    requires t < str.nelems && Inside(str, size, t, j)
    ensures Selected(str, size, j)
  {
    hide At, InElements, Inside;
    SelectedMeaning(str, size, str.nelems, j);
  }

  lemma ElementSelected(str: Stride, size: nat, t: nat)
    requires t < str.nelems
    ensures forall j :: At(str, size, t) <= j < At(str, size, t) + size ==> Selected(str, size, j)
  {
    forall j | At(str, size, t) <= j < At(str, size, t) + size ensures Selected(str, size, j) {
      SelectedInside(str, size, t, j);
    }
  }

  /** Between the end of element t - 1 and the start of element t, and behind the
      last element, nothing is selected. */
  lemma NotSelectedBetween(str: Stride, size: nat, t: nat, j: int)
    requires str.stride >= 1 && t <= str.nelems
    requires t > 0 ==> At(str, size, t - 1) + size <= j
    requires t < str.nelems ==> j < At(str, size, t)
    ensures !Selected(str, size, j)
  {
    SelectedMeaning(str, size, str.nelems, j);
    forall u: nat | u < str.nelems ensures !Inside(str, size, u, j) {
      if u < t {
        AtOrdered(str, size, u, t - 1);
      } else {
        AtOrdered(str, size, t, u);
      }
    }
  }

  /** Nothing from the end of the last requested element on is selected. */
  lemma NothingBehind(str: Stride, size: nat, p: nat, len: nat)
    requires str.stride >= 1
    requires EndOf(str, size, str.nelems) <= p
    ensures forall j :: p <= j < len ==> !Selected(str, size, j)
  {
    forall j | p <= j < len ensures !Selected(str, size, j) {
      NotSelectedBetween(str, size, str.nelems, j);
    }
  }

  /** Nothing in front of the first element is selected. */
  lemma NothingBefore(str: Stride, size: nat, p: nat)
    requires str.stride >= 1
    requires p <= At(str, size, 0)
    ensures forall j :: 0 <= j < p ==> !Selected(str, size, j)
  {
    forall j | 0 <= j < p ensures !Selected(str, size, j) {
      NotSelectedBetween(str, size, 0, j);
    }
  }

  lemma WholeCountUnique(str: Stride, size: nat, len: nat, m: nat, n: nat)
    requires CountsWhole(str, size, len, m) && CountsWhole(str, size, len, n)
    ensures m == n
  {
    // naming the two offsets instantiates both counts at the smaller index
    var _ := (At(str, size, m), At(str, size, n));
  }

  /** Everything up to the end of element n - 1 fits and element n does not. */
  lemma CountsUpTo(str: Stride, size: nat, len: nat, n: nat)
    requires str.stride >= 1 && n <= str.nelems
    requires EndOf(str, size, n) <= len
    requires n < str.nelems ==> At(str, size, n) + size > len
    ensures CountsWhole(str, size, len, n)
  {
    forall t: nat | t < n ensures At(str, size, t) + size <= len {
      AtOrdered(str, size, t, n - 1);
    }
  }

  // ------------------------------------------------- chunks of the flat bytes

  lemma {:induction false} TakeChunk(s: seq<byte>, str: Stride, size: nat, p: nat, k: nat)
    requires p + k <= |s|
    requires forall j :: p <= j < p + k ==> Selected(str, size, j)
    ensures Taken(s, str, size, p + k) == Taken(s, str, size, p) + s[p..p + k]
    ensures Kept(s, str, size, p + k) == Kept(s, str, size, p)
    decreases k
  {
    if k == 0 {
      assert s[p..p] == [];
    } else {
      TakeChunk(s, str, size, p, k - 1);
      assert Selected(str, size, p + k - 1);
      assert s[p..p + k] == s[p..p + k - 1] + [s[p + k - 1]];
    }
  }

  lemma {:induction false} SkipChunk(s: seq<byte>, str: Stride, size: nat, p: nat, k: nat)
    requires p + k <= |s|
    requires forall j :: p <= j < p + k ==> !Selected(str, size, j)
    ensures Taken(s, str, size, p + k) == Taken(s, str, size, p)
    ensures Kept(s, str, size, p + k) == Kept(s, str, size, p) + s[p..p + k]
    decreases k
  {
    if k == 0 {
      assert s[p..p] == [];
    } else {
      SkipChunk(s, str, size, p, k - 1);
      assert !Selected(str, size, p + k - 1);
      assert s[p..p + k] == s[p..p + k - 1] + [s[p + k - 1]];
    }
  }

  lemma {:induction false} TakenMonotone(s: seq<byte>, str: Stride, size: nat, m: nat, n: nat)
    requires m <= n <= |s|
    ensures Taken(s, str, size, m) <= Taken(s, str, size, n)
    decreases n
  {
    if m < n {
      TakenMonotone(s, str, size, m, n - 1);
    }
  }

  lemma {:induction false} WriteChunk(s: seq<byte>, src: seq<byte>, str: Stride, size: nat, p: nat, k: nat)
    requires p + k <= |s|
    requires forall j :: p <= j < p + k ==> Selected(str, size, j)
    requires |Taken(s, str, size, p)| + k <= |src|
    ensures |Taken(s, str, size, p + k)| == |Taken(s, str, size, p)| + k
    ensures Written(s, src, str, size, p + k)
         == Written(s, src, str, size, p) + src[|Taken(s, str, size, p)|..|Taken(s, str, size, p)| + k]
    decreases k
  {
    TakeChunk(s, str, size, p, k);
    if k > 0 {
      WriteChunk(s, src, str, size, p, k - 1);
      var m := |Taken(s, str, size, p)|;
      assert Selected(str, size, p + k - 1);
      assert src[m..m + k] == src[m..m + k - 1] + [src[m + k - 1]];
    }
  }

  lemma {:induction false} WriteSkip(s: seq<byte>, src: seq<byte>, str: Stride, size: nat, p: nat, k: nat)
    requires p + k <= |s|
    requires forall j :: p <= j < p + k ==> !Selected(str, size, j)
    ensures Taken(s, str, size, p + k) == Taken(s, str, size, p)
    ensures Written(s, src, str, size, p + k) == Written(s, src, str, size, p) + s[p..p + k]
    decreases k
  {
    SkipChunk(s, str, size, p, k);
    if k > 0 {
      WriteSkip(s, src, str, size, p, k - 1);
      assert !Selected(str, size, p + k - 1);
      assert s[p..p + k] == s[p..p + k - 1] + [s[p + k - 1]];
    }
  }

  /** Between element n - 1 and element n nothing is taken; element n is taken as a whole. */
  lemma StepElement(s: seq<byte>, str: Stride, size: nat, n: nat)
    requires str.stride >= 1 && n < str.nelems
    requires At(str, size, n) + size <= |s|
    ensures EndOf(str, size, n) <= At(str, size, n)
    ensures var p, b := EndOf(str, size, n), At(str, size, n);
            && Taken(s, str, size, b + size) == Taken(s, str, size, p) + s[b..b + size]
            && Kept(s, str, size, b + size) == Kept(s, str, size, p) + s[p..b]
            && b + size <= At(str, size, n + 1) == b + str.stride * size
  {
    hide Taken, Kept, Selected;
    GapBefore(str, size, n);
    ElementSelected(str, size, n);
    var p, b := EndOf(str, size, n), At(str, size, n);
    SkipChunk(s, str, size, p, b - p);
    TakeChunk(s, str, size, b, size);
    AtOrdered(str, size, n, n + 1);
  }

  lemma GapBefore(str: Stride, size: nat, n: nat)
    requires str.stride >= 1 && n <= str.nelems
    ensures EndOf(str, size, n) <= At(str, size, n)
    ensures forall j :: EndOf(str, size, n) <= j < At(str, size, n) ==> !Selected(str, size, j)
  {
    if n > 0 {
      AtOrdered(str, size, n - 1, n);
    }
    forall j | EndOf(str, size, n) <= j < At(str, size, n) ensures !Selected(str, size, j) {
      NotSelectedBetween(str, size, n, j);
    }
  }

  // ------------------------------------------- the two-phase stride automaton

  /** `next` more bytes belong to the current element (active) or to the gap
      before the next one. */
  datatype StrideState = StrideState(next: nat, active: bool)

  function FirstState(size: nat): StrideState {
    StrideState(size, true)
  }

  /** The state after k of the next bytes have been passed. */
  function Advance(str: Stride, size: nat, st: StrideState, k: nat): StrideState
    requires str.stride >= 1 && k <= st.next
  {
    if k < st.next then st.(next := st.next - k)
    else if st.active && str.stride != 1 then StrideState((str.stride - 1) * size, false)
    else StrideState(size, true)
  }

  /** The automaton stands at byte offset p with `done` elements complete. */
  ghost predicate Phase(str: Stride, size: nat, p: nat, st: StrideState, done: nat) {
    && done <= str.nelems
    && 1 <= st.next
    && EndOf(str, size, done) <= p
    && if st.active then
         && st.next <= size
         && p + st.next == At(str, size, done) + size
       else
         && done >= 1
         && p + st.next == At(str, size, done)
  }

  /** Passing k bytes at once is one step of the automaton; whether those bytes
      are selected is decided by the phase. */
  lemma PhaseStep(str: Stride, size: nat, p: nat, st: StrideState, done: nat, k: nat)
    requires str.stride >= 1 && size >= 1 && done < str.nelems
    requires Phase(str, size, p, st, done) && k <= st.next
    ensures Phase(str, size, p + k, Advance(str, size, st, k), if st.active && k == st.next then done + 1 else done)
    ensures st.active ==> forall j :: p <= j < p + k ==> Selected(str, size, j)
    ensures !st.active ==> forall j :: p <= j < p + k ==> !Selected(str, size, j)
  {
    hide Selected, InElements;
    if st.active {
      ElementSelected(str, size, done);
      if k == st.next {
        GapLength(str, size);
        assert At(str, size, done + 1) == At(str, size, done) + str.stride * size;
      }
    } else {
      forall j | p <= j < p + k ensures !Selected(str, size, j) {
        NotSelectedBetween(str, size, done, j);
      }
    }
  }

  lemma GapLength(str: Stride, size: nat)
    requires str.stride >= 1 && size >= 1
    ensures str.stride * size == (str.stride - 1) * size + size
    ensures str.stride == 1 ==> str.stride * size == size
    ensures str.stride > 1 ==> (str.stride - 1) * size >= 1
  {
    if str.stride > 1 {
      assert (str.stride - 1) * size >= 1 * size;
    }
  }

  /** Scanning starts at the first element with nothing taken or replaced. */
  lemma ScanStart(s: seq<byte>, src: seq<byte>, str: Stride, size: nat)
    requires str.stride >= 1 && size >= 1 && str.start * size <= |s|
    ensures var p := str.start * size;
            && Phase(str, size, p, FirstState(size), 0)
            && Taken(s, str, size, p) == []
            && Kept(s, str, size, p) == s[..p]
            && PartWritten(s, src, str, size, p) == s
  {
    hide Phase, Taken, Kept, PartWritten;
    ScanStartAt(s, src, str, size, str.start * size);
  }

  lemma ScanStartAt(s: seq<byte>, src: seq<byte>, str: Stride, size: nat, p: nat)
    requires str.stride >= 1 && size >= 1 && p == At(str, size, 0) <= |s|
    ensures Phase(str, size, p, FirstState(size), 0)
    ensures Taken(s, str, size, p) == []
    ensures Kept(s, str, size, p) == s[..p]
    ensures PartWritten(s, src, str, size, p) == s
  {
    hide Selected, At, Phase, Taken, Kept, PartWritten;
    FirstPhase(str, size, p);
    NothingBefore(str, size, p);
    StartSkipped(s, src, str, size, p);
  }

  lemma StartSkipped(s: seq<byte>, src: seq<byte>, str: Stride, size: nat, p: nat)
    requires p <= |s| && forall j :: 0 <= j < p ==> !Selected(str, size, j)
    ensures Taken(s, str, size, p) == [] && Kept(s, str, size, p) == s[..p]
    ensures PartWritten(s, src, str, size, p) == s
  {
    hide Selected, Taken, Kept, Written;
    NothingSeen(s, src, str, size);
    SkipChunk(s, str, size, 0, p);
    WriteSkip(s, src, str, size, 0, p);
    StartAndRest(s, p);
  }

  lemma StartAndRest(s: seq<byte>, p: nat)
    requires p <= |s|
    ensures [] + s[0..p] == s[..p] && s[..p] + s[p..] == s
  {
  }

  lemma FirstPhase(str: Stride, size: nat, p: nat)
    requires str.stride >= 1 && size >= 1 && p == At(str, size, 0)
    ensures Phase(str, size, p, FirstState(size), 0)
  {
  }

  lemma NothingSeen(s: seq<byte>, src: seq<byte>, str: Stride, size: nat)
    ensures Taken(s, str, size, 0) == Kept(s, str, size, 0) == Written(s, src, str, size, 0) == []
  {
  }

  /** A stride that starts behind the data selects nothing. */
  lemma ScanNothing(s: seq<byte>, src: seq<byte>, str: Stride, size: nat)
    requires str.stride >= 1 && size >= 1 && str.start * size >= |s|
    ensures CountsWhole(str, size, |s|, 0)
    ensures TakenAll(s, str, size) == []
    ensures KeptAll(s, str, size) == s
    ensures WrittenAll(s, src, str, size) == s
  {
    hide Selected, InElements;
    assert At(str, size, 0) == str.start * size;
    NothingBefore(str, size, |s|);
    SkipChunk(s, str, size, 0, |s|);
    WriteSkip(s, src, str, size, 0, |s|);
    assert s[0..|s|] == s;
  }

  /** Effect of one step of the automaton on what has been taken and kept. */
  lemma ScanChunk(s: seq<byte>, str: Stride, size: nat, p: nat, st: StrideState, done: nat, k: nat)
    requires str.stride >= 1 && size >= 1 && done < str.nelems
    requires Phase(str, size, p, st, done) && k <= st.next && p + k <= |s|
    ensures Phase(str, size, p + k, Advance(str, size, st, k), if st.active && k == st.next then done + 1 else done)
    ensures Taken(s, str, size, p + k)
         == if st.active then Taken(s, str, size, p) + s[p..p + k] else Taken(s, str, size, p)
    ensures Kept(s, str, size, p + k)
         == if st.active then Kept(s, str, size, p) else Kept(s, str, size, p) + s[p..p + k]
  {
    hide Selected, InElements, Taken, Kept, Phase;
    PhaseStep(str, size, p, st, done, k);
    if st.active {
      TakeChunk(s, str, size, p, k);
    } else {
      SkipChunk(s, str, size, p, k);
    }
  }

  /** Effect of one step of the automaton on the overwritten bytes. */
  lemma ScanWrite(s: seq<byte>, src: seq<byte>, str: Stride, size: nat, p: nat, st: StrideState, done: nat, k: nat)
    requires str.stride >= 1 && size >= 1 && done < str.nelems
    requires Phase(str, size, p, st, done) && k <= st.next && p + k <= |s|
    requires st.active ==> |Taken(s, str, size, p)| + k <= |src|
    ensures var m := |Taken(s, str, size, p)|;
            && PartWritten(s, src, str, size, p + k)
               == (if st.active then Splice(PartWritten(s, src, str, size, p), p, src[m..m + k])
                   else PartWritten(s, src, str, size, p))
  {
    hide Selected, InElements, Taken, Written, Phase, At, Splice, Advance;
    PhaseStep(str, size, p, st, done, k);
    if st.active {
      var m := |Taken(s, str, size, p)|;
      WriteChunk(s, src, str, size, p, k);
      SplicePast(Written(s, src, str, size, p), s, p, p, src[m..m + k]);
    } else {
      WriteSkip(s, src, str, size, p, k);
      assert s[p..] == s[p..p + k] + s[p + k..];
    }
  }

  /** When the automaton has seen the whole stride or the whole data, the scan is complete. */
  lemma ScanEnd(s: seq<byte>, src: seq<byte>, str: Stride, size: nat, p: nat, st: StrideState, done: nat)
    requires str.stride >= 1 && size >= 1 && p <= |s|
    requires Phase(str, size, p, st, done)
    requires done == str.nelems || p == |s|
    ensures CountsWhole(str, size, |s|, done)
    ensures TakenAll(s, str, size) == Taken(s, str, size, p)
    ensures KeptAll(s, str, size) == Kept(s, str, size, p) + s[p..]
    ensures WrittenAll(s, src, str, size) == PartWritten(s, src, str, size, p)
  {
    hide Selected, InElements, Taken, Kept, Written;
    CountsUpTo(str, size, |s|, done);
    if done == str.nelems {
      NothingBehind(str, size, p, |s|);
    }
    SkipChunk(s, str, size, p, |s| - p);
    WriteSkip(s, src, str, size, p, |s| - p);
    assert s[p..|s|] == s[p..];
  }

  /** Overwriting behind a finished prefix w keeps the bytes in between. */
  lemma SplicePast(w: seq<byte>, s: seq<byte>, p: nat, b: nat, bytes: seq<byte>)
    requires |w| == p <= b && b + |bytes| <= |s|
    ensures Splice(w + s[p..], b, bytes) == w + s[p..b] + bytes + s[b + |bytes|..]
  {
  }

  lemma NothingWritten(s: seq<byte>, src: seq<byte>, str: Stride, size: nat)
    ensures PartWritten(s, src, str, size, 0) == s
  {
  }

  /** Copy bytes into a buffer at an offset. */
  method CopyInto(a: array<byte>, ghost len: nat, at: nat, bytes: seq<byte>)
    requires at + |bytes| <= len <= a.Length
    modifies a
    ensures a[..len] == Splice(old(a[..len]), at, bytes)
  {
    forall i | 0 <= i < |bytes| {
      a[at + i] := bytes[i];
    }
  }
}
