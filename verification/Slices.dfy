/** Python-style slices resolved against an array length. */
module Slices {
  import opened Arith
  import opened Strides
  import opened StrideLaws
  import opened Bounds

  /** What a user writes: each part may be absent (the flags are the bits of present). */
  datatype UserStride = UserStride(start: int, step: int, stop: int,
                                   hasStart: bool, hasStep: bool, hasStop: bool, hasColon: bool)

  const U32_SIZE: nat := 0x1_0000_0000
  const I64_MAX: nat := 0x7FFF_FFFF_FFFF_FFFF

  function StepOf(us: UserStride): int {
    if us.hasStep then us.step else 1
  }

  /** A negative bound counts from the end. */
  ghost function FromEnd(x: int, len: nat): int {
    if x < 0 then x + len else x
  }

  /** Where the slice begins; beyond the end it selects nothing. */
  ghost function Lo(us: UserStride, len: nat): nat {
    if us.hasStart && FromEnd(us.start, len) > 0 then FromEnd(us.start, len) else 0
  }

  ghost function Hi(us: UserStride, len: nat): int {
    if us.hasStop then FromEnd(us.stop, len) else len
  }

  /** d is a whole number of steps. */
  ghost predicate OnStep(d: int, step: int)
    requires step > 0
  {
    d % step == 0
  }

  /** Index i belongs to the slice of an array of len elements. */
  ghost predicate InSlice(us: UserStride, len: nat, i: int)
    requires StepOf(us) > 0
  {
    0 <= i < len && Lo(us, len) <= i < Hi(us, len) && OnStep(i - Lo(us, len), StepOf(us))
  }

  /** The index of element t of a resolved stride. */
  ghost function IndexAt(str: Stride, t: nat): nat {
    str.start + t * str.stride
  }

  ghost predicate Lists(str: Stride, i: int) {
    exists t: nat :: t < str.nelems && IndexAt(str, t) == i
  }

  ghost predicate ListsSlice(str: Stride, us: UserStride, len: nat)
    requires StepOf(us) > 0
  {
    forall i :: Lists(str, i) <==> InSlice(us, len, i)
  }

  /** The length and the sum that counts the elements, which adds the step before it
      takes one off, stay within a signed 64-bit integer. */
  predicate SumsFit(us: UserStride, len: nat) {
    len <= I64_MAX && (Extent(us, len) > 0 ==> Extent(us, len) + StepOf(us) <= I64_MAX)
  }

  /** A bound of the slice clamped to the array. */
  function Clamped(present: bool, x: int, absent: nat, len: nat): (r: nat)
    requires absent <= len
    ensures r <= len
  {
    if !present then absent
    else
      var y := if x < 0 then x + len else x;
      if y < 0 then 0 else if y > len then len else y
  }

  /** The steps it takes to cover n indices. */
  function Steps(n: nat, step: nat): nat
    requires step > 0
  {
    (n + step - 1) / step
  }

  /** The resolved stride; the distance is stored in 32 bits. */
  function Resolved(us: UserStride, len: nat): Stride
    requires StepOf(us) > 0
  {
    var step := StepOf(us);
    if len == 0 then Stride(0, step % U32_SIZE, 0)
    else
      var start, stop := Clamped(us.hasStart, us.start, 0, len), Clamped(us.hasStop, us.stop, len, len);
      Stride(start, step % U32_SIZE, if stop <= start then 0 else Steps(stop - start, step))
  }

  method ResolveExpect(src: UserStride, arrlen: nat) returns (dest: Stride)
    requires StepOf(src) > 0 && SumsFit(src, arrlen)
    ensures dest == Resolved(src, arrlen)
  {
    hide Steps;
    var step := if src.hasStep then src.step else 1;
    if arrlen == 0 {
      return Stride(0, step % U32_SIZE, 0);
    }
    var start, stop: int;
    if src.hasStart {
      start := src.start;
      if start < 0 {
        start := start + arrlen;
      }
      if start < 0 {
        start := 0;
      }
      if start > arrlen {
        start := arrlen;
      }
    } else {
      start := 0;
    }
    if src.hasStop {
      stop := src.stop;
      if stop < 0 {
        stop := stop + arrlen;
      }
      if stop < 0 {
        stop := 0;
      }
      if stop > arrlen {
        stop := arrlen;
      }
    } else {
      stop := arrlen;
    }
    var nelems := 0;
    if stop > start {
      assert stop - start + step <= I64_MAX;
      nelems := Steps(stop - start, step);
    }
    dest := Stride(start, step % U32_SIZE, nelems);
  }

  datatype Outcome = Resolution(stride: Stride) | InvalidArgument

  /** Only the step can be refused. */
  method Resolve(src: UserStride, arrlen: nat) returns (r: Outcome)
    requires SumsFit(src, arrlen)
    ensures r == InvalidArgument <==> src.hasStep && src.step <= 0
    ensures r == if StepOf(src) <= 0 then InvalidArgument else Resolution(Resolved(src, arrlen))
  {
    if StepOf(src) <= 0 {
      return InvalidArgument;
    }
    var dest := ResolveExpect(src, arrlen);
    r := Resolution(dest);
  }

  /** Rounding up: t steps stay below n exactly for the first ceil(n / step) values of t. */
  lemma CeilBound(n: nat, step: nat, t: nat)
    requires n > 0 && step > 0
    ensures t < Steps(n, step) <==> Times(step, t) < n
  {
    var m := n + step - 1;
    FloorBound(m, step, t + 1);
    TimesNext(step, t);
  }

  lemma TimesNext(step: int, t: int)
    ensures Times(step, t + 1) == Times(step, t) + step
  {
  }

  lemma TimesUnits(a: int)
    ensures Times(a, 0) == 0 == Times(0, a) && Times(a, 1) == a
  {
  }

  /** The multiples of the step, counted. */
  lemma MultipleOf(d: nat, step: nat) returns (t: nat)
    requires step > 0 && OnStep(d, step)
    ensures d == Times(step, t)
  {
    t := d / step;
  }

  lemma MultipleIs(step: nat, t: nat)
    requires step > 0
    ensures Times(step, t) >= 0 && OnStep(Times(step, t), step)
  {
    var d := step * t;
    assert d == Times(step, t);
    SameQuotient(d, step, t, d / step);
  }

  lemma SameQuotient(d: nat, step: nat, t: nat, q: nat)
    requires step > 0 && d == Times(step, t) && q == d / step
    ensures t == q
  {
    hide Times;
    QuotientBounds(d, step);
    if t < q {
      Scale(step, t + 1, q);
      TimesNext(step, t);
    } else if t > q {
      Scale(step, q + 1, t);
    }
  }

  lemma IndexTimes(str: Stride, t: nat)
    ensures IndexAt(str, t) == str.start + Times(str.stride, t)
  {
  }

  /** With an untruncated step the elements of the resolved stride are the slice. */
  lemma Listing(us: UserStride, len: nat, i: int)
    requires 0 < StepOf(us) < U32_SIZE
    ensures Lists(Resolved(us, len), i) <==> InSlice(us, len, i)
  {
    hide Times, IndexAt, OnStep, Steps, Clamped, Lo, Hi;
    var str, step := Resolved(us, len), StepOf(us);
    var start, stop := Clamped(us.hasStart, us.start, 0, len), Clamped(us.hasStop, us.stop, len, len);
    NarrowStep(step);
    BetweenBounds(us, len, i);
    if Lists(str, i) {
      var t: nat :| t < str.nelems && IndexAt(str, t) == i;
      IndexTimes(str, t);
      CeilBound(stop - start, step, t);
      MultipleIs(step, t);
    }
    if InSlice(us, len, i) {
      var t := MultipleOf(i - Lo(us, len), step);
      CeilBound(stop - start, step, t);
      IndexTimes(str, t);
    }
  }

  /** The clamped bounds enclose the same indices as the bounds. */
  lemma BetweenBounds(us: UserStride, len: nat, i: int)
    ensures var start, stop := Clamped(us.hasStart, us.start, 0, len), Clamped(us.hasStop, us.stop, len, len);
            && (start <= i < stop <==> 0 <= i < len && Lo(us, len) <= i < Hi(us, len))
            && (start < stop ==> start == Lo(us, len))
            && (len == 0 ==> stop <= start)
  {
  }

  /** Every listed index lies inside the array and they are listed in increasing order. */
  lemma ListedInside(us: UserStride, len: nat, t: nat)
    requires 0 < StepOf(us) < U32_SIZE && t < Resolved(us, len).nelems
    ensures IndexAt(Resolved(us, len), t) < len
    ensures t > 0 ==> IndexAt(Resolved(us, len), t - 1) < IndexAt(Resolved(us, len), t)
  {
    var str := Resolved(us, len);
    assert Lists(str, IndexAt(str, t));
    Listing(us, len, IndexAt(str, t));
    if t > 0 {
      assert str.stride * t == str.stride * (t - 1) + str.stride;
    }
  }

  /** Reading a resolved slice from an array of len elements delivers all its elements
      whole: the count an array's read returns is the number of elements of the slice. */
  lemma SliceCounted(us: UserStride, len: nat, size: nat)
    requires 0 < StepOf(us) < U32_SIZE && size >= 1
    ensures CountsWhole(Resolved(us, len), size, len * size, Resolved(us, len).nelems)
    ensures WholeCount(Resolved(us, len), size, len * size) == Resolved(us, len).nelems
  {
    hide Resolved;
    var str := Resolved(us, len);
    StrideFits(us, len);
    forall t: nat | t < str.nelems ensures At(str, size, t) + size <= len * size {
      ElementInside(us, len, size, t);
    }
    CountIsWhole(str, size, len * size, str.nelems);
  }

  lemma StrideFits(us: UserStride, len: nat)
    requires 0 < StepOf(us) < U32_SIZE
    ensures Resolved(us, len).stride == StepOf(us)
  {
  }

  lemma ElementInside(us: UserStride, len: nat, size: nat, t: nat)
    requires 0 < StepOf(us) < U32_SIZE && size >= 1 && t < Resolved(us, len).nelems
    ensures At(Resolved(us, len), size, t) == IndexAt(Resolved(us, len), t) * size
    ensures At(Resolved(us, len), size, t) + size <= len * size
  {
    hide Resolved;
    var str := Resolved(us, len);
    ListedInside(us, len, t);
    AtClosed(str, size, t);
    MulMonotone(IndexAt(str, t) + 1, len, size);
  }

  lemma SliceLength(s: seq<byte>, us: UserStride, len: nat, size: nat)
    requires 0 < StepOf(us) < U32_SIZE && size >= 1 && |s| == len * size
    ensures |TakenAll(s, Resolved(us, len), size)| == Bytes(Resolved(us, len).nelems, size)
  {
    hide Resolved, Taken, Times, Bytes;
    StrideFits(us, len);
    SliceCounted(us, len, size);
    WholeElements(len, size);
    AlignedTaken(s, Resolved(us, len), size);
  }

  lemma WholeElements(len: nat, size: nat)
    requires size >= 1
    ensures Aligned(len * size, size)
  {
    assert len * size == Times(size, len);
    MultipleIs(size, len);
  }

  /** Byte k of element t of the read is byte k of the array element the slice lists. */
  lemma SliceElement(s: seq<byte>, us: UserStride, len: nat, size: nat, t: nat, k: nat)
    requires 0 < StepOf(us) < U32_SIZE && size >= 1 && |s| == len * size
    requires t < Resolved(us, len).nelems && k < size
    ensures 0 <= t * size + k < |TakenAll(s, Resolved(us, len), size)|
    ensures 0 <= IndexAt(Resolved(us, len), t) * size + k < |s|
    ensures TakenAll(s, Resolved(us, len), size)[t * size + k] == s[IndexAt(Resolved(us, len), t) * size + k]
  {
    hide Resolved, Taken;
    StrideFits(us, len);
    ElementInside(us, len, size, t);
    AtClosed(Resolved(us, len), size, t);
    ElementRead(s, Resolved(us, len), size, t, k);
  }

  /** How far the clamped bounds are apart. */
  function Extent(us: UserStride, len: nat): int {
    Clamped(us.hasStop, us.stop, len, len) - Clamped(us.hasStart, us.start, 0, len)
  }

  /** The distance is stored in 32 bits although steps have 64: the resolved stride is the
      slice exactly for steps that fit 32 bits, or reach over all that is between the bounds. */
  lemma SliceIffStepFits(us: UserStride, len: nat)
    requires StepOf(us) > 0
    ensures ListsSlice(Resolved(us, len), us, len) <==> StepOf(us) < 4294967296 || Extent(us, len) <= StepOf(us)
  {
    hide Resolved, InSlice, Extent;
    var str := Resolved(us, len);
    SecondElement(us, len);
    if StepOf(us) < U32_SIZE {
      forall i ensures Lists(str, i) <==> InSlice(us, len, i) {
        Listing(us, len, i);
      }
    } else if str.nelems <= 1 {
      forall i ensures Lists(str, i) <==> InSlice(us, len, i) {
        FewListed(us, len, i);
      }
    } else {
      LostStep(us, len);
    }
  }

  /** A second element is listed exactly when a step does not reach the stop. */
  lemma SecondElement(us: UserStride, len: nat)
    requires StepOf(us) > 0
    ensures Resolved(us, len).nelems <= 1 <==> Extent(us, len) <= StepOf(us)
  {
    hide Times, Steps;
    if Extent(us, len) > 0 {
      CeilBound(Extent(us, len), StepOf(us), 1);
      TimesUnits(StepOf(us));
    }
  }

  /** A step of 2^32 on 2^32 + 1 elements: the slice has a second index, and the resolved
      stride, whose distance is 0, lists the first one twice. */
  lemma StepLost()
    ensures var us, len := UserStride(0, 4294967296, 0, false, true, false, true), 4294967297;
            && SumsFit(us, len)
            && Resolved(us, len) == Stride(0, 0, 2)
            && !ListsSlice(Resolved(us, len), us, len)
  {
    var us, len := UserStride(0, 4294967296, 0, false, true, false, true), 4294967297;
    LostStep(us, len);
  }

  lemma FewListed(us: UserStride, len: nat, i: int)
    requires StepOf(us) > 0 && Resolved(us, len).nelems <= 1
    ensures Lists(Resolved(us, len), i) <==> InSlice(us, len, i)
  {
    hide Times, IndexAt;
    var str, step := Resolved(us, len), StepOf(us);
    var start, stop := Clamped(us.hasStart, us.start, 0, len), Clamped(us.hasStop, us.stop, len, len);
    IndexTimes(str, 0);
    TimesUnits(str.stride);
    TimesUnits(step);
    if start < stop {
      CeilBound(stop - start, step, 0);
      assert Lists(str, start) by { assert IndexAt(str, 0) == start; }
    }
    if InSlice(us, len, i) {
      var t := MultipleOf(i - Lo(us, len), step);
      CeilBound(stop - start, step, t);
    }
    if Lists(str, i) {
      var t: nat :| t < str.nelems && IndexAt(str, t) == i;
      MultipleIs(step, 0);
    }
  }

  /** A truncated step misses the second index of the slice or lists one between. */
  lemma LostStep(us: UserStride, len: nat)
    requires StepOf(us) >= U32_SIZE && Resolved(us, len).nelems >= 2
    ensures !ListsSlice(Resolved(us, len), us, len)
  {
    hide Times, IndexAt;
    var str, step := Resolved(us, len), StepOf(us);
    var start, stop := Clamped(us.hasStart, us.start, 0, len), Clamped(us.hasStop, us.stop, len, len);
    CeilBound(stop - start, step, 1);
    IndexTimes(str, 1);
    TimesUnits(str.stride);
    TimesUnits(step);
    var near, next := start + str.stride, start + step;
    assert Lists(str, near) by { assert IndexAt(str, 1) == near; }
    if str.stride > 0 {
      assert !InSlice(us, len, near) by {
        if InSlice(us, len, near) {
          SmallMod(str.stride, step);
        }
      }
    } else {
      assert InSlice(us, len, next) by {
        MultipleIs(step, 1);
      }
      if Lists(str, next) {
        var t: nat :| t < str.nelems && IndexAt(str, t) == next;
        IndexTimes(str, t);
        TimesUnits(t);
      }
    }
  }

  lemma SmallMod(x: nat, n: nat)
    requires x < n
    ensures x % n == x
  {
  }

  /** The user stride that spells a resolved one out. */
  function Usfrms(str: Stride): UserStride {
    UserStride(str.start, str.stride, str.start + str.stride * str.nelems, true, true, true, true)
  }

  /** The elements of a stride exist in an array of len elements. */
  ghost predicate InBounds(str: Stride, len: nat) {
    if str.nelems == 0 then str.start <= len else IndexAt(str, str.nelems - 1) < len
  }

  /** Spelling out and resolving gives the stride back exactly when it is in bounds (on an
      empty array: the empty stride at 0) and its distance fits 32 bits. */
  lemma UsfrmsRoundTrip(str: Stride, len: nat)
    requires str.stride >= 1
    ensures Resolved(Usfrms(str), len) == str <==> InBounds(str, len) && str.stride < U32_SIZE
  {
    hide Steps, Times;
    NarrowStep(str.stride);
    SpelledOut(str);
    if str.nelems > 0 && str.start < len {
      var all, last := Times(str.stride, str.nelems), Times(str.stride, str.nelems - 1);
      StepsAre(if str.start + all > len then len - str.start else all, str.stride, str.nelems);
      TimesNext(str.stride, str.nelems - 1);
    }
  }

  lemma NarrowStep(step: nat)
    ensures step % U32_SIZE == step <==> step < U32_SIZE
  {
  }

  lemma SpelledOut(str: Stride)
    ensures Usfrms(str)
         == UserStride(str.start, str.stride, str.start + Times(str.stride, str.nelems), true, true, true, true)
    ensures str.nelems == 0 ==> Times(str.stride, str.nelems) == 0
    ensures str.nelems > 0 ==> IndexAt(str, str.nelems - 1) == str.start + Times(str.stride, str.nelems - 1)
    ensures Times(str.stride, str.nelems) >= 0 && (str.nelems > 0 ==> Times(str.stride, str.nelems - 1) >= 0)
  {
  }

  lemma StepsAre(m: nat, step: nat, n: nat)
    requires m > 0 && step > 0 && n > 0
    ensures Steps(m, step) == n <==> Times(step, n - 1) < m <= Times(step, n)
  {
    hide Steps, Times;
    CeilBound(m, step, n - 1);
    CeilBound(m, step, n);
  }

  /** Two user strides are equal when the same parts are present and those agree. */
  function UstrideEqual(left: UserStride, right: UserStride): bool {
    && left.hasStart == right.hasStart && left.hasStep == right.hasStep && left.hasStop == right.hasStop
    && (left.hasStart ==> left.start == right.start)
    && (left.hasStep ==> left.step == right.step)
    && (left.hasStop ==> left.stop == right.stop)
  }

  /** Equal user strides resolve alike on every array. */
  lemma EqualResolveAlike(left: UserStride, right: UserStride, len: nat)
    requires UstrideEqual(left, right)
    ensures StepOf(left) == StepOf(right)
    ensures StepOf(left) > 0 ==> Resolved(left, len) == Resolved(right, len)
  {
  }

  /** Equal means: the same when absent parts and the colon are struck out. */
  lemma EqualIsErased(left: UserStride, right: UserStride)
    ensures UstrideEqual(left, right) <==> Erased(left) == Erased(right)
  {
  }

  function Erased(us: UserStride): UserStride {
    UserStride(if us.hasStart then us.start else 0, if us.hasStep then us.step else 0,
               if us.hasStop then us.stop else 0, us.hasStart, us.hasStep, us.hasStop, false)
  }

  /** Changing what is absent or the colon keeps two strides equal; changing what is present
      does not. */
  lemma EqualIgnoresAbsent(us: UserStride, x: int, colon: bool)
    ensures UstrideEqual(us, us.(hasColon := colon))
    ensures UstrideEqual(us, us.(start := x)) <==> !us.hasStart || us.start == x
    ensures UstrideEqual(us, us.(step := x)) <==> !us.hasStep || us.step == x
    ensures UstrideEqual(us, us.(stop := x)) <==> !us.hasStop || us.stop == x
    ensures us.hasStart ==> !UstrideEqual(us, us.(hasStart := false))
    ensures us.hasStep ==> !UstrideEqual(us, us.(hasStep := false))
    ensures us.hasStop ==> !UstrideEqual(us, us.(hasStop := false))
  {
  }

  // -------------------------------------------------------- slices written out

  /** The slices of a user: absent parts take the whole array one by one. */
  lemma AbsentParts(us: UserStride, len: nat)
    requires !us.hasStep
    ensures !us.hasStart && !us.hasStop ==> Resolved(us, len) == Stride(0, 1, len)
    ensures us.hasStart && !us.hasStop && 0 <= us.start <= len ==>
              Resolved(us, len) == Stride(us.start, 1, len - us.start)
    ensures !us.hasStart && us.hasStop && 0 <= us.stop <= len ==> Resolved(us, len) == Stride(0, 1, us.stop)
    ensures us.hasStart && us.hasStop && 0 <= us.start <= us.stop <= len ==>
              Resolved(us, len) == Stride(us.start, 1, us.stop - us.start)
  {
  }

  /** With the whole step of one and the bounds a and b, the bytes from a to b are read;
      so `[:]` reads all bytes. */
  lemma PlainSliceRead(s: seq<byte>, us: UserStride, len: nat, size: nat, a: nat, b: nat)
    requires !us.hasStep && size >= 1 && |s| == len * size && a <= b <= len
    requires if us.hasStart then us.start == a else a == 0
    requires if us.hasStop then us.stop == b else b == len
    ensures a * size <= b * size <= |s|
    ensures TakenAll(s, Resolved(us, len), size) == s[a * size..b * size]
  {
    AbsentParts(us, len);
    MulMonotone(a, b, size);
    MulMonotone(b, len, size);
    RunOfElements(s, [], size, a, b);
  }

  /** A step alone lists the multiples of it. */
  lemma EveryStep(us: UserStride, len: nat, i: int)
    requires !us.hasStart && us.hasStep && !us.hasStop && 0 < us.step < 4294967296
    ensures Lists(Resolved(us, len), i) <==> 0 <= i < len && i % us.step == 0
  {
    Listing(us, len, i);
  }

  /** Negative bounds count from the end, and bounds beyond an end of the array are at it. */
  lemma BoundsFromEnd(us: UserStride, len: nat, x: nat)
    requires StepOf(us) > 0 && x >= 1
    ensures us.hasStart ==>
              Resolved(us.(start := 0 - x), len) == Resolved(us.(start := if x <= len then len - x else 0), len)
    ensures us.hasStop ==>
              Resolved(us.(stop := 0 - x), len) == Resolved(us.(stop := if x <= len then len - x else 0), len)
    ensures us.hasStart ==> Resolved(us.(start := len + x), len) == Resolved(us.(start := len), len)
    ensures us.hasStop ==> Resolved(us.(stop := len + x), len) == Resolved(us.(stop := len), len)
  {
  }

  /** Lengths and steps that sum up to 2^63 - 1 at most are in range. */
  lemma SumsFitWide(us: UserStride, len: nat)
    requires StepOf(us) > 0 && len + StepOf(us) <= 9223372036854775807
    ensures SumsFit(us, len)
  {
  }
}
