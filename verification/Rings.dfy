/** Runs of bytes that go round a circular store. */
module Rings {
  import opened Arith
  import opened Strides

  /** x reduced into [0, n), as head and tail are after every move. */
  function Turn(x: nat, n: nat): (r: nat)
    requires n > 0
    ensures r < n
    ensures x < n + n ==> r == if x < n then x else x - n
  {
    x % n
  }

  /** How far offset p lies behind offset at, going round. */
  ghost function Behind(at: nat, p: nat, n: nat): int {
    if p >= at then p - at else p + n - at
  }

  /** The n bytes from offset t on, going round. */
  ghost function Ring(d: seq<byte>, t: nat, n: nat): (r: seq<byte>)
    requires t < |d| && n <= |d|
    ensures |r| == n
  {
    if t + n <= |d| then d[t..t + n] else d[t..] + d[..t + n - |d|]
  }

  /** d' is d after the bytes of c were laid down from offset at on, going round. */
  ghost predicate Laid(d: seq<byte>, d': seq<byte>, at: nat, c: seq<byte>) {
    && |d'| == |d|
    && forall p :: 0 <= p < |d| ==> d'[p] == LaidByte(d, at, c, p)
  }

  ghost function LaidByte(d: seq<byte>, at: nat, c: seq<byte>, p: nat): byte
    requires p < |d|
  {
    var k := Behind(at, p, |d|);
    if 0 <= k < |c| then c[k] else d[p]
  }

  lemma RingAt(d: seq<byte>, t: nat, n: nat, k: nat)
    requires t < |d| && n <= |d| && k < n
    ensures Ring(d, t, n)[k] == d[Turn(t + k, |d|)]
  {
  }

  lemma RingPlain(d: seq<byte>, t: nat, n: nat)
    requires t < |d| && t + n <= |d|
    ensures Ring(d, t, n) == d[t..t + n]
  {
  }

  /** Dividing a run at byte k. */
  lemma RingSplit(d: seq<byte>, t: nat, n: nat, k: nat)
    requires t < |d| && k <= n <= |d|
    ensures Ring(d, t, n)[..k] == Ring(d, t, k)
    ensures Ring(d, t, n)[k..] == Ring(d, Turn(t + k, |d|), n - k)
  {
    hide Turn, Ring;
    var all, front, back := Ring(d, t, n), Ring(d, t, k), Ring(d, Turn(t + k, |d|), n - k);
    forall i | 0 <= i < k ensures all[i] == front[i] {
      RingAt(d, t, n, i);
      RingAt(d, t, k, i);
    }
    forall i | 0 <= i < n - k ensures all[k..][i] == back[i] {
      RingAt(d, t, n, k + i);
      RingAt(d, Turn(t + k, |d|), n - k, i);
    }
  }

  lemma LaidNothing(d: seq<byte>, at: nat)
    requires at < |d|
    ensures Laid(d, d, at, [])
  {
  }

  /** Laying down c and then more behind it. */
  lemma LaidMore(d: seq<byte>, d': seq<byte>, d'': seq<byte>, at: nat, c: seq<byte>, more: seq<byte>)
    requires at < |d| && |c| + |more| <= |d|
    requires Laid(d, d', at, c) && Laid(d', d'', Turn(at + |c|, |d|), more)
    ensures Laid(d, d'', at, c + more)
  {
    hide Turn;
    forall p | 0 <= p < |d| ensures d''[p] == LaidByte(d, at, c + more, p) {
      assert d'[p] == LaidByte(d, at, c, p);
      assert d''[p] == LaidByte(d', Turn(at + |c|, |d|), more, p);
    }
  }

  /** A copy into the store that does not cross its end. */
  lemma LaidPlain(d: seq<byte>, at: nat, c: seq<byte>)
    requires at + |c| <= |d|
    ensures Laid(d, Splice(d, at, c), at, c)
  {
  }

  /** Bytes laid down right behind a run extend it. */
  lemma LaidAppends(d: seq<byte>, d': seq<byte>, t: nat, n: nat, c: seq<byte>)
    requires t < |d| && n + |c| <= |d|
    requires Laid(d, d', Turn(t + n, |d|), c)
    ensures Ring(d', t, n + |c|) == Ring(d, t, n) + c
  {
    hide Turn, Ring;
    var all, parts := Ring(d', t, n + |c|), Ring(d, t, n) + c;
    forall k | 0 <= k < n + |c| ensures all[k] == parts[k] {
      RingAt(d', t, n + |c|, k);
      if k < n {
        RingAt(d, t, n, k);
      }
    }
  }

  /** Bytes laid down right before a run extend it to the front. */
  lemma LaidPrepends(d: seq<byte>, d': seq<byte>, t: nat, n: nat, c: seq<byte>)
    requires t < |d| && n + |c| <= |d|
    requires Laid(d, d', t, c)
    ensures Ring(d', t, |c| + n) == c + Ring(d, Turn(t + |c|, |d|), n)
  {
    hide Turn, Ring;
    var all, parts := Ring(d', t, |c| + n), c + Ring(d, Turn(t + |c|, |d|), n);
    forall k | 0 <= k < |c| + n ensures all[k] == parts[k] {
      RingAt(d', t, |c| + n, k);
      if k >= |c| {
        RingAt(d, Turn(t + |c|, |d|), n, k - |c|);
      }
    }
  }

  /** Laying bytes down outside a run leaves it as it was. */
  lemma LaidOutside(d: seq<byte>, d': seq<byte>, t: nat, n: nat, c: seq<byte>)
    requires t < |d| && n + |c| <= |d|
    requires Laid(d, d', Turn(t + n, |d|), c)
    ensures Ring(d', t, n) == Ring(d, t, n)
  {
    LaidAppends(d, d', t, n, c);
    RingSplit(d', t, n + |c|, n);
  }

  /** The whole elements in len bytes. */
  function WholeIn(len: nat, size: nat): (k: nat)
    requires size >= 1
    ensures Bytes(k, size) <= len < Bytes(k + 1, size)
  {
    QuotientFits(len, size);
    len / size
  }

  /** How many of n elements of size bytes there is room for. */
  function Elements(n: nat, size: nat, room: nat): (k: nat)
    requires size >= 1
    ensures k <= n && Bytes(k, size) <= room
    ensures k < n ==> room < Bytes(k + 1, size)
  {
    var fit := WholeIn(room, size);
    MulMonotone(if n < fit then n else fit, fit, size);
    if n < fit then n else fit
  }

  lemma QuotientFits(room: nat, size: nat)
    requires size >= 1
    ensures Bytes(room / size, size) <= room < Bytes(room / size + 1, size)
  {
  }

  /** Room twice over: for what is taken and for where it goes. */
  lemma ElementsBoth(n: nat, size: nat, a: nat, b: nat)
    requires size >= 1
    ensures Elements(Elements(n, size, a), size, b) == Elements(n, size, if a < b then a else b)
  {
    hide Elements;
    var k := Elements(Elements(n, size, a), size, b);
    var l := Elements(n, size, if a < b then a else b);
    BytesMonotone(k, Elements(n, size, a), size);
    if k < l {
      BytesMonotone(k + 1, l, size);
    } else if l < k {
      BytesMonotone(l + 1, k, size);
    }
  }

  lemma ByteWise(n: nat, room: nat)
    requires n <= room
    ensures Elements(n, 1, room) == n && Bytes(n, 1) == n
  {
  }

  lemma BytesNone(size: nat)
    ensures Bytes(0, size) == 0
  {
  }

  lemma BytesOne(size: nat)
    ensures Bytes(0, size) == 0 && Bytes(1, size) == size
  {
  }

  lemma BytesSome(n: nat, size: nat)
    requires n >= 1 && size >= 1
    ensures Bytes(n, size) >= n
  {
    MulMonotone(1, size, n);
  }

  /** Element idx is among the whole elements of len bytes exactly when it ends inside. */
  lemma BytesReach(idx: nat, size: nat, len: nat)
    requires size >= 1
    ensures idx < WholeIn(len, size) <==> Bytes(idx, size) + size <= len
    ensures idx <= Bytes(idx, size) < Bytes(idx + 1, size) == Bytes(idx, size) + size
  {
    if idx < WholeIn(len, size) {
      BytesMonotone(idx + 1, WholeIn(len, size), size);
    } else {
      BytesMonotone(WholeIn(len, size) + 1, idx + 1, size);
    }
    MulMonotone(1, size, idx);
  }

  /** A run of contiguous bytes of the store. */
  datatype Slice = Slice(at: nat, len: nat)

  /** The run of n bytes from offset at on, cut where it crosses the end. */
  ghost function Plan(at: nat, n: nat, cap: nat): seq<Slice>
    requires at < cap
  {
    if n == 0 then [] else if at + n <= cap then [Slice(at, n)]
    else [Slice(at, cap - at), Slice(0, at + n - cap)]
  }

  ghost predicate Within(io: seq<Slice>, cap: nat) {
    forall i :: 0 <= i < |io| ==> io[i].at + io[i].len <= cap
  }

  /** What writing the slices out one after another delivers. */
  function Gather(d: seq<byte>, io: seq<Slice>): seq<byte>
    requires Within(io, |d|)
  {
    if io == [] then [] else d[io[0].at..io[0].at + io[0].len] + Gather(d, io[1..])
  }

  /** The planned slices are at most two, cover exactly the run and nothing twice. */
  lemma PlanCovers(d: seq<byte>, at: nat, n: nat)
    requires at < |d| && n <= |d|
    ensures var io := Plan(at, n, |d|);
            && |io| <= 2 && Within(io, |d|) && Gather(d, io) == Ring(d, at, n)
            && (|io| == 2 ==> io[1].at + io[1].len <= io[0].at)
  {
    hide Turn;
    var io := Plan(at, n, |d|);
    if |io| == 2 {
      assert io[1..] == [io[1]];
      assert Gather(d, [io[1]]) == d[..io[1].len];
    }
  }
}
