/** Whole histories of a circular buffer, and the bounded byte queue they implement. */
module CBufferRuns {
  import opened Arith
  import opened Strides
  import opened Rings
  import opened CBuffers

  datatype Op =
    | Write(src: seq<byte>, size: nat, n: nat)
    | Read(size: nat, n: nat)
    | Copy(size: nat, n: nat)
    | PushBack(src: seq<byte>)
    | PushFront(src: seq<byte>)
    | Pop(size: nat)
    | Peek(size: nat)
    | Get(size: nat, idx: nat)
    | FakeRead(nbytes: nat)
    | Fill(src: seq<byte>)
    | Drain(n: nat)
    | FileOut(len: nat, fails: bool, reached: nat)
    | FileIn(incoming: seq<byte>, len: nat, fails: bool)
    | DiscardAll

  /** A count (or 1 and 0 for success and failure, -1 for a failed transfer) and the bytes delivered. */
  datatype Reply = Reply(count: int, bytes: seq<byte>)

  /** What the operations ask of their callers when n of cap bytes are held. */
  ghost predicate InScope(n: nat, cap: nat, op: Op) {
    match op
    case Write(src, size, k) => size >= 1 && k >= 1 && |src| >= Bytes(k, size)
    case Read(size, k) => size >= 1 && k >= 1
    case Copy(size, k) => size >= 1 && k >= 1
    case PushBack(src) => src != []
    case PushFront(src) => src != []
    case Pop(size) => size >= 1 && (n > 0 ==> size <= n)
    case Peek(size) => size >= 1 && (n > 0 ==> size <= n)
    case Get(size, idx) => size >= 1 && (Bytes(idx, size) + size <= n || (idx >= n && n < cap))
    case FakeRead(nbytes) => nbytes <= n
    case Fill(_) => true
    case Drain(_) => true
    case FileOut(_, _, _) => true
    case FileIn(_, _, _) => true
    case DiscardAll => true
  }

  /** How many bytes an operation takes off the front of the queue q. */
  ghost function Out(q: seq<byte>, cap: nat, op: Op): (k: nat)
    requires InScope(|q|, cap, op)
    ensures k <= |q|
  {
    match op
    case Read(size, n) => Bytes(Elements(n, size, |q|), size)
    case Pop(size) => if q == [] then 0 else size
    case FakeRead(nbytes) => nbytes
    case Drain(n) => Min(|q|, n)
    case FileOut(len, fails, _) => if fails then 0 else Min(|q|, len)
    case DiscardAll => |q|
    case _ => 0
  }

  /** The bytes an operation appends. */
  ghost function In(q: seq<byte>, cap: nat, op: Op): (c: seq<byte>)
    requires |q| <= cap && InScope(|q|, cap, op)
    ensures |q| + |c| <= cap
  {
    var room := cap - |q|;
    match op
    case Write(src, size, n) =>
      var k := Elements(n, size, room);
      BytesMonotone(k, n, size);
      src[..Bytes(k, size)]
    case PushBack(src) => if |src| <= room then src else []
    case Fill(src) => src[..Min(|src|, room)]
    case FileIn(incoming, len, fails) => if fails then [] else incoming[..Min(|incoming|, Min(room, len))]
    case _ => []
  }

  /** The bounded queue: only PushFront does anything but append and take off the front. */
  ghost function After(q: seq<byte>, cap: nat, op: Op): (r: seq<byte>)
    requires |q| <= cap && InScope(|q|, cap, op)
    ensures |r| <= cap
  {
    if op.PushFront? && |op.src| <= cap - |q| then op.src + q
    else q[Out(q, cap, op)..] + In(q, cap, op)
  }

  /** The reply, a function of the queue. */
  ghost function Answer(q: seq<byte>, cap: nat, op: Op): Reply
    requires |q| <= cap && InScope(|q|, cap, op)
  {
    match op
    case Write(_, size, n) => Reply(Elements(n, size, cap - |q|), [])
    case Read(size, n) =>
      var k := Elements(n, size, |q|);
      Reply(k, q[..Bytes(k, size)])
    case Copy(size, n) =>
      var k := Elements(n, size, |q|);
      Reply(k, q[..Bytes(k, size)])
    case PushBack(src) => Reply(if |src| <= cap - |q| then 1 else 0, [])
    case PushFront(src) => Reply(if |src| <= cap - |q| then 1 else 0, [])
    case Pop(size) => if q == [] then Reply(0, []) else Reply(1, q[..size])
    case Peek(size) => if q == [] then Reply(0, []) else Reply(1, q[..size])
    case Get(size, idx) =>
      if Bytes(idx, size) + size <= |q| then Reply(1, q[Bytes(idx, size)..Bytes(idx, size) + size]) else Reply(0, [])
    case FakeRead(_) => Reply(0, [])
    case Fill(src) => Reply(Min(|src|, cap - |q|), [])
    case Drain(n) => Reply(Min(|q|, n), q[..Min(|q|, n)])
    case FileOut(len, fails, reached) =>
      var total := Min(|q|, len);
      if total > 0 && fails then Reply(-1, q[..Min(reached, total)]) else Reply(total, q[..total])
    case FileIn(incoming, len, fails) =>
      var total := Min(cap - |q|, len);
      if total > 0 && fails then Reply(-1, []) else Reply(Min(|incoming|, total), [])
    case DiscardAll => Reply(0, [])
  }

  ghost predicate AllInScope(q: seq<byte>, cap: nat, ops: seq<Op>)
    requires |q| <= cap
    decreases |ops|
  {
    ops == [] || (InScope(|q|, cap, ops[0]) && AllInScope(After(q, cap, ops[0]), cap, ops[1..]))
  }

  ghost function Final(q: seq<byte>, cap: nat, ops: seq<Op>): (r: seq<byte>)
    requires |q| <= cap && AllInScope(q, cap, ops)
    ensures |r| <= cap
    decreases |ops|
  {
    if ops == [] then q else Final(After(q, cap, ops[0]), cap, ops[1..])
  }

  ghost function Answers(q: seq<byte>, cap: nat, ops: seq<Op>): (r: seq<Reply>)
    requires |q| <= cap && AllInScope(q, cap, ops)
    ensures |r| == |ops|
    decreases |ops|
  {
    if ops == [] then [] else [Answer(q, cap, ops[0])] + Answers(After(q, cap, ops[0]), cap, ops[1..])
  }

  /** The caller puts bytes into the free regions itself and commits them region by region. */
  method FillFree(b: CBuffer, src: seq<byte>) returns (count: nat)
    requires b.Valid()
    modifies b, b.data
    ensures b.Valid() && count == Min(|src|, old(b.Avail()))
    ensures b.Contents() == old(b.Contents()) + src[..count]
  {
    hide Ring, Held, Turn, CBuffer.Valid, CBuffer.Contents, CBuffer.Length, CBuffer.Avail;
    ghost var s := b.Contents();
    count := 0;
    while count < |src|
      invariant b.Valid() && count <= |src| && b.Contents() == s + src[..count]
    {
      var at, len := b.NextAvailBytes();
      if len == 0 {
        break;
      }
      var next := Min(len, |src| - count);
      PutAside(b, at, src[count..count + next]);
      b.FakeWrite(next);
      assert s + src[..count] + src[count..count + next] == s + src[..count + next];
      count := count + next;
    }
  }

  /** Bytes put at the head are not held before they are committed. */
  method PutAside(b: CBuffer, at: nat, bytes: seq<byte>)
    requires b.Valid() && at == b.head && |bytes| <= b.Avail() && at + |bytes| <= b.data.Length
    modifies b.data
    ensures b.Valid() && b.Contents() == old(b.Contents())
    ensures |bytes| <= b.Avail() && Ring(b.data[..], b.head, |bytes|) == bytes
  {
    hide Ring, Held, Turn, Laid, Splice;
    ghost var d := b.data[..];
    HeadBehind(b.head, b.tail, b.isfull, b.data.Length);
    assert b.data[..b.data.Length] == d;
    CopyInto(b.data, b.data.Length, at, bytes);
    assert b.data[..b.data.Length] == b.data[..];
    LaidPlain(d, at, bytes);
    LaidOutside(d, b.data[..], b.tail, b.Length(), bytes);
    RingPlain(b.data[..], at, |bytes|);
    SplicedRun(d, at, bytes);
  }

  lemma SplicedRun(d: seq<byte>, at: nat, bytes: seq<byte>)
    requires at + |bytes| <= |d|
    ensures Splice(d, at, bytes)[at..at + |bytes|] == bytes
  {
  }

  /** The caller takes bytes out of the data regions itself, region by region. */
  method DrainData(b: CBuffer, n: nat) returns (dest: seq<byte>)
    requires b.Valid()
    modifies b
    ensures b.Valid() && |dest| == Min(old(b.Length()), n)
    ensures dest == old(b.Contents())[..|dest|] && b.Contents() == old(b.Contents())[|dest|..]
  {
    hide Ring, Held, Turn, CBuffer.Valid, CBuffer.Contents, CBuffer.Length, CBuffer.Avail;
    ghost var s := b.Contents();
    dest := [];
    while |dest| < n
      invariant b.Valid() && |dest| <= |s| && |dest| <= n && dest == s[..|dest|] && b.Contents() == s[|dest|..]
      decreases n - |dest|
    {
      var at, len := b.NextDataBytes();
      if len == 0 {
        break;
      }
      var next := Min(len, n - |dest|);
      var chunk := b.data[at..at + next];
      PieceFront(b.data[..], at, len, next, b.Contents());
      assert chunk == b.data[..][at..at + next];
      PrefixGrows(s, |dest|, next);
      b.FakeRead(next);
      dest := dest + chunk;
    }
  }

  lemma PieceFront(d: seq<byte>, at: nat, len: nat, next: nat, c: seq<byte>)
    requires at + len <= |d| && next <= len <= |c| && d[at..at + len] == c[..len]
    ensures d[at..at + next] == c[..next]
  {
    assert d[at..at + next] == d[at..at + len][..next];
  }

  /** One operation on the buffer does what the queue does. */
  method Step(b: CBuffer, op: Op) returns (r: Reply)
    requires b.Valid() && InScope(b.Length(), b.data.Length, op)
    modifies b, b.data
    ensures b.Valid()
    ensures b.Contents() == After(old(b.Contents()), b.data.Length, op)
    ensures r == Answer(old(b.Contents()), b.data.Length, op)
  {
    hide After, Answer, InScope, CBuffer.Valid, CBuffer.Contents, CBuffer.Length;
    if Bulk(op) {
      r := BulkStep(b, op);
    } else if End(op) {
      r := EndStep(b, op);
    } else if Look(op) {
      r := LookStep(b, op);
    } else {
      r := OtherStep(b, op);
    }
  }

  predicate Bulk(op: Op) {
    op.Write? || op.Read? || op.Copy? || op.Fill? || op.Drain?
  }

  predicate End(op: Op) {
    op.PushBack? || op.PushFront? || op.Pop?
  }

  predicate Look(op: Op) {
    op.Peek? || op.Get?
  }

  method BulkStep(b: CBuffer, op: Op) returns (r: Reply)
    requires b.Valid() && InScope(b.Length(), b.data.Length, op) && Bulk(op)
    modifies b, b.data
    ensures b.Valid()
    ensures b.Contents() == After(old(b.Contents()), b.data.Length, op)
    ensures r == Answer(old(b.Contents()), b.data.Length, op)
  {
    hide Bytes, Elements, Ring, Held, CBuffer.Valid, CBuffer.Contents, CBuffer.Length, CBuffer.Avail;
    var count, dest;
    match op {
      case Write(src, size, n) =>
        count := b.Write(src, size, n);
        r := Reply(count, []);
      case Read(size, n) =>
        count, dest := b.Read(size, n, true);
        r := Reply(count, dest);
      case Copy(size, n) =>
        count, dest := b.Copy(size, n, true);
        r := Reply(count, dest);
      case Fill(src) =>
        count := FillFree(b, src);
        r := Reply(count, []);
      case Drain(n) =>
        dest := DrainData(b, n);
        r := Reply(|dest|, dest);
    }
  }

  method EndStep(b: CBuffer, op: Op) returns (r: Reply)
    requires b.Valid() && InScope(b.Length(), b.data.Length, op) && End(op)
    modifies b, b.data
    ensures b.Valid()
    ensures b.Contents() == After(old(b.Contents()), b.data.Length, op)
    ensures r == Answer(old(b.Contents()), b.data.Length, op)
  {
    hide Bytes, Elements, Ring, Held, Turn, Min, CBuffer.Valid, CBuffer.Contents, CBuffer.Length, CBuffer.Avail;
    var ok, dest;
    match op {
      case PushBack(src) =>
        ok := b.PushBack(src);
        r := Reply(if ok then 1 else 0, []);
      case PushFront(src) =>
        ok := b.PushFront(src);
        r := Reply(if ok then 1 else 0, []);
      case Pop(size) =>
        b.FullLength();
        ok, dest := b.Pop(size);
        r := Reply(if ok then 1 else 0, dest);
    }
  }

  method LookStep(b: CBuffer, op: Op) returns (r: Reply)
    requires b.Valid() && InScope(b.Length(), b.data.Length, op) && Look(op)
    modifies b, b.data
    ensures b.Valid()
    ensures b.Contents() == After(old(b.Contents()), b.data.Length, op)
    ensures r == Answer(old(b.Contents()), b.data.Length, op)
  {
    hide Bytes, Elements, Ring, Held, Turn, Min, After, Answer, CBuffer.Valid, CBuffer.Contents, CBuffer.Length,
         CBuffer.Avail;
    b.FullLength();
    var ok, found, dest;
    match op {
      case Peek(size) =>
        ok, found, dest := b.Peek(size);
        Peeked(b.Contents(), b.data.Length, size, found, dest);
      case Get(size, idx) =>
        ok, found, dest := b.Get(size, idx);
        Got(b.Contents(), b.data.Length, size, idx, found, dest);
    }
    r := if found then Reply(1, dest) else Reply(0, []);
  }

  lemma Peeked(q: seq<byte>, cap: nat, size: nat, found: bool, dest: seq<byte>)
    requires |q| <= cap && InScope(|q|, cap, Peek(size)) && (found <==> |q| > 0) && (found ==> dest == q[..size])
    ensures After(q, cap, Peek(size)) == q
    ensures Answer(q, cap, Peek(size)) == if found then Reply(1, dest) else Reply(0, [])
  {
  }

  lemma Got(q: seq<byte>, cap: nat, size: nat, idx: nat, found: bool, dest: seq<byte>)
    requires |q| <= cap && InScope(|q|, cap, Get(size, idx)) && (found <==> Bytes(idx, size) + size <= |q|)
    requires found ==> dest == q[Bytes(idx, size)..Bytes(idx, size) + size]
    ensures After(q, cap, Get(size, idx)) == q
    ensures Answer(q, cap, Get(size, idx)) == if found then Reply(1, dest) else Reply(0, [])
  {
    hide Bytes;
  }

  method OtherStep(b: CBuffer, op: Op) returns (r: Reply)
    requires b.Valid() && InScope(b.Length(), b.data.Length, op) && !Bulk(op) && !End(op) && !Look(op)
    modifies b, b.data
    ensures b.Valid()
    ensures b.Contents() == After(old(b.Contents()), b.data.Length, op)
    ensures r == Answer(old(b.Contents()), b.data.Length, op)
  {
    hide Ring, Held, CBuffer.Valid, CBuffer.Contents, CBuffer.Length, CBuffer.Avail;
    var count, sent;
    match op {
      case FakeRead(nbytes) =>
        b.FakeRead(nbytes);
        r := Reply(0, []);
      case FileOut(len, fails, reached) =>
        count, sent := b.WriteToFile(len, fails, reached);
        r := Reply(count, sent);
      case FileIn(incoming, len, fails) =>
        count := b.ReadFromFile(incoming, fails, len);
        r := Reply(count, []);
      case DiscardAll =>
        b.DiscardAll();
        r := Reply(0, []);
    }
  }

  /** The history from place i on, one operation unfolded. */
  lemma NextOp(q: seq<byte>, cap: nat, ops: seq<Op>, i: nat)
    requires |q| <= cap && i < |ops| && AllInScope(q, cap, ops[i..])
    ensures InScope(|q|, cap, ops[i])
    ensures var q' := After(q, cap, ops[i]);
            && AllInScope(q', cap, ops[i + 1..])
            && Final(q, cap, ops[i..]) == Final(q', cap, ops[i + 1..])
            && Answers(q, cap, ops[i..]) == [Answer(q, cap, ops[i])] + Answers(q', cap, ops[i + 1..])
  {
    assert ops[i..][1..] == ops[i + 1..];
  }

  /** For every capacity, every array and every history in scope, the circular buffer
      started empty holds and answers what the bounded queue holds and answers. */
  method Replay(data: array<byte>, ops: seq<Op>) returns (b: CBuffer, replies: seq<Reply>)
    requires data.Length > 0 && AllInScope([], data.Length, ops)
    modifies data
    ensures b.Valid() && b.Contents() == Final([], data.Length, ops)
    ensures replies == Answers([], data.Length, ops)
  {
    hide After, Answer, InScope, Final, Answers, AllInScope, CBuffer.Valid, CBuffer.Contents, CBuffer.Length;
    b := new CBuffer.Create(data);
    replies := [];
    var i := 0;
    assert ops[0..] == ops;
    while i < |ops|
      invariant i <= |ops| && fresh(b) && b.data == data && b.Valid()
      invariant AllInScope(b.Contents(), data.Length, ops[i..])
      invariant Final(b.Contents(), data.Length, ops[i..]) == Final([], data.Length, ops)
      invariant replies + Answers(b.Contents(), data.Length, ops[i..]) == Answers([], data.Length, ops)
    {
      NextOp(b.Contents(), data.Length, ops, i);
      var r := Step(b, ops[i]);
      replies := replies + [r];
      i := i + 1;
    }
    NoOps(b.Contents(), data.Length, ops);
  }

  lemma NoOps(q: seq<byte>, cap: nat, ops: seq<Op>)
    requires |q| <= cap && AllInScope(q, cap, ops[|ops|..])
    ensures Final(q, cap, ops[|ops|..]) == q && Answers(q, cap, ops[|ops|..]) == []
  {
  }

  /** The operations of a queue user: nothing is put in front, dropped or thrown away. */
  ghost predicate Fifo(op: Op) {
    !op.PushFront? && !op.DiscardAll? && !op.FakeRead?
  }

  /** The bytes an operation delivers and takes off. */
  ghost function Delivered(q: seq<byte>, cap: nat, op: Op): seq<byte>
    requires |q| <= cap && InScope(|q|, cap, op)
  {
    if op.Read? || op.Pop? || op.Drain? || (op.FileOut? && Answer(q, cap, op).count >= 0) then Answer(q, cap, op).bytes
    else []
  }

  ghost function AllIn(q: seq<byte>, cap: nat, ops: seq<Op>): seq<byte>
    requires |q| <= cap && AllInScope(q, cap, ops)
    decreases |ops|
  {
    if ops == [] then []
    else In(q, cap, ops[0]) + AllIn(After(q, cap, ops[0]), cap, ops[1..])
  }

  ghost function AllDelivered(q: seq<byte>, cap: nat, ops: seq<Op>): seq<byte>
    requires |q| <= cap && AllInScope(q, cap, ops)
    decreases |ops|
  {
    if ops == [] then []
    else Delivered(q, cap, ops[0]) + AllDelivered(After(q, cap, ops[0]), cap, ops[1..])
  }

  /** First in, first out, over any history: what was held and what was accepted is, in
      this order, what was delivered and what is still held. Nothing is lost,
      duplicated or reordered, across every wrap of the cursors. */
  lemma {:induction false} FirstInFirstOut(q: seq<byte>, cap: nat, ops: seq<Op>)
    requires |q| <= cap && AllInScope(q, cap, ops) && forall i :: 0 <= i < |ops| ==> Fifo(ops[i])
    ensures q + AllIn(q, cap, ops) == AllDelivered(q, cap, ops) + Final(q, cap, ops)
    decreases |ops|
  {
    hide After, In, Delivered, InScope, Fifo;
    if ops != [] {
      var q' := After(q, cap, ops[0]);
      StepConserves(q, cap, ops[0]);
      FirstInFirstOut(q', cap, ops[1..]);
      var i, d := In(q, cap, ops[0]), Delivered(q, cap, ops[0]);
      var i', d' := AllIn(q', cap, ops[1..]), AllDelivered(q', cap, ops[1..]);
      Regroup(q, i, i', d, d', q', Final(q', cap, ops[1..]));
    }
  }

  lemma Regroup(q: seq<byte>, i: seq<byte>, i': seq<byte>, d: seq<byte>, d': seq<byte>, q': seq<byte>, f: seq<byte>)
    requires q + i == d + q' && q' + i' == d' + f
    ensures q + (i + i') == (d + d') + f
  {
    assert q + (i + i') == (q + i) + i';
    assert d + (q' + i') == (d + q') + i';
    assert d + (d' + f) == (d + d') + f;
  }

  lemma StepConserves(q: seq<byte>, cap: nat, op: Op)
    requires |q| <= cap && InScope(|q|, cap, op) && Fifo(op)
    ensures q + In(q, cap, op) == Delivered(q, cap, op) + After(q, cap, op)
  {
    hide Elements, Bytes, In, Out, Delivered, Answer, InScope;
    DeliveredIsFront(q, cap, op);
    var k := Out(q, cap, op);
    assert q == q[..k] + q[k..];
    assert q + In(q, cap, op) == q[..k] + (q[k..] + In(q, cap, op));
  }

  /** What a queue user's operation takes off the front is what it delivers. */
  lemma DeliveredIsFront(q: seq<byte>, cap: nat, op: Op)
    requires |q| <= cap && InScope(|q|, cap, op) && Fifo(op)
    ensures Delivered(q, cap, op) == q[..Out(q, cap, op)]
  {
    hide Elements, Bytes;
  }

  /** Push the elements of xs in front one after another and pop each again afterwards. */
  ghost function Nested(xs: seq<seq<byte>>): seq<Op> {
    if xs == [] then [] else [PushFront(xs[0])] + Nested(xs[1..]) + [Pop(|xs[0]|)]
  }

  ghost function Total(xs: seq<seq<byte>>): nat {
    if xs == [] then 0 else |xs[0]| + Total(xs[1..])
  }

  /** The replies of such a history: every push succeeds and every pop gives back the
      element pushed last. */
  ghost function NestedReplies(xs: seq<seq<byte>>): seq<Reply> {
    if xs == [] then [] else [Reply(1, [])] + NestedReplies(xs[1..]) + [Reply(1, xs[0])]
  }

  lemma {:induction false} Concatenated(q: seq<byte>, cap: nat, a: seq<Op>, b: seq<Op>)
    requires |q| <= cap && AllInScope(q, cap, a) && AllInScope(Final(q, cap, a), cap, b)
    ensures AllInScope(q, cap, a + b)
    ensures Final(q, cap, a + b) == Final(Final(q, cap, a), cap, b)
    ensures Answers(q, cap, a + b) == Answers(q, cap, a) + Answers(Final(q, cap, a), cap, b)
    decreases |a|
  {
    hide After, Answer, InScope, AllInScope, Final, Answers;
    if a == [] {
      assert a + b == b;
      NoOps(q, cap, a);
    } else {
      assert a[0..] == a && (a + b)[1..] == a[1..] + b;
      NextOp(q, cap, a, 0);
      var q' := After(q, cap, a[0]);
      Concatenated(q', cap, a[1..], b);
      BeginOps(q, cap, a + b);
    }
  }

  lemma BeginOps(q: seq<byte>, cap: nat, ops: seq<Op>)
    requires |q| <= cap && ops != [] && InScope(|q|, cap, ops[0])
    requires AllInScope(After(q, cap, ops[0]), cap, ops[1..])
    ensures AllInScope(q, cap, ops)
    ensures Final(q, cap, ops) == Final(After(q, cap, ops[0]), cap, ops[1..])
    ensures Answers(q, cap, ops) == [Answer(q, cap, ops[0])] + Answers(After(q, cap, ops[0]), cap, ops[1..])
  {
    hide After, Answer, InScope;
  }

  lemma SingleOp(q: seq<byte>, cap: nat, op: Op)
    requires |q| <= cap && InScope(|q|, cap, op)
    ensures AllInScope(q, cap, [op])
    ensures Final(q, cap, [op]) == After(q, cap, op)
    ensures Answers(q, cap, [op]) == [Answer(q, cap, op)]
  {
    assert [op][1..] == [];
  }

  /** The front is a stack: pushes that fit are undone by pops in reverse order, and the
      queue behind is untouched. */
  lemma {:induction false} LastInFirstOut(q: seq<byte>, cap: nat, xs: seq<seq<byte>>)
    requires |q| + Total(xs) <= cap && forall i :: 0 <= i < |xs| ==> xs[i] != []
    ensures AllInScope(q, cap, Nested(xs))
    ensures Final(q, cap, Nested(xs)) == q
    ensures Answers(q, cap, Nested(xs)) == NestedReplies(xs)
    decreases |xs|
  {
    if xs != [] {
      hide AllInScope, Final, Answers;
      var x, inner := xs[0], Nested(xs[1..]);
      var push, pop := PushFront(x), Pop(|x|);
      var q' := x + q;
      assert After(q, cap, push) == q';
      SingleOp(q, cap, push);
      LastInFirstOut(q', cap, xs[1..]);
      Concatenated(q, cap, [push], inner);
      SingleOp(q', cap, pop);
      assert q'[|x|..] + [] == q && q'[..|x|] == x;
      Concatenated(q, cap, [push] + inner, [pop]);
    } else {
      NoOps(q, cap, []);
    }
  }

  // ------------------------------------------------------ laws of the replies

  /** What the operations ask of their callers, and no more. */
  lemma AnyCallInScope(n: nat, cap: nat, src: seq<byte>, size: nat, k: nat, idx: nat, fails: bool)
    requires size >= 1 && k >= 1
    ensures |src| >= k * size ==> InScope(n, cap, Write(src, size, k))
    ensures InScope(n, cap, Read(size, k)) && InScope(n, cap, Copy(size, k))
    ensures src != [] ==> InScope(n, cap, PushBack(src)) && InScope(n, cap, PushFront(src))
    ensures size <= n || n == 0 ==> InScope(n, cap, Pop(size)) && InScope(n, cap, Peek(size))
    ensures idx * size + size <= n || (idx >= n && n < cap) ==> InScope(n, cap, Get(size, idx))
    ensures k <= n ==> InScope(n, cap, FakeRead(k))
    ensures InScope(n, cap, Fill(src)) && InScope(n, cap, Drain(k)) && InScope(n, cap, DiscardAll)
    ensures InScope(n, cap, FileOut(k, fails, idx)) && InScope(n, cap, FileIn(src, k, fails))
  {
  }

  /** The ways to put the bytes c in, and to take n bytes out. */
  ghost predicate Puts(op: Op, c: seq<byte>) {
    op == Write(c, 1, |c|) || op == PushBack(c) || op == PushFront(c) || op == Fill(c) || op == FileIn(c, |c|, false)
  }

  ghost predicate Takes(op: Op, n: nat) {
    || op == Read(1, n) || op == Pop(n) || op == Drain(n) || op == FileOut(n, false, 0)
  }

  /** Whatever way bytes that fit are put into an empty buffer, and whatever way as many are
      taken out, is in scope, and the same bytes come out. */
  lemma PutAndTaken(c: seq<byte>, cap: nat, put: Op, take: Op)
    requires c != [] && |c| <= cap && Puts(put, c) && Takes(take, |c|)
    ensures AllInScope([], cap, [put, take]) && Final([], cap, [put, take]) == []
    ensures Answers([], cap, [put, take])[1].bytes == c
    ensures AllInScope([], cap, [put]) && Final([], cap, [put]) == c
  {
    hide AllInScope, Final, Answers;
    ByteWise(|c|, cap);
    ByteWise(|c|, |c|);
    assert [] + c == c && c + [] == c && c[..|c|] == c && c[|c|..] == [];
    SingleOp([], cap, put);
    SingleOp(c, cap, take);
    Concatenated([], cap, [put], [take]);
    assert [put] + [take] == [put, take];
  }

  /** Looking at bytes delivers what taking them delivers, and changes nothing; an element
      asked for by its index is the bytes at its place. */
  lemma LookingIsTaking(q: seq<byte>, cap: nat, size: nat, n: nat, idx: nat)
    requires |q| <= cap && size >= 1 && n >= 1
    ensures Answer(q, cap, Copy(size, n)) == Answer(q, cap, Read(size, n)) && After(q, cap, Copy(size, n)) == q
    ensures size <= |q| ==>
              Answer(q, cap, Peek(size)) == Answer(q, cap, Pop(size)) == Reply(1, q[..size])
              && After(q, cap, Peek(size)) == q
    ensures idx * size + size <= |q| ==>
              InScope(|q|, cap, Get(size, idx)) && After(q, cap, Get(size, idx)) == q
              && 0 <= idx * size && Answer(q, cap, Get(size, idx)) == Reply(1, q[idx * size..idx * size + size])
    ensures q == [] ==> Answer(q, cap, Pop(size)) == Answer(q, cap, Peek(size)) == Reply(0, [])
  {
    hide Elements;
  }

  /** The counts answered are those of the whole elements put in or delivered: as many as
      asked for, or as fit. */
  lemma CountsTell(q: seq<byte>, cap: nat, src: seq<byte>, size: nat, n: nat)
    requires |q| <= cap && size >= 1 && n >= 1 && |src| >= Bytes(n, size)
    ensures var k := Answer(q, cap, Write(src, size, n)).count;
            && 0 <= k <= n && |After(q, cap, Write(src, size, n))| == |q| + k * size
            && (k < n ==> cap - |q| < k * size + size)
    ensures var r := Answer(q, cap, Read(size, n));
            && 0 <= r.count <= n && |r.bytes| == r.count * size == |q| - |After(q, cap, Read(size, n))|
            && (r.count < n ==> |q| < r.count * size + size)
  {
    hide Elements;
    BytesSucc(Elements(n, size, cap - |q|), size);
    BytesSucc(Elements(n, size, |q|), size);
    BytesMonotone(Elements(n, size, cap - |q|), n, size);
  }

  // ------------------------------------------------------------- two buffers

  /** An operation on one of two buffers, or a transfer between them. */
  datatype PairOp =
    | Left(op: Op)
    | Right(op: Op)
    | Move(toLeft: bool, size: nat, n: nat)
    | CopyOver(toLeft: bool, size: nat, n: nat)

  datatype Pair = Pair(left: seq<byte>, right: seq<byte>)

  ghost predicate Fits(p: Pair, m: nat, n: nat) {
    |p.left| <= m && |p.right| <= n
  }

  ghost predicate PairScope(p: Pair, m: nat, n: nat, op: PairOp) {
    match op
    case Left(x) => InScope(|p.left|, m, x)
    case Right(x) => InScope(|p.right|, n, x)
    case Move(_, size, k) => size >= 1 && k >= 1
    case CopyOver(_, size, k) => size >= 1 && k >= 1
  }

  /** How many elements a transfer of k takes from s when there are room bytes free. */
  ghost function Carried(size: nat, k: nat, s: seq<byte>, room: nat): (r: nat)
    requires size >= 1
    ensures Bytes(r, size) <= |s| && Bytes(r, size) <= room
  {
    Elements(k, size, Min(|s|, room))
  }

  ghost function PairAfter(p: Pair, m: nat, n: nat, op: PairOp): (r: Pair)
    requires Fits(p, m, n) && PairScope(p, m, n, op)
    ensures Fits(r, m, n)
  {
    match op
    case Left(x) => p.(left := After(p.left, m, x))
    case Right(x) => p.(right := After(p.right, n, x))
    case Move(toLeft, size, k) =>
      if toLeft then
        var c := Bytes(Carried(size, k, p.right, m - |p.left|), size);
        Pair(p.left + p.right[..c], p.right[c..])
      else
        var c := Bytes(Carried(size, k, p.left, n - |p.right|), size);
        Pair(p.left[c..], p.right + p.left[..c])
    case CopyOver(toLeft, size, k) =>
      if toLeft then p.(left := p.left + p.right[..Bytes(Carried(size, k, p.right, m - |p.left|), size)])
      else p.(right := p.right + p.left[..Bytes(Carried(size, k, p.left, n - |p.right|), size)])
  }

  ghost function PairAnswer(p: Pair, m: nat, n: nat, op: PairOp): Reply
    requires Fits(p, m, n) && PairScope(p, m, n, op)
  {
    match op
    case Left(x) => Answer(p.left, m, x)
    case Right(x) => Answer(p.right, n, x)
    case Move(toLeft, size, k) =>
      Reply(if toLeft then Carried(size, k, p.right, m - |p.left|) else Carried(size, k, p.left, n - |p.right|), [])
    case CopyOver(toLeft, size, k) =>
      Reply(if toLeft then Carried(size, k, p.right, m - |p.left|) else Carried(size, k, p.left, n - |p.right|), [])
  }

  ghost predicate AllPairScope(p: Pair, m: nat, n: nat, ops: seq<PairOp>)
    requires Fits(p, m, n)
    decreases |ops|
  {
    ops == [] || (PairScope(p, m, n, ops[0]) && AllPairScope(PairAfter(p, m, n, ops[0]), m, n, ops[1..]))
  }

  ghost function PairFinal(p: Pair, m: nat, n: nat, ops: seq<PairOp>): (r: Pair)
    requires Fits(p, m, n) && AllPairScope(p, m, n, ops)
    ensures Fits(r, m, n)
    decreases |ops|
  {
    if ops == [] then p else PairFinal(PairAfter(p, m, n, ops[0]), m, n, ops[1..])
  }

  ghost function PairAnswers(p: Pair, m: nat, n: nat, ops: seq<PairOp>): seq<Reply>
    requires Fits(p, m, n) && AllPairScope(p, m, n, ops)
    decreases |ops|
  {
    if ops == [] then []
    else [PairAnswer(p, m, n, ops[0])] + PairAnswers(PairAfter(p, m, n, ops[0]), m, n, ops[1..])
  }

  /** What the two buffers hold. */
  ghost function HeldBoth(a: CBuffer, b: CBuffer): (p: Pair)
    requires a.Valid() && b.Valid()
    reads a, a.data, b, b.data
    ensures Fits(p, a.data.Length, b.data.Length)
  {
    Pair(a.Contents(), b.Contents())
  }

  /** A transfer from src to dst that takes the bytes off src or leaves them. */
  method Transfer(dst: CBuffer, src: CBuffer, size: nat, k: nat, take: bool) returns (count: nat)
    requires dst.Valid() && src.Valid() && src != dst && src.data != dst.data && size >= 1 && k >= 1
    modifies dst, dst.data, src
    ensures dst.Valid() && src.Valid()
    ensures count == Carried(size, k, old(src.Contents()), dst.data.Length - |old(dst.Contents())|)
    ensures Bytes(count, size) <= |old(src.Contents())|
    ensures dst.Contents() == old(dst.Contents()) + old(src.Contents())[..Bytes(count, size)]
    ensures src.Contents() == if take then old(src.Contents())[Bytes(count, size)..] else old(src.Contents())
  {
    hide Bytes, Elements, Ring, Held, Turn, CBuffer.Valid, CBuffer.Contents, CBuffer.Length, CBuffer.Avail;
    if take {
      count := dst.MoveFrom(src, size, k);
    } else {
      count := dst.CopyFrom(src, size, k);
    }
  }

  method PairStep(a: CBuffer, b: CBuffer, op: PairOp) returns (r: Reply)
    requires a.Valid() && b.Valid() && a != b && a.data != b.data
    requires PairScope(HeldBoth(a, b), a.data.Length, b.data.Length, op)
    modifies a, a.data, b, b.data
    ensures a.Valid() && b.Valid()
    ensures HeldBoth(a, b) == PairAfter(old(HeldBoth(a, b)), a.data.Length, b.data.Length, op)
    ensures r == PairAnswer(old(HeldBoth(a, b)), a.data.Length, b.data.Length, op)
  {
    hide Bytes, Elements, After, Answer, InScope, Carried, Ring, Held, Turn, Min,
         CBuffer.Valid, CBuffer.Contents, CBuffer.Length, CBuffer.Avail;
    var count;
    match op {
      case Left(x) => r := Step(a, x);
      case Right(x) => r := Step(b, x);
      case Move(toLeft, size, n) =>
        if toLeft {
          count := Transfer(a, b, size, n, true);
        } else {
          count := Transfer(b, a, size, n, true);
        }
        r := Reply(count, []);
      case CopyOver(toLeft, size, n) =>
        if toLeft {
          count := Transfer(a, b, size, n, false);
        } else {
          count := Transfer(b, a, size, n, false);
        }
        r := Reply(count, []);
    }
  }

  lemma NextPairOp(p: Pair, m: nat, n: nat, ops: seq<PairOp>, i: nat)
    requires Fits(p, m, n) && i < |ops| && AllPairScope(p, m, n, ops[i..])
    ensures PairScope(p, m, n, ops[i])
    ensures var p' := PairAfter(p, m, n, ops[i]);
            && AllPairScope(p', m, n, ops[i + 1..])
            && PairFinal(p, m, n, ops[i..]) == PairFinal(p', m, n, ops[i + 1..])
            && PairAnswers(p, m, n, ops[i..]) == [PairAnswer(p, m, n, ops[i])] + PairAnswers(p', m, n, ops[i + 1..])
  {
    assert ops[i..][1..] == ops[i + 1..];
  }

  lemma NoPairOps(p: Pair, m: nat, n: nat, ops: seq<PairOp>)
    requires Fits(p, m, n) && AllPairScope(p, m, n, ops[|ops|..])
    ensures PairFinal(p, m, n, ops[|ops|..]) == p && PairAnswers(p, m, n, ops[|ops|..]) == []
  {
  }

  /** The same for every history of two buffers over distinct arrays, with transfers
      between them. */
  method ReplayPair(left: array<byte>, right: array<byte>, ops: seq<PairOp>)
    returns (a: CBuffer, b: CBuffer, replies: seq<Reply>)
    requires left.Length > 0 && right.Length > 0 && left != right
    requires AllPairScope(Pair([], []), left.Length, right.Length, ops)
    modifies left, right
    ensures a.Valid() && b.Valid() && a.data == left && b.data == right
    ensures HeldBoth(a, b) == PairFinal(Pair([], []), left.Length, right.Length, ops)
    ensures replies == PairAnswers(Pair([], []), left.Length, right.Length, ops)
  {
    hide PairAfter, PairAnswer, PairScope, PairFinal, PairAnswers, AllPairScope, CBuffer.Valid, CBuffer.Contents,
         CBuffer.Length;
    a := new CBuffer.Create(left);
    b := new CBuffer.Create(right);
    replies := [];
    var i := 0;
    assert ops[0..] == ops;
    while i < |ops|
      invariant i <= |ops| && fresh(a) && fresh(b) && a != b && a.data == left && b.data == right
      invariant a.Valid() && b.Valid()
      invariant AllPairScope(HeldBoth(a, b), left.Length, right.Length, ops[i..])
      invariant PairFinal(HeldBoth(a, b), left.Length, right.Length, ops[i..])
             == PairFinal(Pair([], []), left.Length, right.Length, ops)
      invariant replies + PairAnswers(HeldBoth(a, b), left.Length, right.Length, ops[i..])
             == PairAnswers(Pair([], []), left.Length, right.Length, ops)
    {
      NextPairOp(HeldBoth(a, b), left.Length, right.Length, ops, i);
      var r := PairStep(a, b, ops[i]);
      replies := replies + [r];
      i := i + 1;
    }
    NoPairOps(HeldBoth(a, b), left.Length, right.Length, ops);
  }

  /** A pipeline: moves from right to left and bytes put in on the right and taken out on
      the left. */
  ghost predicate Pipeline(op: PairOp) {
    match op
    case Left(x) => Fifo(x) && !x.Write? && !x.PushBack? && !x.Fill? && !x.FileIn?
    case Right(x) => Fifo(x) && !x.Read? && !x.Pop? && !x.Drain? && !x.FileOut?
    case Move(toLeft, _, _) => toLeft
    case CopyOver(_, _, _) => false
  }

  ghost function PipedIn(p: Pair, m: nat, n: nat, ops: seq<PairOp>): seq<byte>
    requires Fits(p, m, n) && AllPairScope(p, m, n, ops)
    decreases |ops|
  {
    if ops == [] then []
    else (if ops[0].Right? then In(p.right, n, ops[0].op) else []) + PipedIn(PairAfter(p, m, n, ops[0]), m, n, ops[1..])
  }

  ghost function PipedOut(p: Pair, m: nat, n: nat, ops: seq<PairOp>): seq<byte>
    requires Fits(p, m, n) && AllPairScope(p, m, n, ops)
    decreases |ops|
  {
    if ops == [] then []
    else (if ops[0].Left? then Delivered(p.left, m, ops[0].op) else [])
         + PipedOut(PairAfter(p, m, n, ops[0]), m, n, ops[1..])
  }

  /** Two buffers in a row are one queue: whatever the moves between them are, the bytes
      come out on the left in the order in which they were put in on the right. */
  lemma {:induction false} PipelineInOrder(p: Pair, m: nat, n: nat, ops: seq<PairOp>)
    requires Fits(p, m, n) && AllPairScope(p, m, n, ops) && forall i :: 0 <= i < |ops| ==> Pipeline(ops[i])
    ensures var f := PairFinal(p, m, n, ops);
            (p.left + p.right) + PipedIn(p, m, n, ops) == PipedOut(p, m, n, ops) + (f.left + f.right)
    decreases |ops|
  {
    hide PairAfter, In, Delivered, PairScope, Pipeline;
    if ops != [] {
      var q, x := PairAfter(p, m, n, ops[0]), ops[0];
      PipelineStep(p, m, n, x);
      var i := if x.Right? then In(p.right, n, x.op) else [];
      var d := if x.Left? then Delivered(p.left, m, x.op) else [];
      var f := PairFinal(q, m, n, ops[1..]);
      PipelineInOrder(q, m, n, ops[1..]);
      Regroup(p.left + p.right, i, PipedIn(q, m, n, ops[1..]), d, PipedOut(q, m, n, ops[1..]),
              q.left + q.right, f.left + f.right);
    }
  }

  lemma PipelineStep(p: Pair, m: nat, n: nat, op: PairOp)
    requires Fits(p, m, n) && PairScope(p, m, n, op) && Pipeline(op)
    ensures op.Right? ==> InScope(|p.right|, n, op.op)
    ensures op.Left? ==> InScope(|p.left|, m, op.op)
    ensures var q := PairAfter(p, m, n, op);
            (p.left + p.right) + (if op.Right? then In(p.right, n, op.op) else [])
            == (if op.Left? then Delivered(p.left, m, op.op) else []) + (q.left + q.right)
  {
    hide Bytes, Elements, After, In, Delivered, InScope;
    var q := PairAfter(p, m, n, op);
    match op
    case Left(x) =>
      TakesOnly(p.left, m, x);
      var d := Delivered(p.left, m, x);
      assert d + (q.left + q.right) == (d + q.left) + q.right;
    case Right(x) =>
      PutsOnly(p.right, n, x);
      var i := In(p.right, n, x);
      assert (p.left + p.right) + i == p.left + (p.right + i);
    case Move(_, size, k) =>
      var c := Bytes(Carried(size, k, p.right, m - |p.left|), size);
      assert p.right == p.right[..c] + p.right[c..];
  }

  lemma TakesOnly(q: seq<byte>, cap: nat, op: Op)
    requires |q| <= cap && InScope(|q|, cap, op) && Pipeline(Left(op))
    ensures q == Delivered(q, cap, op) + After(q, cap, op)
  {
    StepConserves(q, cap, op);
  }

  lemma PutsOnly(q: seq<byte>, cap: nat, op: Op)
    requires |q| <= cap && InScope(|q|, cap, op) && Pipeline(Right(op))
    ensures q + In(q, cap, op) == After(q, cap, op)
  {
    StepConserves(q, cap, op);
  }

  /** A transfer answers how many elements it has carried: the bytes appended on the one side
      are so many, and those taken off on the other the same. */
  lemma TransferCounts(p: Pair, m: nat, n: nat, size: nat, k: nat)
    requires Fits(p, m, n) && size >= 1 && k >= 1
    ensures var op := Move(true, size, k);
            var c, q := PairAnswer(p, m, n, op).count, PairAfter(p, m, n, op);
            0 <= c <= k && |q.left| - |p.left| == c * size == |p.right| - |q.right|
    ensures var op := Move(false, size, k);
            var c, q := PairAnswer(p, m, n, op).count, PairAfter(p, m, n, op);
            0 <= c <= k && |q.right| - |p.right| == c * size == |p.left| - |q.left|
    ensures forall toLeft ::
              PairAnswer(p, m, n, CopyOver(toLeft, size, k)) == PairAnswer(p, m, n, Move(toLeft, size, k))
    ensures PairAfter(p, m, n, CopyOver(true, size, k)) == PairAfter(p, m, n, Move(true, size, k)).(right := p.right)
    ensures PairAfter(p, m, n, CopyOver(false, size, k)) == PairAfter(p, m, n, Move(false, size, k)).(left := p.left)
  {
    hide Elements;
  }
}
