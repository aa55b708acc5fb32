/** A byte sequence stored in a doubly linked chain of partly filled blocks. */
module BlockArrays {
  import opened Arith
  import opened Strides

  /** A block; its data is a flexible array member of the C struct, so it is part
      of the block and cannot be shared: a sequence-valued field that the code
      overwrites piecewise. */
  class Block {
    var next: Block?
    var prev: Block?
    var len: nat
    var data: seq<byte>

    /** Fresh memory of the block allocator. */
    constructor (cap: nat)
      ensures |data| == cap
    {
      data := seq(cap, _ => 0);
    }
  }

  /** nodes are the blocks from head on, next and prev mutually inverse. */
  ghost predicate Chain(head: Block?, nodes: seq<Block>)
    reads nodes`next, nodes`prev
  {
    && head == (if nodes == [] then null else nodes[0])
    && (nodes != [] ==> nodes[0].prev == null && nodes[|nodes| - 1].next == null)
    && (forall i {:trigger nodes[i].next} :: 0 <= i < |nodes| - 1 ==> nodes[i].next == nodes[i + 1])
    && (forall i {:trigger nodes[i].prev} :: 1 <= i < |nodes| ==> nodes[i].prev == nodes[i - 1])
    && (forall i, j :: 0 <= i < j < |nodes| ==> nodes[i] != nodes[j])
  }

  lemma InsertFilled(nodes: seq<Block>, views: seq<seq<byte>>, cap: nat, b: Block, i: nat)
    requires AllFilled(nodes, views, cap) && |b.data| == cap && b.len == 0
    ensures i < |nodes| ==>
      && |views| == |nodes|
      && AllFilled(nodes[..i + 1] + [b] + nodes[i + 1..], views[..i + 1] + [[]] + views[i + 1..], cap)
      && Cells(nodes[..i + 1] + [b] + nodes[i + 1..]) == Cells(nodes) + {b}
  {
    if i < |nodes| {
      assert nodes == nodes[..i + 1] + nodes[i + 1..];
    }
  }

  lemma RemoveFilled(head: Block?, nodes: seq<Block>, views: seq<seq<byte>>, cap: nat, i: nat)
    requires Chain(head, nodes) && AllFilled(nodes, views, cap) && i < |nodes|
    ensures |views| == |nodes|
    ensures AllFilled(nodes[..i] + nodes[i + 1..], views[..i] + views[i + 1..], cap)
    ensures Cells(nodes[..i] + nodes[i + 1..]) == Cells(nodes) - {nodes[i]}
  {
    assert nodes == nodes[..i] + [nodes[i]] + nodes[i + 1..];
  }

  lemma EmptyFilled(b: Block, cap: nat)
    requires |b.data| == cap && b.len == 0
    ensures AllFilled([b], [[]], cap)
    ensures b.next == b.prev == null ==> Chain(b, [b])
  {
  }

  /** Link ret into the chain behind prev, the node at place i. */
  method LinkBehind(prev: Block, ret: Block, ghost head: Block?, ghost nodes: seq<Block>, ghost i: nat)
    requires Chain(head, nodes) && i < |nodes| && prev == nodes[i] && ret !in nodes
    modifies nodes`next, nodes`prev, ret`next, ret`prev
    ensures Chain(head, nodes[..i + 1] + [ret] + nodes[i + 1..])
  {
    assert i + 1 < |nodes| ==> nodes[i].next == nodes[i + 1];
    ret.next := prev.next;
    prev.next := ret;
    if ret.next != null {
      ret.next.prev := ret;
    }
    ret.prev := prev;
  }

  /** Take b, the node at place i > 0, out of the chain. */
  method Unlink(b: Block, ghost head: Block?, ghost nodes: seq<Block>, ghost i: nat)
    requires Chain(head, nodes) && 0 < i < |nodes| && b == nodes[i]
    modifies nodes`next, nodes`prev
    ensures Chain(head, nodes[..i] + nodes[i + 1..])
  {
    assert nodes[i].prev == nodes[i - 1];
    assert i + 1 < |nodes| ==> nodes[i].next == nodes[i + 1];
    if b.prev != null {
      b.prev.next := b.next;
    }
    if b.next != null {
      b.next.prev := b.prev;
    }
  }

  /** Block b has capacity cap and is filled with the bytes v. */
  ghost predicate Filled(b: Block, v: seq<byte>, cap: nat)
    reads b`data, b`len
  {
    |b.data| == cap && b.len <= cap && b.data[..b.len] == v
  }

  ghost predicate AllFilled(nodes: seq<Block>, views: seq<seq<byte>>, cap: nat)
    reads nodes`data, nodes`len
  {
    && |nodes| == |views|
    && forall i :: 0 <= i < |nodes| ==> Filled(nodes[i], views[i], cap)
  }

  ghost function Cells(nodes: seq<Block>): set<Block> {
    set b | b in nodes
  }

  /** The bytes of the first n views, in order. */
  ghost function Flat(views: seq<seq<byte>>, n: nat): seq<byte>
    requires n <= |views|
  {
    if n == 0 then [] else Flat(views, n - 1) + views[n - 1]
  }

  ghost function FlatAll(views: seq<seq<byte>>): seq<byte> {
    Flat(views, |views|)
  }

  /** A call to the allocator of blocks. */
  datatype Call = Take(b: Block) | Give(b: Block)

  /** The blocks taken and not given back. */
  ghost function Outstanding(calls: seq<Call>): set<Block> {
    if calls == [] then {}
    else
      var before := Outstanding(calls[..|calls| - 1]);
      match calls[|calls| - 1]
      case Take(b) => before + {b}
      case Give(b) => before - {b}
  }

  /** A block is taken only while it is not outstanding and given back only while it is. */
  ghost predicate Lawful(calls: seq<Call>) {
    calls == [] ||
    var before := calls[..|calls| - 1];
    && Lawful(before)
    && match calls[|calls| - 1]
       case Take(b) => b !in Outstanding(before)
       case Give(b) => b in Outstanding(before)
  }

  ghost predicate Accounts(calls: seq<Call>, live: set<Block>) {
    Lawful(calls) && Outstanding(calls) == live
  }

  lemma TakenOut(calls: seq<Call>, live: set<Block>, b: Block)
    requires Accounts(calls, live) && b !in live
    ensures Accounts(calls + [Take(b)], live + {b})
  {
    assert (calls + [Take(b)])[..|calls|] == calls;
  }

  lemma Given(calls: seq<Call>, live: set<Block>, b: Block)
    requires Accounts(calls, live) && b in live
    ensures Accounts(calls + [Give(b)], live - {b})
  {
    assert (calls + [Give(b)])[..|calls|] == calls;
  }

  class BlockArray {
    const cap: nat
    var head: Block?
    ghost var nodes: seq<Block>
    ghost var views: seq<seq<byte>>
    /** The cells of the block allocator that are handed out and not yet freed. */
    ghost var live: set<Block>
    /** The calls made to the block allocator. */
    var calls: seq<Call>

    ghost predicate Valid()
      reads this, nodes
    {
      && cap > 0
      && Chain(head, nodes)
      && AllFilled(nodes, views, cap)
      && live == Cells(nodes)
      && Accounts(calls, live)
    }

    ghost function Contents(): seq<byte>
      reads this
    {
      FlatAll(views)
    }

    constructor (cap: nat)
      requires cap > 0
      ensures Valid() && Contents() == [] && live == {} && this.cap == cap
    {
      this.cap := cap;
      head := null;
      nodes, views, live, calls := [], [], {}, [];
    }

    /** Find the block that holds byte offset start. */
    method Seek(start: nat) returns (cur: Block?, bidx: nat, ghost ci: nat)
      requires Valid()
      ensures cur == null ==> start >= |Contents()|
      ensures cur != null ==> ci < |nodes| == |views| && cur == nodes[ci] && bidx < |views[ci]|
                              && Cursor(views, ci, bidx, start)
    {
      cur, bidx, ci := head, start, 0;
      while cur != null && bidx >= cur.len
        invariant ci <= |nodes| && cur == (if ci < |nodes| then nodes[ci] else null)
        invariant start == |Flat(views, ci)| + bidx
        decreases |nodes| - ci
      {
        NodeAt(ci);
        bidx := bidx - cur.len;
        cur := cur.next;
        ci := ci + 1;
      }
    }

    method GetLen() returns (len: nat)
      requires Valid()
      ensures len == |Contents()|
    {
      len := 0;
      var cur := head;
      ghost var ci := 0;
      while cur != null
        invariant ci <= |nodes| && cur == (if ci < |nodes| then nodes[ci] else null)
        invariant len == |Flat(views, ci)|
        decreases |nodes| - ci
      {
        NodeAt(ci);
        len := len + cur.len;
        cur := cur.next;
        ci := ci + 1;
      }
    }

    /** Bytes are copied out as they are met, including those of a last element
        that does not fit as a whole; the count is that of the whole elements. */
    method Read(str: Stride, size: nat) returns (n: nat, dest: seq<byte>)
      requires Valid() && size >= 1 && str.stride >= 1
      ensures CountsWhole(str, size, |Contents()|, n)
      ensures dest == TakenAll(Contents(), str, size)
    {
      hide Taken, Phase, CountsWhole, TakenAll, FlatAll, Valid, At, Cursor;
      var first, bidx, ci := Seek(str.start * size);
      if first == null {
        ScanNothing(Contents(), [], str, size);
        return 0, [];
      }
      CursorMove(views, ci, bidx, str.start * size, 0);
      ScanStart(Contents(), [], str, size);
      n, dest := ReadFrom(str, size, first, bidx, ci, str.start * size);
    }

    method ReadFrom(str: Stride, size: nat, first: Block, start: nat, ghost i: nat, ghost begin: nat)
      returns (n: nat, dest: seq<byte>)
      requires Valid() && size >= 1 && str.stride >= 1
      requires i < |nodes| == |views| && first == nodes[i]
      requires Cursor(views, i, start, begin) && start <= |views[i]| && begin <= |Contents()|
      requires Phase(str, size, begin, FirstState(size), 0) && Taken(Contents(), str, size, begin) == []
      ensures CountsWhole(str, size, |Contents()|, n)
      ensures dest == TakenAll(Contents(), str, size)
    {
      hide Taken, Phase, CountsWhole, TakenAll, KeptAll, WrittenAll, PartWritten, Kept, Written, Flat, FlatAll, Valid,
           Advance, At, EndOf, Cursor;
      ghost var flat := Contents();
      var cur, bidx: nat := first, start;
      ghost var ci: nat, p: nat := i, begin;
      var state := FirstState(size);
      n, dest := 0, [];
      while n < str.nelems
        invariant |views| == |nodes| && ci < |nodes| && cur == nodes[ci] && bidx <= |views[ci]|
        invariant Cursor(views, ci, bidx, p) && p <= |flat|
        invariant Phase(str, size, p, state, n)
        invariant dest == Taken(flat, str, size, p)
        decreases |nodes| - ci, |views[ci]| - bidx
      {
        NodeAt(ci);
        PhaseBounds(str, size, p, state, n);
        var next := Min(state.next, cur.len - bidx);
        ReadStep(views, str, size, ci, bidx, p, state, n, next);
        if state.active {
          NodeBytes(ci, bidx, bidx + next);
          dest := dest + cur.data[bidx..bidx + next];
          if next == state.next {
            n := n + 1;
          }
        }
        state := Advance(str, size, state, next);
        bidx := bidx + next;
        p := p + next;
        if bidx == cur.len {
          CursorNext(views, ci, p);
          cur := cur.next;
          bidx := 0;
          if cur == null {
            break;
          }
          ci := ci + 1;
        }
      }
      PhaseBounds(str, size, p, state, n);
      ScanEnd(flat, [], str, size, p, state, n);
    }

    /** Copy bytes over a stretch of the used part of one block. */
    method Overwrite(b: Block, at: nat, bytes: seq<byte>, ghost i: nat)
      requires Valid() && i < |nodes| && b == nodes[i]
      requires at + |bytes| <= |views[i]|
      modifies this`views, b`data
      ensures Valid()
      ensures views == old(views)[i := Splice(old(views)[i], at, bytes)]
    {
      assert Filled(b, views[i], cap);
      b.data := b.data[..at] + bytes + b.data[at + |bytes|..];
      views := views[i := Splice(views[i], at, bytes)];
      forall j | 0 <= j < |nodes| ensures Filled(nodes[j], views[j], cap) {
        assert Filled(nodes[j], old(views)[j], cap) || j == i;
      }
    }

    /** In-place strided overwrite, block by block. */
    method Write(str: Stride, size: nat, src: seq<byte>) returns (n: nat)
      requires Valid() && size >= 1 && str.stride >= 1
      requires |src| >= |TakenAll(Contents(), str, size)|
      modifies this`views, nodes`data
      ensures Valid() && CountsWhole(str, size, |old(Contents())|, n)
      ensures Contents() == WrittenAll(old(Contents()), src, str, size)
    {
      hide Taken, Phase, CountsWhole, TakenAll, WrittenAll, PartWritten, FlatAll, Valid, At, Cursor;
      var first, bidx, ci := Seek(str.start * size);
      if first == null {
        ScanNothing(Contents(), src, str, size);
        return 0;
      }
      CursorMove(views, ci, bidx, str.start * size, 0);
      ScanStart(Contents(), src, str, size);
      n := WriteFrom(str, size, src, first, bidx, ci, str.start * size);
    }

    method WriteFrom(str: Stride, size: nat, src: seq<byte>, first: Block, start: nat, ghost i: nat, ghost begin: nat)
      returns (n: nat)
      requires Valid() && size >= 1 && str.stride >= 1
      requires i < |nodes| == |views| && first == nodes[i]
      requires Cursor(views, i, start, begin) && start <= |views[i]| && begin <= |Contents()|
      requires Phase(str, size, begin, FirstState(size), 0) && Taken(Contents(), str, size, begin) == []
      requires Contents() == PartWritten(Contents(), src, str, size, begin)
      requires |src| >= |TakenAll(Contents(), str, size)|
      modifies this`views, nodes`data
      ensures Valid() && CountsWhole(str, size, |old(Contents())|, n)
      ensures Contents() == WrittenAll(old(Contents()), src, str, size)
    {
      hide Taken, Phase, CountsWhole, TakenAll, KeptAll, WrittenAll, PartWritten, Kept, Written, Splice, Flat, FlatAll,
           Valid, Advance, At, EndOf, Cursor;
      ghost var flat := Contents();
      var cur, bidx: nat := first, start;
      ghost var ci: nat, p: nat := i, begin;
      var state := FirstState(size);
      n := 0;
      var sidx := 0;
      while n < str.nelems
        invariant Valid()
        invariant |views| == |nodes| && ci < |nodes| && cur == nodes[ci] && bidx <= |views[ci]|
        invariant Cursor(views, ci, bidx, p) && p <= |flat|
        invariant Phase(str, size, p, state, n)
        invariant sidx == |Taken(flat, str, size, p)|
        invariant FlatAll(views) == PartWritten(flat, src, str, size, p)
        decreases |nodes| - ci, |views[ci]| - bidx
      {
        NodeAt(ci);
        PhaseBounds(str, size, p, state, n);
        var next := Min(state.next, cur.len - bidx);
        WriteStep(views, flat, src, str, size, ci, bidx, p, state, n, next);
        if state.active {
          Overwrite(cur, bidx, src[sidx..sidx + next], ci);
          sidx := sidx + next;
          if next == state.next {
            n := n + 1;
          }
        }
        state := Advance(str, size, state, next);
        bidx := bidx + next;
        p := p + next;
        if bidx == cur.len {
          CursorNext(views, ci, p);
          cur := cur.next;
          bidx := 0;
          if cur == null {
            break;
          }
          ci := ci + 1;
        }
      }
      PhaseBounds(str, size, p, state, n);
      ScanEnd(flat, src, str, size, p, state, n);
    }

    // ------------------------------------------------------------- insertion

    /** An array without blocks gets an empty first block. */
    method EnsureHead()
      requires Valid()
      modifies this, live
      ensures Valid() && nodes != [] && fresh(live - old(live))
      ensures Contents() == old(Contents())
      ensures |nodes| == |views|
      ensures if old(nodes) == [] then |nodes| == 1 else nodes == old(nodes) && views == old(views)
    {
      if head == null {
        head := AllocEmpty(head, 0);
        assert Flat(views, 1) == Flat(views, 0) + [];
      }
    }

    /** Find the block behind or in which an insertion at byte offset ofst goes. */
    method SeekInsert(ofst: nat) returns (cur: Block, bidx: nat, ghost ci: nat)
      requires Valid() && nodes != [] && ofst <= |Contents()|
      ensures ci < |nodes| == |views| && cur == nodes[ci] && bidx <= |views[ci]|
      ensures Cursor(views, ci, bidx, ofst)
    {
      cur, bidx, ci := head, ofst, 0;
      while bidx > cur.len
        invariant ci < |nodes| == |views| && cur == nodes[ci]
        invariant ofst == |Flat(views, ci)| + bidx
        decreases |nodes| - ci
      {
        NodeAt(ci);
        MoreBehind(views, ci, bidx);
        bidx := bidx - cur.len;
        cur := cur.next;
        ci := ci + 1;
      }
      NodeAt(ci);
    }

    /** Take a block from the allocator and link it behind prev. With no
        predecessor the caller makes the block the head. */
    method AllocEmpty(prev: Block?, ghost i: nat) returns (ret: Block)
      requires Valid()
      requires if prev == null then nodes == [] else i < |nodes| && prev == nodes[i]
      modifies this`nodes, this`views, this`live, this`calls, live`next, live`prev
      ensures fresh(ret) && ret.len == 0
      ensures Chain(if prev == null then ret else head, nodes) && AllFilled(nodes, views, cap)
      ensures live == Cells(nodes) == old(live) + {ret} && Accounts(calls, live)
      ensures prev == null ==> nodes == [ret] && views == [[]]
      ensures prev != null ==>
        && i < |old(views)|
        && nodes == old(nodes)[..i + 1] + [ret] + old(nodes)[i + 1..]
        && views == old(views)[..i + 1] + [[]] + old(views)[i + 1..]
    {
      hide Chain, AllFilled, Accounts;
      ret := new Block(cap);
      TakenOut(calls, live, ret);
      live, calls := live + {ret}, calls + [Take(ret)];
      ret.len := 0;
      if prev != null {
        LinkBehind(prev, ret, head, nodes, i);
        assert AllFilled(nodes, views, cap);
        InsertFilled(nodes, views, cap, ret, i);
        nodes := nodes[..i + 1] + [ret] + nodes[i + 1..];
        views := views[..i + 1] + [[]] + views[i + 1..];
      } else {
        ret.next, ret.prev := null, prev;
        EmptyFilled(ret, cap);
        nodes, views := [ret], [[]];
      }
    }

    /** Append bytes to the used part of one block that has room for them. */
    method AppendTo(b: Block, bytes: seq<byte>, ghost i: nat)
      requires Valid() && i < |nodes| == |views| && b == nodes[i]
      requires |views[i]| + |bytes| <= cap
      modifies this`views, b`data, b`len
      ensures Valid()
      ensures views == old(views)[i := old(views)[i] + bytes]
    {
      assert Filled(b, views[i], cap);
      b.data := b.data[..b.len] + bytes + b.data[b.len + |bytes|..];
      b.len := b.len + |bytes|;
      views := views[i := views[i] + bytes];
      forall j | 0 <= j < |nodes| ensures Filled(nodes[j], views[j], cap) {
        assert Filled(nodes[j], old(views)[j], cap) || j == i;
      }
    }

    /** Append as much as one block takes: cur, or a new block behind it when cur is full. */
    method AppendSome(cur: Block, bytes: seq<byte>, ghost i: nat) returns (cur': Block, next: nat, ghost ci: nat)
      requires Valid() && i < |nodes| == |views| && cur == nodes[i] && bytes != []
      modifies this`nodes, this`views, this`live, this`calls, live
      ensures Valid() && ci < |nodes| == |views| && cur' == nodes[ci] && 0 < next <= |bytes|
      ensures fresh(live - old(live))
      ensures Flat(views, ci + 1) == old(Flat(views, i + 1)) + bytes[..next]
      ensures views[ci + 1..] == old(views)[i + 1..] && nodes[ci + 1..] == old(nodes)[i + 1..]
      ensures ci == if |old(views)[i]| == cap then i + 1 else i
      ensures nodes[..i + 1] == old(nodes)[..i + 1] && views[..i] == old(views)[..i] && views[ci] != []
      ensures if ci == i then |views[i]| >= |old(views)[i]| else views[i] == old(views)[i]
    {
      hide Chain, AllFilled, Flat, Cells;
      NodeAt(i);
      cur', ci := cur, i;
      if cur'.len == cap {
        FlatAlloc(views, i);
        cur' := AllocEmpty(cur', i);
        ci := i + 1;
      }
      NodeAt(ci);
      next := Min(cap - cur'.len, |bytes|);
      FlatAppend(views, ci, bytes[..next]);
      AppendTo(cur', bytes[..next], ci);
    }

    /** Append bytes behind the used part of cur, taking new blocks behind it as
        they are needed. */
    method AppendAll(first: Block, bytes: seq<byte>, ghost i: nat) returns (cur: Block, ghost ci: nat)
      requires Valid() && i < |nodes| == |views| && first == nodes[i]
      modifies this`nodes, this`views, this`live, this`calls, live
      ensures Valid() && ci < |nodes| == |views| && cur == nodes[ci]
      ensures fresh(live - old(live))
      ensures Flat(views, ci + 1) == old(Flat(views, i + 1)) + bytes
      ensures views[ci + 1..] == old(views)[i + 1..] && nodes[ci + 1..] == old(nodes)[i + 1..]
      ensures Packed(old(nodes), old(views), nodes, views, cap, i, ci) && (bytes != [] ==> views[ci] != [])
    {
      hide Chain, AllFilled, Flat, Cells, Packed;
      cur, ci := first, i;
      var done := 0;
      assert bytes[..0] == [];
      PackedStart(nodes, views, cap, i);
      while done < |bytes|
        invariant done <= |bytes|
        invariant Valid() && ci < |nodes| == |views| && cur == nodes[ci]
        invariant fresh(live - old(live))
        invariant Flat(views, ci + 1) == old(Flat(views, i + 1)) + bytes[..done]
        invariant views[ci + 1..] == old(views)[i + 1..] && nodes[ci + 1..] == old(nodes)[i + 1..]
        invariant Packed(old(nodes), old(views), nodes, views, cap, i, ci) && (done > 0 ==> views[ci] != [])
        decreases |bytes| - done
      {
        ghost var from, packedNodes, packed := ci, nodes, views;
        var next;
        cur, next, ci := AppendSome(cur, bytes[done..], ci);
        assert bytes[..done] + bytes[done..][..next] == bytes[..done + next];
        PackedStep(old(nodes), old(views), packedNodes, packed, nodes, views, cap, i, from, ci);
        done := done + next;
      }
      assert bytes[..|bytes|] == bytes;
    }

    /** Cut the block at byte offset ofst short and put its rest aside. */
    method SplitAt(ofst: nat) returns (cur: Block, tail: seq<byte>, ghost ci: nat)
      requires Valid() && nodes != [] && ofst <= |Contents()|
      modifies this`views, live`len
      ensures Valid() && ci < |nodes| == |views| && cur == nodes[ci]
      ensures Flat(views, ci + 1) == old(Contents())[..ofst]
      ensures tail + FlatAll(views[ci + 1..]) == old(Contents())[ofst..]
      ensures views[..ci] == old(views)[..ci] && views[ci + 1..] == old(views)[ci + 1..]
    {
      hide Flat, Cells, Valid, Cursor;
      var bidx: nat;
      cur, bidx, ci := SeekInsert(ofst);
      NodeAt(ci);
      NodeBytes(ci, bidx, cur.len);
      NodeBytes(ci, 0, bidx);
      InsertSplit(views, ci, bidx, ofst);
      tail := cur.data[bidx..cur.len];
      assert tail == views[ci][bidx..cur.len] == views[ci][bidx..];
      ghost var cut := views[ci := views[ci][..bidx]];
      assert cur.data[..bidx] == views[ci][..bidx];
      if |tail| > 0 {
        SetLen(cur, bidx, ci);
      } else {
        assert views[ci][..bidx] == views[ci];
      }
      assert views == cut;
    }

    /** Splice src into the bytes at offset ofst: the rest of the block is put
        aside, src is written behind the block's first part, then the rest. Only
        that block is touched; the bytes that do not fit in it go to new blocks
        behind it, up to block end, and no more of them than are needed. */
    method Insert(ofst: nat, src: seq<byte>) returns (ghost at: nat, ghost end: nat)
      requires Valid() && ofst <= |Contents()| && |src| > 0
      modifies this, live
      ensures Valid() && fresh(live - old(live))
      ensures Contents() == old(Contents())[..ofst] + src + old(Contents())[ofst..]
      ensures at <= end < |nodes| == |views| && views[end] != []
      ensures forall k :: at <= k < end ==> |views[k]| == cap
      ensures if old(nodes) == [] then at == 0 && end + 1 == |nodes|
              else
                && at < |old(nodes)| == |old(views)|
                && nodes[..at + 1] == old(nodes)[..at + 1] && nodes[end + 1..] == old(nodes)[at + 1..]
                && views[..at] == old(views)[..at] && views[end + 1..] == old(views)[at + 1..]
    {
      hide Flat, FlatAll, Cells, Valid;
      EnsureHead();
      var cur, tail, ci := SplitAt(ofst);
      var last := cur.next;
      ghost var rest := nodes[ci + 1..];
      at := ci;
      ghost var nodes0, views0 := nodes, views;
      NodeAt(ci);
      cur, ci := AppendAll(cur, src, ci);
      end := ci;
      ghost var nodes1, views1 := nodes, views;
      cur, ci := AppendAll(cur, tail, ci);
      PackedTwice(nodes0, views0, nodes1, views1, nodes, views, cap, at, end, ci);
      end := ci;
      NodeAt(ci);
      assert rest == nodes[ci + 1..];
      cur.next := last;
      FlatCut(views, ci + 1);
    }

    /** Set the used length of one block. */
    method SetLen(b: Block, len: nat, ghost i: nat)
      requires Valid() && i < |nodes| == |views| && b == nodes[i] && len <= cap
      modifies this`views, b`len
      ensures Valid() && b.len == len <= |b.data|
      ensures views == old(views)[i := b.data[..len]]
    {
      assert Filled(b, views[i], cap);
      b.len := len;
      views := views[i := b.data[..len]];
      forall j | 0 <= j < |nodes| ensures Filled(nodes[j], views[j], cap) {
        assert Filled(nodes[j], old(views)[j], cap) || j == i;
      }
    }

    // -------------------------------------------------------------- removal

    /** Move k bytes from block src to block dst, the node at place w; the two
        may be the same block as long as the bytes move down. */
    method MoveBytes(dst: Block, at: nat, src: Block, from: nat, k: nat, ghost w: nat)
      requires Valid() && w < |nodes| == |views| && dst == nodes[w]
      requires at + k <= cap && from + k <= src.len <= |src.data|
      requires dst == src ==> at <= from
      modifies this`views, dst`data
      ensures Valid() && |dst.data| == cap
      ensures dst.data[..at + k] == old(dst.data[..at]) + old(src.data[from..from + k])
      ensures views == old(views)[w := views[w]] && |views[w]| == |old(views)[w]|
      ensures dst == src ==> from + k <= |views[w]| && views[w][from + k..] == old(views)[w][from + k..]
    {
      assert Filled(dst, views[w], cap);
      dst.data := dst.data[..at] + src.data[from..from + k] + dst.data[at + k..];
      views := views[w := dst.data[..dst.len]];
      forall j | 0 <= j < |nodes| ensures Filled(nodes[j], views[j], cap) {
        assert Filled(nodes[j], old(views)[j], cap) || j == w;
      }
    }

    /** Leave the read block, the node at place r: it is freed unless the write
        cursor is still in it. */
    method LeaveBlock(rcur: Block, wcur: Block, ghost w: nat, ghost r: nat) returns (next: Block?)
      requires Valid() && w <= r < |nodes| == |views| && wcur == nodes[w] && rcur == nodes[r]
      modifies this`nodes, this`views, this`live, this`calls, live`next, live`prev
      ensures Valid()
      ensures next == if r + 1 < |old(nodes)| then old(nodes)[r + 1] else null
      ensures r == w ==> nodes == old(nodes) && views == old(views) && live == old(live)
      ensures r != w ==> live == old(live) - {rcur}
      ensures r != w ==> nodes == old(nodes)[..r] + old(nodes)[r + 1..]
      ensures r != w ==> views == old(views)[..r] + old(views)[r + 1..]
    {
      hide Chain, AllFilled, Accounts;
      NodeAt(r);
      DistinctNodes(w, r);
      next := rcur.next;
      RemoveFilled(head, nodes, views, cap, r);
      if rcur != wcur {
        Unlink(rcur, head, nodes, r);
        nodes := nodes[..r] + nodes[r + 1..];
        views := views[..r] + views[r + 1..];
        Given(calls, live, rcur);
        live, calls := live - {rcur}, calls + [Give(rcur)];
      }
    }

    /** The cursors of a removal under way: `kept` are the bytes kept so far. */
    ghost predicate Compacting(rcur: Block, rbidx: nat, wcur: Block, wbidx: nat, t: Track, kept: seq<byte>)
      reads this, nodes
    {
      && Valid()
      && t.w < |nodes| == |views| && t.r < |nodes| && wcur == nodes[t.w] && rcur == nodes[t.r]
      && wbidx < cap == |wcur.data|
      && Sliding(views, t.w, t.r, wcur.data[..wbidx], t.start, t.ro, rbidx, kept)
      && Cursor(t.start, t.ro, rbidx, t.p)
    }

    /** The read block has been left; all that is missing is the write block's length. */
    ghost predicate Closing(wcur: Block, wbidx: nat, t: Track, kept: seq<byte>)
      reads this, nodes
    {
      && Valid()
      && t.w < |nodes| == |views| && wcur == nodes[t.w]
      && wbidx < cap == |wcur.data|
      && Flat(views, t.w) + wcur.data[..wbidx] == kept
      && t.ro < |t.start| && views[t.w + 1..] == t.start[t.ro + 1..]
      && Cursor(t.start, t.ro, |t.start[t.ro]|, t.p)
    }

    /** Move k bytes from the read cursor to the write cursor; a full write block
        is closed and the write cursor goes to its successor, which must be the
        read block (ok says whether that assertion of the code holds). */
    method MoveChunk(rcur: Block, rbidx: nat, wcur: Block, wbidx: nat, k: nat, ghost t: Track, ghost kept: seq<byte>)
      returns (ok: bool, wcur': Block?, wbidx': nat, ghost t': Track)
      requires Compacting(rcur, rbidx, wcur, wbidx, t, kept)
      requires rbidx + k <= |views[t.r]| && wbidx + k <= cap
      modifies this`views, live`data, live`len
      ensures Valid()
      ensures ok <==> !(wbidx + k == cap && t.r == t.w)
      ensures t' == t.(p := t.p + k, w := if wbidx + k == cap then t.w + 1 else t.w)
      ensures wbidx' == if wbidx + k == cap then 0 else wbidx + k
      ensures t.p + k <= |FlatAll(t.start)|
      ensures ok ==> wcur' != null
      ensures ok ==> Compacting(rcur, rbidx + k, wcur', wbidx', t', kept + FlatAll(t.start)[t.p..t.p + k])
    {
      hide FlatAll, Sliding, Cursor, Valid;
      NodeAt(t.r);
      NodeAt(t.w);
      ghost var acc, before := wcur.data[..wbidx], views;
      SlideBounds(views, t.w, t.r, acc, t.start, t.ro, rbidx, kept);
      DistinctNodes(t.w, t.r);
      ghost var chunk := t.start[t.ro][rbidx..rbidx + k];
      CursorMove(t.start, t.ro, rbidx, t.p, k);
      SlideTake(views, t.w, t.r, acc, t.start, t.ro, rbidx, kept, k);
      NodeBytes(t.r, rbidx, rbidx + k);
      MoveBytes(wcur, wbidx, rcur, rbidx, k, t.w);
      SlideMove(before, t.w, t.r, acc, t.start, t.ro, rbidx, kept, k, views[t.w]);
      ghost var moved := views;
      wcur', wbidx', t', ok := wcur, wbidx + k, t.(p := t.p + k), true;
      if wbidx' == cap {
        assert wcur.data[..cap] == acc + chunk;
        SetLen(wcur, cap, t.w);
        NodeAt(t.w);
        wcur' := wcur.next;
        ok := wcur' == rcur;
        wbidx', t' := 0, t'.(w := t.w + 1);
        if t.r == t.w {
          NextDiffers(t.w);
        } else {
          SlideFull(moved, t.w, t.r, acc + chunk, t.start, t.ro, rbidx + k, kept + chunk);
        }
      }
    }

    lemma CompactingFacts(rcur: Block, rbidx: nat, wcur: Block, wbidx: nat, t: Track, kept: seq<byte>)
      requires Compacting(rcur, rbidx, wcur, wbidx, t, kept)
      ensures Valid() && rcur in live && wcur in live
      ensures t.r < |views| && rbidx <= |views[t.r]| == rcur.len <= cap == |rcur.data|
      ensures t.ro < |t.start| && rcur.len == |t.start[t.ro]|
      ensures t.p + (rcur.len - rbidx) <= |FlatAll(t.start)| && wbidx < cap
      ensures t.r == t.w || t.r == t.w + 1
      ensures t.r == t.w ==> wbidx <= rbidx <= cap && rcur == wcur
    {
      NodeAt(t.r);
      NodeAt(t.w);
      CursorMove(t.start, t.ro, rbidx, t.p, rcur.len - rbidx);
    }

    /** The next k bytes at the read cursor are those of the flat sequence. */
    lemma TakeBytes(rcur: Block, rbidx: nat, wcur: Block, wbidx: nat, k: nat, t: Track, kept: seq<byte>)
      requires Compacting(rcur, rbidx, wcur, wbidx, t, kept)
      requires rbidx + k <= |views[t.r]|
      ensures t.p + k <= |FlatAll(t.start)| && rbidx + k <= |rcur.data|
      ensures rcur.data[rbidx..rbidx + k] == FlatAll(t.start)[t.p..t.p + k]
    {
      CursorMove(t.start, t.ro, rbidx, t.p, k);
      SlideTake(views, t.w, t.r, wcur.data[..wbidx], t.start, t.ro, rbidx, kept, k);
      NodeBytes(t.r, rbidx, rbidx + k);
    }

    /** The read cursor passes k bytes that are not kept. */
    lemma PassBytes(rcur: Block, rbidx: nat, wcur: Block, wbidx: nat, k: nat, t: Track, kept: seq<byte>)
      requires Compacting(rcur, rbidx, wcur, wbidx, t, kept)
      requires rbidx + k <= |views[t.r]|
      ensures t.p + k <= |FlatAll(t.start)|
      ensures Compacting(rcur, rbidx + k, wcur, wbidx, t.(p := t.p + k), kept)
    {
      CursorMove(t.start, t.ro, rbidx, t.p, k);
      SlideTake(views, t.w, t.r, wcur.data[..wbidx], t.start, t.ro, rbidx, kept, k);
    }

    /** The read cursor passes next bytes that are to be removed. */
    lemma PassSelected(str: Stride, size: nat, state: StrideState, done: nat, rcur: Block, rbidx: nat,
                       wcur: Block, wbidx: nat, next: nat, flat: seq<byte>, t: Track)
      requires size >= 1 && str.stride >= 1 && done < str.nelems && state.active && next <= state.next
      requires flat == FlatAll(t.start) && t.p <= |flat|
      requires Compacting(rcur, rbidx, wcur, wbidx, t, Kept(flat, str, size, t.p))
      requires Phase(str, size, t.p, state, done) && rbidx + next <= rcur.len
      ensures t.p + next <= |flat| && rbidx + next <= |rcur.data|
      ensures Taken(flat, str, size, t.p + next) == Taken(flat, str, size, t.p) + rcur.data[rbidx..rbidx + next]
      ensures Compacting(rcur, rbidx + next, wcur, wbidx, t.(p := t.p + next), Kept(flat, str, size, t.p + next))
      ensures Phase(str, size, t.p + next, Advance(str, size, state, next),
                    if next == state.next then done + 1 else done)
    {
      hide Taken, Kept, Phase, FlatAll, Advance, Compacting;
      var kept := Kept(flat, str, size, t.p);
      CompactingFacts(rcur, rbidx, wcur, wbidx, t, kept);
      ScanChunk(flat, str, size, t.p, state, done, next);
      TakeBytes(rcur, rbidx, wcur, wbidx, next, t, kept);
      PassBytes(rcur, rbidx, wcur, wbidx, next, t, kept);
    }

    /** Leave the exhausted read block for its successor. */
    method NextBlock(rcur: Block, wcur: Block, ghost rbidx: nat, ghost wbidx: nat,
                     ghost t: Track, ghost kept: seq<byte>)
      returns (next: Block?, ghost t': Track)
      requires Compacting(rcur, rbidx, wcur, wbidx, t, kept) && rbidx == |views[t.r]|
      modifies this`nodes, this`views, this`live, this`calls, live`next, live`prev
      ensures Valid() && live <= old(live)
      ensures Closing(wcur, wbidx, t, kept)
      ensures next == null ==> t.p == |FlatAll(t.start)|
      ensures next == null <==> t.ro + 1 == |t.start|
      ensures t' == t.(ro := t.ro + 1, r := t.w + 1)
      ensures next != null ==> Compacting(next, 0, wcur, wbidx, t', kept)
    {
      hide FlatAll, Sliding, Cursor, Valid, Flat, Chain, AllFilled, Accounts, Cells, Filled;
      ghost var acc, before := wcur.data[..wbidx], views;
      SlideBounds(views, t.w, t.r, acc, t.start, t.ro, rbidx, kept);
      CursorNext(t.start, t.ro, t.p);
      if t.r == t.w {
        SlidePass(views, t.w, acc, t.start, t.ro, kept);
      } else {
        SlideDrop(views, t.w, acc, t.start, t.ro, kept);
      }
      next := LeaveBlock(rcur, wcur, t.w, t.r);
      t' := t.(ro := t.ro + 1, r := t.w + 1);
    }

    /** One step of the automaton inside the read block: selected bytes are copied
        out, the others move to the write cursor. */
    method RemoveChunk(str: Stride, size: nat, wantDest: bool, state: StrideState, done: nat,
                       rcur: Block, rbidx: nat, wcur: Block, wbidx: nat, ghost flat: seq<byte>, ghost t: Track)
      returns (next: nat, n: nat, out: seq<byte>, wcur': Block, wbidx': nat, ghost t': Track)
      requires size >= 1 && str.stride >= 1 && done < str.nelems
      requires flat == FlatAll(t.start) && t.p <= |flat|
      requires Compacting(rcur, rbidx, wcur, wbidx, t, Kept(flat, str, size, t.p))
      requires Phase(str, size, t.p, state, done)
      requires !state.active && t.r == t.w ==> wbidx < rbidx
      modifies this`views, live`data, live`len
      ensures next <= state.next && rbidx + next <= rcur.len == |t.start[t.ro]|
      ensures next > 0 || rbidx == rcur.len
      ensures t'.start == t.start && t'.ro == t.ro && t'.r == t.r && t'.p == t.p + next <= |flat|
      ensures Compacting(rcur, rbidx + next, wcur', wbidx', t', Kept(flat, str, size, t'.p))
      ensures Phase(str, size, t'.p, Advance(str, size, state, next), n)
      ensures wantDest ==> Taken(flat, str, size, t'.p) == Taken(flat, str, size, t.p) + out
      ensures state.active ==> t'.w == t.w && wbidx' == wbidx
      ensures (t.w == t.r ==> wbidx < rbidx) ==> (t'.w == t'.r ==> wbidx' < rbidx + next)
    {
      hide Taken, Kept, Selected, InElements, Phase, Flat, FlatAll, Advance, At, EndOf, Cursor, Sliding, Valid,
           Compacting, Closing, Chain, AllFilled, Accounts, Cells;
      PhaseBounds(str, size, t.p, state, done);
      CompactingFacts(rcur, rbidx, wcur, wbidx, t, Kept(flat, str, size, t.p));
      n, out := done, [];
      if state.active {
        next := Min(state.next, rcur.len - rbidx);
        PassSelected(str, size, state, done, rcur, rbidx, wcur, wbidx, next, flat, t);
        if wantDest {
          out := rcur.data[rbidx..rbidx + next];
        }
        wcur', wbidx', t' := wcur, wbidx, t.(p := t.p + next);
        if next == state.next {
          n := n + 1;
        }
      } else {
        next := Min(Min(state.next, cap - wbidx), rcur.len - rbidx);
        ScanChunk(flat, str, size, t.p, state, done, next);
        var ok, wnext: Block?;
        ok, wnext, wbidx', t' := MoveChunk(rcur, rbidx, wcur, wbidx, next, t, Kept(flat, str, size, t.p));
        assert ok;
        wcur' := wnext;
      }
      CompactingFacts(rcur, rbidx + next, wcur', wbidx', t', Kept(flat, str, size, t'.p));
    }

    /** First phase of a removal: run the stride automaton to the end of the
        stride, copying the selected bytes out and closing the gaps between them. */
    method RemoveSelected(str: Stride, size: nat, wantDest: bool, first: Block, bidx: nat, ghost t0: Track)
      returns (n: nat, dest: seq<byte>, rcur: Block?, rbidx: nat, wcur: Block, wbidx: nat, ghost t: Track)
      requires size >= 1 && str.stride >= 1 && t0.p <= |FlatAll(t0.start)|
      requires Phase(str, size, t0.p, FirstState(size), 0)
      requires Taken(FlatAll(t0.start), str, size, t0.p) == []
      requires t0.w == t0.r
      requires Compacting(first, bidx, first, bidx, t0, Kept(FlatAll(t0.start), str, size, t0.p))
      requires bidx < |views[t0.r]|
      modifies this`nodes, this`views, this`live, this`calls, live
      ensures live <= old(live)
      ensures t.start == t0.start && t.p <= |FlatAll(t0.start)|
      ensures CountsWhole(str, size, |FlatAll(t0.start)|, n)
      ensures dest == if wantDest then TakenAll(FlatAll(t0.start), str, size) else []
      ensures KeptAll(FlatAll(t0.start), str, size)
           == Kept(FlatAll(t0.start), str, size, t.p) + FlatAll(t0.start)[t.p..]
      ensures rcur != null ==> Compacting(rcur, rbidx, wcur, wbidx, t, Kept(FlatAll(t0.start), str, size, t.p))
      ensures rcur == null ==> Closing(wcur, wbidx, t, Kept(FlatAll(t0.start), str, size, t.p))
      ensures str.nelems > 0 && rcur != null && t.r == t.w ==> wbidx < rbidx
      ensures str.nelems == 0 ==> rcur == wcur == first && rbidx == wbidx == bidx && t == t0 && views == old(views)
    {
      hide Taken, Kept, Selected, InElements, Phase, CountsWhole, TakenAll, KeptAll, Flat, FlatAll, Advance, At, EndOf,
           Cursor, Sliding, Valid, Closing, Compacting;
      ghost var flat := FlatAll(t0.start);
      n, dest, rcur, rbidx, wcur, wbidx, t := 0, [], first, bidx, first, bidx, t0;
      var state := FirstState(size);
      CompactingFacts(rcur, rbidx, wcur, wbidx, t, Kept(flat, str, size, t.p));
      while n < str.nelems
        invariant live <= old(live)
        invariant t.start == t0.start && t.p <= |flat| && rcur != null
        invariant Compacting(rcur, rbidx, wcur, wbidx, t, Kept(flat, str, size, t.p))
        invariant Phase(str, size, t.p, state, n)
        invariant dest == if wantDest then Taken(flat, str, size, t.p) else []
        invariant t.ro < |t.start| && t.p >= t0.p
        invariant t.p == t0.p ==> n == 0 && state.active && t == t0 && rcur == wcur == first && views == old(views)
        invariant t.p == t0.p ==> rbidx == wbidx == bidx < |t.start[t.ro]|
        invariant t.p > t0.p ==> str.nelems > 0 && (t.r == t.w ==> wbidx < rbidx)
        decreases |t.start| - t.ro, |t.start[t.ro]| - rbidx
      {
        CompactingFacts(rcur, rbidx, wcur, wbidx, t, Kept(flat, str, size, t.p));
        var next, total, out, wnext, wb, moved :=
          RemoveChunk(str, size, wantDest, state, n, rcur, rbidx, wcur, wbidx, flat, t);
        if wantDest {
          dest := dest + out;
        }
        wcur, wbidx, n, t := wnext, wb, total, moved;
        state := Advance(str, size, state, next);
        rbidx := rbidx + next;
        if rbidx == rcur.len {
          CompactingFacts(rcur, rbidx, wcur, wbidx, t, Kept(flat, str, size, t.p));
          ghost var after;
          rcur, after := NextBlock(rcur, wcur, rbidx, wbidx, t, Kept(flat, str, size, t.p));
          rbidx := 0;
          if rcur == null {
            break;
          }
          t := after;
        }
      }
      PhaseBounds(str, size, t.p, state, n);
      ScanEnd(flat, [], str, size, t.p, state, n);
    }

    /** Second phase of a removal: the rest of the read block moves down behind
        the write cursor. The code asserts that a full write block is followed
        by the read block; ok says whether that holds. */
    method CloseGap(rcur: Block, rbidx: nat, wcur: Block, wbidx: nat, ghost t: Track, ghost kept: seq<byte>)
      returns (ok: bool, wlast: Block, wlen: nat, ghost t': Track)
      requires Compacting(rcur, rbidx, wcur, wbidx, t, kept)
      modifies this`nodes, this`views, this`live, this`calls, live
      ensures Valid() && live <= old(live)
      ensures ok <==> !(t.r == t.w && wbidx == rbidx && rcur == wcur && |t.start[t.ro]| == cap)
      ensures ok ==> t'.start == t.start && t.p <= t'.p <= |FlatAll(t.start)|
      ensures ok ==> Closing(wlast, wlen, t', kept + FlatAll(t.start)[t.p..t'.p])
    {
      hide Flat, FlatAll, Cursor, Sliding, Valid, Closing, Compacting;
      ghost var flat := FlatAll(t.start);
      var from := rbidx;
      ok, wlast, wlen, t' := true, wcur, wbidx, t;
      CompactingFacts(rcur, from, wlast, wlen, t', kept);
      assert kept == kept + flat[t.p..t.p];
      while true
        invariant live == old(live) && nodes == old(nodes)
        invariant t'.start == t.start && t'.ro == t.ro && t'.r == t.r && t.p <= t'.p <= |flat|
        invariant Compacting(rcur, from, wlast, wlen, t', kept + flat[t.p..t'.p])
        invariant t.r == t.w && wbidx == rbidx ==> from == rbidx && t' == t && wlen == wbidx
        invariant !(t.r == t.w && wbidx == rbidx) ==> (t'.r == t'.w ==> wlen < from)
        decreases |t.start[t.ro]| - from
      {
        CompactingFacts(rcur, from, wlast, wlen, t', kept + flat[t.p..t'.p]);
        var next := Min(cap - wlen, rcur.len - from);
        ghost var p := t'.p;
        var wnext: Block?;
        ok, wnext, wlen, t' := MoveChunk(rcur, from, wlast, wlen, next, t', kept + flat[t.p..t'.p]);
        if !ok {
          return;
        }
        wlast := wnext;
        from := from + next;
        assert flat[t.p..p] + flat[p..t'.p] == flat[t.p..t'.p];
        assert kept + flat[t.p..p] + flat[p..t'.p] == kept + flat[t.p..t'.p];
        CompactingFacts(rcur, from, wlast, wlen, t', kept + flat[t.p..t'.p]);
        if from == rcur.len {
          break;
        }
      }
      var _, _ := NextBlock(rcur, wlast, from, wlen, t', kept + flat[t.p..t'.p]);
    }

    /** Strided removal. The code's internal assertion fails, and the program
        stops, exactly when no element is asked for and the block that holds the
        starting byte is full; in all other cases the result is the specified one. */
    method Remove(str: Stride, size: nat, wantDest: bool) returns (ok: bool, n: nat, dest: seq<byte>)
      requires Valid() && size >= 1 && str.stride >= 1
      modifies this`nodes, this`views, this`live, this`calls, live
      ensures Valid() && live <= old(live)
      ensures ok <==> !(str.nelems == 0 && InFullBlock(old(views), cap, str.start * size))
      ensures ok ==> CountsWhole(str, size, |old(Contents())|, n)
      ensures ok ==> dest == if wantDest then TakenAll(old(Contents()), str, size) else []
      ensures ok ==> Contents() == KeptAll(old(Contents()), str, size)
    {
      hide Taken, Kept, Phase, CountsWhole, TakenAll, KeptAll, FlatAll, At, Cursor, Valid, InFullBlock;
      var first, bidx, ci := Seek(str.start * size);
      if first == null {
        ScanNothing(Contents(), [], str, size);
        NotInside(views, cap, str.start * size);
        return true, 0, [];
      }
      CursorMove(views, ci, bidx, str.start * size, 0);
      ScanStart(Contents(), [], str, size);
      ok, n, dest := RemoveFrom(str, size, wantDest, first, bidx, ci, str.start * size);
    }

    /** Both phases of a removal, from the block that holds the starting byte. */
    method RemoveFrom(str: Stride, size: nat, wantDest: bool, first: Block, bidx: nat, ghost ci: nat, ghost begin: nat)
      returns (ok: bool, n: nat, dest: seq<byte>)
      requires Valid() && size >= 1 && str.stride >= 1
      requires ci < |nodes| == |views| && first == nodes[ci]
      requires Cursor(views, ci, bidx, begin) && bidx < |views[ci]| && begin <= |Contents()|
      requires Phase(str, size, begin, FirstState(size), 0)
      requires Taken(Contents(), str, size, begin) == []
      requires Kept(Contents(), str, size, begin) == Contents()[..begin]
      modifies this`nodes, this`views, this`live, this`calls, live
      ensures Valid() && live <= old(live)
      ensures ok <==> !(str.nelems == 0 && InFullBlock(old(views), cap, begin))
      ensures ok ==> CountsWhole(str, size, |old(Contents())|, n)
      ensures ok ==> dest == if wantDest then TakenAll(old(Contents()), str, size) else []
      ensures ok ==> Contents() == KeptAll(old(Contents()), str, size)
    {
      hide Taken, Kept, Phase, CountsWhole, TakenAll, KeptAll, Flat, FlatAll, Cursor, Sliding, Valid, Closing,
           Compacting, InFullBlock;
      ghost var flat := Contents();
      ghost var t := Track(views, ci, ci, ci, begin);
      BeginCompacting(first, bidx, t);
      FullBlock(views, cap, ci, bidx, begin);
      var rcur, rbidx, wcur, wbidx;
      n, dest, rcur, rbidx, wcur, wbidx, t := RemoveSelected(str, size, wantDest, first, bidx, t);
      ok := true;
      ghost var p := t.p;
      ghost var kept := Kept(flat, str, size, p);
      if rcur != null {
        CompactingFacts(rcur, rbidx, wcur, wbidx, t, kept);
        ok, wcur, wbidx, t := CloseGap(rcur, rbidx, wcur, wbidx, t, kept);
        if !ok {
          return;
        }
      } else {
        assert kept == kept + flat[p..p];
      }
      FinishRemove(wcur, wbidx, t, kept + flat[p..t.p]);
      assert flat[p..] == flat[p..t.p] + flat[t.p..];
    }

    /** A removal begins with both cursors at the same place. */
    lemma BeginCompacting(first: Block, bidx: nat, t: Track)
      requires Valid() && t.r == t.w == t.ro < |nodes| == |views| && first == nodes[t.r] && t.start == views
      requires bidx < |views[t.r]| && Cursor(views, t.ro, bidx, t.p)
      ensures t.p <= |Contents()|
      ensures Compacting(first, bidx, first, bidx, t, Contents()[..t.p])
    {
      NodeAt(t.r);
      NodeBytes(t.r, 0, bidx);
      SlideStart(views, t.r, bidx, t.p);
    }

    /** Record the write block's length: the removal is complete. */
    method FinishRemove(wcur: Block, wbidx: nat, ghost t: Track, ghost kept: seq<byte>)
      requires Closing(wcur, wbidx, t, kept)
      modifies this`views, live`len
      ensures Valid() && t.p <= |FlatAll(t.start)|
      ensures Contents() == kept + FlatAll(t.start)[t.p..]
    {
      hide Flat, FlatAll, Cursor;
      NodeAt(t.w);
      SlideDone(views, t.w, wcur.data[..wbidx], t.start, t.ro, kept, t.p);
      SetLen(wcur, wbidx, t.w);
    }

    /** What validity says about the node at place i of the chain. */
    lemma NodeAt(i: nat)
      requires Valid() && i < |nodes|
      ensures |views| == |nodes|
      ensures nodes[i].next == if i + 1 < |nodes| then nodes[i + 1] else null
      ensures nodes[i].len == |views[i]| <= cap == |nodes[i].data| && nodes[i] in live
    {
      assert Filled(nodes[i], views[i], cap);
    }

    /** The chain's nodes are exactly the cells the allocator has handed out. */
    lemma NodesLive()
      requires Valid()
      ensures forall b :: b in nodes <==> b in live
    {
    }

    lemma NextDiffers(i: nat)
      requires Valid() && i < |nodes|
      ensures nodes[i].next != nodes[i]
    {
    }

    lemma DistinctNodes(i: nat, j: nat)
      requires Valid() && i <= j < |nodes|
      ensures nodes[i] == nodes[j] <==> i == j
    {
    }

    lemma NodeBytes(i: nat, lo: nat, hi: nat)
      requires Valid() && i < |nodes| == |views| && lo <= hi <= |views[i]|
      ensures hi <= |nodes[i].data| && nodes[i].data[lo..hi] == views[i][lo..hi]
    {
      assert Filled(nodes[i], views[i], cap);
      assert nodes[i].data[..nodes[i].len][lo..hi] == nodes[i].data[lo..hi];
    }
  }

  lemma PhaseBounds(str: Stride, size: nat, p: nat, st: StrideState, done: nat)
    requires Phase(str, size, p, st, done)
    ensures st.next >= 1 && done <= str.nelems
  {
  }

  /** Place bidx of view ci is offset p of the flat sequence. */
  ghost predicate Cursor(views: seq<seq<byte>>, ci: nat, bidx: nat, p: nat) {
    ci < |views| && bidx <= |views[ci]| && p == |Flat(views, ci)| + bidx
  }

  /** Blocks i to j hold what block i held before and what was put behind it: all but
      the last are full, the last is not empty unless it is block i, and the blocks in
      front of block i are as they were. */
  ghost predicate Packed(nodes0: seq<Block>, views0: seq<seq<byte>>, nodes: seq<Block>, views: seq<seq<byte>>,
                         cap: nat, i: nat, j: nat) {
    && i <= j < |nodes| == |views| && i < |nodes0| == |views0|
    && nodes[..i + 1] == nodes0[..i + 1] && views[..i] == views0[..i]
    && (forall k :: i <= k < j ==> |views[k]| == cap)
    && (j > i ==> views[j] != []) && |views[i]| >= |views0[i]|
  }

  lemma PackedStart(nodes: seq<Block>, views: seq<seq<byte>>, cap: nat, i: nat)
    requires i < |nodes| == |views|
    ensures Packed(nodes, views, nodes, views, cap, i, i)
  {
  }

  /** One chunk more, in block j or in a new block behind it when block j is full. */
  lemma PackedStep(nodes0: seq<Block>, views0: seq<seq<byte>>, nodes: seq<Block>, views: seq<seq<byte>>,
                   nodes': seq<Block>, views': seq<seq<byte>>, cap: nat, i: nat, j: nat, j': nat)
    requires Packed(nodes0, views0, nodes, views, cap, i, j)
    requires j' < |nodes'| == |views'| && views'[j'] != [] && (j' == j || j' == j + 1)
    requires nodes'[..j + 1] == nodes[..j + 1] && views'[..j] == views[..j]
    requires j' == j + 1 ==> |views[j]| == cap
    requires |views'[j]| >= |views[j]| && (j' == j + 1 ==> views'[j] == views[j])
    ensures Packed(nodes0, views0, nodes', views', cap, i, j')
  {
    assert nodes'[..i + 1] == nodes'[..j + 1][..i + 1] == nodes[..i + 1];
    assert views'[..i] == views'[..j][..i] == views[..i];
    forall k | i <= k < j ensures |views'[k]| == cap {
      assert views'[k] == views'[..j][k] == views[k];
    }
  }

  /** Packing behind a packing, where something was put in. */
  lemma PackedTwice(nodes0: seq<Block>, views0: seq<seq<byte>>, nodes: seq<Block>, views: seq<seq<byte>>,
                    nodes': seq<Block>, views': seq<seq<byte>>, cap: nat, i: nat, j: nat, k: nat)
    requires Packed(nodes0, views0, nodes, views, cap, i, j) && Packed(nodes, views, nodes', views', cap, j, k)
    requires views[j] != []
    ensures Packed(nodes0, views0, nodes', views', cap, i, k) && views'[k] != []
  {
    PackedPrefix(nodes, nodes', i, j);
    forall m | i <= m < k ensures |views'[m]| == cap {
      if m < j {
        assert views'[m] == views'[..j][m] == views[m];
      }
    }
    assert views'[..i] == views'[..j][..i] == views[..i];
    if i < j {
      assert views'[i] == views'[..j][i] == views[i];
    }
  }

  lemma PackedPrefix(nodes: seq<Block>, nodes': seq<Block>, i: nat, j: nat)
    requires i <= j < |nodes| && j < |nodes'| && nodes'[..j + 1] == nodes[..j + 1]
    ensures nodes'[..i + 1] == nodes[..i + 1]
  {
    assert nodes'[..i + 1] == nodes'[..j + 1][..i + 1] == nodes[..i + 1];
  }

  /** Offset p lies in a block that is filled to capacity. */
  ghost predicate InFullBlock(views: seq<seq<byte>>, cap: nat, p: nat) {
    exists i: nat, b: nat :: Cursor(views, i, b, p) && b < |views[i]| == cap
  }

  /** Two bytes inserted into an array of blocks of two, and a removal of no elements at
      the start: the program stops. */
  method RemoveNothingFails() returns (ok: bool)
    ensures !ok
  {
    var b := new BlockArray(2);
    var at, end := b.Insert(0, [1, 2]);
    assert b.Contents() == [1, 2];
    FirstBlockFull(b.views, end);
    var n, dest;
    ok, n, dest := b.Remove(Stride(0, 1, 0), 1, true);
  }

  lemma FirstBlockFull(views: seq<seq<byte>>, end: nat)
    requires end + 1 == |views| && |FlatAll(views)| == 2 && forall k :: 0 <= k < end ==> |views[k]| == 2
    ensures InFullBlock(views, 2, 0)
  {
    assert Flat(views, 1) == Flat(views, 0) + views[0];
    assert Cursor(views, 0, 0, 0);
  }

  lemma FullBlock(views: seq<seq<byte>>, cap: nat, i: nat, b: nat, p: nat)
    requires Cursor(views, i, b, p) && b < |views[i]|
    ensures InFullBlock(views, cap, p) <==> |views[i]| == cap
  {
    if InFullBlock(views, cap, p) {
      var j: nat, c: nat :| Cursor(views, j, c, p) && c < |views[j]| == cap;
      if i < j {
        FlatPrefix(views, i + 1, j);
      } else if j < i {
        FlatPrefix(views, j + 1, i);
      }
    }
  }

  lemma NotInside(views: seq<seq<byte>>, cap: nat, p: nat)
    requires p >= |FlatAll(views)|
    ensures !InFullBlock(views, cap, p)
  {
    if InFullBlock(views, cap, p) {
      var i: nat, b: nat :| Cursor(views, i, b, p) && b < |views[i]| == cap;
      FlatPrefix(views, i + 1, |views|);
    }
  }

  lemma CursorMove(views: seq<seq<byte>>, ci: nat, bidx: nat, p: nat, k: nat)
    requires Cursor(views, ci, bidx, p) && bidx + k <= |views[ci]|
    ensures Cursor(views, ci, bidx + k, p + k)
    ensures p + k <= |FlatAll(views)|
    ensures FlatAll(views)[p..p + k] == views[ci][bidx..bidx + k]
  {
    FlatPrefix(views, ci + 1, |views|);
  }

  lemma CursorNext(views: seq<seq<byte>>, ci: nat, p: nat)
    requires ci < |views| && Cursor(views, ci, |views[ci]|, p)
    ensures if ci + 1 < |views| then Cursor(views, ci + 1, 0, p) else p == |FlatAll(views)|
  {
  }

  /** One step of the automaton over the bytes of one block, for Read. */
  lemma ReadStep(views: seq<seq<byte>>, str: Stride, size: nat,
                 ci: nat, bidx: nat, p: nat, st: StrideState, done: nat, k: nat)
    requires str.stride >= 1 && size >= 1 && done < str.nelems
    requires Cursor(views, ci, bidx, p) && bidx + k <= |views[ci]| && p <= |FlatAll(views)|
    requires Phase(str, size, p, st, done) && k <= st.next
    ensures p + k <= |FlatAll(views)| && Cursor(views, ci, bidx + k, p + k)
    ensures Phase(str, size, p + k, Advance(str, size, st, k), if st.active && k == st.next then done + 1 else done)
    ensures Taken(FlatAll(views), str, size, p + k)
         == if st.active then Taken(FlatAll(views), str, size, p) + views[ci][bidx..bidx + k]
            else Taken(FlatAll(views), str, size, p)
  {
    hide Taken, FlatAll, Phase, Cursor, Advance;
    CursorMove(views, ci, bidx, p, k);
    ScanChunk(FlatAll(views), str, size, p, st, done, k);
  }

  /** One step of the automaton over the bytes of one block, for Write. */
  lemma WriteStep(views: seq<seq<byte>>, flat: seq<byte>, src: seq<byte>, str: Stride, size: nat,
                  ci: nat, bidx: nat, p: nat, st: StrideState, done: nat, k: nat)
    requires str.stride >= 1 && size >= 1 && done < str.nelems
    requires Cursor(views, ci, bidx, p) && bidx + k <= |views[ci]| && p <= |flat|
    requires Phase(str, size, p, st, done) && k <= st.next
    requires |src| >= |TakenAll(flat, str, size)|
    requires FlatAll(views) == PartWritten(flat, src, str, size, p)
    ensures p + k <= |flat|
    ensures Phase(str, size, p + k, Advance(str, size, st, k), if st.active && k == st.next then done + 1 else done)
    ensures var m := |Taken(flat, str, size, p)|;
            && |Taken(flat, str, size, p + k)| == (if st.active then m + k else m) <= |src|
            && var patched := if st.active then views[ci := Splice(views[ci], bidx, src[m..m + k])] else views;
               && FlatAll(patched) == PartWritten(flat, src, str, size, p + k)
               && Cursor(patched, ci, bidx + k, p + k)
               && |patched[ci]| == |views[ci]|
  {
    hide Taken, TakenAll, PartWritten, FlatAll, Phase, Cursor, Splice, Advance;
    CursorMove(views, ci, bidx, p, k);
    ScanChunk(flat, str, size, p, st, done, k);
    TakenFits(flat, str, size, p + k);
    ScanWrite(flat, src, str, size, p, st, done, k);
    if st.active {
      var m := |Taken(flat, str, size, p)|;
      FlatPatch(views, ci, bidx, p, src[m..m + k]);
    }
  }

  lemma TakenFits(s: seq<byte>, str: Stride, size: nat, p: nat)
    requires p <= |s|
    ensures |Taken(s, str, size, p)| <= |TakenAll(s, str, size)|
  {
    TakenMonotone(s, str, size, p, |s|);
  }

  /** A new empty view does not change the flat bytes. */
  lemma FlatAlloc(views: seq<seq<byte>>, i: nat)
    requires i < |views|
    ensures var grown := views[..i + 1] + [[]] + views[i + 1..];
            && Flat(grown, i + 2) == Flat(views, i + 1)
            && grown[i + 2..] == views[i + 1..]
  {
    var grown := views[..i + 1] + [[]] + views[i + 1..];
    FlatSame(grown, views, i + 1);
  }

  /** Appending to view i appends to the flat bytes up to and including it. */
  lemma FlatAppend(views: seq<seq<byte>>, i: nat, bytes: seq<byte>)
    requires i < |views|
    ensures Flat(views[i := views[i] + bytes], i + 1) == Flat(views, i + 1) + bytes
    ensures views[i := views[i] + bytes][i + 1..] == views[i + 1..]
  {
    var longer := views[i := views[i] + bytes];
    FlatSame(longer, views, i);
    assert longer[i + 1..] == views[i + 1..];
    assert Flat(longer, i + 1) == Flat(views, i) + (views[i] + bytes);
    assert Flat(views, i + 1) + bytes == Flat(views, i) + views[i] + bytes;
    Associate(Flat(views, i), views[i], bytes);
  }

  lemma Associate(a: seq<byte>, b: seq<byte>, c: seq<byte>)
    ensures a + (b + c) == a + b + c
  {
  }

  lemma {:induction false} FlatSame(a: seq<seq<byte>>, b: seq<seq<byte>>, n: nat)
    requires n <= |a| && n <= |b| && a[..n] == b[..n]
    ensures Flat(a, n) == Flat(b, n)
  {
    if n > 0 {
      assert a[..n - 1] == a[..n][..n - 1] == b[..n][..n - 1] == b[..n - 1];
      assert a[n - 1] == a[..n][n - 1] == b[..n][n - 1] == b[n - 1];
      FlatSame(a, b, n - 1);
    }
  }

  lemma MoreBehind(views: seq<seq<byte>>, i: nat, b: nat)
    requires i < |views| && b > |views[i]| && |Flat(views, i)| + b <= |FlatAll(views)|
    ensures i + 1 < |views|
  {
  }

  /** The flat bytes are those in front of place i plus those from it on. */
  lemma {:induction false} FlatCut(views: seq<seq<byte>>, i: nat)
    requires i <= |views|
    ensures FlatAll(views) == Flat(views, i) + FlatAll(views[i..])
    decreases |views|
  {
    if i < |views| {
      var n := |views| - 1;
      var most := views[..n];
      FlatCut(most, i);
      FlatSame(views, most, n);
      FlatSame(views, most, i);
      assert views[i..][..n - i] == most[i..];
      FlatSame(views[i..], most[i..], n - i);
    }
  }

  /** Cutting view i at place b cuts the flat bytes at the same offset. */
  lemma InsertSplit(views: seq<seq<byte>>, i: nat, b: nat, p: nat)
    requires Cursor(views, i, b, p)
    ensures p <= |FlatAll(views)|
    ensures var cut := views[i := views[i][..b]];
            && Flat(cut, i + 1) == FlatAll(views)[..p]
            && views[i][b..] + FlatAll(cut[i + 1..]) == FlatAll(views)[p..]
            && cut[..i] == views[..i] && cut[i + 1..] == views[i + 1..]
  {
    var cut := views[i := views[i][..b]];
    FlatSame(cut, views, i);
    FlatCut(views, i + 1);
    assert cut[i + 1..] == views[i + 1..];
    assert FlatAll(views) == Flat(views, i) + views[i][..b] + (views[i][b..] + FlatAll(views[i + 1..]));
  }

  /** State of a removal under way. Everything in front of place w is final; acc
      are the bytes already written at place w, the write cursor's block; r is
      the read cursor's place, w or its successor; from rbidx of that block on
      all is as at the start, when its place was ro. */
  ghost predicate Sliding(views: seq<seq<byte>>, w: nat, r: nat, acc: seq<byte>,
                          start: seq<seq<byte>>, ro: nat, rbidx: nat, kept: seq<byte>) {
    && r < |views| && (r == w || r == w + 1)
    && ro < |start|
    && rbidx <= |views[r]| == |start[ro]|
    && views[r][rbidx..] == start[ro][rbidx..]
    && views[r + 1..] == start[ro + 1..]
    && Flat(views, w) + acc == kept
    && (r == w ==> |acc| <= rbidx)
  }

  /** Where the cursors of a removal stand: the chain's places r and w of the
      read and write block, the views at the start, the read block's place ro
      among them, and the read cursor's offset p in the flat bytes. */
  datatype Track = Track(start: seq<seq<byte>>, ro: nat, w: nat, r: nat, p: nat)

  lemma SlideBounds(views: seq<seq<byte>>, w: nat, r: nat, acc: seq<byte>,
                    start: seq<seq<byte>>, ro: nat, rbidx: nat, kept: seq<byte>)
    requires Sliding(views, w, r, acc, start, ro, rbidx, kept)
    ensures r < |views| && (r == w || r == w + 1) && ro < |start|
    ensures rbidx <= |views[r]| == |start[ro]| && |views| - r == |start| - ro
    ensures r == w ==> |acc| <= rbidx
  {
    assert |views[r + 1..]| == |start[ro + 1..]|;
  }

  lemma SlideStart(views: seq<seq<byte>>, i: nat, b: nat, p: nat)
    requires Cursor(views, i, b, p)
    ensures p <= |FlatAll(views)|
    ensures Sliding(views, i, i, views[i][..b], views, i, b, FlatAll(views)[..p])
  {
    InsertSplit(views, i, b, p);
    FlatSame(views, views[i := views[i][..b]], i);
  }

  lemma SlideTake(views: seq<seq<byte>>, w: nat, r: nat, acc: seq<byte>,
                  start: seq<seq<byte>>, ro: nat, rbidx: nat, kept: seq<byte>, k: nat)
    requires Sliding(views, w, r, acc, start, ro, rbidx, kept) && rbidx + k <= |views[r]|
    ensures Sliding(views, w, r, acc, start, ro, rbidx + k, kept)
    ensures views[r][rbidx..rbidx + k] == start[ro][rbidx..rbidx + k]
  {
    hide Flat;
    SameRest(views[r], start[ro], rbidx, k);
  }

  /** What is alike from a on is alike in the next k bytes and behind them. */
  lemma SameRest(v: seq<byte>, s: seq<byte>, a: nat, k: nat)
    requires |v| == |s| && a + k <= |v| && v[a..] == s[a..]
    ensures v[a..a + k] == s[a..a + k] && v[a + k..] == s[a + k..]
  {
    assert v[a..a + k] == v[a..][..k] && s[a..a + k] == s[a..][..k];
    assert v[a + k..] == v[a..][k..] && s[a + k..] == s[a..][k..];
  }

  lemma SlideMove(views: seq<seq<byte>>, w: nat, r: nat, acc: seq<byte>,
                  start: seq<seq<byte>>, ro: nat, rbidx: nat, kept: seq<byte>, k: nat, v: seq<byte>)
    requires Sliding(views, w, r, acc, start, ro, rbidx, kept) && rbidx + k <= |views[r]|
    requires w < |views| && |v| == |views[w]|
    requires r == w ==> v[rbidx + k..] == views[w][rbidx + k..]
    ensures var chunk := start[ro][rbidx..rbidx + k];
            Sliding(views[w := v], w, r, acc + chunk, start, ro, rbidx + k, kept + chunk)
  {
    SlideTake(views, w, r, acc, start, ro, rbidx, kept, k);
    FlatSame(views[w := v], views, w);
    assert views[w := v][r + 1..] == views[r + 1..];
    var chunk := start[ro][rbidx..rbidx + k];
    assert Flat(views, w) + (acc + chunk) == (Flat(views, w) + acc) + chunk;
  }

  /** The write block is full: the write cursor moves on to the read block. */
  lemma SlideFull(views: seq<seq<byte>>, w: nat, r: nat, acc: seq<byte>,
                  start: seq<seq<byte>>, ro: nat, rbidx: nat, kept: seq<byte>)
    requires Sliding(views, w, r, acc, start, ro, rbidx, kept) && r == w + 1
    ensures Sliding(views[w := acc], w + 1, r, [], start, ro, rbidx, kept)
  {
    FlatSame(views[w := acc], views, w);
    assert views[w := acc][r + 1..] == views[r + 1..];
  }

  /** The read block is exhausted and stays, because the write cursor is in it. */
  lemma SlidePass(views: seq<seq<byte>>, w: nat, acc: seq<byte>,
                  start: seq<seq<byte>>, ro: nat, kept: seq<byte>)
    requires w < |views| && Sliding(views, w, w, acc, start, ro, |views[w]|, kept)
    ensures |views| - w == |start| - ro
    ensures Flat(views, w) + acc == kept && views[w + 1..] == start[ro + 1..]
    ensures w + 1 < |views| ==> Sliding(views, w, w + 1, acc, start, ro + 1, 0, kept)
  {
    assert |views[w + 1..]| == |start[ro + 1..]|;
    if w + 1 < |views| {
      assert views[w + 1] == views[w + 1..][0] == start[ro + 1..][0] == start[ro + 1];
      assert views[w + 2..] == views[w + 1..][1..] == start[ro + 1..][1..] == start[ro + 2..];
    }
  }

  /** The read block is exhausted and dropped. */
  lemma SlideDrop(views: seq<seq<byte>>, w: nat, acc: seq<byte>,
                  start: seq<seq<byte>>, ro: nat, kept: seq<byte>)
    requires w + 1 < |views| && Sliding(views, w, w + 1, acc, start, ro, |views[w + 1]|, kept)
    ensures |views| - (w + 1) == |start| - ro
    ensures var fewer := views[..w + 1] + views[w + 2..];
            && Flat(fewer, w) + acc == kept
            && fewer[w + 1..] == start[ro + 1..]
            && (w + 1 < |fewer| ==> Sliding(fewer, w, w + 1, acc, start, ro + 1, 0, kept))
  {
    var fewer := views[..w + 1] + views[w + 2..];
    FlatSame(fewer, views, w);
    assert fewer[w + 1..] == views[w + 2..] == start[ro + 1..];
    assert |views[w + 2..]| == |start[ro + 1..]|;
    if w + 1 < |fewer| {
      assert fewer[w + 1] == fewer[w + 1..][0] == start[ro + 1..][0] == start[ro + 1];
      assert fewer[w + 2..] == fewer[w + 1..][1..] == start[ro + 1..][1..] == start[ro + 2..];
    }
  }

  /** Setting the write block's length completes the removal. */
  lemma SlideDone(views: seq<seq<byte>>, w: nat, acc: seq<byte>,
                  start: seq<seq<byte>>, ro: nat, kept: seq<byte>, p: nat)
    requires w < |views| && ro < |start| && Flat(views, w) + acc == kept
    requires views[w + 1..] == start[ro + 1..]
    requires Cursor(start, ro, |start[ro]|, p)
    ensures p <= |FlatAll(start)|
    ensures FlatAll(views[w := acc]) == kept + FlatAll(start)[p..]
  {
    var closed := views[w := acc];
    FlatSame(closed, views, w);
    assert closed[w + 1..] == views[w + 1..];
    FlatCut(closed, w + 1);
    FlatCut(start, ro + 1);
  }

  /** Overwriting inside one view overwrites the same bytes of the flat sequence. */
  lemma FlatPatch(views: seq<seq<byte>>, i: nat, b: nat, p: nat, bytes: seq<byte>)
    requires Cursor(views, i, b, p) && b + |bytes| <= |views[i]|
    ensures var patched := views[i := Splice(views[i], b, bytes)];
            && p + |bytes| <= |FlatAll(views)|
            && FlatAll(patched) == Splice(FlatAll(views), p, bytes)
            && Cursor(patched, i, b + |bytes|, p + |bytes|)
  {
    hide Splice;
    var patched := views[i := Splice(views[i], b, bytes)];
    FlatSame(patched, views, i);
    FlatCut(views, i + 1);
    FlatCut(patched, i + 1);
    assert patched[i + 1..] == views[i + 1..];
    SpliceRight(Flat(views, i), views[i], b, bytes);
    SpliceLeft(Flat(views, i) + views[i], FlatAll(views[i + 1..]), p, bytes);
  }

  lemma SpliceLeft(s: seq<byte>, t: seq<byte>, at: nat, bytes: seq<byte>)
    requires at + |bytes| <= |s|
    ensures Splice(s, at, bytes) + t == Splice(s + t, at, bytes)
  {
  }

  lemma SpliceRight(s: seq<byte>, t: seq<byte>, at: nat, bytes: seq<byte>)
    requires at + |bytes| <= |t|
    ensures s + Splice(t, at, bytes) == Splice(s + t, |s| + at, bytes)
  {
  }

  lemma {:induction false} FlatPrefix(views: seq<seq<byte>>, m: nat, n: nat)
    requires m <= n <= |views|
    ensures |Flat(views, m)| <= |Flat(views, n)|
    ensures Flat(views, n)[..|Flat(views, m)|] == Flat(views, m)
    decreases n
  {
    if m < n {
      FlatPrefix(views, m, n - 1);
    }
  }
}
