/** Whole histories of the slab allocator, and the block array's own history of
    allocations played on it. */
module SlabRuns {
  import opened SlabAllocs
  import opened BlockArrays
  import Lockstep

  /** The system: where it puts a new slab in the n-th call, given the slabs in use. */
  type System = (nat, set<nat>) -> nat

  /** A new slab lies at a proper address and apart from those in use. An address may be
      used again after its slab was given back. */
  ghost predicate Places(os: System, span: nat) {
    forall n: nat, used: set<nat> :: os(n, used) > 0 && forall b :: b in used ==> Apart(b, os(n, used), span)
  }

  ghost function BasesOf(slabs: seq<Slab>): set<nat> {
    set s | s in slabs :: s.base
  }

  method BasesInUse(a: SlabAlloc) returns (used: set<nat>)
    requires a.Sound()
    ensures used == BasesOf(a.slabs)
  {
    hide SlabAlloc.Sound;
    a.HeadAt();
    used := {};
    var s := a.head;
    ghost var i := 0;
    while s != null
      invariant i <= |a.slabs| && s == (if i < |a.slabs| then a.slabs[i] else null)
      invariant used == BasesOf(a.slabs[..i])
      decreases |a.slabs| - i
    {
      a.ChainAt(i);
      assert a.slabs[..i + 1] == a.slabs[..i] + [a.slabs[i]];
      used := used + {s.base};
      s := s.next;
      i := i + 1;
    }
    assert a.slabs[..|a.slabs|] == a.slabs;
  }

  /** An allocation, with a new slab from the system if one is needed. */
  method Take(a: SlabAlloc, os: System, n: nat) returns (p: nat)
    requires a.Valid() && Places(os, Span(a.size, a.cap))
    modifies a, a.slabs
    ensures a.Valid() && p !in old(a.Live()) && a.Live() == old(a.Live()) + {p}
    ensures forall s :: s in a.slabs ==> s in old(a.slabs) || fresh(s)
  {
    hide SlabAlloc.Sound, Span;
    var used := BasesInUse(a);
    var base := os(n, used);
    forall i | 0 <= i < |a.slabs| ensures Apart(a.slabs[i].base, base, Span(a.size, a.cap)) {
      assert a.slabs[i].base in used;
    }
    p := a.Alloc(base);
  }

  // ------------------------------------------------------- allocator histories

  /** Free gives back the k-th of the cells held, in the order in which they were handed out. */
  datatype Op = Alloc | Free(k: nat)

  ghost predicate AllFit(n: nat, ops: seq<Op>)
    decreases |ops|
  {
    ops == [] ||
    match ops[0]
    case Alloc => AllFit(n + 1, ops[1..])
    case Free(k) => k < n && AllFit(n - 1, ops[1..])
  }

  ghost function Count(n: nat, ops: seq<Op>): nat
    requires AllFit(n, ops)
    decreases |ops|
  {
    if ops == [] then n else if ops[0].Alloc? then Count(n + 1, ops[1..]) else Count(n - 1, ops[1..])
  }

  ghost predicate NoneTwice(held: seq<nat>) {
    forall i, j :: 0 <= i < j < |held| ==> held[i] != held[j]
  }

  lemma NextOp(n: nat, ops: seq<Op>, i: nat)
    requires i < |ops| && AllFit(n, ops[i..])
    ensures match ops[i]
            case Alloc => AllFit(n + 1, ops[i + 1..]) && Count(n, ops[i..]) == Count(n + 1, ops[i + 1..])
            case Free(k) => k < n && AllFit(n - 1, ops[i + 1..]) && Count(n, ops[i..]) == Count(n - 1, ops[i + 1..])
  {
    assert ops[i..][1..] == ops[i + 1..];
  }

  lemma Appended(held: seq<nat>, p: nat)
    requires NoneTwice(held) && p !in Members(held)
    ensures NoneTwice(held + [p]) && Members(held + [p]) == Members(held) + {p}
  {
    assert forall i :: 0 <= i < |held| ==> held[i] in Members(held);
  }

  lemma Dropped(held: seq<nat>, k: nat)
    requires NoneTwice(held) && k < |held|
    ensures held[k] in Members(held)
    ensures NoneTwice(held[..k] + held[k + 1..]) && Members(held[..k] + held[k + 1..]) == Members(held) - {held[k]}
  {
    assert held == held[..k] + [held[k]] + held[k + 1..];
  }

  /** For every history of allocations and frees, every system, size and capacity: the
      cells handed out and not freed are exactly the live ones, each held once, and no
      two of them share a byte. */
  method Replay(size: nat, cap: nat, os: System, ops: seq<Op>) returns (a: SlabAlloc, held: seq<nat>)
    requires size >= WORD && cap >= 1 && Places(os, Span(CellSize(size), cap)) && AllFit(0, ops)
    ensures a.Valid() && a.size == CellSize(size) && a.cap == cap
    ensures |held| == Count(0, ops) && NoneTwice(held) && a.Live() == Members(held)
    ensures forall i, j :: 0 <= i < j < |held| ==> Apart(held[i], held[j], a.size)
  {
    hide SlabAlloc.Valid, Span, NoneTwice, Members, AllFit, Count, Apart, Places;
    a := new SlabAlloc(size, cap);
    held := [];
    NothingHeld();
    var i := 0;
    assert ops[0..] == ops;
    while i < |ops|
      invariant i <= |ops| && fresh(a) && fresh(a.slabs)
      invariant a.Valid() && a.size == CellSize(size) && a.cap == cap
      invariant NoneTwice(held) && a.Live() == Members(held)
      invariant AllFit(|held|, ops[i..]) && Count(|held|, ops[i..]) == Count(0, ops)
    {
      NextOp(|held|, ops, i);
      match ops[i] {
        case Alloc =>
          ghost var before := a.slabs;
          var p := Take(a, os, i);
          assert forall j :: 0 <= j < |a.slabs| ==> a.slabs[j] in before || fresh(a.slabs[j]);
          Appended(held, p);
          held := held + [p];
        case Free(k) =>
          Dropped(held, k);
          ghost var before := a.slabs;
          var _ := a.Free(held[k]);
          assert forall j :: 0 <= j < |a.slabs| ==> a.slabs[j] in before;
          held := held[..k] + held[k + 1..];
      }
      i := i + 1;
    }
    LastCount(|held|, ops);
    HeldApart(a, held);
  }

  lemma NothingHeld()
    ensures NoneTwice([]) && Members([]) == {}
  {
  }

  lemma LastCount(n: nat, ops: seq<Op>)
    requires AllFit(n, ops[|ops|..])
    ensures Count(n, ops[|ops|..]) == n
  {
  }

  lemma HeldApart(a: SlabAlloc, held: seq<nat>)
    requires a.Valid() && NoneTwice(held) && a.Live() == Members(held)
    ensures forall i, j :: 0 <= i < j < |held| ==> Apart(held[i], held[j], a.size)
  {
    hide SlabAlloc.Sound, Apart;
    forall i, j | 0 <= i < j < |held| ensures Apart(held[i], held[j], a.size) {
      assert held[i] in Members(held) && held[j] in Members(held);
      a.LiveCellsApart(held[i], held[j]);
    }
  }

  /** n allocations and then any n frees that name a cell still held are a history. */
  lemma {:induction false} AllocationsFit(n: nat, ops: seq<Op>, m: nat)
    requires AllFit(n + m, ops)
    ensures AllFit(n, seq(m, _ => Alloc) + ops) && Count(n, seq(m, _ => Alloc) + ops) == Count(n + m, ops)
    decreases m
  {
    var all := seq(m, _ => Alloc) + ops;
    if m == 0 {
      assert all == ops;
    } else {
      assert all[1..] == seq(m - 1, _ => Alloc) + ops;
      AllocationsFit(n + 1, ops, m - 1);
    }
  }

  lemma {:induction false} FreesFit(n: nat, ops: seq<Op>)
    requires |ops| <= n && forall i :: 0 <= i < |ops| ==> ops[i].Free? && ops[i].k < n - i
    ensures AllFit(n, ops) && Count(n, ops) == n - |ops|
    decreases |ops|
  {
    if ops != [] {
      FreesFit(n - 1, ops[1..]);
    }
  }

  /** There is such a system: it puts a slab behind all slabs in use. */
  lemma SystemExists(span: nat) returns (os: System)
    ensures Places(os, span)
  {
    os := (n, used) => Behind(used, span);
    forall n: nat, used: set<nat>
      ensures os(n, used) > 0 && forall b :: b in used ==> Apart(b, os(n, used), span)
    {
      BehindAll(used, span);
    }
  }

  ghost function Behind(used: set<nat>, span: nat): nat {
    Largest(used) + span + 1
  }

  ghost function Largest(used: set<nat>): nat {
    if used == {} then 0
    else
      var b :| b in used;
      var rest := Largest(used - {b});
      if b > rest then b else rest
  }

  lemma {:induction false} LargestIs(used: set<nat>, b: nat)
    requires b in used
    ensures b <= Largest(used)
  {
    var c :| c in used && Largest(used) == (var rest := Largest(used - {c}); if c > rest then c else rest);
    if b != c {
      LargestIs(used - {c}, b);
    }
  }

  lemma BehindAll(used: set<nat>, span: nat)
    ensures Behind(used, span) > 0 && forall b :: b in used ==> Apart(b, Behind(used, span), span)
  {
    forall b | b in used ensures Apart(b, Behind(used, span), span) {
      LargestIs(used, b);
    }
  }

  // ------------------------------------------------- the block array on slabs

  ghost predicate Injective(at: map<Block, nat>) {
    forall b, c :: b in at && c in at && b != c ==> at[b] != at[c]
  }

  lemma Placed(at: map<Block, nat>, b: Block, p: nat)
    requires Injective(at) && b !in at && p !in at.Values
    ensures Injective(at[b := p]) && at[b := p].Values == at.Values + {p}
  {
    forall x | x in at.Values + {p} ensures x in at[b := p].Values {
      if x in at.Values {
        var c :| c in at && at[c] == x;
        assert at[b := p][c] == x;
      } else {
        assert at[b := p][b] == x;
      }
    }
  }

  lemma Vacated(at: map<Block, nat>, b: Block)
    requires Injective(at) && b in at
    ensures Injective(at - {b}) && (at - {b}).Values == at.Values - {at[b]}
  {
    forall x | x in at.Values - {at[b]} ensures x in (at - {b}).Values {
      var c :| c in at && at[c] == x;
      assert (at - {b})[c] == x;
    }
  }

  lemma NextCall(calls: seq<Call>, i: nat)
    requires i < |calls| && Lawful(calls[..i + 1])
    ensures Lawful(calls[..i])
    ensures match calls[i]
            case Take(b) =>
              b !in Outstanding(calls[..i]) && Outstanding(calls[..i + 1]) == Outstanding(calls[..i]) + {b}
            case Give(b) => b in Outstanding(calls[..i]) && Outstanding(calls[..i + 1]) == Outstanding(calls[..i]) - {b}
  {
    assert calls[..i + 1][..i] == calls[..i];
  }

  lemma {:induction false} LawfulPrefix(calls: seq<Call>, i: nat)
    requires Lawful(calls) && i <= |calls|
    ensures Lawful(calls[..i])
    decreases |calls|
  {
    if i == |calls| {
      assert calls[..i] == calls;
    } else {
      LawfulPrefix(calls[..|calls| - 1], i);
      assert calls[..|calls| - 1][..i] == calls[..i];
    }
  }

  /** Play the allocator calls of a block array on a slab allocator. */
  method Play(calls: seq<Call>, size: nat, cap: nat, os: System) returns (a: SlabAlloc, at: map<Block, nat>)
    requires size >= WORD && cap >= 1 && Places(os, Span(CellSize(size), cap)) && Lawful(calls)
    ensures a.Valid() && a.size == CellSize(size)
    ensures at.Keys == Outstanding(calls) && Injective(at) && at.Values == a.Live()
  {
    hide SlabAlloc.Valid, Span, Injective, Outstanding, Lawful, Places;
    a := new SlabAlloc(size, cap);
    at := map[];
    NoCalls(calls);
    var i := 0;
    while i < |calls|
      invariant i <= |calls| && fresh(a) && fresh(a.slabs)
      invariant a.Valid() && a.size == CellSize(size) && a.cap == cap
      invariant at.Keys == Outstanding(calls[..i]) && Injective(at) && at.Values == a.Live()
    {
      LawfulPrefix(calls, i + 1);
      NextCall(calls, i);
      match calls[i] {
        case Take(b) =>
          ghost var before := a.slabs;
          var p := Take(a, os, i);
          assert forall j :: 0 <= j < |a.slabs| ==> a.slabs[j] in before || fresh(a.slabs[j]);
          Placed(at, b, p);
          at := at[b := p];
        case Give(b) =>
          Vacated(at, b);
          ghost var before := a.slabs;
          var _ := a.Free(at[b]);
          assert forall j :: 0 <= j < |a.slabs| ==> a.slabs[j] in before;
          at := at - {b};
      }
      i := i + 1;
    }
    assert calls[..|calls|] == calls;
  }

  lemma NoCalls(calls: seq<Call>)
    ensures Outstanding(calls[..0]) == {} && Injective(map[])
  {
  }

  /** The block array on its slab allocator: after every history of operations in scope,
      the addresses of the blocks in the list are exactly the allocator's live cells, one
      for each block, and no two blocks share a byte. */
  method BlocksOnSlabs(capPerNode: nat, ops: seq<Lockstep.Op>, size: nat, cap: nat, os: System)
    returns (b: BlockArray, a: SlabAlloc, at: map<Block, nat>)
    requires capPerNode > 0 && Lockstep.AllInScope([], ops)
    requires size >= WORD && cap >= 1 && Places(os, Span(CellSize(size), cap))
    ensures b.Valid() && a.Valid() && b.Contents() == Lockstep.Final([], ops)
    ensures forall x :: x in at <==> x in b.nodes
    ensures Injective(at) && at.Values == a.Live()
    ensures forall x, y :: x in at && y in at && x != y ==> Apart(at[x], at[y], a.size)
  {
    hide Span, Places, Injective, Apart, Lockstep.AllInScope, Lockstep.Final;
    var f, x, y;
    b, f, x, y := Lockstep.RunBoth(capPerNode, ops);
    a, at := Play(b.calls, size, cap, os);
    b.NodesLive();
    BlocksApart(a, at);
  }

  lemma BlocksApart(a: SlabAlloc, at: map<Block, nat>)
    requires a.Valid() && Injective(at) && at.Values == a.Live()
    ensures forall x, y :: x in at && y in at && x != y ==> Apart(at[x], at[y], a.size)
  {
    hide SlabAlloc.Sound, Apart;
    forall x, y | x in at && y in at && x != y ensures Apart(at[x], at[y], a.size) {
      assert at[x] in at.Values && at[y] in at.Values;
      a.LiveCellsApart(at[x], at[y]);
    }
  }
}
