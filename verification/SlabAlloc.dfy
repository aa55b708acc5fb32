/** The slab allocator: slabs of equal cells, each with a freelist threaded through
    its free cells, in a doubly linked list with a cached current slab.

    Addresses are numbers, 0 being the null pointer. mem holds words by address: the
    allocator writes freelist links to the first words of free cells, the owner of a
    live cell any word within it. */
module SlabAllocs {

  /** The bytes of a pointer. */
  const WORD: nat := 8

  /** A size rounded up to whole words. */
  function CellSize(size: nat): (r: nat)
    ensures r % 8 == 0 && size <= r < size + 8
  {
    (size + WORD - 1) / WORD * WORD
  }

  /** The region a slab's cells occupy is [base, base + Span(size, cap)). */
  ghost function Span(size: nat, n: nat): nat {
    if n == 0 then 0 else Span(size, n - 1) + size
  }

  /** The addresses of the first n cells. */
  ghost function Cells(base: nat, size: nat, n: nat): set<nat> {
    if n == 0 then {} else Cells(base, size, n - 1) + {base + Span(size, n - 1)}
  }

  lemma {:induction false} SpanClosed(size: nat, n: nat)
    ensures Span(size, n) == n * size
  {
    if n > 0 {
      SpanClosed(size, n - 1);
      assert n * size == (n - 1) * size + size;
    }
  }

  lemma {:induction false} CellsInRegion(base: nat, size: nat, n: nat, p: nat)
    requires size >= 1 && p in Cells(base, size, n)
    ensures base <= p && p + size <= base + Span(size, n)
  {
    if p in Cells(base, size, n - 1) {
      CellsInRegion(base, size, n - 1, p);
    }
  }

  /** Memory of span bytes from address a on and as much from b on do not overlap. */
  ghost predicate Apart(a: nat, b: nat, span: nat) {
    a + span <= b || b + span <= a
  }

  lemma {:induction false} CellsApart(base: nat, size: nat, n: nat, p: nat, q: nat)
    requires size >= 1 && p in Cells(base, size, n) && q in Cells(base, size, n) && p != q
    ensures Apart(p, q, size)
  {
    if p in Cells(base, size, n - 1) {
      CellsInRegion(base, size, n - 1, p);
      if q in Cells(base, size, n - 1) {
        CellsApart(base, size, n - 1, p, q);
      }
    } else {
      CellsInRegion(base, size, n - 1, q);
    }
  }

  lemma {:induction false} CellsCounted(base: nat, size: nat, n: nat)
    requires size >= 1
    ensures |Cells(base, size, n)| == n
  {
    if n > 0 {
      CellsCounted(base, size, n - 1);
      if base + Span(size, n - 1) in Cells(base, size, n - 1) {
        CellsInRegion(base, size, n - 1, base + Span(size, n - 1));
      }
    }
  }

  class Slab {
    const base: nat
    var freelist: nat
    var next: Slab?
    var prev: Slab?
    var used: nat
    /** The free cells in freelist order, and the cells handed out. */
    ghost var free: seq<nat>
    ghost var live: set<nat>

    constructor (base: nat)
      ensures this.base == base && freelist == 0 && next == null && prev == null && used == 0
      ensures free == [] && live == {}
    {
      this.base := base;
      freelist, next, prev, used, free, live := 0, null, null, 0, [], {};
    }
  }

  /** first is the head of the freelist that runs through the cells of free. */
  ghost predicate Threaded(first: nat, free: seq<nat>, mem: map<nat, nat>) {
    && first == Nth(free, 0)
    && forall i :: 0 <= i < |free| ==> Linked(free, mem, i)
  }

  ghost predicate Linked(free: seq<nat>, mem: map<nat, nat>, i: nat)
    requires i < |free|
  {
    free[i] != 0 && free[i] in mem && mem[free[i]] == Nth(free, i + 1)
  }

  /** The i-th cell of the list, or null behind its end. */
  ghost function Nth(free: seq<nat>, i: nat): nat {
    if i < |free| then free[i] else 0
  }

  ghost predicate NoRepeat(free: seq<nat>) {
    forall i, j :: 0 <= i < j < |free| ==> free[i] != free[j]
  }

  ghost function Members(free: seq<nat>): set<nat> {
    set p | p in free
  }

  /** The slab's cells split exactly into the acyclic freelist and the live cells. */
  ghost predicate SlabOk(s: Slab, mem: map<nat, nat>, size: nat, cap: nat)
    reads s`freelist, s`used, s`free, s`live
  {
    && s.base > 0
    && Threaded(s.freelist, s.free, mem)
    && Split(s.free, s.live, Cells(s.base, size, cap))
    && |s.live| == s.used
  }

  ghost predicate Split(free: seq<nat>, live: set<nat>, cells: set<nat>) {
    NoRepeat(free) && live !! Members(free) && live + Members(free) == cells
  }

  /** slabs is the doubly linked list from head on. */
  ghost predicate Chain(head: Slab?, slabs: seq<Slab>)
    reads slabs`next, slabs`prev
  {
    && head == (if slabs == [] then null else slabs[0])
    && (slabs != [] ==> slabs[0].prev == null && slabs[|slabs| - 1].next == null)
    && (forall i {:trigger slabs[i].next} :: 0 <= i < |slabs| - 1 ==> slabs[i].next == slabs[i + 1])
    && (forall i {:trigger slabs[i].prev} :: 1 <= i < |slabs| ==> slabs[i].prev == slabs[i - 1])
    && (forall i, j :: 0 <= i < j < |slabs| ==> slabs[i] != slabs[j])
  }

  /** Link a new slab in front of the list. */
  method LinkFirst(s: Slab, head: Slab?, ghost slabs: seq<Slab>)
    requires Chain(head, slabs) && s !in slabs
    modifies s`prev, s`next, slabs`prev
    ensures Chain(s, [s] + slabs)
  {
    s.prev := null;
    s.next := head;
    if head != null {
      assert head.prev == null;
      head.prev := s;
    }
  }

  /** Take s, at place i, out of the list; the new head is returned. */
  method Unlink(head: Slab?, s: Slab, ghost slabs: seq<Slab>, ghost i: nat) returns (newHead: Slab?)
    requires Chain(head, slabs) && i < |slabs| && s == slabs[i]
    modifies slabs`next, slabs`prev
    ensures Chain(newHead, slabs[..i] + slabs[i + 1..])
  {
    assert i > 0 ==> slabs[i].prev == slabs[i - 1];
    assert i + 1 < |slabs| ==> slabs[i].next == slabs[i + 1];
    newHead := head;
    if s == head {
      newHead := s.next;
    }
    if s.prev != null {
      s.prev.next := s.next;
    }
    if s.next != null {
      s.next.prev := s.prev;
    }
  }

  lemma NothingLive(s: Slab, mem: map<nat, nat>, size: nat, cap: nat)
    requires SlabOk(s, mem, size, cap) && s.used == 0
    ensures s.live == {}
  {
  }

  lemma NullMeansEmpty(first: nat, free: seq<nat>, mem: map<nat, nat>)
    requires Threaded(first, free, mem)
    ensures first == 0 <==> free == []
  {
    assert free != [] ==> Linked(free, mem, 0);
  }

  lemma FullUsed(s: Slab, mem: map<nat, nat>, size: nat, cap: nat)
    requires size >= 1 && cap >= 1 && SlabOk(s, mem, size, cap) && s.freelist == 0
    ensures s.used == cap
  {
    NullMeansEmpty(s.freelist, s.free, mem);
    CellsCounted(s.base, size, cap);
    assert s.live == Cells(s.base, size, cap);
  }

  lemma StaysIn(slabs: seq<Slab>, i: nat, s: Slab)
    requires i < |slabs| && s in slabs && s != slabs[i]
    ensures s in slabs[..i] + slabs[i + 1..]
  {
  }

  /** Every slab is in order and the slabs' regions do not overlap. */
  ghost predicate AllOk(slabs: seq<Slab>, mem: map<nat, nat>, size: nat, cap: nat)
    reads slabs`freelist, slabs`used, slabs`free, slabs`live
  {
    && (forall i :: 0 <= i < |slabs| ==> SlabOk(slabs[i], mem, size, cap))
    && (forall i, j :: 0 <= i < j < |slabs| ==> Apart(slabs[i].base, slabs[j].base, Span(size, cap)))
  }

  /** owner says which slab each live cell belongs to. */
  ghost predicate Owned(slabs: seq<Slab>, owner: map<nat, Slab>)
    reads slabs`live
  {
    && (forall p :: p in owner ==> owner[p] in slabs && p in owner[p].live)
    && (forall i, p :: 0 <= i < |slabs| && p in slabs[i].live ==> p in owner && owner[p] == slabs[i])
  }

  /** The same, from the live cells of the slabs at some earlier time. */
  ghost predicate OwnedWas(slabs: seq<Slab>, lives: seq<set<nat>>, owner: map<nat, Slab>) {
    && |lives| == |slabs|
    && (forall p :: p in owner ==> exists i :: 0 <= i < |slabs| && owner[p] == slabs[i] && p in lives[i])
    && (forall i, p :: 0 <= i < |slabs| && p in lives[i] ==> p in owner && owner[p] == slabs[i])
  }

  lemma OwnedNow(slabs: seq<Slab>, owner: map<nat, Slab>) returns (lives: seq<set<nat>>)
    requires Owned(slabs, owner)
    ensures OwnedWas(slabs, lives, owner) && |lives| == |slabs|
    ensures forall i :: 0 <= i < |slabs| ==> lives[i] == slabs[i].live
  {
    lives := seq(|slabs|, i requires 0 <= i < |slabs| reads slabs => slabs[i].live);
    forall p | p in owner ensures exists i :: 0 <= i < |slabs| && owner[p] == slabs[i] && p in lives[i] {
      var i :| 0 <= i < |slabs| && owner[p] == slabs[i];
      assert p in lives[i];
    }
  }

  /** Slab i has gained the live cell p. */
  lemma OwnedMore(slabs: seq<Slab>, lives: seq<set<nat>>, owner: map<nat, Slab>, i: nat, p: nat)
    requires OwnedWas(slabs, lives, owner) && i < |slabs| == |lives| && p !in owner
    requires slabs[i].live == lives[i] + {p} && forall j :: 0 <= j < |slabs| && j != i ==> slabs[j].live == lives[j]
    ensures Owned(slabs, owner[p := slabs[i]])
  {
  }

  /** Slab i has lost the live cell p. */
  lemma OwnedLess(slabs: seq<Slab>, lives: seq<set<nat>>, owner: map<nat, Slab>, i: nat, p: nat)
    requires OwnedWas(slabs, lives, owner) && i < |slabs| == |lives| && p in lives[i]
    requires slabs[i].live == lives[i] - {p} && forall j :: 0 <= j < |slabs| && j != i ==> slabs[j].live == lives[j]
    requires forall j :: 0 <= j < |slabs| && j != i ==> slabs[j] != slabs[i]
    ensures Owned(slabs, owner - {p})
  {
    forall j, q | 0 <= j < |slabs| && q in slabs[j].live ensures q in owner - {p} && owner[q] == slabs[j] {
      assert q in lives[j];
      assert owner[q] == slabs[j] && owner[p] == slabs[i];
    }
  }

  class SlabAlloc {
    const size: nat
    const cap: nat
    var head: Slab?
    var current: Slab?
    var mem: map<nat, nat>
    ghost var slabs: seq<Slab>
    ghost var owner: map<nat, Slab>

    /** All of the invariant but that only a sole slab may be empty. */
    ghost predicate Sound()
      reads this, slabs
    {
      && size >= 1 && cap >= 1
      && Chain(head, slabs)
      && AllOk(slabs, mem, size, cap)
      && Owned(slabs, owner)
      && (current == null || current in slabs)
    }

    ghost predicate Valid()
      reads this, slabs
    {
      Sound() && forall i :: 0 <= i < |slabs| && slabs[i].used == 0 ==> |slabs| == 1
    }

    /** The cells handed out. */
    ghost function Live(): set<nat>
      reads this
    {
      owner.Keys
    }

    /** Cells are rounded up to a whole number of words, so that a link fits in each. */
    constructor (size: nat, cap: nat)
      requires size >= WORD && cap >= 1
      ensures Valid() && Live() == {} && this.cap == cap && slabs == []
      ensures this.size == CellSize(size)
    {
      this.size, this.cap := CellSize(size), cap;
      head, current, mem, slabs, owner := null, null, map[], [], map[];
    }

    /** Take the first free cell of a slab. */
    method Pop(s: Slab, ghost i: nat) returns (p: nat)
      requires Sound() && i < |slabs| && s == slabs[i] && s.freelist != 0
      modifies this`owner, s`freelist, s`used, s`free, s`live
      ensures Sound() && p != 0 && p !in old(Live()) && owner == old(owner)[p := s]
      ensures p == old(s.freelist) && s.used == old(s.used) + 1 && old(s.free) == [p] + s.free
    {
      hide Cells, Span, SlabOk, Chain, Apart, Members, AllOk, Owned, OwnedWas;
      SlabAt(i);
      DistinctFrom(i);
      ghost var free := Members(s.free);
      forall q | q in free ensures q !in owner {
        NotOwned(i, q);
      }
      AllApart();
      AllInOrder();
      ghost var lives := OwnedNow(slabs, owner);
      p := PopCell(s, mem, size, cap);
      OwnedMore(slabs, lives, owner, i, p);
      owner := owner[p := s];
      AllOkIntro(slabs, mem, size, cap);
    }

    /** Put a live cell back on the freelist of its slab. */
    method Push(s: Slab, p: nat, ghost i: nat)
      requires Sound() && i < |slabs| && s == slabs[i] && p in s.live
      modifies this`owner, this`mem, s`freelist, s`used, s`free, s`live
      ensures Sound() && owner == old(owner) - {p}
      ensures s.used == old(s.used) - 1 && s.freelist == p != 0 && s.free == [p] + old(s.free)
    {
      hide Cells, Span, SlabOk, Chain, Apart, Members, AllOk, Owned, OwnedWas;
      DistinctFrom(i);
      ghost var lives := OwnedNow(slabs, owner);
      mem := PushLink(s, p, i);
      OwnedLess(slabs, lives, owner, i, p);
      owner := owner - {p};
    }

    /** Link the cell in; the other slabs do not notice. */
    method PushLink(s: Slab, p: nat, ghost i: nat) returns (mem': map<nat, nat>)
      requires Sound() && i < |slabs| && s == slabs[i] && p in s.live
      modifies s`freelist, s`used, s`free, s`live
      ensures AllOk(slabs, mem', size, cap)
      ensures s.live == old(s.live) - {p} && s.used == old(s.used) - 1 && s.freelist == p != 0
      ensures s.free == [p] + old(s.free)
    {
      hide Cells, Span, SlabOk, Chain, Apart, Members, AllOk, Owned;
      SlabAt(i);
      LiveCell(i, p);
      OthersKeep(i, p, s.freelist);
      DistinctFrom(i);
      AllApart();
      mem' := PushCell(s, mem, size, cap, p);
      AllOkIntro(slabs, mem', size, cap);
    }

    lemma AllApart()
      requires Sound()
      ensures forall j, k :: 0 <= j < k < |slabs| ==> Apart(slabs[j].base, slabs[k].base, Span(size, cap))
    {
    }

    lemma AllInOrder()
      requires Sound()
      ensures forall j :: 0 <= j < |slabs| ==> SlabOk(slabs[j], mem, size, cap)
    {
    }

    /** The other slabs do not notice what is written to a live cell of slab i. */
    lemma OthersKeep(i: nat, p: nat, v: nat)
      requires Sound() && i < |slabs| && p in slabs[i].live
      ensures forall j :: 0 <= j < |slabs| && j != i ==> SlabOk(slabs[j], mem[p := v], size, cap)
    {
      hide Cells, Span, SlabOk, Chain, Apart, Members, AllOk, Owned;
      forall j | 0 <= j < |slabs| && j != i ensures SlabOk(slabs[j], mem[p := v], size, cap) {
        Elsewhere(i, j, p);
        OtherWord(slabs[j], mem, size, cap, p, v);
      }
    }

    /** A live cell has a proper address and belongs to its owner only. */
    lemma LiveCell(i: nat, p: nat)
      requires Sound() && i < |slabs| && p in slabs[i].live
      ensures p != 0 && p in Cells(slabs[i].base, size, cap) && p in owner && owner[p] == slabs[i]
    {
      hide SlabOk, Cells, Span, Chain, Apart;
      SlabAt(i);
      LiveInCells(slabs[i], mem, size, cap, p);
    }

    /** A live cell of slab i is no cell of slab j. */
    lemma Elsewhere(i: nat, j: nat, p: nat)
      requires Sound() && i < |slabs| && j < |slabs| && i != j && p in slabs[i].live
      ensures p !in Members(slabs[j].free) && p !in slabs[j].live && SlabOk(slabs[j], mem, size, cap)
    {
      LiveCell(i, p);
      assert SlabOk(slabs[j], mem, size, cap);
      if p in Cells(slabs[j].base, size, cap) {
        UniqueOwner(i, j, p);
      }
    }

    /** A live cell shares no byte with any other cell, live or free, of any slab. */
    lemma LiveCellAlone(i: nat, j: nat, p: nat, q: nat)
      requires Sound() && i < |slabs| && j < |slabs| && p in slabs[i].live
      requires p != q && q in Cells(slabs[j].base, size, cap)
      ensures Apart(p, q, size)
    {
      hide SlabOk, Cells, Span, Chain;
      LiveCell(i, p);
      CellsInRegion(slabs[i].base, size, cap, p);
      CellsInRegion(slabs[j].base, size, cap, q);
      if i == j {
        CellsApart(slabs[i].base, size, cap, p, q);
      }
    }

    /** Any two live cells are apart by their whole size. */
    lemma LiveCellsApart(p: nat, q: nat)
      requires Sound() && p in Live() && q in Live() && p != q
      ensures Apart(p, q, size)
    {
      hide Sound, Cells, Apart;
      var i := HomeOf(p);
      var j := HomeOf(q);
      LiveCell(j, q);
      LiveCellAlone(i, j, p, q);
    }

    /** The owner of a live cell may write any word anywhere in it: no freelist runs
        through it. */
    method Scribble(p: nat, at: nat, v: nat)
      requires Valid() && p in Live() && p <= at && at + WORD <= p + size
      modifies this`mem
      ensures Valid() && Live() == old(Live()) && mem == old(mem)[at := v]
    {
      hide Cells, Span, SlabOk, Chain, Apart, Members;
      ghost var i := HomeOf(p);
      forall j | 0 <= j < |slabs| ensures SlabOk(slabs[j], mem[at := v], size, cap) {
        NoLinkInside(i, j, p, at);
        OtherWord(slabs[j], mem, size, cap, at, v);
      }
      mem := mem[at := v];
    }

    /** No free cell starts within a live one. */
    lemma NoLinkInside(i: nat, j: nat, p: nat, at: nat)
      requires Sound() && i < |slabs| && j < |slabs| && p in slabs[i].live && p <= at < p + size
      ensures SlabOk(slabs[j], mem, size, cap) && at !in Members(slabs[j].free)
    {
      hide Cells, Span, Chain;
      SlabAt(j);
      if at in Members(slabs[j].free) {
        assert at in Cells(slabs[j].base, size, cap);
        if at == p {
          LiveCell(i, p);
          if i != j {
            UniqueOwner(i, j, p);
          }
        } else {
          LiveCellAlone(i, j, p, at);
        }
      }
    }

    /** The address lies among the slab's cells. */
    method Contains(s: Slab, p: nat) returns (r: bool)
      ensures r <==> s.base <= p < s.base + Span(size, cap)
    {
      SpanClosed(size, cap);
      r := s.base <= p < s.base + cap * size;
    }

    /** The slab that a live cell belongs to: the cached one or the first in the list
        whose region holds the address. */
    method FromPtr(p: nat) returns (s: Slab, ghost i: nat)
      requires Sound() && p in Live()
      ensures i < |slabs| && s == slabs[i] == owner[p] && p in s.live
    {
      hide Sound, Span;
      ghost var home := HomeOf(p);
      RegionOf(home, p);
      if current != null {
        var hit := Contains(current, p);
        if hit {
          i := CurrentAt();
          RegionUnique(home, i, p);
          return current, i;
        }
      }
      var cur := head;
      i := 0;
      ChainAt(home);
      while cur != null
        invariant i <= home < |slabs| && cur == slabs[i]
        decreases |slabs| - i
      {
        var hit := Contains(cur, p);
        if hit {
          RegionUnique(home, i, p);
          return cur, i;
        }
        ChainAt(i);
        cur := cur.next;
        i := i + 1;
      }
      assert false;
    }

    lemma ChainAt(i: nat)
      requires Sound() && i < |slabs|
      ensures slabs[i].next == if i + 1 < |slabs| then slabs[i + 1] else null
      ensures head == slabs[0]
    {
    }

    lemma HomeOf(p: nat) returns (i: nat)
      requires Sound() && p in Live()
      ensures i < |slabs| && slabs[i] == owner[p] && p in slabs[i].live
    {
      i :| i < |slabs| && slabs[i] == owner[p];
    }

    lemma CurrentAt() returns (i: nat)
      requires Sound() && current != null
      ensures i < |slabs| && slabs[i] == current
    {
      i :| i < |slabs| && slabs[i] == current;
    }

    lemma RegionOf(i: nat, p: nat)
      requires Sound() && i < |slabs| && p in slabs[i].live
      ensures slabs[i].base <= p < slabs[i].base + Span(size, cap)
    {
      LiveCell(i, p);
      CellsInRegion(slabs[i].base, size, cap, p);
    }

    lemma RegionUnique(i: nat, j: nat, p: nat)
      requires Sound() && i < |slabs| && j < |slabs|
      requires slabs[i].base <= p < slabs[i].base + Span(size, cap)
      requires slabs[j].base <= p < slabs[j].base + Span(size, cap)
      ensures i == j
    {
    }

    /** Get a new slab from the system, whose region starts at base, link it at the
        head of the list and thread its freelist. */
    method Extend(base: nat) returns (s: Slab)
      requires Sound() && base > 0
      requires forall i :: 0 <= i < |slabs| ==> Apart(slabs[i].base, base, Span(size, cap))
      modifies this`head, this`mem, this`slabs, slabs`prev
      ensures Sound() && slabs == [s] + old(slabs) && fresh(s)
      ensures s.used == 0 && s.freelist == base && |s.free| == cap && Run(base, size, s.free)
    {
      hide SlabOk, Span, Apart, Cells, AllOk, Owned, Chain, Threaded, Split, Run;
      var mem';
      s, mem' := MakeSlab(base);
      AllOkCons(s, slabs, mem', size, cap);
      OwnedCons(s, slabs, owner);
      LinkFirst(s, head, slabs);
      head, slabs, mem := s, [s] + slabs, mem';
    }

    /** A new slab, all of it free, that is not linked yet. */
    method MakeSlab(base: nat) returns (s: Slab, mem': map<nat, nat>)
      requires Sound() && base > 0
      requires forall i :: 0 <= i < |slabs| ==> Apart(slabs[i].base, base, Span(size, cap))
      ensures fresh(s) && s.base == base && s.live == {} && s.used == 0 && s.freelist == base
      ensures SlabOk(s, mem', size, cap) && AllOk(slabs, mem', size, cap)
      ensures |s.free| == cap && Run(base, size, s.free)
    {
      hide SlabOk, Span, Apart, Cells, AllOk, Owned, Chain, Threaded, Split, Run;
      s := new Slab(base);
      ghost var free;
      mem', free := ThreadNew(base);
      s.freelist, s.free := base, free;
      NewSlabOk(s, mem', size, cap);
    }

    /** Thread the freelist of a new region; the other slabs do not notice. */
    method ThreadNew(base: nat) returns (mem': map<nat, nat>, ghost free: seq<nat>)
      requires Sound() && base > 0
      requires forall i :: 0 <= i < |slabs| ==> Apart(slabs[i].base, base, Span(size, cap))
      ensures AllOk(slabs, mem', size, cap)
      ensures Threaded(base, free, mem') && Split(free, {}, Cells(base, size, cap))
      ensures |free| == cap && Run(base, size, free)
    {
      hide SlabOk, Span, Apart, Cells, AllOk, Owned, Chain, Threaded, Split;
      mem', free := ThreadRegion(mem, base, size, cap);
      forall j | 0 <= j < |slabs| ensures SlabOk(slabs[j], mem', size, cap) {
        SlabAt(j);
        RegionsDisjoint(slabs[j], base);
        OtherRegion(slabs[j], mem, mem', size, cap, base);
      }
      AllOkWith(slabs, mem, mem', size, cap);
    }

    /** Give an empty slab that is not the only one back to the system. */
    method DropSlab(s: Slab, ghost i: nat)
      requires Sound() && i < |slabs| && s == slabs[i] && s.used == 0
      modifies this`head, this`current, this`slabs, slabs`next, slabs`prev
      ensures Sound() && slabs == old(slabs)[..i] + old(slabs)[i + 1..]
      ensures current == if old(current) == s then null else old(current)
    {
      hide SlabOk, Span, Apart, Cells, AllOk, Owned, Chain;
      SlabAt(i);
      NothingLive(s, mem, size, cap);
      AllOkDrop(slabs, mem, size, cap, i);
      OwnedDrop(slabs, owner, i);
      if current == s {
        current := null;
      } else if current != null {
        StaysIn(slabs, i, current);
      }
      head := Unlink(head, s, slabs, i);
      slabs := slabs[..i] + slabs[i + 1..];
    }

    /** The first slab in the list that has a free cell. */
    method FindFree() returns (s: Slab?, ghost i: nat)
      requires Sound()
      ensures s != null ==> i < |slabs| && s == slabs[i] && s.freelist != 0
      ensures s == null ==> forall j :: 0 <= j < |slabs| ==> slabs[j].freelist == 0
      ensures s == FirstFree(0)
    {
      hide AllOk, Owned, Sound;
      s, i := head, 0;
      HeadAt();
      while s != null && s.freelist == 0
        invariant i <= |slabs| && s == (if i < |slabs| then slabs[i] else null)
        invariant forall j :: 0 <= j < i ==> slabs[j].freelist == 0
        invariant FirstFree(i) == FirstFree(0)
        decreases |slabs| - i
      {
        ChainAt(i);
        s := s.next;
        i := i + 1;
      }
    }

    lemma HeadAt()
      requires Sound()
      ensures head == if slabs == [] then null else slabs[0]
    {
    }

    /** An allocation: the cached slab if it has a free cell, else the first one in
        the list that has, else a new one; base is where the system would put it. */
    method Alloc(base: nat) returns (p: nat)
      requires Valid() && base > 0
      requires forall i :: 0 <= i < |slabs| ==> Apart(slabs[i].base, base, Span(size, cap))
      modifies this, slabs
      ensures Valid() && p != 0 && p !in old(Live()) && Live() == old(Live()) + {p}
      ensures current != null && owner == old(owner)[p := current]
      ensures var c := old(Serving());
              if c == null then fresh(current) && slabs == [current] + old(slabs) && p == base
              else slabs == old(slabs) && current == c && p == old(c.freelist)
      ensures forall s :: s in slabs ==> s in old(slabs) || fresh(s)
    {
      hide Sound, Apart, Span;
      var s := current;
      ghost var i: nat := 0;
      if s != null && s.freelist != 0 {
        i := CurrentAt();
        p := Pop(s, i);
        return;
      }
      s, i := FindFree();
      if s == null {
        AllFull();
        s := Extend(base);
        i := 0;
      }
      SetCurrent(s, i);
      p := Pop(s, i);
    }

    /** The slab that serves the next allocation, if one has a free cell: the cached
        one before the others, these in list order. */
    ghost function Serving(): Slab?
      reads this, current, slabs
    {
      if current != null && current.freelist != 0 then current else FirstFree(0)
    }

    /** What serving means: the cached slab while it has a free cell, else the first in the
        list that has one, and none only when all slabs are full. */
    lemma ServingMeans()
      requires Sound()
      ensures current != null && current.freelist != 0 ==> Serving() == current
      ensures Serving() == null <==> forall j :: 0 <= j < |slabs| ==> slabs[j].freelist == 0
      ensures Serving() != null && (current == null || current.freelist == 0) ==>
                exists i :: 0 <= i < |slabs| && slabs[i] == Serving() && slabs[i].freelist != 0
                            && forall k :: 0 <= k < i ==> slabs[k].freelist == 0
    {
      hide AllOk, Owned, Chain;
      FirstMeans(0);
    }

    lemma {:induction false} FirstMeans(n: nat)
      requires n <= |slabs| && forall k :: 0 <= k < n ==> slabs[k].freelist == 0
      ensures FirstFree(n) == null <==> forall j :: 0 <= j < |slabs| ==> slabs[j].freelist == 0
      ensures FirstFree(n) != null ==>
                exists i :: 0 <= i < |slabs| && slabs[i] == FirstFree(n) && slabs[i].freelist != 0
                            && forall k :: 0 <= k < i ==> slabs[k].freelist == 0
      decreases |slabs| - n
    {
      if n < |slabs| && slabs[n].freelist == 0 {
        FirstMeans(n + 1);
      }
    }

    ghost function FirstFree(n: nat): Slab?
      requires n <= |slabs|
      reads this, slabs
      decreases |slabs| - n
    {
      if n == |slabs| then null else if slabs[n].freelist != 0 then slabs[n] else FirstFree(n + 1)
    }

    method SetCurrent(s: Slab, ghost i: nat)
      requires Sound() && i < |slabs| && s == slabs[i]
      modifies this`current
      ensures Sound() && current == s
    {
      hide AllOk, Owned, Chain;
      current := s;
    }

    /** Slabs without a free cell are not empty. */
    lemma AllFull()
      requires Sound() && forall j :: 0 <= j < |slabs| ==> slabs[j].freelist == 0
      ensures forall j :: 0 <= j < |slabs| ==> slabs[j].used > 0
    {
      forall j | 0 <= j < |slabs| ensures slabs[j].used > 0 {
        SlabAt(j);
        FullUsed(slabs[j], mem, size, cap);
      }
    }

    /** Freeing a live cell: it goes back to its slab, which becomes the current one
        when that has nothing to offer; an empty slab is given back unless it is
        the only one. */
    method Free(p: nat) returns (ghost i: nat)
      requires Valid() && p in Live()
      modifies this, slabs
      ensures Valid() && Live() == old(Live()) - {p}
      ensures i < |old(slabs)| && old(slabs)[i] == old(owner)[p] && owner == old(owner) - {p}
      ensures var s := old(owner)[p];
              var full := old(current == null || (current != owner[p] && current.freelist == 0));
              var cached := if full then s else old(current);
              if old(s.used) == 1 && |old(slabs)| > 1 then
                && slabs == old(slabs)[..i] + old(slabs)[i + 1..]
                && current == if cached == s then null else cached
              else slabs == old(slabs) && current == cached && s.freelist == p
      ensures forall s :: s in slabs ==> s in old(slabs)
    {
      hide Sound;
      var s;
      s, i := FromPtr(p);
      Push(s, p, i);
      if current == null || current.freelist == 0 {
        SetCurrent(s, i);
      }
      NeighboursMeanMore(i);
      if s.used == 0 {
        if s.next != null || s.prev != null {
          DropSlab(s, i);
        }
      }
    }

    lemma NeighboursMeanMore(i: nat)
      requires Sound() && i < |slabs|
      ensures slabs[i].next != null || slabs[i].prev != null <==> |slabs| > 1
      ensures forall j :: 0 <= j < |slabs| && j != i ==> slabs[j] != slabs[i]
    {
    }

    lemma RegionsDisjoint(s: Slab, base: nat)
      requires size >= 1 && Apart(s.base, base, Span(size, cap))
      ensures Cells(s.base, size, cap) !! Cells(base, size, cap)
    {
      forall p | p in Cells(s.base, size, cap) && p in Cells(base, size, cap) ensures false {
        CellsInRegion(s.base, size, cap, p);
        CellsInRegion(base, size, cap, p);
      }
    }

    lemma SlabAt(i: nat)
      requires Sound() && i < |slabs|
      ensures SlabOk(slabs[i], mem, size, cap)
    {
    }

    lemma DistinctFrom(i: nat)
      requires Chain(head, slabs) && i < |slabs|
      ensures forall j :: 0 <= j < |slabs| && j != i ==> slabs[j] != slabs[i]
    {
    }

    /** A free cell of slab i is not live anywhere. */
    lemma NotOwned(i: nat, p: nat)
      requires Sound() && i < |slabs| && p in Members(slabs[i].free)
      ensures p !in owner
    {
      if p in owner {
        var j :| 0 <= j < |slabs| && slabs[j] == owner[p];
        UniqueOwner(i, j, p);
      }
    }

    /** A cell address belongs to one slab only. */
    lemma UniqueOwner(i: nat, j: nat, p: nat)
      requires Sound() && i < |slabs| && j < |slabs|
      requires p in Cells(slabs[i].base, size, cap) && p in Cells(slabs[j].base, size, cap)
      ensures i == j
    {
      CellsInRegion(slabs[i].base, size, cap, p);
      CellsInRegion(slabs[j].base, size, cap, p);
    }
  }

  lemma PopThread(first: nat, free: seq<nat>, mem: map<nat, nat>)
    requires Threaded(first, free, mem) && first != 0
    ensures free != [] && first == free[0] && first in mem
    ensures Threaded(mem[first], free[1..], mem)
  {
    assert Linked(free, mem, 0);
    forall i | 0 <= i < |free[1..]| ensures Linked(free[1..], mem, i) {
      assert Linked(free, mem, i + 1);
    }
  }

  lemma PushThread(first: nat, free: seq<nat>, mem: map<nat, nat>, p: nat)
    requires Threaded(first, free, mem) && p != 0 && p !in Members(free)
    ensures Threaded(p, [p] + free, mem[p := first])
  {
    var longer, mem' := [p] + free, mem[p := first];
    forall i | 0 <= i < |longer| ensures Linked(longer, mem', i) {
      if i > 0 {
        assert Linked(free, mem, i - 1);
        assert free[i - 1] in Members(free);
      }
    }
  }

  lemma PopSplit(free: seq<nat>, live: set<nat>, cells: set<nat>)
    requires Split(free, live, cells) && free != []
    ensures free[0] !in live && free[0] in cells && Split(free[1..], live + {free[0]}, cells)
  {
    assert free == [free[0]] + free[1..];
    assert Members(free) == {free[0]} + Members(free[1..]);
    assert free[0] in Members(free);
  }

  lemma PushSplit(free: seq<nat>, live: set<nat>, cells: set<nat>, p: nat)
    requires Split(free, live, cells) && p in live
    ensures p !in Members(free) && p in cells && Split([p] + free, live - {p}, cells)
  {
    assert Members([p] + free) == {p} + Members(free);
  }

  /** Take the first cell off a slab's freelist. */
  method PopCell(s: Slab, mem: map<nat, nat>, ghost size: nat, ghost cap: nat) returns (p: nat)
    requires SlabOk(s, mem, size, cap) && s.freelist != 0
    modifies s`freelist, s`used, s`free, s`live
    ensures SlabOk(s, mem, size, cap)
    ensures p == old(s.freelist) != 0 && p !in old(s.live) && s.live == old(s.live) + {p} && s.used == old(s.used) + 1
    ensures p in old(Members(s.free)) && old(s.free) == [p] + s.free
  {
    hide Threaded, Split, Cells;
    PopThread(s.freelist, s.free, mem);
    PopSplit(s.free, s.live, Cells(s.base, size, cap));
    p := s.freelist;
    s.freelist := mem[p];
    s.used := s.used + 1;
    s.free, s.live := s.free[1..], s.live + {p};
  }

  /** Put a live cell back on its slab's freelist, linking through its first word. */
  method PushCell(s: Slab, mem: map<nat, nat>, ghost size: nat, ghost cap: nat, p: nat) returns (mem': map<nat, nat>)
    requires SlabOk(s, mem, size, cap) && p in s.live && p != 0
    modifies s`freelist, s`used, s`free, s`live
    ensures mem' == mem[p := old(s.freelist)] && s.freelist == p
    ensures SlabOk(s, mem', size, cap)
    ensures s.live == old(s.live) - {p} && s.used == old(s.used) - 1 && s.free == [p] + old(s.free)
  {
    hide Threaded, Split, Cells;
    PushSplit(s.free, s.live, Cells(s.base, size, cap), p);
    PushThread(s.freelist, s.free, mem, p);
    mem' := mem[p := s.freelist];
    s.freelist := p;
    s.used := s.used - 1;
    s.free, s.live := [p] + s.free, s.live - {p};
  }

  lemma LiveInCells(s: Slab, mem: map<nat, nat>, size: nat, cap: nat, p: nat)
    requires size >= 1 && SlabOk(s, mem, size, cap) && p in s.live
    ensures p != 0 && p in Cells(s.base, size, cap)
  {
    CellsInRegion(s.base, size, cap, p);
  }

  /** A change of the first word of a cell that is not free leaves the slab in order. */
  lemma OtherWord(s: Slab, mem: map<nat, nat>, size: nat, cap: nat, p: nat, v: nat)
    requires SlabOk(s, mem, size, cap) && p !in Members(s.free)
    ensures SlabOk(s, mem[p := v], size, cap)
  {
    var mem' := mem[p := v];
    forall i | 0 <= i < |s.free| ensures Linked(s.free, mem', i) {
      assert Linked(s.free, mem, i);
      assert s.free[i] in Members(s.free);
    }
  }

  lemma {:induction false} SpanOrdered(size: nat, a: nat, b: nat)
    requires a <= b
    ensures Span(size, a) + (b - a) <= Span(size, b) || size == 0
    decreases b
  {
    if a < b {
      SpanOrdered(size, a, b - 1);
    }
  }

  /** Lay a freelist through the cells of a fresh region. */
  method ThreadRegion(mem: map<nat, nat>, base: nat, size: nat, cap: nat)
    returns (mem': map<nat, nat>, ghost free: seq<nat>)
    requires base > 0 && size >= 1 && cap >= 1
    ensures Threaded(base, free, mem') && Split(free, {}, Cells(base, size, cap))
    ensures |free| == cap && Run(base, size, free)
    ensures forall p :: p in mem && p !in Cells(base, size, cap) ==> p in mem' && mem'[p] == mem[p]
  {
    hide Cells, Threaded;
    mem', free := mem, [base];
    var cur := base;
    FirstCell(base, size, mem);
    for i := 0 to cap - 1
      invariant cur == base + Span(size, i)
      invariant |free| == i + 1 && Run(base, size, free) && Members(free) == Cells(base, size, i + 1)
      invariant AllLinked(free, mem', i)
      invariant forall p :: p in mem && p !in Cells(base, size, i) ==> p in mem' && mem'[p] == mem[p]
    {
      var next := cur + size;
      RunGrows(base, size, free, mem', i);
      mem' := mem'[cur := next];
      free := free + [next];
      cur := next;
    }
    RunEnds(base, size, free, mem');
    mem' := mem'[cur := 0];
  }

  /** They lie one cell size apart. */
  lemma RunSpaced(base: nat, size: nat, free: seq<nat>, j: nat)
    requires Run(base, size, free) && j < |free|
    ensures free[j] == base + j * size
  {
    SpanClosed(size, j);
  }

  /** The cells of a region in address order. */
  ghost predicate Run(base: nat, size: nat, free: seq<nat>) {
    forall j :: 0 <= j < |free| ==> free[j] == base + Span(size, j)
  }

  ghost predicate AllLinked(free: seq<nat>, mem: map<nat, nat>, n: nat)
    requires n <= |free|
  {
    forall j :: 0 <= j < n ==> Linked(free, mem, j)
  }

  lemma FirstCell(base: nat, size: nat, mem: map<nat, nat>)
    ensures Run(base, size, [base]) && Members([base]) == Cells(base, size, 1) && Span(size, 0) == 0
    ensures Cells(base, size, 0) == {}
  {
    assert Members([base]) == {base};
  }

  lemma RunGrows(base: nat, size: nat, free: seq<nat>, mem: map<nat, nat>, i: nat)
    requires size >= 1 && base > 0 && |free| == i + 1 && Run(base, size, free)
    requires Members(free) == Cells(base, size, i + 1)
    requires AllLinked(free, mem, i)
    ensures var cur := base + Span(size, i);
            var next := cur + size;
            && next == base + Span(size, i + 1)
            && cur in Cells(base, size, i + 1) && Cells(base, size, i) <= Cells(base, size, i + 1)
            && Run(base, size, free + [next]) && Members(free + [next]) == Cells(base, size, i + 2)
            && AllLinked(free + [next], mem[cur := next], i + 1)
  {
    var cur := base + Span(size, i);
    var next := cur + size;
    var longer, mem' := free + [next], mem[cur := next];
    assert Members(longer) == Members(free) + {next};
    forall j | 0 <= j < i + 1 ensures Linked(longer, mem', j) {
      assert longer[j] == base + Span(size, j);
      if j < i {
        SpanOrdered(size, j, i);
        assert Linked(free, mem, j);
      }
    }
  }

  lemma RunEnds(base: nat, size: nat, free: seq<nat>, mem: map<nat, nat>)
    requires size >= 1 && base > 0 && |free| >= 1 && Run(base, size, free)
    requires Members(free) == Cells(base, size, |free|)
    requires AllLinked(free, mem, |free| - 1)
    ensures var cur := base + Span(size, |free| - 1);
            && cur in Cells(base, size, |free|) && Cells(base, size, |free| - 1) <= Cells(base, size, |free|)
            && Threaded(base, free, mem[cur := 0]) && Split(free, {}, Cells(base, size, |free|))
  {
    var n := |free| - 1;
    var cur := base + Span(size, n);
    var mem' := mem[cur := 0];
    forall j | 0 <= j < |free| ensures Linked(free, mem', j) {
      assert free[j] == base + Span(size, j);
      SpanOrdered(size, j, n);
      if j < n {
        assert Linked(free, mem, j);
      }
    }
    forall j, k | 0 <= j < k < |free| ensures free[j] != free[k] {
      SpanOrdered(size, j, k);
    }
  }

  lemma NewSlabOk(s: Slab, mem: map<nat, nat>, size: nat, cap: nat)
    requires s.base > 0 && s.live == {} && s.used == 0
    requires Threaded(s.freelist, s.free, mem) && Split(s.free, {}, Cells(s.base, size, cap))
    ensures SlabOk(s, mem, size, cap)
  {
  }

  /** Writing to another region leaves a slab in order. */
  lemma OtherRegion(s: Slab, mem: map<nat, nat>, mem': map<nat, nat>, size: nat, cap: nat, base: nat)
    requires SlabOk(s, mem, size, cap)
    requires Cells(s.base, size, cap) !! Cells(base, size, cap)
    requires forall p :: p in mem && p !in Cells(base, size, cap) ==> p in mem' && mem'[p] == mem[p]
    ensures SlabOk(s, mem', size, cap)
  {
    forall i | 0 <= i < |s.free| ensures Linked(s.free, mem', i) {
      assert Linked(s.free, mem, i);
      assert s.free[i] in Members(s.free);
      assert s.free[i] in Cells(s.base, size, cap);
    }
  }

  lemma AllOkWith(slabs: seq<Slab>, mem: map<nat, nat>, mem': map<nat, nat>, size: nat, cap: nat)
    requires AllOk(slabs, mem, size, cap) && forall j :: 0 <= j < |slabs| ==> SlabOk(slabs[j], mem', size, cap)
    ensures AllOk(slabs, mem', size, cap)
  {
  }

  lemma AllOkCons(s: Slab, slabs: seq<Slab>, mem: map<nat, nat>, size: nat, cap: nat)
    requires AllOk(slabs, mem, size, cap) && SlabOk(s, mem, size, cap)
    requires forall j :: 0 <= j < |slabs| ==> Apart(slabs[j].base, s.base, Span(size, cap))
    ensures AllOk([s] + slabs, mem, size, cap)
  {
    hide SlabOk, Span;
  }

  lemma OwnedCons(s: Slab, slabs: seq<Slab>, owner: map<nat, Slab>)
    requires Owned(slabs, owner) && s.live == {}
    ensures Owned([s] + slabs, owner)
  {
    assert forall t :: t in slabs ==> t in [s] + slabs;
  }

  lemma AllOkDrop(slabs: seq<Slab>, mem: map<nat, nat>, size: nat, cap: nat, i: nat)
    requires AllOk(slabs, mem, size, cap) && i < |slabs|
    ensures AllOk(slabs[..i] + slabs[i + 1..], mem, size, cap)
  {
    hide SlabOk, Span, Apart;
  }

  lemma OwnedDrop(slabs: seq<Slab>, owner: map<nat, Slab>, i: nat)
    requires Owned(slabs, owner) && i < |slabs| && slabs[i].live == {}
    ensures Owned(slabs[..i] + slabs[i + 1..], owner)
  {
    var fewer := slabs[..i] + slabs[i + 1..];
    forall p | p in owner ensures owner[p] in fewer {
      var j :| 0 <= j < |slabs| && slabs[j] == owner[p];
      assert fewer[if j < i then j else j - 1] == slabs[j];
    }
  }

  lemma AllOkIntro(slabs: seq<Slab>, mem: map<nat, nat>, size: nat, cap: nat)
    requires forall j :: 0 <= j < |slabs| ==> SlabOk(slabs[j], mem, size, cap)
    requires forall j, k :: 0 <= j < k < |slabs| ==> Apart(slabs[j].base, slabs[k].base, Span(size, cap))
    ensures AllOk(slabs, mem, size, cap)
  {
  }
}
