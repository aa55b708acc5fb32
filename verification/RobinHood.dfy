/** The Robin Hood hash table as the code runs it: probe, swap and shift loops over
    an array of slots. One table covers both headers: the key stands for what is
    hashed and compared, the value for what else is stored. */
module RobinHood {
  import opened RobinHoodSlots

  datatype InsertResult = Success | Exists | Full
  datatype AccessResult<V> = Found(val: V) | DoesntExist

  class Table<K(==), V> {
    const hash: K -> nat
    const elems: array<Slot<K, V>>

    /** Enough for searching: what every insertion, also a failed one, keeps. */
    ghost predicate Searchable()
      reads elems
    {
      Sound(elems[..], hash)
    }

    ghost predicate Valid()
      reads elems
    {
      Searchable() && HasSpare(elems[..])
    }

    /** The finite map the table stands for. */
    ghost function Contents(): map<K, V>
      requires Searchable()
      reads elems
    {
      View(elems[..])
    }

    /** A slot is free exactly when there are fewer keys than slots. */
    lemma Occupied()
      requires Searchable()
      ensures |Contents()| <= elems.Length && (HasFree(elems[..]) <==> |Contents()| < elems.Length)
    {
      Occupancy(elems[..]);
    }

    constructor (arr: array<Slot<K, V>>, hash: K -> nat)
      requires arr.Length > 0
      modifies arr
      ensures elems == arr && this.hash == hash
      ensures Valid() && Contents() == map[]
    {
      this.hash, this.elems := hash, arr;
      new;
      for i := 0 to arr.Length
        invariant forall j :: 0 <= j < i ==> !arr[j].present
      {
        arr[i] := arr[i].(present := false, dib := 0);
      }
      EmptySound(arr[..], hash);
    }

    method Count() returns (count: nat)
      requires Searchable()
      ensures count == |Contents()|
    {
      hide View, Sound;
      SoundFacts(elems[..], hash);
      count := 0;
      for i := 0 to elems.Length
        invariant count == Filled(elems[..], i)
      {
        if elems[i].present {
          count := count + 1;
        }
      }
      Occupancy(elems[..]);
    }

    /** Search from the key's home; stop early at an empty slot or at an entry
        nearer to its home than the search is to the key's. */
    method Get(key: K) returns (r: AccessResult<V>)
      requires Searchable()
      ensures r == if key in Contents() then Found(Contents()[key]) else DoesntExist
    {
      hide View, Sound, Home, Bucket;
      var n := elems.Length;
      ghost var s := elems[..];
      SoundFacts(s, hash);
      var i := 0;
      while i < n
        invariant i <= n
        invariant forall e :: 0 <= e < i ==> !HoldsKey(s, Home(hash(key), n), e, key)
      {
        ModWrap(hash(key), i, n);
        var idx := Bucket(hash(key), i, n);
        if !elems[idx].present || elems[idx].dib < i {
          SearchFails(s, hash, key, i);
          return DoesntExist;
        }
        if elems[idx].key == key {
          ViewAt(s, idx);
          return Found(elems[idx].val);
        }
        i := i + 1;
      }
      SearchFails(s, hash, key, n);
      return DoesntExist;
    }

    /** Probe from the key's home, carrying the entry to place; an entry nearer to
        its home than the carried one is swapped with it. On a table without an
        empty slot the entry carried last is dropped: it is the new one exactly
        when no entry on the way was nearer to its home than the probe. */
    method Insert(key: K, val: V) returns (r: InsertResult, ghost dropped: K)
      requires Searchable()
      modifies elems
      ensures Searchable()
      ensures r == Exists <==> key in old(Contents())
      ensures r == Exists ==> elems[..] == old(elems[..])
      ensures r == Success <==> key !in old(Contents()) && HasFree(old(elems[..]))
      ensures r == Success ==> Valid() && Contents() == old(Contents())[key := val]
      ensures r == Full ==> Contents() == old(Contents())[key := val] - {dropped}
      ensures r == Full ==> (dropped == key <==> Unmoved(old(elems[..]), Home(hash(key), elems.Length), elems.Length))
      ensures r == Full && dropped == key ==> elems[..] == old(elems[..])
      ensures Raised(elems[..], old(elems[..]))
      ensures r == Full && dropped != key ==> Higher(elems[..], old(elems[..]))
    {
      hide View, Sound, HasFree, HasSpare, Home, Inserting, Unmoved, Bucket, Raised, Higher;
      var n := elems.Length;
      ghost var s0 := elems[..];
      SoundFacts(s0, hash);
      InsertStart(s0, hash, key, val);
      RaisedNothing(s0);
      var k, v, dibn, i := key, val, 0, 0;
      dropped := key;
      while i < n
        invariant i <= n && Inserting(elems[..], s0, hash, key, val, i, k, v, dibn)
        invariant Raised(elems[..], s0) && (k != key ==> Higher(elems[..], s0))
      {
        InsertFacts(elems[..], s0, hash, key, val, i, k, v, dibn);
        ModWrap(hash(k), dibn, n);
        var idx := Bucket(hash(k), dibn, n);
        ghost var s := elems[..];
        if !elems[idx].present {
          InsertHere(s, s0, hash, key, val, i, k, v, dibn);
          RaisedMore(s, s0, idx, Slot(true, k, v, dibn));
          elems[idx] := Slot(true, k, v, dibn);
          assert elems[..] == s[idx := Slot(true, k, v, dibn)];
          return Success, k;
        }
        if elems[idx].dib < dibn {
          InsertSwap(s, s0, hash, key, val, i, k, v, dibn);
          SwapRaises(s, s0, hash, key, val, i, k, v, dibn);
          var temp := elems[idx];
          elems[idx] := Slot(true, k, v, dibn);
          assert elems[..] == s[idx := Slot(true, k, v, dibn)];
          k, v, dibn := temp.key, temp.val, temp.dib;
          if elems[idx].key == k {
            return Exists, k;
          }
        } else {
          if elems[idx].key == k {
            InsertFound(s, s0, hash, key, val, i, k, v, dibn);
            return Exists, k;
          }
          InsertPass(s, s0, hash, key, val, i, k, v, dibn);
        }
        i, dibn := i + 1, dibn + 1;
      }
      InsertFacts(elems[..], s0, hash, key, val, n, k, v, dibn);
      InsertFull(elems[..], s0, hash, key, val, k, v, dibn);
      return Full, k;
    }

    /** Find the key, then shift the entries behind it one slot nearer to their
        homes until an empty slot or an entry at home is met. When there is none, the
        shift loop runs out: the answer is that the key is not there, although it has
        been removed, and another entry is left stored twice. */
    method Delete(key: K) returns (r: AccessResult<V>, ended: bool)
      requires Searchable()
      modifies elems
      ensures ended <==> key !in old(Contents()) || HasSpare(old(elems[..]))
      ensures ended ==> r == if key in old(Contents()) then Found(old(Contents())[key]) else DoesntExist
      ensures ended ==> Searchable() && Contents() == old(Contents()) - {key}
      ensures old(Valid()) ==> Valid()
      ensures key !in old(Contents()) ==> elems[..] == old(elems[..])
      ensures !ended ==> r == DoesntExist && !Distinct(elems[..])
      ensures !ended ==> StoredKeys(elems[..]) == old(Contents()).Keys - {key}
    {
      hide View, Sound, Home, HasSpare, Shifting, Bucket, Distinct, StoredKeys;
      var n := elems.Length;
      ghost var s0 := elems[..];
      SoundFacts(s0, hash);
      var i := 0;
      while i < n
        invariant i <= n && elems[..] == s0
        invariant forall e :: 0 <= e < i ==> !HoldsKey(s0, Home(hash(key), n), e, key)
      {
        ModWrap(hash(key), i, n);
        var idx := Bucket(hash(key), i, n);
        if !elems[idx].present || elems[idx].dib < i {
          SearchFails(s0, hash, key, i);
          return DoesntExist, true;
        }
        if elems[idx].key == key {
          ViewAt(s0, idx);
          r := Found(elems[idx].val);
          ended := ShiftBack(key, i);
          if !ended {
            r := DoesntExist;
          }
          return;
        }
        i := i + 1;
      }
      SearchFails(s0, hash, key, n);
      return DoesntExist, true;
    }

    /** The shift loop of a deletion, for the key found at distance start: it ends
        before it runs out exactly when some slot is empty or holds an entry at home. */
    method ShiftBack(key: K, start: nat) returns (ended: bool)
      requires Searchable() && start < elems.Length
      requires HoldsKey(elems[..], Home(hash(key), elems.Length), start, key)
      modifies elems
      ensures ended <==> HasSpare(old(elems[..]))
      ensures ended ==> Valid() && Contents() == old(Contents()) - {key}
      ensures !ended ==> !Distinct(elems[..]) && StoredKeys(elems[..]) == old(Contents()).Keys - {key}
    {
      hide View, Sound, Home, HasSpare, HoleAt, Bucket, Distinct, StoredKeys;
      var n, i := elems.Length, start;
      ghost var s0 := elems[..];
      HoleStart(s0, hash, key, start);
      while i < n
        invariant start <= i <= n && (i < n ==> HoleAt(elems[..], s0, hash, key, start, i))
        invariant i == n ==> !HasSpare(s0) && !Distinct(elems[..])
        invariant i == n ==> StoredKeys(elems[..]) == old(Contents()).Keys - {key}
      {
        ModWrap(hash(key), i, n);
        ModWrap(hash(key), i + 1, n);
        var hole, next := Bucket(hash(key), i, n), Bucket(hash(key), i + 1, n);
        ghost var s := elems[..];
        HoleFilled(s, s0, hash, key, start, i);
        if !elems[next].present || elems[next].dib == 0 {
          HoleStop(s, s0, hash, key, start, i);
          if !HasSpare(s0) {
            HoleGoesOn(s, s0, hash, key, start, i);
          }
          elems[hole] := elems[hole].(present := false);
          assert elems[..] == s[hole := s[hole].(present := false)];
          return true;
        }
        if i + 1 < n {
          HoleMove(s, s0, hash, key, start, i);
        } else {
          RunOut(s, s0, hash, key, start);
        }
        elems[hole] := elems[hole].(key := elems[next].key, val := elems[next].val, dib := elems[next].dib - 1);
        assert elems[hole].present;
        assert elems[..] == s[hole := Slot(true, s[next].key, s[next].val, s[next].dib - 1)];
        i := i + 1;
      }
      ended := false;
    }
  }

  /** An entry that is to be moved is still met when the hole has come all the way round. */
  lemma RunOut<K, V>(s: seq<Slot<K, V>>, s0: seq<Slot<K, V>>, hash: K -> nat, k: K, d: nat)
    requires |s| > 0 && HoleAt(s, s0, hash, k, d, |s| - 1)
    requires var y := Probe(s, Home(hash(k), |s|), |s|); y.present && y.dib > 0
    ensures !HasSpare(s0) && Distinct(s0)
    ensures var y := Probe(s, Home(hash(k), |s|), |s|);
            var t := s[Wrap(Home(hash(k), |s|) + (|s| - 1), |s|) := Slot(true, y.key, y.val, y.dib - 1)];
            !Distinct(t) && StoredKeys(t) == View(s0).Keys - {k}
  {
    hide View, Sound, Home, HasSpare, HoleAt, Distinct, StoredKeys;
    if HasSpare(s0) {
      HoleEnds(s, s0, hash, k, d);
    } else {
      HoleGoesOn(s, s0, hash, k, d, |s| - 1);
      HoleRunsOut(s, s0, hash, k, d);
    }
  }

  lemma EmptySound<K, V>(s: seq<Slot<K, V>>, hash: K -> nat)
    requires |s| > 0 && forall j :: 0 <= j < |s| ==> !s[j].present
    ensures Sound(s, hash) && HasSpare(s) && View(s) == map[]
  {
    SpareAt(s, 0);
  }

  /** What an insertion under way says about the next slot to probe. */
  lemma InsertFacts<K, V>(s: seq<Slot<K, V>>, s0: seq<Slot<K, V>>, hash: K -> nat,
                          k: K, v: V, i: nat, ck: K, cv: V, dibn: nat)
    requires Inserting(s, s0, hash, k, v, i, ck, cv, dibn)
    ensures Sound(s, hash) && Sound(s0, hash) && |s| == |s0| && dibn <= i <= |s|
    ensures Wrap(Home(hash(ck), |s|) + dibn, |s|) == Wrap(Home(hash(k), |s|) + i, |s|)
  {
  }

  lemma RaisedNothing<K, V>(s: seq<Slot<K, V>>)
    ensures Raised(s, s)
  {
  }

  lemma SwapRaises<K, V>(s: seq<Slot<K, V>>, s0: seq<Slot<K, V>>, hash: K -> nat,
                         k: K, v: V, i: nat, ck: K, cv: V, dibn: nat)
    requires Inserting(s, s0, hash, k, v, i, ck, cv, dibn) && i < |s| && Raised(s, s0)
    requires var y := Probe(s, Home(hash(k), |s|), i); y.present && y.dib < dibn
    ensures var t := s[Wrap(Home(hash(k), |s|) + i, |s|) := Slot(true, ck, cv, dibn)]; Raised(t, s0) && Higher(t, s0)
  {
    hide Inserting, Raised, Higher, Home;
    ProbedBefore(s, s0, hash, k, v, i, ck, cv, dibn);
    RaisedMore(s, s0, Wrap(Home(hash(k), |s|) + i, |s|), Slot(true, ck, cv, dibn));
  }

  /** The slot probed next holds what it held before the insertion. */
  lemma ProbedBefore<K, V>(s: seq<Slot<K, V>>, s0: seq<Slot<K, V>>, hash: K -> nat,
                           k: K, v: V, i: nat, ck: K, cv: V, dibn: nat)
    requires Inserting(s, s0, hash, k, v, i, ck, cv, dibn) && i < |s|
    ensures var q := Wrap(Home(hash(k), |s|) + i, |s|); q < |s| == |s0| && s[q] == s0[q]
  {
    assert Probe(s, Home(hash(k), |s|), i) == Probe(s0, Home(hash(k), |s|), i);
  }

  // --------------------------------------------------------------- histories

  datatype Op<K, V> = Put(key: K, val: V) | Lookup(key: K) | Remove(key: K)

  datatype Reply<V> = Inserted(r: InsertResult) | Accessed(a: AccessResult<V>)

  /** The table is meant for: an insertion needs a free slot or a present key. */
  ghost predicate Fits<K, V>(m: map<K, V>, n: nat, op: Op<K, V>) {
    op.Put? ==> op.key in m || |m| < n
  }

  /** A finite map in which an insertion does not overwrite. */
  ghost function MapAfter<K, V>(m: map<K, V>, op: Op<K, V>): map<K, V> {
    match op
    case Put(k, v) => if k in m then m else m[k := v]
    case Lookup(_) => m
    case Remove(k) => m - {k}
  }

  ghost function MapReply<K, V>(m: map<K, V>, op: Op<K, V>): Reply<V> {
    match op
    case Put(k, _) => Inserted(if k in m then Exists else Success)
    case Lookup(k) => Accessed(if k in m then Found(m[k]) else DoesntExist)
    case Remove(k) => Accessed(if k in m then Found(m[k]) else DoesntExist)
  }

  ghost predicate AllFit<K, V>(m: map<K, V>, n: nat, ops: seq<Op<K, V>>)
    decreases |ops|
  {
    ops == [] || (Fits(m, n, ops[0]) && AllFit(MapAfter(m, ops[0]), n, ops[1..]))
  }

  ghost function MapReplies<K, V>(m: map<K, V>, ops: seq<Op<K, V>>): seq<Reply<V>>
    decreases |ops|
  {
    if ops == [] then [] else [MapReply(m, ops[0])] + MapReplies(MapAfter(m, ops[0]), ops[1..])
  }

  ghost function MapFinal<K, V>(m: map<K, V>, ops: seq<Op<K, V>>): map<K, V>
    decreases |ops|
  {
    if ops == [] then m else MapFinal(MapAfter(m, ops[0]), ops[1..])
  }

  method Step<K(==), V>(t: Table<K, V>, op: Op<K, V>) returns (r: Reply<V>)
    requires t.Valid() && Fits(t.Contents(), t.elems.Length, op)
    modifies t.elems
    ensures t.Valid() && t.Contents() == MapAfter(old(t.Contents()), op)
    ensures r == MapReply(old(t.Contents()), op)
  {
    hide View, Sound, HasSpare, Home, HasFree;
    t.Occupied();
    match op {
      case Put(k, v) =>
        var x, _ := t.Insert(k, v);
        r := Inserted(x);
      case Lookup(k) =>
        var x := t.Get(k);
        r := Accessed(x);
      case Remove(k) =>
        var x, _ := t.Delete(k);
        r := Accessed(x);
    }
  }

  /** Over every history of insertions, lookups and deletions in which an insertion
      finds a free slot or its key present, the table answers as the finite map does. */
  method Replay<K(==), V>(arr: array<Slot<K, V>>, hash: K -> nat, ops: seq<Op<K, V>>)
    returns (t: Table<K, V>, replies: seq<Reply<V>>)
    requires arr.Length > 0 && AllFit(map[], arr.Length, ops)
    modifies arr
    ensures t.Valid() && t.elems == arr && t.Contents() == MapFinal(map[], ops)
    ensures replies == MapReplies(map[], ops)
  {
    hide Sound, HasSpare, View, AllFit, MapReplies, MapFinal, MapAfter, MapReply, Fits;
    t := new Table(arr, hash);
    replies := [];
    var i := 0;
    assert ops[0..] == ops;
    while i < |ops|
      invariant i <= |ops| && t.elems == arr && t.Valid()
      invariant AllFit(t.Contents(), arr.Length, ops[i..])
      invariant MapFinal(t.Contents(), ops[i..]) == MapFinal(map[], ops)
      invariant replies + MapReplies(t.Contents(), ops[i..]) == MapReplies(map[], ops)
    {
      NextOp(t.Contents(), arr.Length, ops, i);
      var r := Step(t, ops[i]);
      replies := replies + [r];
      i := i + 1;
    }
    LastOp(t.Contents(), ops);
  }

  lemma NextOp<K, V>(m: map<K, V>, n: nat, ops: seq<Op<K, V>>, i: nat)
    requires i < |ops| && AllFit(m, n, ops[i..])
    ensures Fits(m, n, ops[i]) && AllFit(MapAfter(m, ops[i]), n, ops[i + 1..])
    ensures MapFinal(m, ops[i..]) == MapFinal(MapAfter(m, ops[i]), ops[i + 1..])
    ensures MapReplies(m, ops[i..]) == [MapReply(m, ops[i])] + MapReplies(MapAfter(m, ops[i]), ops[i + 1..])
  {
    assert ops[i..][1..] == ops[i + 1..];
  }

  lemma LastOp<K, V>(m: map<K, V>, ops: seq<Op<K, V>>)
    ensures MapFinal(m, ops[|ops|..]) == m && MapReplies(m, ops[|ops|..]) == []
  {
  }

  // ------------------------------------------------------ laws of the replies

  /** A history of at most as many operations as slots is always in scope. */
  lemma {:induction false} ShortFits<K, V>(m: map<K, V>, n: nat, ops: seq<Op<K, V>>)
    requires |m| + |ops| <= n
    ensures AllFit(m, n, ops)
    decreases |ops|
  {
    if ops != [] {
      AtMostOneMore(m, ops[0]);
      ShortFits(MapAfter(m, ops[0]), n, ops[1..]);
    }
  }

  lemma AtMostOneMore<K, V>(m: map<K, V>, op: Op<K, V>)
    ensures |MapAfter(m, op)| <= |m| + 1
  {
    match op
    case Put(k, v) => assert m[k := v].Keys == m.Keys + {k};
    case Lookup(_) =>
    case Remove(k) =>
      assert (m - {k}).Keys == m.Keys - {k};
      FewerKeys(m.Keys, k);
  }

  lemma FewerKeys<K>(s: set<K>, k: K)
    ensures |s - {k}| <= |s|
  {
    if k in s {
      assert s == (s - {k}) + {k};
    } else {
      assert s - {k} == s;
    }
  }

  /** The value that was put first under k since k was last removed, if any. */
  ghost function PutFirst<K, V>(ops: seq<Op<K, V>>, k: K): AccessResult<V> {
    if ops == [] then DoesntExist
    else
      var before := PutFirst(ops[..|ops| - 1], k);
      match ops[|ops| - 1]
      case Put(l, v) => if l == k && before == DoesntExist then Found(v) else before
      case Lookup(_) => before
      case Remove(l) => if l == k then DoesntExist else before
  }

  /** What each operation of a history is answered, from the operations before it alone. */
  lemma {:induction false} RepliesTell<K, V>(ops: seq<Op<K, V>>, i: nat)
    requires i < |ops|
    ensures |MapReplies(map[], ops)| == |ops|
    ensures MapReplies(map[], ops)[i]
         == match ops[i]
            case Put(k, _) => Inserted(if PutFirst(ops[..i], k) == DoesntExist then Success else Exists)
            case Lookup(k) => Accessed(PutFirst(ops[..i], k))
            case Remove(k) => Accessed(PutFirst(ops[..i], k))
  {
    assert ops[..i] + ops[i..] == ops;
    RepliesFrom(map[], ops[..i], ops[i..]);
    FinalTells(ops[..i], match ops[i] case Put(k, _) => k case Lookup(k) => k case Remove(k) => k);
    assert ops[i..][0] == ops[i];
  }

  /** The replies to b after a are those to b alone on the map that a leaves. */
  lemma {:induction false} RepliesFrom<K, V>(m: map<K, V>, a: seq<Op<K, V>>, b: seq<Op<K, V>>)
    ensures |MapReplies(m, a)| == |a| && |MapReplies(MapFinal(m, a), b)| == |b|
    ensures MapReplies(m, a + b) == MapReplies(m, a) + MapReplies(MapFinal(m, a), b)
    decreases |a|
  {
    hide MapAfter, MapReply, MapReplies, MapFinal;
    if a == [] {
      assert a + b == b;
      ReplyEach(m, b);
      NoReplies(m);
    } else {
      var m', x := MapAfter(m, a[0]), MapReply(m, a[0]);
      FirstReply(m, a);
      FirstReply(m, a + b);
      assert (a + b)[1..] == a[1..] + b && (a + b)[0] == a[0];
      RepliesFrom(m', a[1..], b);
      assert [x] + (MapReplies(m', a[1..]) + MapReplies(MapFinal(m', a[1..]), b))
          == ([x] + MapReplies(m', a[1..])) + MapReplies(MapFinal(m', a[1..]), b);
    }
  }

  lemma FirstReply<K, V>(m: map<K, V>, ops: seq<Op<K, V>>)
    requires ops != []
    ensures MapReplies(m, ops) == [MapReply(m, ops[0])] + MapReplies(MapAfter(m, ops[0]), ops[1..])
    ensures MapFinal(m, ops) == MapFinal(MapAfter(m, ops[0]), ops[1..])
  {
  }

  lemma NoReplies<K, V>(m: map<K, V>)
    ensures MapReplies(m, []) == [] && MapFinal(m, []) == m
  {
  }

  lemma {:induction false} ReplyEach<K, V>(m: map<K, V>, ops: seq<Op<K, V>>)
    ensures |MapReplies(m, ops)| == |ops|
    decreases |ops|
  {
    if ops != [] {
      ReplyEach(MapAfter(m, ops[0]), ops[1..]);
    }
  }

  /** The map a history leaves holds under each key what was put first. */
  lemma {:induction false} FinalTells<K, V>(ops: seq<Op<K, V>>, k: K)
    ensures var m: map<K, V> := MapFinal(map[], ops); PutFirst(ops, k) == if k in m then Found(m[k]) else DoesntExist
    decreases |ops|
  {
    if ops != [] {
      var n := |ops| - 1;
      FinalTells(ops[..n], k);
      assert ops == ops[..n] + [ops[n]];
      FinalLast(map[], ops[..n], ops[n]);
    }
  }

  lemma {:induction false} FinalLast<K, V>(m: map<K, V>, a: seq<Op<K, V>>, op: Op<K, V>)
    ensures MapFinal(m, a + [op]) == MapAfter(MapFinal(m, a), op)
    decreases |a|
  {
    hide MapAfter;
    if a == [] {
      assert a + [op] == [op] && [op][1..] == [];
    } else {
      assert (a + [op])[1..] == a[1..] + [op];
      FinalLast(MapAfter(m, a[0]), a[1..], op);
    }
  }

  // ---------------------------------------------------------------- full tables

  function Itself(k: nat): nat {
    k
  }

  /** Keys 0 and 2 are both at home in slot 0 of two: one of them is stored there, the
      other one slot away. */
  lemma TwoAtHome(s: seq<Slot<nat, char>>)
    requires |s| == 2 && Sound(s, Itself) && View(s).Keys == {0, 2}
    ensures s[0].present && s[0].dib == 0 && s[1].present && s[1].dib == 1
    ensures !HasFree(s) && !Unmoved(s, Home(Itself(1), 2), 2)
  {
    var i := ViewKey(s, 0);
    var j := ViewKey(s, 2);
    assert i != j;
    forall p | 0 <= p < 2 ensures s[p].present && (s[p].key == 0 || s[p].key == 2) {
      assert p == i || p == j;
    }
    assert Probe(s, 1, 1).dib < 1;
  }

  /** Inserting key 1 then is answered with a full table, and loses one of the two. */
  method FullTableLosesEntry() returns (t: Table<nat, char>, r: InsertResult)
    ensures fresh(t) && fresh(t.elems) && t.elems.Length == 2 && t.hash == Itself
    ensures t.Searchable() && r == Full && 1 in t.Contents() && !(0 in t.Contents() && 2 in t.Contents())
    ensures !HasSpare(t.elems[..])
  {
    hide View, Sound, HasFree, HasSpare, Home, Unmoved;
    var arr := new Slot<nat, char>[2](_ => Slot(false, 0, 'a', 0));
    t := new Table(arr, Itself);
    t.Occupied();
    var first, _ := t.Insert(0, 'a');
    t.Occupied();
    assert t.Contents() == map[0 := 'a'];
    var second, _ := t.Insert(2, 'b');
    assert t.Contents() == map[0 := 'a', 2 := 'b'];
    ghost var s0 := t.elems[..];
    TwoAtHome(s0);
    ghost var dropped;
    r, dropped := t.Insert(1, 'c');
    Crowded(t.elems[..], s0);
    t.Occupied();
    ThreeKeys(t.Contents());
  }

  lemma ThreeKeys(m: map<nat, char>)
    ensures 0 in m && 1 in m && 2 in m ==> |m| >= 3
  {
    if 0 in m && 1 in m && 2 in m {
      assert |m.Keys - {0, 1, 2}| == |m.Keys| - 3;
    }
  }

  /** No slot of the two is empty or holds an entry at home any more. */
  lemma Crowded(s: seq<Slot<nat, char>>, s0: seq<Slot<nat, char>>)
    requires |s| == |s0| == 2 && Sound(s, Itself) && Raised(s, s0) && Higher(s, s0)
    requires s0[0].present && s0[0].dib == 0 && s0[1].present && s0[1].dib == 1
    ensures !HasSpare(s)
  {
    assert s[0].dib > 0 && s[1].dib > 0;
  }

  /** Deleting the stored key 1 from that table runs out: the answer is that it is not
      there, and another entry is left stored twice. */
  method DeleteRunsOut() returns (t: Table<nat, char>, r: AccessResult<char>)
    ensures r == DoesntExist && !Distinct(t.elems[..]) && 1 !in StoredKeys(t.elems[..])
  {
    hide View, Sound, HasSpare, Distinct, StoredKeys;
    var full;
    t, full := FullTableLosesEntry();
    var ended;
    r, ended := t.Delete(1);
  }
}
