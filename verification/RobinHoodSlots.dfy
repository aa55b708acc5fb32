/** Robin Hood open addressing, on the sequence of slots: the invariant of the
    table, what it means for searching, and how the single steps of the probe and
    shift loops change it. */
module RobinHoodSlots {
  import opened Arith

  /** A slot; dib is the distance of its entry from the entry's home slot. */
  datatype Slot<K, V> = Slot(present: bool, key: K, val: V, dib: nat)

  /** x reduced into a table of n slots, for x below 2n. */
  function Wrap(x: nat, n: nat): nat {
    if x < n then x else x - n
  }

  function Home(hash: nat, n: nat): (r: nat)
    requires n > 0
    ensures r < n
  {
    hash % n
  }

  /** The slot probed at distance i by the entry with hash x. */
  function Bucket(x: nat, i: nat, n: nat): (r: nat)
    requires n > 0
    ensures r < n
  {
    (x + i) % n
  }

  ghost function Prev(i: nat, n: nat): nat
    requires i < n
  {
    if i == 0 then n - 1 else i - 1
  }

  lemma {:induction false} ModWrap(x: nat, i: nat, n: nat)
    requires n > 0 && i <= n
    ensures Bucket(x, i, n) == Wrap(Home(x, n) + i, n)
  {
    var q, r := x / n, x % n;
    assert x == q * n + r;
    if r + i < n {
      ModUnique(x + i, q, r + i, n);
    } else {
      assert (q + 1) * n == q * n + n;
      ModUnique(x + i, q + 1, r + i - n, n);
    }
  }

  lemma ModUnique(x: nat, q: nat, r: nat, n: nat)
    requires n > 0 && r < n && x == q * n + r
    ensures x % n == r
  {
    var d := x / n;
    assert x == d * n + x % n;
    if d < q {
      MulMonotone(d + 1, q, n);
    } else if q < d {
      MulMonotone(q + 1, d, n);
    }
  }

  /** The slot at circular distance e behind home. */
  ghost function Probe<K, V>(s: seq<Slot<K, V>>, home: nat, e: nat): Slot<K, V>
    requires home < |s| && e <= |s|
  {
    s[Wrap(home + e, |s|)]
  }

  /** Every stored dib is the circular distance of the slot from the key's home. */
  ghost predicate DibsRight<K, V>(s: seq<Slot<K, V>>, hash: K -> nat) {
    forall i :: 0 <= i < |s| && s[i].present ==>
      s[i].dib < |s| && Wrap(Home(hash(s[i].key), |s|) + s[i].dib, |s|) == i
  }

  /** Slot i is in order: an entry away from home follows an entry that is at most
      one slot nearer to its own home. */
  ghost predicate InOrder<K, V>(s: seq<Slot<K, V>>, i: nat)
    requires i < |s|
  {
    s[i].present && s[i].dib > 0 ==>
      s[Prev(i, |s|)].present && s[Prev(i, |s|)].dib >= s[i].dib - 1
  }

  ghost predicate Distinct<K, V>(s: seq<Slot<K, V>>) {
    forall i, j :: 0 <= i < j < |s| && s[i].present && s[j].present ==> s[i].key != s[j].key
  }

  ghost predicate Sound<K, V>(s: seq<Slot<K, V>>, hash: K -> nat) {
    && |s| > 0
    && DibsRight(s, hash)
    && (forall i :: 0 <= i < |s| ==> InOrder(s, i))
    && Distinct(s)
  }

  /** Some slot is empty or holds an entry that is at home. */
  ghost predicate HasSpare<K, V>(s: seq<Slot<K, V>>) {
    exists i :: 0 <= i < |s| && (!s[i].present || s[i].dib == 0)
  }

  ghost predicate HasFree<K, V>(s: seq<Slot<K, V>>) {
    exists i :: 0 <= i < |s| && !s[i].present
  }

  /** The finite map that the table stands for. */
  ghost function View<K, V>(s: seq<Slot<K, V>>): map<K, V>
    requires Distinct(s)
  {
    map i | 0 <= i < |s| && s[i].present :: s[i].key := s[i].val
  }

  // ------------------------------------------------------------ the map view

  lemma ViewAt<K, V>(s: seq<Slot<K, V>>, i: nat)
    requires Distinct(s) && i < |s| && s[i].present
    ensures s[i].key in View(s) && View(s)[s[i].key] == s[i].val
  {
  }

  lemma ViewKey<K, V>(s: seq<Slot<K, V>>, k: K) returns (i: nat)
    requires Distinct(s) && k in View(s)
    ensures i < |s| && s[i].present && s[i].key == k && s[i].val == View(s)[k]
  {
    i :| 0 <= i < |s| && s[i].present && s[i].key == k;
  }

  /** Filling slot q, empty or not, with an entry under a new key. */
  lemma ViewPut<K, V>(s: seq<Slot<K, V>>, q: nat, x: Slot<K, V>)
    requires Distinct(s) && q < |s| && x.present && x.key !in View(s)
    ensures Distinct(s[q := x])
    ensures !s[q].present ==> View(s[q := x]) == View(s)[x.key := x.val]
    ensures s[q].present ==> View(s[q := x]) == (View(s) - {s[q].key})[x.key := x.val]
  {
    hide View;
    var t := s[q := x];
    assert Distinct(t) by {
      forall i | 0 <= i < |s| && s[i].present ensures s[i].key != x.key {
        ViewAt(s, i);
      }
    }
    var m := if s[q].present then (View(s) - {s[q].key})[x.key := x.val] else View(s)[x.key := x.val];
    forall k | k in View(t) ensures k in m && View(t)[k] == m[k] {
      var i := ViewKey(t, k);
      if i != q {
        ViewAt(s, i);
      }
    }
    forall k | k in m ensures k in View(t) {
      if k == x.key {
        ViewAt(t, q);
      } else {
        var i := ViewKey(s, k);
        ViewAt(t, i);
      }
    }
  }

  lemma ViewClear<K, V>(s: seq<Slot<K, V>>, q: nat, gone: Slot<K, V>)
    requires Distinct(s) && q < |s| && s[q].present && !gone.present
    ensures Distinct(s[q := gone])
    ensures View(s[q := gone]) == View(s) - {s[q].key}
  {
    hide View;
    var t, m := s[q := gone], View(s) - {s[q].key};
    forall k | k in View(t) ensures k in m && View(t)[k] == m[k] {
      var i := ViewKey(t, k);
      ViewAt(s, i);
    }
    forall k | k in m ensures k in View(t) {
      var i := ViewKey(s, k);
      ViewAt(t, i);
    }
  }

  // ---------------------------------------------------------------- searching

  /** Behind the home of a stored key, up to its slot, every slot is filled with an
      entry at least as far from its home: the search for the key passes them all. */
  lemma {:induction false} PathFilled<K, V>(s: seq<Slot<K, V>>, hash: K -> nat, p: nat, e: nat)
    requires Sound(s, hash) && p < |s| && s[p].present && e <= s[p].dib
    ensures var x := Probe(s, Home(hash(s[p].key), |s|), e); x.present && x.dib >= e
    decreases s[p].dib - e
  {
    if e < s[p].dib {
      PathFilled(s, hash, p, e + 1);
      var q := Wrap(Home(hash(s[p].key), |s|) + e + 1, |s|);
      assert InOrder(s, q);
      assert Prev(q, |s|) == Wrap(Home(hash(s[p].key), |s|) + e, |s|);
    }
  }

  /** The slot at distance e holds key k. */
  ghost predicate HoldsKey<K, V>(s: seq<Slot<K, V>>, home: nat, e: nat, k: K)
    requires home < |s| && e <= |s|
  {
    Probe(s, home, e).present && Probe(s, home, e).key == k
  }

  /** Where the search stops early - an empty slot, or an entry nearer to its home
      than the search is to the key's - no slot from there on holds the key. */
  lemma StopMeansAbsent<K, V>(s: seq<Slot<K, V>>, hash: K -> nat, k: K, e: nat)
    requires Sound(s, hash) && e < |s|
    requires var x := Probe(s, Home(hash(k), |s|), e); !x.present || x.dib < e
    ensures forall f :: e <= f < |s| ==> !HoldsKey(s, Home(hash(k), |s|), f, k)
  {
    var home := Home(hash(k), |s|);
    forall f | e <= f < |s| ensures !HoldsKey(s, home, f, k) {
      if HoldsKey(s, home, f, k) {
        DibIsDistance(s, hash, home, f);
        PathFilled(s, hash, Wrap(home + f, |s|), e);
      }
    }
  }

  /** A key found at distance f from its home has dib f. */
  lemma DibIsDistance<K, V>(s: seq<Slot<K, V>>, hash: K -> nat, home: nat, f: nat)
    requires Sound(s, hash) && home < |s| && f < |s|
    ensures var x := Probe(s, home, f); x.present && Home(hash(x.key), |s|) == home ==> x.dib == f
  {
  }

  /** Where entries are: dib slots behind the slot that is the hash modulo the size, going
      round; so one at home, with dib 0, is in that slot. */
  lemma StoredAt<K, V>(s: seq<Slot<K, V>>, hash: K -> nat, i: nat)
    requires Sound(s, hash) && i < |s| && s[i].present
    ensures s[i].dib < |s| && i == (hash(s[i].key) + s[i].dib) % |s|
    ensures s[i].dib == 0 ==> i == hash(s[i].key) % |s|
  {
    ModWrap(hash(s[i].key), s[i].dib, |s|);
  }

  /** An entry without a filled slot in front of it is at home. */
  lemma NothingInFront<K, V>(s: seq<Slot<K, V>>, hash: K -> nat, i: nat)
    requires Sound(s, hash) && i < |s| && s[i].present && !s[Prev(i, |s|)].present
    ensures s[i].dib == 0 && i == hash(s[i].key) % |s|
  {
    assert InOrder(s, i);
    StoredAt(s, hash, i);
  }

  /** The slots at distances 0 to n - 1 from any home are all slots. */
  lemma EverySlot(home: nat, n: nat, i: nat) returns (e: nat)
    requires home < n && i < n
    ensures e < n && Wrap(home + e, n) == i
  {
    e := if i >= home then i - home else i + n - home;
  }

  /** No slot at any distance from its home holds the key: it is not stored. */
  lemma AbsentEverywhere<K, V>(s: seq<Slot<K, V>>, home: nat, k: K)
    requires Distinct(s) && home < |s|
    requires forall e :: 0 <= e < |s| ==> !HoldsKey(s, home, e, k)
    ensures k !in View(s)
  {
    if k in View(s) {
      var i := ViewKey(s, k);
      var e := EverySlot(home, |s|, i);
      assert HoldsKey(s, home, e, k);
    }
  }

  /** The search from the key's home has passed e slots and now meets a slot where
      it stops: the key is not stored. */
  lemma SearchFails<K, V>(s: seq<Slot<K, V>>, hash: K -> nat, k: K, e: nat)
    requires Sound(s, hash) && e <= |s|
    requires forall f :: 0 <= f < e ==> !HoldsKey(s, Home(hash(k), |s|), f, k)
    requires e < |s| ==> var x := Probe(s, Home(hash(k), |s|), e); !x.present || x.dib < e
    ensures k !in View(s)
  {
    if e < |s| {
      StopMeansAbsent(s, hash, k, e);
    }
    AbsentEverywhere(s, Home(hash(k), |s|), k);
  }

  // ---------------------------------------------------------------- insertion

  /** State of an insertion of (k, v) into table s0 after i probes: the entry
      (ck, cv) is carried, dibn slots from its own home, to the i-th probe. */
  ghost predicate Inserting<K, V>(s: seq<Slot<K, V>>, s0: seq<Slot<K, V>>, hash: K -> nat,
                                  k: K, v: V, i: nat, ck: K, cv: V, dibn: nat) {
    && |s| == |s0| && Sound(s, hash) && Sound(s0, hash) && i <= |s|
    && var home := Home(hash(k), |s|);
    && dibn <= i && Wrap(Home(hash(ck), |s|) + dibn, |s|) == Wrap(home + i, |s|)
    && (dibn > 0 ==> Probe(s, home, i - 1).present && Probe(s, home, i - 1).dib >= dibn - 1)
    && (forall e :: 0 <= e < i ==> Probe(s, home, e).present && Probe(s0, home, e).present)
    && (forall e :: i <= e < |s| ==> Probe(s, home, e) == Probe(s0, home, e))
    && (i > 0 ==> Probe(s, home, 0) == Probe(s0, home, 0))
    && if k in View(s0) then
         s == s0 && ck == k && dibn == i && forall e :: 0 <= e < i ==> !HoldsKey(s0, home, e, k)
       else
         && ck !in View(s)
         && View(s)[ck := cv] == View(s0)[k := v]
         && if Unmoved(s0, home, i) then s == s0 && ck == k && cv == v && dibn == i else ck in View(s0)
  }

  /** Each of the first i entries probed is at least as far from its home as the
      search is from its own. */
  ghost predicate Unmoved<K, V>(s: seq<Slot<K, V>>, home: nat, i: nat)
    requires home < |s| && i <= |s|
  {
    forall e :: 0 <= e < i ==> Probe(s, home, e).dib >= e
  }

  /** No slot has been emptied or given to an entry nearer to its home. */
  ghost predicate Raised<K, V>(s: seq<Slot<K, V>>, s0: seq<Slot<K, V>>) {
    |s| == |s0| && forall i :: 0 <= i < |s0| && s0[i].present ==> s[i].present && s[i].dib >= s0[i].dib
  }

  /** Some slot has been given to an entry farther from its home. */
  ghost predicate Higher<K, V>(s: seq<Slot<K, V>>, s0: seq<Slot<K, V>>) {
    |s| == |s0| && exists i :: 0 <= i < |s0| && s0[i].present && s[i].dib > s0[i].dib
  }

  lemma RaisedMore<K, V>(s: seq<Slot<K, V>>, s0: seq<Slot<K, V>>, q: nat, x: Slot<K, V>)
    requires Raised(s, s0) && q < |s| && x.present && (s[q].present ==> s[q].dib < x.dib)
    ensures Raised(s[q := x], s0)
    ensures s0[q].present || Higher(s, s0) ==> Higher(s[q := x], s0)
  {
    if s0[q].present {
      assert s[q := x][q].dib > s0[q].dib;
    } else if Higher(s, s0) {
      var i :| 0 <= i < |s0| && s0[i].present && s[i].dib > s0[i].dib;
      assert s[q := x][i].dib > s0[i].dib;
    }
  }

  /** Writing the carried entry into the probed slot keeps the table sound. */
  lemma PutSound<K, V>(s: seq<Slot<K, V>>, hash: K -> nat, home: nat, i: nat, x: Slot<K, V>)
    requires Sound(s, hash) && home < |s| && i < |s|
    requires x.present && x.dib <= i && x.key !in View(s)
    requires Wrap(Home(hash(x.key), |s|) + x.dib, |s|) == Wrap(home + i, |s|)
    requires x.dib > 0 ==> Probe(s, home, i - 1).present && Probe(s, home, i - 1).dib >= x.dib - 1
    requires var y := Probe(s, home, i); !y.present || y.dib < x.dib
    ensures Sound(s[Wrap(home + i, |s|) := x], hash)
  {
    hide View;
    var q := Wrap(home + i, |s|);
    var t := s[q := x];
    ViewPut(s, q, x);
    forall j | 0 <= j < |t| ensures InOrder(t, j) {
      assert InOrder(s, j);
      if j == q && i > 0 {
        assert Prev(q, |s|) == Wrap(home + i - 1, |s|);
      }
    }
  }

  lemma InsertStart<K, V>(s0: seq<Slot<K, V>>, hash: K -> nat, k: K, v: V)
    requires Sound(s0, hash)
    ensures Inserting(s0, s0, hash, k, v, 0, k, v, 0)
  {
  }

  /** The probed slot stays as it is and does not hold the carried key. */
  lemma InsertPass<K, V>(s: seq<Slot<K, V>>, s0: seq<Slot<K, V>>, hash: K -> nat,
                         k: K, v: V, i: nat, ck: K, cv: V, dibn: nat)
    requires Inserting(s, s0, hash, k, v, i, ck, cv, dibn) && i < |s|
    requires var y := Probe(s, Home(hash(k), |s|), i); y.present && y.dib >= dibn && y.key != ck
    ensures Inserting(s, s0, hash, k, v, i + 1, ck, cv, dibn + 1)
  {
    hide View, Sound;
  }

  /** The probed entry is nearer to its home: it is swapped with the carried one. */
  lemma InsertSwap<K, V>(s: seq<Slot<K, V>>, s0: seq<Slot<K, V>>, hash: K -> nat,
                         k: K, v: V, i: nat, ck: K, cv: V, dibn: nat)
    requires Inserting(s, s0, hash, k, v, i, ck, cv, dibn) && i < |s|
    requires var y := Probe(s, Home(hash(k), |s|), i); y.present && y.dib < dibn
    ensures var y := Probe(s, Home(hash(k), |s|), i);
            y.key != ck &&
            Inserting(s[Wrap(Home(hash(k), |s|) + i, |s|) := Slot(true, ck, cv, dibn)], s0, hash,
                      k, v, i + 1, y.key, y.val, y.dib + 1)
  {
    hide View, Sound, DibsRight, InOrder, Distinct, Home;
    var home := Home(hash(k), |s|);
    var q, x := Wrap(home + i, |s|), Slot(true, ck, cv, dibn);
    var y, t := s[q], s[q := x];
    SoundParts(s, hash, q);
    SoundParts(s0, hash, q);
    if k in View(s0) {
      SearchFails(s0, hash, k, i);
    }
    PutSound(s, hash, home, i, x);
    ViewPut(s, q, x);
    ViewAt(s, q);
    ViewAt(s0, q);
    MapSwap(View(s), y.key, ck, cv);
    ProbeUpdate(s, home, i, x);
    WrapNext(Home(hash(y.key), |s|), y.dib, home, i, |s|);
  }

  lemma SoundFacts<K, V>(s: seq<Slot<K, V>>, hash: K -> nat)
    requires Sound(s, hash)
    ensures |s| > 0 && Distinct(s)
  {
  }

  lemma SoundParts<K, V>(s: seq<Slot<K, V>>, hash: K -> nat, q: nat)
    requires Sound(s, hash) && q < |s|
    ensures Distinct(s)
    ensures s[q].present ==> s[q].dib < |s| && Wrap(Home(hash(s[q].key), |s|) + s[q].dib, |s|) == q
  {
  }

  lemma MapSwap<K, V>(m: map<K, V>, a: K, c: K, d: V)
    requires a in m && a != c
    ensures (m - {a})[c := d][a := m[a]] == m[c := d]
  {
  }

  lemma ProbeUpdate<K, V>(s: seq<Slot<K, V>>, home: nat, i: nat, x: Slot<K, V>)
    requires home < |s| && i < |s|
    ensures var t := s[Wrap(home + i, |s|) := x];
            && Probe(t, home, i) == x
            && forall e :: 0 <= e < |s| && e != i ==> Probe(t, home, e) == Probe(s, home, e)
  {
  }

  lemma WrapNext(a: nat, d: nat, b: nat, i: nat, n: nat)
    requires a < n && d < n && b < n && i < n && Wrap(a + d, n) == Wrap(b + i, n)
    ensures Wrap(a + d + 1, n) == Wrap(b + i + 1, n)
  {
  }

  /** The probed slot is empty: the carried entry goes there. */
  lemma InsertHere<K, V>(s: seq<Slot<K, V>>, s0: seq<Slot<K, V>>, hash: K -> nat,
                         k: K, v: V, i: nat, ck: K, cv: V, dibn: nat)
    requires Inserting(s, s0, hash, k, v, i, ck, cv, dibn) && i < |s|
    requires !Probe(s, Home(hash(k), |s|), i).present
    ensures var t := s[Wrap(Home(hash(k), |s|) + i, |s|) := Slot(true, ck, cv, dibn)];
            Sound(t, hash) && HasSpare(t) && HasFree(s0) && k !in View(s0) && View(t) == View(s0)[k := v]
  {
    hide View, Sound, DibsRight, HasSpare, HasFree, InOrder, Distinct, Home;
    var home := Home(hash(k), |s|);
    var q, x := Wrap(home + i, |s|), Slot(true, ck, cv, dibn);
    SoundParts(s, hash, q);
    SoundParts(s0, hash, q);
    if k in View(s0) {
      SearchFails(s0, hash, k, i);
    }
    PutSound(s, hash, home, i, x);
    ViewPut(s, q, x);
    FreeAt(s0, q);
    ProbeUpdate(s, home, i, x);
    if i == 0 {
      SpareAt(s[q := x], q);
    } else if i + 1 < |s| {
      BehindFree(s0, hash, home, i);
      SpareAt(s[q := x], Wrap(home + i + 1, |s|));
    } else {
      BehindFree(s0, hash, home, i);
      SpareAt(s[q := x], Wrap(home, |s|));
    }
  }

  lemma FreeAt<K, V>(s: seq<Slot<K, V>>, i: nat)
    requires i < |s| && !s[i].present
    ensures HasFree(s)
  {
  }

  lemma SpareAt<K, V>(s: seq<Slot<K, V>>, i: nat)
    requires i < |s| && (!s[i].present || s[i].dib == 0)
    ensures HasSpare(s)
  {
  }

  /** The slot behind an empty one is empty or holds an entry at home. */
  lemma BehindFree<K, V>(s: seq<Slot<K, V>>, hash: K -> nat, home: nat, i: nat)
    requires Sound(s, hash) && home < |s| && i < |s| && !Probe(s, home, i).present
    ensures var y := Probe(s, home, if i + 1 < |s| then i + 1 else 0); !y.present || y.dib == 0
  {
    var e := if i + 1 < |s| then i + 1 else 0;
    var j := Wrap(home + e, |s|);
    assert InOrder(s, j);
    assert Prev(j, |s|) == Wrap(home + i, |s|);
  }

  /** The probed slot holds the carried key: that is the key to insert, and the
      table has not been touched. */
  lemma InsertFound<K, V>(s: seq<Slot<K, V>>, s0: seq<Slot<K, V>>, hash: K -> nat,
                          k: K, v: V, i: nat, ck: K, cv: V, dibn: nat)
    requires Inserting(s, s0, hash, k, v, i, ck, cv, dibn) && i < |s|
    requires var y := Probe(s, Home(hash(k), |s|), i); y.present && y.key == ck
    ensures k in View(s0) && s == s0
  {
    ViewAt(s, Wrap(Home(hash(k), |s|) + i, |s|));
  }

  /** All slots have been probed: the table is full, the key was not stored, and
      the entry still carried is lost. */
  lemma InsertFull<K, V>(s: seq<Slot<K, V>>, s0: seq<Slot<K, V>>, hash: K -> nat,
                         k: K, v: V, ck: K, cv: V, dibn: nat)
    requires Inserting(s, s0, hash, k, v, |s|, ck, cv, dibn)
    ensures k !in View(s0) && !HasFree(s) && !HasFree(s0)
    ensures View(s) == View(s0)[k := v] - {ck}
    ensures Unmoved(s0, Home(hash(k), |s|), |s|) <==> ck == k
    ensures ck == k ==> s == s0
  {
    hide View, Sound, DibsRight, InOrder, Distinct, Home;
    var home := Home(hash(k), |s|);
    SoundParts(s, hash, 0);
    SoundParts(s0, hash, 0);
    if k in View(s0) {
      SearchFails(s0, hash, k, |s|);
    }
    MapDrop(View(s), View(s0)[k := v], ck, cv);
    NoneFree(s, home);
    NoneFree(s0, home);
  }

  lemma MapDrop<K, V>(m: map<K, V>, full: map<K, V>, a: K, b: V)
    requires a !in m && m[a := b] == full
    ensures m == full - {a}
  {
  }

  lemma NoneFree<K, V>(s: seq<Slot<K, V>>, home: nat)
    requires home < |s| && forall e :: 0 <= e < |s| ==> Probe(s, home, e).present
    ensures !HasFree(s)
  {
    forall i | 0 <= i < |s| ensures s[i].present {
      var e := EverySlot(home, |s|, i);
      assert Probe(s, home, e).present;
    }
  }

  // ------------------------------------------------------------------ deletion

  /** State of a deletion of k, found at distance d, when the hole has moved to
      distance i; c is the table with the hole taken as empty. Only the slot behind
      the hole may be out of order. */
  ghost predicate Shifting<K, V>(c: seq<Slot<K, V>>, s0: seq<Slot<K, V>>, hash: K -> nat, k: K, d: nat, i: nat) {
    && |c| == |s0| && Sound(s0, hash) && DibsRight(c, hash) && Distinct(c) && d <= i < |c|
    && var home := Home(hash(k), |c|);
    && !Probe(c, home, i).present
    && View(c) == View(s0) - {k}
    && (forall j :: 0 <= j < |c| && Prev(j, |c|) != Wrap(home + i, |c|) ==> InOrder(c, j))
    && HoleInOrder(c, home, i, Probe(s0, home, i).dib)
    && ShiftedSoFar(c, s0, home, d, i)
  }

  /** Which slots a deletion has shifted: those from d to i were filled, behind d
      with entries away from home; those behind i are untouched. */
  ghost predicate ShiftedSoFar<K, V>(c: seq<Slot<K, V>>, s0: seq<Slot<K, V>>, home: nat, d: nat, i: nat)
    requires home < |c| == |s0| && d <= i < |c|
  {
    && (forall e :: i < e < |c| ==> Probe(c, home, e) == Probe(s0, home, e))
    && (forall e :: d < e <= i ==> Probe(s0, home, e).present && Probe(s0, home, e).dib > 0)
    && (forall e :: 0 <= e <= d ==> Probe(s0, home, e).present && Probe(s0, home, e).dib >= e)
    && (d > 0 ==> Probe(c, home, 0) == Probe(s0, home, 0))
    && (d == 0 ==> Probe(s0, home, 0).dib == 0)
    && (d == 0 && i > 0 ==> Probe(c, home, 0).dib == 0)
  }

  lemma ShiftedNext<K, V>(c: seq<Slot<K, V>>, s0: seq<Slot<K, V>>, home: nat, d: nat, i: nat,
                          x: Slot<K, V>, gone: Slot<K, V>)
    requires home < |c| == |s0| && d <= i && i + 1 < |c| && ShiftedSoFar(c, s0, home, d, i)
    requires Probe(c, home, i + 1).present && Probe(c, home, i + 1).dib > 0
    requires x.dib <= Probe(s0, home, i).dib
    ensures var a, b := Wrap(home + i, |c|), Wrap(home + i + 1, |c|);
            && a != b
            && ShiftedSoFar(c[a := x][b := gone], s0, home, d, i + 1)
            && Probe(c[a := x][b := gone], home, i + 1) == gone
            && Probe(s0, home, i + 1) == Probe(c, home, i + 1)
  {
    hide Probe, Wrap;
    var a := Wrap(home + i, |c|);
    WrapDiffers(home, i, |c|);
    ProbeUpdate(c, home, i, x);
    ProbeUpdate(c[a := x], home, i + 1, gone);
  }

  lemma WrapDiffers(home: nat, i: nat, n: nat)
    requires home < n && i + 1 < n
    ensures Wrap(home + i, n) != Wrap(home + i + 1, n)
    ensures Wrap(home + i, n) < n && Wrap(home + i + 1, n) < n
  {
  }

  /** The neighbours of the hole would be in order with an entry of distance gd in it. */
  ghost predicate HoleInOrder<K, V>(c: seq<Slot<K, V>>, home: nat, i: nat, gd: nat)
    requires home < |c| && i < |c|
  {
    && (var y := c[Prev(Wrap(home + i, |c|), |c|)]; |c| > 1 && gd > 0 ==> y.present && y.dib >= gd - 1)
    && (var y := Probe(c, home, i + 1); y.present && y.dib > 0 ==> y.dib <= gd + 1)
  }

  lemma ShiftStart<K, V>(s0: seq<Slot<K, V>>, hash: K -> nat, k: K, d: nat)
    requires Sound(s0, hash) && d < |s0| && HoldsKey(s0, Home(hash(k), |s0|), d, k)
    ensures var q := Wrap(Home(hash(k), |s0|) + d, |s0|);
            Shifting(s0[q := s0[q].(present := false)], s0, hash, k, d, d)
  {
    hide View, Home, InOrder, HoleInOrder, Prev, DibsRight, Distinct, ShiftedSoFar;
    var home := Home(hash(k), |s0|);
    var q := Wrap(home + d, |s0|);
    var gone := s0[q].(present := false);
    ViewClear(s0, q, gone);
    ClearDibs(s0, hash, q, gone);
    ClearedSoFar(s0, hash, k, d, gone);
    ClearOrder(s0, home, d, gone);
  }

  lemma ClearDibs<K, V>(s: seq<Slot<K, V>>, hash: K -> nat, q: nat, gone: Slot<K, V>)
    requires DibsRight(s, hash) && q < |s| && !gone.present
    ensures DibsRight(s[q := gone], hash)
  {
  }

  lemma ClearedSoFar<K, V>(s0: seq<Slot<K, V>>, hash: K -> nat, k: K, d: nat, gone: Slot<K, V>)
    requires Sound(s0, hash) && d < |s0| && HoldsKey(s0, Home(hash(k), |s0|), d, k)
    requires !gone.present && gone.dib == Probe(s0, Home(hash(k), |s0|), d).dib
    ensures var home := Home(hash(k), |s0|);
            var c := s0[Wrap(home + d, |s0|) := gone];
            ShiftedSoFar(c, s0, home, d, d) && !Probe(c, home, d).present
  {
    hide Home, InOrder, Sound;
    var home := Home(hash(k), |s0|);
    var q := Wrap(home + d, |s0|);
    DibIsDistance(s0, hash, home, d);
    ProbeUpdate(s0, home, d, gone);
    forall e | 0 <= e <= d ensures Probe(s0, home, e).present && Probe(s0, home, e).dib >= e {
      PathFilled(s0, hash, q, e);
    }
  }

  lemma ClearOrder<K, V>(s: seq<Slot<K, V>>, home: nat, d: nat, gone: Slot<K, V>)
    requires home < |s| && d < |s| && !gone.present && forall j :: 0 <= j < |s| ==> InOrder(s, j)
    requires Probe(s, home, d).present
    ensures var q := Wrap(home + d, |s|);
            && (forall j :: 0 <= j < |s| && Prev(j, |s|) != q ==> InOrder(s[q := gone], j))
            && HoleInOrder(s[q := gone], home, d, Probe(s, home, d).dib)
  {
    var q := Wrap(home + d, |s|);
    var c := s[q := gone];
    forall j | 0 <= j < |c| && Prev(j, |c|) != q ensures InOrder(c, j) {
      assert InOrder(s, j);
    }
    assert InOrder(s, q);
    var b := Wrap(home + d + 1, |c|);
    assert InOrder(s, b);
    assert Prev(b, |c|) == q;
  }

  /** The entry behind the hole moves into it, one slot nearer to its home. */
  lemma ShiftMove<K, V>(c: seq<Slot<K, V>>, s0: seq<Slot<K, V>>, hash: K -> nat, k: K, d: nat, i: nat)
    requires Shifting(c, s0, hash, k, d, i) && i + 1 < |c|
    requires var y := Probe(c, Home(hash(k), |c|), i + 1); y.present && y.dib > 0
    ensures var a, b := Wrap(Home(hash(k), |c|) + i, |c|), Wrap(Home(hash(k), |c|) + i + 1, |c|);
            Shifting(c[a := c[b].(dib := c[b].dib - 1)][b := c[b].(present := false)], s0, hash, k, d, i + 1)
  {
    hide View, Sound, Home, DibsRight, Distinct, InOrder, HoleInOrder, Prev, ShiftedSoFar;
    var home := Home(hash(k), |c|);
    var a, b := Wrap(home + i, |c|), Wrap(home + i + 1, |c|);
    var y := c[b];
    var x, gone := y.(dib := y.dib - 1), y.(present := false);
    MoveOrder(c, home, i, Probe(s0, home, i).dib, x, gone);
    ShiftedNext(c, s0, home, d, i, x, gone);
    MoveView(c, a, b, x, gone);
    MoveDibs(c, hash, a, b, x, gone);
  }

  lemma MoveOrder<K, V>(c: seq<Slot<K, V>>, home: nat, i: nat, gd: nat, x: Slot<K, V>, gone: Slot<K, V>)
    requires home < |c| && i + 1 < |c|
    requires var y := Probe(c, home, i + 1); y.present && y.dib > 0 && x == y.(dib := y.dib - 1) && !gone.present
    requires HoleInOrder(c, home, i, gd)
    requires forall j :: 0 <= j < |c| && Prev(j, |c|) != Wrap(home + i, |c|) ==> InOrder(c, j)
    ensures x.dib <= gd
    ensures var a, b := Wrap(home + i, |c|), Wrap(home + i + 1, |c|);
            var t := c[a := x][b := gone];
            && a == Prev(b, |c|)
            && (forall j :: 0 <= j < |t| && Prev(j, |t|) != b ==> InOrder(t, j))
            && HoleInOrder(t, home, i + 1, Probe(c, home, i + 1).dib)
  {
    var a, b := Wrap(home + i, |c|), Wrap(home + i + 1, |c|);
    var t := c[a := x][b := gone];
    forall j | 0 <= j < |t| && Prev(j, |t|) != b ensures InOrder(t, j) {
      if j == a {
        assert c[Prev(a, |c|)] == t[Prev(a, |c|)];
      } else if j != b {
        assert InOrder(c, j);
      }
    }
    var b2 := if b + 1 < |c| then b + 1 else 0;
    assert Wrap(home + i + 2, |c|) == b2;
    assert Prev(b, |c|) == a && Prev(b2, |c|) == b;
    assert InOrder(c, b2);
  }

  lemma MoveDibs<K, V>(c: seq<Slot<K, V>>, hash: K -> nat, a: nat, b: nat, x: Slot<K, V>, gone: Slot<K, V>)
    requires DibsRight(c, hash) && a < |c| && b < |c| && a != b && a == Prev(b, |c|)
    requires c[b].present && c[b].dib > 0 && x == c[b].(dib := c[b].dib - 1) && !gone.present
    ensures DibsRight(c[a := x][b := gone], hash)
  {
  }

  /** Moving an entry to an empty slot does not change the map. */
  lemma MoveView<K, V>(c: seq<Slot<K, V>>, a: nat, b: nat, x: Slot<K, V>, gone: Slot<K, V>)
    requires Distinct(c) && a < |c| && b < |c| && a != b && !c[a].present && c[b].present && !gone.present
    requires x.present && x.key == c[b].key && x.val == c[b].val
    ensures Distinct(c[a := x][b := gone])
    ensures View(c[a := x][b := gone]) == View(c)
  {
    hide View;
    ViewAt(c, b);
    ViewClear(c, b, gone);
    ViewPut(c[b := gone], a, x);
    assert c[b := gone][a := x] == c[a := x][b := gone];
  }

  /** An empty slot or an entry at home behind the hole ends the shifting. */
  lemma ShiftStop<K, V>(c: seq<Slot<K, V>>, s0: seq<Slot<K, V>>, hash: K -> nat, k: K, d: nat, i: nat)
    requires Shifting(c, s0, hash, k, d, i)
    requires var y := Probe(c, Home(hash(k), |c|), i + 1); !y.present || y.dib == 0
    ensures Sound(c, hash) && HasSpare(c) && Distinct(s0) && View(c) == View(s0) - {k}
  {
    hide View;
    var home := Home(hash(k), |c|);
    forall j | 0 <= j < |c| ensures InOrder(c, j) {
      if Prev(j, |c|) == Wrap(home + i, |c|) {
        assert j == Wrap(home + i + 1, |c|);
      }
    }
    SpareAt(c, Wrap(home + i, |c|));
  }

  /** The shifting has come round to the slot in front of the home: it ends there,
      because a table with a spare slot has none behind it that could move. */
  lemma ShiftEnds<K, V>(c: seq<Slot<K, V>>, s0: seq<Slot<K, V>>, hash: K -> nat, k: K, d: nat)
    requires |c| > 1 && Shifting(c, s0, hash, k, d, |c| - 1) && HasSpare(s0)
    ensures var y := Probe(c, Home(hash(k), |c|), |c|); !y.present || y.dib == 0
  {
    hide View, Sound, DibsRight, Distinct, InOrder, Home;
    var home := Home(hash(k), |c|);
    assert Probe(c, home, |c|) == Probe(c, home, 0);
    if d > 0 {
      var z :| 0 <= z < |s0| && (!s0[z].present || s0[z].dib == 0);
      var e := EverySlot(home, |s0|, z);
      assert Probe(s0, home, e) == s0[z];
    }
  }

  /** The table s of a deletion under way, with the hole at distance i still filled. */
  ghost predicate HoleAt<K, V>(s: seq<Slot<K, V>>, s0: seq<Slot<K, V>>, hash: K -> nat, k: K, d: nat, i: nat) {
    && i < |s|
    && var q := Wrap(Home(hash(k), |s|) + i, |s|);
    && s[q].present
    && Shifting(s[q := s[q].(present := false)], s0, hash, k, d, i)
    && (|s| == 1 ==> s[q].dib == 0)
  }

  lemma HoleFilled<K, V>(s: seq<Slot<K, V>>, s0: seq<Slot<K, V>>, hash: K -> nat, k: K, d: nat, i: nat)
    requires HoleAt(s, s0, hash, k, d, i)
    ensures i < |s| && s[Wrap(Home(hash(k), |s|) + i, |s|)].present
  {
  }

  lemma HoleStart<K, V>(s0: seq<Slot<K, V>>, hash: K -> nat, k: K, d: nat)
    requires Sound(s0, hash) && d < |s0| && HoldsKey(s0, Home(hash(k), |s0|), d, k)
    ensures HoleAt(s0, s0, hash, k, d, d)
  {
    hide View, Shifting;
    ShiftStart(s0, hash, k, d);
  }

  lemma HoleStop<K, V>(s: seq<Slot<K, V>>, s0: seq<Slot<K, V>>, hash: K -> nat, k: K, d: nat, i: nat)
    requires HoleAt(s, s0, hash, k, d, i)
    requires var y := Probe(s, Home(hash(k), |s|), i + 1); !y.present || y.dib == 0
    ensures var q := Wrap(Home(hash(k), |s|) + i, |s|);
            var c := s[q := s[q].(present := false)];
            Sound(c, hash) && HasSpare(c) && Distinct(s0) && View(c) == View(s0) - {k}
  {
    hide View, Sound, Home, HasSpare, Shifting;
    var q := Wrap(Home(hash(k), |s|) + i, |s|);
    ShiftStop(s[q := s[q].(present := false)], s0, hash, k, d, i);
  }

  lemma HoleMove<K, V>(s: seq<Slot<K, V>>, s0: seq<Slot<K, V>>, hash: K -> nat, k: K, d: nat, i: nat)
    requires HoleAt(s, s0, hash, k, d, i) && i + 1 < |s|
    requires var y := Probe(s, Home(hash(k), |s|), i + 1); y.present && y.dib > 0
    ensures var y := Probe(s, Home(hash(k), |s|), i + 1);
            HoleAt(s[Wrap(Home(hash(k), |s|) + i, |s|) := Slot(true, y.key, y.val, y.dib - 1)], s0, hash, k, d, i + 1)
  {
    hide View, Sound, Home, HasSpare, Shifting;
    var n, home := |s|, Home(hash(k), |s|);
    var a, b := Wrap(home + i, n), Wrap(home + i + 1, n);
    var c := s[a := s[a].(present := false)];
    ShiftMove(c, s0, hash, k, d, i);
    var t := s[a := Slot(true, s[b].key, s[b].val, s[b].dib - 1)];
    assert t[b := t[b].(present := false)] == c[a := c[b].(dib := c[b].dib - 1)][b := c[b].(present := false)];
  }

  /** With a spare slot the hole does not come all the way round. */
  lemma HoleEnds<K, V>(s: seq<Slot<K, V>>, s0: seq<Slot<K, V>>, hash: K -> nat, k: K, d: nat)
    requires |s| > 0 && HoleAt(s, s0, hash, k, d, |s| - 1) && HasSpare(s0)
    ensures var y := Probe(s, Home(hash(k), |s|), |s|); !y.present || y.dib == 0
  {
    hide View, Sound, Home, HasSpare, Shifting;
    var n, home := |s|, Home(hash(k), |s|);
    var a := Wrap(home + (n - 1), n);
    if n > 1 {
      ShiftEnds(s[a := s[a].(present := false)], s0, hash, k, d);
    }
  }

  /** Without a spare slot the slot behind the hole always holds an entry to be moved. */
  lemma HoleGoesOn<K, V>(s: seq<Slot<K, V>>, s0: seq<Slot<K, V>>, hash: K -> nat, k: K, d: nat, i: nat)
    requires HoleAt(s, s0, hash, k, d, i) && !HasSpare(s0)
    ensures |s| > 1
    ensures var y := Probe(s, Home(hash(k), |s|), i + 1); y.present && y.dib > 0
  {
    hide View, Sound, Home, DibsRight, Distinct, InOrder, HoleInOrder, Prev;
    var n, home := |s|, Home(hash(k), |s|);
    var a, b := Wrap(home + i, n), Wrap(home + i + 1, n);
    var c := s[a := s[a].(present := false)];
    NoneSpare(s0, home, if i + 1 < n then i + 1 else 0);
    assert n > 1 by {
      NoneSpare(s0, home, 0);
    }
    assert Probe(s, home, i + 1) == Probe(c, home, i + 1);
    if i + 1 == n {
      assert Probe(c, home, n) == Probe(c, home, 0);
    }
  }

  lemma NoneSpare<K, V>(s: seq<Slot<K, V>>, home: nat, e: nat)
    requires home < |s| && e < |s| && !HasSpare(s)
    ensures Probe(s, home, e).present && Probe(s, home, e).dib > 0
  {
    assert s[Wrap(home + e, |s|)] in s;
  }

  /** The keys stored, each once or more. */
  ghost function StoredKeys<K, V>(s: seq<Slot<K, V>>): set<K> {
    set i | 0 <= i < |s| && s[i].present :: s[i].key
  }

  /** The shift loop has run out: its last move has filled the slot in front of the
      home with the entry at the home, which stays where it was. */
  lemma HoleRunsOut<K, V>(s: seq<Slot<K, V>>, s0: seq<Slot<K, V>>, hash: K -> nat, k: K, d: nat)
    requires |s| > 1 && HoleAt(s, s0, hash, k, d, |s| - 1)
    requires var y := Probe(s, Home(hash(k), |s|), |s|); y.present && y.dib > 0
    ensures var home := Home(hash(k), |s|);
            var y := Probe(s, home, 0);
            var t := s[Wrap(home + (|s| - 1), |s|) := Slot(true, y.key, y.val, y.dib - 1)];
            && !Distinct(t) && Distinct(s0) && StoredKeys(t) == View(s0).Keys - {k}
  {
    hide View, Home, Sound, DibsRight, Distinct, InOrder, HoleInOrder, ShiftedSoFar, StoredKeys;
    var n, home := |s|, Home(hash(k), |s|);
    var a := Wrap(home + (n - 1), n);
    var c := s[a := s[a].(present := false)];
    var y := Probe(s, home, 0);
    assert c[home] == s[home] == y;
    SoundFacts(s0, hash);
    StoredTwice(c, a, home, Slot(true, y.key, y.val, y.dib - 1));
    assert s[a := Slot(true, y.key, y.val, y.dib - 1)] == c[a := Slot(true, y.key, y.val, y.dib - 1)];
  }

  lemma StoredTwice<K, V>(c: seq<Slot<K, V>>, a: nat, h: nat, x: Slot<K, V>)
    requires Distinct(c) && a < |c| && h < |c| && a != h && !c[a].present && c[h].present
    requires x.present && x.key == c[h].key
    ensures !Distinct(c[a := x]) && StoredKeys(c[a := x]) == View(c).Keys
  {
    var t := c[a := x];
    assert t[h] == c[h] && t[a] == x;
    forall k ensures k in StoredKeys(t) <==> k in View(c) {
      if k in View(c) {
        var i := ViewKey(c, k);
        assert t[i] == c[i];
      }
      if k in StoredKeys(t) {
        var i :| 0 <= i < |t| && t[i].present && t[i].key == k;
        ViewAt(c, if i == a then h else i);
      }
    }
  }

  // ---------------------------------------------------------------- occupancy

  /** The number of filled slots among the first n. */
  ghost function Filled<K, V>(s: seq<Slot<K, V>>, n: nat): nat
    requires n <= |s|
  {
    if n == 0 then 0 else Filled(s, n - 1) + (if s[n - 1].present then 1 else 0)
  }

  ghost function KeysOf<K, V>(s: seq<Slot<K, V>>, n: nat): set<K>
    requires n <= |s|
  {
    if n == 0 then {} else if s[n - 1].present then KeysOf(s, n - 1) + {s[n - 1].key} else KeysOf(s, n - 1)
  }

  lemma {:induction false} KeyAmong<K, V>(s: seq<Slot<K, V>>, n: nat, k: K) returns (i: nat)
    requires n <= |s| && k in KeysOf(s, n)
    ensures i < n && s[i].present && s[i].key == k
  {
    if s[n - 1].present && s[n - 1].key == k {
      i := n - 1;
    } else {
      i := KeyAmong(s, n - 1, k);
    }
  }

  lemma {:induction false} AmongKeys<K, V>(s: seq<Slot<K, V>>, n: nat, i: nat)
    requires i < n <= |s| && s[i].present
    ensures s[i].key in KeysOf(s, n)
  {
    if i < n - 1 {
      AmongKeys(s, n - 1, i);
    }
  }

  lemma {:induction false} KeysCounted<K, V>(s: seq<Slot<K, V>>, n: nat)
    requires Distinct(s) && n <= |s|
    ensures |KeysOf(s, n)| == Filled(s, n) <= n
  {
    if n > 0 {
      KeysCounted(s, n - 1);
      if s[n - 1].present && s[n - 1].key in KeysOf(s, n - 1) {
        var i := KeyAmong(s, n - 1, s[n - 1].key);
      }
    }
  }

  /** The table holds as many keys as it has filled slots; a slot is free exactly
      when these are fewer than the slots. */
  lemma Occupancy<K, V>(s: seq<Slot<K, V>>)
    requires Distinct(s)
    ensures |View(s)| == Filled(s, |s|) <= |s|
    ensures HasFree(s) <==> |View(s)| < |s|
  {
    hide View;
    KeysCounted(s, |s|);
    forall k | k in View(s).Keys ensures k in KeysOf(s, |s|) {
      var i := ViewKey(s, k);
      AmongKeys(s, |s|, i);
    }
    forall k | k in KeysOf(s, |s|) ensures k in View(s).Keys {
      var i := KeyAmong(s, |s|, k);
      ViewAt(s, i);
    }
    assert View(s).Keys == KeysOf(s, |s|);
    assert |View(s)| == |View(s).Keys|;
    FreeIffFewer(s, |s|);
  }

  lemma {:induction false} FreeIffFewer<K, V>(s: seq<Slot<K, V>>, n: nat)
    requires n <= |s|
    ensures Filled(s, n) <= n
    ensures Filled(s, n) < n <==> exists i :: 0 <= i < n && !s[i].present
  {
    if n > 0 {
      FreeIffFewer(s, n - 1);
    }
  }
}
