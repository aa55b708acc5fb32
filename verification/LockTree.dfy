/** Granularity locks on the nodes of a tree: taking the parent's mode first makes
    the locks that are only implied as safe as the explicit ones. */
module LockTree {
  import opened GrLockModel

  /** A node is named by the path of child numbers from the root. */
  type Node = seq<nat>

  datatype Hold = Hold(owner: nat, node: Node, mode: Mode)

  function ParentMode(child: Mode): Mode {
    match child
    case IS => IS
    case S => IS
    case IX => IX
    case SIX => IX
    case X => IX
  }

  /** a grants at least what b grants. */
  predicate AtLeast(a: Mode, b: Mode) {
    match b
    case IS => true
    case IX => a == IX || a == SIX || a == X
    case S => a == S || a == SIX || a == X
    case SIX => a == SIX || a == X
    case X => a == X
  }

  /** What a mode held on a node grants on every node below it, if anything. */
  predicate Implies(above: Mode, below: Mode) {
    match above
    case S => below == S
    case SIX => below == S
    case X => below == X
    case _ => false
  }

  /** On each node the lock itself keeps the holds of different owners compatible. */
  ghost predicate NodesSafe(holds: set<Hold>) {
    forall g, h :: g in holds && h in holds && g.node == h.node && g.owner != h.owner ==> Compatible(g.mode, h.mode)
  }

  /** Everybody who holds a node holds its parent at least in the parent's mode. */
  ghost predicate ParentsHeld(holds: set<Hold>) {
    forall h :: h in holds && h.node != [] ==> HasParent(holds, h)
  }

  ghost predicate HasParent(holds: set<Hold>, h: Hold)
    requires h.node != []
  {
    exists p :: p in holds && p.owner == h.owner && p.node == h.node[..|h.node| - 1]
                && AtLeast(p.mode, ParentMode(h.mode))
  }

  /** Owner a has mode m on node n, by a hold on n or by one on an ancestor. */
  ghost predicate Effective(holds: set<Hold>, a: nat, n: Node, m: Mode) {
    exists h :: h in holds && h.owner == a && Gives(h, n, m)
  }

  predicate Gives(h: Hold, n: Node, m: Mode) {
    || (h.node == n && h.mode == m)
    || (h.node < n && Implies(h.mode, m))
  }

  lemma ParentOf(holds: set<Hold>, h: Hold) returns (p: Hold)
    requires ParentsHeld(holds) && h in holds && h.node != []
    ensures p in holds && p.owner == h.owner && p.node == h.node[..|h.node| - 1]
    ensures AtLeast(p.mode, ParentMode(h.mode))
  {
    assert HasParent(holds, h);
    p :| p in holds && p.owner == h.owner && p.node == h.node[..|h.node| - 1] && AtLeast(p.mode, ParentMode(h.mode));
  }

  lemma ParentModes(a: Mode, b: Mode, c: Mode)
    requires AtLeast(a, ParentMode(b)) && AtLeast(b, ParentMode(c))
    ensures AtLeast(a, ParentMode(c))
  {
  }

  /** A holder of a node holds each ancestor at least in the parent's mode. */
  lemma {:induction false} AncestorsHeld(holds: set<Hold>, h: Hold, k: nat) returns (a: Hold)
    requires ParentsHeld(holds) && h in holds && k < |h.node|
    ensures a in holds && a.owner == h.owner && a.node == h.node[..k]
    ensures AtLeast(a.mode, ParentMode(h.mode))
    decreases |h.node|
  {
    hide ParentsHeld, AtLeast, ParentMode;
    var p := ParentOf(holds, h);
    if k == |h.node| - 1 {
      a := p;
    } else {
      a := AncestorsHeld(holds, p, k);
      ParentModes(a.mode, p.mode, h.mode);
      assert h.node[..|h.node| - 1][..k] == h.node[..k];
    }
  }

  /** A hold that reaches down to node n and another owner's hold on a node at or
      below it: what both give at n is compatible. */
  lemma GivenCompatible(holds: set<Hold>, g: Hold, h: Hold, n: Node, a: Mode, b: Mode)
    requires NodesSafe(holds) && ParentsHeld(holds)
    requires g in holds && h in holds && g.owner != h.owner
    requires g.node <= h.node && Gives(g, n, a) && Gives(h, n, b)
    ensures Compatible(a, b) && Compatible(b, a)
  {
    if g.node == h.node {
      CompatibleSymmetric(g.mode, h.mode);
    } else {
      var k := |g.node|;
      assert g.node == h.node[..k];
      var p := AncestorsHeld(holds, h, k);
      assert Compatible(g.mode, p.mode);
    }
  }

  /** In a tree of any depth, explicit and implied locks together never give two
      different owners incompatible modes on any node. */
  lemma TreeSafe(holds: set<Hold>, a: nat, b: nat, n: Node, ma: Mode, mb: Mode)
    requires NodesSafe(holds) && ParentsHeld(holds) && a != b
    requires Effective(holds, a, n, ma) && Effective(holds, b, n, mb)
    ensures Compatible(ma, mb)
  {
    hide NodesSafe, ParentsHeld, Implies, Compatible;
    var g :| g in holds && g.owner == a && Gives(g, n, ma);
    var h :| h in holds && h.owner == b && Gives(h, n, mb);
    if |g.node| <= |h.node| {
      assert g.node == n[..|g.node|] && h.node == n[..|h.node|];
      GivenCompatible(holds, g, h, n, ma, mb);
    } else {
      assert g.node == n[..|g.node|] && h.node == n[..|h.node|];
      GivenCompatible(holds, h, g, n, mb, ma);
    }
  }

  /** Each hold is a grant of its node's own lock. */
  ghost predicate GrantedBy(holds: set<Hold>, locks: map<Node, System>) {
    forall h :: h in holds ==> h.node in locks && IsGrant(locks[h.node], h)
  }

  ghost predicate IsGrant(s: System, h: Hold) {
    exists i :: 0 <= i < |s.grants| && s.grants[i] == Grant(h.owner, h.mode)
  }

  /** What the locks of the nodes grant is safe on each node. */
  lemma LocksMakeSafe(holds: set<Hold>, locks: map<Node, System>)
    requires GrantedBy(holds, locks) && forall n :: n in locks ==> Inv(locks[n])
    ensures NodesSafe(holds)
  {
    hide CountsRight, NoLostWakeup, InArrivalOrder, Compatible;
    forall g, h | g in holds && h in holds && g.node == h.node && g.owner != h.owner
      ensures Compatible(g.mode, h.mode)
    {
      var s := locks[g.node];
      assert IsGrant(s, g) && IsGrant(s, h);
      var i :| 0 <= i < |s.grants| && s.grants[i] == Grant(g.owner, g.mode);
      var j :| 0 <= j < |s.grants| && s.grants[j] == Grant(h.owner, h.mode);
      CompatibleSymmetric(g.mode, h.mode);
    }
  }

  /** A node's lock after a history from its start. */
  ghost predicate Reached(s: System, events: seq<Event>) {
    History(AtStart(), events) && s == After(AtStart(), events)
  }

  /** The tree of locks as a whole: when each node's lock has gone through any history of
      its own and holders keep to the rule about parents, no two owners ever have
      incompatible modes on a node, explicit or implied. */
  lemma LockedTreeSafe(holds: set<Hold>, locks: map<Node, System>, histories: map<Node, seq<Event>>,
                       a: nat, b: nat, n: Node, ma: Mode, mb: Mode)
    requires forall x :: x in locks ==> x in histories && Reached(locks[x], histories[x])
    requires GrantedBy(holds, locks) && ParentsHeld(holds) && a != b
    requires Effective(holds, a, n, ma) && Effective(holds, b, n, mb)
    ensures Compatible(ma, mb)
  {
    hide Inv, GrantedBy, ParentsHeld, Effective, History, After, NodesSafe, Compatible;
    forall x | x in locks ensures Inv(locks[x]) {
      assert Reached(locks[x], histories[x]);
      StartInv(AtStart());
      InvAlways(AtStart(), histories[x]);
    }
    LocksMakeSafe(holds, locks);
    TreeSafe(holds, a, b, n, ma, mb);
  }

  /** Without the parents' locks the implied locks are not safe: a shared lock on
      the root and an exclusive lock on its child clash on the child. */
  lemma ParentsNeeded()
    ensures var holds := {Hold(0, [], S), Hold(1, [0], X)};
            NodesSafe(holds) && Effective(holds, 0, [0], S) && Effective(holds, 1, [0], X) && !Compatible(S, X)
  {
    var holds := {Hold(0, [], S), Hold(1, [0], X)};
    assert Gives(Hold(0, [], S), [0], S) && Gives(Hold(1, [0], X), [0], X);
  }

  /** Mode p on a node keeps other owners from implying, by a lock on that node,
      anything that clashes with mode child on a node below. */
  ghost predicate Protects(p: Mode, child: Mode) {
    forall above: Mode, below: Mode :: Implies(above, below) && Compatible(above, p) ==> Compatible(below, child)
  }

  /** The parent's mode is the weakest that will do: exactly the modes at least as
      strong protect the child. */
  lemma ParentModeIsWeakest(child: Mode, p: Mode)
    ensures Protects(p, child) <==> AtLeast(p, ParentMode(child))
  {
    if !AtLeast(p, ParentMode(child)) {
      assert Implies(S, S) && Compatible(S, p) && !Compatible(S, child);
    }
  }
}
