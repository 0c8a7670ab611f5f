/** When the operations that change the tree may be used: object_append_child, root_create and
    object_destroy check nothing, and each is run here on whatever it is given.  What they leave is a
    forest exactly under the conditions the commands of a session look at first. */
module Guards {
  import opened Objects

  /** `n` owners up from `o`; null once the way has ended. */
  ghost function Up(o: Object, n: nat, live: set<Object>): (p: Object?)
    requires o in live
    reads live`parent, live`holder
    ensures p != null ==> p in live
  {
    if n == 0 then o else
      var p := Up(o, n - 1, live);
      if p == null || p.Owner() !in live then null else p.Owner()
  }

  ghost predicate Ends(o: Object, live: set<Object>)
    requires o in live
    reads live`parent, live`holder
  {
    exists n: nat :: Up(o, n, live) == null
  }

  /** The arrays and links of the live objects fit, and the way up from each of them ends. */
  ghost predicate Tree(live: set<Object>)
    reads live
  {
    && (forall n :: n in live ==> ChildrenOk(n, live) && PendingOk(n, live) && UpOk(n, live) && StageOk(n))
    && forall o :: o in live ==> Ends(o, live)
  }

  lemma {:induction false} UpMore(o: Object, p: Object, n: nat, live: set<Object>)
    requires o in live && p in live && o.Owner() == p
    ensures Up(o, n + 1, live) == Up(p, n, live)
  {
    if n > 0 { UpMore(o, p, n - 1, live); }
  }

  lemma {:induction false} WayEnds(o: Object, live: set<Object>) returns (n: nat)
    requires Forest(live) && o in live
    ensures Up(o, n, live) == null
    decreases Above(o, live)
  {
    hide Forest, NodeOk, Above;
    if o.Owner() == null {
      n := 1;
      assert Up(o, 0, live) == o;
    } else {
      OwnerIsHigher(o, live);
      n := WayEnds(o.Owner(), live);
      UpMore(o, o.Owner(), n, live);
      n := n + 1;
    }
  }

  lemma ForestIsTree(live: set<Object>)
    requires Forest(live)
    ensures Tree(live)
  {
    forall n | n in live ensures ChildrenOk(n, live) && PendingOk(n, live) && UpOk(n, live) && StageOk(n) {
      assert NodeOk(n, live);
    }
    forall o | o in live ensures Ends(o, live) {
      var n := WayEnds(o, live);
    }
  }

  /** The least number of steps after which the way up has ended. */
  ghost function Depth(o: Object, live: set<Object>): (d: nat)
    requires o in live && Ends(o, live)
    reads live`parent, live`holder
    ensures Up(o, d, live) == null && d > 0 && Up(o, d - 1, live) != null
  {
    var n: nat :| Up(o, n, live) == null;
    Least(o, n, live)
  }

  ghost function Least(o: Object, n: nat, live: set<Object>): (d: nat)
    requires o in live && Up(o, n, live) == null
    reads live`parent, live`holder
    ensures Up(o, d, live) == null && d > 0 && Up(o, d - 1, live) != null
  {
    if Up(o, n - 1, live) == null then Least(o, n - 1, live) else n
  }

  lemma {:induction false} StaysEnded(o: Object, m: nat, n: nat, live: set<Object>)
    requires o in live && m <= n && Up(o, m, live) == null
    ensures Up(o, n, live) == null
    decreases n
  {
    if m < n { StaysEnded(o, m, n - 1, live); }
  }

  lemma OneDeeper(k: Object, n: Object, live: set<Object>)
    requires k in live && n in live && k.Owner() == n && Ends(k, live) && Ends(n, live)
    ensures Depth(k, live) == Depth(n, live) + 1
  {
    var i, j := Depth(k, live), Depth(n, live);
    UpMore(k, n, j, live);
    UpMore(k, n, j - 1, live);
    if i < j + 1 { StaysEnded(k, i, j, live); }
    if j + 1 < i { StaysEnded(k, j + 1, i - 1, live); }
  }

  /** Ranks are only a witness: with the depths for ranks a tree is a forest. */
  ghost method TreeIsForest(live: set<Object>)
    requires Tree(live)
    modifies live`rank
    ensures Forest(live)
  {
    forall n, k | n in live && k in n.Kids() ensures k in live && Depth(n, live) < Depth(k, live) {
      assert ChildrenOk(n, live) && PendingOk(n, live) && k in live && UpOk(k, live);
      OneDeeper(k, n, live);
    }
    forall o | o in live { o.rank := Depth(o, live); }
    forall n | n in live ensures NodeOk(n, live) {
      assert old(ChildrenOk(n, live) && PendingOk(n, live) && UpOk(n, live) && StageOk(n));
    }
  }

  /** What lies under nothing but itself goes round for ever. */
  lemma {:induction false} GoesRound(sub: set<Object>, o: Object, n: nat, live: set<Object>)
    requires sub <= live && o in sub && forall x :: x in sub ==> x.Owner() != null && x.Owner() in sub
    ensures Up(o, n, live) != null && Up(o, n, live) in sub
  {
    if n > 0 { GoesRound(sub, o, n - 1, live); }
  }

  /** An owned object destroyed leaves its owner with a child that is gone. */
  lemma DestroyGuard(top: Object, live: set<Object>)
    requires Forest(live) && top in live
    ensures Tree(live - Subtree(top, live)) <==> top.Owner() == null
  {
    var rest := live - Subtree(top, live);
    if top.Owner() == null {
      DestroyKeeps(top, live);
      ForestIsTree(rest);
    } else {
      var p := top.Owner();
      OwnerIsHigher(top, live);
      if p in Subtree(top, live) { UpStays(top, p, live); }
      assert top !in rest && p in rest && (top in p.children || top in p.pending);
      assert !ChildrenOk(p, rest) || !PendingOk(p, rest);
    }
  }

  // ---------------------------------------------------------------------------------------------
  // object_append_child

  /** Appending a child that has an owner leaves a child listed twice, or one that does not point back. */
  twostate lemma TwoOwners(new self: Object, new child: Object, live: set<Object>)
    requires old(Forest(live)) && self in live && child in live && old(child.Owner()) != null
    requires self.children == old(self.children) + [child] && child.parent == self
    requires child.holder == old(child.holder)
    requires forall n :: n in live && n != self ==> n.children == old(n.children)
    ensures !Tree(live)
  {
    assert old(UpOk(child, live)) by { assert old(NodeOk(child, live)); }
    var p := old(child.parent);
    if p == self {
      var i :| 0 <= i < |old(self.children)| && old(self.children)[i] == child;
      assert self.children[i] == child && self.children[|old(self.children)|] == child;
      assert !Distinct(self.children);
    } else if p != null {
      assert child in p.children && !ChildrenOk(p, live);
    } else {
      assert child.holder != null && !UpOk(child, live);
    }
  }

  lemma SubtreeClosed(top: Object, live: set<Object>)
    requires Forest(live) && top in live
    ensures forall x :: x in Subtree(top, live) && x != top ==> x.Owner() != null && x.Owner() in Subtree(top, live)
  {
    forall x | x in Subtree(top, live) && x != top ensures x.Owner() != null && x.Owner() in Subtree(top, live) {
      UpStays(top, x, live);
    }
  }

  /** Appending an object below itself closes a ring. */
  twostate lemma RoundAbout(new self: Object, new child: Object, sub: set<Object>, new live: set<Object>)
    requires sub <= live && self in sub && child in sub && child.parent == self
    requires forall x :: x in sub && x != child ==> old(x.Owner()) != null && old(x.Owner()) in sub
    requires forall n :: n in sub && n != child ==> n.parent == old(n.parent) && n.holder == old(n.holder)
    ensures !Ends(self, live)
  {
    forall n: nat ensures Up(self, n, live) != null {
      GoesRound(sub, self, n, live);
    }
  }

  /** object_append_child on any two live objects. */
  method AppendUnchecked(self: Object, child: Object, ghost live: set<Object>)
    requires Forest(live) && self in live && child in live
    modifies self`children, self`capacity, self`moved, child`parent, live`rank
    ensures self.children == old(self.children) + [child] && child.parent == self
    ensures Tree(live) <==> old(child.Owner() == null && self !in Subtree(child, live))
  {
    ghost var sub, unowned := Subtree(child, live), child.Owner() == null;
    SubtreeClosed(child, live);
    if unowned && self !in sub { Lift(child, self.rank + 1 - child.rank, live); }
    assert NodeOk(self, live);
    label ready:
    Push(self, child);
    if !unowned {
      TwoOwners@ready(self, child, live);
    } else if self in sub {
      RoundAbout@ready(self, child, sub, live);
    } else {
      Attached@ready(self, child, live);
      ForestIsTree(live);
    }
  }

  // ---------------------------------------------------------------------------------------------
  // root_create

  /** A transport that has an owner, or is handed over twice, spoils the pending lists. */
  lemma HeldTwice(root: Object, t: Object, h: Object, now: set<Object>)
    requires root in now && t in root.pending && t.holder == root
    requires t.parent != null || (h in now && h != root && t in h.pending)
    ensures !Tree(now)
  {
    if t.parent != null {
      assert !PendingOk(root, now);
    } else {
      assert !PendingOk(h, now);
    }
  }

  /** root_create on any live objects. */
  method RootUnchecked(transports: seq<Object>, ghost live: set<Object>) returns (root: Object, ghost now: set<Object>)
    requires Forest(live) && forall t :: t in transports ==> t in live
    modifies transports`holder
    ensures fresh(root) && root.isRoot && root.pending == transports && root.children == [] && now == live + {root}
    ensures Tree(now) <==> Distinct(transports) && forall t :: t in transports ==> old(t.Owner()) == null
  {
    ghost var low := Lowest(live);
    root := new Object("/", true, low);
    now := live + {root};
    root.pending := transports;
    forall t | t in transports { t.holder := root; }
    if t :| t in transports && old(t.Owner()) != null {
      assert old(NodeOk(t, live));
      HeldTwice(root, t, if old(t.parent) != null then root else old(t.holder), now);
    } else if Distinct(transports) {
      RootHolds(root, live, now);
      ForestIsTree(now);
    } else {
      assert !PendingOk(root, now);
    }
  }
}
