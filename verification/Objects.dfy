/** The kernel-object tree (object.c, root.c): lazily filled children, ownership handed from a root's
    pending list to its children array, and destruction of whole subtrees.

    Methods take and return, as ghost values, the set of objects allocated and not yet freed; destroying
    returns the objects in the order in which they are freed. */
module Objects {

  class Object {
    const name: string
    const isRoot: bool
    var parent: Object?
    var children: seq<Object>
    var capacity: nat
    var populated: bool
    var pending: seq<Object>       // roots: transports handed over at creation, until the first populate
    var holder: Object?            // the root whose pending list this object is on; no field of the source
    ghost var rank: int            // lower than that of everything this object owns
    ghost var moved: nat           // child pointers copied by reallocations

    constructor (name: string, isRoot: bool, ghost rank: int)
      ensures this.name == name && this.isRoot == isRoot && this.rank == rank
      ensures parent == null && holder == null && children == [] && pending == []
      ensures !populated && capacity == 0 && moved == 0
    {
      this.name, this.isRoot, this.rank := name, isRoot, rank;
      parent, holder, children, pending := null, null, [], [];
      capacity, populated, moved := 0, false, 0;
    }

    /** Everything this object will free. */
    ghost function Kids(): seq<Object>
      reads `children, `pending
    {
      children + pending
    }

    function Owner(): Object?
      reads `parent, `holder
    {
      if parent != null then parent else holder
    }
  }

  function Names(os: seq<Object>): (ns: seq<string>)
    ensures |ns| == |os| && forall i :: 0 <= i < |os| ==> ns[i] == os[i].name
  {
    seq(|os|, i requires 0 <= i < |os| => os[i].name)
  }

  lemma NamesSnoc(os: seq<Object>, o: Object)
    ensures Names(os + [o]) == Names(os) + [o.name] && Names([]) == []
  {
  }

  ghost predicate Distinct(os: seq<Object>) {
    forall i, j :: 0 <= i < j < |os| ==> os[i] != os[j]
  }

  /** The children array grows by doubling from 8, so reallocations have copied less than it can hold. */
  ghost predicate ArrayOk(n: Object)
    reads n`children, n`capacity, n`moved
  {
    && |n.children| <= n.capacity && (n.capacity > 0 ==> n.moved + 8 <= n.capacity)
    && (n.capacity == 0 ==> n.moved == 0) && (n.capacity > 8 ==> n.capacity < 2 * |n.children|)
  }

  /** The children of `n` are distinct live objects that point back at it. */
  ghost predicate ChildrenOk(n: Object, live: set<Object>)
    reads n`children, live`parent
  {
    Distinct(n.children) && forall k :: k in n.children ==> k in live && k.parent == n
  }

  /** So are the transports it holds until it is browsed. */
  ghost predicate PendingOk(n: Object, live: set<Object>)
    reads n`pending, live`parent, live`holder
  {
    Distinct(n.pending) && forall k :: k in n.pending ==> k in live && k.parent == null && k.holder == n
  }

  /** The owner of `n`, if any, is live and lists it. */
  ghost predicate UpOk(n: Object, live: set<Object>)
    reads n`parent, n`holder, live`children, live`pending
  {
    && (n.parent != null ==> n.parent in live && n in n.parent.children && n.holder == null)
    && (n.holder != null ==> n.holder in live && n in n.holder.pending)
  }

  /** Nothing owns itself, through however many others. */
  ghost predicate RankOk(n: Object, live: set<Object>)
    reads n`rank, n`children, n`pending, live`rank
  {
    forall k :: k in live && k in n.Kids() ==> n.rank < k.rank
  }

  /** Only a root holds pending objects, and only until it is browsed. */
  ghost predicate StageOk(n: Object)
    reads n`pending, n`populated, n`children, n`capacity, n`moved
  {
    (n.pending != [] ==> !n.populated && n.isRoot) && ArrayOk(n)
  }

  ghost predicate NodeOk(n: Object, live: set<Object>)
    reads n, live
  {
    ChildrenOk(n, live) && PendingOk(n, live) && UpOk(n, live) && RankOk(n, live) && StageOk(n)
  }

  /** Children and pending arrays and parent links describe one forest on the live objects. */
  ghost predicate Forest(live: set<Object>)
    reads live
  {
    forall n :: n in live ==> NodeOk(n, live)
  }

  ghost function Below(n: Object, live: set<Object>): set<Object>
    reads n`rank, live`rank
  {
    set o | o in live && n.rank < o.rank
  }

  lemma KidFacts(n: Object, k: Object, live: set<Object>)
    requires Forest(live) && n in live && k in n.Kids()
    ensures k in live && k.Owner() == n && n.rank < k.rank && Below(k, live) < Below(n, live)
  {
    assert NodeOk(n, live) && k in live;
    assert k in Below(n, live) && k !in Below(k, live);
  }

  lemma KidsLive(n: Object, live: set<Object>)
    requires Forest(live) && n in live
    ensures forall k :: k in n.children || k in n.pending ==> k in live
    ensures Distinct(n.children)
  {
    assert NodeOk(n, live);
  }

  /** The objects that go when `n` is destroyed. */
  ghost function Subtree(n: Object, live: set<Object>): (s: set<Object>)
    requires Forest(live) && n in live
    reads live
    ensures n in s && s <= live
    decreases Below(n, live), 1
  {
    {n} + Subtrees(n, |n.Kids()|, live)
  }

  /** The subtrees of the first `m` kids of `n`. */
  ghost function Subtrees(n: Object, m: nat, live: set<Object>): (s: set<Object>)
    requires Forest(live) && n in live && m <= |n.Kids()|
    reads live
    ensures s <= live
    decreases Below(n, live), 0, m
  {
    if m == 0 then {} else
      KidFacts(n, n.Kids()[m - 1], live);
      Subtrees(n, m - 1, live) + Subtree(n.Kids()[m - 1], live)
  }

  lemma {:induction false} Inside(n: Object, m: nat, x: Object, live: set<Object>) returns (i: nat)
    requires Forest(live) && n in live && m <= |n.Kids()| && x in Subtrees(n, m, live)
    ensures i < m && n.Kids()[i] in live && x in Subtree(n.Kids()[i], live)
    decreases m
  {
    hide Forest, NodeOk, Below;
    KidFacts(n, n.Kids()[m - 1], live);
    if x in Subtree(n.Kids()[m - 1], live) {
      i := m - 1;
    } else {
      i := Inside(n, m - 1, x, live);
    }
  }

  lemma {:induction false} Covered(n: Object, m: nat, i: nat, live: set<Object>)
    requires Forest(live) && n in live && i < m <= |n.Kids()|
    ensures n.Kids()[i] in live && Subtree(n.Kids()[i], live) <= Subtrees(n, m, live)
    decreases m
  {
    hide Forest, NodeOk, Below;
    KidFacts(n, n.Kids()[i], live);
    if i < m - 1 { Covered(n, m - 1, i, live); }
  }

  /** Going up from inside a subtree stays in it until its top. */
  lemma {:induction false} UpStays(n: Object, x: Object, live: set<Object>)
    requires Forest(live) && n in live && x in Subtree(n, live)
    ensures n.rank <= x.rank
    ensures x != n ==> x.Owner() in Subtree(n, live) && n.rank < x.rank
    decreases Below(n, live)
  {
    if x != n {
      var i := Inside(n, |n.Kids()|, x, live);
      var k := n.Kids()[i];
      KidFacts(n, k, live);
      UpStays(k, x, live);
      Covered(n, |n.Kids()|, i, live);
    }
  }

  ghost function Above(n: Object, live: set<Object>): set<Object>
    reads n`rank, live`rank
  {
    set o | o in live && o.rank < n.rank
  }

  lemma OwnerIsHigher(x: Object, live: set<Object>)
    requires Forest(live) && x in live && x.Owner() != null
    ensures x.Owner() in live && x in x.Owner().Kids() && x.Owner().rank < x.rank
    ensures Above(x.Owner(), live) < Above(x, live)
  {
    assert NodeOk(x, live);
    KidFacts(x.Owner(), x, live);
    assert x.Owner() in Above(x, live) && x.Owner() !in Above(x.Owner(), live);
  }

  /** Subtrees that meet are nested. */
  lemma {:induction false} Meet(a: Object, b: Object, x: Object, live: set<Object>)
    requires Forest(live) && a in live && b in live && x in Subtree(a, live) && x in Subtree(b, live)
    ensures a in Subtree(b, live) || b in Subtree(a, live)
    decreases x.rank - a.rank
  {
    UpStays(a, x, live);
    UpStays(b, x, live);
    if x != a && x != b {
      OwnerIsHigher(x, live);
      UpStays(a, x.Owner(), live);
      Meet(a, b, x.Owner(), live);
    }
  }

  lemma KidsApart(n: Object, i: nat, j: nat, live: set<Object>)
    requires Forest(live) && n in live && i < j < |n.Kids()|
    ensures n.Kids()[i] in live && n.Kids()[j] in live
    ensures Subtree(n.Kids()[i], live) !! Subtree(n.Kids()[j], live)
  {
    var a, b := n.Kids()[i], n.Kids()[j];
    KidFacts(n, a, live);
    KidFacts(n, b, live);
    assert a != b by {
      assert NodeOk(n, live);
      assert i < |n.children| ==> a in n.children;
      assert j >= |n.children| ==> b in n.pending;
    }
    if x :| x in Subtree(a, live) && x in Subtree(b, live) {
      Meet(a, b, x, live);
      if a in Subtree(b, live) {
        UpStays(b, a, live);
        UpStays(b, n, live);
      } else {
        UpStays(a, b, live);
        UpStays(a, n, live);
      }
      assert false;
    }
  }

  lemma {:induction false} KidApart(n: Object, m: nat, live: set<Object>)
    requires Forest(live) && n in live && m < |n.Kids()|
    ensures n.Kids()[m] in live && Subtrees(n, m, live) !! Subtree(n.Kids()[m], live)
  {
    KidFacts(n, n.Kids()[m], live);
    forall x | x in Subtrees(n, m, live) ensures x !in Subtree(n.Kids()[m], live) {
      var i := Inside(n, m, x, live);
      KidsApart(n, i, m, live);
    }
  }

  lemma TopOutside(n: Object, m: nat, live: set<Object>)
    requires Forest(live) && n in live && m <= |n.Kids()|
    ensures n !in Subtrees(n, m, live)
  {
    if n in Subtrees(n, m, live) {
      var i := Inside(n, m, n, live);
      KidFacts(n, n.Kids()[i], live);
      UpStays(n.Kids()[i], n, live);
    }
  }

  // ---------------------------------------------------------------------------------------------
  // Destruction

  /** The order in which destroying `n` frees: its kids' subtrees one after the other, then `n`. */
  ghost function FreeOrder(n: Object, live: set<Object>): (order: seq<Object>)
    requires Forest(live) && n in live
    reads live
    ensures order != [] && order[|order| - 1] == n
    decreases Below(n, live), 1
  {
    FreeOrders(n, |n.Kids()|, live) + [n]
  }

  ghost function FreeOrders(n: Object, m: nat, live: set<Object>): seq<Object>
    requires Forest(live) && n in live && m <= |n.Kids()|
    reads live
    decreases Below(n, live), 0, m
  {
    if m == 0 then [] else
      KidFacts(n, n.Kids()[m - 1], live);
      FreeOrders(n, m - 1, live) + FreeOrder(n.Kids()[m - 1], live)
  }

  /** object_destroy: children first, then what destroy_impl owns, then the object.  The result lists the
      objects in the order they are freed. */
  method Destroy(self: Object, ghost live: set<Object>) returns (freed: seq<Object>)
    requires Forest(live) && self in live
    ensures freed == FreeOrder(self, live)
    decreases Below(self, live), 1
  {
    freed := DestroyKids(self, live);
    freed := freed + [self];
  }

  /** The loop of object_drop_children, and after it the loop of root_destroy_impl. */
  method DestroyKids(self: Object, ghost live: set<Object>) returns (freed: seq<Object>)
    requires Forest(live) && self in live
    ensures freed == FreeOrders(self, |self.Kids()|, live)
    decreases Below(self, live), 0, 1
  {
    hide Forest, NodeOk, Below, FreeOrder;
    freed := DestroyChildren(self, live);
    for i := 0 to |self.pending|
      invariant freed == FreeOrders(self, |self.children| + i, live)
    {
      KidFacts(self, self.Kids()[|self.children| + i], live);
      var below := Destroy(self.pending[i], live);
      freed := freed + below;
    }
  }

  method DestroyChildren(self: Object, ghost live: set<Object>) returns (freed: seq<Object>)
    requires Forest(live) && self in live
    ensures freed == FreeOrders(self, |self.children|, live)
    decreases Below(self, live), 0, 0
  {
    hide Forest, NodeOk, Below, FreeOrder;
    freed := [];
    for i := 0 to |self.children|
      invariant freed == FreeOrders(self, i, live)
    {
      KidFacts(self, self.Kids()[i], live);
      var below := Destroy(self.children[i], live);
      freed := freed + below;
    }
  }

  /** Every object of the subtree is freed, no other one is, and none is freed twice. */
  lemma {:induction false} FreedOnce(n: Object, live: set<Object>)
    requires Forest(live) && n in live
    ensures (set o | o in FreeOrder(n, live)) == Subtree(n, live) && Distinct(FreeOrder(n, live))
    decreases Below(n, live), 1
  {
    hide Forest, NodeOk, Below;
    FreedOnceEach(n, |n.Kids()|, live);
    TopOutside(n, |n.Kids()|, live);
    assert n !in FreeOrders(n, |n.Kids()|, live);
  }

  lemma {:induction false} FreedOnceEach(n: Object, m: nat, live: set<Object>)
    requires Forest(live) && n in live && m <= |n.Kids()|
    ensures (set o | o in FreeOrders(n, m, live)) == Subtrees(n, m, live) && Distinct(FreeOrders(n, m, live))
    decreases Below(n, live), 0, m
  {
    hide Forest, NodeOk, Below, FreeOrder, Subtree;
    if m > 0 {
      var k := n.Kids()[m - 1];
      KidFacts(n, k, live);
      FreedOnceEach(n, m - 1, live);
      FreedOnce(k, live);
      KidApart(n, m - 1, live);
      Apart(FreeOrders(n, m - 1, live), FreeOrder(k, live), Subtrees(n, m - 1, live), Subtree(k, live));
    }
  }

  lemma Apart(a: seq<Object>, b: seq<Object>, inA: set<Object>, inB: set<Object>)
    requires (set o | o in a) == inA && (set o | o in b) == inB && inA !! inB && Distinct(a) && Distinct(b)
    ensures (set o | o in a + b) == inA + inB && Distinct(a + b)
  {
    forall i, j | 0 <= i < |a| && 0 <= j < |b| ensures a[i] != b[j] {
      assert a[i] in inA && b[j] in inB;
    }
  }

  lemma {:induction false} EarlierFirst(n: Object, k: nat, m: nat, live: set<Object>)
    requires Forest(live) && n in live && k <= m <= |n.Kids()|
    ensures FreeOrders(n, k, live) <= FreeOrders(n, m, live)
    decreases m
  {
    hide Forest, NodeOk, Below, FreeOrder;
    if k < m {
      KidFacts(n, n.Kids()[m - 1], live);
      EarlierFirst(n, k, m - 1, live);
    }
  }

  /** Nothing is freed after its owner: the parent pointers followed on the way are never dangling. */
  lemma {:induction false} OwnerLater(n: Object, x: Object, live: set<Object>) returns (i: nat, j: nat)
    requires Forest(live) && n in live && x in Subtree(n, live) && x != n
    ensures i < j < |FreeOrder(n, live)| && FreeOrder(n, live)[i] == x && FreeOrder(n, live)[j] == x.Owner()
    decreases Below(n, live)
  {
    hide Forest, NodeOk, Below;
    var m := |n.Kids()|;
    var at := Inside(n, m, x, live);
    var k := n.Kids()[at];
    KidFacts(n, k, live);
    EarlierFirst(n, at + 1, m, live);
    var before, there := |FreeOrders(n, at, live)|, |FreeOrder(k, live)|;
    assert FreeOrders(n, at + 1, live) == FreeOrders(n, at, live) + FreeOrder(k, live);
    if x == k {
      i, j := before + there - 1, |FreeOrders(n, m, live)|;
    } else {
      i, j := OwnerLater(k, x, live);
      i, j := before + i, before + j;
    }
  }

  // ---------------------------------------------------------------------------------------------
  // What is left stays a forest

  lemma {:induction false} DownStays(n: Object, x: Object, y: Object, live: set<Object>)
    requires Forest(live) && n in live && x in Subtree(n, live) && y in x.Kids()
    ensures y in Subtree(n, live)
    decreases Below(n, live)
  {
    KidFacts(x, y, live);
    if x == n {
      var i :| 0 <= i < |n.Kids()| && n.Kids()[i] == y;
      Covered(n, |n.Kids()|, i, live);
    } else {
      var i := Inside(n, |n.Kids()|, x, live);
      var k := n.Kids()[i];
      KidFacts(n, k, live);
      DownStays(k, x, y, live);
      Covered(n, |n.Kids()|, i, live);
    }
  }

  /** Nobody outside a destroyed subtree, except its owner, pointed into it. */
  lemma CutClean(top: Object, x: Object, live: set<Object>)
    requires Forest(live) && top in live && x in live && x !in Subtree(top, live)
    ensures x.Owner() != null ==> x.Owner() in live - Subtree(top, live)
    ensures forall y :: y in x.Kids() && y != top ==> y in live - Subtree(top, live)
  {
    if x.Owner() != null {
      OwnerIsHigher(x, live);
      if x.Owner() in Subtree(top, live) { DownStays(top, x.Owner(), x, live); }
    }
    forall y | y in x.Kids() && y != top ensures y in live - Subtree(top, live) {
      KidFacts(x, y, live);
      if y in Subtree(top, live) { UpStays(top, y, live); }
    }
  }

  /** Destroying an object that nobody owns leaves a forest. */
  lemma DestroyKeeps(top: Object, live: set<Object>)
    requires Forest(live) && top in live && top.Owner() == null
    ensures Forest(live - Subtree(top, live))
  {
    hide NodeOk, Subtree;
    var rest := live - Subtree(top, live);
    forall n | n in rest ensures NodeOk(n, rest) {
      CutClean(top, n, live);
      if top in n.Kids() { KidFacts(n, top, live); }
      NodeCut(n, live, rest);
    }
  }

  lemma NodeCut(n: Object, live: set<Object>, rest: set<Object>)
    requires NodeOk(n, live) && rest <= live
    requires n.Owner() != null ==> n.Owner() in rest
    requires forall y :: y in n.Kids() ==> y in rest
    ensures NodeOk(n, rest)
  {
    assert forall k :: k in n.children ==> k in n.Kids();
    assert forall k :: k in n.pending ==> k in n.Kids();
  }

  /** The objects nobody owns. */
  ghost function Tops(live: set<Object>): (tops: set<Object>)
    reads live`parent, live`holder
    ensures tops <= live
  {
    set n | n in live && n.Owner() == null
  }

  /** Every live object lies in the tree of a top. */
  lemma {:induction false} UnderATop(x: Object, live: set<Object>) returns (top: Object)
    requires Forest(live) && x in live
    ensures top in Tops(live) && x in Subtree(top, live)
    decreases Above(x, live)
  {
    if x.Owner() == null {
      top := x;
    } else {
      OwnerIsHigher(x, live);
      top := UnderATop(x.Owner(), live);
      DownStays(top, x.Owner(), x, live);
    }
  }

  /** No leak: when one root is all that nobody owns, destroying it frees every live object. */
  lemma NothingLeaks(root: Object, live: set<Object>)
    requires Forest(live) && Tops(live) == {root}
    ensures root in live && Subtree(root, live) == live
  {
    assert root in Tops(live);
    forall x | x in live ensures x in Subtree(root, live) {
      var top := UnderATop(x, live);
    }
  }

  // ---------------------------------------------------------------------------------------------
  // Building the tree

  /** The array part of object_append_child: doubled from 8 when it is full, then one more pointer. */
  method Push(self: Object, child: Object)
    requires ArrayOk(self)
    modifies self`children, self`capacity, self`moved, child`parent
    ensures ArrayOk(self) && self.children == old(self.children) + [child] && child.parent == self
    ensures self.capacity == if |old(self.children)| < old(self.capacity) then old(self.capacity)
                             else if old(self.capacity) == 0 then 8 else 2 * old(self.capacity)
    ensures self.moved < 2 * |self.children|
  {
    if |self.children| == self.capacity {
      self.moved := self.moved + |self.children|;
      self.capacity := if self.capacity != 0 then self.capacity * 2 else 8;
    }
    child.parent := self;
    self.children := self.children + [child];
  }

  /** A subtree that nobody owns can be ranked anew as a whole. */
  lemma TopClosed(top: Object, n: Object, k: Object, live: set<Object>)
    requires Forest(live) && top in live && top.Owner() == null && n in live && k in n.Kids()
    ensures k in live && (k in Subtree(top, live) <==> n in Subtree(top, live))
  {
    KidFacts(n, k, live);
    if n in Subtree(top, live) { DownStays(top, n, k, live); }
    if k in Subtree(top, live) { UpStays(top, k, live); }
  }

  ghost method Lift(top: Object, d: int, live: set<Object>)
    requires Forest(live) && top in live && top.Owner() == null
    modifies Subtree(top, live)`rank
    ensures Forest(live) && top.rank == old(top.rank) + d
    ensures forall o :: o in live && o !in old(Subtree(top, live)) ==> o.rank == old(o.rank)
  {
    hide Subtree;
    var sub := Subtree(top, live);
    forall n, k | n in live && k in n.Kids() ensures k in live && (k in sub <==> n in sub) && n.rank < k.rank {
      TopClosed(top, n, k, live);
      KidFacts(n, k, live);
    }
    forall o | o in sub { o.rank := o.rank + d; }
    forall n | n in live ensures NodeOk(n, live) {
      assert old(NodeOk(n, live));
    }
  }

  /** Only the last child of `self` and its parent link are new. */
  twostate lemma Attached(new self: Object, new child: Object, live: set<Object>)
    requires old(Forest(live)) && self in live && child in live && old(child.Owner()) == null
    requires self.rank < child.rank && ArrayOk(self)
    requires self.children == old(self.children) + [child] && child.parent == self
    requires forall n :: n in live ==>
      && n.pending == old(n.pending) && n.holder == old(n.holder) && n.rank == old(n.rank)
      && n.populated == old(n.populated)
    requires forall n :: n in live && n != self ==>
      n.children == old(n.children) && n.capacity == old(n.capacity) && n.moved == old(n.moved)
    requires forall n :: n in live && n != child ==> n.parent == old(n.parent)
    ensures Forest(live) && Tops(live) == old(Tops(live)) - {child}
  {
    forall n | n in live
      ensures ChildrenOk(n, live) && PendingOk(n, live) && RankOk(n, live)
    {
      assert old(ChildrenOk(n, live) && PendingOk(n, live) && RankOk(n, live)) by { assert old(NodeOk(n, live)); }
      assert child !in old(n.children);
    }
    forall n | n in live ensures UpOk(n, live) && StageOk(n) {
      hide ChildrenOk, PendingOk, RankOk;
      assert old(UpOk(n, live) && StageOk(n)) by { assert old(NodeOk(n, live)); }
    }
  }

  method Attach(self: Object, child: Object, ghost live: set<Object>)
    requires Forest(live) && self in live && child in Tops(live) && self.rank < child.rank
    modifies self`children, self`capacity, self`moved, child`parent
    ensures Forest(live) && Tops(live) == old(Tops(live)) - {child}
    ensures self.children == old(self.children) + [child] && child.parent == self
    ensures self.moved < 2 * |self.children|
  {
    assert NodeOk(self, live);
    Push(self, child);
    Attached(self, child, live);
  }

  /** object_append_child, for a child nobody owns that is not above its new parent. */
  method AppendChild(self: Object, child: Object, ghost live: set<Object>)
    requires Forest(live) && self in live && child in Tops(live) && self !in Subtree(child, live)
    modifies self`children, self`capacity, self`moved, child`parent, Subtree(child, live)`rank
    ensures Forest(live) && Tops(live) == old(Tops(live)) - {child}
    ensures self.children == old(self.children) + [child] && child.parent == self
    ensures self.moved < 2 * |self.children|
  {
    hide Forest, Subtree;
    Lift(child, self.rank + 1 - child.rank, live);
    Attach(self, child, live);
  }

  lemma LeafSubtree(n: Object, live: set<Object>)
    requires Forest(live) && n in live && n.Kids() == []
    ensures Subtree(n, live) == {n}
  {
  }

  /** A new object, owned by nobody yet. */
  method Create(name: string, ghost live: set<Object>) returns (o: Object, ghost now: set<Object>)
    requires Forest(live)
    ensures fresh(o) && !o.isRoot && o.name == name && o.Kids() == []
    ensures now == live + {o} && Forest(now) && Tops(now) == Tops(live) + {o}
  {
    o := new Object(name, false, 0);
    now := live + {o};
    forall n | n in live ensures NodeOk(n, now) { assert NodeOk(n, live); }
  }

  lemma {:induction false} Lowest(live: set<Object>) returns (low: int)
    ensures forall n :: n in live ==> low < n.rank
  {
    if live == {} {
      low := 0;
    } else {
      var o :| o in live;
      low := Lowest(live - {o});
      if o.rank <= low { low := o.rank - 1; }
    }
  }

  /** root_create: the root owns the transports through its pending list until it is first browsed. */
  method RootCreate(transports: seq<Object>, ghost live: set<Object>)
    returns (root: Object, ghost now: set<Object>)
    requires Forest(live) && Distinct(transports) && forall t :: t in transports ==> t in Tops(live)
    modifies transports`holder
    ensures fresh(root) && root.isRoot && !root.populated && root.pending == transports && root.children == []
    ensures now == live + {root} && Forest(now)
    ensures Tops(now) == old(Tops(live)) - (set t | t in transports) + {root}
  {
    ghost var low := Lowest(live);
    root := new Object("/", true, low);
    now := live + {root};
    root.pending := transports;
    forall t | t in transports { t.holder := root; }
    RootHolds(root, live, now);
  }

  twostate lemma RootHolds(new root: Object, live: set<Object>, new now: set<Object>)
    requires old(Forest(live)) && root !in live && now == live + {root}
    requires Distinct(root.pending) && root.children == [] && root.isRoot && !root.populated
    requires root.Owner() == null && root.capacity == 0 && root.moved == 0
    requires forall n :: n in root.pending ==> n in live && old(n.Owner()) == null && n.holder == root
    requires forall n :: n in live && n !in root.pending ==> n.holder == old(n.holder)
    requires forall n :: n in live ==>
      && n.children == old(n.children) && n.pending == old(n.pending) && n.parent == old(n.parent)
      && n.populated == old(n.populated) && n.capacity == old(n.capacity) && n.moved == old(n.moved)
      && n.rank == old(n.rank) && root.rank < n.rank
    ensures Forest(now)
  {
    forall n | n in live
      ensures ChildrenOk(n, now) && PendingOk(n, now) && RankOk(n, now) && UpOk(n, now) && StageOk(n)
    {
      assert old(NodeOk(n, live));
      assert forall k :: k in old(n.Kids()) ==> k in live && old(k.Owner()) == n;
    }
  }

  // ---------------------------------------------------------------------------------------------
  // Browsing

  /** Browsing one object changes no other object's children. */
  twostate predicate OthersKept(self: Object, live: set<Object>)
    reads live
  {
    forall o :: o in live && o != self ==>
      o.children == old(o.children) && o.pending == old(o.pending) && o.populated == old(o.populated)
  }

  /** children_populated = true */
  method Flag(self: Object, ghost live: set<Object>)
    requires Forest(live) && self in live && self.pending == []
    modifies self`populated
    ensures Forest(live) && self.populated
  {
    self.populated := true;
    forall n | n in live ensures NodeOk(n, live) {
      assert old(NodeOk(n, live));
    }
  }

  /** root_populate_children: the transports move from the pending list to the end of the children array. */
  method HandOver(self: Object)
    requires ArrayOk(self) && self !in self.pending
    modifies self`children, self`capacity, self`moved, self`pending, self.pending`parent, self.pending`holder
    ensures ArrayOk(self) && self.children == old(self.children) + old(self.pending) && self.pending == []
    ensures forall t :: t in old(self.pending) ==> t.parent == self && t.holder == null
  {
    for i := 0 to |self.pending|
      invariant self.pending == old(self.pending) && ArrayOk(self)
      invariant self.children == old(self.children) + self.pending[..i]
      invariant forall t :: t in self.pending[..i] ==> t.parent == self
    {
      Push(self, self.pending[i]);
    }
    forall t | t in self.pending { t.holder := null; }
    self.pending := [];
  }

  lemma Together(a: seq<Object>, b: seq<Object>)
    requires Distinct(a) && Distinct(b) && forall k :: k in a ==> k !in b
    ensures Distinct(a + b)
  {
    forall i, j | 0 <= i < |a| && 0 <= j < |b| ensures a[i] != b[j] {
      assert a[i] in a && b[j] in b;
    }
  }

  /** Nothing but the root and what became its children changed. */
  twostate lemma HandedOver(new self: Object, live: set<Object>)
    requires old(Forest(live)) && self in live && ArrayOk(self)
    requires self.children == old(self.children) + old(self.pending) && self.pending == []
    requires forall n :: n in live && n != self ==>
      && n.children == old(n.children) && n.pending == old(n.pending)
      && n.capacity == old(n.capacity) && n.moved == old(n.moved)
    requires forall n :: n in old(self.pending) ==> n.parent == self && n.holder == null
    requires forall n :: n in live && n !in old(self.pending) ==>
      n.parent == old(n.parent) && n.holder == old(n.holder)
    requires forall n :: n in live ==> n.rank == old(n.rank) && n.populated == old(n.populated)
    ensures Forest(live) && Tops(live) == old(Tops(live))
  {
    assert old(NodeOk(self, live));
    assert forall k :: k in old(self.children) ==> k in live && old(k.parent) == self;
    Together(old(self.children), old(self.pending));
    forall n | n in live
      ensures ChildrenOk(n, live) && PendingOk(n, live) && RankOk(n, live) && UpOk(n, live) && StageOk(n)
    {
      assert old(NodeOk(n, live));
      assert forall k :: k in old(n.Kids()) ==> k in live && old(k.Owner()) == n;
    }
  }

  method RootPopulate(self: Object, ghost live: set<Object>)
    requires Forest(live) && self in live
    modifies self`children, self`capacity, self`moved, self`pending, self.pending`parent, self.pending`holder
    ensures self.children == old(self.Kids()) && self.pending == []
    ensures Forest(live) && Tops(live) == old(Tops(live)) && OthersKept(self, live)
  {
    assert NodeOk(self, live);
    HandOver(self);
    HandedOver(self, live);
  }

  /** The populate functions of the other kinds: one new child for each thing the kernel offers now, in
      order. */
  method KindPopulate(self: Object, offered: seq<string>, ghost live: set<Object>)
    returns (ghost now: set<Object>)
    requires Forest(live) && self in live
    modifies self`children, self`capacity, self`moved
    ensures Forest(now) && fresh(now - live) && Tops(now) == old(Tops(live))
    ensures |self.children| == |old(self.children)| + |offered| && old(self.children) <= self.children
    ensures Names(self.children) == Names(old(self.children)) + offered
    ensures now == live + set c | c in self.children[|old(self.children)|..]
    ensures forall c :: c in self.children[|old(self.children)|..] ==> fresh(c)
  {
    hide Forest, Subtree, Tops, Names;
    now := live;
    ghost var had := self.children;
    for i := 0 to |offered|
      invariant Forest(now) && fresh(now - live) && Tops(now) == old(Tops(live))
      invariant |self.children| == |had| + i && had <= self.children
      invariant Names(self.children) == Names(had) + offered[..i]
      invariant now == live + set c | c in self.children[|had|..]
      invariant forall c :: c in self.children[|had|..] ==> fresh(c)
    {
      var child;
      child, now := Create(offered[i], now);
      LeafSubtree(child, now);
      NamesSnoc(self.children, child);
      ghost var before := self.children;
      AppendChild(self, child, now);
      assert self.children[|had|..] == before[|had|..] + [child];
    }
  }

  /** object_get_children: populates on the first call only, and hands out the array. */
  method GetChildren(self: Object, offered: seq<string>, ghost live: set<Object>)
    returns (view: seq<Object>, ghost now: set<Object>)
    requires Forest(live) && self in live
    modifies self`children, self`capacity, self`moved, self`pending, self`populated
    modifies self.pending`parent, self.pending`holder
    ensures view == self.children && self.populated && self.pending == []
    ensures Forest(now) && live <= now && fresh(now - live) && Tops(now) == old(Tops(live)) && OthersKept(self, live)
    ensures old(self.populated) ==> view == old(self.children)
    ensures self.isRoot ==> view == old(self.Kids())
    ensures |old(self.children)| <= |view|
    ensures now == live + if old(self.populated) || self.isRoot then {} else set c | c in view[|old(self.children)|..]
    ensures !old(self.populated) && !self.isRoot ==>
      && |view| == |old(self.children)| + |offered| && old(self.children) <= view
      && (forall c :: c in view[|old(self.children)|..] ==> fresh(c))
      && Names(view) == Names(old(self.children)) + offered
  {
    now := live;
    assert NodeOk(self, live);
    if !self.populated {
      if self.isRoot {
        RootPopulate(self, live);
      } else {
        now := KindPopulate(self, offered, live);
      }
      Flag(self, now);
    }
    view := self.children;
  }

  // ---------------------------------------------------------------------------------------------
  // Refresh

  /** After the children of `self` are gone, every other survivor's links stay among the survivors. */
  lemma ChildrenCut(self: Object, x: Object, live: set<Object>)
    requires Forest(live) && self in live && x in live - Subtrees(self, |self.children|, live)
    ensures x.Owner() != null ==> x.Owner() in live - Subtrees(self, |self.children|, live)
    ensures x.parent != self
    ensures x != self ==> forall y :: y in x.Kids() ==> y in live - Subtrees(self, |self.children|, live)
  {
    var m := |self.children|;
    if x.Owner() != null {
      OwnerIsHigher(x, live);
      if x.Owner() in Subtrees(self, m, live) {
        var i := Inside(self, m, x.Owner(), live);
        DownStays(self.Kids()[i], x.Owner(), x, live);
        Covered(self, m, i, live);
      }
      if x.parent == self {
        assert NodeOk(x, live);
        var i :| 0 <= i < m && self.children[i] == x;
        assert self.Kids()[i] == x;
        Covered(self, m, i, live);
      }
    }
    forall y | y in x.Kids() && x != self ensures y in live - Subtrees(self, m, live) {
      KidFacts(x, y, live);
      if y in Subtrees(self, m, live) {
        var i := Inside(self, m, y, live);
        KidFacts(self, self.Kids()[i], live);
        UpStays(self.Kids()[i], y, live);
        Covered(self, m, i, live);
      }
    }
  }

  /** The transports a root still holds are not among its children. */
  lemma PendingStay(self: Object, live: set<Object>)
    requires Forest(live) && self in live
    ensures forall t :: t in self.pending ==> t in live - Subtrees(self, |self.children|, live)
  {
    var m := |self.children|;
    forall t | t in self.pending ensures t in live - Subtrees(self, m, live) {
      var j :| 0 <= j < |self.pending| && self.pending[j] == t;
      assert self.Kids()[m + j] == t;
      KidFacts(self, t, live);
      if t in Subtrees(self, m, live) {
        var i := Inside(self, m, t, live);
        KidsApart(self, i, m + j, live);
        assert false;
      }
    }
  }

  lemma GoneWereOwned(self: Object, live: set<Object>)
    requires Forest(live) && self in live
    ensures Tops(live - Subtrees(self, |self.children|, live)) == Tops(live)
  {
    forall x | x in Subtrees(self, |self.children|, live) ensures x.Owner() != null {
      var i := Inside(self, |self.children|, x, live);
      KidFacts(self, self.Kids()[i], live);
      UpStays(self.Kids()[i], x, live);
    }
  }

  /** What remains once the children of `self` were freed but its array still names them. */
  ghost predicate Severed(self: Object, rest: set<Object>)
    reads rest
  {
    && self in rest
    && (forall n :: n in rest ==> n.parent != self && UpOk(n, rest) && StageOk(n) && RankOk(n, rest))
    && (forall n :: n in rest ==> PendingOk(n, rest) && (n != self ==> ChildrenOk(n, rest)))
  }

  lemma Severs(self: Object, live: set<Object>)
    requires Forest(live) && self in live
    ensures Severed(self, live - Subtrees(self, |self.children|, live))
  {
    hide Subtrees;
    var rest := live - Subtrees(self, |self.children|, live);
    TopOutside(self, |self.children|, live);
    PendingStay(self, live);
    forall n | n in rest
      ensures n.parent != self && UpOk(n, rest) && StageOk(n) && RankOk(n, rest) && PendingOk(n, rest)
      ensures n != self ==> ChildrenOk(n, rest)
    {
      assert NodeOk(n, live);
      ChildrenCut(self, n, live);
      if n != self { NodeCut(n, live, rest); }
    }
  }

  /** The array is dropped and the flag reset. */
  method Clear(self: Object, ghost rest: set<Object>)
    requires Severed(self, rest)
    modifies self`children, self`capacity, self`moved, self`populated
    ensures Forest(rest) && !self.populated && self.children == []
  {
    self.children, self.capacity, self.moved := [], 0, 0;
    self.populated := false;
    Cleared(self, rest);
  }

  twostate lemma Cleared(new self: Object, rest: set<Object>)
    requires self in rest && old(Severed(self, rest)) && self.children == [] && self.capacity == 0 && self.moved == 0
    requires self.pending == old(self.pending) && !self.populated
    requires forall n :: n in rest ==>
      && n.parent == old(n.parent) && n.holder == old(n.holder) && n.rank == old(n.rank)
      && n.pending == old(n.pending)
    requires forall n :: n in rest && n != self ==>
      && n.children == old(n.children) && n.populated == old(n.populated)
      && n.capacity == old(n.capacity) && n.moved == old(n.moved)
    ensures Forest(rest)
  {
    forall n | n in rest
      ensures ChildrenOk(n, rest) && PendingOk(n, rest) && UpOk(n, rest) && RankOk(n, rest) && StageOk(n)
    {
      assert old(UpOk(n, rest) && RankOk(n, rest) && StageOk(n) && n.parent != self);
      assert old(PendingOk(n, rest) && (n != self ==> ChildrenOk(n, rest)));
    }
  }

  /** object_refresh: the children go, with everything below them; the next browse populates again. */
  method Refresh(self: Object, ghost live: set<Object>) returns (freed: seq<Object>, ghost rest: set<Object>)
    requires Forest(live) && self in live
    modifies self`children, self`capacity, self`moved, self`populated
    ensures freed == old(FreeOrders(self, |self.children|, live)) && Distinct(freed)
    ensures (set o | o in freed) <= live && rest == live - (set o | o in freed)
    ensures self in rest && Forest(rest) && Tops(rest) == old(Tops(live))
    ensures !self.populated && self.children == []
  {
    hide Forest, NodeOk, Severed, Subtrees, FreeOrders;
    Severs(self, live);
    GoneWereOwned(self, live);
    FreedOnceEach(self, |self.children|, live);
    freed := DestroyChildren(self, live);
    rest := live - set o | o in freed;
    KeepsSelf(self, rest);
    Clear(self, rest);
  }

  lemma KeepsSelf(self: Object, rest: set<Object>)
    requires Severed(self, rest)
    ensures self in rest
  {
  }

  /** Browsing, refreshing and browsing again, the kernel offering the same both times.  A root shows
      nothing the second time, since only root_create supplies transports; any other object shows the same
      unless it was found with other children than those on offer. */
  method BrowseAgain(self: Object, offered: seq<string>, ghost live: set<Object>)
    returns (first: seq<Object>, second: seq<Object>, ghost now: set<Object>)
    requires Forest(live) && self in live
    modifies self, self.pending
    ensures Forest(now) && Tops(now) == old(Tops(live))
    ensures Names(second) == Names(first)
            <==> if self.isRoot then old(self.Kids()) == []
                 else Names(old(self.children)) == if old(self.populated) then offered else []
  {
    hide Forest;
    ghost var had := Names(self.children);
    first, now := GetChildren(self, offered, live);
    var freed;
    freed, now := Refresh(self, now);
    second, now := GetChildren(self, offered, now);
    assert [] + offered == offered && Names([]) == [];
  }
}
