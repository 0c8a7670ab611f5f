/** Whole runs over the object tree: any sequence of creating, appending, browsing, refreshing and
    destroying (the operations of object.c and root.c, as a caller may issue them). */
module Runs {
  import opened Objects

  /** Objects are named by their place in the order of creation. */
  datatype Command =
    | New(name: string)
    | NewRoot(transports: seq<nat>)
    | Append(self: nat, child: nat)
    | Browse(self: nat, offered: seq<string>)
    | Reload(self: nat)
    | Drop(self: nat)

  lemma OwnChain(x: Object, top: Object, live: set<Object>)
    requires Forest(live) && x in live && top in live && x != top
    ensures x in Subtree(top, live) <==> x.Owner() != null && x.Owner() in Subtree(top, live)
    ensures x.Owner() != null ==> x.Owner() in live && Above(x.Owner(), live) < Above(x, live)
  {
    if x in Subtree(top, live) { UpStays(top, x, live); }
    if x.Owner() != null {
      OwnerIsHigher(x, live);
      if x.Owner() in Subtree(top, live) { DownStays(top, x.Owner(), x, live); }
    }
  }

  /** Whether destroying `top` would free `x`. */
  method IsUnder(x: Object, top: Object, ghost live: set<Object>) returns (r: bool)
    requires Forest(live) && x in live && top in live
    ensures r <==> x in Subtree(top, live)
  {
    hide Forest, Subtree;
    var p: Object? := x;
    while p != null && p != top
      invariant p != null ==> p in live
      invariant x in Subtree(top, live) <==> p != null && p in Subtree(top, live)
      decreases if p == null then {} else Above(p, live) + {p}
    {
      OwnChain(p, top, live);
      ghost var q: Object := p;
      p := p.Owner();
      assert p != null ==> p in Above(q, live) && q !in Above(q, live) by {
        if p != null { OwnerIsHigher(q, live); }
      }
    }
    TopIn(top, live);
    r := p != null;
  }

  lemma NamesApart(os: seq<Object>, k: nat)
    requires k <= |os|
    ensures Names(os) == Names(os[..k]) + Names(os[k..])
    ensures Distinct(os) ==> Distinct(os[k..])
  {
  }

  lemma TopIn(top: Object, live: set<Object>)
    requires Forest(live) && top in live
    ensures top in Subtree(top, live)
  {
  }

  ghost function Members(os: seq<Object>): set<Object> {
    set o | o in os
  }

  lemma {:induction false} CountOnce(os: seq<Object>, x: Object)
    requires Distinct(os)
    ensures multiset(os)[x] == if x in os then 1 else 0
  {
    if os != [] {
      var last := |os| - 1;
      CountOnce(os[..last], x);
      assert os == os[..last] + [os[last]];
      assert os[last] !in os[..last];
    }
  }

  class Session {
    var created: seq<Object>
    var freed: seq<Object>
    var live: set<Object>

    /** What was created is live or was freed, not both, and nothing was freed twice. */
    ghost predicate Valid()
      reads this, live
    {
      && Forest(live) && Distinct(created) && Distinct(freed)
      && Members(created) == live + Members(freed) && live !! Members(freed)
    }

    constructor ()
      ensures Valid() && created == [] && freed == [] && live == {}
    {
      created, freed, live := [], [], {};
    }

    predicate IsLive(i: nat)
      reads this
    {
      i < |created| && created[i] in live
    }

    predicate IsTop(i: nat)
      reads this, live
    {
      IsLive(i) && created[i].Owner() == null
    }

    method Gone(gone: seq<Object>, ghost rest: set<Object>)
      requires Forest(rest) && Distinct(gone) && Members(gone) <= live && rest == live - Members(gone)
      requires Distinct(created) && Distinct(freed)
      requires Members(created) == live + Members(freed) && live !! Members(freed)
      modifies this
      ensures Valid() && live == rest && created == old(created) && freed == old(freed) + gone
    {
      hide Forest;
      Apart(freed, gone, Members(freed), Members(gone));
      freed := freed + gone;
      live := live - set o | o in gone;
    }

    predicate Handed(ts: seq<nat>)
      reads this, live
    {
      (forall i | 0 <= i < |ts| :: IsTop(ts[i])) && (forall i, j | 0 <= i < j < |ts| :: ts[i] != ts[j])
    }

    method Born(born: seq<Object>, ghost now: set<Object>)
      requires Forest(now) && Distinct(born) && now == live + Members(born)
      requires Members(born) !! live + Members(created)
      requires Distinct(created) && Distinct(freed)
      requires Members(created) == live + Members(freed) && live !! Members(freed)
      modifies this
      ensures Valid() && live == now && created == old(created) + born && freed == old(freed)
    {
      hide Forest;
      Apart(created, born, Members(created), Members(born));
      created := created + born;
      live := live + set o | o in born;
    }

    /** Whether a command is carried out: its objects are live, what is appended or destroyed has no owner,
        and nothing is appended below itself. */
    ghost predicate Allowed(c: Command)
      requires Valid()
      reads this, live
    {
      match c
      case New(_) => true
      case NewRoot(ts) => Handed(ts)
      case Append(i, j) => IsLive(i) && IsTop(j) && created[i] !in Subtree(created[j], live)
      case Browse(i, _) => IsLive(i)
      case Reload(i) => IsLive(i)
      case Drop(i) => IsTop(i)
    }

    /** The live object whose arrays a command changes, if any. */
    ghost function Aim(c: Command): (aim: set<Object>)
      requires Valid()
      reads this, live
      ensures aim <= live
    {
      if !Allowed(c) then {} else
        match c
        case Append(i, _) => {created[i]}
        case Browse(i, _) => {created[i]}
        case Reload(i) => {created[i]}
        case _ => {}
    }

    /** Every other object that was live and still is shows what it showed. */
    twostate predicate KeptBut(aim: set<Object>)
      reads this, live
    {
      forall o :: o in old(live) && o in live && o !in aim ==>
        o.children == old(o.children) && o.pending == old(o.pending) && o.populated == old(o.populated)
    }

    /** What a command does: nothing, unless it is allowed. */
    twostate predicate Done(c: Command)
      requires old(Valid())
      reads this, live
    {
      && KeptBut(old(Aim(c)))
      && (!old(Allowed(c)) ==> live == old(live) && created == old(created) && freed == old(freed))
      && Effect(c)
    }

    twostate predicate Effect(c: Command)
      requires old(Valid())
      reads this, live
    {
      match c
      case New(name) =>
        && freed == old(freed) && |created| == |old(created)| + 1 && old(created) <= created
        && created[|old(created)|].name == name && created[|old(created)|] in live
      case NewRoot(ts) =>
        && freed == old(freed) && old(created) <= created
        && |created| == |old(created)| + (if old(Handed(ts)) then 1 else 0)
        && (old(Handed(ts)) ==> var root := created[|old(created)|];
              root in live && root.isRoot && |root.pending| == |ts|
              && forall i :: 0 <= i < |ts| ==> root.pending[i] == old(created)[ts[i]])
      case Append(i, j) =>
        && freed == old(freed) && created == old(created)
        && (old(Allowed(c)) ==>
              created[i] in live && created[i].pending == old(created[i].pending)
              && created[i].populated == old(created[i].populated)
              && created[i].children == old(created[i].children) + [created[j]])
      case Browse(i, offered) =>
        && freed == old(freed) && old(created) <= created
        && (old(IsLive(i)) ==>
              created[i] in live && created[i].populated && created[i].pending == []
              && old(created[i].children) <= created[i].children
              && Names(created[i].children)
                 == old(Names(created[i].children))
                    + (if old(created[i].populated) then []
                       else if created[i].isRoot then old(Names(created[i].pending)) else offered))
      case Reload(i) =>
        && created == old(created)
        && freed == old(freed) + (if old(IsLive(i)) then old(FreeOrders(created[i], |created[i].children|, live)) else [])
        && (old(IsLive(i)) ==>
              created[i] in live && !created[i].populated && created[i].children == []
              && created[i].pending == old(created[i].pending))
      case Drop(i) =>
        && created == old(created)
        && freed == old(freed) + if old(IsTop(i)) then old(FreeOrder(created[i], live)) else []
    }

    /** Carries a command out if it is allowed. */
    method Do(c: Command)
      requires Valid()
      modifies this, live
      ensures Valid() && fresh(live - old(live)) && Done(c)
    {
      match c
      case New(name) => DoNew(name);
      case NewRoot(transports) => DoNewRoot(transports);
      case Append(self, child) => DoAppend(self, child);
      case Browse(self, offered) => DoBrowse(self, offered);
      case Reload(self) => DoRefresh(self);
      case Drop(self) => DoDestroy(self);
    }

    method DoNew(name: string)
      requires Valid()
      modifies this
      ensures Valid() && fresh(live - old(live)) && Done(New(name))
    {
      ghost var now;
      var o;
      o, now := Create(name, live);
      Born([o], now);
    }

    method Chosen(ts: seq<nat>) returns (os: seq<Object>)
      requires Valid() && Handed(ts)
      ensures |os| == |ts| && (forall i :: 0 <= i < |ts| ==> ts[i] < |created| && os[i] == created[ts[i]])
      ensures Distinct(os) && forall o :: o in os ==> o in Tops(live)
    {
      hide Forest;
      var all := created;
      os := seq(|ts|, i requires 0 <= i < |ts| && ts[i] < |all| => all[ts[i]]);
    }

    method DoNewRoot(ts: seq<nat>)
      requires Valid()
      modifies this, live
      ensures Valid() && fresh(live - old(live)) && Done(NewRoot(ts))
    {
      hide Forest, Subtree, FreeOrder, FreeOrders, Tops;
      if Handed(ts) {
        var os := Chosen(ts);
        var root;
        ghost var now;
        root, now := RootCreate(os, live);
        Born([root], now);
      }
    }

    method DoAppend(i: nat, j: nat)
      requires Valid()
      modifies live
      ensures Valid() && fresh(live - old(live)) && Done(Append(i, j))
    {
      hide Forest, Subtree, FreeOrder, FreeOrders, Names;
      if IsLive(i) && IsTop(j) {
        var under := IsUnder(created[i], created[j], live);
        if !under { AppendChild(created[i], created[j], live); }
      }
    }

    method DoBrowse(i: nat, offered: seq<string>)
      requires Valid()
      modifies this, live
      ensures Valid() && fresh(live - old(live)) && Done(Browse(i, offered))
    {
      hide Forest, Tops, Subtree, FreeOrder, FreeOrders, Names;
      if IsLive(i) {
        var self := created[i];
        var had, asked := |self.children|, !self.populated && !self.isRoot;
        var view;
        ghost var now;
        KidsLive(self, live);
        view, now := GetChildren(self, offered, live);
        KidsLive(self, now);
        NamesApart(view, had);
        var born := if asked then view[had..] else [];
        assert now == live + Members(born);
        Born(born, now);
      }
    }

    method DoRefresh(i: nat)
      requires Valid()
      modifies this, live
      ensures Valid() && fresh(live - old(live)) && Done(Reload(i))
    {
      if IsLive(i) {
        var gone;
        ghost var rest;
        gone, rest := Refresh(created[i], live);
        Gone(gone, rest);
      }
    }

    method DoDestroy(i: nat)
      requires Valid()
      modifies this
      ensures Valid() && fresh(live - old(live)) && Done(Drop(i))
    {
      if IsTop(i) {
        var gone := Destroy(created[i], live);
        DestroyKeeps(created[i], live);
        FreedOnce(created[i], live);
        Gone(gone, live - Subtree(created[i], live));
      }
    }

    /** Counted with multiplicity: what was freed and what is live are what was created, each object once. */
    lemma Conserved()
      requires Valid()
      ensures multiset(created) == multiset(freed) + multiset(live)
    {
      hide Forest;
      forall x ensures multiset(created)[x] == multiset(freed)[x] + multiset(live)[x] {
        CountOnce(created, x);
        CountOnce(freed, x);
        assert x in created <==> x in Members(created);
        assert x in freed <==> x in Members(freed);
      }
    }

    lemma NoTopNoneLive()
      requires Valid() && Tops(live) == {}
      ensures live == {}
    {
      if live != {} {
        var x :| x in live;
        var top := UnderATop(x, live);
        assert false;
      }
    }

    /** Whatever the commands: every object created is live or was freed exactly once, what is live is a
        forest, and once nothing without an owner is left, everything was freed. */
    method Run(commands: seq<Command>)
      requires Valid()
      modifies this, live
      ensures Valid() && multiset(created) == multiset(freed) + multiset(live)
      ensures Tops(live) == {} ==> live == {} && multiset(freed) == multiset(created)
    {
      for i := 0 to |commands|
        invariant Valid() && fresh(live - old(live))
      {
        Do(commands[i]);
      }
      Conserved();
      if Tops(live) == {} { NoTopNoneLive(); }
    }
  }
}
