/** Paths through the object tree: object_get_path builds them bottom-up (object.c), path_join extends
    them (path.c) and resolve_path walks them top-down, populating on the way (tools/ykern/main.c). */
module Paths {
  import opened Objects
  import opened Schema

  // ---------------------------------------------------------------------------------------------
  // Texts

  /** "/a/b/c" */
  function Joined(names: seq<string>): string {
    if names == [] then "" else "/" + names[0] + Joined(names[1..])
  }

  function PathText(names: seq<string>): string {
    if names == [] then "/" else Joined(names)
  }

  /** A slash for the root, and a slash and a name for each object below it. */
  lemma PathGrows(names: seq<string>, name: string)
    ensures PathText([]) == "/" && PathText([name]) == "/" + name
    ensures names != [] ==> PathText(names + [name]) == PathText(names) + "/" + name
  {
    JoinedAppend(names, [name]);
    assert [name][1..] == [];
  }

  lemma {:induction false} JoinedAppend(a: seq<string>, b: seq<string>)
    ensures Joined(a + b) == Joined(a) + Joined(b)
  {
    if a == [] {
      assert a + b == b;
    } else {
      assert (a + b)[1..] == a[1..] + b;
      JoinedAppend(a[1..], b);
    }
  }

  lemma JoinedLast(names: seq<string>, i: nat)
    requires i < |names|
    ensures Joined(names[..i + 1]) == Joined(names[..i]) + "/" + names[i]
    ensures |Joined(names[..i + 1])| <= |Joined(names)|
  {
    assert names[..i + 1] == names[..i] + [names[i]];
    JoinedAppend(names[..i], [names[i]]);
    assert names == names[..i + 1] + names[i + 1..];
    JoinedAppend(names[..i + 1], names[i + 1..]);
  }

  /** The first token of `s`: up to a slash or the end. */
  function Word(s: string): (w: string)
    ensures |w| <= |s| && s[..|w|] == w && '/' !in w && (|w| < |s| ==> s[|w|] == '/')
  {
    if s == "" || s[0] == '/' then "" else [s[0]] + Word(s[1..])
  }

  /** What strtok_r(…, "/") hands out, call after call. */
  function Tokens(s: string): (ts: seq<string>)
    ensures forall t :: t in ts ==> t != "" && '/' !in t
  {
    if s == "" then []
    else if s[0] == '/' then Tokens(s[1..])
    else [Word(s)] + Tokens(s[|Word(s)|..])
  }

  ghost predicate Plain(name: string) {
    name != "" && '/' !in name
  }

  lemma {:induction false} WordThen(w: string, rest: string)
    requires '/' !in w && (rest == "" || rest[0] == '/')
    ensures Word(w + rest) == w
  {
    if w != "" {
      assert (w + rest)[1..] == w[1..] + rest;
      WordThen(w[1..], rest);
    }
  }

  lemma TokenThen(w: string, rest: string)
    requires Plain(w) && (rest == "" || rest[0] == '/')
    ensures Tokens(w + rest) == [w] + Tokens(rest) && Tokens("/" + w + rest) == [w] + Tokens(rest)
  {
    WordThen(w, rest);
    var s := w + rest;
    assert ("/" + w + rest)[1..] == s;
    assert s[0] == w[0] && s[|w|..] == rest;
  }

  /** Splitting a joined path gives the names back. */
  lemma {:induction false} TokensOfJoined(names: seq<string>)
    requires forall i :: 0 <= i < |names| ==> Plain(names[i])
    ensures Tokens(PathText(names)) == names && Tokens(Joined(names)) == names
  {
    hide Tokens;
    if names == [] {
      NoTokens();
    } else {
      TokensOfJoined(names[1..]);
      TokenThen(names[0], Joined(names[1..]));
    }
  }

  lemma NoTokens()
    ensures Tokens("") == [] && Tokens("/") == []
  {
    assert "/"[1..] == "";
  }

  // ---------------------------------------------------------------------------------------------
  // path_join

  function Trimmed(s: string): (t: string)
    ensures t <= s && (t == "" || t[|t| - 1] != '/') && forall i :: |t| <= i < |s| ==> s[i] == '/'
  {
    if s == "" || s[|s| - 1] != '/' then s else Trimmed(s[..|s| - 1])
  }

  function JoinPath(parent: string, segment: string): string {
    if parent == "" then "/" + segment else Trimmed(parent) + "/" + segment
  }

  method PathJoin(parent: string, segment: string) returns (path: string)
    ensures path == JoinPath(parent, segment)
  {
    if parent == "" {
      return "/" + segment;
    }
    var plen: nat := |parent|;
    while plen > 0 && parent[plen - 1] == '/'
      invariant plen <= |parent| && Trimmed(parent[..plen]) == Trimmed(parent)
    {
      assert parent[..plen][..plen - 1] == parent[..plen - 1];
      plen := plen - 1;
    }
    path := parent[..plen] + "/" + segment;
  }

  /** Joining a child's name to its parent's path gives the child's path exactly when the parent is the
      root or its path does not end in a slash. */
  lemma JoinExtends(names: seq<string>, name: string)
    ensures JoinPath(PathText(names), name) == PathText(names + [name])
            <==> names == [] || PathText(names)[|PathText(names)| - 1] != '/'
  {
    var p := PathText(names);
    JoinedAppend(names, [name]);
    assert Joined([name]) == "/" + name;
    if names == [] {
      assert Trimmed("/") == "";
    } else if p[|p| - 1] == '/' {
      assert |Trimmed(p)| < |p|;
      assert |JoinPath(p, name)| < |PathText(names + [name])|;
    }
  }

  // ---------------------------------------------------------------------------------------------
  // object_get_path

  /** The names from below the root (or below nothing) down to `n`. */
  ghost function NamesOf(n: Object, live: set<Object>): seq<string>
    requires Forest(live) && n in live
    reads live
    decreases Above(n, live)
  {
    if n.isRoot then []
    else if n.parent == null then [n.name]
    else
      OwnerIsHigher(n, live);
      NamesOf(n.parent, live) + [n.name]
  }

  ghost function NamesFrom(p: Object?, live: set<Object>): seq<string>
    requires Forest(live) && (p != null ==> p in live)
    reads live
  {
    if p == null then [] else NamesOf(p, live)
  }

  lemma StepUp(p: Object, live: set<Object>)
    requires Forest(live) && p in live && !p.isRoot
    ensures p.parent != null ==> p.parent in live
    ensures NamesFrom(p, live) == NamesFrom(p.parent, live) + [p.name]
  {
    if p.parent != null { OwnerIsHigher(p, live); }
  }

  /** The path of a child is its name joined to its parent's path, unless the parent, not being the root,
      has a path that ends in a slash (its own name is empty or ends in one). */
  lemma PathOfChild(n: Object, live: set<Object>)
    requires Forest(live) && n in live && !n.isRoot && n.parent != null && n.parent in live
    ensures var above := PathText(NamesOf(n.parent, live));
      PathText(NamesOf(n, live)) == JoinPath(above, n.name)
      <==> n.parent.isRoot || above[|above| - 1] != '/'
  {
    StepUp(n, live);
    JoinExtends(NamesOf(n.parent, live), n.name);
  }

  method Depth(self: Object, ghost live: set<Object>) returns (depth: nat)
    requires Forest(live) && self in live
    ensures depth == |NamesOf(self, live)|
  {
    hide Forest, NamesFrom;
    depth := 0;
    var p: Object? := self;
    StartsAt(self, live);
    while p != null && !p.isRoot
      invariant p != null ==> p in live
      invariant |NamesOf(self, live)| == depth + |NamesFrom(p, live)|
      decreases |NamesOf(self, live)| - depth
    {
      StepUp(p, live);
      depth := depth + 1;
      p := p.parent;
    }
    EndsAt(p, live);
  }

  lemma StartsAt(n: Object, live: set<Object>)
    requires Forest(live) && n in live
    ensures NamesFrom(n, live) == NamesOf(n, live)
  {
  }

  lemma EndsAt(p: Object?, live: set<Object>)
    requires Forest(live) && (p != null ==> p in live && p.isRoot)
    ensures NamesFrom(p, live) == []
  {
  }

  /** Writes the names into an array from its last cell backwards, one for each owner passed. */
  method FillSegments(self: Object, depth: nat, ghost live: set<Object>) returns (segments: array<string>)
    requires Forest(live) && self in live && depth == |NamesOf(self, live)|
    ensures fresh(segments) && segments[..] == NamesOf(self, live)
  {
    hide Forest, NamesFrom, NamesOf;
    ghost var names := NamesOf(self, live);
    segments := new string[depth](_ => "");
    var idx := depth;
    var p: Object? := self;
    StartsAt(self, live);
    while p != null && !p.isRoot
      invariant p != null ==> p in live
      invariant idx <= depth && NamesFrom(p, live) == names[..idx]
      invariant forall i :: idx <= i < depth ==> segments[i] == names[i]
      decreases idx
    {
      StepUp(p, live);
      idx := idx - 1;
      segments[idx] := p.name;
      p := p.parent;
    }
    EndsAt(p, live);
  }

  method CopyInto(buf: array<char>, off: nat, s: string)
    requires off + |s| <= buf.Length
    modifies buf
    ensures buf[..off] == old(buf[..off]) && buf[off..off + |s|] == s
  {
    for i := 0 to |s|
      invariant buf[..off] == old(buf[..off]) && buf[off..off + i] == s[..i]
    {
      buf[off + i] := s[i];
    }
  }

  lemma NothingJoined(names: seq<string>)
    ensures Joined(names[..0]) == "" && names[..|names|] == names
  {
  }

  /** One buffer of exactly the computed size: every segment behind its slash, then the NUL. */
  method JoinSegments(segments: array<string>) returns (data: array<char>, size: nat)
    ensures fresh(data) && data.Length == size + 1 && data[size] == '\0'
    ensures data[..size] == Joined(segments[..])
  {
    hide Joined;
    ghost var names := segments[..];
    NothingJoined(names);
    var total := 1;
    for i := 0 to segments.Length
      invariant total == 1 + |Joined(names[..i])|
    {
      JoinedLast(names, i);
      total := total + 1 + |segments[i]|;
    }
    assert names[..segments.Length] == names;
    data := new char[total](_ => '\0');
    size := 0;
    for i := 0 to segments.Length
      invariant size == |Joined(names[..i])| && size < data.Length && data[..size] == Joined(names[..i])
      invariant segments[..] == names
    {
      JoinedLast(names, i);
      data[size] := '/';
      size := size + 1;
      CopyInto(data, size, segments[i]);
      size := size + |segments[i]|;
      assert data[..size] == Joined(names[..i]) + "/" + names[i];
    }
    data[size] := '\0';
  }

  method GetPath(self: Object, ghost live: set<Object>) returns (data: array<char>, size: nat)
    requires Forest(live) && self in live
    ensures fresh(data) && data.Length == size + 1 && data[size] == '\0'
    ensures data[..size] == PathText(NamesOf(self, live))
  {
    var depth := Depth(self, live);
    if depth == 0 {
      data := new char[2](i => if i == 0 then '/' else '\0');
      size := 1;
      assert data[..size] == "/";
    } else {
      var segments := FillSegments(self, depth, live);
      data, size := JoinSegments(segments);
    }
  }

  // ---------------------------------------------------------------------------------------------
  // resolve_path

  /** One strtok_r(…, "/") call: the next token and what is left to split. */
  method NextToken(s: string) returns (token: Option<string>, rest: string)
    ensures token == None ==> Tokens(s) == []
    ensures token.Some? ==> Tokens(s) == [token.value] + Tokens(rest) && |rest| < |s|
  {
    hide Tokens, Word;
    var from: nat := 0;
    while from < |s| && s[from] == '/'
      invariant from <= |s| && Tokens(s[from..]) == Tokens(s)
    {
      SlashSkipped(s, from);
      from := from + 1;
    }
    if from == |s| {
      NoTokens();
      return None, "";
    }
    var to := from;
    while to < |s| && s[to] != '/'
      invariant from <= to <= |s| && '/' !in s[from..to]
      invariant to > from || s[from] != '/'
    {
      to := to + 1;
    }
    token, rest := Some(s[from..to]), s[to..];
    TokenThen(s[from..to], rest);
    assert s[from..] == s[from..to] + s[to..];
  }

  lemma SlashSkipped(s: string, i: nat)
    requires i < |s| && s[i] == '/'
    ensures Tokens(s[i..]) == Tokens(s[i + 1..])
  {
    assert s[i..][1..] == s[i + 1..];
  }

  ghost predicate FirstNamed(children: seq<Object>, name: string, c: Object) {
    exists i :: 0 <= i < |children| && children[i] == c && c.name == name
                && forall j :: 0 <= j < i ==> children[j].name != name
  }

  /** find_child: the first child of that name, after populating. */
  method FindChild(parent: Object, name: string, offered: seq<string>, ghost live: set<Object>)
    returns (found: Object?, ghost now: set<Object>)
    requires Forest(live) && parent in live
    modifies parent, parent.pending
    ensures Forest(now) && live <= now && Tops(now) == old(Tops(live)) && OthersKept(parent, live)
    ensures fresh(now - live) && (found != null ==> found in now)
    ensures parent.populated && old(parent.children) <= parent.children
    ensures old(parent.populated) ==> parent.children == old(parent.children)
    ensures found == null ==> forall c :: c in parent.children ==> c.name != name
    ensures found != null ==> FirstNamed(parent.children, name, found)
  {
    hide Forest, Tops;
    var view;
    view, now := GetChildren(parent, offered, live);
    KidsLive(parent, now);
    for i := 0 to |view|
      invariant forall j :: 0 <= j < i ==> view[j].name != name
    {
      if view[i].name == name {
        return view[i], now;
      }
    }
    found := null;
  }

  /** A walk down the tree: at each step to the first child with the next name. */
  ghost predicate Walk(trail: seq<Object>, names: seq<string>)
    reads trail
  {
    var m := |names|;
    && |trail| == m + 1
    && (m == 0 || (Walk(trail[..m], names[..m - 1]) && FirstNamed(trail[m - 1].children, names[m - 1], trail[m])))
  }

  lemma WalkOn(trail: seq<Object>, names: seq<string>, next: Object, name: string)
    requires |trail| == |names| + 1
    ensures Walk(trail + [next], names + [name]) <==>
      && Walk(trail, names) && FirstNamed(trail[|trail| - 1].children, name, next)
  {
    var all, ns := trail + [next], names + [name];
    assert all[..|ns|] == trail && ns[..|ns| - 1] == names;
  }

  twostate lemma {:induction false} WalkKept(trail: seq<Object>, new names: seq<string>)
    requires old(Walk(trail, names))
    requires forall o :: o in trail ==> old(o.children) <= o.children
    ensures Walk(trail, names)
  {
    var m := |names|;
    if m > 0 { WalkKept(trail[..m], names[..m - 1]); }
  }

  /** Children are only added, behind those there were, and none to an object that was populated. */
  twostate predicate StillThere(live: set<Object>)
    reads live
  {
    forall o :: o in live ==>
      old(o.children) <= o.children && (old(o.populated) ==> o.populated && o.children == old(o.children))
  }

  /** `trail` leads from `root` to `cur` along `names`, in the forest `now`. */
  ghost predicate Reached(root: Object, cur: Object, trail: seq<Object>, names: seq<string>, now: set<Object>)
    reads now, trail
  {
    && Forest(now) && (forall o :: o in trail ==> o in now) && Walk(trail, names)
    && trail != [] && trail[0] == root && trail[|trail| - 1] == cur
  }

  lemma SetOut(root: Object, live: set<Object>)
    requires Forest(live) && root in live
    ensures Reached(root, root, [root], [], live)
  {
  }

  /** One round of the loop: the next object on the walk, or the proof that there is none. */
  method Descend(root: Object, cur: Object, name: string, offered: seq<string>, ghost trail: seq<Object>, ghost names: seq<string>,
                 ghost live: set<Object>)
    returns (next: Object?, ghost now: set<Object>)
    requires Reached(root, cur, trail, names, live)
    modifies live
    ensures live <= now && fresh(now - live) && Tops(now) == old(Tops(live)) && StillThere(live)
    ensures Reached(root, cur, trail, names, now)
    ensures next == null ==> cur.populated && forall c :: c in cur.children ==> c.name != name
    ensures next != null ==> Reached(root, next, trail + [next], names + [name], now)
  {
    hide Forest, FirstNamed, Tops, Walk;
    KidsLive(cur, live);
    next, now := FindChild(cur, name, offered, live);
    WalkKept(trail, names);
    if next != null { WalkOn(trail, names, next, name); }
  }

  lemma OneMore(a: seq<string>, x: string, b: seq<string>)
    ensures a + ([x] + b) == (a + [x]) + b && a + [x] <= a + ([x] + b)
  {
  }

  /** resolve_path: on success the end of the walk along all tokens; on a miss `deepest` is the end of the
      walk along the tokens before `missing`, and none of its children is called `missing`.  What the kernel
      offers at the n-th step, if it is asked, is `answers[n]`. */
  method ResolvePath(root: Object, path: string, answers: seq<seq<string>>, ghost live: set<Object>)
    returns (target: Object?, deepest: Object, missing: Option<string>,
             ghost trail: seq<Object>, ghost matched: seq<string>, ghost now: set<Object>)
    requires Forest(live) && root in live
    modifies live
    ensures live <= now && Tops(now) == old(Tops(live)) && StillThere(live)
    ensures Reached(root, deepest, trail, matched, now)
    ensures target != null ==> target == deepest && missing == None && matched == Tokens(path)
    ensures target == null ==>
      && missing.Some? && matched + [missing.value] <= Tokens(path)
      && deepest.populated && forall c :: c in deepest.children ==> c.name != missing.value
  {
    hide Forest, Tokens, Tops, Reached, Walk;
    deepest, missing, trail, matched, now := root, None, [root], [], live;
    SetOut(root, live);
    if path == "" || path == "/" {
      NoTokens();
      return root, root, None, trail, matched, now;
    }
    var cur: Object := root;
    var step := 0;
    var seg, rest := NextToken(path);
    ghost var left := Tokens(path);
    while seg.Some?
      invariant live <= now && Tops(now) == old(Tops(live)) && StillThere(live) && fresh(now - live)
      invariant Reached(root, cur, trail, matched, now) && cur == deepest && missing == None
      invariant Tokens(path) == matched + left && step >= 0
      invariant left == if seg.Some? then [seg.value] + Tokens(rest) else []
      decreases |left|
    {
      OneMore(matched, seg.value, Tokens(rest));
      var next;
      next, now := Descend(root, cur, seg.value, if step < |answers| then answers[step] else [], trail, matched, now);
      step := step + 1;
      if next == null {
        return null, cur, seg, trail, matched, now;
      }
      cur := next;
      deepest := cur;
      trail, matched, left := trail + [cur], matched + [seg.value], Tokens(rest);
      seg, rest := NextToken(rest);
    }
    target := cur;
  }

  // ---------------------------------------------------------------------------------------------
  // The round trip

  lemma {:induction false} SameWalk(a: seq<Object>, b: seq<Object>, names: seq<string>)
    requires Walk(a, names) && Walk(b, names) && a[0] == b[0]
    ensures a == b
  {
    var m := |names|;
    if m > 0 {
      SameWalk(a[..m], b[..m], names[..m - 1]);
      assert a[m - 1] == a[..m][m - 1] && b[m - 1] == b[..m][m - 1];
      assert a == a[..m] + [a[m]] && b == b[..m] + [b[m]];
    }
  }

  /** From each object to one of its children. */
  ghost predicate Chain(trail: seq<Object>)
    reads trail
  {
    var m := |trail| - 1;
    m >= 0 && (m == 0 || (Chain(trail[..m]) && trail[m] in trail[m - 1].children))
  }

  /** On every step of the chain no earlier sibling has the same name. */
  ghost predicate FirstAll(trail: seq<Object>)
    reads trail
  {
    var m := |trail| - 1;
    m <= 0 || (FirstAll(trail[..m]) && FirstNamed(trail[m - 1].children, trail[m].name, trail[m]))
  }

  ghost function NamesBelow(trail: seq<Object>): (names: seq<string>)
    ensures |names| == if trail == [] then 0 else |trail| - 1
  {
    var m := |trail| - 1;
    if m <= 0 then [] else NamesBelow(trail[..m]) + [trail[m].name]
  }

  ghost function TopOf(n: Object, live: set<Object>): (top: Object)
    requires Forest(live) && n in live
    reads live
    decreases Above(n, live)
  {
    if n.isRoot || n.parent == null then n
    else
      OwnerIsHigher(n, live);
      TopOf(n.parent, live)
  }

  /** No sibling before `n`, or before one of its ancestors, has the same name. */
  ghost predicate FirstOnTheWay(n: Object, live: set<Object>)
    requires Forest(live) && n in live
    reads live
    decreases Above(n, live)
  {
    n.isRoot || n.parent == null ||
    (OwnerIsHigher(n, live);
     FirstNamed(n.parent.children, n.name, n) && FirstOnTheWay(n.parent, live))
  }

  lemma ParentFacts(n: Object, live: set<Object>)
    requires Forest(live) && n in live && n.parent != null
    ensures n.parent in live && n in n.parent.children
    ensures Above(n.parent, live) < Above(n, live)
  {
    assert NodeOk(n, live);
    OwnerIsHigher(n, live);
  }

  lemma {:induction false} Ancestors(n: Object, live: set<Object>) returns (trail: seq<Object>)
    requires Forest(live) && n in live && TopOf(n, live).isRoot
    ensures Chain(trail) && trail[0] == TopOf(n, live) && trail[|trail| - 1] == n
    ensures forall o :: o in trail ==> o in live
    ensures NamesBelow(trail) == NamesOf(n, live)
    ensures FirstAll(trail) <==> FirstOnTheWay(n, live)
    decreases Above(n, live)
  {
    hide Forest, NodeOk, Above, FirstNamed;
    if n.isRoot {
      trail := [n];
    } else {
      ParentFacts(n, live);
      var up := Ancestors(n.parent, live);
      trail := up + [n];
      assert trail[..|up|] == up;
    }
  }

  lemma {:induction false} ChainWalks(trail: seq<Object>)
    requires Chain(trail)
    ensures FirstAll(trail) <==> Walk(trail, NamesBelow(trail))
  {
    var m := |trail| - 1;
    if m > 0 {
      hide FirstNamed, Walk;
      ChainWalks(trail[..m]);
      assert trail == trail[..m] + [trail[m]];
      WalkOn(trail[..m], NamesBelow(trail[..m]), trail[m], trail[m].name);
    }
  }

  /** Parents are unique, so chains from one object down to another are the same. */
  lemma {:induction false} SameChain(a: seq<Object>, b: seq<Object>, live: set<Object>)
    requires Forest(live) && Chain(a) && Chain(b) && forall o :: o in a || o in b ==> o in live
    requires a[0] == b[0] && a[|a| - 1] == b[|b| - 1]
    ensures a == b
    decreases |a|
  {
    var m, k := |a| - 1, |b| - 1;
    Deeper(a, live);
    Deeper(b, live);
    if m > 0 { ChildFacts(a[m - 1], a[m], live); }
    if k > 0 { ChildFacts(b[k - 1], b[k], live); }
    if m > 0 && k > 0 { SameChain(a[..m], b[..k], live); }
  }

  lemma {:induction false} Deeper(trail: seq<Object>, live: set<Object>)
    requires Forest(live) && Chain(trail) && forall o :: o in trail ==> o in live
    ensures |trail| > 1 ==> trail[0].rank < trail[|trail| - 1].rank
  {
    var m := |trail| - 1;
    if m > 0 {
      Deeper(trail[..m], live);
      ChildFacts(trail[m - 1], trail[m], live);
    }
  }

  lemma ChildFacts(p: Object, c: Object, live: set<Object>)
    requires Forest(live) && p in live && c in p.children
    ensures c.parent == p && p.rank < c.rank
  {
    assert NodeOk(p, live);
    assert c in p.Kids();
    KidFacts(p, c, live);
  }

  lemma {:induction false} WalkChains(trail: seq<Object>, names: seq<string>)
    requires Walk(trail, names)
    ensures Chain(trail) && NamesBelow(trail) == names
  {
    var m := |names|;
    if m > 0 {
      FirstIsChild(trail[m - 1].children, names[m - 1], trail[m]);
      WalkChains(trail[..m], names[..m - 1]);
      assert names == names[..m - 1] + [names[m - 1]];
    }
  }

  lemma FirstInMore(had: seq<Object>, children: seq<Object>, c: Object)
    requires had <= children && c in had
    ensures FirstNamed(children, c.name, c) <==> FirstNamed(had, c.name, c)
  {
    var k :| 0 <= k < |had| && had[k] == c;
    if FirstNamed(children, c.name, c) {
      var i :| 0 <= i < |children| && children[i] == c && forall j :: 0 <= j < i ==> children[j].name != c.name;
      assert i <= k && had[i] == c;
    }
  }

  twostate lemma {:induction false} ChainKept(trail: seq<Object>)
    requires old(Chain(trail))
    requires forall o :: o in trail ==> old(o.children) <= o.children
    ensures Chain(trail) && (FirstAll(trail) <==> old(FirstAll(trail)))
  {
    var m := |trail| - 1;
    if m > 0 {
      ChainKept(trail[..m]);
      FirstInMore(old(trail[m - 1].children), trail[m - 1].children, trail[m]);
    }
  }

  lemma {:induction false} WalkPrefix(trail: seq<Object>, names: seq<string>, k: nat)
    requires Walk(trail, names) && k < |names|
    ensures Walk(trail[..k + 1], names[..k]) && FirstNamed(trail[k].children, names[k], trail[k + 1])
    decreases |names|
  {
    var m := |names|;
    if k < m - 1 {
      WalkPrefix(trail[..m], names[..m - 1], k);
      assert trail[..m][..k + 1] == trail[..k + 1] && names[..m - 1][..k] == names[..k];
    }
  }

  /** What resolve_path ends at, for a path spelt from the names along a chain. */
  lemma Retraced(trail: seq<Object>, reached: seq<Object>, matched: seq<string>, missing: Option<string>,
                 live: set<Object>)
    requires Forest(live) && Chain(trail) && forall o :: o in trail || o in reached ==> o in live
    requires Walk(reached, matched) && reached != [] && trail != [] && reached[0] == trail[0]
    requires var ts := Tokens(PathText(NamesBelow(trail)));
      if missing == None then matched == ts
      else matched + [missing.value] <= ts
           && forall c :: c in reached[|reached| - 1].children ==> c.name != missing.value
    ensures missing == None && reached[|reached| - 1] == trail[|trail| - 1]
            <==> FirstAll(trail) && forall i :: 0 <= i < |NamesBelow(trail)| ==> Plain(NamesBelow(trail)[i])
  {
    hide Forest, NodeOk, Tokens, PathText, FirstNamed, Walk, Chain, FirstAll, NamesBelow;
    var names := NamesBelow(trail);
    ChainWalks(trail);
    if FirstAll(trail) && forall i :: 0 <= i < |names| ==> Plain(names[i]) {
      TokensOfJoined(names);
      if missing != None {
        Missed(reached, matched, missing.value, trail, names);
        assert false;
      }
      SameWalk(reached, trail, names);
    }
    if missing == None && reached[|reached| - 1] == trail[|trail| - 1] {
      WalkChains(reached, matched);
      SameChain(trail, reached, live);
      forall i | 0 <= i < |names| ensures Plain(names[i]) {
        assert names[i] in Tokens(PathText(names));
      }
    }
  }

  /** A walk along the same names cannot go where another one missed. */
  lemma Missed(reached: seq<Object>, names: seq<string>, missing: string, trail: seq<Object>, all: seq<string>)
    requires Walk(reached, names) && Walk(trail, all) && reached[0] == trail[0]
    requires forall c :: c in reached[|reached| - 1].children ==> c.name != missing
    ensures !(names + [missing] <= all)
  {
    hide FirstNamed;
    if names + [missing] <= all {
      var k := |names|;
      WalkPrefix(trail, all, k);
      assert all[..k] == names;
      SameWalk(reached, trail[..k + 1], names);
      FirstIsChild(trail[k].children, missing, trail[k + 1]);
      assert false;
    }
  }

  lemma FirstIsChild(children: seq<Object>, name: string, c: Object)
    requires FirstNamed(children, name, c)
    ensures c in children && c.name == name
  {
  }

  /** get_path followed by resolve_path comes back to the object exactly when every name on the way is
      non-empty and slash-free and belongs to no earlier sibling, whatever the kernel offers below the objects not yet browsed. */
  method Rediscover(root: Object, n: Object, answers: seq<seq<string>>, ghost live: set<Object>)
    returns (found: Object?)
    requires Forest(live) && n in live && root == TopOf(n, live) && root.isRoot && root in live
    modifies live
    ensures found == n <==>
      old(FirstOnTheWay(n, live)) && old(forall i :: 0 <= i < |NamesOf(n, live)| ==> Plain(NamesOf(n, live)[i]))
  {
    ghost var trail := Ancestors(n, live);
    var data, size := GetPath(n, live);
    var deepest, missing;
    ghost var reached, matched, now;
    found, deepest, missing, reached, matched, now := ResolvePath(root, data[..size], answers, live);
    ChainKept(trail);
    Retraced(trail, reached, matched, missing, now);
  }

  /** Siblings with distinct names are all first. */
  lemma {:induction false} DistinctAreFirst(n: Object, live: set<Object>)
    requires Forest(live) && n in live
    requires forall o :: o in live ==>
      forall i, j :: 0 <= i < j < |o.children| ==> o.children[i].name != o.children[j].name
    ensures FirstOnTheWay(n, live)
    decreases Above(n, live)
  {
    if !n.isRoot && n.parent != null {
      OwnerIsHigher(n, live);
      DistinctAreFirst(n.parent, live);
      assert NodeOk(n, live);
      var i :| 0 <= i < |n.parent.children| && n.parent.children[i] == n;
      assert FirstNamed(n.parent.children, n.name, n);
    }
  }

  /** After a miss, no object that resolve_path could come back to lies beyond the missing segment. */
  lemma MissIsReal(reached: seq<Object>, names: seq<string>, missing: string, n: Object, live: set<Object>)
    requires Forest(live) && n in live && Walk(reached, names) && forall o :: o in reached ==> o in live
    requires forall c :: c in reached[|reached| - 1].children ==> c.name != missing
    requires reached[0] == TopOf(n, live) && reached[0].isRoot && FirstOnTheWay(n, live)
    ensures !(names + [missing] <= NamesOf(n, live))
  {
    hide Forest, NodeOk, NamesOf, FirstNamed;
    var trail := Ancestors(n, live);
    ChainWalks(trail);
    Missed(reached, names, missing, trail, NamesOf(n, live));
  }
}
