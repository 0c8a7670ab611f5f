/** Which attribute set describes an operation: the choice made for browsing (find_op_attr_set) and the
    one made again for invoking (invoke_generic_genl), and the children browsing shows. */
module OpSchema {
  import opened Schema

  const SUFFIXES: seq<string> := ["_GET_STATUS", "_GET_CFG", "_GET_ID", "_GET", "_SET", "_NEW", "_DEL", "_ADD", "_NTF", "_ACT"]
  const PREFIXES: seq<string> := ["GET_", "SET_", "NEW_", "DEL_"]

  predicate EndsIn(s: string, suffix: string) {
    |s| > |suffix| && s[|s| - |suffix|..] == suffix
  }

  /** The name without the first suffix of the table that it ends in, if what is left fits `size`
      characters with its NUL. */
  function StripSuffixFrom(table: seq<string>, name: string, size: nat): Option<string> {
    if table == [] then None
    else if EndsIn(name, table[0]) then
      var keep := |name| - |table[0]|;
      if keep + 1 > size then None else Some(name[..keep])
    else StripSuffixFrom(table[1..], name, size)
  }

  predicate StartsWith(s: string, prefix: string) {
    |s| > |prefix| && s[..|prefix|] == prefix
  }

  function StripPrefixFrom(table: seq<string>, name: string, size: nat): Option<string> {
    if table == [] then None
    else if StartsWith(name, table[0]) then
      var keep := |name| - |table[0]|;
      if keep + 1 > size then None else Some(name[|table[0]|..])
    else StripPrefixFrom(table[1..], name, size)
  }

  /** strip_op_suffix */
  method StripSuffix(name: string, size: nat) returns (r: Option<string>)
    ensures r == StripSuffixFrom(SUFFIXES, name, size)
    ensures forall x, s ::
      s in ["_GET_STATUS", "_GET_CFG", "_GET_ID", "_GET", "_SET", "_NEW", "_DEL", "_ADD", "_NTF", "_ACT"] && name == x + s && x != "" ==>
        r == if |x| + 1 > size then None else Some(x)
    ensures r.Some? ==> r.value != "" && |r.value| + 1 <= size
                        && exists s :: s in SUFFIXES && name == r.value + s
  {
    SuffixGone(name, size);
    for i := 0 to |SUFFIXES|
      invariant StripSuffixFrom(SUFFIXES, name, size) == StripSuffixFrom(SUFFIXES[i..], name, size)
    {
      if EndsIn(name, SUFFIXES[i]) {
        var keep := |name| - |SUFFIXES[i]|;
        return if keep + 1 > size then None else Some(name[..keep]);
      }
    }
    return None;
  }

  /** strip_op_prefix_get */
  method StripPrefix(name: string, size: nat) returns (r: Option<string>)
    ensures r == StripPrefixFrom(PREFIXES, name, size)
    ensures forall x, p :: p in ["GET_", "SET_", "NEW_", "DEL_"] && name == p + x && x != "" ==>
        r == if |x| + 1 > size then None else Some(x)
    ensures r.Some? ==> r.value != "" && |r.value| + 1 <= size
                        && exists p :: p in PREFIXES && name == p + r.value
  {
    PrefixGone(name, size);
    for i := 0 to |PREFIXES|
      invariant StripPrefixFrom(PREFIXES, name, size) == StripPrefixFrom(PREFIXES[i..], name, size)
    {
      if StartsWith(name, PREFIXES[i]) {
        var keep := |name| - |PREFIXES[i]|;
        return if keep + 1 > size then None else Some(name[|PREFIXES[i]|..]);
      }
    }
    return None;
  }

  /** No suffix of the table ends in another one, so a name ends in at most one of them and the order of
      the table does not matter. */
  lemma OneSuffix(name: string, s: string, t: string)
    requires s in SUFFIXES && t in SUFFIXES && EndsIn(name, s) && EndsIn(name, t)
    ensures s == t
  {
    assert name[|name| - 1] == s[|s| - 1] == t[|t| - 1];
    assert name[|name| - 2] == s[|s| - 2] == t[|t| - 2];
    assert name[|name| - 3] == s[|s| - 3] == t[|t| - 3];
  }

  /** So stripping takes off the one suffix that is there, in whatever order the table lists them. */
  lemma {:induction false} StripsTheSuffix(table: seq<string>, name: string, size: nat, s: string)
    requires (forall t :: t in table ==> t in SUFFIXES) && s in table && EndsIn(name, s)
    ensures StripSuffixFrom(table, name, size) == if |name| - |s| + 1 > size then None else Some(name[..|name| - |s|])
  {
    if EndsIn(name, table[0]) {
      assert table[0] in table;
      OneSuffix(name, s, table[0]);
    } else {
      StripsTheSuffix(table[1..], name, size, s);
    }
  }

  /** Whatever a name ends in, stripping takes it off, and it takes nothing else off. */
  lemma SuffixGone(name: string, size: nat)
    ensures forall x, s :: s in SUFFIXES && name == x + s && x != "" ==>
        StripSuffixFrom(SUFFIXES, name, size) == if |x| + 1 > size then None else Some(x)
    ensures var r := StripSuffixFrom(SUFFIXES, name, size);
      r.Some? ==> r.value != "" && |r.value| + 1 <= size && exists s :: s in SUFFIXES && name == r.value + s
  {
    hide StripSuffixFrom;
    forall x, s | s in SUFFIXES && name == x + s && x != ""
      ensures StripSuffixFrom(SUFFIXES, name, size) == if |x| + 1 > size then None else Some(x)
    {
      StripsTheSuffix(SUFFIXES, name, size, s);
    }
    var _ := SuffixOf(SUFFIXES, name, size);
  }

  lemma {:induction false} SuffixOf(table: seq<string>, name: string, size: nat) returns (s: string)
    ensures var r := StripSuffixFrom(table, name, size);
      r.Some? ==> s in table && name == r.value + s && r.value != "" && |r.value| + 1 <= size
  {
    if table == [] {
      s := "";
    } else if EndsIn(name, table[0]) {
      s := table[0];
    } else {
      s := SuffixOf(table[1..], name, size);
    }
  }

  lemma OnePrefix(name: string, p: string, q: string)
    requires p in PREFIXES && q in PREFIXES && StartsWith(name, p) && StartsWith(name, q)
    ensures p == q
  {
    assert name[0] == p[0] == q[0];
  }

  lemma {:induction false} StripsThePrefix(table: seq<string>, name: string, size: nat, p: string)
    requires (forall t :: t in table ==> t in PREFIXES) && p in table && StartsWith(name, p)
    ensures StripPrefixFrom(table, name, size) == if |name| - |p| + 1 > size then None else Some(name[|p|..])
  {
    if StartsWith(name, table[0]) {
      assert table[0] in table;
      OnePrefix(name, p, table[0]);
    } else {
      StripsThePrefix(table[1..], name, size, p);
    }
  }

  lemma PrefixGone(name: string, size: nat)
    ensures forall x, p :: p in PREFIXES && name == p + x && x != "" ==>
        StripPrefixFrom(PREFIXES, name, size) == if |x| + 1 > size then None else Some(x)
    ensures var r := StripPrefixFrom(PREFIXES, name, size);
      r.Some? ==> r.value != "" && |r.value| + 1 <= size && exists p :: p in PREFIXES && name == p + r.value
  {
    hide StripPrefixFrom;
    forall x, p | p in PREFIXES && name == p + x && x != ""
      ensures StripPrefixFrom(PREFIXES, name, size) == if |x| + 1 > size then None else Some(x)
    {
      StripsThePrefix(PREFIXES, name, size, p);
    }
    var _ := PrefixOf(PREFIXES, name, size);
  }

  lemma {:induction false} PrefixOf(table: seq<string>, name: string, size: nat) returns (p: string)
    ensures var r := StripPrefixFrom(table, name, size);
      r.Some? ==> p in table && name == p + r.value && r.value != "" && |r.value| + 1 <= size
  {
    if table == [] {
      p := "";
    } else if StartsWith(name, table[0]) {
      p := table[0];
    } else {
      p := PrefixOf(table[1..], name, size);
    }
  }

  const CANDIDATE_SIZE: nat := 128

  /** The sets of a family's overlay, if it has one, and the operation's overlay name, if it has one. */
  datatype Context = Context(family: string, sets: Option<seq<AttrSet>>, op: Option<string>)

  ghost predicate Has(sets: seq<AttrSet>, name: string) {
    exists t :: t in sets && t.name == name
  }

  /** `x` is the operation's name without a suffix or without a prefix. */
  ghost predicate Named(op: Option<string>, x: string) {
    && 0 < |x| < 128
    && exists t ::
      || (t in ["_GET_STATUS", "_GET_CFG", "_GET_ID", "_GET", "_SET", "_NEW", "_DEL", "_ADD", "_NTF", "_ACT"] && op == Some(x + t))
      || (t in ["GET_", "SET_", "NEW_", "DEL_"] && op == Some(t + x))
  }

  function Lookup(sets: seq<AttrSet>, name: Option<string>): Option<AttrSet> {
    if name == None then None else SetNamed(sets, name.value)
  }

  /** The set an operation's attributes belong to, without the ethtool fallback. */
  function OwnSet(c: Context): Option<AttrSet> {
    if c.sets == None then None else
      var flat := SetNamed(c.sets.value, "ATTRS");
      if flat.Some? || c.op == None then flat else
        var bySuffix := Lookup(c.sets.value, StripSuffixFrom(SUFFIXES, c.op.value, CANDIDATE_SIZE));
        if bySuffix.Some? then bySuffix
        else Lookup(c.sets.value, StripPrefixFrom(PREFIXES, c.op.value, CANDIDATE_SIZE))
  }

  /** The set browsing shows. */
  function BrowsedSet(c: Context): Option<AttrSet> {
    if c.family == "ethtool" && c.sets.Some? && OwnSet(c) == None then SetNamed(c.sets.value, "HEADER") else OwnSet(c)
  }

  /** find_op_attr_set */
  method BrowseSet(c: Context) returns (r: Option<AttrSet>)
    ensures r == BrowsedSet(c)
    ensures r.Some? ==> c.sets.Some? && r.value in c.sets.value
    // ATTRS, whenever there is one
    ensures c.sets.Some? && Has(c.sets.value, "ATTRS") ==> r.Some? && r.value.name == "ATTRS"
    // else the name of the operation without its suffix
    ensures forall x, s ::
      c.sets.Some? && !Has(c.sets.value, "ATTRS") && Has(c.sets.value, x) && 0 < |x| < 128
      && s in ["_GET_STATUS", "_GET_CFG", "_GET_ID", "_GET", "_SET", "_NEW", "_DEL", "_ADD", "_NTF", "_ACT"] && c.op == Some(x + s) ==>
        r.Some? && r.value.name == x
    // else the name of the operation without its prefix
    ensures forall x, p ::
      c.sets.Some? && !Has(c.sets.value, "ATTRS") && Has(c.sets.value, x) && 0 < |x| < 128
      && p in ["GET_", "SET_", "NEW_", "DEL_"] && c.op == Some(p + x)
      && (forall y, s :: s in SUFFIXES && c.op == Some(y + s) && 0 < |y| < 128 ==> !Has(c.sets.value, y)) ==>
        r.Some? && r.value.name == x
    // else HEADER, for ethtool only
    ensures c.sets.Some? && c.family == "ethtool" && Has(c.sets.value, "HEADER") ==> r.Some?
    ensures r.Some? ==> r.value.name == "ATTRS" || Named(c.op, r.value.name)
                        || (r.value.name == "HEADER" && c.family == "ethtool")
  {
    hide SetNamed, StripSuffixFrom, StripPrefixFrom;
    if c.sets == None { return None; }
    r := FindSet(c.sets.value, "ATTRS");
    if r.Some? { return; }
    if c.op.Some? {
      var candidate := StripSuffix(c.op.value, CANDIDATE_SIZE);
      if candidate.Some? {
        r := FindSet(c.sets.value, candidate.value);
        if r.Some? { return; }
      }
      candidate := StripPrefix(c.op.value, CANDIDATE_SIZE);
      if candidate.Some? {
        r := FindSet(c.sets.value, candidate.value);
        if r.Some? { return; }
      }
    }
    if c.family == "ethtool" {
      r := FindSet(c.sets.value, "HEADER");
      if r.Some? { return; }
    }
    return None;
  }

  /** The selection at the head of invoke_generic_genl. */
  method InvokeSet(c: Context) returns (attrs: Option<AttrSet>)
    ensures attrs == OwnSet(c)
    ensures attrs.Some? ==> c.sets.Some? && attrs.value in c.sets.value
    // ATTRS, whenever there is one
    ensures c.sets.Some? && Has(c.sets.value, "ATTRS") ==> attrs.Some? && attrs.value.name == "ATTRS"
    // else the name of the operation without its suffix
    ensures forall x, s ::
      c.sets.Some? && !Has(c.sets.value, "ATTRS") && Has(c.sets.value, x) && 0 < |x| < 128
      && s in ["_GET_STATUS", "_GET_CFG", "_GET_ID", "_GET", "_SET", "_NEW", "_DEL", "_ADD", "_NTF", "_ACT"] && c.op == Some(x + s) ==>
        attrs.Some? && attrs.value.name == x
    // else the name of the operation without its prefix
    ensures forall x, p ::
      c.sets.Some? && !Has(c.sets.value, "ATTRS") && Has(c.sets.value, x) && 0 < |x| < 128
      && p in ["GET_", "SET_", "NEW_", "DEL_"] && c.op == Some(p + x)
      && (forall y, s :: s in SUFFIXES && c.op == Some(y + s) && 0 < |y| < 128 ==> !Has(c.sets.value, y)) ==>
        attrs.Some? && attrs.value.name == x
    // and nothing else
    ensures attrs.Some? ==> attrs.value.name == "ATTRS" || Named(c.op, attrs.value.name)
  {
    hide SetNamed, StripSuffixFrom, StripPrefixFrom;
    attrs := None;
    if c.sets.Some? {
      attrs := FindSet(c.sets.value, "ATTRS");
      if attrs == None && c.op.Some? {
        var candidate := StripSuffix(c.op.value, CANDIDATE_SIZE);
        if candidate.Some? { attrs := FindSet(c.sets.value, candidate.value); }
        if attrs == None {
          candidate := StripPrefix(c.op.value, CANDIDATE_SIZE);
          if candidate.Some? { attrs := FindSet(c.sets.value, candidate.value); }
        }
      }
    }
  }

  /** What browsing shows for a set: its attributes that have a name, in order. */
  function ShownNames(attrs: seq<AttrDef>): seq<string> {
    if attrs == [] then []
    else (if attrs[0].name.Some? then [attrs[0].name.value] else []) + ShownNames(attrs[1..])
  }

  lemma {:induction false} ShownNamesConcat(xs: seq<AttrDef>, ys: seq<AttrDef>)
    ensures ShownNames(xs + ys) == ShownNames(xs) + ShownNames(ys)
  {
    if xs == [] {
      assert xs + ys == ys;
    } else {
      assert (xs + ys)[1..] == xs[1..] + ys;
      ShownNamesConcat(xs[1..], ys);
    }
  }

  function KeysOf(s: Option<AttrSet>): seq<string> {
    if s == None then [] else ShownNames(s.value.attrs)
  }

  /** op_populate_children: the names of the children it appends. */
  method ShowChildren(c: Context) returns (names: seq<string>, s: Option<AttrSet>)
    ensures s == BrowsedSet(c)
    ensures names == KeysOf(s)
    ensures forall n :: n in names <==> s.Some? && exists a :: a in s.value.attrs && a.name == Some(n)
  {
    hide BrowsedSet;
    s := BrowseSet(c);
    names := [];
    if s.Some? {
      names := ShowNames(s.value.attrs);
      forall n ensures n in names <==> exists a :: a in s.value.attrs && a.name == Some(n) {
        ShownIffFound(s.value.attrs, n);
      }
    }
  }

  /** The loop over the attributes; one without a name is passed over. */
  method ShowNames(attrs: seq<AttrDef>) returns (names: seq<string>)
    ensures names == ShownNames(attrs)
  {
    names := [];
    for i := 0 to |attrs|
      invariant names == ShownNames(attrs[..i])
    {
      assert attrs[..i + 1] == attrs[..i] + [attrs[i]];
      ShownNamesConcat(attrs[..i], [attrs[i]]);
      assert [attrs[i]][1..] == [];
      if attrs[i].name == None { continue; }
      names := names + [attrs[i].name.value];
    }
    assert attrs[..|attrs|] == attrs;
  }

  /** --arg accepts a key when the invoke has a set and finds the key in it. */
  predicate Accepts(c: Context, key: string) {
    OwnSet(c).Some? && IdOf(OwnSet(c).value.attrs, key).Some?
  }

  lemma {:induction false} ShownIffFound(attrs: seq<AttrDef>, key: string)
    ensures key in ShownNames(attrs) <==> IdOf(attrs, key).Some?
  {
    if attrs != [] { ShownIffFound(attrs[1..], key); }
  }

  /** The children shown are exactly the keys --arg accepts, for every key, exactly when browsing has not
      fallen back to a HEADER set with names in it; it can only do so for the ethtool family. */
  lemma BrowseMatchesInvoke(c: Context)
    ensures (forall key :: key in KeysOf(BrowsedSet(c)) <==> Accepts(c, key))
       <==> !(c.family == "ethtool" && c.sets.Some? && OwnSet(c) == None && KeysOf(SetNamed(c.sets.value, "HEADER")) != [])
  {
    if BrowsedSet(c) == OwnSet(c) {
      forall key ensures key in KeysOf(BrowsedSet(c)) <==> Accepts(c, key) {
        if OwnSet(c).Some? { ShownIffFound(OwnSet(c).value.attrs, key); }
      }
    } else {
      var shown := KeysOf(BrowsedSet(c));
      if shown != [] {
        assert shown[0] in shown && !Accepts(c, shown[0]);
      }
    }
  }
}
