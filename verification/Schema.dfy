/** Overlay metadata as the readers use it: attribute sets, and the array scans that look into them.
    Each `Find...` method is the loop of the source; the function beside it is what it computes. */
module Schema {
  datatype Option<+T> = None | Some(value: T)

  /** What stands before the first `stop`: a C string in an array, for stop = NUL. */
  function UpTo<T(==)>(s: seq<T>, stop: T): (t: seq<T>)
    ensures stop !in t
  {
    if s == [] || s[0] == stop then [] else [s[0]] + UpTo(s[1..], stop)
  }

  /** One attribute of a set; a file may leave its name or type hint out. */
  datatype AttrDef = AttrDef(id: nat, name: Option<string>, hint: Option<string>)
  datatype AttrSet = AttrSet(name: string, attrs: seq<AttrDef>)

  /** The set called `name` that comes first. */
  function SetNamed(sets: seq<AttrSet>, name: string): (r: Option<AttrSet>)
    ensures r.Some? ==> r.value in sets && r.value.name == name
    ensures r == None <==> forall s :: s in sets ==> s.name != name
  {
    if sets == [] then None
    else if sets[0].name == name then Some(sets[0])
    else SetNamed(sets[1..], name)
  }

  /** The name of the first attribute with this id; None also when that attribute has no name. */
  function NameOf(attrs: seq<AttrDef>, id: nat): (r: Option<string>)
    ensures r.Some? ==> exists a :: a in attrs && a.id == id && a.name == r
  {
    if attrs == [] then None
    else if attrs[0].id == id then attrs[0].name
    else NameOf(attrs[1..], id)
  }

  /** The id of the first attribute with this name. */
  function IdOf(attrs: seq<AttrDef>, name: string): (r: Option<nat>)
    ensures r.Some? ==> exists a :: a in attrs && a.id == r.value && a.name == Some(name)
    ensures r == None <==> forall a :: a in attrs ==> a.name != Some(name)
  {
    if attrs == [] then None
    else if attrs[0].name == Some(name) then Some(attrs[0].id)
    else IdOf(attrs[1..], name)
  }

  /** find_attr_set */
  method FindSet(sets: seq<AttrSet>, name: string) returns (r: Option<AttrSet>)
    ensures r == SetNamed(sets, name)
    ensures r == None <==> forall s :: s in sets ==> s.name != name
    ensures r.Some? ==> exists i :: 0 <= i < |sets| && r == Some(sets[i]) && sets[i].name == name
                                    && forall j :: 0 <= j < i ==> sets[j].name != name
  {
    for i := 0 to |sets|
      invariant forall j :: 0 <= j < i ==> sets[j].name != name
      invariant SetNamed(sets, name) == SetNamed(sets[i..], name)
    {
      assert sets[i..][0] == sets[i] && sets[i..][1..] == sets[i + 1..];
      if sets[i].name == name { return Some(sets[i]); }
    }
    return None;
  }

  /** lookup_name */
  method FindName(attrs: seq<AttrDef>, id: nat) returns (r: Option<string>)
    ensures r == NameOf(attrs, id)
    ensures (forall a :: a in attrs ==> a.id != id) ==> r == None
    ensures (exists a :: a in attrs && a.id == id) ==>
              exists i :: 0 <= i < |attrs| && attrs[i].id == id && r == attrs[i].name
                          && forall j :: 0 <= j < i ==> attrs[j].id != id
  {
    for i := 0 to |attrs|
      invariant forall j :: 0 <= j < i ==> attrs[j].id != id
      invariant NameOf(attrs, id) == NameOf(attrs[i..], id)
    {
      if attrs[i].id == id { return attrs[i].name; }
    }
    return None;
  }

  /** lookup_id */
  method FindId(attrs: seq<AttrDef>, name: string) returns (r: Option<nat>)
    ensures r == IdOf(attrs, name)
    ensures r == None <==> forall a :: a in attrs ==> a.name != Some(name)
    ensures r.Some? ==> exists i :: 0 <= i < |attrs| && attrs[i].name == Some(name) && r == Some(attrs[i].id)
                                    && forall j :: 0 <= j < i ==> attrs[j].name != Some(name)
  {
    for i := 0 to |attrs|
      invariant forall j :: 0 <= j < i ==> attrs[j].name != Some(name)
      invariant IdOf(attrs, name) == IdOf(attrs[i..], name)
    {
      if attrs[i].name == Some(name) { return Some(attrs[i].id); }
    }
    return None;
  }

  predicate UniqueIds(attrs: seq<AttrDef>) {
    forall i, j :: 0 <= i < j < |attrs| ==> attrs[i].id != attrs[j].id
  }

  /** With unique ids, looking a key up and naming the id again gives the key back. */
  lemma {:induction false} IdNamesKey(attrs: seq<AttrDef>, key: string)
    requires UniqueIds(attrs) && IdOf(attrs, key).Some?
    ensures NameOf(attrs, IdOf(attrs, key).value) == Some(key)
  {
    if attrs[0].name != Some(key) {
      IdNamesKey(attrs[1..], key);
      var id := IdOf(attrs, key).value;
      var a :| a in attrs[1..] && a.id == id;
      var j :| 0 <= j < |attrs[1..]| && attrs[1..][j] == a;
      assert attrs[j + 1].id == id;
    }
  }

  // ---------------------------------------------------------------------------------------------

  /** One row of the table of nested attributes whose schema is not named after them. */
  datatype Alias = Alias(parent: string, attr: string, child: string)

  function AliasOf(aliases: seq<Alias>, parent: string, attr: string): (r: Option<string>)
    ensures r.Some? ==> Alias(parent, attr, r.value) in aliases
  {
    if aliases == [] then None
    else if aliases[0].parent == parent && aliases[0].attr == attr then Some(aliases[0].child)
    else AliasOf(aliases[1..], parent, attr)
  }

  /** resolve_alias */
  method ResolveAlias(aliases: seq<Alias>, parent: string, attr: string) returns (r: Option<string>)
    ensures r == AliasOf(aliases, parent, attr)
    ensures r == None <==> forall a :: a in aliases ==> a.parent != parent || a.attr != attr
    ensures r.Some? ==> exists i :: 0 <= i < |aliases| && aliases[i] == Alias(parent, attr, r.value)
                                    && forall j :: 0 <= j < i ==> aliases[j].parent != parent || aliases[j].attr != attr
  {
    for i := 0 to |aliases|
      invariant forall j :: 0 <= j < i ==> aliases[j].parent != parent || aliases[j].attr != attr
      invariant AliasOf(aliases, parent, attr) == AliasOf(aliases[i..], parent, attr)
    {
      if aliases[i].parent == parent && aliases[i].attr == attr { return Some(aliases[i].child); }
    }
    return None;
  }
}
