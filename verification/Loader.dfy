/** The overlay loader: a recursive-descent reader that fills an overlay while it advances through the
    event stream.  Its methods are proved against the grammar (`ParseDoc`) and the meaning of a
    document (`Load`). */
module Loader {
  import opened Schema
  import opened OverlayFile
  import opened Growth

  datatype OpRow = OpRow(cmdId: nat, name: Option<string>, short: Option<string>, long: Option<string>)
  datatype McastRow = McastRow(name: string, short: Option<string>, long: Option<string>)

  /** struct genl_family_overlay */
  datatype Overlay = Overlay(family: Option<string>, short: Option<string>, long: Option<string>,
                             ops: seq<OpRow>, mcast: seq<McastRow>, sets: seq<AttrSet>)

  const EMPTY_OVERLAY := Overlay(None, None, None, [], [], [])

  // ---------------------------------------------------------------------------------------------
  // What a document means

  /** The value of the last field called `key`; `before` if there is none. */
  function Last(fs: seq<Field>, key: string, before: Option<string>): Option<string> {
    if fs == [] then before
    else
      var f := fs[|fs| - 1];
      if CStr(f.key) == key then Some(CStr(f.value)) else Last(fs[..|fs| - 1], key, before)
  }

  /** An integer key is a command id and the name comes from the fields; any other key is the name. */
  function OpOf(e: Entry): OpRow {
    var id := Uint32(CStr(e.key));
    OpRow(if id.Some? then id.value else 0,
          Last(e.fields, "name", if id.Some? then None else Some(CStr(e.key))),
          Last(e.fields, "short", None), Last(e.fields, "long", None))
  }

  function McastOf(e: Entry): McastRow {
    McastRow(CStr(e.key), Last(e.fields, "short", None), Last(e.fields, "long", None))
  }

  function AttrOf(e: Entry): AttrDef
    requires KeyOk(e.key, true)
  {
    AttrDef(Uint32(CStr(e.key)).value, Last(e.fields, "name", None), Last(e.fields, "type", None))
  }

  function Ops(es: seq<Entry>): seq<OpRow> {
    seq(|es|, i requires 0 <= i < |es| => OpOf(es[i]))
  }

  function Mcasts(es: seq<Entry>): seq<McastRow> {
    seq(|es|, i requires 0 <= i < |es| => McastOf(es[i]))
  }

  function Attrs(es: seq<Entry>): seq<AttrDef>
    requires NumericKeys(es)
  {
    seq(|es|, i requires 0 <= i < |es| => assert es[i] in es; AttrOf(es[i]))
  }

  function Sets(ss: seq<SetEntry>): seq<AttrSet>
    requires SetsOk(ss)
  {
    seq(|ss|, i requires 0 <= i < |ss| => assert ss[i] in ss; AttrSet(CStr(ss[i].key), Attrs(ss[i].attrs)))
  }

  /** One top-level key applied to the overlay read so far: sections append, scalars replace. */
  function Step(o: Overlay, t: Top): Overlay
    requires TopOk(t)
  {
    match t
    case Operations(_, es) => o.(ops := o.ops + Ops(es))
    case McastGroups(_, es) => o.(mcast := o.mcast + Mcasts(es))
    case AttributeSets(_, ss) => o.(sets := o.sets + Sets(ss))
    case Plain(key, value) =>
      if CStr(key) == "family" then o.(family := Some(CStr(value)))
      else if CStr(key) == "short" then o.(short := Some(CStr(value)))
      else if CStr(key) == "long" then o.(long := Some(CStr(value)))
      else o
  }

  function Load(o: Overlay, ts: seq<Top>): Overlay
    requires DocOk(ts)
    decreases ts
  {
    if ts == [] then o else
      assert ts[0] in ts;
      Load(Step(o, ts[0]), ts[1..])
  }

  // ---------------------------------------------------------------------------------------------
  // The arrays the rows are written to

  const ROWS_START: nat := 8

  /** Eight rows fit the first allocation and the ninth doubles it. */
  lemma NinthRow()
    ensures Appends(EMPTY, ROWS_START, 8).slots == 8 && Appends(EMPTY, ROWS_START, 9).slots == 16
  {
    assert Appends(EMPTY, ROWS_START, 4).count == 4;
  }

  /** The arrays of operations, groups and attribute sets. */
  datatype Arrays = Arrays(ops: Room, groups: Room, sets: Room) {
    predicate Fit() { ops.fits && groups.fits && sets.fits }
  }

  /** What reading keeps, also when it breaks off: an array that was sound stays so. */
  predicate StaySound(before: Arrays, after: Arrays) {
    && (Sound(before.ops) ==> Sound(after.ops))
    && (Sound(before.groups) ==> Sound(after.groups))
    && (Sound(before.sets) ==> Sound(after.sets))
  }

  lemma AppendsStaySound(a: Arrays)
    ensures StaySound(a, a.(ops := Append(a.ops, ROWS_START)))
    ensures StaySound(a, a.(groups := Append(a.groups, ROWS_START)))
    ensures StaySound(a, a.(sets := Append(a.sets, SETS_START)))
  {
    hide Sound, Append;
    if Sound(a.ops) { AppendSound(a.ops, ROWS_START); }
    if Sound(a.groups) { AppendSound(a.groups, ROWS_START); }
    if Sound(a.sets) { AppendSound(a.sets, SETS_START); }
  }

  const NO_ARRAYS := Arrays(EMPTY, EMPTY, EMPTY)

  predicate Counted(o: Overlay, a: Arrays) {
    a.ops.count == |o.ops| && a.groups.count == |o.mcast| && a.sets.count == |o.sets|
  }

  function Store(a: Arrays, t: Top): Arrays {
    match t
    case Operations(_, es) => a.(ops := Appends(a.ops, ROWS_START, |es|))
    case McastGroups(_, es) => a.(groups := Appends(a.groups, ROWS_START, |es|))
    case AttributeSets(_, ss) => a.(sets := Appends(a.sets, SETS_START, |ss|))
    case Plain(_, _) => a
  }

  /** The arrays once a document was appended. */
  function StoreAll(a: Arrays, ts: seq<Top>): Arrays
    decreases ts
  {
    if ts == [] then a else StoreAll(Store(a, ts[0]), ts[1..])
  }

  lemma {:induction false} StoreConcat(a: Arrays, ts: seq<Top>, us: seq<Top>)
    ensures StoreAll(a, ts + us) == StoreAll(StoreAll(a, ts), us)
    decreases ts
  {
    if ts == [] {
      assert ts + us == us;
    } else {
      assert (ts + us)[1..] == ts[1..] + us;
      StoreConcat(Store(a, ts[0]), ts[1..], us);
    }
  }

  /** What a second file starts from. */
  function NextFile(a: Arrays): Arrays {
    Arrays(Resumed(a.ops), Resumed(a.groups), Forgotten(a.sets))
  }

  // How many attribute sets the reader gives a slot, whether or not it gets to the end of the file.

  function SetsBegun(ev: seq<Event>): nat
    decreases |ev|
  {
    if |ev| < 2 || !ev[0].Scalar? || ev[1] != MapStart then 0
    else
      var p := ParseEntries(ev[2..], true);
      1 + if p.Ok? then SetsBegun(p.rest) else 0
  }

  function BegunAt(ev: seq<Event>): nat {
    if |ev| > 1 && ev[0].Scalar? && CStr(ev[0].text) == "attribute_sets" && ev[1] == MapStart then SetsBegun(ev[2..]) else 0
  }

  function TopsBegun(ev: seq<Event>): nat
    decreases |ev|
  {
    if ev == [] || !ev[0].Scalar? then 0
    else
      var p := ParseTop(ev);
      BegunAt(ev) + if p.Ok? then TopsBegun(p.rest) else 0
  }

  function FileBegun(ev: seq<Event>): nat {
    if |ev| >= 3 && ev[0] == StreamStart && ev[1] == DocStart && ev[2] == MapStart then TopsBegun(ev[3..]) else 0
  }

  /** Where the sets can be read to their end, those are the sets read. */
  lemma {:induction false} AllBegun(ev: seq<Event>)
    requires ParseSets(ev).Ok?
    ensures SetsBegun(ev) == |ParseSets(ev).value|
    decreases |ev|
  {
    hide ParseEntries;
    if ev[0] != MapEnd { AllBegun(ParseEntries(ev[2..], true).rest); }
  }

  lemma BegunAhead(key: string, ahead: seq<Event>)
    ensures BegunAt([Scalar(key)] + ahead)
         == if ahead != [] && CStr(key) == "attribute_sets" && ahead[0] == MapStart then SetsBegun(ahead[1..]) else 0
  {
    hide SetsBegun, CStr;
    if ahead != [] { assert ([Scalar(key)] + ahead)[2..] == ahead[1..]; }
  }

  /** One turn of the loop over sets, and its end. */
  lemma BegunTurn(here: seq<Event>)
    ensures here == [] || !here[0].Scalar? || |here| < 2 || here[1] != MapStart ==> SetsBegun(here) == 0
  {
  }

  lemma BegunKey(key: string, ahead: seq<Event>)
    ensures SetsBegun([Scalar(key), MapStart] + ahead)
         == 1 + if ParseEntries(ahead, true).Ok? then SetsBegun(ParseEntries(ahead, true).rest) else 0
  {
    hide ParseEntries;
    Two(Scalar(key), MapStart, ahead);
  }

  // ---------------------------------------------------------------------------------------------
  // Order does not matter

  lemma StepsSwap(o: Overlay, a: Top, b: Top)
    requires TopOk(a) && TopOk(b) && CStr(a.key) != CStr(b.key)
    ensures Step(Step(o, a), b) == Step(Step(o, b), a)
  {
  }

  lemma {:induction false} LoadConcat(o: Overlay, ts: seq<Top>, us: seq<Top>)
    requires DocOk(ts) && DocOk(us)
    ensures DocOk(ts + us) && Load(o, ts + us) == Load(Load(o, ts), us)
    decreases ts
  {
    if ts == [] {
      assert ts + us == us;
    } else {
      assert ts[0] in ts;
      assert (ts + us)[1..] == ts[1..] + us;
      LoadConcat(Step(o, ts[0]), ts[1..], us);
    }
  }

  lemma LoadOne(o: Overlay, a: Arrays, t: Top)
    requires TopOk(t)
    ensures DocOk([t]) && Load(o, [t]) == Step(o, t) && StoreAll(a, [t]) == Store(a, t)
  {
    assert [t][1..] == [];
  }

  /** A later scalar replaces an earlier one of its name, and a later section adds to what was loaded. */
  lemma LaterKey(o: Overlay, ts: seq<Top>, t: Top)
    requires DocOk(ts) && TopOk(t)
    ensures var was, now := Load(o, ts), (LoadConcat(o, ts, [t]); Load(o, ts + [t]));
      && (t.Plain? && CStr(t.key) == "family" ==> now == was.(family := Some(CStr(t.value))))
      && (t.Plain? && CStr(t.key) == "short" ==> now == was.(short := Some(CStr(t.value))))
      && (t.Plain? && CStr(t.key) == "long" ==> now == was.(long := Some(CStr(t.value))))
      && (t.Plain? && CStr(t.key) !in ["family", "short", "long"] ==> now == was)
      && (t.Operations? ==> was.ops <= now.ops && now == was.(ops := now.ops) && |now.ops| == |was.ops| + |t.entries|)
      && (t.McastGroups? ==> was.mcast <= now.mcast && now == was.(mcast := now.mcast) && |now.mcast| == |was.mcast| + |t.entries|)
      && (t.AttributeSets? ==> was.sets <= now.sets && now == was.(sets := now.sets) && |now.sets| == |was.sets| + |t.sets|)
  {
    hide CStr;
    LoadConcat(o, ts, [t]);
    LoadOne(Load(o, ts), NO_ARRAYS, t);
  }

  lemma LoadTwo(o: Overlay, a: Top, b: Top)
    requires TopOk(a) && TopOk(b)
    ensures Load(o, [a, b]) == Step(Step(o, a), b)
  {
    assert [a, b][1..] == [b];
    assert Load(Step(o, a), [b]) == Load(Step(Step(o, a), b), []);
  }

  /** Exchanging two neighbouring top-level keys with different names gives the same overlay. */
  lemma TopOrderIrrelevant(o: Overlay, pre: seq<Top>, a: Top, b: Top, post: seq<Top>)
    requires DocOk(pre) && TopOk(a) && TopOk(b) && DocOk(post) && CStr(a.key) != CStr(b.key)
    ensures DocOk(pre + [a, b] + post) && DocOk(pre + [b, a] + post)
    ensures Load(o, pre + [a, b] + post) == Load(o, pre + [b, a] + post)
  {
    var here := Load(o, pre);
    LoadConcat(o, pre, [a, b]);
    LoadConcat(o, pre, [b, a]);
    LoadConcat(o, pre + [a, b], post);
    LoadConcat(o, pre + [b, a], post);
    LoadTwo(here, a, b);
    LoadTwo(here, b, a);
    StepsSwap(here, a, b);
  }

  lemma {:induction false} LastConcat(fs: seq<Field>, gs: seq<Field>, key: string, before: Option<string>)
    ensures Last(fs + gs, key, before) == Last(gs, key, Last(fs, key, before))
    decreases gs
  {
    if gs == [] {
      assert fs + gs == fs;
    } else {
      assert (fs + gs)[..|fs + gs| - 1] == fs + gs[..|gs| - 1];
      LastConcat(fs, gs[..|gs| - 1], key, before);
    }
  }

  /** The last field of a name counts, and without one (`k` is -1) what was there before. */
  lemma {:induction false} LastIs(fs: seq<Field>, key: string, before: Option<string>, k: int)
    requires -1 <= k < |fs| && forall j :: k < j < |fs| ==> CStr(fs[j].key) != key
    requires k >= 0 ==> CStr(fs[k].key) == key
    ensures Last(fs, key, before) == if k < 0 then before else Some(CStr(fs[k].value))
  {
    hide CStr;
    if k < |fs| - 1 { LastIs(fs[..|fs| - 1], key, before, k); }
  }

  /** Exchanging two neighbouring fields with different names does not change any field's value. */
  lemma LastOfSwapped(pre: seq<Field>, a: Field, b: Field, post: seq<Field>, key: string, before: Option<string>)
    requires CStr(a.key) != CStr(b.key)
    ensures Last(pre + [a, b] + post, key, before) == Last(pre + [b, a] + post, key, before)
  {
    LastConcat(pre + [a, b], post, key, before);
    LastConcat(pre + [b, a], post, key, before);
    LastConcat(pre, [a, b], key, before);
    LastConcat(pre, [b, a], key, before);
    var p := Last(pre, key, before);
    assert Last([a, b], key, p) == Last([b, a], key, p) by {
      assert [a, b][..1] == [a] && [b, a][..1] == [b];
      assert [a][..0] == [] && [b][..0] == [];
    }
  }

  /** An entry with the fields at `i` and `i + 1` exchanged. */
  function Swapped(e: Entry, i: nat): Entry
    requires i + 1 < |e.fields|
  {
    Entry(e.key, e.fields[i := e.fields[i + 1]][i + 1 := e.fields[i]])
  }

  predicate Swappable(e: Entry, i: nat) {
    i + 1 < |e.fields| && CStr(e.fields[i].key) != CStr(e.fields[i + 1].key)
  }

  lemma RowOfSwapped(e: Entry, i: nat)
    requires Swappable(e, i)
    ensures OpOf(Swapped(e, i)) == OpOf(e) && McastOf(Swapped(e, i)) == McastOf(e)
    ensures KeyOk(e.key, true) ==> AttrOf(Swapped(e, i)) == AttrOf(e)
  {
    hide Last, CStr, Uint32;
    var pre, a, b, post := e.fields[..i], e.fields[i], e.fields[i + 1], e.fields[i + 2..];
    assert e.fields == pre + [a, b] + post;
    assert Swapped(e, i).fields == pre + [b, a] + post;
    var id := Uint32(CStr(e.key));
    LastOfSwapped(pre, a, b, post, "name", if id.Some? then None else Some(CStr(e.key)));
    LastOfSwapped(pre, a, b, post, "name", None);
    LastOfSwapped(pre, a, b, post, "short", None);
    LastOfSwapped(pre, a, b, post, "long", None);
    LastOfSwapped(pre, a, b, post, "type", None);
  }

  /** Where in a section two fields are exchanged; `group` is the attribute set, if the section has sets. */
  datatype Place = Place(group: nat, entry: nat, field: nat)

  predicate Exchangeable(t: Top, p: Place) {
    match t
    case Operations(_, es) => p.entry < |es| && Swappable(es[p.entry], p.field)
    case McastGroups(_, es) => p.entry < |es| && Swappable(es[p.entry], p.field)
    case AttributeSets(_, ss) =>
      p.group < |ss| && p.entry < |ss[p.group].attrs| && Swappable(ss[p.group].attrs[p.entry], p.field)
    case Plain(_, _) => false
  }

  function Exchanged(t: Top, p: Place): Top
    requires Exchangeable(t, p)
  {
    match t
    case Operations(key, es) => Operations(key, es[p.entry := Swapped(es[p.entry], p.field)])
    case McastGroups(key, es) => McastGroups(key, es[p.entry := Swapped(es[p.entry], p.field)])
    case AttributeSets(key, ss) =>
      var attrs := ss[p.group].attrs;
      AttributeSets(key, ss[p.group := SetEntry(ss[p.group].key,
                                                attrs[p.entry := Swapped(attrs[p.entry], p.field)])])
    case Plain(_, _) => t
  }

  lemma AttrsOfSwapped(es: seq<Entry>, j: nat, i: nat)
    requires NumericKeys(es) && j < |es| && Swappable(es[j], i)
    ensures NumericKeys(es[j := Swapped(es[j], i)]) && Attrs(es[j := Swapped(es[j], i)]) == Attrs(es)
  {
    hide AttrOf, CStr, Uint32, KeyOk;
    assert es[j] in es;
    KeyKept(es[j], i);
    RowOfSwapped(es[j], i);
  }

  lemma KeyKept(e: Entry, i: nat)
    requires Swappable(e, i)
    ensures KeyOk(Swapped(e, i).key, true) == KeyOk(e.key, true)
  {
  }

  lemma StepOfExchanged(o: Overlay, t: Top, p: Place)
    requires TopOk(t) && Exchangeable(t, p)
    ensures TopOk(Exchanged(t, p)) && Step(o, Exchanged(t, p)) == Step(o, t)
  {
    hide OpOf, McastOf, Attrs, CStr, NumericKeys, Swapped;
    match t
    case Operations(_, es) =>
      RowOfSwapped(es[p.entry], p.field);
      assert Ops(es[p.entry := Swapped(es[p.entry], p.field)]) == Ops(es);
    case McastGroups(_, es) =>
      RowOfSwapped(es[p.entry], p.field);
      assert Mcasts(es[p.entry := Swapped(es[p.entry], p.field)]) == Mcasts(es);
    case AttributeSets(key, ss) =>
      assert ss[p.group] in ss;
      AttrsOfSwapped(ss[p.group].attrs, p.entry, p.field);
      var ss' := Exchanged(t, p).sets;
      assert SetsOk(ss') && Sets(ss') == Sets(ss);
  }

  /** Exchanging two neighbouring fields with different names, in any entry of any section of a document,
      gives the same overlay. */
  lemma FieldOrderIrrelevant(o: Overlay, pre: seq<Top>, t: Top, p: Place, post: seq<Top>)
    requires DocOk(pre) && TopOk(t) && DocOk(post) && Exchangeable(t, p)
    ensures DocOk(pre + [t] + post) && DocOk(pre + [Exchanged(t, p)] + post)
    ensures Load(o, pre + [Exchanged(t, p)] + post) == Load(o, pre + [t] + post)
  {
    hide Step, TopOk, Exchanged, Exchangeable, Load;
    var here, t' := Load(o, pre), Exchanged(t, p);
    StepOfExchanged(here, t, p);
    LoadOne(here, NO_ARRAYS, t);
    LoadOne(here, NO_ARRAYS, t');
    LoadConcat(o, pre, [t]);
    LoadConcat(o, pre, [t']);
    LoadConcat(o, pre + [t], post);
    LoadConcat(o, pre + [t'], post);
  }

  // ---------------------------------------------------------------------------------------------
  // The reader

  function Prepend<T>(done: seq<T>, p: Parsed<seq<T>>): Parsed<seq<T>> {
    match p
    case Fail => Fail
    case Ok(more, rest) => Ok(done + more, rest)
  }

  lemma PrependNone<T>(p: Parsed<seq<T>>)
    ensures Prepend([], p) == p
  {
    if p.Ok? { assert [] + p.value == p.value; }
  }

  lemma PrependOne<T>(done: seq<T>, x: T, p: Parsed<seq<T>>)
    ensures Prepend(done, Prepend([x], p)) == Prepend(done + [x], p)
  {
    if p.Ok? { assert done + ([x] + p.value) == done + [x] + p.value; }
  }

  lemma NothingYet()
    ensures Ops([]) == [] && Mcasts([]) == [] && SetsOk([]) && Sets([]) == []
  {
  }

  lemma OpsAppend(es: seq<Entry>, e: Entry)
    ensures Ops(es + [e]) == Ops(es) + [OpOf(e)] && Mcasts(es + [e]) == Mcasts(es) + [McastOf(e)]
  {
    hide OpOf, McastOf;
    assert Ops(es + [e]) == Ops(es) + [OpOf(e)];
  }

  lemma AttrsAppend(es: seq<Entry>, e: Entry)
    requires NumericKeys(es) && KeyOk(e.key, true)
    ensures NumericKeys(es + [e]) && Attrs(es + [e]) == Attrs(es) + [AttrOf(e)]
  {
    hide AttrOf, KeyOk;
  }

  lemma SetsAppend(ss: seq<SetEntry>, s: SetEntry)
    requires SetsOk(ss) && NumericKeys(s.attrs)
    ensures SetsOk(ss + [s]) && Sets(ss + [s]) == Sets(ss) + [AttrSet(CStr(s.key), Attrs(s.attrs))]
  {
    hide Attrs, NumericKeys;
  }

  /** One turn of the field loop. */
  lemma FieldTurn(here: seq<Event>)
    ensures ParseFields(here)
         == if here == [] then Fail
            else if here[0] == MapEnd then Ok([], here[1..])
            else if |here| > 1 && here[0].Scalar? && here[1].Scalar? then
              Prepend([Field(here[0].text, here[1].text)], ParseFields(here[2..]))
            else Fail
  {
  }

  /** One turn of an entry loop that found a key and its mapping. */
  lemma EntryTurn(start: seq<Event>, done: seq<Entry>, here: seq<Event>, key: string, ahead: seq<Event>, numeric: bool)
    requires ParseEntries(start, numeric) == Prepend(done, ParseEntries(here, numeric))
    requires here == [Scalar(key), MapStart] + ahead && KeyOk(key, numeric)
    ensures ParseFields(ahead) == Fail ==> ParseEntries(start, numeric) == Fail
    ensures ParseFields(ahead).Ok? ==>
              ParseEntries(start, numeric)
              == Prepend(done + [Entry(key, ParseFields(ahead).value)], ParseEntries(ParseFields(ahead).rest, numeric))
  {
    hide ParseFields, CStr, Uint32;
    Two(Scalar(key), MapStart, ahead);
    if ParseFields(ahead).Ok? {
      PrependOne(done, Entry(key, ParseFields(ahead).value), ParseEntries(ParseFields(ahead).rest, numeric));
    }
  }

  /** The turns that end an entry loop. */
  lemma EntryStop(start: seq<Event>, done: seq<Entry>, here: seq<Event>, numeric: bool)
    requires ParseEntries(start, numeric) == Prepend(done, ParseEntries(here, numeric))
    ensures here != [] && here[0] == MapEnd ==> ParseEntries(start, numeric) == Ok(done, here[1..])
    ensures here == [] || (here[0] != MapEnd && !(here[0].Scalar? && KeyOk(here[0].text, numeric) && |here| > 1 && here[1] == MapStart))
            ==> ParseEntries(start, numeric) == Fail
  {
    hide ParseFields, KeyOk;
    assert done + [] == done;
  }

  lemma NothingLoadedYet(o: Overlay, a: Arrays)
    ensures DocOk([]) && Load(o, []) == o && StoreAll(a, []) == a && Appends(a.sets, SETS_START, 0) == a.sets
  {
  }

  /** One turn of the loop over top-level keys. */
  lemma TopsTurn(start: seq<Event>, done: seq<Top>, here: seq<Event>)
    requires ParseTops(start) == Prepend(done, ParseTops(here))
    ensures here == [] || !here[0].Scalar? ==>
      TopsBegun(here) == 0 && ParseTops(start) == if here != [] && here[0] == MapEnd then Ok(done, here[1..]) else Fail
    ensures here != [] && here[0].Scalar? ==>
      var p := ParseTop(here);
      && TopsBegun(here) == BegunAt(here) + (if p.Ok? then TopsBegun(p.rest) else 0)
      && ParseTops(start) == if p.Ok? then Prepend(done + [p.value], ParseTops(p.rest)) else Fail
  {
    hide ParseTop, BegunAt;
    assert done + [] == done;
    if here != [] && here[0].Scalar? && ParseTop(here).Ok? {
      PrependOne(done, ParseTop(here).value, ParseTops(ParseTop(here).rest));
    }
  }

  lemma SetStop(start: seq<Event>, done: seq<SetEntry>, here: seq<Event>)
    requires ParseSets(start) == Prepend(done, ParseSets(here))
    ensures here != [] && here[0] == MapEnd ==> ParseSets(start) == Ok(done, here[1..])
    ensures here == [] || (here[0] != MapEnd && !(here[0].Scalar? && |here| > 1 && here[1] == MapStart)) ==> ParseSets(start) == Fail
  {
    hide ParseEntries;
    assert done + [] == done;
  }

  lemma SetTurn(start: seq<Event>, done: seq<SetEntry>, here: seq<Event>, key: string, ahead: seq<Event>)
    requires ParseSets(start) == Prepend(done, ParseSets(here)) && here == [Scalar(key), MapStart] + ahead
    ensures ParseEntries(ahead, true) == Fail ==> ParseSets(start) == Fail
    ensures ParseEntries(ahead, true).Ok? ==>
              ParseSets(start)
              == Prepend(done + [SetEntry(key, ParseEntries(ahead, true).value)], ParseSets(ParseEntries(ahead, true).rest))
  {
    hide ParseEntries;
    Two(Scalar(key), MapStart, ahead);
    if ParseEntries(ahead, true).Ok? {
      PrependOne(done, SetEntry(key, ParseEntries(ahead, true).value), ParseSets(ParseEntries(ahead, true).rest));
    }
  }

  /** What stands at the head of an entry loop. */
  datatype KeyRead = Ended | Broken | Key(text: string)

  class Reader {
    const events: seq<Event>
    var pos: nat
    var o: Overlay
    var arrays: Arrays

    ghost predicate Valid()
      reads this
    {
      pos <= |events| && Counted(o, arrays)
    }

    ghost function Ahead(): seq<Event>
      requires Valid()
      reads this
    {
      events[pos..]
    }

    constructor (events: seq<Event>, o: Overlay, arrays: Arrays)
      requires Counted(o, arrays)
      ensures Valid() && this.events == events && pos == 0 && this.o == o && this.arrays == arrays
    {
      this.events, pos, this.o, this.arrays := events, 0, o, arrays;
    }

    /** next_event: nothing once the stream has ended or broken off. */
    method Next() returns (ev: Option<Event>)
      requires Valid()
      modifies this`pos
      ensures Valid()
      ensures ev == None <==> old(Ahead()) == []
      ensures ev.Some? ==> old(Ahead()) == [ev.value] + Ahead()
    {
      if pos == |events| { return None; }
      ev := Some(events[pos]);
      pos := pos + 1;
    }

    /** expect_event_type */
    method Expect(want: Event) returns (ok: bool)
      requires Valid()
      modifies this`pos
      ensures Valid()
      ensures ok == (old(Ahead()) != [] && old(Ahead())[0] == want)
      ensures ok ==> Ahead() == old(Ahead())[1..]
    {
      var ev := Next();
      return ev == Some(want);
    }

    /** The loop shared by read_op_inner, read_mcast_entry and the inner loop of
        read_attr_entries_into_set: fields up to the end of the mapping, the last of each name kept. */
    method ReadFields(name0: Option<string>) returns (ok: bool, name: Option<string>, short: Option<string>, long: Option<string>, hint: Option<string>)
      requires Valid()
      modifies this`pos
      ensures Valid()
      ensures ok == ParseFields(old(Ahead())).Ok?
      ensures ok ==> var p := ParseFields(old(Ahead()));
                     && Ahead() == p.rest
                     && name == Last(p.value, "name", name0) && short == Last(p.value, "short", None)
                     && long == Last(p.value, "long", None) && hint == Last(p.value, "type", None)
    {
      hide ParseFields, CStr;
      name, short, long, hint := name0, None, None, None;
      ghost var start, done := Ahead(), [];
      PrependNone(ParseFields(start));
      while true
        invariant Valid() && ParseFields(start) == Prepend(done, ParseFields(Ahead()))
        invariant name == Last(done, "name", name0) && short == Last(done, "short", None)
        invariant long == Last(done, "long", None) && hint == Last(done, "type", None)
        decreases |events| - pos
      {
        ghost var here := Ahead();
        var ev := Next();
        FieldTurn(here);
        if ev == None { return false, name, short, long, hint; }
        if ev.value == MapEnd {
          assert here[1..] == Ahead() && done + [] == done;
          return true, name, short, long, hint;
        }
        if !ev.value.Scalar? { return false, name, short, long, hint; }
        var key := CStr(ev.value.text);
        var vev := Next();
        if vev == None || !vev.value.Scalar? { return false, name, short, long, hint; }
        var val := CStr(vev.value.text);
        if key == "name" {
          name := Some(val);
        } else if key == "short" {
          short := Some(val);
        } else if key == "long" {
          long := Some(val);
        } else if key == "type" {
          hint := Some(val);
        }
        ghost var f := Field(ev.value.text, vev.value.text);
        assert here == [ev.value, vev.value] + Ahead();
        Two(ev.value, vev.value, Ahead());
        assert here[2..] == Ahead();
        PrependOne(done, f, ParseFields(Ahead()));
        assert (done + [f])[..|done|] == done;
        done := done + [f];
      }
    }

    /** The head of every loop over a mapping of mappings: its end, or a scalar key and MAPPING_START. */
    method NextKey() returns (r: KeyRead)
      requires Valid()
      modifies this`pos
      ensures Valid()
      ensures r == Ended ==> old(Ahead()) != [] && old(Ahead())[0] == MapEnd && Ahead() == old(Ahead())[1..]
      ensures r.Key? ==> old(Ahead()) == [Scalar(r.text), MapStart] + Ahead()
      ensures r == Broken ==> var h := old(Ahead());
                              h == [] || (h[0] != MapEnd && !(h[0].Scalar? && |h| > 1 && h[1] == MapStart))
    {
      ghost var here := Ahead();
      var ev := Next();
      if ev == None { return Broken; }
      assert here[1..] == Ahead();
      if ev.value == MapEnd { return Ended; }
      if !ev.value.Scalar? { return Broken; }
      var ok := Expect(MapStart);
      return if ok then Key(ev.value.text) else Broken;
    }

    /** read_op_inner: appends one row. */
    method ReadOpInner(cmdId: nat, name0: Option<string>) returns (ok: bool)
      requires Valid()
      modifies this`pos, this`o, this`arrays
      ensures Valid() && ok == ParseFields(old(Ahead())).Ok?
      ensures StaySound(old(arrays), arrays)
      ensures arrays == old(arrays).(ops := arrays.ops)
      ensures ok ==> var p := ParseFields(old(Ahead()));
                     && Ahead() == p.rest
                     && arrays == old(arrays).(ops := Append(old(arrays).ops, ROWS_START))
                     && o == old(o).(ops := old(o).ops + [OpRow(cmdId, Last(p.value, "name", name0),
                                                                Last(p.value, "short", None), Last(p.value, "long", None))])
    {
      var got, name, short, long, _ := ReadFields(name0);
      if !got { return false; }
      AppendsStaySound(arrays);
      arrays := arrays.(ops := Append(arrays.ops, ROWS_START));
      o := o.(ops := o.ops + [OpRow(cmdId, name, short, long)]);
      return true;
    }

    /** The two key flavours: an id, or the name. */
    method ReadOpEntry(key: string) returns (ok: bool)
      requires Valid()
      modifies this`pos, this`o, this`arrays
      ensures Valid() && ok == ParseFields(old(Ahead())).Ok?
      ensures StaySound(old(arrays), arrays)
      ensures arrays == old(arrays).(ops := arrays.ops)
      ensures ok ==> var p := ParseFields(old(Ahead()));
                     && Ahead() == p.rest
                     && arrays == old(arrays).(ops := Append(old(arrays).ops, ROWS_START))
                     && o == old(o).(ops := old(o).ops + [OpOf(Entry(key, p.value))])
    {
      hide ParseFields, Last, CStr, Uint32, Append;
      var id := Uint32(CStr(key));
      ok := ReadOpInner(if id.Some? then id.value else 0, if id.Some? then None else Some(CStr(key)));
    }

    /** read_operations */
    method ReadOperations() returns (ok: bool)
      requires Valid() && Ahead() != []
      modifies this`pos, this`o, this`arrays
      ensures Valid() && ok == (old(Ahead())[0] == MapStart && ParseEntries(old(Ahead())[1..], false).Ok?)
      ensures StaySound(old(arrays), arrays)
      ensures arrays == old(arrays).(ops := arrays.ops)
      ensures ok ==> var p := ParseEntries(old(Ahead())[1..], false);
                     && Ahead() == p.rest && o == old(o).(ops := old(o).ops + Ops(p.value))
                     && arrays == old(arrays).(ops := Appends(old(arrays).ops, ROWS_START, |p.value|))
    {
      hide ParseEntries, ParseFields, Ops, OpOf, Append, CStr, Uint32, Sound;
      ok := Expect(MapStart);
      if !ok { return; }
      ghost var start, done := Ahead(), [];
      PrependNone(ParseEntries(start, false));
      NothingYet();
      while true
        invariant Valid() && ParseEntries(start, false) == Prepend(done, ParseEntries(Ahead(), false))
        invariant o == old(o).(ops := o.ops) && o.ops == old(o).ops + Ops(done)
        invariant StaySound(old(arrays), arrays)
        invariant arrays == old(arrays).(ops := Appends(old(arrays).ops, ROWS_START, |done|))
        decreases |events| - pos
      {
        ghost var here := Ahead();
        EntryStop(start, done, here, false);
        var k := NextKey();
        if k == Ended { return true; }
        if k == Broken { return false; }
        EntryTurn(start, done, here, k.text, Ahead(), false);
        ghost var fields := ParseFields(Ahead());
        ok := ReadOpEntry(k.text);
        if !ok { return; }
        OpsAppend(done, Entry(k.text, fields.value));
        done := done + [Entry(k.text, fields.value)];
      }
    }

    /** read_mcast_entry: appends one group, called by its key. */
    method ReadMcastEntry(key: string) returns (ok: bool)
      requires Valid()
      modifies this`pos, this`o, this`arrays
      ensures Valid() && ok == ParseFields(old(Ahead())).Ok?
      ensures StaySound(old(arrays), arrays)
      ensures arrays == old(arrays).(groups := arrays.groups)
      ensures ok ==> var p := ParseFields(old(Ahead()));
                     && Ahead() == p.rest
                     && arrays == old(arrays).(groups := Append(old(arrays).groups, ROWS_START))
                     && o == old(o).(mcast := old(o).mcast + [McastOf(Entry(key, p.value))])
    {
      var got, _, short, long, _ := ReadFields(None);
      if !got { return false; }
      AppendsStaySound(arrays);
      arrays := arrays.(groups := Append(arrays.groups, ROWS_START));
      o := o.(mcast := o.mcast + [McastRow(CStr(key), short, long)]);
      return true;
    }

    /** read_mcast_groups */
    method ReadMcastGroups() returns (ok: bool)
      requires Valid() && Ahead() != []
      modifies this`pos, this`o, this`arrays
      ensures Valid() && ok == (old(Ahead())[0] == MapStart && ParseEntries(old(Ahead())[1..], false).Ok?)
      ensures StaySound(old(arrays), arrays)
      ensures arrays == old(arrays).(groups := arrays.groups)
      ensures ok ==> var p := ParseEntries(old(Ahead())[1..], false);
                     && Ahead() == p.rest && o == old(o).(mcast := old(o).mcast + Mcasts(p.value))
                     && arrays == old(arrays).(groups := Appends(old(arrays).groups, ROWS_START, |p.value|))
    {
      hide ParseEntries, ParseFields, Mcasts, McastOf, Append, CStr, Uint32, Sound;
      ok := Expect(MapStart);
      if !ok { return; }
      ghost var start, done := Ahead(), [];
      PrependNone(ParseEntries(start, false));
      NothingYet();
      while true
        invariant Valid() && ParseEntries(start, false) == Prepend(done, ParseEntries(Ahead(), false))
        invariant o == old(o).(mcast := o.mcast) && o.mcast == old(o).mcast + Mcasts(done)
        invariant StaySound(old(arrays), arrays)
        invariant arrays == old(arrays).(groups := Appends(old(arrays).groups, ROWS_START, |done|))
        decreases |events| - pos
      {
        ghost var here := Ahead();
        EntryStop(start, done, here, false);
        var k := NextKey();
        if k == Ended { return true; }
        if k == Broken { return false; }
        EntryTurn(start, done, here, k.text, Ahead(), false);
        ghost var fields := ParseFields(Ahead());
        ok := ReadMcastEntry(k.text);
        if !ok { return; }
        OpsAppend(done, Entry(k.text, fields.value));
        done := done + [Entry(k.text, fields.value)];
      }
    }

    /** read_attr_entries_into_set */
    method ReadAttrEntries() returns (ok: bool, attrs: seq<AttrDef>)
      requires Valid()
      modifies this`pos
      ensures Valid() && ok == ParseEntries(old(Ahead()), true).Ok?
      ensures ok ==> var p := ParseEntries(old(Ahead()), true);
                     Ahead() == p.rest && NumericKeys(p.value) && attrs == Attrs(p.value)
    {
      attrs := [];
      ghost var start, done := Ahead(), [];
      PrependNone(ParseEntries(start, true));
      hide ParseEntries;
      while true
        invariant Valid() && ParseEntries(start, true) == Prepend(done, ParseEntries(Ahead(), true))
        invariant NumericKeys(done) && attrs == Attrs(done)
        decreases |events| - pos
      {
        hide ParseFields, Last, CStr, Uint32;
        ghost var here := Ahead();
        EntryStop(start, done, here, true);
        var k := NextKey();
        if k == Ended { return true, attrs; }
        if k == Broken { return false, attrs; }
        var id := Uint32(CStr(k.text));
        if id == None { return false, attrs; }
        EntryTurn(start, done, here, k.text, Ahead(), true);
        ghost var fields := ParseFields(Ahead());
        var got, name, _, _, hint := ReadFields(None);
        if !got { return false, attrs; }
        attrs := attrs + [AttrDef(id.value, name, hint)];
        AttrsAppend(done, Entry(k.text, fields.value));
        done := done + [Entry(k.text, fields.value)];
      }
    }

    /** One set: a slot under its name first, then its attributes into that slot. */
    method ReadSet(name: string) returns (ok: bool)
      requires Valid()
      modifies this`pos, this`o, this`arrays
      ensures Valid() && ok == ParseEntries(old(Ahead()), true).Ok?
      ensures StaySound(old(arrays), arrays)
      ensures arrays == old(arrays).(sets := Append(old(arrays).sets, SETS_START))
      ensures ok ==> var p := ParseEntries(old(Ahead()), true);
                     && Ahead() == p.rest && NumericKeys(p.value)
                     && o == old(o).(sets := old(o).sets + [AttrSet(name, Attrs(p.value))])
    {
      hide ParseEntries, Attrs, NumericKeys;
      var slot := |o.sets|;
      AppendsStaySound(arrays);
      arrays := arrays.(sets := Append(arrays.sets, SETS_START));
      o := o.(sets := o.sets + [AttrSet(name, [])]);
      var got, attrs := ReadAttrEntries();
      if !got { return false; }
      o := o.(sets := o.sets[slot := AttrSet(name, attrs)]);
      return true;
    }

    /** read_attribute_sets */
    method ReadAttributeSets() returns (ok: bool)
      requires Valid() && Ahead() != []
      modifies this`pos, this`o, this`arrays
      ensures Valid() && ok == (old(Ahead())[0] == MapStart && ParseSets(old(Ahead())[1..]).Ok?)
      ensures StaySound(old(arrays), arrays)
      ensures arrays == old(arrays).(sets := Appends(old(arrays).sets, SETS_START,
                                                     if old(Ahead())[0] == MapStart then SetsBegun(old(Ahead())[1..]) else 0))
      ensures ok ==> var p := ParseSets(old(Ahead())[1..]);
                     && Ahead() == p.rest && SetsOk(p.value) && o == old(o).(sets := old(o).sets + Sets(p.value))
                     && arrays == old(arrays).(sets := Appends(old(arrays).sets, SETS_START, |p.value|))
    {
      hide ParseSets, ParseEntries, Sets, Attrs, CStr, NumericKeys, Append, Sound, SetsBegun;
      ok := Expect(MapStart);
      if !ok { return; }
      ghost var start, done := Ahead(), [];
      PrependNone(ParseSets(start));
      NothingYet();
      while true
        invariant Valid() && ParseSets(start) == Prepend(done, ParseSets(Ahead()))
        invariant SetsBegun(start) == |done| + SetsBegun(Ahead())
        invariant SetsOk(done) && o == old(o).(sets := o.sets) && o.sets == old(o).sets + Sets(done)
        invariant StaySound(old(arrays), arrays)
        invariant arrays == old(arrays).(sets := Appends(old(arrays).sets, SETS_START, |done|))
        decreases |events| - pos
      {
        ghost var here := Ahead();
        SetStop(start, done, here);
        BegunTurn(here);
        var k := NextKey();
        if k == Ended { return true; }
        if k == Broken { return false; }
        SetTurn(start, done, here, k.text, Ahead());
        BegunKey(k.text, Ahead());
        ghost var entries := ParseEntries(Ahead(), true);
        ok := ReadSet(CStr(k.text));
        if !ok { return; }
        SetsAppend(done, SetEntry(k.text, entries.value));
        done := done + [SetEntry(k.text, entries.value)];
      }
    }

    /** The value of one top-level key that has just been read. */
    method ReadTopValue(ghost start: seq<Event>, key: string) returns (ok: bool)
      requires Valid() && start == [Scalar(key)] + Ahead()
      modifies this`pos, this`o, this`arrays
      ensures Valid() && ok == ParseTop(start).Ok?
      ensures StaySound(old(arrays), arrays)
      ensures arrays.sets == Appends(old(arrays).sets, SETS_START, BegunAt(start))
      ensures ok ==> var t := ParseTop(start).value;
                     && Ahead() == ParseTop(start).rest && TopOk(t)
                     && o == Step(old(o), t) && arrays == Store(old(arrays), t)
    {
      hide ParseEntries, ParseSets, Ops, Mcasts, Sets, SetsOk, Sound, SetsBegun, BegunAt;
      BegunAhead(key, Ahead());
      if pos == |events| { return false; }
      assert start[1..] == Ahead() && start[2..] == Ahead()[1..];
      var name := CStr(key);
      if name == "operations" {
        ok := ReadOperations();
      } else if name == "mcast_groups" {
        ok := ReadMcastGroups();
      } else if name == "attribute_sets" {
        ok := ReadAttributeSets();
      } else {
        var vev := Next();
        if vev == None || !vev.value.Scalar? { return false; }
        var val := CStr(vev.value.text);
        if name == "family" {
          o := o.(family := Some(val));
        } else if name == "short" {
          o := o.(short := Some(val));
        } else if name == "long" {
          o := o.(long := Some(val));
        }
        ok := true;
      }
    }

    /** read_top: succeeds exactly on a document, reads to the end of its top mapping and no further, and
        leaves the overlay with everything the document says. */
    method ReadTop() returns (ok: bool)
      requires Valid()
      modifies this`pos, this`o, this`arrays
      ensures Valid() && ok == ParseDoc(old(Ahead())).Ok?
      ensures StaySound(old(arrays), arrays)
      ensures arrays.sets == Appends(old(arrays).sets, SETS_START, FileBegun(old(Ahead())))
      ensures ok ==> var p := ParseDoc(old(Ahead()));
                     && Ahead() == p.rest && DocOk(p.value) && old(Ahead()) == UnparseDoc(p.value, Ahead())
                     && o == Load(old(o), p.value) && arrays == StoreAll(old(arrays), p.value)
    {
      ghost var all := Ahead();
      ok := Expect(StreamStart);
      if !ok { return; }
      ok := Expect(DocStart);
      if !ok { return; }
      ok := Expect(MapStart);
      if !ok { return; }
      assert all[1..][1..][1..] == all[3..];
      ghost var o0 := o;
      ok := ReadTops();
      if ok {
        ParsesExactly(all, ParseDoc(all).value, ParseDoc(all).rest);
      }
    }

    method ReadTops() returns (ok: bool)
      requires Valid()
      modifies this`pos, this`o, this`arrays
      ensures Valid() && ok == ParseTops(old(Ahead())).Ok?
      ensures StaySound(old(arrays), arrays)
      ensures arrays.sets == Appends(old(arrays).sets, SETS_START, TopsBegun(old(Ahead())))
      ensures ok ==> var p := ParseTops(old(Ahead()));
                     && Ahead() == p.rest && DocOk(p.value)
                     && o == Load(old(o), p.value) && arrays == StoreAll(old(arrays), p.value)
    {
      hide ParseTops, ParseTop, Step, Store, TopOk, DocOk, Load, StoreAll, Sound, BegunAt, TopsBegun, Appends;
      ghost var start, done, n: nat := Ahead(), [], 0;
      PrependNone(ParseTops(start));
      NothingLoadedYet(o, arrays);
      while true
        invariant Valid() && ParseTops(start) == Prepend(done, ParseTops(Ahead()))
        invariant StaySound(old(arrays), arrays)
        invariant arrays.sets == Appends(old(arrays).sets, SETS_START, n) && TopsBegun(start) == n + TopsBegun(Ahead())
        invariant DocOk(done) && o == Load(old(o), done) && arrays == StoreAll(old(arrays), done)
        decreases |events| - pos
      {
        ghost var here, before := Ahead(), o;
        TopsTurn(start, done, here);
        var ev := Next();
        if ev == None { return false; }
        assert here[1..] == Ahead();
        if ev.value == MapEnd { return true; }
        if !ev.value.Scalar? { return false; }
        ok := ReadTopValue(here, ev.value.text);
        AppendsMore(old(arrays).sets, SETS_START, n, BegunAt(here));
        n := n + BegunAt(here);
        if !ok { return; }
        ghost var t := ParseTop(here).value;
        LoadOne(before, StoreAll(old(arrays), done), t);
        LoadConcat(old(o), done, [t]);
        StoreConcat(old(arrays), done, [t]);
        done := done + [t];
      }
    }
  }
}
