/** Writing an overlay down as a metadata file, in either key flavour, and reading it back. */
module Save {
  import opened Schema
  import opened OverlayFile
  import opened Loader

  /** How an operation is keyed: generated files use the id, curated files the name. */
  datatype Flavour = ById | ByName

  function Given(key: string, value: Option<string>): seq<Field> {
    if value.Some? then [Field(key, value.value)] else []
  }

  function Fields(name: Option<string>, short: Option<string>, long: Option<string>, hint: Option<string>): seq<Field> {
    Given("name", name) + Given("short", short) + Given("long", long) + Given("type", hint)
  }

  function SaveOp(r: OpRow, f: Flavour): Entry {
    match f
    case ById => Entry(Decimal(r.cmdId), Fields(r.name, r.short, r.long, None))
    case ByName => Entry(if r.name.Some? then r.name.value else "", Fields(None, r.short, r.long, None))
  }

  function SaveGroup(r: McastRow): Entry {
    Entry(r.name, Fields(None, r.short, r.long, None))
  }

  function SaveAttr(a: AttrDef): Entry {
    Entry(Decimal(a.id), Fields(a.name, None, None, a.hint))
  }

  function SaveAttrs(attrs: seq<AttrDef>): seq<Entry> {
    seq(|attrs|, i requires 0 <= i < |attrs| => SaveAttr(attrs[i]))
  }

  function SaveSets(sets: seq<AttrSet>): seq<SetEntry> {
    seq(|sets|, i requires 0 <= i < |sets| => SetEntry(sets[i].name, SaveAttrs(sets[i].attrs)))
  }

  function SaveOps(rows: seq<OpRow>, fs: seq<Flavour>): seq<Entry>
    requires |fs| == |rows|
  {
    seq(|rows|, i requires 0 <= i < |rows| => SaveOp(rows[i], fs[i]))
  }

  function SaveGroups(rows: seq<McastRow>): seq<Entry> {
    seq(|rows|, i requires 0 <= i < |rows| => SaveGroup(rows[i]))
  }

  function SaveScalar(key: string, value: Option<string>): seq<Top> {
    if value.Some? then [Plain(key, value.value)] else []
  }

  /** The document; `fs` chooses the flavour of each operation. */
  function Saved(o: Overlay, fs: seq<Flavour>): seq<Top>
    requires |fs| == |o.ops|
  {
    SaveScalar("family", o.family) + SaveScalar("short", o.short) + SaveScalar("long", o.long)
    + [Operations("operations", SaveOps(o.ops, fs)),
       McastGroups("mcast_groups", SaveGroups(o.mcast)),
       AttributeSets("attribute_sets", SaveSets(o.sets))]
  }

  // ---------------------------------------------------------------------------------------------
  // What survives being written down

  predicate Clean(s: string) { '\0' !in s }

  predicate CleanIf(s: Option<string>) { s.Some? ==> Clean(s.value) }

  /** A text survives take_scalar if and only if it has no NUL. */
  lemma {:induction false} CleanIsKept(s: string)
    ensures CStr(s) == s <==> Clean(s)
  {
    if s != [] {
      CleanIsKept(s[1..]);
      assert s == [s[0]] + s[1..];
      if s[0] != '\0' { assert CStr(s) == s <==> CStr(s[1..]) == s[1..] by { assert CStr(s)[1..] == CStr(s[1..]); } }
    }
  }

  predicate OpKept(r: OpRow, f: Flavour) {
    && CleanIf(r.name) && CleanIf(r.short) && CleanIf(r.long)
    && match f
       case ById => r.cmdId < UINT32_RANGE
       case ByName => r.cmdId == 0 && r.name.Some? && Uint32(r.name.value) == None
  }

  predicate GroupKept(r: McastRow) {
    Clean(r.name) && CleanIf(r.short) && CleanIf(r.long)
  }

  predicate AttrKept(a: AttrDef) {
    a.id < UINT32_RANGE && CleanIf(a.name) && CleanIf(a.hint)
  }

  predicate SetKept(s: AttrSet) {
    Clean(s.name) && forall a :: a in s.attrs ==> AttrKept(a)
  }

  /** Texts are NUL-free, ids fit 32 bits, and an operation keyed by its name has one that reads as no
      number, and the id 0 that marks it as curated. */
  predicate Kept(o: Overlay, fs: seq<Flavour>)
    requires |fs| == |o.ops|
  {
    && CleanIf(o.family) && CleanIf(o.short) && CleanIf(o.long)
    && (forall i :: 0 <= i < |o.ops| ==> OpKept(o.ops[i], fs[i]))
    && (forall r :: r in o.mcast ==> GroupKept(r))
    && (forall s :: s in o.sets ==> SetKept(s))
  }

  // ---------------------------------------------------------------------------------------------
  // One row

  lemma KeysAreClean()
    ensures CStr("name") == "name" && CStr("short") == "short" && CStr("long") == "long" && CStr("type") == "type"
    ensures CStr("family") == "family" && CStr("operations") == "operations"
    ensures CStr("mcast_groups") == "mcast_groups" && CStr("attribute_sets") == "attribute_sets"
  {
    hide CStr;
    CleanIsKept("name");
    CleanIsKept("short");
    CleanIsKept("long");
    CleanIsKept("type");
    CleanIsKept("family");
    CleanIsKept("operations");
    CleanIsKept("mcast_groups");
    CleanIsKept("attribute_sets");
  }

  function Read(value: Option<string>, before: Option<string>): Option<string> {
    if value.Some? then Some(CStr(value.value)) else before
  }

  lemma ReadGiven(key: string, value: Option<string>, wanted: string, before: Option<string>)
    requires CStr(key) == key
    ensures Last(Given(key, value), wanted, before) == if key == wanted then Read(value, before) else before
  {
    hide CStr;
    if value.Some? { assert [Field(key, value.value)][..0] == []; }
  }

  lemma ReadFields(name: Option<string>, short: Option<string>, long: Option<string>, hint: Option<string>,
                   wanted: string, before: Option<string>)
    ensures Last(Fields(name, short, long, hint), wanted, before)
         == if wanted == "name" then Read(name, before)
            else if wanted == "short" then Read(short, before)
            else if wanted == "long" then Read(long, before)
            else if wanted == "type" then Read(hint, before) else before
  {
    hide CStr, Last;
    KeysAreClean();
    var a, b, c, d := Given("name", name), Given("short", short), Given("long", long), Given("type", hint);
    LastConcat(a + b + c, d, wanted, before);
    LastConcat(a + b, c, wanted, before);
    LastConcat(a, b, wanted, before);
    ReadGiven("name", name, wanted, before);
    var p := Last(a, wanted, before);
    ReadGiven("short", short, wanted, p);
    var q := Last(a + b, wanted, before);
    ReadGiven("long", long, wanted, q);
    ReadGiven("type", hint, wanted, Last(a + b + c, wanted, before));
  }

  lemma ReadKept(value: Option<string>)
    ensures Read(value, None) == value <==> CleanIf(value)
  {
    if value.Some? { CleanIsKept(value.value); }
  }

  /** Digits are clean, and read back as the number they spell if that fits 32 bits. */
  lemma DecimalKey(n: nat)
    ensures CStr(Decimal(n)) == Decimal(n)
    ensures Uint32(Decimal(n)) == if n < UINT32_RANGE then Some(n) else None
  {
    var d := Decimal(n);
    assert !Digit('\0');
    CleanIsKept(d);
    assert d[0] in d;
  }

  lemma EmptyKey()
    ensures CStr("") == "" && Uint32("") == None
  {
  }

  lemma OpBack(r: OpRow, f: Flavour)
    ensures OpOf(SaveOp(r, f)) == r <==> OpKept(r, f)
  {
    hide CStr, Uint32, Last, Fields, Decimal, Clean;
    var e := SaveOp(r, f);
    var name0 := if Uint32(CStr(e.key)).Some? then None else Some(CStr(e.key));
    ReadKept(r.name);
    ReadKept(r.short);
    ReadKept(r.long);
    match f
    case ById =>
      DecimalKey(r.cmdId);
      ReadFields(r.name, r.short, r.long, None, "name", name0);
      ReadFields(r.name, r.short, r.long, None, "short", None);
      ReadFields(r.name, r.short, r.long, None, "long", None);
    case ByName =>
      CleanIsKept(e.key);
      EmptyKey();
      ReadFields(None, r.short, r.long, None, "name", name0);
      ReadFields(None, r.short, r.long, None, "short", None);
      ReadFields(None, r.short, r.long, None, "long", None);
  }

  lemma GroupBack(r: McastRow)
    ensures McastOf(SaveGroup(r)) == r <==> GroupKept(r)
  {
    hide CStr, Last, Fields, Clean;
    CleanIsKept(r.name);
    ReadKept(r.short);
    ReadKept(r.long);
    ReadFields(None, r.short, r.long, None, "short", None);
    ReadFields(None, r.short, r.long, None, "long", None);
  }

  lemma AttrBack(a: AttrDef)
    ensures KeyOk(SaveAttr(a).key, true) && AttrOf(SaveAttr(a)) == a <==> AttrKept(a)
    ensures KeyOk(SaveAttr(a).key, true) <==> a.id < UINT32_RANGE
  {
    hide CStr, Uint32, Last, Fields, Decimal, Clean;
    DecimalKey(a.id);
    ReadKept(a.name);
    ReadKept(a.hint);
    ReadFields(a.name, None, None, a.hint, "name", None);
    ReadFields(a.name, None, None, a.hint, "type", None);
  }

  // ---------------------------------------------------------------------------------------------
  // The sections

  lemma OpsBack(rows: seq<OpRow>, fs: seq<Flavour>)
    requires |fs| == |rows|
    ensures Ops(SaveOps(rows, fs)) == rows <==> forall i :: 0 <= i < |rows| ==> OpKept(rows[i], fs[i])
  {
    hide OpOf, SaveOp, OpKept;
    var back := Ops(SaveOps(rows, fs));
    forall i | 0 <= i < |rows| ensures back[i] == rows[i] <==> OpKept(rows[i], fs[i]) { OpBack(rows[i], fs[i]); }
  }

  lemma GroupsBack(rows: seq<McastRow>)
    ensures Mcasts(SaveGroups(rows)) == rows <==> forall r :: r in rows ==> GroupKept(r)
  {
    hide McastOf, SaveGroup, GroupKept;
    var back := Mcasts(SaveGroups(rows));
    forall i | 0 <= i < |rows| ensures back[i] == rows[i] <==> GroupKept(rows[i]) { GroupBack(rows[i]); }
    if back == rows {
      forall r | r in rows ensures GroupKept(r) {
        var i :| 0 <= i < |rows| && rows[i] == r;
        assert back[i] == rows[i];
      }
    }
  }

  lemma AttrsBack(attrs: seq<AttrDef>)
    ensures NumericKeys(SaveAttrs(attrs)) && Attrs(SaveAttrs(attrs)) == attrs <==> forall a :: a in attrs ==> AttrKept(a)
  {
    hide AttrOf, SaveAttr, AttrKept, KeyOk;
    var es := SaveAttrs(attrs);
    forall i | 0 <= i < |attrs|
      ensures KeyOk(es[i].key, true) && AttrOf(es[i]) == attrs[i] <==> AttrKept(attrs[i])
    {
      AttrBack(attrs[i]);
    }
    if NumericKeys(es) && Attrs(es) == attrs {
      forall a | a in attrs ensures AttrKept(a) {
        var i :| 0 <= i < |attrs| && attrs[i] == a;
        assert es[i] in es && Attrs(es)[i] == attrs[i];
      }
    }
    if forall a :: a in attrs ==> AttrKept(a) {
      forall e | e in es ensures KeyOk(e.key, true) {
        var i :| 0 <= i < |es| && es[i] == e;
        assert attrs[i] in attrs;
      }
      forall i | 0 <= i < |attrs| ensures Attrs(es)[i] == attrs[i] { assert attrs[i] in attrs; }
    }
  }

  lemma SetsBack(sets: seq<AttrSet>)
    ensures SetsOk(SaveSets(sets)) && Sets(SaveSets(sets)) == sets <==> forall s :: s in sets ==> SetKept(s)
  {
    hide NumericKeys, Attrs, SaveAttrs, AttrKept, CStr, Clean;
    var ss := SaveSets(sets);
    forall i | 0 <= i < |sets|
      ensures NumericKeys(ss[i].attrs) && AttrSet(CStr(ss[i].key), Attrs(ss[i].attrs)) == sets[i] <==> SetKept(sets[i])
    {
      AttrsBack(sets[i].attrs);
      CleanIsKept(sets[i].name);
    }
    if SetsOk(ss) && Sets(ss) == sets {
      forall s | s in sets ensures SetKept(s) {
        var i :| 0 <= i < |sets| && sets[i] == s;
        assert ss[i] in ss && Sets(ss)[i] == sets[i];
      }
    }
    if forall s :: s in sets ==> SetKept(s) {
      forall e | e in ss ensures NumericKeys(e.attrs) {
        var i :| 0 <= i < |ss| && ss[i] == e;
        assert sets[i] in sets;
      }
      forall i | 0 <= i < |sets| ensures Sets(ss)[i] == sets[i] { assert sets[i] in sets; }
    }
  }

  // ---------------------------------------------------------------------------------------------
  // The document

  lemma LoadScalar(o: Overlay, key: string, value: Option<string>)
    requires key in ["family", "short", "long"]
    ensures DocOk(SaveScalar(key, value))
    ensures Load(o, SaveScalar(key, value))
         == if value == None then o
            else if key == "family" then o.(family := Read(value, None))
            else if key == "short" then o.(short := Read(value, None))
            else o.(long := Read(value, None))
  {
    hide CStr;
    KeysAreClean();
    if value.Some? { LoadOne(o, NO_ARRAYS, Plain(key, value.value)); }
  }

  lemma LoadSections(o: Overlay, es: seq<Entry>, gs: seq<Entry>, ss: seq<SetEntry>)
    ensures var ts := [Operations("operations", es), McastGroups("mcast_groups", gs), AttributeSets("attribute_sets", ss)];
      && (DocOk(ts) <==> SetsOk(ss))
      && (SetsOk(ss) ==> Load(o, ts) == o.(ops := o.ops + Ops(es), mcast := o.mcast + Mcasts(gs), sets := o.sets + Sets(ss)))
  {
    hide CStr, SetsOk, Ops, Mcasts, Sets;
    KeysAreClean();
    var a, b, c := Operations("operations", es), McastGroups("mcast_groups", gs), AttributeSets("attribute_sets", ss);
    var ts := [a, b, c];
    assert TopOk(c) <==> SetsOk(ss);
    assert c in ts;
    if SetsOk(ss) {
      assert ts == [a, b] + [c];
      LoadTwo(o, a, b);
      LoadConcat(o, [a, b], [c]);
      LoadOne(Load(o, [a, b]), NO_ARRAYS, c);
    }
  }

  lemma DocParts(a: seq<Top>, b: seq<Top>)
    ensures DocOk(a + b) <==> DocOk(a) && DocOk(b)
  {
    hide TopOk;
    assert forall t :: t in a ==> t in a + b;
    assert forall t :: t in b ==> t in a + b;
  }

  lemma LoadSaved(o: Overlay, fs: seq<Flavour>)
    requires |fs| == |o.ops|
    ensures DocOk(Saved(o, fs)) <==> SetsOk(SaveSets(o.sets))
    ensures DocOk(Saved(o, fs)) ==>
      Load(EMPTY_OVERLAY, Saved(o, fs))
      == Overlay(Read(o.family, None), Read(o.short, None), Read(o.long, None),
                 Ops(SaveOps(o.ops, fs)), Mcasts(SaveGroups(o.mcast)), Sets(SaveSets(o.sets)))
  {
    hide CStr, SetsOk, Ops, Mcasts, Sets, SaveOps, SaveGroups, SaveSets, Load, DocOk;
    var a, b, c := SaveScalar("family", o.family), SaveScalar("short", o.short), SaveScalar("long", o.long);
    var es, gs, ss := SaveOps(o.ops, fs), SaveGroups(o.mcast), SaveSets(o.sets);
    var d := [Operations("operations", es), McastGroups("mcast_groups", gs), AttributeSets("attribute_sets", ss)];
    var o0 := EMPTY_OVERLAY;
    LoadScalar(o0, "family", o.family);
    var o1 := Load(o0, a);
    LoadScalar(o1, "short", o.short);
    LoadConcat(o0, a, b);
    var o2 := Load(o0, a + b);
    LoadScalar(o2, "long", o.long);
    LoadConcat(o0, a + b, c);
    var o3 := Load(o0, a + b + c);
    LoadSections(o3, es, gs, ss);
    DocParts(a + b + c, d);
    if SetsOk(ss) {
      LoadConcat(o0, a + b + c, d);
      assert [] + Ops(es) == Ops(es) && [] + Mcasts(gs) == Mcasts(gs) && [] + Sets(ss) == Sets(ss);
    }
  }

  /** An overlay written down and loaded into an empty one is the same overlay if and only if it is `Kept`. */
  lemma SavedLoadsBack(o: Overlay, fs: seq<Flavour>)
    requires |fs| == |o.ops|
    ensures DocOk(Saved(o, fs)) && Load(EMPTY_OVERLAY, Saved(o, fs)) == o <==> Kept(o, fs)
  {
    hide CStr, SetsOk, Ops, Mcasts, Sets, SaveOps, SaveGroups, SaveSets, Load, DocOk, OpKept, GroupKept, SetKept, Saved;
    LoadSaved(o, fs);
    ReadKept(o.family);
    ReadKept(o.short);
    ReadKept(o.long);
    OpsBack(o.ops, fs);
    GroupsBack(o.mcast);
    SetsBack(o.sets);
  }

  /** The same through the events: read_top on the serialised overlay stops right behind it, and has rebuilt
      it if and only if it is `Kept`. */
  method ReadBack(o: Overlay, fs: seq<Flavour>, rest: seq<Event>) returns (back: Overlay, left: seq<Event>)
    requires |fs| == |o.ops| && DocOk(Saved(o, fs))
    ensures left == rest && (back == o <==> Kept(o, fs))
  {
    hide DocOk, Load, UnparseDoc, Kept, Saved;
    SavedLoadsBack(o, fs);
    var doc := Saved(o, fs);
    var events := UnparseDoc(doc, rest);
    ParsesExactly(events, doc, rest);
    var reader := new Reader(events, EMPTY_OVERLAY, NO_ARRAYS);
    assert reader.Ahead() == events;
    var ok := reader.ReadTop();
    back, left := reader.o, reader.events[reader.pos..];
  }

  // ---------------------------------------------------------------------------------------------
  // The format in full

  lemma FieldEvents(fs: seq<Field>, rest: seq<Event>)
    ensures fs == [] ==> UnparseFields(fs, rest) == [MapEnd] + rest
    ensures fs != [] ==> UnparseFields(fs, rest) == [Scalar(fs[0].key), Scalar(fs[0].value)] + UnparseFields(fs[1..], rest)
  {
  }

  lemma ThreeFields(name: string, short: string, long: string, rest: seq<Event>)
    ensures UnparseFields(Fields(Some(name), Some(short), Some(long), None), rest)
         == [Scalar("name"), Scalar(name), Scalar("short"), Scalar(short), Scalar("long"), Scalar(long), MapEnd] + rest
  {
    hide UnparseFields;
    var fs := Fields(Some(name), Some(short), Some(long), None);
    assert fs == [Field("name", name), Field("short", short), Field("long", long)];
    FieldEvents(fs, rest);
    FieldEvents(fs[1..], rest);
    FieldEvents(fs[2..], rest);
    FieldEvents(fs[3..], rest);
    assert fs[1..][1..] == fs[2..] && fs[2..][1..] == fs[3..] && fs[3..] == [];
  }

  lemma TwoFields(short: string, long: string, name: string, hint: string, rest: seq<Event>)
    ensures UnparseFields(Fields(None, Some(short), Some(long), None), rest)
         == [Scalar("short"), Scalar(short), Scalar("long"), Scalar(long), MapEnd] + rest
    ensures UnparseFields(Fields(Some(name), None, None, Some(hint)), rest)
         == [Scalar("name"), Scalar(name), Scalar("type"), Scalar(hint), MapEnd] + rest
  {
    hide UnparseFields;
    var fs, gs := Fields(None, Some(short), Some(long), None), Fields(Some(name), None, None, Some(hint));
    assert fs == [Field("short", short), Field("long", long)] && gs == [Field("name", name), Field("type", hint)];
    FieldEvents(fs, rest);
    FieldEvents(fs[1..], rest);
    FieldEvents(fs[2..], rest);
    FieldEvents(gs, rest);
    FieldEvents(gs[1..], rest);
    FieldEvents(gs[2..], rest);
    assert fs[1..][1..] == fs[2..] && fs[2..] == [] && gs[1..][1..] == gs[2..] && gs[2..] == [];
  }

  lemma EntryEvents(es: seq<Entry>, rest: seq<Event>)
    ensures es == [] ==> UnparseEntries(es, rest) == [MapEnd] + rest
    ensures es != [] ==>
      UnparseEntries(es, rest) == [Scalar(es[0].key), MapStart] + UnparseFields(es[0].fields, UnparseEntries(es[1..], rest))
  {
    hide UnparseFields;
  }

  lemma OneEntry(e: Entry, rest: seq<Event>)
    ensures UnparseEntries([e], rest) == [Scalar(e.key), MapStart] + UnparseFields(e.fields, [MapEnd] + rest)
  {
    hide UnparseEntries, UnparseFields;
    EntryEvents([e], rest);
    EntryEvents([], rest);
    assert [e][1..] == [];
  }

  lemma TwoEntries(d: Entry, e: Entry, rest: seq<Event>)
    ensures UnparseEntries([d, e], rest)
         == [Scalar(d.key), MapStart] + UnparseFields(d.fields, [Scalar(e.key), MapStart] + UnparseFields(e.fields, [MapEnd] + rest))
  {
    hide UnparseEntries, UnparseFields;
    EntryEvents([d, e], rest);
    OneEntry(e, rest);
    assert [d, e][1..] == [e];
  }

  lemma OneSet(s: SetEntry, rest: seq<Event>)
    ensures UnparseSets([s], rest) == [Scalar(s.key), MapStart] + UnparseEntries(s.attrs, [MapEnd] + rest)
  {
    hide UnparseEntries;
    assert [s][1..] == [];
  }

  lemma SixTops(a: Top, b: Top, c: Top, d: Top, e: Top, f: Top, rest: seq<Event>)
    ensures UnparseTops([a, b, c, d, e, f], rest)
         == UnparseTop(a, UnparseTop(b, UnparseTop(c, UnparseTop(d, UnparseTop(e, UnparseTop(f, [MapEnd] + rest))))))
  {
    hide UnparseTop;
    var ts := [a, b, c, d, e, f];
    TopEvents(ts, rest);
    TopEvents(ts[1..], rest);
    TopEvents(ts[2..], rest);
    TopEvents(ts[3..], rest);
    TopEvents(ts[4..], rest);
    TopEvents(ts[5..], rest);
    TopEvents(ts[6..], rest);
    assert ts[1..][1..] == ts[2..] && ts[2..][1..] == ts[3..] && ts[3..][1..] == ts[4..];
    assert ts[4..][1..] == ts[5..] && ts[5..][1..] == ts[6..] == [];
  }

  lemma TopEvents(ts: seq<Top>, rest: seq<Event>)
    ensures UnparseTops(ts, rest) == if ts == [] then [MapEnd] + rest else UnparseTop(ts[0], UnparseTops(ts[1..], rest))
  {
    hide UnparseTop;
  }

  /** An overlay with an operation of either flavour, a group and a set of one attribute, event by event. */
  lemma WrittenOut(t: seq<string>, id: nat, attrId: nat, rest: seq<Event>)
    requires |t| == 15
    ensures var o := Overlay(Some(t[0]), Some(t[1]), Some(t[2]),
                             [OpRow(id, Some(t[3]), Some(t[4]), Some(t[5])), OpRow(0, Some(t[6]), Some(t[7]), Some(t[8]))],
                             [McastRow(t[9], Some(t[10]), Some(t[11]))],
                             [AttrSet(t[12], [AttrDef(attrId, Some(t[13]), Some(t[14]))])]);
      UnparseDoc(Saved(o, [ById, ByName]), rest)
      == [StreamStart, DocStart, MapStart]
         + [Scalar("family"), Scalar(t[0])] + [Scalar("short"), Scalar(t[1])] + [Scalar("long"), Scalar(t[2])]
         + [Scalar("operations"), MapStart, Scalar(Decimal(id)), MapStart]
         + [Scalar("name"), Scalar(t[3]), Scalar("short"), Scalar(t[4]), Scalar("long"), Scalar(t[5]), MapEnd]
         + [Scalar(t[6]), MapStart, Scalar("short"), Scalar(t[7]), Scalar("long"), Scalar(t[8]), MapEnd, MapEnd]
         + [Scalar("mcast_groups"), MapStart,
            Scalar(t[9]), MapStart, Scalar("short"), Scalar(t[10]), Scalar("long"), Scalar(t[11]), MapEnd,
            MapEnd]
         + [Scalar("attribute_sets"), MapStart, Scalar(t[12]), MapStart,
            Scalar(Decimal(attrId)), MapStart, Scalar("name"), Scalar(t[13]), Scalar("type"), Scalar(t[14]), MapEnd,
            MapEnd, MapEnd]
         + [MapEnd] + rest
  {
    hide UnparseFields, UnparseEntries, UnparseSets, UnparseTops, Fields, Decimal, UnparseTop;
    var end := [MapEnd] + rest;
    var a := Entry(Decimal(id), Fields(Some(t[3]), Some(t[4]), Some(t[5]), None));
    var b := Entry(t[6], Fields(None, Some(t[7]), Some(t[8]), None));
    var c := Entry(t[9], Fields(None, Some(t[10]), Some(t[11]), None));
    var d := Entry(Decimal(attrId), Fields(Some(t[13]), None, None, Some(t[14])));
    var ops, groups, sets := Operations("operations", [a, b]), McastGroups("mcast_groups", [c]), AttributeSets("attribute_sets", [SetEntry(t[12], [d])]);
    SetsOut(t[12], d, t[13], t[14], end);
    var s := UnparseTop(sets, end);
    GroupsOut(c, t[10], t[11], s);
    var g := UnparseTop(groups, s);
    OpsOut(a, b, t[3], t[4], t[5], t[7], t[8], g);
    var o := UnparseTop(ops, g);
    PlainOut("long", t[2], o);
    PlainOut("short", t[1], [Scalar("long"), Scalar(t[2])] + o);
    PlainOut("family", t[0], [Scalar("short"), Scalar(t[1])] + ([Scalar("long"), Scalar(t[2])] + o));
    SixTops(Plain("family", t[0]), Plain("short", t[1]), Plain("long", t[2]), ops, groups, sets, rest);
    SavedIs(t, id, attrId, a, b, c, d);
    var u := [Scalar("operations"), MapStart, Scalar(a.key), MapStart];
    var v := [Scalar("name"), Scalar(t[3]), Scalar("short"), Scalar(t[4]), Scalar("long"), Scalar(t[5]), MapEnd];
    var w := [Scalar(b.key), MapStart, Scalar("short"), Scalar(t[7]), Scalar("long"), Scalar(t[8]), MapEnd, MapEnd];
    var y := [Scalar("mcast_groups"), MapStart,
              Scalar(c.key), MapStart, Scalar("short"), Scalar(t[10]), Scalar("long"), Scalar(t[11]), MapEnd,
              MapEnd];
    var z := [Scalar("attribute_sets"), MapStart, Scalar(t[12]), MapStart,
              Scalar(d.key), MapStart, Scalar("name"), Scalar(t[13]), Scalar("type"), Scalar(t[14]), MapEnd,
              MapEnd, MapEnd];
    InARow([StreamStart, DocStart, MapStart], [Scalar("family"), Scalar(t[0])], [Scalar("short"), Scalar(t[1])],
           [Scalar("long"), Scalar(t[2])], u, v, w, y, z, [MapEnd], rest);
  }

  lemma InARow(a: seq<Event>, b: seq<Event>, c: seq<Event>, d: seq<Event>, u: seq<Event>, v: seq<Event>, w: seq<Event>,
               y: seq<Event>, z: seq<Event>, e: seq<Event>, rest: seq<Event>)
    ensures a + (b + (c + (d + (u + v + w + (y + (z + (e + rest))))))) == a + b + c + d + u + v + w + y + z + e + rest
  {
  }

  lemma PlainOut(key: string, value: string, rest: seq<Event>)
    ensures UnparseTop(Plain(key, value), rest) == [Scalar(key), Scalar(value)] + rest
  {
  }

  lemma OpsOut(a: Entry, b: Entry, t3: string, t4: string, t5: string, t7: string, t8: string, rest: seq<Event>)
    requires a.fields == Fields(Some(t3), Some(t4), Some(t5), None) && b.fields == Fields(None, Some(t7), Some(t8), None)
    ensures UnparseTop(Operations("operations", [a, b]), rest)
         == [Scalar("operations"), MapStart, Scalar(a.key), MapStart]
            + [Scalar("name"), Scalar(t3), Scalar("short"), Scalar(t4), Scalar("long"), Scalar(t5), MapEnd]
            + [Scalar(b.key), MapStart, Scalar("short"), Scalar(t7), Scalar("long"), Scalar(t8), MapEnd, MapEnd] + rest
  {
    hide UnparseFields, UnparseEntries, Fields;
    TwoEntries(a, b, rest);
    TwoFields(t7, t8, "", "", [MapEnd] + rest);
    var tail := [Scalar(b.key), MapStart] + UnparseFields(b.fields, [MapEnd] + rest);
    ThreeFields(t3, t4, t5, tail);
    var w := [Scalar(b.key), MapStart, Scalar("short"), Scalar(t7), Scalar("long"), Scalar(t8), MapEnd, MapEnd];
    assert tail == w + rest;
    var u, v := [Scalar("operations"), MapStart], [Scalar("name"), Scalar(t3), Scalar("short"), Scalar(t4), Scalar("long"), Scalar(t5), MapEnd];
    InFour(u, [Scalar(a.key), MapStart], v, w, rest);
    assert u + [Scalar(a.key), MapStart] == [Scalar("operations"), MapStart, Scalar(a.key), MapStart];
  }

  lemma InFour(u: seq<Event>, k: seq<Event>, v: seq<Event>, w: seq<Event>, rest: seq<Event>)
    ensures u + (k + (v + (w + rest))) == (u + k) + v + w + rest
  {
  }

  lemma GroupsOut(c: Entry, t10: string, t11: string, rest: seq<Event>)
    requires c.fields == Fields(None, Some(t10), Some(t11), None)
    ensures UnparseTop(McastGroups("mcast_groups", [c]), rest)
         == [Scalar("mcast_groups"), MapStart,
             Scalar(c.key), MapStart, Scalar("short"), Scalar(t10), Scalar("long"), Scalar(t11), MapEnd,
             MapEnd] + rest
  {
    hide UnparseFields, UnparseEntries, Fields;
    OneEntry(c, rest);
    TwoFields(t10, t11, "", "", [MapEnd] + rest);
  }

  lemma SetsOut(name: string, d: Entry, t13: string, t14: string, rest: seq<Event>)
    requires d.fields == Fields(Some(t13), None, None, Some(t14))
    ensures UnparseTop(AttributeSets("attribute_sets", [SetEntry(name, [d])]), rest)
         == [Scalar("attribute_sets"), MapStart, Scalar(name), MapStart,
             Scalar(d.key), MapStart, Scalar("name"), Scalar(t13), Scalar("type"), Scalar(t14), MapEnd,
             MapEnd, MapEnd] + rest
  {
    hide UnparseFields, UnparseEntries, UnparseSets, Fields;
    OneSet(SetEntry(name, [d]), rest);
    OneEntry(d, [MapEnd] + rest);
    TwoFields("", "", t13, t14, [MapEnd] + ([MapEnd] + rest));
  }

  lemma SavedIs(t: seq<string>, id: nat, attrId: nat, a: Entry, b: Entry, c: Entry, d: Entry)
    requires |t| == 15
    requires a == Entry(Decimal(id), Fields(Some(t[3]), Some(t[4]), Some(t[5]), None))
    requires b == Entry(t[6], Fields(None, Some(t[7]), Some(t[8]), None))
    requires c == Entry(t[9], Fields(None, Some(t[10]), Some(t[11]), None))
    requires d == Entry(Decimal(attrId), Fields(Some(t[13]), None, None, Some(t[14])))
    ensures var o := Overlay(Some(t[0]), Some(t[1]), Some(t[2]),
                             [OpRow(id, Some(t[3]), Some(t[4]), Some(t[5])), OpRow(0, Some(t[6]), Some(t[7]), Some(t[8]))],
                             [McastRow(t[9], Some(t[10]), Some(t[11]))],
                             [AttrSet(t[12], [AttrDef(attrId, Some(t[13]), Some(t[14]))])]);
      Saved(o, [ById, ByName])
      == [Plain("family", t[0]), Plain("short", t[1]), Plain("long", t[2]), Operations("operations", [a, b]),
          McastGroups("mcast_groups", [c]), AttributeSets("attribute_sets", [SetEntry(t[12], [d])])]
  {
    hide Fields, Decimal;
    assert SaveAttrs([AttrDef(attrId, Some(t[13]), Some(t[14]))]) == [d];
    assert SaveSets([AttrSet(t[12], [AttrDef(attrId, Some(t[13]), Some(t[14]))])]) == [SetEntry(t[12], [d])];
    assert SaveGroups([McastRow(t[9], Some(t[10]), Some(t[11]))]) == [c];
    assert SaveOps([OpRow(id, Some(t[3]), Some(t[4]), Some(t[5])), OpRow(0, Some(t[6]), Some(t[7]), Some(t[8]))], [ById, ByName]) == [a, b];
  }
}
