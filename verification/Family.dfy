/** From overlay files to named children: the two files are loaded in order, merged, and joined with
    what the kernel reports about a family (genl-overlay.c load, genl-family.c populate). */
module Family {
  import opened Schema
  import opened OverlayFile
  import opened Loader
  import opened Growth
  import Merge

  // ---------------------------------------------------------------------------------------------
  // The merge by value

  function Generated(rows: seq<OpRow>): (gs: seq<OpRow>)
    ensures forall g :: g in gs ==> g.cmdId != 0
  {
    if rows == [] then [] else (if rows[0].cmdId != 0 then [rows[0]] else []) + Generated(rows[1..])
  }

  /** The last curated row with this name, or -1. */
  function LastCurated(rows: seq<OpRow>, name: Option<string>): (r: int)
    ensures -1 <= r < |rows|
  {
    if rows == [] || name == None then -1
    else
      var last := |rows| - 1;
      if rows[last].cmdId == 0 && rows[last].name == name then last else LastCurated(rows[..last], name)
  }

  /** Row `k` of the generated rows, with the descriptions curated for its name if it is the first of
      that name. */
  function Described(gs: seq<OpRow>, rows: seq<OpRow>, k: nat): OpRow
    requires k < |gs|
  {
    var c := LastCurated(rows, gs[k].name);
    if c >= 0 && (forall m :: 0 <= m < k ==> gs[m].name != gs[k].name)
    then gs[k].(short := rows[c].short, long := rows[c].long) else gs[k]
  }

  function Merged(rows: seq<OpRow>): seq<OpRow> {
    var gs := Generated(rows);
    seq(|gs|, k requires 0 <= k < |gs| => Described(gs, rows, k))
  }

  function Text(texts: map<Merge.Ptr, string>, p: Merge.Ptr): Option<string> {
    if p in texts then Some(texts[p]) else None
  }

  function View(texts: map<Merge.Ptr, string>, r: Merge.Row): OpRow {
    OpRow(r.cmdId, Text(texts, r.name), Text(texts, r.short), Text(texts, r.long))
  }

  function Views(texts: map<Merge.Ptr, string>, rows: seq<Merge.Row>): seq<OpRow> {
    seq(|rows|, i requires 0 <= i < |rows| => View(texts, rows[i]))
  }

  lemma {:induction false} GeneratedView(texts: map<Merge.Ptr, string>, rows: seq<Merge.Row>)
    ensures Generated(Views(texts, rows)) == Views(texts, Merge.Generated(rows))
  {
    if rows != [] {
      GeneratedView(texts, rows[1..]);
      var vs := Views(texts, rows);
      assert vs[1..] == Views(texts, rows[1..]) && vs[0] == View(texts, rows[0]);
      var tail := Merge.Generated(rows[1..]);
      assert Views(texts, [rows[0]] + tail) == [vs[0]] + Views(texts, tail);
      if rows[0].cmdId == 0 {
        assert Generated(vs) == Generated(vs[1..]);
        assert Merge.Generated(rows) == tail;
      }
    }
  }

  lemma {:induction false} LastView(texts: map<Merge.Ptr, string>, rows: seq<Merge.Row>, name: Merge.Ptr)
    requires 0 !in texts
    ensures LastCurated(Views(texts, rows), Text(texts, name)) == Merge.LastCurated(texts, rows, name)
  {
    if rows != [] {
      var last := |rows| - 1;
      LastView(texts, rows[..last], name);
      assert Views(texts, rows)[..last] == Views(texts, rows[..last]);
    }
  }

  /** What the in-place merge leaves behind, read through its strings, is the merge by value. */
  lemma MergeByValue(texts: map<Merge.Ptr, string>, rows: seq<Merge.Row>)
    requires 0 !in texts
    ensures Views(texts, Merge.Join(texts, Merge.Generated(rows), rows)) == Merged(Views(texts, rows))
  {
    var gs, vs := Merge.Generated(rows), Views(texts, rows);
    GeneratedView(texts, rows);
    forall k | 0 <= k < |gs|
      ensures View(texts, Merge.JoinedRow(texts, gs, rows, k)) == Described(Generated(vs), vs, k)
    {
      LastView(texts, rows, gs[k].name);
      var c := Merge.LastCurated(texts, rows, gs[k].name);
      if c >= 0 {
        assert forall m :: 0 <= m < k ==> Views(texts, gs)[m].name == Text(texts, gs[m].name);
        assert Merge.FirstOfName(texts, gs, k) <==> forall m :: 0 <= m < k ==> Views(texts, gs)[m].name != Views(texts, gs)[k].name;
      }
    }
  }

  /** Rows that own what they point at read the same after a merge as before it. */
  lemma ViewsKept(live: map<Merge.Ptr, string>, texts: map<Merge.Ptr, string>, rows: seq<Merge.Row>, others: multiset<Merge.Ptr>)
    requires 0 !in texts && Merge.Memory(live, texts, Merge.Owned(rows), others)
    ensures Views(live, rows) == Views(texts, rows)
  {
    hide Merge.Memory, Merge.Owned, Text;
    forall i | 0 <= i < |rows| ensures View(live, rows[i]) == View(texts, rows[i]) {
      Merge.OwnedMember(rows, i);
      Kept(live, texts, Merge.Owned(rows), others, rows[i].name);
      Kept(live, texts, Merge.Owned(rows), others, rows[i].short);
      Kept(live, texts, Merge.Owned(rows), others, rows[i].long);
    }
  }

  lemma Kept(live: map<Merge.Ptr, string>, texts: map<Merge.Ptr, string>, owned: multiset<Merge.Ptr>, others: multiset<Merge.Ptr>, p: Merge.Ptr)
    requires 0 !in texts && Merge.Memory(live, texts, owned, others) && (p != 0 ==> p in owned)
    ensures Text(live, p) == Text(texts, p)
  {
    if p != 0 {
      assert p in owned + others;
      assert p in multiset(live.Keys);
    }
  }

  /** The rows the in-place merge leaves, read in memory as it is then, are the merge by value of the rows
      as they were read before. */
  method MergeInMemory(overlay: Merge.Overlay, heap: Merge.Heap, ghost others: multiset<Merge.Ptr>)
    requires overlay.opCount == overlay.ops.Length && heap.Valid()
    requires Merge.OneOwnerEach(heap.live, Merge.Owned(overlay.ops[..]), others)
    modifies overlay`opCount, overlay.ops, heap
    ensures overlay.opCount <= overlay.ops.Length && heap.Valid()
    ensures Views(heap.live, overlay.ops[..overlay.opCount]) == Merged(Views(old(heap.live), old(overlay.ops[..])))
    ensures Merge.OneOwnerEach(heap.live, Merge.Owned(overlay.ops[..overlay.opCount]), others)
  {
    hide Merged, Merge.Join, Merge.Owned;
    ghost var texts, rows := heap.live, overlay.ops[..];
    overlay.MergeCurated(heap, others);
    ViewsKept(heap.live, texts, overlay.ops[..overlay.opCount], others);
    MergeByValue(texts, rows);
  }

  // ---------------------------------------------------------------------------------------------
  // Looking an operation up

  /** find_op over rows. */
  function FirstWithId(rows: seq<OpRow>, id: nat): (r: Option<OpRow>)
    ensures r.Some? ==> r.value in rows && r.value.cmdId == id
    ensures r == None <==> forall x :: x in rows ==> x.cmdId != id
  {
    if rows == [] then None else if rows[0].cmdId == id then Some(rows[0]) else FirstWithId(rows[1..], id)
  }

  function FirstMcast(rows: seq<McastRow>, name: string): (r: Option<McastRow>)
    ensures r.Some? ==> r.value in rows && r.value.name == name
    ensures r == None <==> forall x :: x in rows ==> x.name != name
  {
    if rows == [] then None else if rows[0].name == name then Some(rows[0]) else FirstMcast(rows[1..], name)
  }

  method FindOp(rows: seq<OpRow>, id: nat) returns (r: Option<OpRow>)
    ensures r == FirstWithId(rows, id)
    ensures r == None <==> forall x :: x in rows ==> x.cmdId != id
    ensures r.Some? ==> exists i :: 0 <= i < |rows| && r == Some(rows[i]) && rows[i].cmdId == id
                                    && forall j :: 0 <= j < i ==> rows[j].cmdId != id
  {
    for i := 0 to |rows|
      invariant forall j :: 0 <= j < i ==> rows[j].cmdId != id
      invariant FirstWithId(rows, id) == FirstWithId(rows[i..], id)
    {
      assert rows[i..][0] == rows[i] && rows[i..][1..] == rows[i + 1..];
      if rows[i].cmdId == id { return Some(rows[i]); }
    }
    return None;
  }

  method FindMcast(rows: seq<McastRow>, name: string) returns (r: Option<McastRow>)
    ensures r == FirstMcast(rows, name)
    ensures r == None <==> forall x :: x in rows ==> x.name != name
    ensures r.Some? ==> exists i :: 0 <= i < |rows| && r == Some(rows[i]) && rows[i].name == name
                                    && forall j :: 0 <= j < i ==> rows[j].name != name
  {
    for i := 0 to |rows|
      invariant forall j :: 0 <= j < i ==> rows[j].name != name
      invariant FirstMcast(rows, name) == FirstMcast(rows[i..], name)
    {
      assert rows[i..][0] == rows[i] && rows[i..][1..] == rows[i + 1..];
      if rows[i].name == name { return Some(rows[i]); }
    }
    return None;
  }

  /** The place of the first row with this id among the generated rows. */
  lemma {:induction false} FirstIsGenerated(rows: seq<OpRow>, id: nat) returns (k: nat)
    requires id != 0
    ensures var gs := Generated(rows);
            && k <= |gs| && (forall m :: 0 <= m < k ==> gs[m].cmdId != id)
            && FirstWithId(rows, id) == (if k < |gs| then Some(gs[k]) else None)
            && (k < |gs| ==> gs[k].cmdId == id)
  {
    if rows == [] {
      k := 0;
    } else if rows[0].cmdId == id {
      k := 0;
    } else {
      k := FirstIsGenerated(rows[1..], id);
      if rows[0].cmdId != 0 {
        assert Generated(rows)[1..] == Generated(rows[1..]);
        k := k + 1;
      } else {
        assert Generated(rows) == Generated(rows[1..]);
      }
    }
  }

  lemma {:induction false} FirstAt(rows: seq<OpRow>, id: nat, k: nat)
    requires k <= |rows| && (forall m :: 0 <= m < k ==> rows[m].cmdId != id) && (k < |rows| ==> rows[k].cmdId == id)
    ensures FirstWithId(rows, id) == if k < |rows| then Some(rows[k]) else None
  {
    if rows != [] && k > 0 { FirstAt(rows[1..], id, k - 1); }
  }

  /** After the merge an id is found exactly when some loaded row carries it, under the name the first
      such row gave it, with the descriptions joined to that row; id 0 is never found. */
  lemma FoundAfterMerge(rows: seq<OpRow>, id: nat)
    ensures var found := FirstWithId(Merged(rows), id);
            var first := FirstWithId(rows, id);
            if id == 0 || first == None then found == None
            else found.Some? && found.value.name == first.value.name
                 && exists k :: 0 <= k < |Generated(rows)| && Generated(rows)[k] == first.value
                                && (forall m :: 0 <= m < k ==> Generated(rows)[m].cmdId != id)
                                && found.value == Described(Generated(rows), rows, k)
  {
    var gs, ms := Generated(rows), Merged(rows);
    assert forall k :: 0 <= k < |gs| ==> ms[k].cmdId == gs[k].cmdId && ms[k].name == gs[k].name;
    if id == 0 {
      FirstAt(ms, id, |ms|);
    } else {
      var k := FirstIsGenerated(rows, id);
      FirstAt(ms, id, k);
      if k < |gs| { assert ms[k] == Described(gs, rows, k); }
    }
  }

  // ---------------------------------------------------------------------------------------------
  // Loading: generated file first, curated file second

  function TopOps(t: Top): seq<OpRow> {
    if t.Operations? then Ops(t.entries) else []
  }

  /** All operation rows of a document, in order. */
  function DocOps(ts: seq<Top>): seq<OpRow> {
    if ts == [] then [] else TopOps(ts[0]) + DocOps(ts[1..])
  }

  lemma StepOps(o: Overlay, t: Top)
    requires TopOk(t)
    ensures Step(o, t).ops == o.ops + TopOps(t)
  {
    hide Ops, Mcasts, Sets, CStr;
  }

  lemma {:induction false} LoadedOps(o: Overlay, ts: seq<Top>)
    requires DocOk(ts)
    ensures Load(o, ts).ops == o.ops + DocOps(ts)
    decreases ts
  {
    hide TopOk, Step, TopOps, Ops;
    if ts != [] {
      LoadedOps(Step(o, ts[0]), ts[1..]);
      StepOps(o, ts[0]);
      assert o.ops + TopOps(ts[0]) + DocOps(ts[1..]) == o.ops + (TopOps(ts[0]) + DocOps(ts[1..]));
    }
  }

  datatype LoadResult = Malformed | NoOverlay | Loaded(overlay: Overlay)

  /** A metadata file: its events if it exists. */
  function AfterFile(o: Overlay, file: Option<seq<Event>>): Option<Overlay> {
    if file == None then Some(o)
    else
      var p := ParseDoc(file.value);
      if p.Ok? then ParsesExactly(file.value, p.value, p.rest); Some(Load(o, p.value)) else None
  }

  function TopMcasts(t: Top): seq<McastRow> {
    if t.McastGroups? then Mcasts(t.entries) else []
  }

  /** All group rows of a document, in order. */
  function DocMcasts(ts: seq<Top>): seq<McastRow> {
    if ts == [] then [] else TopMcasts(ts[0]) + DocMcasts(ts[1..])
  }

  /** How many attribute sets a document has. */
  function SetCount(ts: seq<Top>): nat {
    if ts == [] then 0 else (if ts[0].AttributeSets? then |ts[0].sets| else 0) + SetCount(ts[1..])
  }

  lemma StepMcasts(o: Overlay, t: Top)
    requires TopOk(t)
    ensures Step(o, t).mcast == o.mcast + TopMcasts(t)
  {
    hide Ops, Mcasts, Sets, CStr;
  }

  lemma {:induction false} LoadedMcasts(o: Overlay, ts: seq<Top>)
    requires DocOk(ts)
    ensures Load(o, ts).mcast == o.mcast + DocMcasts(ts)
    decreases ts
  {
    hide TopOk, Step, TopMcasts, Mcasts;
    if ts != [] {
      LoadedMcasts(Step(o, ts[0]), ts[1..]);
      StepMcasts(o, ts[0]);
      assert o.mcast + TopMcasts(ts[0]) + DocMcasts(ts[1..]) == o.mcast + (TopMcasts(ts[0]) + DocMcasts(ts[1..]));
    }
  }

  lemma {:induction false} Stored(a: Arrays, ts: seq<Top>)
    ensures StoreAll(a, ts) == Arrays(Appends(a.ops, ROWS_START, |DocOps(ts)|),
                                      Appends(a.groups, ROWS_START, |DocMcasts(ts)|),
                                      Appends(a.sets, SETS_START, SetCount(ts)))
    decreases ts
  {
    hide Appends, Append, Ops, Mcasts;
    if ts == [] {
      NoAppends(a);
    } else {
      var b := Store(a, ts[0]);
      NoAppends(a);
      Stored(b, ts[1..]);
      AppendsMore(a.ops, ROWS_START, |TopOps(ts[0])|, |DocOps(ts[1..])|);
      AppendsMore(a.groups, ROWS_START, |TopMcasts(ts[0])|, |DocMcasts(ts[1..])|);
      AppendsMore(a.sets, SETS_START, if ts[0].AttributeSets? then |ts[0].sets| else 0, SetCount(ts[1..]));
      RowCounts(ts[0]);
    }
  }

  lemma NoAppends(a: Arrays)
    ensures Appends(a.ops, ROWS_START, 0) == a.ops && Appends(a.groups, ROWS_START, 0) == a.groups
    ensures Appends(a.sets, SETS_START, 0) == a.sets
  {
  }

  lemma RowCounts(t: Top)
    ensures t.Operations? ==> |TopOps(t)| == |t.entries|
    ensures t.McastGroups? ==> |TopMcasts(t)| == |t.entries|
  {
  }

  /** Loading `g` and then `c` writes every operation and every group to a slot that exists, and every
      attribute set but for those of `c` that the array of `g`'s sets has no slack for. */
  lemma TwoFilesFit(g: seq<Top>, c: seq<Top>)
    ensures StoreAll(NO_ARRAYS, g).Fit()
    ensures var both := StoreAll(NextFile(StoreAll(NO_ARRAYS, g)), c);
            && both.ops.fits && both.groups.fits
            && (both.sets.fits <==> SetCount(g) == 0 || SetCount(g) + SetCount(c) <= Slots(SetCount(g)))
  {
    hide Appends, StoreAll, DocOps, DocMcasts, SetCount, Slots;
    var first := StoreAll(NO_ARRAYS, g);
    Stored(NO_ARRAYS, g);
    Stored(NextFile(first), c);
    FitIff(EMPTY, ROWS_START, |DocOps(g)|);
    FitIff(EMPTY, ROWS_START, |DocMcasts(g)|);
    FitIff(EMPTY, SETS_START, SetCount(g));
    FitIff(Resumed(first.ops), ROWS_START, |DocOps(c)|);
    FitIff(Resumed(first.groups), ROWS_START, |DocMcasts(c)|);
    SecondFile(SetCount(g), SetCount(c));
  }

  /** How many attribute sets reading a file begins; a malformed one is read as far as it goes. */
  function SetsIn(file: Option<seq<Event>>): nat {
    if file == None then 0 else FileBegun(file.value)
  }

  lemma {:induction false} TopsCounted(ev: seq<Event>)
    requires ParseTops(ev).Ok?
    ensures TopsBegun(ev) == SetCount(ParseTops(ev).value)
    decreases |ev|
  {
    hide BegunAt, ParseTop;
    if ev[0] != MapEnd {
      CountedAt(ev);
      TopsCounted(ParseTop(ev).rest);
      assert ParseTops(ev).value[1..] == ParseTops(ParseTop(ev).rest).value;
    }
  }

  lemma CountedAt(ev: seq<Event>)
    requires ev != [] && ev[0].Scalar? && ParseTop(ev).Ok?
    ensures var t := ParseTop(ev).value; BegunAt(ev) == if t.AttributeSets? then |t.sets| else 0
  {
    hide ParseEntries, ParseSets, SetsBegun, CStr;
    if CStr(ev[0].text) == "attribute_sets" { AllBegun(ev[2..]); }
  }

  /** Of a file that can be read, these are the sets of its document. */
  lemma SetsCounted(file: Option<seq<Event>>)
    requires !Unreadable(file)
    ensures SetsIn(file) == SetCount(DocsOf(file))
  {
    if file.Some? { TopsCounted(file.value[3..]); }
  }

  /** load_one_file: the rows it appends, and the arrays it writes them to. */
  method LoadFile(o: Overlay, arrays: Arrays, file: Option<seq<Event>>) returns (r: Option<Overlay>, now: Arrays)
    requires Counted(o, arrays)
    ensures r == AfterFile(o, file)
    ensures r.Some? ==> Counted(r.value, now)
                        && now == if file == None then arrays else StoreAll(NextFile(arrays), DocsOf(file))
    ensures file.Some? ==> StaySound(NextFile(arrays), now)
                           && now.sets == Appends(Forgotten(arrays.sets), SETS_START, SetsIn(file))
  {
    if file == None { return Some(o), arrays; }
    var reader := new Reader(file.value, o, NextFile(arrays));
    assert reader.Ahead() == file.value;
    var ok := reader.ReadTop();
    return if ok then Some(reader.o) else None, reader.arrays;
  }

  predicate Unreadable(file: Option<seq<Event>>) {
    file.Some? && ParseDoc(file.value) == Fail
  }

  /** Whether the attribute sets of both files find slots; those of the second are appended only if the
      first can be read. */
  predicate SetsFit(generated: Option<seq<Event>>, curated: Option<seq<Event>>) {
    var n, m := SetsIn(generated), SetsIn(curated);
    Unreadable(generated) || n == 0 || n + m <= Slots(n)
  }

  /** The arrays a file is read into: all of them take what it holds, but for the sets of a second file. */
  lemma FirstFits(file: Option<seq<Event>>, now: Arrays)
    requires if file == None then now == NO_ARRAYS
             else StaySound(NO_ARRAYS, now) && now.sets == Appends(EMPTY, SETS_START, SetsIn(file))
    ensures now.Fit() && Sound(NextFile(now).ops) && Sound(NextFile(now).groups)
    ensures now.sets == Appends(EMPTY, SETS_START, SetsIn(file))
  {
    FitIff(EMPTY, SETS_START, SetsIn(file));
  }

  lemma SecondFits(first: Arrays, now: Arrays, generated: Option<seq<Event>>, curated: Option<seq<Event>>)
    requires first.sets == Appends(EMPTY, SETS_START, SetsIn(generated)) && first.Fit() && !Unreadable(generated)
    requires Sound(NextFile(first).ops) && Sound(NextFile(first).groups)
    requires if curated == None then now == first
             else StaySound(NextFile(first), now) && now.sets == Appends(Forgotten(first.sets), SETS_START, SetsIn(curated))
    ensures now.Fit() <==> SetsFit(generated, curated)
  {
    hide FileBegun, Slots, Appends;
    SecondFile(SetsIn(generated), SetsIn(curated));
    if curated == None { SetsSlots(SetsIn(generated)); }
  }

  lemma SetsSlots(n: nat)
    ensures n == 0 || n <= Slots(n)
  {
    if n > 0 { SlotsAreLeast(n); }
  }

  /** overlay_load, with the merge taken by value. `inBounds` says whether every row was written to a slot
      that exists; where one was not, nothing is said of the overlay. */
  method LoadOverlay(generated: Option<seq<Event>>, curated: Option<seq<Event>>)
    returns (r: LoadResult, inBounds: bool)
    ensures r == NoOverlay <==> generated == None && curated == None
    ensures r == Malformed <==> Unreadable(generated) || Unreadable(curated)
    ensures inBounds <==> SetsFit(generated, curated)
    ensures r.Loaded? && inBounds ==>
              var g, c := DocsOf(generated), DocsOf(curated);
              DocOk(g + c) && r.overlay == Load(EMPTY_OVERLAY, g + c).(ops := Merged(DocOps(g) + DocOps(c)))
  {
    hide ParseDoc, Load, Merged, StoreAll, Slots, SetCount, DocOps, DocOk, SetsIn, Appends, Sound;
    var o, first := LoadFile(EMPTY_OVERLAY, NO_ARRAYS, generated);
    FirstFits(generated, first);
    if o == None { return Malformed, first.Fit(); }
    var o', second := LoadFile(o.value, first, curated);
    SecondFits(first, second, generated, curated);
    inBounds := second.Fit();
    if o' == None { return Malformed, inBounds; }
    if generated == None && curated == None { return NoOverlay, inBounds; }
    DocsOk(generated);
    DocsOk(curated);
    NothingLoaded(EMPTY_OVERLAY);
    NothingLoaded(o.value);
    LoadConcat(EMPTY_OVERLAY, DocsOf(generated), DocsOf(curated));
    LoadedOps(EMPTY_OVERLAY, DocsOf(generated));
    LoadedOps(Load(EMPTY_OVERLAY, DocsOf(generated)), DocsOf(curated));
    assert [] + DocOps(DocsOf(generated)) == DocOps(DocsOf(generated));
    return Loaded(o'.value.(ops := Merged(o'.value.ops))), inBounds;
  }

  lemma NothingLoaded(o: Overlay)
    ensures DocOk([]) && Load(o, []) == o
  {
  }

  /** The document a file holds; nothing if there is no file. */
  function DocsOf(file: Option<seq<Event>>): seq<Top> {
    if file.Some? && ParseDoc(file.value).Ok? then ParseDoc(file.value).value else []
  }

  lemma DocsOk(file: Option<seq<Event>>)
    ensures DocOk(DocsOf(file))
  {
    if file.Some? && ParseDoc(file.value).Ok? {
      ParsesExactly(file.value, ParseDoc(file.value).value, ParseDoc(file.value).rest);
    }
  }

  // ---------------------------------------------------------------------------------------------
  // The children of a family

  datatype KernelOp = KernelOp(id: nat, flags: nat)
  datatype KernelMcast = KernelMcast(id: nat, name: Option<string>)

  datatype Child =
    | OpChild(id: nat, flags: nat, name: Option<string>, short: Option<string>, long: Option<string>)
    | McastChild(id: nat, name: Option<string>, short: Option<string>, long: Option<string>)

  /** op_get_name */
  function OpName(c: Child): string
    requires c.OpChild?
  {
    if c.name.Some? && c.name.value != "" then c.name.value else "cmd-" + Decimal(c.id)
  }

  function OpChildOf(o: Option<Overlay>, k: KernelOp): Child {
    var row := if o.Some? then FirstWithId(o.value.ops, k.id) else None;
    if row.Some? then OpChild(k.id, k.flags, row.value.name, row.value.short, row.value.long)
    else OpChild(k.id, k.flags, None, None, None)
  }

  function McastChildOf(o: Option<Overlay>, g: KernelMcast): Child {
    var row := if o.Some? && g.name.Some? then FirstMcast(o.value.mcast, g.name.value) else None;
    if row.Some? then McastChild(g.id, g.name, row.value.short, row.value.long)
    else McastChild(g.id, g.name, None, None)
  }

  class GenlFamily {
    var ops: seq<KernelOp>
    var mcastGroups: seq<KernelMcast>
    var overlay: Option<Overlay>
    var children: seq<Child>

    constructor (ops: seq<KernelOp>, mcastGroups: seq<KernelMcast>, overlay: Option<Overlay>)
      ensures this.ops == ops && this.mcastGroups == mcastGroups && this.overlay == overlay && children == []
    {
      this.ops, this.mcastGroups, this.overlay, children := ops, mcastGroups, overlay, [];
    }

    /** fam_populate_children: one child per kernel operation, in kernel order, then one per group. */
    method PopulateChildren()
      modifies this`children
      ensures |children| == |old(children)| + |ops| + |mcastGroups|
      ensures children[..|old(children)|] == old(children)
      ensures forall i :: 0 <= i < |ops| ==> children[|old(children)| + i] == OpChildOf(overlay, ops[i])
      ensures forall i :: 0 <= i < |mcastGroups| ==>
                children[|old(children)| + |ops| + i] == McastChildOf(overlay, mcastGroups[i])
    {
      ghost var n := |children|;
      for i := 0 to |ops|
        invariant |children| == n + i && children[..n] == old(children)
        invariant forall j :: 0 <= j < i ==> children[n + j] == OpChildOf(overlay, ops[j])
      {
        var row: Option<OpRow> := None;
        if overlay.Some? { row := FindOp(overlay.value.ops, ops[i].id); }
        children := children + [OpChild(ops[i].id, ops[i].flags,
                                        if row.Some? then row.value.name else None,
                                        if row.Some? then row.value.short else None,
                                        if row.Some? then row.value.long else None)];
      }
      for i := 0 to |mcastGroups|
        invariant |children| == n + |ops| + i && children[..n] == old(children)
        invariant forall j :: 0 <= j < |ops| ==> children[n + j] == OpChildOf(overlay, ops[j])
        invariant forall j :: 0 <= j < i ==> children[n + |ops| + j] == McastChildOf(overlay, mcastGroups[j])
      {
        var row: Option<McastRow> := None;
        if overlay.Some? && mcastGroups[i].name.Some? { row := FindMcast(overlay.value.mcast, mcastGroups[i].name.value); }
        children := children + [McastChild(mcastGroups[i].id, mcastGroups[i].name,
                                           if row.Some? then row.value.short else None,
                                           if row.Some? then row.value.long else None)];
      }
    }
  }

  // ---------------------------------------------------------------------------------------------
  // End to end

  /** The place of the first row with this id. */
  function IndexOf(rows: seq<OpRow>, id: nat): (k: nat)
    ensures k <= |rows| && (forall m :: 0 <= m < k ==> rows[m].cmdId != id) && (k < |rows| ==> rows[k].cmdId == id)
  {
    if rows == [] || rows[0].cmdId == id then 0 else 1 + IndexOf(rows[1..], id)
  }

  /** How a kernel operation is to be shown, given the rows of both files in order: under the name of the
      first generated row of its id, described by the last curated row of that name if no earlier generated
      row has the name too, and by its own row otherwise; bare if no row has its id, or the id is 0. */
  function OpShown(rows: seq<OpRow>, k: KernelOp): Child {
    var gs := Generated(rows);
    var i := IndexOf(gs, k.id);
    if k.id == 0 || i == |gs| then OpChild(k.id, k.flags, None, None, None)
    else
      var c := LastCurated(rows, gs[i].name);
      var from := if c >= 0 && forall m :: 0 <= m < i ==> gs[m].name != gs[i].name then rows[c] else gs[i];
      OpChild(k.id, k.flags, gs[i].name, from.short, from.long)
  }

  /** A group is described by the first row of its kernel-assigned name. */
  function GroupShown(rows: seq<McastRow>, g: KernelMcast): Child {
    var row := if g.name.Some? then FirstMcast(rows, g.name.value) else None;
    if row.Some? then McastChild(g.id, g.name, row.value.short, row.value.long)
    else McastChild(g.id, g.name, None, None)
  }

  lemma {:induction false} GeneratedConcat(a: seq<OpRow>, b: seq<OpRow>)
    ensures Generated(a + b) == Generated(a) + Generated(b)
  {
    if a == [] {
      assert a + b == b;
    } else {
      assert (a + b)[1..] == a[1..] + b;
      GeneratedConcat(a[1..], b);
    }
  }

  lemma {:induction false} GeneratedFrom(rows: seq<OpRow>)
    ensures forall g :: g in Generated(rows) <==> g in rows && g.cmdId != 0
  {
    if rows != [] {
      GeneratedFrom(rows[1..]);
      assert rows == [rows[0]] + rows[1..];
    }
  }

  lemma {:induction false} IndexIs(rows: seq<OpRow>, id: nat, k: nat)
    requires k < |rows| && rows[k].cmdId == id && forall j :: 0 <= j < k ==> rows[j].cmdId != id
    ensures IndexOf(rows, id) == k
  {
    if k > 0 { IndexIs(rows[1..], id, k - 1); }
  }

  /** The rows with an id in front of the first row with this one. */
  lemma BeforeFirst(rows: seq<OpRow>, id: nat, i: nat, name: Option<string>)
    requires id != 0 && i < |rows| && rows[i].cmdId == id && forall j :: 0 <= j < i ==> rows[j].cmdId != id
    ensures var gs := Generated(rows); var k := IndexOf(gs, id);
      && k < |gs| && gs[k] == rows[i]
      && ((forall m :: 0 <= m < k ==> gs[m].name != name)
          <==> forall j :: 0 <= j < i && rows[j].cmdId != 0 ==> rows[j].name != name)
  {
    hide Generated, IndexOf;
    var pre, post := rows[..i], rows[i + 1..];
    var gs, before := Generated(rows), Generated(pre);
    assert rows == pre + ([rows[i]] + post);
    GeneratedConcat(pre, [rows[i]] + post);
    FirstKept(rows[i], post);
    GeneratedFrom(pre);
    assert forall m :: 0 <= m < |before| ==> gs[m] == before[m] && before[m] in before;
    assert forall j :: 0 <= j < i ==> rows[j] == pre[j] && pre[j] in pre;
    IndexIs(gs, id, |before|);
    if forall m :: 0 <= m < |before| ==> gs[m].name != name {
      forall j | 0 <= j < i && rows[j].cmdId != 0 ensures rows[j].name != name {
        assert rows[j] in before;
        var m :| 0 <= m < |before| && before[m] == rows[j];
      }
    }
  }

  lemma FirstKept(r: OpRow, post: seq<OpRow>)
    requires r.cmdId != 0
    ensures Generated([r] + post) == [r] + Generated(post)
  {
    assert ([r] + post)[1..] == post;
  }

  lemma {:induction false} LastCuratedIs(rows: seq<OpRow>, name: Option<string>, c: int)
    requires -1 <= c < |rows| && (c >= 0 ==> name.Some? && rows[c].cmdId == 0 && rows[c].name == name)
    requires forall d :: c < d < |rows| && rows[d].cmdId == 0 && name.Some? ==> rows[d].name != name
    ensures LastCurated(rows, name) == c
  {
    if name.Some? && c < |rows| - 1 { LastCuratedIs(rows[..|rows| - 1], name, c); }
  }

  /** The same by places: row `i` is the first with the id, and row `c`, if there is one, the last without an
      id that has the name of row `i`. */
  lemma OpShownIs(rows: seq<OpRow>, k: KernelOp, i: nat, c: int)
    requires k.id != 0 && i < |rows| && rows[i].cmdId == k.id && forall j :: 0 <= j < i ==> rows[j].cmdId != k.id
    requires -1 <= c < |rows| && (c >= 0 ==> rows[i].name.Some? && rows[c].cmdId == 0 && rows[c].name == rows[i].name)
    requires forall d :: c < d < |rows| && rows[d].cmdId == 0 && rows[i].name.Some? ==> rows[d].name != rows[i].name
    ensures var child, first := OpShown(rows, k), forall j :: 0 <= j < i && rows[j].cmdId != 0 ==> rows[j].name != rows[i].name;
      && child.OpChild? && child.id == k.id && child.flags == k.flags && child.name == rows[i].name
      && child.short == (if c >= 0 && first then rows[c].short else rows[i].short)
      && child.long == (if c >= 0 && first then rows[c].long else rows[i].long)
  {
    hide IndexOf;
    BeforeFirst(rows, k.id, i, rows[i].name);
    LastCuratedIs(rows, rows[i].name, c);
  }

  /** An operation without a row is bare, and a group is described by the first row of its name, if any. */
  lemma OthersShown(rows: seq<OpRow>, k: KernelOp, mcast: seq<McastRow>, g: KernelMcast)
    ensures k.id == 0 || (forall r :: r in rows ==> r.cmdId != k.id) ==>
      OpShown(rows, k) == OpChild(k.id, k.flags, None, None, None)
    ensures g.name == None || (forall r :: r in mcast ==> Some(r.name) != g.name) ==>
      GroupShown(mcast, g) == McastChild(g.id, g.name, None, None)
    ensures forall i :: 0 <= i < |mcast| && g.name == Some(mcast[i].name) && (forall j :: 0 <= j < i ==> mcast[j].name != mcast[i].name) ==>
      GroupShown(mcast, g) == McastChild(g.id, g.name, mcast[i].short, mcast[i].long)
  {
    GeneratedFrom(rows);
    forall i | 0 <= i < |mcast| && forall j :: 0 <= j < i ==> mcast[j].name != mcast[i].name
      ensures FirstMcast(mcast, mcast[i].name) == Some(mcast[i])
    {
      FirstMcastAt(mcast, i);
    }
  }

  lemma {:induction false} FirstMcastAt(rows: seq<McastRow>, i: nat)
    requires i < |rows| && forall j :: 0 <= j < i ==> rows[j].name != rows[i].name
    ensures FirstMcast(rows, rows[i].name) == Some(rows[i])
  {
    if i > 0 { FirstMcastAt(rows[1..], i - 1); }
  }

  lemma ShownAfterMerge(rows: seq<OpRow>, o: Overlay, k: KernelOp)
    requires o.ops == Merged(rows)
    ensures OpChildOf(Some(o), k) == OpShown(rows, k)
  {
    var gs, ms := Generated(rows), Merged(rows);
    var i := IndexOf(gs, k.id);
    if k.id == 0 {
      FirstAt(ms, 0, |ms|);
    } else {
      FirstAt(ms, k.id, i);
      if i < |gs| { assert ms[i] == Described(gs, rows, i); }
    }
  }

  /** In terms of all rows: the name is that of the first row with the id. */
  lemma ShownUnder(rows: seq<OpRow>, k: KernelOp)
    ensures var first := if k.id == 0 then None else FirstWithId(rows, k.id);
            var child := OpShown(rows, k);
            && OpName(child) == (if first.Some? && first.value.name.Some? && first.value.name.value != ""
                                 then first.value.name.value else "cmd-" + Decimal(k.id))
            && (first == None ==> child.short == None && child.long == None)
  {
    if k.id != 0 {
      var i := FirstIsGenerated(rows, k.id);
      assert i == IndexOf(Generated(rows), k.id);
    }
  }

  /** The documents of both files; nothing if one of them cannot be read, for then the family goes without
      an overlay. */
  function Docs(generated: Option<seq<Event>>, curated: Option<seq<Event>>): seq<Top> {
    if Unreadable(generated) || Unreadable(curated) then [] else DocsOf(generated) + DocsOf(curated)
  }

  lemma {:induction false} DocOpsConcat(ts: seq<Top>, us: seq<Top>)
    ensures DocOps(ts + us) == DocOps(ts) + DocOps(us) && DocMcasts(ts + us) == DocMcasts(ts) + DocMcasts(us)
  {
    hide TopOps, TopMcasts;
    if ts == [] {
      assert ts + us == us;
    } else {
      assert (ts + us)[1..] == ts[1..] + us;
      DocOpsConcat(ts[1..], us);
    }
  }

  /** The end of process_family_msg and the first browse of the family: the overlay of its two files, and
      the children made from what the kernel reported. */
  method ShowFamily(generated: Option<seq<Event>>, curated: Option<seq<Event>>,
                    ops: seq<KernelOp>, groups: seq<KernelMcast>)
    returns (children: seq<Child>, inBounds: bool)
    ensures inBounds <==> SetsFit(generated, curated)
    ensures |children| == |ops| + |groups|
    ensures inBounds ==> forall i :: 0 <= i < |ops| ==>
      children[i] == OpShown(DocOps(Docs(generated, curated)), ops[i])
    ensures inBounds ==> forall i :: 0 <= i < |groups| ==>
      children[|ops| + i] == GroupShown(DocMcasts(Docs(generated, curated)), groups[i])
  {
    hide ParseDoc, Merged, SetsFit, Load, OpShown, OpChildOf, GroupShown, McastChildOf, DocOps, DocMcasts, Unreadable;
    var r;
    r, inBounds := LoadOverlay(generated, curated);
    var overlay := if r.Loaded? then Some(r.overlay) else None;
    var docs := Docs(generated, curated);
    DocOpsConcat(DocsOf(generated), DocsOf(curated));
    if r.Loaded? && inBounds {
      LoadedMcasts(EMPTY_OVERLAY, docs);
      assert [] + DocMcasts(docs) == DocMcasts(docs);
    }
    if !r.Loaded? { NoRows(); }
    forall k ensures inBounds ==> OpChildOf(overlay, k) == OpShown(DocOps(docs), k) {
      if !r.Loaded? { ShownBare(k); } else if inBounds { ShownAfterMerge(DocOps(docs), r.overlay, k); }
    }
    forall g ensures inBounds ==> McastChildOf(overlay, g) == GroupShown(DocMcasts(docs), g) {
      if !r.Loaded? { BareGroup(g); } else if inBounds { GroupAfterMerge(r.overlay, g); }
    }
    var family := new GenlFamily(ops, groups, overlay);
    family.PopulateChildren();
    children := family.children;
  }

  lemma ShownBare(k: KernelOp)
    ensures OpChildOf(None, k) == OpShown([], k)
  {
  }

  lemma BareGroup(g: KernelMcast)
    ensures McastChildOf(None, g) == GroupShown([], g)
  {
  }

  lemma GroupAfterMerge(o: Overlay, g: KernelMcast)
    ensures McastChildOf(Some(o), g) == GroupShown(o.mcast, g)
  {
  }

  lemma NoRows()
    ensures DocOps([]) == [] && DocMcasts([]) == []
  {
  }

  // ---------------------------------------------------------------------------------------------
  // Names

  function ChildName(c: Child): string {
    match c
    case OpChild(_, _, _, _, _) => OpName(c)
    case McastChild(id, name, _, _) =>
      if name.Some? && name.value != "" then name.value else "group-" + Decimal(id)
  }

  predicate Unnamed(c: Child) {
    c.name == None || c.name == Some("")
  }

  /** An operation answers to cmd-<id> if and only if it has that id and no name from metadata, or metadata
      names it so; a named operation does not answer to its number beside its name. */
  lemma AnswersToNumber(c: Child, id: nat)
    requires c.OpChild?
    ensures ChildName(c) == "cmd-" + Decimal(id) <==> (Unnamed(c) && c.id == id) || c.name == Some("cmd-" + Decimal(id))
  {
    var a, b := "cmd-" + Decimal(c.id), "cmd-" + Decimal(id);
    assert a[4..] == Decimal(c.id) && b[4..] == Decimal(id);
    assert DigitsValue(Decimal(c.id)) == c.id && DigitsValue(Decimal(id)) == id;
  }

  /** The same for a group and group-<id>. */
  lemma GroupAnswersToNumber(c: Child, id: nat)
    requires c.McastChild?
    ensures ChildName(c) == "group-" + Decimal(id) <==> (Unnamed(c) && c.id == id) || c.name == Some("group-" + Decimal(id))
  {
    var a, b := "group-" + Decimal(c.id), "group-" + Decimal(id);
    assert a[6..] == Decimal(c.id) && b[6..] == Decimal(id);
    assert DigitsValue(Decimal(c.id)) == c.id && DigitsValue(Decimal(id)) == id;
  }

  /** find_child over the children of a family. */
  method FindChild(children: seq<Child>, name: string) returns (r: Option<nat>)
    ensures r == None <==> forall c :: c in children ==> ChildName(c) != name
    ensures r.Some? ==> r.value < |children| && ChildName(children[r.value]) == name
                        && forall j :: 0 <= j < r.value ==> ChildName(children[j]) != name
  {
    for i := 0 to |children|
      invariant forall j :: 0 <= j < i ==> ChildName(children[j]) != name
    {
      if ChildName(children[i]) == name { return Some(i); }
    }
    return None;
  }
}
