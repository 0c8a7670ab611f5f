/** merge_curated_into_generated and overlay_destroy, with C's memory in view: a string is an address,
    `Heap.live` says which addresses are allocated, and reading or freeing one demands that it is. */
module Merge {

  type Ptr = nat  // 0 is NULL

  class Heap {
    var live: map<Ptr, string>

    ghost predicate Valid()
      reads this
    {
      0 !in live
    }

    /** free */
    method Free(p: Ptr)
      requires Valid() && (p == 0 || p in live)
      modifies this
      ensures Valid() && live == old(live) - {p}
    {
      live := live - {p};
    }

    /** free, by an owner: whoever owned `p` is gone and every other owner stays. */
    method Release(p: Ptr, ghost rest: multiset<Ptr>)
      requires Valid() && multiset(live.Keys) == One(p) + rest
      modifies this
      ensures Valid() && live == old(live) - {p} && multiset(live.Keys) == rest
    {
      if p != 0 {
        assert p in multiset(live.Keys) by { assert p in One(p) + rest; }
      }
      FreeOne(live, p);
      assert rest + One(p) == One(p) + rest;
      Cancel(multiset((live - {p}).Keys), multiset{}, One(p), rest);
      Free(p);
    }

    /** strcmp(a, b) == 0 */
    method Same(a: Ptr, b: Ptr) returns (r: bool)
      requires a in live && b in live
      ensures r == (live[a] == live[b])
    {
      return live[a] == live[b];
    }
  }

  /** struct genl_op_overlay */
  datatype Row = Row(cmdId: nat, name: Ptr, short: Ptr, long: Ptr)

  // ---------------------------------------------------------------------------------------------
  // Ownership

  function One(p: Ptr): multiset<Ptr> {
    if p == 0 then multiset{} else multiset{p}
  }

  function RowOwns(r: Row): multiset<Ptr> {
    One(r.name) + One(r.short) + One(r.long)
  }

  function Owned(rows: seq<Row>): multiset<Ptr> {
    if rows == [] then multiset{} else RowOwns(rows[0]) + Owned(rows[1..])
  }

  /** Every allocated string has exactly one owner: a slot counted in `owned`, or someone else. */
  ghost predicate OneOwnerEach(live: map<Ptr, string>, owned: multiset<Ptr>, others: multiset<Ptr>) {
    multiset(live.Keys) == owned + others
  }

  lemma {:induction false} OwnedConcat(a: seq<Row>, b: seq<Row>)
    ensures Owned(a + b) == Owned(a) + Owned(b)
  {
    if a == [] {
      assert a + b == b;
    } else {
      assert (a + b)[1..] == a[1..] + b;
      OwnedConcat(a[1..], b);
    }
  }

  lemma OwnedNone()
    ensures Owned([]) == multiset{}
  {
  }

  lemma OwnedHead(rows: seq<Row>)
    requires rows != []
    ensures Owned(rows) == RowOwns(rows[0]) + Owned(rows[1..])
  {
  }

  lemma OwnedSplit(rows: seq<Row>, k: nat)
    requires k < |rows|
    ensures Owned(rows) == Owned(rows[..k]) + RowOwns(rows[k]) + Owned(rows[k + 1..])
  {
    hide RowOwns, Owned;
    OwnedConcat(rows[..k], rows[k..]);
    assert rows == rows[..k] + rows[k..];
    OwnedHead(rows[k..]);
    assert rows[k..][0] == rows[k] && rows[k..][1..] == rows[k + 1..];
    Regroup(Owned(rows[..k]), RowOwns(rows[k]), Owned(rows[k + 1..]));
  }

  lemma Regroup(a: multiset<Ptr>, b: multiset<Ptr>, c: multiset<Ptr>)
    ensures a + (b + c) == a + b + c
  {
  }

  lemma OwnedUpdate(rows: seq<Row>, k: nat, r: Row)
    requires k < |rows|
    ensures Owned(rows[k := r]) + RowOwns(rows[k]) == Owned(rows) + RowOwns(r)
  {
    hide RowOwns, Owned;
    OwnedSplit(rows, k);
    OwnedSplit(rows[k := r], k);
    assert rows[k := r][..k] == rows[..k] && rows[k := r][k + 1..] == rows[k + 1..];
  }

  lemma FreeOne(live: map<Ptr, string>, p: Ptr)
    requires 0 !in live && (p == 0 || p in live)
    ensures multiset((live - {p}).Keys) + One(p) == multiset(live.Keys)
  {
    assert (live - {p}).Keys == live.Keys - {p};
  }

  // ---------------------------------------------------------------------------------------------
  // The clean join.  `texts` is what the strings said when the merge began.

  predicate SameName(texts: map<Ptr, string>, a: Ptr, b: Ptr) {
    a != 0 && b != 0 && a in texts && b in texts && texts[a] == texts[b]
  }

  /** A generated row that a curated row with this name describes. */
  predicate Describes(texts: map<Ptr, string>, name: Ptr, row: Row) {
    row.cmdId != 0 && SameName(texts, row.name, name)
  }

  function Generated(rows: seq<Row>): (gs: seq<Row>)
    ensures forall g :: g in gs ==> g.cmdId != 0
  {
    if rows == [] then [] else (if rows[0].cmdId != 0 then [rows[0]] else []) + Generated(rows[1..])
  }

  /** The descriptions of the last curated row with this name. */
  function LastCurated(texts: map<Ptr, string>, rows: seq<Row>, name: Ptr): (r: int)
    ensures -1 <= r < |rows|
    ensures r >= 0 ==> rows[r].cmdId == 0 && SameName(texts, rows[r].name, name)
    ensures forall k :: r < k < |rows| ==> !(rows[k].cmdId == 0 && SameName(texts, rows[k].name, name))
  {
    if rows == [] then -1
    else
      var last := |rows| - 1;
      if rows[last].cmdId == 0 && SameName(texts, rows[last].name, name) then last
      else LastCurated(texts, rows[..last], name)
  }

  predicate FirstOfName(texts: map<Ptr, string>, gs: seq<Row>, k: nat)
    requires k < |gs|
  {
    forall m :: 0 <= m < k ==> !SameName(texts, gs[m].name, gs[k].name)
  }

  /** Row `k` of the join: id and name stay; the first row of a name takes the descriptions of the
      last curated row of that name. */
  function JoinedRow(texts: map<Ptr, string>, gs: seq<Row>, rows: seq<Row>, k: nat): Row
    requires k < |gs|
  {
    var c := LastCurated(texts, rows, gs[k].name);
    if c >= 0 && FirstOfName(texts, gs, k) then gs[k].(short := rows[c].short, long := rows[c].long) else gs[k]
  }

  function Join(texts: map<Ptr, string>, gs: seq<Row>, rows: seq<Row>): seq<Row> {
    seq(|gs|, k requires 0 <= k < |gs| => JoinedRow(texts, gs, rows, k))
  }

  // One curated row at a time: the first matching row takes its descriptions.

  function Take(row: Row, c: Row): Row {
    row.(short := c.short, long := c.long)
  }

  function Transfer(texts: map<Ptr, string>, rows: seq<Row>, c: Row): seq<Row>
    decreases rows
  {
    if rows == [] then []
    else if Describes(texts, c.name, rows[0]) then [Take(rows[0], c)] + rows[1..]
    else [rows[0]] + Transfer(texts, rows[1..], c)
  }

  lemma {:induction false} TransferFirst(texts: map<Ptr, string>, rows: seq<Row>, c: Row, j: nat)
    requires j <= |rows|
    requires forall k :: 0 <= k < j ==> !Describes(texts, c.name, rows[k])
    requires j < |rows| ==> Describes(texts, c.name, rows[j])
    ensures Transfer(texts, rows, c) == if j < |rows| then rows[j := Take(rows[j], c)] else rows
    decreases rows
  {
    if rows != [] && j > 0 {
      TransferFirst(texts, rows[1..], c, j - 1);
    }
  }

  lemma {:induction false} GeneratedConcat(a: seq<Row>, b: seq<Row>)
    ensures Generated(a + b) == Generated(a) + Generated(b)
  {
    if a == [] {
      assert a + b == b;
    } else {
      assert (a + b)[1..] == a[1..] + b;
      GeneratedConcat(a[1..], b);
    }
  }

  lemma {:induction false} GeneratedTransfer(texts: map<Ptr, string>, rows: seq<Row>, c: Row)
    ensures Generated(Transfer(texts, rows, c)) == Transfer(texts, Generated(rows), c)
  {
    if rows != [] {
      GeneratedTransfer(texts, rows[1..], c);
      var head, tail := rows[0], rows[1..];
      if Describes(texts, c.name, head) {
        GeneratedConcat([Take(head, c)], tail);
        assert Generated(rows) == [head] + Generated(tail);
        assert Generated(rows)[1..] == Generated(tail);
      } else if head.cmdId != 0 {
        GeneratedConcat([head], Transfer(texts, tail, c));
        assert Generated(rows)[1..] == Generated(tail);
      } else {
        GeneratedConcat([head], Transfer(texts, tail, c));
        assert Generated([head]) == [] && Generated(rows) == Generated(tail);
      }
    }
  }

  /** Row `k` after a transfer. */
  lemma {:induction false} TransferAt(texts: map<Ptr, string>, rows: seq<Row>, c: Row, k: nat)
    requires k < |rows|
    ensures k < |Transfer(texts, rows, c)|
    ensures Transfer(texts, rows, c)[k]
         == if Describes(texts, c.name, rows[k]) && (forall m :: 0 <= m < k ==> !Describes(texts, c.name, rows[m]))
            then Take(rows[k], c) else rows[k]
    decreases rows
  {
    if !Describes(texts, c.name, rows[0]) && |rows| > 1 {
      TransferAt(texts, rows[1..], c, if k == 0 then 0 else k - 1);
      forall m | 0 <= m < k - 1 ensures rows[1..][m] == rows[m + 1] {}
      if forall m :: 0 <= m < k - 1 ==> !Describes(texts, c.name, rows[1..][m]) {
        forall m | 0 <= m < k ensures !Describes(texts, c.name, rows[m]) {
          if m > 0 { assert rows[m] == rows[1..][m - 1]; }
        }
      }
    }
  }

  lemma LastCuratedStep(texts: map<Ptr, string>, rows: seq<Row>, c: Row, name: Ptr)
    ensures LastCurated(texts, rows + [c], name)
         == if c.cmdId == 0 && SameName(texts, c.name, name) then |rows| else LastCurated(texts, rows, name)
  {
    assert (rows + [c])[..|rows|] == rows;
  }

  lemma JoinStepAt(texts: map<Ptr, string>, gs: seq<Row>, rows: seq<Row>, c: Row, k: nat)
    requires k < |gs| && c.cmdId == 0 && forall g :: g in gs ==> g.cmdId != 0
    ensures k < |Transfer(texts, Join(texts, gs, rows), c)|
    ensures Join(texts, gs, rows + [c])[k] == Transfer(texts, Join(texts, gs, rows), c)[k]
  {
    var before := Join(texts, gs, rows);
    hide LastCurated, Transfer;
    LastCuratedStep(texts, rows, c, gs[k].name);
    TransferAt(texts, before, c, k);
    assert forall m :: 0 <= m <= k ==> before[m].name == gs[m].name && before[m].cmdId == gs[m].cmdId;
    assert Describes(texts, c.name, before[k]) <==> SameName(texts, c.name, gs[k].name);
    if Describes(texts, c.name, before[k]) {
      assert FirstOfName(texts, gs, k) <==> forall m :: 0 <= m < k ==> !Describes(texts, c.name, before[m]);
    }
  }

  /** Taking one more row into account moves the join forward by one transfer. */
  lemma JoinStep(texts: map<Ptr, string>, gs: seq<Row>, rows: seq<Row>, c: Row)
    requires forall g :: g in gs ==> g.cmdId != 0
    ensures Join(texts, gs, rows + [c])
         == if c.cmdId == 0 then Transfer(texts, Join(texts, gs, rows), c) else Join(texts, gs, rows)
  {
    hide Transfer, LastCurated, JoinedRow;
    var before, after := Join(texts, gs, rows), Join(texts, gs, rows + [c]);
    TransferSize(texts, before, c);
    forall k | 0 <= k < |gs|
      ensures after[k] == if c.cmdId == 0 then Transfer(texts, before, c)[k] else before[k]
    {
      if c.cmdId == 0 {
        JoinStepAt(texts, gs, rows, c, k);
      } else {
        JoinSame(texts, gs, rows, c, k);
      }
    }
  }

  lemma {:induction false} TransferSize(texts: map<Ptr, string>, rows: seq<Row>, c: Row)
    ensures |Transfer(texts, rows, c)| == |rows|
    decreases rows
  {
    if rows != [] { TransferSize(texts, rows[1..], c); }
  }

  lemma JoinSame(texts: map<Ptr, string>, gs: seq<Row>, rows: seq<Row>, c: Row, k: nat)
    requires k < |gs| && c.cmdId != 0
    ensures JoinedRow(texts, gs, rows + [c], k) == JoinedRow(texts, gs, rows, k)
  {
    LastCuratedStep(texts, rows, c, gs[k].name);
  }

  lemma GeneratedDrop(rows: seq<Row>, k: nat)
    requires k < |rows| && rows[k].cmdId == 0
    ensures Generated(rows[..k] + rows[k + 1..]) == Generated(rows)
  {
    var tail := rows[k..];
    assert Generated(tail) == Generated(rows[k + 1..]) by { assert tail[1..] == rows[k + 1..]; }
    assert rows == rows[..k] + tail;
    hide Generated;
    GeneratedConcat(rows[..k], tail);
    GeneratedConcat(rows[..k], rows[k + 1..]);
  }

  lemma OwnedMember(rows: seq<Row>, k: nat)
    requires k < |rows|
    ensures RowOwns(rows[k]) <= Owned(rows)
  {
    OwnedSplit(rows, k);
  }

  /** What changes hands when curated row `k` meets generated row `x`: the generated row gives up its
      old descriptions for the curated ones, and the rest of the curated row goes. */
  lemma OwnedAfterMatch(rows: seq<Row>, x: nat, k: nat)
    requires x < |rows| && k < |rows| && x != k
    ensures var moved := rows[x := Take(rows[x], rows[k])];
            Owned(moved[..k] + moved[k + 1..]) + (One(rows[x].short) + One(rows[x].long) + One(rows[k].name))
            == Owned(rows)
  {
    hide Owned, One;
    var t := Take(rows[x], rows[k]);
    var moved := rows[x := t];
    OwnedUpdate(rows, x, t);
    OwnedSplit(moved, k);
    OwnedConcat(moved[..k], moved[k + 1..]);
    Cancel(Owned(moved[..k] + moved[k + 1..]), One(rows[x].short) + One(rows[x].long) + One(rows[k].name),
           One(rows[x].name) + One(rows[k].short) + One(rows[k].long), Owned(rows));
  }

  lemma Cancel(a: multiset<Ptr>, b: multiset<Ptr>, c: multiset<Ptr>, d: multiset<Ptr>)
    requires a + b + c == d + c
    ensures a + b == d
  {
    forall p: Ptr ensures (a + b)[p] == d[p] {
      assert (a + b + c)[p] == (d + c)[p];
    }
  }

  lemma OwnedAfterDrop(rows: seq<Row>, k: nat)
    requires k < |rows|
    ensures Owned(rows[..k] + rows[k + 1..]) + RowOwns(rows[k]) == Owned(rows)
  {
    OwnedSplit(rows, k);
    OwnedConcat(rows[..k], rows[k + 1..]);
  }

  // ---------------------------------------------------------------------------------------------
  // The array while the merge runs: `d` is its contents, rows [0, kept) are done, rows from `i` on are
  // still to come, and what lies between is stale.

  ghost function LiveRows(d: seq<Row>, kept: nat, i: nat): seq<Row>
    requires kept <= i <= |d|
  {
    d[..kept] + d[i..]
  }

  /** A stale row is a curated row that is gone, or a copy of a kept row with the same name. */
  ghost predicate Stale(d: seq<Row>, kept: nat, k: nat)
    requires kept <= k < |d|
  {
    d[k].cmdId == 0 || exists m :: 0 <= m < kept && d[m].name == d[k].name
  }

  ghost predicate Shape(d: seq<Row>, rows: seq<Row>, kept: nat, i: nat) {
    && kept <= i <= |d| == |rows|
    && (forall k :: 0 <= k < kept ==> d[k].cmdId != 0)
    && (forall k :: kept <= k < i ==> Stale(d, kept, k))
    && (forall k :: i <= k < |d| ==> d[k].cmdId == rows[k].cmdId && (d[k].cmdId == 0 ==> d[k] == rows[k]))
  }

  ghost predicate Memory(live: map<Ptr, string>, texts: map<Ptr, string>, owned: multiset<Ptr>, others: multiset<Ptr>) {
    && 0 !in live && OneOwnerEach(live, owned, others)
    && live.Keys <= texts.Keys && forall p :: p in live ==> live[p] == texts[p]
  }

  predicate Points(r: Row, p: Ptr) {
    p != 0 && (r.name == p || r.short == p || r.long == p)
  }

  /** A row owns what it points at, and nothing is owned that no row points at. */
  lemma OwnsWhatItPointsAt(rows: seq<Row>, k: nat, p: Ptr)
    requires k < |rows| && Points(rows[k], p)
    ensures p in Owned(rows)
  {
    hide Owned;
    OwnedMember(rows, k);
    assert p in RowOwns(rows[k]);
  }

  lemma RowPoints(r: Row, p: Ptr)
    ensures p in RowOwns(r) <==> Points(r, p)
  {
  }

  lemma {:induction false} PointedAt(rows: seq<Row>, p: Ptr) returns (k: nat)
    requires p in Owned(rows)
    ensures k < |rows| && Points(rows[k], p)
  {
    hide Owned, RowOwns, Points;
    OwnedNone();
    OwnedHead(rows);
    RowPoints(rows[0], p);
    if p in RowOwns(rows[0]) {
      k := 0;
    } else {
      k := PointedAt(rows[1..], p);
      k := k + 1;
    }
  }

  /** Every string of a row is allocated and says what it said, and nothing else is allocated but what belongs
      to others. */
  lemma Owners(live: map<Ptr, string>, texts: map<Ptr, string>, rows: seq<Row>, others: multiset<Ptr>)
    requires Memory(live, texts, Owned(rows), others)
    ensures forall k, p :: 0 <= k < |rows| && Points(rows[k], p) ==> p in live && p in texts && live[p] == texts[p]
    ensures forall p :: p in live ==> p in others || exists k :: 0 <= k < |rows| && Points(rows[k], p)
  {
    hide Owned, Points;
    forall p ensures p in live <==> p in Owned(rows) || p in others {
      assert p in live <==> p in multiset(live.Keys);
    }
    forall k, p | 0 <= k < |rows| && Points(rows[k], p) ensures p in live { OwnsWhatItPointsAt(rows, k, p); }
    forall p | p in live ensures p in others || exists k :: 0 <= k < |rows| && Points(rows[k], p) {
      if p in Owned(rows) { var k := PointedAt(rows, p); }
    }
  }

  /** The places of the rows with an id, in order, and no other. */
  lemma {:induction false} Places(rows: seq<Row>) returns (at: seq<nat>)
    ensures |at| == |Generated(rows)| && (forall k :: 0 <= k < |at| ==> at[k] < |rows| && rows[at[k]] == Generated(rows)[k])
    ensures forall j, k :: 0 <= j < k < |at| ==> at[j] < at[k]
    ensures forall i :: 0 <= i < |rows| && rows[i].cmdId != 0 ==> i in at
    decreases |rows|
  {
    hide Generated;
    if rows == [] {
      at := [];
      GeneratedOne(Row(0, 0, 0, 0));
    } else {
      var n := |rows| - 1;
      var pre, r := rows[..n], rows[n];
      assert rows == pre + [r];
      at := Places(pre);
      GeneratedConcat(pre, [r]);
      GeneratedOne(r);
      if r.cmdId != 0 { at := at + [n]; }
    }
  }

  lemma GeneratedOne(r: Row)
    ensures Generated([]) == [] && Generated([r]) == if r.cmdId != 0 then [r] else []
  {
    assert [r][1..] == [];
  }

  /** The `k`-th row of the join in terms of the rows: it is the `k`-th row with an id, and if no row with an
      id before it has its name it is described by the last row `c` without an id that has the name. */
  lemma JoinIs(texts: map<Ptr, string>, rows: seq<Row>, at: seq<nat>, k: nat) returns (c: int)
    requires |at| == |Generated(rows)| && (forall j :: 0 <= j < |at| ==> at[j] < |rows| && rows[at[j]] == Generated(rows)[j])
    requires k < |at|
    ensures |Join(texts, Generated(rows), rows)| == |at|
    ensures -1 <= c < |rows| && (c >= 0 ==> rows[c].cmdId == 0 && SameName(texts, rows[c].name, rows[at[k]].name))
    ensures forall d :: c < d < |rows| ==> !(rows[d].cmdId == 0 && SameName(texts, rows[d].name, rows[at[k]].name))
    ensures Join(texts, Generated(rows), rows)[k]
         == if c >= 0 && (forall j :: 0 <= j < k ==> !SameName(texts, rows[at[j]].name, rows[at[k]].name))
            then rows[at[k]].(short := rows[c].short, long := rows[c].long) else rows[at[k]]
  {
    hide SameName, Generated;
    c := LastCurated(texts, rows, rows[at[k]].name);
    assert forall j :: 0 <= j < k ==> Generated(rows)[j] == rows[at[j]];
  }

  /** What holds when the merge of `rows` has come to row `i`. */
  ghost predicate Merging(d: seq<Row>, live: map<Ptr, string>, texts: map<Ptr, string>, rows: seq<Row>, others: multiset<Ptr>,
                          kept: nat, i: nat)
  {
    && Shape(d, rows, kept, i)
    && Generated(LiveRows(d, kept, i)) == Join(texts, Generated(rows), rows[..i])
    && Memory(live, texts, Owned(LiveRows(d, kept, i)), others)
  }

  lemma MergeBegins(live: map<Ptr, string>, rows: seq<Row>, others: multiset<Ptr>)
    requires 0 !in live && OneOwnerEach(live, Owned(rows), others)
    ensures Merging(rows, live, live, rows, others, 0, 0)
  {
    assert LiveRows(rows, 0, 0) == rows;
    assert Join(live, Generated(rows), []) == Generated(rows);
  }

  lemma MergeEnds(d: seq<Row>, live: map<Ptr, string>, texts: map<Ptr, string>, rows: seq<Row>, others: multiset<Ptr>, kept: nat)
    requires Merging(d, live, texts, rows, others, kept, |d|)
    ensures d[..kept] == Join(texts, Generated(rows), rows) && Memory(live, texts, Owned(d[..kept]), others)
  {
    assert rows[..|rows|] == rows && LiveRows(d, kept, |d|) == d[..kept];
    AllGenerated(d[..kept]);
  }

  lemma {:induction false} AllGenerated(rows: seq<Row>)
    requires forall r :: r in rows ==> r.cmdId != 0
    ensures Generated(rows) == rows
  {
    if rows != [] { AllGenerated(rows[1..]); }
  }

  /** A generated row moves down to the end of the kept rows. */
  lemma KeepStep(d: seq<Row>, live: map<Ptr, string>, texts: map<Ptr, string>, rows: seq<Row>, others: multiset<Ptr>, kept: nat, i: nat)
    requires Merging(d, live, texts, rows, others, kept, i) && i < |d| && d[i].cmdId != 0
    ensures Merging(d[kept := d[i]], live, texts, rows, others, kept + 1, i + 1)
  {
    hide Generated, Join, Owned, OneOwnerEach;
    var e, next := d[kept := d[i]], kept + 1;
    assert LiveRows(e, next, i + 1) == LiveRows(d, kept, i);
    GeneratedOnly(rows);
    JoinStep(texts, Generated(rows), rows[..i], rows[i]);
    assert rows[..i] + [rows[i]] == rows[..i + 1];
    forall k | next <= k < i + 1 ensures Stale(e, next, k) {
      if k == i {
        assert e[kept].name == e[k].name;
      } else if e[k].cmdId != 0 {
        assert Stale(d, kept, k);
        var m :| 0 <= m < kept && d[m].name == d[k].name;
        assert e[m].name == e[k].name;
      }
    }
  }

  lemma GeneratedOnly(rows: seq<Row>)
    ensures forall g :: g in Generated(rows) ==> g.cmdId != 0
  {
  }

  /** Only names and ids, and the rows still to come, matter for the shape. */
  lemma ShapeKept(d: seq<Row>, e: seq<Row>, rows: seq<Row>, kept: nat, i: nat)
    requires Shape(d, rows, kept, i) && i < |d| && d[i].cmdId == 0 && |e| == |d|
    requires forall k :: 0 <= k < |d| ==> e[k].cmdId == d[k].cmdId && e[k].name == d[k].name
    requires forall k :: i < k < |d| && d[k].cmdId == 0 ==> e[k] == d[k]
    ensures Shape(e, rows, kept, i + 1)
  {
    forall k | kept <= k < i + 1 ensures Stale(e, kept, k) {
      if k < i && d[k].cmdId != 0 {
        assert Stale(d, kept, k);
        var m :| 0 <= m < kept && d[m].name == d[k].name;
        assert e[m].name == e[k].name;
      }
    }
  }

  lemma LiveAt(d: seq<Row>, kept: nat, i: nat, j: nat)
    requires kept <= i <= |d| && j < |d| && (j < kept || i <= j)
    ensures LiveRows(d, kept, i)[if j < kept then j else kept + (j - i)] == d[j]
  {
  }

  /** The join after curated row `i`: its transfer is made and the row itself is dropped. */
  lemma Absorbed(texts: map<Ptr, string>, rows: seq<Row>, i: nat, live: seq<Row>, kept: nat, after: seq<Row>)
    requires i < |rows| && kept < |live| && live[kept] == rows[i] && rows[i].cmdId == 0
    requires Generated(live) == Join(texts, Generated(rows), rows[..i])
    requires after == Transfer(texts, live, rows[i]) && |after| == |live| && after[kept].cmdId == 0
    ensures Generated(after[..kept] + after[kept + 1..]) == Join(texts, Generated(rows), rows[..i + 1])
  {
    hide Generated, Transfer, Join;
    assert rows[..i] + [rows[i]] == rows[..i + 1];
    GeneratedOnly(rows);
    JoinStep(texts, Generated(rows), rows[..i], rows[i]);
    GeneratedTransfer(texts, live, rows[i]);
    GeneratedDrop(after, kept);
  }

  /** The array after the descriptions of row `i` have gone to row `j`. */
  function Moved(d: seq<Row>, i: nat, j: nat): seq<Row>
    requires i < |d| && j < |d|
  {
    d[j := Take(d[j], d[i])][i := d[i].(short := 0, long := 0)]
  }

  lemma MovedLive(d: seq<Row>, kept: nat, i: nat, j: nat)
    requires kept <= i < |d| && j < |d| && (j < kept || i < j)
    ensures var x := if j < kept then j else kept + (j - i);
            var after := LiveRows(d, kept, i)[x := Take(d[j], d[i])];
            LiveRows(Moved(d, i, j), kept, i + 1) == after[..kept] + after[kept + 1..]
  {
  }

  /** Row `i` met its generated row `j`: what must be freed so that everything left has one owner. */
  lemma MatchStep(d: seq<Row>, live: map<Ptr, string>, texts: map<Ptr, string>, rows: seq<Row>, others: multiset<Ptr>,
                  kept: nat, i: nat, j: nat)
    requires Merging(d, live, texts, rows, others, kept, i) && i < |d| && d[i].cmdId == 0
    requires j < |d| && (j < kept || i < j) && Describes(texts, d[i].name, d[j])
    requires forall k :: 0 <= k < j ==> !Describes(texts, d[i].name, d[k])
    ensures var e := Moved(d, i, j);
            && Shape(e, rows, kept, i + 1)
            && Generated(LiveRows(e, kept, i + 1)) == Join(texts, Generated(rows), rows[..i + 1])
            && multiset(live.Keys) == One(d[j].short) + (One(d[j].long) + (One(d[i].name)
                                      + (Owned(LiveRows(e, kept, i + 1)) + others)))
  {
    hide Generated, Join, Owned, Transfer, One;
    var rest := LiveRows(d, kept, i);
    var x := if j < kept then j else kept + (j - i);
    var after := rest[x := Take(rest[x], d[i])];
    LiveAt(d, kept, i, j);
    LiveAt(d, kept, i, i);
    forall k | 0 <= k < x ensures !Describes(texts, d[i].name, rest[k]) {
      LiveAt(d, kept, i, if k < kept then k else i + (k - kept));
    }
    TransferFirst(texts, rest, d[i], x);
    Absorbed(texts, rows, i, rest, kept, after);
    OwnedAfterMatch(rest, x, kept);
    MovedLive(d, kept, i, j);
    ShapeKept(d, Moved(d, i, j), rows, kept, i);
  }

  lemma DropStep(d: seq<Row>, live: map<Ptr, string>, texts: map<Ptr, string>, rows: seq<Row>, others: multiset<Ptr>,
                 kept: nat, i: nat)
    requires Merging(d, live, texts, rows, others, kept, i) && i < |d| && d[i].cmdId == 0
    requires forall k :: 0 <= k < |d| ==> !Describes(texts, d[i].name, d[k])
    ensures Shape(d, rows, kept, i + 1)
    ensures Generated(LiveRows(d, kept, i + 1)) == Join(texts, Generated(rows), rows[..i + 1])
    ensures multiset(live.Keys) == One(d[i].name) + (One(d[i].short) + (One(d[i].long)
                                   + (Owned(LiveRows(d, kept, i + 1)) + others)))
  {
    hide Generated, Join, Owned, Transfer, One;
    var rest := LiveRows(d, kept, i);
    LiveAt(d, kept, i, i);
    forall k | 0 <= k < |rest| ensures !Describes(texts, d[i].name, rest[k]) {
      LiveAt(d, kept, i, if k < kept then k else i + (k - kept));
    }
    TransferFirst(texts, rest, d[i], |rest|);
    Absorbed(texts, rows, i, rest, kept, rest);
    OwnedAfterDrop(rest, kept);
    assert LiveRows(d, kept, i + 1) == rest[..kept] + rest[kept + 1..];
    ShapeKept(d, d, rows, kept, i);
  }

  /** The names the search compares are allocated: its own, and those of every generated row it meets,
      stale copies included. */
  lemma NameLive(d: seq<Row>, live: map<Ptr, string>, texts: map<Ptr, string>, rows: seq<Row>, others: multiset<Ptr>,
                 kept: nat, i: nat, j: nat)
    requires Merging(d, live, texts, rows, others, kept, i) && i < |d| && j < |d|
    requires (j == i || d[j].cmdId != 0) && d[j].name != 0
    ensures d[j].name in live && d[j].name in texts && live[d[j].name] == texts[d[j].name]
  {
    var m := j;
    if kept <= j < i {
      assert Stale(d, kept, j);
      m :| 0 <= m < kept && d[m].name == d[j].name;
    }
    LiveAt(d, kept, i, m);
    OwnedMember(LiveRows(d, kept, i), if m < kept then m else kept + (m - i));
    assert d[m].name in One(d[m].name);
    assert d[m].name in multiset(live.Keys);
  }

  // ---------------------------------------------------------------------------------------------
  // The overlay, its in-place merge and its destruction

  datatype Mcast = Mcast(name: Ptr, short: Ptr, long: Ptr)
  datatype AttrRow = AttrRow(id: nat, name: Ptr, hint: Ptr)
  datatype SetRow = SetRow(name: Ptr, attrs: seq<AttrRow>)

  function McastOwned(ms: seq<Mcast>): multiset<Ptr> {
    if ms == [] then multiset{} else One(ms[0].name) + (One(ms[0].short) + (One(ms[0].long) + McastOwned(ms[1..])))
  }

  function AttrsOwned(attrs: seq<AttrRow>): multiset<Ptr> {
    if attrs == [] then multiset{} else One(attrs[0].name) + (One(attrs[0].hint) + AttrsOwned(attrs[1..]))
  }

  function SetsOwned(sets: seq<SetRow>): multiset<Ptr> {
    if sets == [] then multiset{} else One(sets[0].name) + (AttrsOwned(sets[0].attrs) + SetsOwned(sets[1..]))
  }

  class Overlay {
    const ops: array<Row>
    var opCount: nat
    var familyName: Ptr
    var shortDesc: Ptr
    var longDesc: Ptr
    var mcast: seq<Mcast>
    var attrSets: seq<SetRow>

    constructor (ops: array<Row>, familyName: Ptr, shortDesc: Ptr, longDesc: Ptr, mcast: seq<Mcast>, attrSets: seq<SetRow>)
      ensures this.ops == ops && opCount == ops.Length && this.familyName == familyName && this.shortDesc == shortDesc
      ensures this.longDesc == longDesc && this.mcast == mcast && this.attrSets == attrSets
    {
      this.ops, opCount := ops, ops.Length;
      this.familyName, this.shortDesc, this.longDesc := familyName, shortDesc, longDesc;
      this.mcast, this.attrSets := mcast, attrSets;
    }

    /** The strings owned outside the operation rows. */
    ghost function Rest(): multiset<Ptr>
      reads this
    {
      One(familyName) + (One(shortDesc) + (One(longDesc) + (McastOwned(mcast) + SetsOwned(attrSets))))
    }

    /** overlay_destroy: every string the overlay owns is freed, once, and nobody else's is. */
    method Destroy(heap: Heap, ghost others: multiset<Ptr>)
      requires heap.Valid() && opCount <= ops.Length
      requires multiset(heap.live.Keys) == Owned(ops[..opCount]) + (Rest() + others)
      modifies heap
      ensures heap.Valid() && multiset(heap.live.Keys) == others
    {
      hide One, RowOwns, McastOwned, AttrsOwned, SetsOwned;
      ghost var rest := McastOwned(mcast) + (SetsOwned(attrSets) + others);
      ghost var rows := Owned(ops[..opCount]);
      assert rows + (Rest() + others) == One(familyName) + (One(shortDesc) + (One(longDesc) + (rows + rest)));
      heap.Release(familyName, One(shortDesc) + (One(longDesc) + (rows + rest)));
      heap.Release(shortDesc, One(longDesc) + (rows + rest));
      heap.Release(longDesc, rows + rest);
      DestroyOps(heap, rest);
      DestroyMcast(heap, SetsOwned(attrSets) + others);
      DestroySets(heap, others);
    }

    method DestroyOps(heap: Heap, ghost rest: multiset<Ptr>)
      requires heap.Valid() && opCount <= ops.Length && multiset(heap.live.Keys) == Owned(ops[..opCount]) + rest
      modifies heap
      ensures heap.Valid() && multiset(heap.live.Keys) == rest
    {
      hide One, Owned;
      for i := 0 to opCount
        invariant heap.Valid() && multiset(heap.live.Keys) == Owned(ops[i..opCount]) + rest
      {
        assert ops[i..opCount][0] == ops[i] && ops[i..opCount][1..] == ops[i + 1..opCount];
        ghost var later := Owned(ops[i + 1..opCount]) + rest;
        RowParts(ops[i..opCount], rest);
        heap.Release(ops[i].name, One(ops[i].short) + (One(ops[i].long) + later));
        heap.Release(ops[i].short, One(ops[i].long) + later);
        heap.Release(ops[i].long, later);
      }
      OwnedNone();
    }

    method DestroyMcast(heap: Heap, ghost rest: multiset<Ptr>)
      requires heap.Valid() && multiset(heap.live.Keys) == McastOwned(mcast) + rest
      modifies heap
      ensures heap.Valid() && multiset(heap.live.Keys) == rest
    {
      for i := 0 to |mcast|
        invariant heap.Valid() && multiset(heap.live.Keys) == McastOwned(mcast[i..]) + rest
      {
        hide One, McastOwned;
        var m := mcast[i];
        assert mcast[i..][0] == m && mcast[i..][1..] == mcast[i + 1..];
        ghost var later := McastOwned(mcast[i + 1..]) + rest;
        McastParts(mcast[i..], rest);
        heap.Release(m.name, One(m.short) + (One(m.long) + later));
        heap.Release(m.short, One(m.long) + later);
        heap.Release(m.long, later);
      }
    }

    method DestroySets(heap: Heap, ghost rest: multiset<Ptr>)
      requires heap.Valid() && multiset(heap.live.Keys) == SetsOwned(attrSets) + rest
      modifies heap
      ensures heap.Valid() && multiset(heap.live.Keys) == rest
    {
      for i := 0 to |attrSets|
        invariant heap.Valid() && multiset(heap.live.Keys) == SetsOwned(attrSets[i..]) + rest
      {
        hide One, AttrsOwned;
        var s := attrSets[i];
        assert attrSets[i..][0] == s && attrSets[i..][1..] == attrSets[i + 1..];
        ghost var later := SetsOwned(attrSets[i + 1..]) + rest;
        heap.Release(s.name, AttrsOwned(s.attrs) + later);
        DestroyAttrs(heap, s.attrs, later);
      }
    }

    method DestroyAttrs(heap: Heap, attrs: seq<AttrRow>, ghost rest: multiset<Ptr>)
      requires heap.Valid() && multiset(heap.live.Keys) == AttrsOwned(attrs) + rest
      modifies heap
      ensures heap.Valid() && multiset(heap.live.Keys) == rest
    {
      for j := 0 to |attrs|
        invariant heap.Valid() && multiset(heap.live.Keys) == AttrsOwned(attrs[j..]) + rest
      {
        hide One;
        var a := attrs[j];
        assert attrs[j..][0] == a && attrs[j..][1..] == attrs[j + 1..];
        ghost var later := AttrsOwned(attrs[j + 1..]) + rest;
        heap.Release(a.name, One(a.hint) + later);
        heap.Release(a.hint, later);
      }
    }

    lemma McastParts(ms: seq<Mcast>, rest: multiset<Ptr>)
      requires ms != []
      ensures McastOwned(ms) + rest == One(ms[0].name) + (One(ms[0].short) + (One(ms[0].long) + (McastOwned(ms[1..]) + rest)))
    {
    }

    lemma RowParts(rows: seq<Row>, rest: multiset<Ptr>)
      requires rows != []
      ensures Owned(rows) + rest == One(rows[0].name) + (One(rows[0].short) + (One(rows[0].long) + (Owned(rows[1..]) + rest)))
    {
    }

    /** merge_curated_into_generated.  `JoinIs` and `Owners` say what this means for the rows and strings. */
    method MergeCurated(heap: Heap, ghost others: multiset<Ptr>)
      requires opCount == ops.Length && heap.Valid() && OneOwnerEach(heap.live, Owned(ops[..]), others)
      modifies this`opCount, ops, heap
      ensures heap.Valid() && opCount <= ops.Length
      ensures ops[..opCount] == Join(old(heap.live), Generated(old(ops[..])), old(ops[..]))
      ensures Memory(heap.live, old(heap.live), Owned(ops[..opCount]), others)
    {
      ghost var texts, rows := heap.live, ops[..];
      hide Merging, OneOwnerEach, Join, Owned, Generated;
      MergeBegins(heap.live, rows, others);
      var kept := MergeRows(heap, texts, rows, others);
      MergeEnds(ops[..], heap.live, texts, rows, others, kept);
      opCount := kept;
    }

    method MergeRows(heap: Heap, ghost texts: map<Ptr, string>, ghost rows: seq<Row>, ghost others: multiset<Ptr>) returns (kept: nat)
      requires opCount == ops.Length && heap.Valid() && Merging(ops[..], heap.live, texts, rows, others, 0, 0)
      modifies ops, heap
      ensures kept <= ops.Length && heap.Valid() && Merging(ops[..], heap.live, texts, rows, others, kept, ops.Length)
    {
      hide Merging;
      kept := 0;
      for i := 0 to opCount
        invariant kept <= i && heap.Valid() && Merging(ops[..], heap.live, texts, rows, others, kept, i)
      {
        if ops[i].cmdId != 0 {
          KeepStep(ops[..], heap.live, texts, rows, others, kept, i);
          ghost var d := ops[..];
          if kept != i { ops[kept] := ops[i]; }
          assert ops[..] == d[kept := d[i]];
          kept := kept + 1;
        } else {
          AbsorbRow(heap, texts, rows, others, kept, i);
        }
      }
    }

    /** The inner loop: the first generated row with the name of row `i`, or opCount.  The search runs
        over the whole array but never stops at a stale row. */
    method FindGenerated(heap: Heap, ghost texts: map<Ptr, string>, ghost rows: seq<Row>, ghost others: multiset<Ptr>, ghost kept: nat, i: nat)
      returns (j: nat)
      requires opCount == ops.Length && i < opCount && ops[i].cmdId == 0
      requires Merging(ops[..], heap.live, texts, rows, others, kept, i)
      ensures j <= opCount && (j < opCount ==> Describes(texts, ops[i].name, ops[j]))
      ensures j < kept || i < j
      ensures forall k :: 0 <= k < j ==> !Describes(texts, ops[i].name, ops[k])
    {
      hide Generated, Join, Owned, OneOwnerEach;
      j := 0;
      while j < opCount
        invariant j <= opCount && forall k :: 0 <= k < j ==> !Describes(texts, ops[i].name, ops[k])
      {
        if j != i && ops[j].cmdId != 0 && ops[j].name != 0 && ops[i].name != 0 {
          NameLive(ops[..], heap.live, texts, rows, others, kept, i, j);
          NameLive(ops[..], heap.live, texts, rows, others, kept, i, i);
          var same := heap.Same(ops[j].name, ops[i].name);
          if same {
            if kept <= j < i {
              assert Stale(ops[..], kept, j);
              var m :| 0 <= m < kept && ops[m].name == ops[j].name;
              assert Describes(texts, ops[i].name, ops[m]);
            }
            return;
          }
        }
        j := j + 1;
      }
    }

    /** A curated row hands its descriptions to the first generated row of its name and is freed. */
    method AbsorbRow(heap: Heap, ghost texts: map<Ptr, string>, ghost rows: seq<Row>, ghost others: multiset<Ptr>, ghost kept: nat, i: nat)
      requires opCount == ops.Length && heap.Valid() && kept <= i < opCount && ops[i].cmdId == 0
      requires Merging(ops[..], heap.live, texts, rows, others, kept, i)
      modifies ops, heap
      ensures heap.Valid() && Merging(ops[..], heap.live, texts, rows, others, kept, i + 1)
    {
      hide Merging;
      var j := FindGenerated(heap, texts, rows, others, kept, i);
      if j < opCount {
        MatchRow(heap, texts, rows, others, kept, i, j);
      } else {
        DropRow(heap, texts, rows, others, kept, i);
      }
    }

    method MatchRow(heap: Heap, ghost texts: map<Ptr, string>, ghost rows: seq<Row>, ghost others: multiset<Ptr>, ghost kept: nat, i: nat, j: nat)
      requires heap.Valid() && kept <= i < ops.Length && ops[i].cmdId == 0
      requires Merging(ops[..], heap.live, texts, rows, others, kept, i)
      requires j < ops.Length && (j < kept || i < j) && Describes(texts, ops[i].name, ops[j])
      requires forall k :: 0 <= k < j ==> !Describes(texts, ops[i].name, ops[k])
      modifies ops, heap
      ensures heap.Valid() && Merging(ops[..], heap.live, texts, rows, others, kept, i + 1)
    {
      hide Shape, Generated, Join, Owned, One;
      ghost var d := ops[..];
      MatchStep(d, heap.live, texts, rows, others, kept, i, j);
      ghost var rest := Owned(LiveRows(Moved(d, i, j), kept, i + 1)) + others;
      heap.Release(ops[j].short, One(ops[j].long) + (One(ops[i].name) + rest));
      heap.Release(ops[j].long, One(ops[i].name) + rest);
      ops[j] := ops[j].(short := ops[i].short, long := ops[i].long);
      ops[i] := ops[i].(short := 0, long := 0);
      assert ops[..] == Moved(d, i, j);
      heap.Release(ops[i].name, rest);
      heap.Free(ops[i].short);
      heap.Free(ops[i].long);
    }

    method DropRow(heap: Heap, ghost texts: map<Ptr, string>, ghost rows: seq<Row>, ghost others: multiset<Ptr>, ghost kept: nat, i: nat)
      requires heap.Valid() && kept <= i < ops.Length && ops[i].cmdId == 0
      requires Merging(ops[..], heap.live, texts, rows, others, kept, i)
      requires forall k :: 0 <= k < ops.Length ==> !Describes(texts, ops[i].name, ops[k])
      modifies heap
      ensures heap.Valid() && Merging(ops[..], heap.live, texts, rows, others, kept, i + 1)
    {
      hide Shape, Generated, Join, Owned, One;
      DropStep(ops[..], heap.live, texts, rows, others, kept, i);
      ghost var rest := Owned(LiveRows(ops[..], kept, i + 1)) + others;
      heap.Release(ops[i].name, One(ops[i].short) + (One(ops[i].long) + rest));
      heap.Release(ops[i].short, One(ops[i].long) + rest);
      heap.Release(ops[i].long, rest);
    }
  }
}
