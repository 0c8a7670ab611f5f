/** Messages of the generic netlink controller: parse_ops_attr, parse_mcast_attr, process_family_msg. */
module Ctrl {
  import opened Wire
  import opened Schema

  const CTRL_CMD_NEWFAMILY: nat := 1
  const GENL_HDRLEN: nat := 4

  // Attribute types of linux/genetlink.h
  const FAMILY_ID: nat := 1
  const FAMILY_NAME: nat := 2
  const VERSION: nat := 3
  const HDRSIZE: nat := 4
  const MAXATTR: nat := 5
  const OPS: nat := 6
  const MCAST_GROUPS: nat := 7
  const OP_ID: nat := 1
  const OP_FLAGS: nat := 2
  const MCAST_GRP_NAME: nat := 1
  const MCAST_GRP_ID: nat := 2

  datatype OpInfo = OpInfo(id: u32, flags: u32)
  datatype McastInfo = McastInfo(id: u32, name: Option<bytes>)

  /** A C string: up to the first NUL. */
  function Text(b: bytes): bytes {
    UpTo(b, 0)
  }

  // ---------------------------------------------------------------------------------------------
  // What the nested lists say

  function OpStep(o: OpInfo, a: Attr): OpInfo {
    if a.Type() == OP_ID && |a.payload| >= 4 then o.(id := GetU32(a.payload, 0))
    else if a.Type() == OP_FLAGS && |a.payload| >= 4 then o.(flags := GetU32(a.payload, 0))
    else o
  }

  function OpFold(o: OpInfo, attrs: seq<Attr>): OpInfo
    decreases attrs
  {
    if attrs == [] then o else OpFold(OpStep(o, attrs[0]), attrs[1..])
  }

  function McastStep(g: McastInfo, a: Attr): McastInfo {
    if a.Type() == MCAST_GRP_ID && |a.payload| >= 4 then g.(id := GetU32(a.payload, 0))
    else if a.Type() == MCAST_GRP_NAME && a.payload != [] then g.(name := Some(Text(a.payload)))
    else g
  }

  function McastFold(g: McastInfo, attrs: seq<Attr>): McastInfo
    decreases attrs
  {
    if attrs == [] then g else McastFold(McastStep(g, attrs[0]), attrs[1..])
  }

  const NO_OP := OpInfo(0, 0)
  const NO_GROUP := McastInfo(0, None)

  function OpEntry(a: Attr): OpInfo {
    OpFold(NO_OP, Walk(a.payload))
  }

  function McastEntry(a: Attr): McastInfo {
    McastFold(NO_GROUP, Walk(a.payload))
  }

  /** One entry per attribute of the list, each folded from the attributes inside it. */
  function OpsIn(entries: seq<Attr>): seq<OpInfo> {
    seq(|entries|, i requires 0 <= i < |entries| => OpEntry(entries[i]))
  }

  function McastsIn(entries: seq<Attr>): seq<McastInfo> {
    seq(|entries|, i requires 0 <= i < |entries| => McastEntry(entries[i]))
  }

  // ---------------------------------------------------------------------------------------------
  // The two-pass loops

  /** First pass: the number of entries. */
  method CountAttrs(buf: bytes, first: Cursor) returns (count: nat)
    requires Inside(buf, first)
    ensures count == |Walk(Window(buf, first))|
  {
    hide Walk, Window, NlaOk, NlaNext, NlaAt;
    count := 0;
    var c := first;
    while NlaOk(buf, c)
      invariant Inside(buf, c) && count + |Walk(Window(buf, c))| == |Walk(Window(buf, first))|
      decreases c.rem
    {
      WalkStep(buf, c);
      count := count + 1;
      c := NlaNext(buf, c);
    }
    WalkStep(buf, c);
  }

  method FillOp(ops: array<OpInfo>, i: nat, buf: bytes, inner: Cursor)
    requires i < ops.Length && Inside(buf, inner)
    modifies ops
    ensures ops[..] == old(ops[..])[i := OpFold(old(ops[i]), Walk(Window(buf, inner)))]
  {
    hide Walk, Window, NlaOk, NlaNext;
    var c := inner;
    while NlaOk(buf, c)
      invariant Inside(buf, c)
      invariant OpFold(ops[i], Walk(Window(buf, c))) == OpFold(old(ops[i]), Walk(Window(buf, inner)))
      invariant forall j :: 0 <= j < ops.Length && j != i ==> ops[j] == old(ops[j])
      decreases c.rem
    {
      WalkStep(buf, c);
      var a := NlaAt(buf, c);
      if a.Type() == OP_ID && |a.payload| >= 4 {
        ops[i] := ops[i].(id := GetU32(a.payload, 0));
      } else if a.Type() == OP_FLAGS && |a.payload| >= 4 {
        ops[i] := ops[i].(flags := GetU32(a.payload, 0));
      }
      c := NlaNext(buf, c);
    }
    WalkStep(buf, c);
  }

  /** parse_ops_attr: the array is as long as the first pass counted and the second pass fills all of it. */
  method ParseOpsAttr(buf: bytes, outer: Cursor) returns (r: seq<OpInfo>)
    requires Inside(buf, outer)
    ensures r == OpsIn(Walk(Window(buf, outer))) && TellsOps(Walk(Window(buf, outer)), r)
  {
    hide Walk, Window, NlaOk, NlaNext, OpFold, TellsOps;
    OpsTold(Walk(Window(buf, outer)));
    ghost var entries := Walk(Window(buf, outer));
    var count := CountAttrs(buf, outer);
    if count == 0 { return []; }
    var ops := new OpInfo[count](_ => NO_OP);
    var c, i := outer, 0;
    while NlaOk(buf, c)
      invariant Inside(buf, c) && i <= count && Walk(Window(buf, c)) == entries[i..]
      invariant forall j :: 0 <= j < i ==> ops[j] == OpEntry(entries[j])
      invariant forall j :: i <= j < count ==> ops[j] == NO_OP
      decreases c.rem
    {
      WalkStep(buf, c);
      ghost var before := ops[..];
      FillOp(ops, i, buf, NlaData(buf, c));
      assert forall j :: 0 <= j < count ==> ops[j] == ops[..][j];
      c := NlaNext(buf, c);
      i := i + 1;
    }
    WalkStep(buf, c);
    return ops[..];
  }

  method FillGroup(grps: array<McastInfo>, i: nat, buf: bytes, inner: Cursor)
    requires i < grps.Length && Inside(buf, inner)
    modifies grps
    ensures grps[..] == old(grps[..])[i := McastFold(old(grps[i]), Walk(Window(buf, inner)))]
  {
    hide Walk, Window, NlaOk, NlaNext, Text;
    var c := inner;
    while NlaOk(buf, c)
      invariant Inside(buf, c)
      invariant McastFold(grps[i], Walk(Window(buf, c))) == McastFold(old(grps[i]), Walk(Window(buf, inner)))
      invariant forall j :: 0 <= j < grps.Length && j != i ==> grps[j] == old(grps[j])
      decreases c.rem
    {
      WalkStep(buf, c);
      var a := NlaAt(buf, c);
      if a.Type() == MCAST_GRP_ID && |a.payload| >= 4 {
        grps[i] := grps[i].(id := GetU32(a.payload, 0));
      } else if a.Type() == MCAST_GRP_NAME && |a.payload| > 0 {
        grps[i] := grps[i].(name := Some(Text(a.payload)));
      }
      c := NlaNext(buf, c);
    }
    WalkStep(buf, c);
  }

  /** parse_mcast_attr */
  method ParseMcastAttr(buf: bytes, outer: Cursor) returns (r: seq<McastInfo>)
    requires Inside(buf, outer)
    ensures r == McastsIn(Walk(Window(buf, outer))) && TellsGroups(Walk(Window(buf, outer)), r)
  {
    hide Walk, Window, NlaOk, NlaNext, McastFold, TellsGroups;
    GroupsTold(Walk(Window(buf, outer)));
    ghost var entries := Walk(Window(buf, outer));
    var count := CountAttrs(buf, outer);
    if count == 0 { return []; }
    var grps := new McastInfo[count](_ => NO_GROUP);
    var c, i := outer, 0;
    while NlaOk(buf, c)
      invariant Inside(buf, c) && i <= count && Walk(Window(buf, c)) == entries[i..]
      invariant forall j :: 0 <= j < i ==> grps[j] == McastEntry(entries[j])
      invariant forall j :: i <= j < count ==> grps[j] == NO_GROUP
      decreases c.rem
    {
      WalkStep(buf, c);
      FillGroup(grps, i, buf, NlaData(buf, c));
      assert forall j :: 0 <= j < count ==> grps[j] == grps[..][j];
      c := NlaNext(buf, c);
      i := i + 1;
    }
    WalkStep(buf, c);
    return grps[..];
  }

  // ---------------------------------------------------------------------------------------------
  // CTRL_CMD_NEWFAMILY

  const NAME_SIZE: nat := 17  // GENL_NAMSIZ + 1

  /** The local variables process_family_msg fills; `name` is the char buffer, all of it. */
  datatype Found = Found(name: bytes, id: u16, version: u32, hdrsize: u32, maxattr: u32, haveName: bool, haveId: bool,
                         ops: seq<OpInfo>, groups: seq<McastInfo>)

  const NOTHING_FOUND := Found(Zeros(NAME_SIZE), 0, 0, 0, 0, false, false, [], [])

  /** memcpy into the name buffer, then the forced final NUL. */
  function PutName(name: bytes, p: bytes): (r: bytes)
    requires |name| == NAME_SIZE && |p| <= NAME_SIZE
    ensures |r| == NAME_SIZE
  {
    (p + name[|p|..])[NAME_SIZE - 1 := 0]
  }

  function FoundStep(f: Found, a: Attr): (r: Found)
    requires |f.name| == NAME_SIZE
    ensures |r.name| == NAME_SIZE
  {
    var t, p := a.Type(), a.payload;
    if t == FAMILY_NAME then
      if 0 < |p| <= NAME_SIZE then f.(name := PutName(f.name, p), haveName := true) else f
    else if t == FAMILY_ID then if |p| >= 2 then f.(id := GetU16(p, 0), haveId := true) else f
    else if t == VERSION then if |p| >= 4 then f.(version := GetU32(p, 0)) else f
    else if t == HDRSIZE then if |p| >= 4 then f.(hdrsize := GetU32(p, 0)) else f
    else if t == MAXATTR then if |p| >= 4 then f.(maxattr := GetU32(p, 0)) else f
    else if t == OPS then f.(ops := OpsIn(Walk(p)))
    else if t == MCAST_GROUPS then f.(groups := McastsIn(Walk(p)))
    else f
  }

  function FoundFold(f: Found, attrs: seq<Attr>): (r: Found)
    requires |f.name| == NAME_SIZE
    ensures |r.name| == NAME_SIZE
    decreases attrs
  {
    if attrs == [] then f else FoundFold(FoundStep(f, attrs[0]), attrs[1..])
  }

  datatype Family = Family(name: bytes, id: u16, version: u32, hdrsize: u32, maxattr: u32,
                           ops: seq<OpInfo>, groups: seq<McastInfo>)
  datatype Outcome = Truncated | Skipped | Append(family: Family)

  function Conclude(f: Found): Outcome {
    if f.haveName && f.haveId
    then Append(Family(Text(f.name), f.id, f.version, f.hdrsize, f.maxattr, f.ops, f.groups))
    else Skipped
  }

  /** What one controller message amounts to, given everything behind its nlmsghdr. */
  function FamilyOf(payload: bytes): (r: Outcome)
    ensures r == Truncated <==> |payload| < 4
  {
    if |payload| < GENL_HDRLEN then Truncated
    else if payload[0] != CTRL_CMD_NEWFAMILY then Skipped
    else Conclude(FoundFold(NOTHING_FOUND, Walk(payload[GENL_HDRLEN..])))
  }

  /** process_family_msg up to the creation of the family node. */
  method ProcessFamilyMsg(payload: bytes) returns (r: Outcome)
    ensures r == FamilyOf(payload)
    // too short a message ends the enumeration; any command but CTRL_CMD_NEWFAMILY is passed over
    ensures r == Truncated <==> |payload| < 4
    ensures |payload| >= 4 && payload[0] != 1 ==> r == Skipped
    ensures |payload| >= 4 && payload[0] == 1 ==>
              var attrs := Walk(payload[4..]);
              if LastOf(attrs, 2, 1, 17) >= 0 && LastOf(attrs, 1, 2, 0x1_0000) >= 0
              then r.Append? && Tells(attrs, r.family) else r == Skipped
  {
    if |payload| >= 4 && payload[0] == 1 { FamilyTold(payload); }
    r := ReadFamily(payload);
  }

  method ReadFamily(payload: bytes) returns (r: Outcome)
    ensures r == FamilyOf(payload)
  {
    if |payload| < GENL_HDRLEN { return Truncated; }
    if payload[0] != CTRL_CMD_NEWFAMILY { return Skipped; }
    hide Walk, NlaOk, NlaNext, FoundStep, Text, NlaAt;
    var c := Cursor(GENL_HDRLEN, |payload| - GENL_HDRLEN);
    var f := NOTHING_FOUND;
    ghost var attrs := payload[GENL_HDRLEN..];
    assert Window(payload, c) == attrs;
    while NlaOk(payload, c)
      invariant Inside(payload, c) && |f.name| == NAME_SIZE
      invariant FoundFold(f, Walk(Window(payload, c))) == FoundFold(NOTHING_FOUND, Walk(attrs))
      decreases c.rem
    {
      hide Window, FoundFold;
      WalkStep(payload, c);
      FoundFoldStep(f, NlaAt(payload, c), Walk(Window(payload, NlaNext(payload, c))));
      f := ProcessAttr(payload, c, f);
      c := NlaNext(payload, c);
    }
    WalkStep(payload, c);
    return Conclude(f);
  }

  lemma FoundFoldStep(f: Found, a: Attr, rest: seq<Attr>)
    requires |f.name| == NAME_SIZE
    ensures FoundFold(f, [a] + rest) == FoundFold(FoundStep(f, a), rest)
  {
    assert ([a] + rest)[1..] == rest;
  }

  /** The switch over the attribute type. */
  method ProcessAttr(buf: bytes, c: Cursor, f: Found) returns (r: Found)
    requires Inside(buf, c) && NlaOk(buf, c) && |f.name| == NAME_SIZE
    ensures r == FoundStep(f, NlaAt(buf, c))
  {
    hide Walk, Window, NlaOk, NlaData, GetU16, GetU32;
    var a := NlaAt(buf, c);
    r := f;
    match a.Type()
    case 2 => if 0 < |a.payload| <= NAME_SIZE { r := f.(name := PutName(f.name, a.payload), haveName := true); }
    case 1 => if |a.payload| >= 2 { r := f.(id := GetU16(a.payload, 0), haveId := true); }
    case 3 => if |a.payload| >= 4 { r := f.(version := GetU32(a.payload, 0)); }
    case 4 => if |a.payload| >= 4 { r := f.(hdrsize := GetU32(a.payload, 0)); }
    case 5 => if |a.payload| >= 4 { r := f.(maxattr := GetU32(a.payload, 0)); }
    case 6 => var ops := ParseOpsAttr(buf, NlaData(buf, c)); r := f.(ops := ops);
    case 7 => var groups := ParseMcastAttr(buf, NlaData(buf, c)); r := f.(groups := groups);
    case _ =>
  }

  // ---------------------------------------------------------------------------------------------
  // The last well-sized attribute of a type counts

  /** The last attribute of type `t` with a payload of `lo` to `hi` bytes, or -1. */
  function LastOf(attrs: seq<Attr>, t: nat, lo: nat, hi: nat): (k: int)
    ensures -1 <= k < |attrs|
    ensures k >= 0 ==> attrs[k].Type() == t && lo <= |attrs[k].payload| <= hi
    ensures forall j :: k < j < |attrs| ==> !(attrs[j].Type() == t && lo <= |attrs[j].payload| <= hi)
  {
    if attrs == [] then -1
    else
      var n := |attrs| - 1;
      if attrs[n].Type() == t && lo <= |attrs[n].payload| <= hi then n else LastOf(attrs[..n], t, lo, hi)
  }

  /** A number: the four bytes of the last attribute of that type with at least four, or 0. */
  function Number(attrs: seq<Attr>, t: nat): u32 {
    var k := LastOf(attrs, t, 4, 0x1_0000);
    if k < 0 then 0 else GetU32(attrs[k].payload, 0)
  }

  /** Payloads as they come out of a walk. */
  predicate Short(attrs: seq<Attr>) {
    forall a :: a in attrs ==> |a.payload| < 0x1_0000
  }

  lemma {:induction false} WalkShort(b: bytes)
    ensures Short(Walk(b))
    decreases |b|
  {
    hide Align4;
    if AttrOk(b) { WalkShort(RestAttrs(b)); }
  }

  lemma LastSnoc(pre: seq<Attr>, a: Attr, t: nat, lo: nat, hi: nat)
    ensures LastOf(pre + [a], t, lo, hi) == if a.Type() == t && lo <= |a.payload| <= hi then |pre| else LastOf(pre, t, lo, hi)
  {
    assert (pre + [a])[..|pre|] == pre;
  }

  lemma NumberSnoc(pre: seq<Attr>, a: Attr, t: nat)
    requires |a.payload| < 0x1_0000
    ensures Number(pre + [a], t) == if a.Type() == t && |a.payload| >= 4 then GetU32(a.payload, 0) else Number(pre, t)
  {
    hide GetU32;
    LastSnoc(pre, a, t, 4, 0x1_0000);
  }

  lemma NothingLast(t: nat, lo: nat, hi: nat)
    ensures LastOf([], t, lo, hi) == -1 && Number([], t) == 0
  {
  }

  lemma Parted(attrs: seq<Attr>)
    requires attrs != [] && Short(attrs)
    ensures var n := |attrs| - 1; attrs == attrs[..n] + [attrs[n]] && Short(attrs[..n]) && |attrs[n].payload| < 0x1_0000
  {
    assert attrs[|attrs| - 1] in attrs;
  }

  /** Operations: id is type 1 and flags type 2. */
  lemma {:induction false} OpFolded(attrs: seq<Attr>)
    requires Short(attrs)
    ensures OpFold(NO_OP, attrs) == OpInfo(Number(attrs, 1), Number(attrs, 2))
    decreases |attrs|
  {
    hide GetU32, Number;
    if attrs == [] {
      NothingLast(1, 0, 0);
      NothingLast(2, 0, 0);
    } else {
      Parted(attrs);
      var pre, a := attrs[..|attrs| - 1], attrs[|attrs| - 1];
      OpFolded(pre);
      EntryFoldConcat(NO_OP, NO_GROUP, pre, [a]);
      assert [a][1..] == [];
      NumberSnoc(pre, a, 1);
      NumberSnoc(pre, a, 2);
    }
  }

  /** Groups: the name, up to its first NUL, is type 1, and the id is type 2. */
  lemma {:induction false} GroupFolded(attrs: seq<Attr>)
    requires Short(attrs)
    ensures McastFold(NO_GROUP, attrs).id == Number(attrs, 2)
    ensures var k := LastOf(attrs, 1, 1, 0x1_0000);
      McastFold(NO_GROUP, attrs).name == if k < 0 then None else Some(Text(attrs[k].payload))
    decreases |attrs|
  {
    hide GetU32, Text, Number, LastOf;
    if attrs == [] {
      NothingLast(1, 1, 0x1_0000);
      NothingLast(2, 0, 0);
    } else {
      Parted(attrs);
      var pre, a := attrs[..|attrs| - 1], attrs[|attrs| - 1];
      GroupFolded(pre);
      EntryFoldConcat(NO_OP, NO_GROUP, pre, [a]);
      assert [a][1..] == [];
      LastSnoc(pre, a, 1, 1, 0x1_0000);
      NumberSnoc(pre, a, 2);
    }
  }

  /** Name is type 2 and id is type 1; of the name buffer only what the last name fills is told, and that it
      ends in a NUL. */
  ghost predicate NameSays(f: Found, attrs: seq<Attr>)
    requires |f.name| == NAME_SIZE
  {
    var n, i := LastOf(attrs, 2, 1, 17), LastOf(attrs, 1, 2, 0x1_0000);
    && (f.haveName <==> n >= 0) && (f.haveId <==> i >= 0)
    && f.id == (if i < 0 then 0 else GetU16(attrs[i].payload, 0))
    && (n >= 0 ==> var p := attrs[n].payload; var k := if |p| < 17 then |p| else 16; f.name[..k] == p[..k])
    && f.name[16] == 0
  }

  /** Version is type 3, header size 4, highest attribute 5. */
  ghost predicate NumbersSay(f: Found, attrs: seq<Attr>) {
    f.version == Number(attrs, 3) && f.hdrsize == Number(attrs, 4) && f.maxattr == Number(attrs, 5)
  }

  /** Operations are type 6 and groups type 7. */
  ghost predicate ListsSay(f: Found, attrs: seq<Attr>) {
    var o, g := LastOf(attrs, 6, 0, 0x1_0000), LastOf(attrs, 7, 0, 0x1_0000);
    && f.ops == (if o < 0 then [] else OpsIn(Walk(attrs[o].payload)))
    && f.groups == (if g < 0 then [] else McastsIn(Walk(attrs[g].payload)))
  }

  lemma NameSnoc(f: Found, pre: seq<Attr>, a: Attr)
    requires |f.name| == NAME_SIZE && NameSays(f, pre) && |a.payload| < 0x1_0000
    ensures NameSays(FoundStep(f, a), pre + [a])
  {
    hide GetU32, GetU16, Walk, OpsIn, McastsIn, LastOf;
    LastSnoc(pre, a, 2, 1, 17);
    LastSnoc(pre, a, 1, 2, 0x1_0000);
    var n, i := LastOf(pre, 2, 1, 17), LastOf(pre, 1, 2, 0x1_0000);
    assert (n >= 0 ==> (pre + [a])[n] == pre[n]) && (i >= 0 ==> (pre + [a])[i] == pre[i]);
  }

  lemma NumbersSnoc(f: Found, pre: seq<Attr>, a: Attr)
    requires |f.name| == NAME_SIZE && NumbersSay(f, pre) && |a.payload| < 0x1_0000
    ensures NumbersSay(FoundStep(f, a), pre + [a])
  {
    hide GetU32, GetU16, PutName, Walk, OpsIn, McastsIn, Number;
    NumberSnoc(pre, a, 3);
    NumberSnoc(pre, a, 4);
    NumberSnoc(pre, a, 5);
  }

  lemma ListsSnoc(f: Found, pre: seq<Attr>, a: Attr)
    requires |f.name| == NAME_SIZE && ListsSay(f, pre) && |a.payload| < 0x1_0000
    ensures ListsSay(FoundStep(f, a), pre + [a])
  {
    hide GetU32, GetU16, PutName, Walk, OpsIn, McastsIn, LastOf;
    LastSnoc(pre, a, 6, 0, 0x1_0000);
    LastSnoc(pre, a, 7, 0, 0x1_0000);
    var o, g := LastOf(pre, 6, 0, 0x1_0000), LastOf(pre, 7, 0, 0x1_0000);
    assert (o >= 0 ==> (pre + [a])[o] == pre[o]) && (g >= 0 ==> (pre + [a])[g] == pre[g]);
  }

  lemma {:induction false} FamilyFolded(attrs: seq<Attr>)
    requires Short(attrs)
    ensures var f := FoundFold(NOTHING_FOUND, attrs); NameSays(f, attrs) && NumbersSay(f, attrs) && ListsSay(f, attrs)
    decreases |attrs|
  {
    hide NameSays, NumbersSay, ListsSay, FoundStep, FoundFold;
    if attrs == [] {
      NothingSaid();
    } else {
      Parted(attrs);
      var pre, a := attrs[..|attrs| - 1], attrs[|attrs| - 1];
      FamilyFolded(pre);
      FoundFoldConcat(NOTHING_FOUND, pre, [a]);
      var f := FoundFold(NOTHING_FOUND, pre);
      FoldAt(f, [a], 0);
      assert [a][0..] == [a];
      NameSnoc(f, pre, a);
      NumbersSnoc(f, pre, a);
      ListsSnoc(f, pre, a);
    }
  }

  lemma {:induction false} TextIs(b: bytes, z: nat)
    requires z <= |b| && 0 !in b[..z] && (z < |b| ==> b[z] == 0)
    ensures Text(b) == b[..z]
  {
    if z > 0 {
      assert b[0] == b[..z][0] && b[1..][..z - 1] == b[..z][1..];
      TextIs(b[1..], z - 1);
      assert b[..z] == [b[0]] + b[1..][..z - 1];
    }
  }

  /** What the attributes of a message about `f` say: its name up to the first NUL, its numbers, and one
      operation and one group for each entry of the last list of either. */
  ghost predicate Tells(attrs: seq<Attr>, f: Family) {
    var n, i, o, g := LastOf(attrs, 2, 1, 17), LastOf(attrs, 1, 2, 0x1_0000), LastOf(attrs, 6, 0, 0x1_0000), LastOf(attrs, 7, 0, 0x1_0000);
    && n >= 0 && i >= 0
    && (forall z :: 0 <= z < |attrs[n].payload| && z < 16 && attrs[n].payload[z] == 0 && 0 !in attrs[n].payload[..z] ==>
          f.name == attrs[n].payload[..z])
    && 0 !in f.name && |f.name| <= 16
    && f.id == GetU16(attrs[i].payload, 0)
    && f.version == Number(attrs, 3) && f.hdrsize == Number(attrs, 4) && f.maxattr == Number(attrs, 5)
    && TellsOps(if o < 0 then [] else Walk(attrs[o].payload), f.ops)
    && TellsGroups(if g < 0 then [] else Walk(attrs[g].payload), f.groups)
  }

  ghost predicate TellsOps(entries: seq<Attr>, ops: seq<OpInfo>) {
    |ops| == |entries| && forall k :: 0 <= k < |ops| ==>
      var inner := Walk(entries[k].payload); ops[k].id == Number(inner, 1) && ops[k].flags == Number(inner, 2)
  }

  ghost predicate TellsGroups(entries: seq<Attr>, groups: seq<McastInfo>) {
    |groups| == |entries| && forall k :: 0 <= k < |groups| ==>
      var inner := Walk(entries[k].payload);
      var n := LastOf(inner, 1, 1, 0x1_0000);
      && groups[k].id == Number(inner, 2) && (n < 0 ==> groups[k].name == None)
      && (n >= 0 ==> groups[k].name.Some? && 0 !in groups[k].name.value
                     && groups[k].name.value <= inner[n].payload
                     && (groups[k].name.value == inner[n].payload || inner[n].payload[|groups[k].name.value|] == 0))
  }

  lemma {:induction false} TextBefore(b: bytes)
    ensures var t := Text(b); 0 !in t && t <= b && (t == b || b[|t|] == 0)
  {
    if b != [] && b[0] != 0 { TextBefore(b[1..]); }
  }

  lemma OpsTold(entries: seq<Attr>)
    ensures TellsOps(entries, OpsIn(entries))
  {
    hide OpFold, Walk, Number;
    forall k | 0 <= k < |entries| ensures OpEntry(entries[k]) == OpInfo(Number(Walk(entries[k].payload), 1), Number(Walk(entries[k].payload), 2)) {
      WalkShort(entries[k].payload);
      OpFolded(Walk(entries[k].payload));
    }
  }

  lemma GroupsTold(entries: seq<Attr>)
    ensures TellsGroups(entries, McastsIn(entries))
  {
    hide McastFold, Walk, Number, LastOf, Text;
    forall k | 0 <= k < |entries|
      ensures var inner := Walk(entries[k].payload); var n := LastOf(inner, 1, 1, 0x1_0000);
        McastEntry(entries[k]) == McastInfo(Number(inner, 2), if n < 0 then None else Some(Text(inner[n].payload)))
      ensures var inner := Walk(entries[k].payload); var n := LastOf(inner, 1, 1, 0x1_0000);
        n >= 0 ==> var t := Text(inner[n].payload); 0 !in t && t <= inner[n].payload && (t == inner[n].payload || inner[n].payload[|t|] == 0)
    {
      var inner := Walk(entries[k].payload);
      WalkShort(entries[k].payload);
      GroupFolded(inner);
      var n := LastOf(inner, 1, 1, 0x1_0000);
      if n >= 0 { TextBefore(inner[n].payload); }
    }
  }

  lemma FamilyTold(payload: bytes)
    requires |payload| >= 4 && payload[0] == 1
    ensures var attrs, r := Walk(payload[4..]), FamilyOf(payload);
      if LastOf(attrs, 2, 1, 17) >= 0 && LastOf(attrs, 1, 2, 0x1_0000) >= 0 then r.Append? && Tells(attrs, r.family) else r == Skipped
  {
    hide Walk, FoundFold, LastOf, Number, Text, OpsIn, McastsIn, TellsOps, TellsGroups, GetU16;
    var attrs := Walk(payload[4..]);
    var f := FoundFold(NOTHING_FOUND, attrs);
    WalkShort(payload[4..]);
    FamilyFolded(attrs);
    OpsTold([]);
    GroupsTold([]);
    NoEntries();
    var n, o, g := LastOf(attrs, 2, 1, 17), LastOf(attrs, 6, 0, 0x1_0000), LastOf(attrs, 7, 0, 0x1_0000);
    if o >= 0 { OpsTold(Walk(attrs[o].payload)); }
    if g >= 0 { GroupsTold(Walk(attrs[g].payload)); }
    TextBefore(f.name);
    if n >= 0 {
      var p := attrs[n].payload;
      forall z | 0 <= z < |p| && z < 16 && p[z] == 0 && 0 !in p[..z] ensures Text(f.name) == p[..z] {
        NameUpTo(f.name, p, z);
      }
    }
  }

  lemma NoEntries()
    ensures OpsIn([]) == [] && McastsIn([]) == []
  {
  }

  lemma NameUpTo(name: bytes, p: bytes, z: nat)
    requires z < |p| && z < 16 && |name| == 17 && p[z] == 0 && 0 !in p[..z]
    requires var k := if |p| < 17 then |p| else 16; name[..k] == p[..k]
    ensures Text(name) == p[..z]
  {
    var k := if |p| < 17 then |p| else 16;
    assert name[..z] == name[..k][..z] == p[..k][..z] == p[..z];
    assert name[z] == name[..k][z] == p[..k][z] == p[z];
    TextIs(name, z);
  }

  lemma NothingSaid()
    ensures FoundFold(NOTHING_FOUND, []) == NOTHING_FOUND
    ensures NameSays(NOTHING_FOUND, []) && NumbersSay(NOTHING_FOUND, []) && ListsSay(NOTHING_FOUND, [])
  {
  }

  // ---------------------------------------------------------------------------------------------
  // Attributes nobody knows are passed over, at the top level and inside an entry

  lemma {:induction false} FoundFoldConcat(f: Found, xs: seq<Attr>, ys: seq<Attr>)
    requires |f.name| == NAME_SIZE
    ensures FoundFold(f, xs + ys) == FoundFold(FoundFold(f, xs), ys)
    decreases xs
  {
    if xs == [] {
      assert xs + ys == ys;
    } else {
      hide FoundStep;
      assert (xs + ys)[1..] == xs[1..] + ys;
      FoundFoldConcat(FoundStep(f, xs[0]), xs[1..], ys);
    }
  }

  lemma EncAttrsSplit(hdr: bytes, attrs: seq<Attr>)
    requires |hdr| == GENL_HDRLEN && Sendable(attrs)
    ensures var p := hdr + EncAttrs(attrs);
            FamilyOf(p) == if p[0] != CTRL_CMD_NEWFAMILY then Skipped else Conclude(FoundFold(NOTHING_FOUND, attrs))
  {
    hide FoundFold, Conclude;
    WalkEncAttrs(attrs);
    assert (hdr + EncAttrs(attrs))[GENL_HDRLEN..] == EncAttrs(attrs);
  }

  /** Inserting an attribute of a type outside 1..7 anywhere in a family message changes nothing. */
  lemma UnknownAttrIgnored(hdr: bytes, pre: seq<Attr>, x: Attr, post: seq<Attr>)
    requires |hdr| == GENL_HDRLEN && Sendable(pre + [x] + post) && !(FAMILY_ID <= x.Type() <= MCAST_GROUPS)
    ensures FamilyOf(hdr + EncAttrs(pre + [x] + post)) == FamilyOf(hdr + EncAttrs(pre + post))
  {
    hide FamilyOf, Conclude;
    assert forall a :: a in pre + post ==> a in pre + [x] + post;
    EncAttrsSplit(hdr, pre + [x] + post);
    EncAttrsSplit(hdr, pre + post);
    FoundFoldConcat(NOTHING_FOUND, pre + [x], post);
    FoundFoldConcat(NOTHING_FOUND, pre, [x]);
    FoundFoldConcat(NOTHING_FOUND, pre, post);
    var f := FoundFold(NOTHING_FOUND, pre);
    assert FoundFold(f, [x]) == f by {
      FoundFoldStep(f, x, []);
      assert [x] + [] == [x];
    }
  }

  lemma {:induction false} EntryFoldConcat(o: OpInfo, g: McastInfo, xs: seq<Attr>, ys: seq<Attr>)
    ensures OpFold(o, xs + ys) == OpFold(OpFold(o, xs), ys)
    ensures McastFold(g, xs + ys) == McastFold(McastFold(g, xs), ys)
    decreases xs
  {
    if xs == [] {
      assert xs + ys == ys;
    } else {
      hide OpStep, McastStep;
      assert (xs + ys)[1..] == xs[1..] + ys;
      EntryFoldConcat(OpStep(o, xs[0]), McastStep(g, xs[0]), xs[1..], ys);
    }
  }

  /** The same inside an entry of either list, for types outside 1..2. */
  lemma UnknownInEntryIgnored(raw: u16, pre: seq<Attr>, x: Attr, post: seq<Attr>)
    requires Sendable(pre + [x] + post) && x.Type() !in {1, 2}
    ensures OpEntry(Attr(raw, EncAttrs(pre + [x] + post))) == OpEntry(Attr(raw, EncAttrs(pre + post)))
    ensures McastEntry(Attr(raw, EncAttrs(pre + [x] + post))) == McastEntry(Attr(raw, EncAttrs(pre + post)))
  {
    assert forall a :: a in pre + post ==> a in pre + [x] + post;
    WalkEncAttrs(pre + [x] + post);
    WalkEncAttrs(pre + post);
    EntryFoldConcat(NO_OP, NO_GROUP, pre + [x], post);
    EntryFoldConcat(NO_OP, NO_GROUP, pre, [x]);
    EntryFoldConcat(NO_OP, NO_GROUP, pre, post);
    var o, g := OpFold(NO_OP, pre), McastFold(NO_GROUP, pre);
    assert OpFold(o, [x]) == OpStep(o, x) && McastFold(g, [x]) == McastStep(g, x) by { assert [x][1..] == []; }
  }

  lemma {:induction false} EncAttrsConcat(xs: seq<Attr>, ys: seq<Attr>)
    requires Sendable(xs + ys)
    ensures Sendable(xs) && Sendable(ys) && EncAttrs(xs + ys) == EncAttrs(xs) + EncAttrs(ys)
  {
    hide EncAttr, EncAttrs;
    assert forall a :: a in xs || a in ys ==> a in xs + ys;
    NoneEncoded();
    if xs == [] {
      assert xs + ys == ys;
    } else {
      assert (xs + ys)[1..] == xs[1..] + ys && (xs + ys)[0] == xs[0];
      assert forall a :: a in xs[1..] + ys ==> a in xs + ys;
      EncAttrsConcat(xs[1..], ys);
      FirstEncoded(xs);
      FirstEncoded(xs + ys);
      assert EncAttr(xs[0]) + (EncAttrs(xs[1..]) + EncAttrs(ys)) == EncAttr(xs[0]) + EncAttrs(xs[1..]) + EncAttrs(ys);
    }
  }

  lemma NoneEncoded()
    ensures EncAttrs([]) == []
  {
  }

  lemma FirstEncoded(xs: seq<Attr>)
    requires xs != []
    ensures EncAttrs(xs) == EncAttr(xs[0]) + EncAttrs(xs[1..])
  {
  }

  /** A list with `x` in it, and the same without it, which is no longer. */
  lemma Shorter(pre: seq<Attr>, x: Attr, post: seq<Attr>)
    requires Sendable(pre + [x] + post)
    ensures Sendable(pre + post) && |EncAttrs(pre + post)| <= |EncAttrs(pre + [x] + post)|
  {
    hide EncAttr;
    assert forall a :: a in pre + post ==> a in pre + [x] + post;
    EncAttrsConcat(pre + [x], post);
    EncAttrsConcat(pre, [x]);
    EncAttrsConcat(pre, post);
  }

  /** A list of operations or groups in which one entry carries the attributes `inner`. */
  function ListWith(raw: u16, before: seq<Attr>, entry: u16, inner: seq<Attr>, after: seq<Attr>): Attr
    requires Sendable(inner) && Sendable(before + [Attr(entry, EncAttrs(inner))] + after)
  {
    Attr(raw, EncAttrs(before + [Attr(entry, EncAttrs(inner))] + after))
  }

  predicate ListFits(raw: u16, before: seq<Attr>, entry: u16, inner: seq<Attr>, after: seq<Attr>) {
    Sendable(inner) && Sendable(before + [Attr(entry, EncAttrs(inner))] + after)
    && Sendable([ListWith(raw, before, entry, inner, after)])
  }

  /** One attribute replaced by a shorter one leaves a list sendable, and no longer. */
  lemma Replaced(before: seq<Attr>, a: Attr, b: Attr, after: seq<Attr>)
    requires Sendable(before + [a] + after) && |b.payload| <= |a.payload|
    ensures Sendable(before + [b] + after)
    ensures |EncAttrs(before + [b] + after)| <= |EncAttrs(before + [a] + after)|
  {
    hide EncAttr;
    assert a in before + [a] + after;
    forall c | c in before + [b] + after ensures NLA_HDRLEN + |c.payload| < 0x1_0000 {
      if c != b { assert c in before + [a] + after; }
    }
    EncAttrsConcat(before + [a], after);
    EncAttrsConcat(before, [a]);
    EncAttrsConcat(before + [b], after);
    EncAttrsConcat(before, [b]);
    OneSize(a);
    OneSize(b);
    AlignGrows(NLA_HDRLEN + |b.payload|, NLA_HDRLEN + |a.payload|);
  }

  lemma OneSize(a: Attr)
    requires Sendable([a])
    ensures |EncAttrs([a])| == Align4(NLA_HDRLEN + |a.payload|)
  {
    assert EncAttrs([a]) == EncAttr(a) + EncAttrs([a][1..]);
  }

  lemma AlignGrows(m: nat, n: nat)
    requires m <= n
    ensures Align4(m) <= Align4(n)
  {
  }

  /** The entries read from a list do not change when an unknown attribute is taken out of one of them. */
  lemma UnknownInListIgnored(raw: u16, before: seq<Attr>, entry: u16, pre: seq<Attr>, x: Attr, post: seq<Attr>,
                             after: seq<Attr>)
    requires ListFits(raw, before, entry, pre + [x] + post, after) && x.Type() !in {1, 2}
    ensures ListFits(raw, before, entry, pre + post, after)
    ensures var a, b := ListWith(raw, before, entry, pre + [x] + post, after), ListWith(raw, before, entry, pre + post, after);
      OpsIn(Walk(a.payload)) == OpsIn(Walk(b.payload)) && McastsIn(Walk(a.payload)) == McastsIn(Walk(b.payload))
  {
    hide EncAttrs, Walk, OpEntry, McastEntry;
    Shorter(pre, x, post);
    var a, b := Attr(entry, EncAttrs(pre + [x] + post)), Attr(entry, EncAttrs(pre + post));
    Replaced(before, a, b, after);
    UnknownInEntryIgnored(entry, pre, x, post);
    WalkEncAttrs(before + [a] + after);
    WalkEncAttrs(before + [b] + after);
    assert ListWith(raw, before, entry, pre + [x] + post, after) in [ListWith(raw, before, entry, pre + [x] + post, after)];
    var s, t := before + [a] + after, before + [b] + after;
    forall i | 0 <= i < |s| ensures OpEntry(s[i]) == OpEntry(t[i]) && McastEntry(s[i]) == McastEntry(t[i]) {
      if i != |before| { assert s[i] == t[i]; }
    }
  }

  /** Inserting an unknown attribute into any entry of the operations or of the groups, anywhere in a family
      message, changes nothing about the family. */
  lemma UnknownInMessageIgnored(hdr: bytes, first: seq<Attr>, raw: u16, before: seq<Attr>, entry: u16,
                                pre: seq<Attr>, x: Attr, post: seq<Attr>, after: seq<Attr>, last: seq<Attr>)
    requires |hdr| == GENL_HDRLEN && ListFits(raw, before, entry, pre + [x] + post, after)
    requires Attr(raw, []).Type() in {OPS, MCAST_GROUPS} && x.Type() !in {1, 2}
    requires Sendable(first + [ListWith(raw, before, entry, pre + [x] + post, after)] + last)
    ensures ListFits(raw, before, entry, pre + post, after)
    ensures Sendable(first + [ListWith(raw, before, entry, pre + post, after)] + last)
    ensures FamilyOf(hdr + EncAttrs(first + [ListWith(raw, before, entry, pre + [x] + post, after)] + last))
         == FamilyOf(hdr + EncAttrs(first + [ListWith(raw, before, entry, pre + post, after)] + last))
  {
    hide FamilyOf, Conclude, EncAttrs, Walk, OpsIn, McastsIn, FoundFold, FoundStep;
    UnknownInListIgnored(raw, before, entry, pre, x, post, after);
    var a, b := ListWith(raw, before, entry, pre + [x] + post, after), ListWith(raw, before, entry, pre + post, after);
    Shorter(pre, x, post);
    Replaced(before, Attr(entry, EncAttrs(pre + [x] + post)), Attr(entry, EncAttrs(pre + post)), after);
    Replaced(first, a, b, last);
    EncAttrsSplit(hdr, first + [a] + last);
    EncAttrsSplit(hdr, first + [b] + last);
    FoldReplaced(NOTHING_FOUND, first, a, b, last);
  }

  lemma FoldReplaced(f: Found, first: seq<Attr>, a: Attr, b: Attr, last: seq<Attr>)
    requires |f.name| == NAME_SIZE && a.raw == b.raw && a.Type() in {OPS, MCAST_GROUPS}
    requires OpsIn(Walk(a.payload)) == OpsIn(Walk(b.payload)) && McastsIn(Walk(a.payload)) == McastsIn(Walk(b.payload))
    ensures FoundFold(f, first + [a] + last) == FoundFold(f, first + [b] + last)
  {
    hide FoundFold, Walk, OpsIn, McastsIn, PutName, GetU16, GetU32;
    var here := FoundFold(f, first);
    FoundFoldConcat(f, first + [a], last);
    FoundFoldConcat(f, first, [a]);
    FoundFoldConcat(f, first + [b], last);
    FoundFoldConcat(f, first, [b]);
    FoundFoldStep(here, a, []);
    FoundFoldStep(here, b, []);
    assert [a] + [] == [a] && [b] + [] == [b];
  }

  // ---------------------------------------------------------------------------------------------
  // What the controller writes is what the program reads

  function OpAttrs(o: OpInfo): seq<Attr> {
    [Attr(OP_ID, PutU32(o.id)), Attr(OP_FLAGS, PutU32(o.flags))]
  }

  function McastAttrs(g: McastInfo): seq<Attr> {
    (if g.name.Some? then [Attr(MCAST_GRP_NAME, g.name.value + [0])] else []) + [Attr(MCAST_GRP_ID, PutU32(g.id))]
  }

  function OpList(ops: seq<OpInfo>): seq<Attr> {
    seq(|ops|, i requires 0 <= i < |ops| => Attr((i + 1) % 0x4000, EncAttrs(OpAttrs(ops[i]))))
  }

  function McastList(gs: seq<McastInfo>): seq<Attr> {
    seq(|gs|, i requires 0 <= i < |gs| => Attr((i + 1) % 0x4000, EncAttrs(McastAttrs(gs[i]))))
  }

  /** The attributes of a CTRL_CMD_NEWFAMILY message about `f`. */
  function FamilyAttrs(f: Family): seq<Attr> {
    [Attr(FAMILY_NAME, f.name + [0]), Attr(FAMILY_ID, PutU16(f.id)), Attr(VERSION, PutU32(f.version)),
     Attr(HDRSIZE, PutU32(f.hdrsize)), Attr(MAXATTR, PutU32(f.maxattr)),
     Attr(OPS, EncAttrs(OpList(f.ops))), Attr(MCAST_GROUPS, EncAttrs(McastList(f.groups)))]
  }

  predicate CString(s: bytes) {
    forall c :: c in s ==> c != 0
  }

  /** A family the kernel can describe: names are C strings that fit, and every length fits 16 bits. */
  predicate Describable(f: Family) {
    && CString(f.name) && |f.name| < NAME_SIZE
    && (forall g :: g in f.groups && g.name.Some? ==> CString(g.name.value) && Sendable(McastAttrs(g)))
    && Sendable(OpList(f.ops)) && Sendable(McastList(f.groups)) && Sendable(FamilyAttrs(f))
  }

  lemma {:induction false} TextOf(s: bytes, tail: bytes)
    requires CString(s)
    ensures Text(s + [0] + tail) == s
  {
    if s == [] {
      assert (s + [0] + tail)[0] == 0;
    } else {
      assert s[0] in s && forall c :: c in s[1..] ==> c in s;
      assert (s + [0] + tail)[1..] == s[1..] + [0] + tail;
      TextOf(s[1..], tail);
    }
  }

  lemma EntryFoldStep(o: OpInfo, g: McastInfo, a: Attr, rest: seq<Attr>)
    ensures OpFold(o, [a] + rest) == OpFold(OpStep(o, a), rest)
    ensures McastFold(g, [a] + rest) == McastFold(McastStep(g, a), rest)
  {
    assert ([a] + rest)[1..] == rest;
  }

  lemma OpBack(raw: u16, o: OpInfo)
    ensures OpEntry(Attr(raw, EncAttrs(OpAttrs(o)))) == o
  {
    WalkEncAttrs(OpAttrs(o));
    var id, flags := Attr(OP_ID, PutU32(o.id)), Attr(OP_FLAGS, PutU32(o.flags));
    assert OpAttrs(o) == [id] + ([flags] + []);
    EntryFoldStep(NO_OP, NO_GROUP, id, [flags] + []);
    EntryFoldStep(NO_OP.(id := o.id), NO_GROUP, flags, []);
  }

  lemma McastBack(raw: u16, g: McastInfo)
    requires g.name.Some? ==> CString(g.name.value)
    requires Sendable(McastAttrs(g))
    ensures McastEntry(Attr(raw, EncAttrs(McastAttrs(g)))) == g
  {
    hide PutU32, GetU32, EncAttrs, Walk;
    WalkEncAttrs(McastAttrs(g));
    var id := Attr(MCAST_GRP_ID, PutU32(g.id));
    if g.name.Some? {
      var name := Attr(MCAST_GRP_NAME, g.name.value + [0]);
      TextOf(g.name.value, []);
      assert g.name.value + [0] + [] == g.name.value + [0];
      assert McastAttrs(g) == [name] + ([id] + []);
      EntryFoldStep(NO_OP, NO_GROUP, name, [id] + []);
    } else {
      assert McastAttrs(g) == [id] + [];
    }
    EntryFoldStep(NO_OP, NO_GROUP.(name := g.name), id, []);
  }

  lemma OpsBack(ops: seq<OpInfo>)
    requires Sendable(OpList(ops))
    ensures OpsIn(Walk(EncAttrs(OpList(ops)))) == ops
  {
    hide OpEntry, EncAttrs, OpAttrs, Walk;
    WalkEncAttrs(OpList(ops));
    forall i | 0 <= i < |ops| ensures OpEntry(OpList(ops)[i]) == ops[i] {
      OpBack((i + 1) % 0x4000, ops[i]);
    }
  }

  lemma GroupsBack(groups: seq<McastInfo>)
    requires Sendable(McastList(groups))
    requires forall g :: g in groups ==> Sendable(McastAttrs(g)) && (g.name.Some? ==> CString(g.name.value))
    ensures McastsIn(Walk(EncAttrs(McastList(groups)))) == groups
  {
    hide McastEntry, EncAttrs, McastAttrs, Walk, CString;
    WalkEncAttrs(McastList(groups));
    forall i | 0 <= i < |groups| ensures McastEntry(McastList(groups)[i]) == groups[i] {
      assert groups[i] in groups;
      McastBack((i + 1) % 0x4000, groups[i]);
    }
  }

  lemma NamelessSendable(g: McastInfo)
    ensures g.name == None ==> Sendable(McastAttrs(g))
  {
    hide PutU32;
  }

  lemma ListsBack(f: Family)
    requires Describable(f)
    ensures OpsIn(Walk(EncAttrs(OpList(f.ops)))) == f.ops
    ensures McastsIn(Walk(EncAttrs(McastList(f.groups)))) == f.groups
  {
    hide OpsIn, McastsIn, EncAttrs, Walk, FamilyAttrs, OpList, McastList, McastAttrs, CString, Sendable;
    OpsBack(f.ops);
    forall g | g in f.groups ensures Sendable(McastAttrs(g)) { NamelessSendable(g); }
    GroupsBack(f.groups);
  }

  /** Every family the kernel can describe is read back whole. */
  lemma FamilyRoundTrip(f: Family, version: byte)
    requires Describable(f)
    ensures FamilyOf([CTRL_CMD_NEWFAMILY, version, 0, 0] + EncAttrs(FamilyAttrs(f))) == Append(f)
  {
    hide EncAttrs, Walk, FamilyAttrs, FoundFold, FoundStep, Text;
    var a := FamilyAttrs(f);
    EncAttrsSplit([CTRL_CMD_NEWFAMILY, version, 0, 0], a);
    NameBack(f.name);
    AttrSteps(f);
    FoldAt(KnownAfter(f, 0), a, 0);
    FoldAt(KnownAfter(f, 1), a, 1);
    FoldAt(KnownAfter(f, 2), a, 2);
    FoldAt(KnownAfter(f, 3), a, 3);
    FoldAt(KnownAfter(f, 4), a, 4);
    FoldAt(KnownAfter(f, 5), a, 5);
    FoldAt(KnownAfter(f, 6), a, 6);
    assert a[0..] == a;
  }

  /** What is known of `f` after the first `n` attributes of its message. */
  function KnownAfter(f: Family, n: nat): (r: Found)
    requires |f.name| < NAME_SIZE
    ensures |r.name| == NAME_SIZE
  {
    var f1 := if n < 1 then NOTHING_FOUND
              else NOTHING_FOUND.(name := PutName(NOTHING_FOUND.name, f.name + [0]), haveName := true);
    var f2 := if n < 2 then f1 else f1.(id := f.id, haveId := true);
    var f3 := if n < 3 then f2 else f2.(version := f.version);
    var f4 := if n < 4 then f3 else f3.(hdrsize := f.hdrsize);
    var f5 := if n < 5 then f4 else f4.(maxattr := f.maxattr);
    var f6 := if n < 6 then f5 else f5.(ops := f.ops);
    if n < 7 then f6 else f6.(groups := f.groups)
  }

  lemma AttrSteps(f: Family)
    requires Describable(f)
    ensures |FamilyAttrs(f)| == 7
    ensures var a := FamilyAttrs(f);
      && FoundStep(KnownAfter(f, 0), a[0]) == KnownAfter(f, 1) && FoundStep(KnownAfter(f, 1), a[1]) == KnownAfter(f, 2)
      && FoundStep(KnownAfter(f, 2), a[2]) == KnownAfter(f, 3) && FoundStep(KnownAfter(f, 3), a[3]) == KnownAfter(f, 4)
      && FoundStep(KnownAfter(f, 4), a[4]) == KnownAfter(f, 5) && FoundStep(KnownAfter(f, 5), a[5]) == KnownAfter(f, 6)
      && FoundStep(KnownAfter(f, 6), a[6]) == KnownAfter(f, 7)
  {
    hide PutU32, GetU32, PutU16, GetU16, EncAttrs, Walk, OpList, McastList, OpsIn, McastsIn, PutName;
    ListsBack(f);
  }

  lemma NameBack(name: bytes)
    requires CString(name) && |name| < NAME_SIZE
    ensures Text(PutName(NOTHING_FOUND.name, name + [0])) == name
  {
    var tail := Zeros(NAME_SIZE - 1 - |name|);
    assert PutName(NOTHING_FOUND.name, name + [0]) == name + [0] + tail;
    TextOf(name, tail);
  }

  lemma FoldAt(f: Found, a: seq<Attr>, i: nat)
    requires |f.name| == NAME_SIZE && i < |a|
    ensures FoundFold(f, a[i..]) == FoundFold(FoundStep(f, a[i]), a[i + 1..])
    ensures |a| == i + 1 ==> FoundFold(f, a[i..]) == FoundStep(f, a[i])
  {
    hide FoundStep;
    assert a[i..][1..] == a[i + 1..];
  }
}
