/** Draining the reply to an invoked operation: the loops of invoke_ethtool_get, invoke_generic_genl and
    rtnl_op_invoke, which differ only in how one answer is printed. */
module Invoke {
  import opened Wire
  import opened Schema
  import opened Render
  import opened Drain

  /** A row of the attribute table of a route operation. */
  datatype RouteName = RouteName(id: nat, name: string)

  /** The fixed header in front of the attributes of a route answer: ifinfomsg, ifaddrmsg, rtmsg, ndmsg. */
  datatype RouteHeader = IfInfo | IfAddr | RtMsg | NdMsg

  function HeaderSize(h: RouteHeader): (n: nat)
    ensures 8 <= n <= 16 && n % 4 == 0
  {
    match h case IfInfo => 16 case IfAddr => 8 case RtMsg => 12 case NdMsg => 12
  }

  function Signed(v: u32): int {
    if v < 0x8000_0000 then v else v - 0x1_0000_0000
  }

  /** The fields that render_msg_header prints; the padding of the structs is not among them. */
  function FieldsOf(h: RouteHeader, b: bytes): (fs: seq<int>)
    requires |b| == HeaderSize(h)
  {
    match h
    case IfInfo => [b[0], GetU16(b, 2), Signed(GetU32(b, 4)), GetU32(b, 8), GetU32(b, 12)]
    case IfAddr => [b[0], b[1], b[2], b[3], GetU32(b, 4)]
    case RtMsg => [b[0], b[1], b[2], b[3], b[4], b[5], b[6], b[7], GetU32(b, 8)]
    case NdMsg => [b[0], Signed(GetU32(b, 4)), GetU16(b, 8), b[10], b[11]]
  }

  /** How one answer is printed: its attributes under an attribute set, not at all for want of a set, or
      a fixed header and then its attributes flat under a route table. */
  datatype Decoder =
    | UnderSet(aset: AttrSet, m: Metadata)
    | NoSet
    | RouteTable(table: seq<RouteName>, head: RouteHeader)

  function RouteNameOf(table: seq<RouteName>, id: nat): (r: Option<string>)
    ensures r.Some? ==> RouteName(id, r.value) in table
    ensures r == None <==> forall e :: e in table ==> e.id != id
  {
    if table == [] then None else if table[0].id == id then Some(table[0].name) else RouteNameOf(table[1..], id)
  }

  /** rtnl_attr_lookup */
  method LookupRoute(table: seq<RouteName>, id: nat) returns (r: Option<string>)
    ensures r == RouteNameOf(table, id)
    ensures r == None <==> forall e :: e in table ==> e.id != id
    ensures r.Some? ==> exists i :: 0 <= i < |table| && table[i] == RouteName(id, r.value)
                                    && forall j :: 0 <= j < i ==> table[j].id != id
  {
    for i := 0 to |table|
      invariant forall j :: 0 <= j < i ==> table[j].id != id
      invariant RouteNameOf(table, id) == RouteNameOf(table[i..], id)
    {
      assert table[i..][0] == table[i] && table[i..][1..] == table[i + 1..];
      if table[i].id == id { return Some(table[i].name); }
    }
    return None;
  }

  function RoutePieces(table: seq<RouteName>, attrs: seq<Attr>): seq<Piece> {
    if attrs == [] then []
    else [RouteAttr(RouteNameOf(table, attrs[0].Type()), attrs[0].Type(), attrs[0].payload)] + RoutePieces(table, attrs[1..])
  }

  /** What is behind a header of `n` bytes; nothing if the message is shorter. */
  function Behind(payload: bytes, n: nat): bytes {
    if n <= |payload| then payload[n..] else []
  }

  function HeadPieces(h: RouteHeader, payload: bytes): seq<Piece> {
    if |payload| < HeaderSize(h) then [] else [RouteHead(FieldsOf(h, payload[..HeaderSize(h)]))]
  }

  function Body(dec: Decoder, m: Msg): seq<Piece> {
    match dec
    case UnderSet(aset, meta) => PrettyAll(Interpret(Behind(m.payload, 4), aset, meta), 1)
    case NoSet => [NoSchema(|m.payload| - 4)]
    case RouteTable(table, h) => HeadPieces(h, m.payload) + RoutePieces(table, Walk(Behind(m.payload, HeaderSize(h))))
  }

  function EntryPieces(dec: Decoder, dump: bool, number: nat, m: Msg): seq<Piece> {
    (if dump then [EntryHead(number)] else []) + Body(dec, m)
  }

  /** err->error, a signed 32-bit field at the start of an error message. */
  function ErrorField(m: Msg): int {
    if |m.payload| < 4 then 0 else Signed(GetU32(m.payload, 0))
  }

  predicate IsAck(m: Msg) {
    m.typ == NLMSG_ERROR && ErrorField(m) == 0
  }

  // ---------------------------------------------------------------------------------------------
  // The receive buffer

  /** The buffer of 65536 bytes and the sixteen bytes behind it. */
  type Memory = m: bytes | |m| == RECV_SIZE + 16 witness Zeros(RECV_SIZE + 16)

  /** The buffer once a datagram has been received into it: what is behind the datagram stays. */
  function Recv(memory: Memory, d: bytes): Memory {
    Received(d) + memory[|Received(d)|..]
  }

  predicate InBuffer(c: Cursor) {
    c.rem > 0 ==> c.pos + c.rem <= RECV_SIZE
  }

  /** How many bytes behind its header the loops read of a message without a look at its length: the
      field of an error message, and the fixed header of a route answer. */
  function Reads(dec: Decoder, typ: nat): (n: nat)
    ensures n <= 16 && n % 4 == 0
  {
    if typ == NLMSG_DONE then 0 else if typ == NLMSG_ERROR then 4
    else if dec.RouteTable? then HeaderSize(dec.head) else 0
  }

  predicate Short(dec: Decoder, m: Msg) {
    |m.payload| < Reads(dec, m.typ)
  }

  /** The message under the cursor as the loops see it: of a short one they read on behind its end. */
  function SeenAt(dec: Decoder, memory: Memory, c: Cursor): (m: Msg)
    requires InBuffer(c) && NlmsgOk(memory, c)
    ensures !Short(dec, m) && m.typ == NlmsgAt(memory, c).typ
  {
    var m := NlmsgAt(memory, c);
    if Short(dec, m)
    then m.(payload := memory[c.pos + NLMSG_HDRLEN..c.pos + NLMSG_HDRLEN + Reads(dec, m.typ)]) else m
  }

  function Seen(dec: Decoder, memory: Memory, c: Cursor): seq<Msg>
    requires InBuffer(c)
    decreases c.rem
  {
    if NlmsgOk(memory, c) then [SeenAt(dec, memory, c)] + Seen(dec, memory, NlmsgNext(memory, c)) else []
  }

  function Arrived(d: bytes): (c: Cursor)
    ensures InBuffer(c)
  {
    Cursor(0, |Received(d)|)
  }

  /** The messages of a run of datagrams as the loops see them. */
  function SeenAll(dec: Decoder, memory: Memory, ds: seq<bytes>): seq<Msg>
    decreases ds
  {
    if ds == [] then []
    else Seen(dec, Recv(memory, ds[0]), Arrived(ds[0])) + SeenAll(dec, Recv(memory, ds[0]), ds[1..])
  }

  lemma SeenStep(dec: Decoder, memory: Memory, c: Cursor)
    requires InBuffer(c) && NlmsgOk(memory, c)
    ensures InBuffer(NlmsgNext(memory, c))
    ensures Seen(dec, memory, c) == [SeenAt(dec, memory, c)] + Seen(dec, memory, NlmsgNext(memory, c))
  {
    hide GetU16, GetU32, SeenAt, Align4;
  }

  lemma NoneSeen(dec: Decoder, memory: Memory, c: Cursor)
    requires InBuffer(c) && !NlmsgOk(memory, c)
    ensures Seen(dec, memory, c) == []
  {
  }

  lemma SeenAllStep(dec: Decoder, memory: Memory, ds: seq<bytes>, i: nat)
    requires i < |ds|
    ensures SeenAll(dec, memory, ds[i..])
         == Seen(dec, Recv(memory, ds[i]), Arrived(ds[i])) + SeenAll(dec, Recv(memory, ds[i]), ds[i + 1..])
  {
    hide Seen, Recv, Arrived;
    assert ds[i..][0] == ds[i] && ds[i..][1..] == ds[i + 1..];
  }

  /** A datagram with no short message is seen as it was sent. */
  lemma {:induction false} SeenAsSent(dec: Decoder, memory: Memory, c: Cursor)
    requires InBuffer(c) && forall m :: m in MsgWalk(Window(memory, c)) ==> !Short(dec, m)
    ensures Seen(dec, memory, c) == MsgWalk(Window(memory, c))
    decreases c.rem
  {
    hide GetU16, GetU32, NlmsgOk, NlmsgNext, NlmsgAt, Window, MsgWalk, Short;
    MsgWalkStep(memory, c);
    if NlmsgOk(memory, c) {
      SeenStep(dec, memory, c);
      var m, later := NlmsgAt(memory, c), MsgWalk(Window(memory, NlmsgNext(memory, c)));
      assert m in [m] + later;
      assert forall n :: n in later ==> n in [m] + later;
      SeenAsSent(dec, memory, NlmsgNext(memory, c));
    }
  }

  /** Nor does what was in the buffer matter to a run of such datagrams. */
  lemma {:induction false} SeenAllAsSent(dec: Decoder, memory: Memory, ds: seq<bytes>)
    requires forall m :: m in Messages(ds) ==> !Short(dec, m)
    ensures SeenAll(dec, memory, ds) == Messages(ds)
    decreases ds
  {
    hide Seen, MsgWalk, Short, Received;
    if ds != [] {
      ArrivedWindow(memory, ds[0]);
      SeenAsSent(dec, Recv(memory, ds[0]), Arrived(ds[0]));
      SeenAllAsSent(dec, Recv(memory, ds[0]), ds[1..]);
    }
  }

  lemma ArrivedWindow(memory: Memory, d: bytes)
    ensures Window(Recv(memory, d), Arrived(d)) == Received(d)
  {
  }

  // ---------------------------------------------------------------------------------------------
  // The loop as a function of the messages

  datatype End = Done | Errno(code: int) | Starved
  datatype Reply = Reply(pieces: seq<Piece>, count: nat, end: End)

  /** `count` answers have been printed before `ms`. */
  function Run(dec: Decoder, dump: bool, ms: seq<Msg>, count: nat): Reply
    decreases ms
  {
    if ms == [] then Reply([], count, Starved)
    else if ms[0].typ == NLMSG_DONE then Reply([], count, Done)
    else if IsAck(ms[0]) then Run(dec, dump, ms[1..], count)
    else if ms[0].typ == NLMSG_ERROR then Reply([], count, Errno(-ErrorField(ms[0])))
    else
      var entry := EntryPieces(dec, dump, count + 1, ms[0]);
      if !dump then Reply(entry, count + 1, Done)
      else
        var r := Run(dec, dump, ms[1..], count + 1);
        r.(pieces := entry + r.pieces)
  }

  function Printed(pieces: seq<Piece>, r: Reply): Reply {
    r.(pieces := pieces + r.pieces)
  }

  lemma RunStep(pieces: seq<Piece>, dec: Decoder, dump: bool, m: Msg, later: seq<Msg>, count: nat)
    ensures Printed(pieces, Run(dec, dump, [m] + later, count))
         == if m.typ == NLMSG_DONE then Reply(pieces, count, Done)
            else if IsAck(m) then Printed(pieces, Run(dec, dump, later, count))
            else if m.typ == NLMSG_ERROR then Reply(pieces, count, Errno(-ErrorField(m)))
            else if !dump then Reply(pieces + EntryPieces(dec, dump, count + 1, m), count + 1, Done)
            else Printed(pieces + EntryPieces(dec, dump, count + 1, m), Run(dec, dump, later, count + 1))
  {
    hide EntryPieces, IsAck, ErrorField;
    assert ([m] + later)[1..] == later;
    assert pieces + [] == pieces;
    var entry, r := EntryPieces(dec, dump, count + 1, m), Run(dec, dump, later, count + 1);
    assert pieces + (entry + r.pieces) == pieces + entry + r.pieces;
  }

  lemma RunNone(pieces: seq<Piece>, dec: Decoder, dump: bool, count: nat)
    ensures Printed(pieces, Run(dec, dump, [], count)) == Reply(pieces, count, Starved)
  {
    assert pieces + [] == pieces;
  }

  // ---------------------------------------------------------------------------------------------
  // The numbers of the entries

  /** The numbers of the entry headings, in order. */
  function Numbers(ps: seq<Piece>): seq<nat> {
    if ps == [] then [] else (if ps[0].EntryHead? then [ps[0].number] else []) + Numbers(ps[1..])
  }

  lemma {:induction false} NumbersConcat(ps: seq<Piece>, qs: seq<Piece>)
    ensures Numbers(ps + qs) == Numbers(ps) + Numbers(qs)
  {
    if ps == [] {
      assert ps + qs == qs;
    } else {
      assert (ps + qs)[1..] == ps[1..] + qs && (ps + qs)[0] == ps[0];
      NumbersConcat(ps[1..], qs);
      var here := if ps[0].EntryHead? then [ps[0].number] else [];
      assert here + (Numbers(ps[1..]) + Numbers(qs)) == here + Numbers(ps[1..]) + Numbers(qs);
    }
  }

  /** Neither the head of a reply or an entry nor the foot of a reply. */
  predicate Inner(ps: seq<Piece>) {
    forall p :: p in ps ==> !p.EntryHead? && !p.Footer? && !p.Title?
  }

  lemma {:induction false} NoNumbers(ps: seq<Piece>)
    requires Inner(ps)
    ensures Numbers(ps) == []
  {
    if ps != [] {
      assert ps[0] in ps && forall p :: p in ps[1..] ==> p in ps;
      NoNumbers(ps[1..]);
    }
  }

  lemma {:induction false} PrettyInner(items: seq<Item>, depth: nat)
    ensures Inner(PrettyAll(items, depth))
    decreases items
  {
    if items != [] {
      hide Pretty;
      PrettyInner(items[1..], depth);
      if items[0].Section? { PrettyInner(items[0].kids, depth + 1); }
      ItemInner(items[0], depth);
    }
  }

  lemma ItemInner(it: Item, depth: nat)
    requires it.Section? ==> Inner(PrettyAll(it.kids, depth + 1))
    ensures Inner(Pretty(it, depth))
  {
    hide GetU16, GetU32, LooksLikeString, PrettyAll;
  }

  lemma {:induction false} RouteInner(table: seq<RouteName>, attrs: seq<Attr>)
    ensures Inner(RoutePieces(table, attrs))
  {
    if attrs != [] { RouteInner(table, attrs[1..]); }
  }

  lemma BodyInner(dec: Decoder, m: Msg)
    ensures Inner(Body(dec, m)) && Numbers(Body(dec, m)) == []
  {
    hide PrettyAll, Interpret, RoutePieces, Walk, FieldsOf;
    match dec {
      case UnderSet(aset, meta) => PrettyInner(Interpret(Behind(m.payload, 4), aset, meta), 1);
      case NoSet =>
      case RouteTable(table, h) => RouteInner(table, Walk(Behind(m.payload, HeaderSize(h))));
    }
    NoNumbers(Body(dec, m));
  }

  /** Each answer is numbered, one higher than the one before. */
  lemma {:induction false} RunNumbers(dec: Decoder, dump: bool, ms: seq<Msg>, count: nat)
    ensures var r := Run(dec, dump, ms, count);
      && count <= r.count && (forall p :: p in r.pieces ==> !p.Footer? && !p.Title?)
      && |Numbers(r.pieces)| == (if dump then r.count - count else 0)
      && forall i :: 0 <= i < |Numbers(r.pieces)| ==> Numbers(r.pieces)[i] == count + 1 + i
    decreases ms
  {
    hide Body, ErrorField, Numbers;
    NoNumbers([]);
    if ms != [] {
      RunNumbers(dec, dump, ms[1..], count);
      RunNumbers(dec, dump, ms[1..], count + 1);
      BodyInner(dec, ms[0]);
      var head, rest := if dump then [EntryHead(count + 1)] else [], Run(dec, dump, ms[1..], count + 1).pieces;
      NumbersConcat(head, Body(dec, ms[0]));
      NumbersConcat(head + Body(dec, ms[0]), rest);
      OneNumber(EntryHead(count + 1));
    }
  }

  lemma OneNumber(p: Piece)
    ensures Numbers([p]) == if p.EntryHead? then [p.number] else []
  {
    assert [p][1..] == [];
  }

  /** The loop goes on behind an acknowledgement and, in a dump, behind an answer. */
  predicate GoneBy(dump: bool, m: Msg) {
    (m.typ == 2 && |m.payload| >= 4 && m.payload[..4] == [0, 0, 0, 0]) || (dump && m.typ != 2 && m.typ != 3)
  }

  /** Every error message has its field by the time the loops see it. */
  predicate Whole(ms: seq<Msg>) {
    forall m :: m in ms && m.typ == 2 ==> |m.payload| >= 4
  }

  lemma {:induction false} SeenWhole(dec: Decoder, memory: Memory, c: Cursor)
    requires InBuffer(c)
    ensures Whole(Seen(dec, memory, c))
    decreases c.rem
  {
    hide GetU16, GetU32, NlmsgNext, NlmsgAt, SeenAt;
    if NlmsgOk(memory, c) {
      SeenStep(dec, memory, c);
      SeenWhole(dec, memory, NlmsgNext(memory, c));
    } else {
      NoneSeen(dec, memory, c);
    }
  }

  lemma {:induction false} AllSeenWhole(dec: Decoder, memory: Memory, ds: seq<bytes>)
    ensures Whole(SeenAll(dec, memory, ds))
    decreases ds
  {
    hide Seen, Recv;
    if ds != [] {
      SeenWhole(dec, Recv(memory, ds[0]), Arrived(ds[0]));
      AllSeenWhole(dec, Recv(memory, ds[0]), ds[1..]);
    }
  }

  lemma AckBytes(m: Msg)
    requires m.typ == 2 && |m.payload| >= 4
    ensures IsAck(m) <==> m.payload[..4] == [0, 0, 0, 0]
    ensures GetU32(m.payload, 0) == 0 <==> m.payload[..4] == [0, 0, 0, 0]
    ensures var v := GetU32(m.payload, 0) as int; -ErrorField(m) == if v < 0x8000_0000 then -v else 0x1_0000_0000 - v
  {
    NumberAt(m.payload, 0);
    assert m.payload[..4] == [m.payload[0], m.payload[1], m.payload[2], m.payload[3]];
  }

  /** How the loop ends at a message it does not go on behind: DONE is type 3, an error is type 2 with the
      negative errno in its first four bytes, and without NLM_F_DUMP any answer ends it. */
  ghost predicate EndsWith(dump: bool, m: Msg, end: End) {
    if m.typ == 3 then end == Done
    else if m.typ == 2 then
      |m.payload| >= 4 && var v := GetU32(m.payload, 0) as int; end == Errno(if v < 0x8000_0000 then -v else 0x1_0000_0000 - v)
    else !dump && end == Done
  }

  /** The first message that the loop does not go on behind ends it. */
  lemma {:induction false} RunEnds(dec: Decoder, dump: bool, ms: seq<Msg>, count: nat, k: nat)
    requires Whole(ms) && k <= |ms| && forall i :: 0 <= i < k ==> GoneBy(dump, ms[i])
    ensures k == |ms| ==> Run(dec, dump, ms, count).end == Starved
    ensures k < |ms| && !GoneBy(dump, ms[k]) ==> EndsWith(dump, ms[k], Run(dec, dump, ms, count).end)
    ensures k < |ms| && !dump && ms[k].typ !in {2, 3} ==> Run(dec, dump, ms, count) == Reply(Body(dec, ms[k]), count + 1, Done)
    decreases ms
  {
    hide Body, ErrorField, GoneBy, Run, EndsWith;
    if ms == [] {
      RunNone([], dec, dump, count);
    } else {
      var m, rest := ms[0], ms[1..];
      assert m in ms && forall x :: x in rest ==> x in ms;
      assert ms == [m] + rest;
      TurnEnds(dec, dump, m, rest, count);
      if k > 0 {
        assert GoneBy(dump, m);
        RunEnds(dec, dump, rest, if m.typ == 2 then count else count + 1, k - 1);
      }
    }
  }

  lemma TurnEnds(dec: Decoder, dump: bool, m: Msg, rest: seq<Msg>, count: nat)
    requires m.typ == 2 ==> |m.payload| >= 4
    ensures var r := Run(dec, dump, [m] + rest, count);
      && (!GoneBy(dump, m) ==> EndsWith(dump, m, r.end))
      && (!dump && m.typ !in {2, 3} ==> r == Reply(Body(dec, m), count + 1, Done))
      && (GoneBy(dump, m) ==> r.end == Run(dec, dump, rest, if m.typ == 2 then count else count + 1).end)
      && (GoneBy(dump, m) && !dump ==> m.typ == 2 && r == Run(dec, dump, rest, count))
  {
    hide Body, ErrorField, GetU32;
    assert ([m] + rest)[1..] == rest;
    if m.typ == 2 { AckBytes(m); }
    assert [] + Body(dec, m) == Body(dec, m);
  }

  /** An answer that the loop comes to is shown behind its number. */
  lemma {:induction false} RunAnswers(dec: Decoder, ms: seq<Msg>, count: nat, i: nat) returns (n: nat)
    requires i < |ms| && ms[i].typ !in {2, 3} && forall j :: 0 <= j < i ==> GoneBy(true, ms[j])
    requires Whole(ms)
    ensures Has(Run(dec, true, ms, count).pieces, [EntryHead(n)] + Body(dec, ms[i]))
    decreases ms
  {
    hide Body, ErrorField, Run, Has;
    var m, rest := ms[0], ms[1..];
    assert m in ms && forall x :: x in rest ==> x in ms;
    assert ms == [m] + rest;
    DumpTurnShows(dec, m, rest, count);
    var head := [EntryHead(count + 1)] + Body(dec, m);
    if i == 0 {
      n := count + 1;
      HasFirst(head, Run(dec, true, rest, count + 1).pieces);
    } else if m.typ == 2 {
      n := RunAnswers(dec, rest, count, i - 1);
    } else {
      n := RunAnswers(dec, rest, count + 1, i - 1);
      var all := Run(dec, true, rest, count + 1).pieces;
      HasWithin(head, all, [], [EntryHead(n)] + Body(dec, ms[i]));
      assert head + all + [] == head + all;
    }
  }

  lemma DumpTurnShows(dec: Decoder, m: Msg, rest: seq<Msg>, count: nat)
    requires m.typ == 2 ==> |m.payload| >= 4
    ensures m.typ !in {2, 3} ==>
      Run(dec, true, [m] + rest, count).pieces == [EntryHead(count + 1)] + Body(dec, m) + Run(dec, true, rest, count + 1).pieces
    ensures m.typ == 2 && GoneBy(true, m) ==> Run(dec, true, [m] + rest, count) == Run(dec, true, rest, count)
  {
    hide Body, ErrorField;
    assert ([m] + rest)[1..] == rest;
    if m.typ == 2 { AckBytes(m); }
  }

  lemma ShownAnswers(dec: Decoder, ms: seq<Msg>)
    requires Whole(ms)
    ensures var r := Shown(true, Run(dec, true, ms, 0));
      r.Rendered? ==> forall i ::
        0 <= i < |ms| && ms[i].typ !in {2, 3} && (forall j :: 0 <= j < i ==> GoneBy(true, ms[j])) ==>
          exists n :: Has(r.pieces, [EntryHead(n)] + Body(dec, ms[i]))
  {
    hide Run, Body, Has, GoneBy;
    var run := Run(dec, true, ms, 0);
    forall i | 0 <= i < |ms| && ms[i].typ !in {2, 3} && forall j :: 0 <= j < i ==> GoneBy(true, ms[j])
      ensures exists n :: Has([Title] + run.pieces + [Footer(run.count)], [EntryHead(n)] + Body(dec, ms[i]))
    {
      var n := RunAnswers(dec, ms, 0, i);
      HasWithin([Title], run.pieces, [Footer(run.count)], [EntryHead(n)] + Body(dec, ms[i]));
    }
  }

  // What an answer is, by its bytes.

  /** The structs of linux/if_link.h, if_addr.h, rtnetlink.h and neighbour.h, field after field. */
  lemma HeaderStructs(a: byte, b: byte, c: byte, d: byte, e: byte, f: byte, g: byte, h: byte, u: u16, v: u32, w: u32, x: u32)
    ensures HeaderSize(IfInfo) == 16 && HeaderSize(IfAddr) == 8 && HeaderSize(RtMsg) == 12 && HeaderSize(NdMsg) == 12
    ensures FieldsOf(IfInfo, [a, b] + PutU16(u) + PutU32(v) + PutU32(w) + PutU32(x))
         == [a, u, if v < 0x8000_0000 then v else v as int - 0x1_0000_0000, w, x]
    ensures FieldsOf(IfAddr, [a, b, c, d] + PutU32(v)) == [a, b, c, d, v]
    ensures FieldsOf(RtMsg, [a, b, c, d, e, f, g, h] + PutU32(v)) == [a, b, c, d, e, f, g, h, v]
    ensures FieldsOf(NdMsg, [a, b, c, d] + PutU32(v) + PutU16(u) + [e, f])
         == [a, if v < 0x8000_0000 then v else v as int - 0x1_0000_0000, u, e, f]
  {
    IfInfoStruct([a, b], u, v, w, x);
    NumberBehind([a, b, c, d], v, []);
    NumberBehind([a, b, c, d, e, f, g, h], v, []);
    NumberBehind([a, b, c, d], v, PutU16(u) + [e, f]);
    assert [a, b, c, d] + PutU32(v) + PutU16(u) + [e, f] == [a, b, c, d] + PutU32(v) + (PutU16(u) + [e, f]);
    assert [a, b, c, d] + PutU32(v) + [] == [a, b, c, d] + PutU32(v);
    assert [a, b, c, d, e, f, g, h] + PutU32(v) + [] == [a, b, c, d, e, f, g, h] + PutU32(v);
  }

  lemma IfInfoStruct(ab: bytes, u: u16, v: u32, w: u32, x: u32)
    requires |ab| == 2
    ensures var s := ab + PutU16(u) + PutU32(v) + PutU32(w) + PutU32(x);
            GetU16(s, 2) == u && GetU32(s, 4) == v && GetU32(s, 8) == w && GetU32(s, 12) == x
  {
    var s := ab + PutU16(u) + PutU32(v) + PutU32(w) + PutU32(x);
    NumberBehind(ab + PutU16(u), v, PutU32(w) + PutU32(x));
    NumberBehind(ab + PutU16(u) + PutU32(v), w, PutU32(x));
    NumberBehind(ab + PutU16(u) + PutU32(v) + PutU32(w), x, []);
    assert s == ab + PutU16(u) + PutU32(v) + (PutU32(w) + PutU32(x)) == s + [];
    assert s[2..4] == PutU16(u);
  }

  lemma NumberBehind(before: bytes, v: u32, after: bytes)
    ensures GetU32(before + PutU32(v) + after, |before|) == v
  {
    hide PutU32;
    var s, n := before + PutU32(v) + after, |before|;
    assert s[n..n + 4] == PutU32(v);
    assert s[n] == PutU32(v)[0] && s[n + 1] == PutU32(v)[1] && s[n + 2] == PutU32(v)[2] && s[n + 3] == PutU32(v)[3];
  }

  /** The attributes of an answer start behind its genlmsghdr, and are shown one level deep. */
  lemma BodyShows(dec: Decoder, m: Msg)
    ensures dec.UnderSet? && |m.payload| >= 4 ==> forall path, sets ::
      Follows(m.payload[4..], dec.aset, dec.m, path, sets) ==>
        Told(Body(dec, m), dec.m, sets[|path| - 1], path[|path| - 1], |path|)
    ensures dec.NoSet? ==> Body(dec, m) == [NoSchema(|m.payload| - 4)]
  {
    hide Told, Interpret, PrettyAll, RoutePieces, HeadPieces, Walk, ReadUnder, InOneLine;
    if dec.UnderSet? && |m.payload| >= 4 {
      PathsTold(m.payload[4..], dec.aset, dec.m, 1);
      forall path, sets | Follows(m.payload[4..], dec.aset, dec.m, path, sets)
        ensures Told(Body(dec, m), dec.m, sets[|path| - 1], path[|path| - 1], |path|)
      {
        assert 1 + |path| - 1 == |path|;
      }
    }
  }

  /** Those of a route answer start behind its fixed header, and are shown under the names of the table. */
  lemma RouteBodyShows(table: seq<RouteName>, h: RouteHeader, m: Msg)
    requires |m.payload| >= HeaderSize(h)
    ensures var n := HeaderSize(h); var ps, attrs := Body(RouteTable(table, h), m), Walk(m.payload[n..]);
      && ps != [] && ps[0] == RouteHead(FieldsOf(h, m.payload[..n])) && |ps[1..]| == |attrs|
      && forall i :: 0 <= i < |attrs| ==>
           ps[1..][i] == RouteAttr(RouteNameOf(table, attrs[i].Type()), attrs[i].Type(), attrs[i].payload)
  {
    hide FieldsOf, Walk, RoutePieces, RouteNameOf, Body, HeaderSize;
    var rs := RoutePieces(table, Walk(m.payload[HeaderSize(h)..]));
    RoutePiecesAt(table, Walk(m.payload[HeaderSize(h)..]));
    RouteBody(table, h, m);
    assert Body(RouteTable(table, h), m)[1..] == rs;
  }

  lemma RouteBody(table: seq<RouteName>, h: RouteHeader, m: Msg)
    requires |m.payload| >= HeaderSize(h)
    ensures var n := HeaderSize(h);
      Body(RouteTable(table, h), m) == [RouteHead(FieldsOf(h, m.payload[..n]))] + RoutePieces(table, Walk(m.payload[n..]))
  {
    hide FieldsOf, Walk, RoutePieces, HeaderSize;
  }

  lemma {:induction false} RoutePiecesAt(table: seq<RouteName>, attrs: seq<Attr>)
    ensures |RoutePieces(table, attrs)| == |attrs|
    ensures forall i :: 0 <= i < |attrs| ==>
      RoutePieces(table, attrs)[i] == RouteAttr(RouteNameOf(table, attrs[i].Type()), attrs[i].Type(), attrs[i].payload)
  {
    if attrs != [] { RoutePiecesAt(table, attrs[1..]); }
  }

  lemma ShownEnds(dec: Decoder, dump: bool, ms: seq<Msg>)
    requires Whole(ms)
    ensures var r := Shown(dump, Run(dec, dump, ms, 0));
      && (forall k :: 0 <= k < |ms| && (forall i :: 0 <= i < k ==> GoneBy(dump, ms[i])) ==>
            && (ms[k].typ == 3 ==> r.Rendered?)
            && (ms[k].typ == 2 && !GoneBy(dump, ms[k]) ==> r.KernelErrno? && EndsWith(dump, ms[k], Errno(r.code)))
            && (!dump && ms[k].typ !in {2, 3} ==> r == Rendered([Title] + Body(dec, ms[k]))))
      && ((forall m :: m in ms ==> GoneBy(dump, m)) ==> r == RecvError)
  {
    hide Run, Body;
    forall k | 0 <= k < |ms| && forall i :: 0 <= i < k ==> GoneBy(dump, ms[i])
      ensures !GoneBy(dump, ms[k]) ==> EndsWith(dump, ms[k], Run(dec, dump, ms, 0).end)
      ensures !dump && ms[k].typ !in {2, 3} ==> Run(dec, dump, ms, 0) == Reply(Body(dec, ms[k]), 1, Done)
    {
      RunEnds(dec, dump, ms, 0, k);
    }
    if forall m :: m in ms ==> GoneBy(dump, m) { RunEnds(dec, dump, ms, 0, |ms|); }
  }

  lemma ShownNumbers(dump: bool, r: Reply)
    requires (forall p :: p in r.pieces ==> !p.Footer? && !p.Title?) && |Numbers(r.pieces)| == (if dump then r.count else 0)
    requires forall i :: 0 <= i < |Numbers(r.pieces)| ==> Numbers(r.pieces)[i] == 1 + i
    ensures var o := Shown(dump, r);
      o.Rendered? ==>
        && |o.pieces| >= 1 && o.pieces[0] == Title
        && (dump ==> var n, last := |Numbers(o.pieces)|, |o.pieces| - 1;
              && o.pieces[last] == Footer(n) && (forall i :: 0 <= i < n ==> Numbers(o.pieces)[i] == i + 1)
              && forall p :: p in o.pieces[..last] ==> !p.Footer?)
        && (!dump ==> forall p :: p in o.pieces ==> !p.Footer? && !p.EntryHead?)
  {
    hide Numbers;
    var foot := if dump then [Footer(r.count)] else [];
    OneNumber(Title);
    OneNumber(Footer(r.count));
    NumbersConcat([Title], r.pieces);
    NumbersConcat([Title] + r.pieces, foot);
    if dump {
      assert ([Title] + r.pieces + foot)[..|[Title] + r.pieces|] == [Title] + r.pieces;
    } else {
      NoHeads(r.pieces);
    }
  }

  lemma {:induction false} NoHeads(ps: seq<Piece>)
    requires Numbers(ps) == []
    ensures forall p :: p in ps ==> !p.EntryHead?
  {
    if ps != [] { NoHeads(ps[1..]); }
  }

  // ---------------------------------------------------------------------------------------------
  // The loop

  /** Prints the answer under the cursor. */
  method PrintBody(out: Printer, dec: Decoder, memory: Memory, c: Cursor)
    requires InBuffer(c) && NlmsgOk(memory, c) && NlmsgAt(memory, c).typ !in {NLMSG_ERROR, NLMSG_DONE}
    modifies out
    ensures out.pieces == old(out.pieces) + Body(dec, SeenAt(dec, memory, c))
  {
    hide GetU16, GetU32, Window, Interpret, PrettyAll, RoutePieces, Walk, FieldsOf, NlmsgAt;
    var len := GetU32(memory, c.pos);
    PayloadSize(memory, c);
    match dec
    case UnderSet(aset, meta) =>
      BehindWindow(memory, c, 4);
      RenderAttrs(out, memory, Cursor(c.pos + NLMSG_HDRLEN + 4, len - NLMSG_HDRLEN - 4), aset, meta, 1);
    case NoSet =>
      out.Put(NoSchema(len - NLMSG_HDRLEN - 4));
    case RouteTable(table, h) =>
      RouteSeen(dec, memory, c);
      ghost var p := out.pieces;
      var at, n := c.pos + NLMSG_HDRLEN, HeaderSize(h);
      out.Put(RouteHead(FieldsOf(h, memory[at..at + n])));
      PrintRoute(out, table, memory, Cursor(at + n, len - NLMSG_HDRLEN - n));
      Regrouped(p, HeadPieces(h, SeenAt(dec, memory, c).payload),
                RoutePieces(table, Walk(Behind(SeenAt(dec, memory, c).payload, n))));
  }

  lemma Regrouped(a: seq<Piece>, b: seq<Piece>, c: seq<Piece>)
    ensures a + b + c == a + (b + c)
  {
  }

  lemma PayloadSize(memory: Memory, c: Cursor)
    requires InBuffer(c) && NlmsgOk(memory, c)
    ensures |NlmsgAt(memory, c).payload| == GetU32(memory, c.pos) - NLMSG_HDRLEN
  {
  }

  /** The header of a route answer and its attributes, read through the cursor. */
  lemma RouteSeen(dec: Decoder, memory: Memory, c: Cursor)
    requires InBuffer(c) && NlmsgOk(memory, c) && NlmsgAt(memory, c).typ !in {NLMSG_ERROR, NLMSG_DONE} && dec.RouteTable?
    ensures var p, at, n := SeenAt(dec, memory, c).payload, c.pos + NLMSG_HDRLEN, HeaderSize(dec.head);
            var d := Cursor(at + n, GetU32(memory, c.pos) - NLMSG_HDRLEN - n);
            && n <= |p| && p[..n] == memory[at..at + n]
            && Inside(memory, d) && Window(memory, d) == Behind(p, n)
  {
    hide GetU16, GetU32;
    BehindWindow(memory, c, HeaderSize(dec.head));
  }

  lemma BehindWindow(buf: bytes, c: Cursor, n: nat)
    requires Inside(buf, c) && NlmsgOk(buf, c)
    ensures var d := Cursor(c.pos + NLMSG_HDRLEN + n, GetU32(buf, c.pos) - NLMSG_HDRLEN - n);
            Inside(buf, d) && Window(buf, d) == Behind(NlmsgAt(buf, c).payload, n)
  {
    hide GetU16, GetU32;
    var len := GetU32(buf, c.pos);
    if NLMSG_HDRLEN + n <= len {
      SubSlice(buf, c.pos + NLMSG_HDRLEN, c.pos + len, n, len - NLMSG_HDRLEN);
    }
  }

  /** The attribute loop of rtnl_op_invoke. */
  method PrintRoute(out: Printer, table: seq<RouteName>, buf: bytes, first: Cursor)
    requires Inside(buf, first)
    modifies out
    ensures out.pieces == old(out.pieces) + RoutePieces(table, Walk(Window(buf, first)))
  {
    hide Walk, Window, NlaOk, NlaNext;
    var c := first;
    while NlaOk(buf, c)
      invariant Inside(buf, c)
      invariant out.pieces + RoutePieces(table, Walk(Window(buf, c)))
             == old(out.pieces) + RoutePieces(table, Walk(Window(buf, first)))
      decreases c.rem
    {
      WalkStep(buf, c);
      var a := NlaAt(buf, c);
      var name := LookupRoute(table, a.Type());
      ghost var before, rest := out.pieces, RoutePieces(table, Walk(Window(buf, NlaNext(buf, c))));
      out.Put(RouteAttr(name, a.Type(), a.payload));
      assert before + ([RouteAttr(name, a.Type(), a.payload)] + rest) == out.pieces + rest;
      c := NlaNext(buf, c);
    }
    WalkStep(buf, c);
  }

  /** The message loop over one datagram; Starved means that recv is called again. */
  method PrintDatagram(out: Printer, dec: Decoder, dump: bool, memory: Memory, first: Cursor, before: nat)
    returns (count: nat, end: End)
    requires InBuffer(first)
    modifies out
    ensures Reply(out.pieces, count, end) == Printed(old(out.pieces), Run(dec, dump, Seen(dec, memory, first), before))
  {
    hide GetU16, GetU32, NlmsgNext, NlmsgAt, Run, Body, Seen, ErrorField;
    var c := first;
    count := before;
    while NlmsgOk(memory, c)
      invariant InBuffer(c)
      invariant Printed(out.pieces, Run(dec, dump, Seen(dec, memory, c), count))
             == Printed(old(out.pieces), Run(dec, dump, Seen(dec, memory, first), before))
      decreases c.rem
    {
      SeenStep(dec, memory, c);
      var m := SeenAt(dec, memory, c);
      RunStep(out.pieces, dec, dump, m, Seen(dec, memory, NlmsgNext(memory, c)), count);
      if m.typ == NLMSG_DONE { return count, Done; }
      if m.typ == NLMSG_ERROR {
        if ErrorField(m) == 0 {
          c := NlmsgNext(memory, c);
          continue;
        }
        return count, Errno(-ErrorField(m));
      }
      ghost var p := out.pieces;
      if dump { out.Put(EntryHead(count + 1)); }
      PrintBody(out, dec, memory, c);
      assert out.pieces == p + EntryPieces(dec, dump, count + 1, m);
      count := count + 1;
      if !dump { return count, Done; }
      c := NlmsgNext(memory, c);
    }
    NoneSeen(dec, memory, c);
    RunNone(out.pieces, dec, dump, count);
    return count, Starved;
  }

  datatype Outcome = Rendered(pieces: seq<Piece>) | KernelErrno(code: int, replies: nat) | RecvError

  /** What the user is shown. */
  function Shown(dump: bool, r: Reply): Outcome {
    match r.end
    case Done => Rendered([Title] + r.pieces + if dump then [Footer(r.count)] else [])
    case Errno(code) => KernelErrno(code, r.count)
    case Starved => RecvError
  }

  /** The reply as it is shown.  `blank` is what the buffer holds before anything is received. */
  method DrainReply(dec: Decoder, dump: bool, datagrams: seq<bytes>, blank: Memory) returns (r: Outcome)
    ensures r == Shown(dump, Run(dec, dump, SeenAll(dec, blank, datagrams), 0))
    ensures r.Rendered? ==> |r.pieces| >= 1 && r.pieces[0] == Title
    // the last line counts the entries, which are numbered from one
    ensures r.Rendered? && dump ==>
              var n, last := |Numbers(r.pieces)|, |r.pieces| - 1;
              && last >= 0 && r.pieces[last] == Footer(n) && (forall i :: 0 <= i < n ==> Numbers(r.pieces)[i] == i + 1)
              && forall p :: p in r.pieces[..last] ==> !p.Footer?
    ensures r.Rendered? && !dump ==> forall p :: p in r.pieces ==> !p.Footer? && !p.EntryHead?
    // the first message that is neither an acknowledgement nor, in a dump, an answer ends the loop
    ensures forall k ::
      0 <= k < |SeenAll(dec, blank, datagrams)| && (forall i :: 0 <= i < k ==> GoneBy(dump, SeenAll(dec, blank, datagrams)[i])) ==>
        var m := SeenAll(dec, blank, datagrams)[k];
        && (m.typ == 3 ==> r.Rendered?)
        && (m.typ == 2 && !GoneBy(dump, m) ==> r.KernelErrno? && EndsWith(dump, m, Errno(r.code)))
        && (!dump && m.typ !in {2, 3} ==> r == Rendered([Title] + Body(dec, m)))
    ensures (forall m :: m in SeenAll(dec, blank, datagrams) ==> GoneBy(dump, m)) ==> r == RecvError
    // in a dump every answer before it is shown behind its number
    ensures r.Rendered? && dump ==> forall i ::
      0 <= i < |SeenAll(dec, blank, datagrams)| && SeenAll(dec, blank, datagrams)[i].typ !in {2, 3}
      && (forall j :: 0 <= j < i ==> GoneBy(true, SeenAll(dec, blank, datagrams)[j])) ==>
        exists n :: Has(r.pieces, [EntryHead(n)] + Body(dec, SeenAll(dec, blank, datagrams)[i]))
  {
    AllSeenWhole(dec, blank, datagrams);
    ShownEnds(dec, dump, SeenAll(dec, blank, datagrams));
    ShownAnswers(dec, SeenAll(dec, blank, datagrams));
    RunNumbers(dec, dump, SeenAll(dec, blank, datagrams), 0);
    ShownNumbers(dump, Run(dec, dump, SeenAll(dec, blank, datagrams), 0));
    r := ReceiveLoop(dec, dump, datagrams, blank);
  }

  method ReceiveLoop(dec: Decoder, dump: bool, datagrams: seq<bytes>, blank: Memory) returns (r: Outcome)
    ensures r == Shown(dump, Run(dec, dump, SeenAll(dec, blank, datagrams), 0))
  {
    hide Run, Recv, Seen, SeenAll, Arrived;
    var out := new Printer();
    out.Put(Title);
    var count, memory := 0, blank;
    ghost var all := Printed([Title], Run(dec, dump, SeenAll(dec, blank, datagrams), 0));
    assert datagrams[0..] == datagrams;
    for i := 0 to |datagrams|
      invariant Printed(out.pieces, Run(dec, dump, SeenAll(dec, memory, datagrams[i..]), count)) == all
    {
      SeenAllStep(dec, memory, datagrams, i);
      memory := Recv(memory, datagrams[i]);
      var first := Arrived(datagrams[i]);
      RunConcat(out.pieces, dec, dump, Seen(dec, memory, first), SeenAll(dec, memory, datagrams[i + 1..]), count);
      var end;
      count, end := PrintDatagram(out, dec, dump, memory, first, count);
      match end
      case Starved =>
      case Errno(code) => return KernelErrno(code, count);
      case Done =>
        ghost var shown := out.pieces;
        if dump { out.Put(Footer(count)); }
        assert shown == [Title] + Run(dec, dump, SeenAll(dec, blank, datagrams), 0).pieces;
        return Rendered(out.pieces);
    }
    NoDatagrams(dec, memory, datagrams);
    RunNone(out.pieces, dec, dump, count);
    return RecvError;
  }

  lemma NoDatagrams(dec: Decoder, memory: Memory, ds: seq<bytes>)
    ensures SeenAll(dec, memory, ds[|ds|..]) == []
  {
  }

  lemma {:induction false} RunConcat(pieces: seq<Piece>, dec: Decoder, dump: bool, ms: seq<Msg>, later: seq<Msg>, count: nat)
    ensures var here := Printed(pieces, Run(dec, dump, ms, count));
            Printed(pieces, Run(dec, dump, ms + later, count))
            == if here.end == Starved then Printed(here.pieces, Run(dec, dump, later, here.count)) else here
    decreases ms
  {
    hide Run, EntryPieces, IsAck;
    if ms == [] {
      assert ms + later == later;
      RunNone(pieces, dec, dump, count);
    } else {
      var m, rest := ms[0], ms[1..];
      assert ms == [m] + rest && ms + later == [m] + (rest + later);
      RunStep(pieces, dec, dump, m, rest, count);
      RunStep(pieces, dec, dump, m, rest + later, count);
      RunConcat(pieces, dec, dump, rest, later, count);
      RunConcat(pieces + EntryPieces(dec, dump, count + 1, m), dec, dump, rest, later, count + 1);
    }
  }

  // ---------------------------------------------------------------------------------------------
  // What is shown

  predicate Ends(m: Msg) {
    m.typ == NLMSG_DONE || (m.typ == NLMSG_ERROR && !IsAck(m))
  }

  function Answers(ms: seq<Msg>): seq<Msg> {
    if ms == [] then [] else (if IsAck(ms[0]) then [] else [ms[0]]) + Answers(ms[1..])
  }

  function Entries(dec: Decoder, ms: seq<Msg>, first: nat): seq<Piece> {
    if ms == [] then [] else EntryPieces(dec, true, first, ms[0]) + Entries(dec, ms[1..], first + 1)
  }

  /** A dump shows exactly the messages in front of the first DONE or real error, acks left out, in order
      and numbered from one, and counts them. */
  lemma {:induction false} DumpShows(dec: Decoder, ms: seq<Msg>, count: nat, k: nat)
    requires k <= |ms| && (forall i :: 0 <= i < k ==> !Ends(ms[i])) && (k < |ms| ==> Ends(ms[k]))
    ensures Run(dec, true, ms, count)
         == Reply(Entries(dec, Answers(ms[..k]), count + 1), count + |Answers(ms[..k])|,
                  if k == |ms| then Starved else if ms[k].typ == NLMSG_DONE then Done else Errno(-ErrorField(ms[k])))
    decreases ms
  {
    hide EntryPieces, ErrorField, IsAck, Run, Answers, Entries;
    if k == 0 {
      assert ms[..0] == [];
      DumpEnds(dec, ms, count);
    } else {
      var m, rest := ms[0], ms[1..];
      assert ms == [m] + rest && ms[..k] == [m] + rest[..k - 1];
      assert !Ends(m);
      DumpTurn(dec, m, rest, count);
      AnswersCons(m, rest[..k - 1]);
      EntriesCons(dec, m, Answers(rest[..k - 1]), count + 1);
      DumpShows(dec, rest, if IsAck(m) then count else count + 1, k - 1);
    }
  }

  /** Nothing is shown of what ends the dump. */
  lemma DumpEnds(dec: Decoder, ms: seq<Msg>, count: nat)
    requires ms != [] ==> Ends(ms[0])
    ensures Run(dec, true, ms, count)
         == Reply(Entries(dec, Answers([]), count + 1), count + |Answers([])|,
                  if ms == [] then Starved else if ms[0].typ == NLMSG_DONE then Done else Errno(-ErrorField(ms[0])))
  {
    hide ErrorField;
  }

  lemma DumpTurn(dec: Decoder, m: Msg, rest: seq<Msg>, count: nat)
    requires !Ends(m)
    ensures Run(dec, true, [m] + rest, count)
         == if IsAck(m) then Run(dec, true, rest, count)
            else Printed(EntryPieces(dec, true, count + 1, m), Run(dec, true, rest, count + 1))
  {
    hide EntryPieces, IsAck;
    assert ([m] + rest)[1..] == rest;
  }

  lemma AnswersCons(m: Msg, rest: seq<Msg>)
    ensures Answers([m] + rest) == if IsAck(m) then Answers(rest) else [m] + Answers(rest)
  {
    hide IsAck;
    assert ([m] + rest)[1..] == rest;
  }

  lemma EntriesCons(dec: Decoder, m: Msg, rest: seq<Msg>, first: nat)
    ensures Entries(dec, [m] + rest, first) == EntryPieces(dec, true, first, m) + Entries(dec, rest, first + 1)
  {
    hide EntryPieces;
    assert ([m] + rest)[1..] == rest;
  }

  /** A request without NLM_F_DUMP shows the first message that is not an ack, and only that one. */
  lemma {:induction false} OneShotShows(dec: Decoder, ms: seq<Msg>, k: nat)
    requires k < |ms| && (forall i :: 0 <= i < k ==> IsAck(ms[i])) && !IsAck(ms[k]) && !Ends(ms[k])
    ensures Run(dec, false, ms, 0) == Reply(Body(dec, ms[k]), 1, Done)
    decreases ms
  {
    hide Body, ErrorField;
    if k > 0 {
      OneShotShows(dec, ms[1..], k - 1);
    } else {
      assert [] + Body(dec, ms[0]) == Body(dec, ms[0]);
    }
  }
}
