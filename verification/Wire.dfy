/** Bytes, 4-byte alignment, and the attribute (nlattr) and message (nlmsghdr) walks that every
    netlink reader of the program shares.

    `Walk` and `MsgWalk` are the reference readings of a byte string.  `Cursor` is the pair of
    variables (pointer, remaining length) that the C loops advance with NLA_NEXT and NLMSG_NEXT;
    the step lemmas say that advancing it is the same as taking the rest of the byte string. */
module Wire {
  type byte = x: int | 0 <= x < 0x100
  type u16 = x: int | 0 <= x < 0x1_0000
  type u32 = x: int | 0 <= x < 0x1_0000_0000
  type bytes = seq<byte>

  const NLA_HDRLEN: nat := 4
  const NLMSG_HDRLEN: nat := 16
  const NLA_TYPE_LIMIT: nat := 0x4000  // NLA_TYPE_MASK keeps the low 14 bits

  /** NLA_ALIGN and NLMSG_ALIGN. */
  function Align4(n: nat): (r: nat)
    ensures n <= r < n + 4
  {
    (n + 3) / 4 * 4
  }

  lemma Aligned(n: nat)
    ensures Align4(n) % 4 == 0
    ensures n % 4 == 0 ==> Align4(n) == n
  {
  }

  lemma AlignedSum(m: nat, n: nat)
    requires m % 4 == 0 && n % 4 == 0
    ensures (m + n) % 4 == 0
  {
  }

  // Integers are stored in the byte order of a little-endian host.

  function PutU16(v: u16): (b: bytes)
    ensures |b| == 2 && GetU16(b, 0) == v
  {
    [v % 0x100, v / 0x100]
  }

  function GetU16(b: bytes, i: nat): u16
    requires i + 2 <= |b|
  {
    b[i] as int + 0x100 * b[i + 1] as int
  }

  function PutU32(v: u32): (b: bytes)
    ensures |b| == 4 && GetU32(b, 0) == v
  {
    PutU16(v % 0x1_0000) + PutU16(v / 0x1_0000)
  }

  function GetU32(b: bytes, i: nat): u32
    requires i + 4 <= |b|
  {
    GetU16(b, i) as int + 0x1_0000 * GetU16(b, i + 2) as int
  }

  function Zeros(n: nat): (b: bytes)
    ensures |b| == n && forall i :: 0 <= i < n ==> b[i] == 0
  {
    seq(n, _ => 0)
  }

  // ---------------------------------------------------------------------------------------------
  // Attributes

  datatype Attr = Attr(raw: u16, payload: bytes) {
    /** nla_type & NLA_TYPE_MASK */
    function Type(): (t: nat) ensures t < NLA_TYPE_LIMIT { raw % 0x4000 }

    /** nla_type & NLA_F_NESTED */
    predicate Nested() { raw >= 0x8000 }
  }

  /** NLA_OK over a whole byte string. */
  predicate AttrOk(b: bytes) {
    |b| >= NLA_HDRLEN && NLA_HDRLEN <= GetU16(b, 0) <= |b|
  }

  function FirstAttr(b: bytes): (a: Attr)
    requires AttrOk(b)
    ensures |a.payload| + NLA_HDRLEN <= |b|
  {
    Attr(GetU16(b, 2), b[NLA_HDRLEN..GetU16(b, 0)])
  }

  function RestAttrs(b: bytes): (r: bytes)
    requires AttrOk(b)
    ensures |r| + NLA_HDRLEN <= |b|
  {
    var n := Align4(GetU16(b, 0));
    if n <= |b| then b[n..] else []
  }

  /** The attributes a NLA_OK/NLA_NEXT loop visits, in order. */
  function Walk(b: bytes): seq<Attr>
    decreases |b|
  {
    if AttrOk(b) then [FirstAttr(b)] + Walk(RestAttrs(b)) else []
  }

  /** struct nlattr: nla_len, truncated to its 16-bit field, then nla_type. */
  function Hdr(len: nat, raw: u16): (b: bytes)
    ensures |b| == NLA_HDRLEN
  {
    PutU16(len % 0x1_0000) + PutU16(raw)
  }

  function Pad(n: nat): bytes {
    Zeros(Align4(n) - n)
  }

  /** Header, payload, zero padding. */
  function EncAttr(a: Attr): (b: bytes)
    ensures |b| == Align4(NLA_HDRLEN + |a.payload|)
  {
    Hdr(NLA_HDRLEN + |a.payload|, a.raw) + a.payload + Pad(NLA_HDRLEN + |a.payload|)
  }

  predicate Sendable(attrs: seq<Attr>) {
    forall a :: a in attrs ==> NLA_HDRLEN + |a.payload| < 0x1_0000
  }

  function EncAttrs(attrs: seq<Attr>): bytes {
    if attrs == [] then [] else EncAttr(attrs[0]) + EncAttrs(attrs[1..])
  }

  lemma PeelAttr(a: Attr, rest: bytes)
    requires NLA_HDRLEN + |a.payload| < 0x1_0000
    ensures var b := EncAttr(a) + rest; AttrOk(b) && FirstAttr(b) == a && RestAttrs(b) == rest
  {
    var b := EncAttr(a) + rest;
    var total := NLA_HDRLEN + |a.payload|;
    assert b[..NLA_HDRLEN] == Hdr(total, a.raw);
    assert GetU16(b, 0) == GetU16(PutU16(total), 0) && GetU16(b, 2) == GetU16(PutU16(a.raw), 0);
    assert b[NLA_HDRLEN..total] == a.payload;
    assert b[Align4(total)..] == rest;
  }

  /** Walking an encoded attribute list gives the list back. */
  lemma {:induction false} WalkEncAttrs(attrs: seq<Attr>)
    requires Sendable(attrs)
    ensures Walk(EncAttrs(attrs)) == attrs
  {
    if attrs != [] {
      PeelAttr(attrs[0], EncAttrs(attrs[1..]));
      WalkEncAttrs(attrs[1..]);
    }
  }

  /** The C loop variables: offset of the current attribute and signed remaining length. */
  datatype Cursor = Cursor(pos: nat, rem: int)

  predicate Inside(buf: bytes, c: Cursor) {
    c.rem > 0 ==> c.pos + c.rem <= |buf|
  }

  /** The bytes a loop standing at `c` may still look at. */
  function Window(buf: bytes, c: Cursor): (w: bytes)
    requires Inside(buf, c)
    ensures |w| == if c.rem > 0 then c.rem else 0
  {
    if c.rem > 0 then buf[c.pos..c.pos + c.rem] else []
  }

  predicate NlaOk(buf: bytes, c: Cursor)
    requires Inside(buf, c)
  {
    c.rem >= NLA_HDRLEN && NLA_HDRLEN <= GetU16(buf, c.pos) <= c.rem
  }

  function NlaNext(buf: bytes, c: Cursor): (n: Cursor)
    requires Inside(buf, c) && NlaOk(buf, c)
    ensures Inside(buf, n) && n.rem + NLA_HDRLEN <= c.rem
  {
    var step := Align4(GetU16(buf, c.pos));
    Cursor(c.pos + step, c.rem - step)
  }

  /** NLA_DATA and NLA_PAYLOAD, as the cursor of an inner loop. */
  function NlaData(buf: bytes, c: Cursor): (d: Cursor)
    requires Inside(buf, c) && NlaOk(buf, c)
    ensures Inside(buf, d) && 0 <= d.rem && d.rem + NLA_HDRLEN <= c.rem
  {
    Cursor(c.pos + NLA_HDRLEN, GetU16(buf, c.pos) - NLA_HDRLEN)
  }

  function NlaRawType(buf: bytes, c: Cursor): u16
    requires Inside(buf, c) && NlaOk(buf, c)
  {
    GetU16(buf, c.pos + 2)
  }

  lemma SubSlice(buf: bytes, lo: nat, hi: nat, i: nat, j: nat)
    requires lo <= hi <= |buf| && i <= j <= hi - lo
    ensures buf[lo..hi][i..j] == buf[lo + i..lo + j]
  {
    var a, b := buf[lo..hi][i..j], buf[lo + i..lo + j];
    assert forall k :: 0 <= k < |a| ==> a[k] == b[k];
  }

  /** One turn of any NLA_OK/NLA_NEXT loop, in terms of the window only: the loop never depends on a
      byte outside it. */
  lemma CursorStep(buf: bytes, c: Cursor)
    requires Inside(buf, c)
    ensures NlaOk(buf, c) <==> AttrOk(Window(buf, c))
    ensures NlaOk(buf, c) ==>
              && Window(buf, NlaNext(buf, c)) == RestAttrs(Window(buf, c))
              && FirstAttr(Window(buf, c)) == Attr(NlaRawType(buf, c), Window(buf, NlaData(buf, c)))
  {
    hide GetU16, Align4, Window, RestAttrs, FirstAttr, AttrOk;
    HeaderStep(buf, c);
    if NlaOk(buf, c) {
      PayloadStep(buf, c);
      NextStep(buf, c);
    }
  }

  /** The header fields, read through the cursor and in the window. */
  lemma HeaderStep(buf: bytes, c: Cursor)
    requires Inside(buf, c)
    ensures NlaOk(buf, c) <==> AttrOk(Window(buf, c))
    ensures c.rem >= NLA_HDRLEN ==>
      GetU16(Window(buf, c), 0) == GetU16(buf, c.pos) && GetU16(Window(buf, c), 2) == GetU16(buf, c.pos + 2)
  {
  }

  lemma PayloadStep(buf: bytes, c: Cursor)
    requires Inside(buf, c) && NlaOk(buf, c) && AttrOk(Window(buf, c))
    ensures FirstAttr(Window(buf, c)) == Attr(NlaRawType(buf, c), Window(buf, NlaData(buf, c)))
  {
    hide GetU16;
    HeaderStep(buf, c);
    SubSlice(buf, c.pos, c.pos + c.rem, NLA_HDRLEN, GetU16(buf, c.pos));
  }

  lemma NextStep(buf: bytes, c: Cursor)
    requires Inside(buf, c) && NlaOk(buf, c) && AttrOk(Window(buf, c))
    ensures Window(buf, NlaNext(buf, c)) == RestAttrs(Window(buf, c))
  {
    hide GetU16, Align4;
    HeaderStep(buf, c);
    TakeNext(buf, c, Align4(GetU16(buf, c.pos)));
  }

  /** Stepping over `n` bytes of a window drops them from it. */
  lemma TakeNext(buf: bytes, c: Cursor, n: nat)
    requires Inside(buf, c) && c.rem > 0
    ensures var d := Cursor(c.pos + n, c.rem - n);
            Inside(buf, d) && Window(buf, d) == if n <= c.rem then Window(buf, c)[n..] else []
  {
    if n <= c.rem { SubSlice(buf, c.pos, c.pos + c.rem, n, c.rem); }
  }

  /** The attribute under the cursor. */
  function NlaAt(buf: bytes, c: Cursor): Attr
    requires Inside(buf, c) && NlaOk(buf, c)
  {
    Attr(NlaRawType(buf, c), Window(buf, NlaData(buf, c)))
  }

  /** The attributes still to be visited, before and after one turn of a loop. */
  lemma WalkStep(buf: bytes, c: Cursor)
    requires Inside(buf, c)
    ensures NlaOk(buf, c) ==> Walk(Window(buf, c)) == [NlaAt(buf, c)] + Walk(Window(buf, NlaNext(buf, c)))
    ensures !NlaOk(buf, c) ==> Walk(Window(buf, c)) == []
  {
    CursorStep(buf, c);
  }

  // ---------------------------------------------------------------------------------------------
  // Messages

  const NLMSG_ERROR: nat := 2
  const NLMSG_DONE: nat := 3

  /** One netlink message: the fields of its header and everything after the header. */
  datatype Msg = Msg(typ: u16, flags: u16, sequence: u32, pid: u32, payload: bytes)

  /** NLMSG_OK over a whole byte string. */
  predicate MsgOk(b: bytes) {
    |b| >= NLMSG_HDRLEN && NLMSG_HDRLEN <= GetU32(b, 0) <= |b|
  }

  function FirstMsg(b: bytes): Msg
    requires MsgOk(b)
  {
    Msg(GetU16(b, 4), GetU16(b, 6), GetU32(b, 8), GetU32(b, 12), b[NLMSG_HDRLEN..GetU32(b, 0)])
  }

  function RestMsgs(b: bytes): (r: bytes)
    requires MsgOk(b)
    ensures |r| < |b|
  {
    var n := Align4(GetU32(b, 0));
    if n <= |b| then b[n..] else []
  }

  /** The messages a NLMSG_OK/NLMSG_NEXT loop visits, in order. */
  function MsgWalk(b: bytes): seq<Msg>
    decreases |b|
  {
    if MsgOk(b) then [FirstMsg(b)] + MsgWalk(RestMsgs(b)) else []
  }

  function EncMsg(m: Msg): bytes
    requires NLMSG_HDRLEN + |m.payload| < 0x1_0000_0000
  {
    var total := NLMSG_HDRLEN + |m.payload|;
    PutU32(total) + PutU16(m.typ) + PutU16(m.flags) + PutU32(m.sequence) + PutU32(m.pid)
    + m.payload + Zeros(Align4(total) - total)
  }

  predicate MsgsSendable(ms: seq<Msg>) {
    forall m :: m in ms ==> NLMSG_HDRLEN + |m.payload| < 0x1_0000_0000
  }

  function EncMsgs(ms: seq<Msg>): bytes
    requires MsgsSendable(ms)
  {
    if ms == [] then [] else EncMsg(ms[0]) + EncMsgs(ms[1..])
  }

  lemma PeelMsg(m: Msg, rest: bytes)
    requires NLMSG_HDRLEN + |m.payload| < 0x1_0000_0000
    ensures var b := EncMsg(m) + rest; MsgOk(b) && FirstMsg(b) == m && RestMsgs(b) == rest
  {
    var b := EncMsg(m) + rest;
    var total := NLMSG_HDRLEN + |m.payload|;
    assert b[0..4] == PutU32(total) && b[4..6] == PutU16(m.typ) && b[6..8] == PutU16(m.flags);
    assert b[8..12] == PutU32(m.sequence) && b[12..16] == PutU32(m.pid);
    assert GetU32(b, 0) == GetU32(b[0..4], 0);
    assert GetU16(b, 4) == GetU16(b[4..6], 0) && GetU16(b, 6) == GetU16(b[6..8], 0);
    assert GetU32(b, 8) == GetU32(b[8..12], 0) && GetU32(b, 12) == GetU32(b[12..16], 0);
    assert b[NLMSG_HDRLEN..total] == m.payload;
    assert |EncMsg(m)| == Align4(total);
    assert b[Align4(total)..] == rest;
  }

  /** Walking an encoded message list gives the list back. */
  lemma {:induction false} WalkEncMsgs(ms: seq<Msg>)
    requires MsgsSendable(ms)
    ensures MsgWalk(EncMsgs(ms)) == ms
  {
    if ms != [] {
      PeelMsg(ms[0], EncMsgs(ms[1..]));
      WalkEncMsgs(ms[1..]);
    }
  }

  predicate NlmsgOk(buf: bytes, c: Cursor)
    requires Inside(buf, c)
  {
    c.rem >= NLMSG_HDRLEN && NLMSG_HDRLEN <= GetU32(buf, c.pos) <= c.rem
  }

  function NlmsgNext(buf: bytes, c: Cursor): (n: Cursor)
    requires Inside(buf, c) && NlmsgOk(buf, c)
    ensures Inside(buf, n) && n.rem + NLMSG_HDRLEN <= c.rem
  {
    var step := Align4(GetU32(buf, c.pos));
    Cursor(c.pos + step, c.rem - step)
  }

  /** The message under the cursor, read field by field from the receive buffer. */
  function NlmsgAt(buf: bytes, c: Cursor): Msg
    requires Inside(buf, c) && NlmsgOk(buf, c)
  {
    Msg(GetU16(buf, c.pos + 4), GetU16(buf, c.pos + 6), GetU32(buf, c.pos + 8), GetU32(buf, c.pos + 12),
        buf[c.pos + NLMSG_HDRLEN..c.pos + GetU32(buf, c.pos)])
  }

  lemma HeaderFields(buf: bytes, c: Cursor)
    requires Inside(buf, c) && c.rem >= NLMSG_HDRLEN
    ensures var w := Window(buf, c);
            && GetU32(w, 0) == GetU32(buf, c.pos)
            && GetU16(w, 4) == GetU16(buf, c.pos + 4) && GetU16(w, 6) == GetU16(buf, c.pos + 6)
            && GetU32(w, 8) == GetU32(buf, c.pos + 8) && GetU32(w, 12) == GetU32(buf, c.pos + 12)
  {
  }

  lemma MsgCursorStep(buf: bytes, c: Cursor)
    requires Inside(buf, c)
    ensures NlmsgOk(buf, c) <==> MsgOk(Window(buf, c))
    ensures NlmsgOk(buf, c) ==>
              && Window(buf, NlmsgNext(buf, c)) == RestMsgs(Window(buf, c))
              && FirstMsg(Window(buf, c)) == NlmsgAt(buf, c)
  {
    hide GetU16, GetU32, Align4, Window, RestMsgs, FirstMsg, MsgOk;
    MsgHeaderStep(buf, c);
    if NlmsgOk(buf, c) {
      MsgPayloadStep(buf, c);
      MsgNextStep(buf, c);
    }
  }

  lemma MsgHeaderStep(buf: bytes, c: Cursor)
    requires Inside(buf, c)
    ensures NlmsgOk(buf, c) <==> MsgOk(Window(buf, c))
  {
    hide GetU32;
    if c.rem >= NLMSG_HDRLEN { HeaderFields(buf, c); }
  }

  lemma MsgPayloadStep(buf: bytes, c: Cursor)
    requires Inside(buf, c) && NlmsgOk(buf, c) && MsgOk(Window(buf, c))
    ensures FirstMsg(Window(buf, c)) == NlmsgAt(buf, c)
  {
    hide GetU16, GetU32;
    HeaderFields(buf, c);
    SubSlice(buf, c.pos, c.pos + c.rem, NLMSG_HDRLEN, GetU32(buf, c.pos));
  }

  lemma MsgNextStep(buf: bytes, c: Cursor)
    requires Inside(buf, c) && NlmsgOk(buf, c) && MsgOk(Window(buf, c))
    ensures Window(buf, NlmsgNext(buf, c)) == RestMsgs(Window(buf, c))
  {
    hide GetU16, GetU32, Align4;
    HeaderFields(buf, c);
    TakeNext(buf, c, Align4(GetU32(buf, c.pos)));
  }

  lemma MsgWalkStep(buf: bytes, c: Cursor)
    requires Inside(buf, c)
    ensures NlmsgOk(buf, c) ==> MsgWalk(Window(buf, c)) == [NlmsgAt(buf, c)] + MsgWalk(Window(buf, NlmsgNext(buf, c)))
    ensures !NlmsgOk(buf, c) ==> MsgWalk(Window(buf, c)) == []
  {
    MsgCursorStep(buf, c);
  }

  // ---------------------------------------------------------------------------------------------
  // The same in single bytes (sections 2.2 and 2.3.2 of RFC 3549)

  lemma NumberBytes(v: u32)
    ensures var b := PutU32(v);
            v == b[0] as int + 0x100 * b[1] as int + 0x1_0000 * b[2] as int + 0x100_0000 * b[3] as int
    ensures v < 0x1_0000 ==> PutU16(v) == PutU32(v)[..2]
  {
  }

  lemma NumberAt(b: bytes, i: nat)
    requires i + 4 <= |b|
    ensures GetU32(b, i) == b[i] as int + 0x100 * b[i + 1] as int + 0x1_0000 * b[i + 2] as int + 0x100_0000 * b[i + 3] as int
    ensures GetU16(b, i) == b[i] as int + 0x100 * b[i + 1] as int
  {
  }

  /** The two top bits of the type field are flags. */
  lemma TypeBits(a: Attr)
    ensures a.Type() < 16384 && exists flags :: 0 <= flags < 4 && a.raw == a.Type() + 16384 * flags && (a.Nested() <==> flags >= 2)
  {
    assert a.raw == a.Type() + 16384 * (a.raw / 16384);
  }

  /** Length, type, payload, and zeros up to a multiple of four. */
  lemma AttrBytes(a: Attr)
    requires 4 + |a.payload| < 0x1_0000
    ensures var b, n := EncAttr(a), 4 + |a.payload|;
            && n <= |b| < n + 4 && |b| % 4 == 0
            && b[0] as int + 0x100 * b[1] as int == n && b[2] as int + 0x100 * b[3] as int == a.raw
            && b[4..n] == a.payload && forall i :: n <= i < |b| ==> b[i] == 0
  {
    hide Align4;
    var n := 4 + |a.payload|;
    Aligned(n);
    assert EncAttr(a)[4..n] == a.payload;
  }

  /** An attribute is there when its length field is at least four and at most what is left; the next one
      stands at the next multiple of four. */
  lemma WalkBytes(b: bytes)
    ensures Walk(b) != [] <==> |b| >= 4 && 4 <= b[0] as int + 0x100 * b[1] as int <= |b|
    ensures Walk(b) != [] ==>
              var n := b[0] as int + 0x100 * b[1] as int;
              && Walk(b)[0].raw == b[2] as int + 0x100 * b[3] as int && Walk(b)[0].payload == b[4..n]
              && Walk(b)[1..] == if (n + 3) / 4 * 4 <= |b| then Walk(b[(n + 3) / 4 * 4..]) else []
  {
    if AttrOk(b) { assert Walk(b)[1..] == Walk(RestAttrs(b)); }
  }

  /** Length, type, flags, sequence number, port id, payload, zeros up to a multiple of four. */
  lemma MsgBytes(m: Msg)
    requires 16 + |m.payload| < 0x1_0000_0000
    ensures var b, n := EncMsg(m), 16 + |m.payload|;
            && n <= |b| < n + 4 && |b| % 4 == 0
            && b[..4] == PutU32(n) && b[4..6] == PutU16(m.typ) && b[6..8] == PutU16(m.flags)
            && b[8..12] == PutU32(m.sequence) && b[12..16] == PutU32(m.pid)
            && b[16..n] == m.payload && forall i :: n <= i < |b| ==> b[i] == 0
  {
    hide PutU32, PutU16, Align4;
    var n := 16 + |m.payload|;
    Aligned(n);
    assert EncMsg(m)[16..n] == m.payload;
  }

  /** A message is there when its length field is at least sixteen and at most what is left. */
  lemma MsgWalkBytes(b: bytes)
    ensures MsgWalk(b) != [] <==> |b| >= 16 && 16 <= GetU32(b, 0) <= |b|
    ensures MsgWalk(b) != [] ==>
              var n, m := GetU32(b, 0) as int, MsgWalk(b)[0];
              && m.typ == b[4] as int + 0x100 * b[5] as int && m.flags == b[6] as int + 0x100 * b[7] as int
              && m.sequence == GetU32(b[8..12], 0) && m.pid == GetU32(b[12..16], 0) && m.payload == b[16..n]
              && MsgWalk(b)[1..] == if (n + 3) / 4 * 4 <= |b| then MsgWalk(b[(n + 3) / 4 * 4..]) else []
  {
    if MsgOk(b) { assert MsgWalk(b)[1..] == MsgWalk(RestMsgs(b)); }
  }
}
