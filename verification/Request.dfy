/** Building a request: the packing halves of invoke_generic_genl and invoke_ethtool_get, on the attribute
    writer.  What is proved is what the kernel finds in the bytes. */
module Request {
  import opened Wire
  import opened Schema
  import opened AttrTree
  import opened AttrBuffer
  import OverlayFile

  const NLM_F_REQUEST: nat := 0x1
  const NLM_F_DUMP: nat := 0x300
  const REQUEST_HDRLEN: nat := 20  // NLMSG_LENGTH(sizeof(struct genlmsghdr))

  datatype Arg = Arg(key: string, value: bytes)

  /** What the request says besides its attributes. */
  datatype Target = Target(family: u16, sequence: u32, cmd: byte, version: byte)

  // ---------------------------------------------------------------------------------------------
  // Values

  function Chars(v: bytes): (s: string)
    ensures |s| == |v| && forall i :: 0 <= i < |v| ==> s[i] == v[i] as char
  {
    seq(|v|, i requires 0 <= i < |v| => v[i] as char)
  }

  /** looks_like_uint */
  predicate LooksLikeUint(v: bytes) {
    v != [] && OverlayFile.AllDigits(Chars(v))
  }

  method CheckUint(v: bytes) returns (r: bool)
    ensures r == (v != [] && forall i :: 0 <= i < |v| ==> '0' <= v[i] as char <= '9')
  {
    if v == [] { return false; }
    for i := 0 to |v|
      invariant forall j :: 0 <= j < i ==> '0' <= v[j] as char <= '9'
    {
      if v[i] < '0' as int || v[i] > '9' as int { return false; }
    }
    return true;
  }

  lemma DigitByDigit(v: bytes)
    ensures LooksLikeUint(v) <==> v != [] && forall i :: 0 <= i < |v| ==> '0' <= v[i] as char <= '9'
  {
    assert forall i :: 0 <= i < |v| ==> Chars(v)[i] in Chars(v);
  }

  function NumberOf(v: bytes): nat
    requires LooksLikeUint(v)
  {
    OverlayFile.DigitsValue(Chars(v))
  }

  /** The attribute an argument becomes: digits up to UINT32_MAX as that number, anything else, larger
      numbers included, as its text. */
  function NodeOf(id: nat, value: bytes): Node {
    if LooksLikeUint(value) && NumberOf(value) < 0x1_0000_0000 then Num(id % 0x1_0000, NumberOf(value))
    else Text(id % 0x1_0000, value)
  }

  predicate Known(attrs: seq<AttrDef>, args: seq<Arg>) {
    forall i :: 0 <= i < |args| ==> IdOf(attrs, args[i].key).Some?
  }

  function NodesOf(attrs: seq<AttrDef>, args: seq<Arg>): (ns: seq<Node>)
    requires Known(attrs, args)
    ensures |ns| == |args|
  {
    seq(|args|, i requires 0 <= i < |args| => NodeOf(IdOf(attrs, args[i].key).value, args[i].value))
  }

  // ---------------------------------------------------------------------------------------------
  // The message around the attributes

  /** nlmsghdr and genlmsghdr. */
  function Headers(len: u32, flags: u16, t: Target): (h: bytes)
    ensures |h| == REQUEST_HDRLEN
  {
    PutU32(len) + PutU16(t.family) + PutU16(flags) + PutU32(t.sequence) + PutU32(0) + [t.cmd, t.version, 0, 0]
  }

  /** The message the kernel reads. */
  function Meaning(flags: u16, t: Target, nodes: seq<Node>): Msg {
    Msg(t.family, flags, t.sequence, 0, [t.cmd, t.version, 0, 0] + EncAll(nodes))
  }

  lemma Framed(flags: u16, t: Target, nodes: seq<Node>)
    requires REQUEST_HDRLEN + |EncAll(nodes)| < 0x1_0000_0000
    ensures Headers(REQUEST_HDRLEN + |EncAll(nodes)|, flags, t) + EncAll(nodes) == EncMsg(Meaning(flags, t, nodes))
  {
    hide PutU16, PutU32, Align4, EncAll;
    EncAllAligned(nodes);
    AlignedSum(REQUEST_HDRLEN, |EncAll(nodes)|);
    Aligned(REQUEST_HDRLEN + |EncAll(nodes)|);
    assert Zeros(0) == [];
    var m := Meaning(flags, t, nodes);
    assert NLMSG_HDRLEN + |m.payload| == REQUEST_HDRLEN + |EncAll(nodes)|;
  }

  /** `req` is one message, with the given headers and attributes; they read back as meant exactly when
      their types are below 2^14. */
  ghost predicate KernelFinds(req: bytes, flags: u16, t: Target, nodes: seq<Node>) {
    && MsgWalk(req) == [Meaning(flags, t, nodes)]
    && (Decode(Meaning(flags, t, nodes).payload[4..]) == MeantAll(nodes) <==> TypesFit(nodes))
  }

  lemma KernelReads(req: bytes, flags: u16, t: Target, nodes: seq<Node>)
    requires |EncAll(nodes)| < 0x1_0000 && req == Headers(REQUEST_HDRLEN + |EncAll(nodes)|, flags, t) + EncAll(nodes)
    ensures KernelFinds(req, flags, t, nodes)
  {
    hide EncAll, Decode, MeantAll, TypesFit, EncMsg, MsgWalk;
    var m := Meaning(flags, t, nodes);
    Framed(flags, t, nodes);
    WalkEncMsgs([m]);
    assert EncMsgs([m]) == EncMsg(m) by { assert [m][1..] == []; assert EncMsg(m) + [] == EncMsg(m); }
    RoundTrip(nodes);
    assert m.payload[4..] == EncAll(nodes);
  }

  /** The attributes of a request, found by one walk over it. */
  lemma {:induction false} FlatWalk(nodes: seq<Node>)
    requires |EncAll(nodes)| < 0x1_0000
    ensures |Walk(EncAll(nodes))| == |nodes|
    ensures forall i :: 0 <= i < |nodes| ==> Walk(EncAll(nodes))[i] == AttrOf(nodes[i])
  {
    hide EncAttr, AttrOf;
    if nodes != [] {
      PartsFit(nodes);
      PeelAttr(AttrOf(nodes[0]), EncAll(nodes[1..]));
      FlatWalk(nodes[1..]);
      assert Walk(EncAll(nodes)) == [AttrOf(nodes[0])] + Walk(EncAll(nodes[1..]));
    }
  }

  /** What stands in a request, field by field. */
  lemma RequestFields(req: bytes, flags: u16, t: Target, nodes: seq<Node>)
    requires KernelFinds(req, flags, t, nodes) && |EncAll(nodes)| < 0x1_0000
    ensures |MsgWalk(req)| == 1 && |MsgWalk(req)[0].payload| >= 4
    ensures var m := MsgWalk(req)[0];
      && m.typ == t.family && m.flags == flags && m.sequence == t.sequence && m.pid == 0
      && m.payload[0] == t.cmd && m.payload[1] == t.version
      && |Walk(m.payload[4..])| == |nodes| && forall i :: 0 <= i < |nodes| ==> Walk(m.payload[4..])[i] == AttrOf(nodes[i])
  {
    hide EncAll, Decode, MsgWalk, AttrOf;
    FlatWalk(nodes);
    assert MsgWalk(req)[0].payload[4..] == EncAll(nodes);
  }

  /** A number below 2^32 is carried in four bytes, anything else as it stands with a NUL behind it. */
  ghost predicate Carries(payload: bytes, value: bytes) {
    if value != [] && (forall i :: 0 <= i < |value| ==> 48 <= value[i] <= 57) && OverlayFile.AllDigits(Chars(value))
       && OverlayFile.DigitsValue(Chars(value)) < 0x1_0000_0000
    then |payload| == 4 && GetU32(payload, 0) == OverlayFile.DigitsValue(Chars(value))
    else payload == value + [0]
  }

  lemma ArgAttr(id: nat, value: bytes)
    ensures var a := AttrOf(NodeOf(id, value)); a.raw == id % 0x1_0000 && Carries(a.payload, value)
  {
    hide PutU32, GetU32;
    DigitByDigit(value);
    assert forall i :: 0 <= i < |value| ==> ('0' <= value[i] as char <= '9' <==> 48 <= value[i] <= 57);
  }

  // ---------------------------------------------------------------------------------------------
  // invoke_generic_genl

  datatype Packed = NoMetadata | UnknownKey(index: nat) | Overflow(index: nat) | Packed(request: bytes)

  method NewBuffer(size: nat, flags: u16, t: Target) returns (b: AttrBuf)
    requires REQUEST_HDRLEN <= size
    ensures fresh(b) && fresh(b.data) && b.Valid() && b.data.Length == size && b.off == REQUEST_HDRLEN
    ensures b.head == Headers(0, flags, t) && b.frames == [Frame(0, 0, [])]
  {
    var h := Headers(0, flags, t);
    var data := new byte[size](i => if 0 <= i < REQUEST_HDRLEN then h[i] else 0);
    b := new AttrBuf(data, REQUEST_HDRLEN);
    assert data[..REQUEST_HDRLEN] == h;
  }

  /** nlmsg_len = b.off, and the bytes handed to sendto. */
  method Finish(b: AttrBuf, ghost flags: u16, ghost t: Target) returns (req: bytes)
    requires b.Valid() && |b.frames| == 1 && b.head == Headers(0, flags, t) && b.data.Length < 0x1_0000
    modifies b.data
    ensures KernelFinds(req, flags, t, b.frames[0].done) && |req| <= b.data.Length
  {
    hide EncAll, OpenBytes, Headers, PutU32, KernelFinds, Placed;
    b.Finished();
    ghost var nodes, was, h := b.frames[0].done, b.data[..], Headers(0, flags, t);
    assert was[..b.off] == h + EncAll(nodes);
    b.Poke(0, Wire.PutU32(b.off));
    req := b.data[..b.off];
    Patched(was, h, EncAll(nodes), Wire.PutU32(b.off));
    LengthPatched(b.off, flags, t);
    KernelReads(req, flags, t, nodes);
  }

  /** Writing over the first four bytes of a buffer. */
  lemma Patched(was: bytes, h: bytes, body: bytes, len: bytes)
    requires |len| == 4 <= |h| && |h + body| <= |was| && was[..|h + body|] == h + body
    ensures (was[..0] + len + was[4..])[..|h + body|] == len + h[4..] + body
  {
    var n := |h + body|;
    assert (was[..0] + len + was[4..])[..n] == len + was[..n][4..];
    assert (h + body)[4..] == h[4..] + body;
  }

  lemma LengthPatched(len: u32, flags: u16, t: Target)
    ensures PutU32(len) + Headers(0, flags, t)[4..] == Headers(len, flags, t)
  {
    hide PutU32, PutU16;
  }

  function DefsOf(attrs: Option<AttrSet>): seq<AttrDef> {
    if attrs.Some? then attrs.value.attrs else []
  }

  function FlagsOf(dump: bool): u16 {
    NLM_F_REQUEST + if dump then NLM_F_DUMP else 0
  }

  /** Packing the arguments of invoke_generic_genl: refused, or one attribute per argument, in order. */
  method PackGeneric(attrs: Option<AttrSet>, args: seq<Arg>, t: Target) returns (r: Packed)
    ensures r == NoMetadata <==> args != [] && attrs == None
    ensures r.UnknownKey? ==> UnknownAt(DefsOf(attrs), args, r.index, 1024)
    ensures r.Overflow? ==> TooLongAt(DefsOf(attrs), args, r.index, 1024)
    ensures r.Packed? ==> Known(DefsOf(attrs), args) && Fits(DefsOf(attrs), args, 1024) && |r.request| <= 1024
                          && KernelFinds(r.request, FlagsOf(args == []), t, NodesOf(DefsOf(attrs), args))
    ensures r.Packed? <==> (args == [] || attrs.Some?)
                           && Known(DefsOf(attrs), args) && Fits(DefsOf(attrs), args, 1024)
    // in the bytes: NLM_F_REQUEST, and NLM_F_DUMP for want of arguments
    ensures r.Packed? ==> var ms := MsgWalk(r.request);
              && |ms| == 1 && ms[0].typ == t.family && ms[0].flags == (if args == [] then 0x301 else 0x1)
              && ms[0].sequence == t.sequence && ms[0].pid == 0
              && |ms[0].payload| >= 4 && ms[0].payload[0] == t.cmd && ms[0].payload[1] == t.version
    // one attribute for each argument
    ensures r.Packed? && args != [] ==> attrs.Some? && var ms := MsgWalk(r.request);
              |ms| == 1 && |ms[0].payload| >= 4 && var found := Walk(ms[0].payload[4..]);
              |found| == |args| && forall i :: 0 <= i < |args| ==>
                && IdOf(attrs.value.attrs, args[i].key).Some?
                && found[i].raw == IdOf(attrs.value.attrs, args[i].key).value % 0x1_0000
                && Carries(found[i].payload, args[i].value)
  {
    hide EncAll, Headers, KernelFinds, IdOf, AttrBuf.Valid, Known, NodesOf, UnknownAt, TooLongAt, Fits, DefsOf;
    var dump := |args| == 0;
    if !dump && attrs == None { return NoMetadata; }
    var b := NewBuffer(1024, FlagsOf(dump), t);
    var status := PackArgs(b, DefsOf(attrs), args);
    match status
    case Unknown(i) =>
      NotPacked(DefsOf(attrs), args, i, 1024);
      return UnknownKey(i);
    case Full(i) =>
      NotPacked(DefsOf(attrs), args, i, 1024);
      return Overflow(i);
    case AllPacked =>
      var req := Finish(b, FlagsOf(dump), t);
      PackedBytes(attrs, args, t, req);
      return Packed(req);
  }

  /** The same request, byte by byte. */
  lemma PackedBytes(attrs: Option<AttrSet>, args: seq<Arg>, t: Target, req: bytes)
    requires Known(DefsOf(attrs), args) && Fits(DefsOf(attrs), args, 1024) && (args == [] || attrs.Some?)
    requires KernelFinds(req, FlagsOf(args == []), t, NodesOf(DefsOf(attrs), args))
    ensures |MsgWalk(req)| == 1 && |MsgWalk(req)[0].payload| >= 4
    ensures var m := MsgWalk(req)[0];
      && m.typ == t.family && m.flags == (if args == [] then 0x301 else 0x1) && m.sequence == t.sequence && m.pid == 0
      && m.payload[0] == t.cmd && m.payload[1] == t.version
      && |Walk(m.payload[4..])| == |args| && forall i :: 0 <= i < |args| ==>
           && IdOf(attrs.value.attrs, args[i].key).Some?
           && Walk(m.payload[4..])[i].raw == IdOf(attrs.value.attrs, args[i].key).value % 0x1_0000
           && Carries(Walk(m.payload[4..])[i].payload, args[i].value)
  {
    hide EncAll, KernelFinds, Walk, MsgWalk, IdOf, Carries, AttrOf, NodeOf;
    var nodes := NodesOf(DefsOf(attrs), args);
    RequestFields(req, FlagsOf(args == []), t, nodes);
    forall i | 0 <= i < |args|
      ensures IdOf(attrs.value.attrs, args[i].key).Some?
      ensures var a := AttrOf(nodes[i]);
              a.raw == IdOf(attrs.value.attrs, args[i].key).value % 0x1_0000 && Carries(a.payload, args[i].value)
    {
      ArgAttr(IdOf(attrs.value.attrs, args[i].key).value, args[i].value);
    }
  }

  /** The request for these arguments is no longer than the buffer. */
  ghost predicate Fits(defs: seq<AttrDef>, args: seq<Arg>, size: nat)
    requires Known(defs, args)
  {
    REQUEST_HDRLEN + |EncAll(NodesOf(defs, args))| <= size
  }

  /** Argument `i` is the first whose key the set does not have, and those before it fit. */
  ghost predicate UnknownAt(defs: seq<AttrDef>, args: seq<Arg>, i: nat, size: nat) {
    i < |args| && IdOf(defs, args[i].key) == None && Known(defs, args[..i]) && Fits(defs, args[..i], size)
  }

  /** With argument `i`, and not before, the message would be longer than the buffer. */
  ghost predicate TooLongAt(defs: seq<AttrDef>, args: seq<Arg>, i: nat, size: nat) {
    i < |args| && Known(defs, args[..i + 1])
    && Known(defs, args[..i]) && Fits(defs, args[..i], size) && !Fits(defs, args[..i + 1], size)
  }

  lemma {:induction false} Longer(ns: seq<Node>, ms: seq<Node>)
    ensures |EncAll(ns)| <= |EncAll(ns + ms)|
    decreases |ms|
  {
    hide EncAttr, AttrOf;
    if ms == [] {
      assert ns + ms == ns;
    } else {
      var k := |ms| - 1;
      assert ns + ms == (ns + ms[..k]) + [ms[k]];
      Longer(ns, ms[..k]);
      EncAllAppend(ns + ms[..k], ms[k]);
    }
  }

  /** What stops the loop at an argument also rules the whole list out. */
  lemma NotPacked(defs: seq<AttrDef>, args: seq<Arg>, i: nat, size: nat)
    requires UnknownAt(defs, args, i, size) || TooLongAt(defs, args, i, size)
    ensures !(Known(defs, args) && Fits(defs, args, size))
  {
    hide EncAll, IdOf, NodeOf;
    if Known(defs, args) && Fits(defs, args, size) {
      assert args == args[..i + 1] + args[i + 1..];
      var ns := NodesOf(defs, args);
      assert ns[..i + 1] == NodesOf(defs, args[..i + 1]) && ns == ns[..i + 1] + ns[i + 1..];
      Longer(ns[..i + 1], ns[i + 1..]);
      assert false;
    }
  }

  lemma InBuffer(b: AttrBuf)
    requires b.Valid() && |b.frames| == 1 && |b.head| == REQUEST_HDRLEN
    ensures REQUEST_HDRLEN + |EncAll(b.frames[0].done)| == b.off <= b.data.Length
  {
    assert Below(b.frames) == [];
    assert OpenBytes(b.frames) == EncAll(b.frames[0].done);
  }

  datatype Status = AllPacked | Unknown(index: nat) | Full(index: nat)

  /** The argument loop. */
  method PackArgs(b: AttrBuf, defs: seq<AttrDef>, args: seq<Arg>) returns (r: Status)
    requires b.Valid() && b.frames == [Frame(0, 0, [])] && |b.head| == REQUEST_HDRLEN
    modifies b, b.data
    ensures b.Valid()
    ensures r.Unknown? ==> UnknownAt(defs, args, r.index, b.data.Length)
    ensures r.Full? ==> TooLongAt(defs, args, r.index, b.data.Length)
    ensures r == AllPacked ==> Known(defs, args) && Fits(defs, args, b.data.Length)
                               && b.frames == [Frame(0, 0, NodesOf(defs, args))]
  {
    hide EncAll, IdOf, AttrBuf.Valid, NodeOf;
    for i := 0 to |args|
      invariant b.Valid() && Known(defs, args[..i]) && b.frames == [Frame(0, 0, NodesOf(defs, args[..i]))]
    {
      InBuffer(b);
      var id := FindId(defs, args[i].key);
      if id == None { return Unknown(i); }
      ghost var now := args[..i + 1];
      assert now == args[..i] + [args[i]];
      assert NodesOf(defs, now) == NodesOf(defs, args[..i]) + [NodeOf(id.value, args[i].value)];
      var ok := PackArg(b, id.value, args[i].value);
      if !ok { return Full(i); }
    }
    assert args[..|args|] == args;
    InBuffer(b);
    return AllPacked;
  }

  /** One argument: as a number if it is one that fits, as text otherwise. */
  method PackArg(b: AttrBuf, id: nat, value: bytes) returns (ok: bool)
    requires b.Valid() && |b.frames| == 1 && |b.head| == REQUEST_HDRLEN
    modifies b, b.data
    ensures b.Valid() && b.frames[0].at == old(b.frames[0].at) && b.frames[0].typ == old(b.frames[0].typ)
    ensures |b.frames| == 1 && b.frames[0].done == old(b.frames[0].done) + if ok then [NodeOf(id, value)] else []
    ensures !ok ==> REQUEST_HDRLEN + |EncAll(old(b.frames[0].done) + [NodeOf(id, value)])| > b.data.Length
  {
    hide EncAll, OpenBytes, Placed, Align4, AttrOf, EncAttr, LooksLikeUint, NumberOf;
    ghost var fs := b.frames;
    var typ := id % 0x1_0000;
    var numeric := CheckUint(value);
    DigitByDigit(value);
    if numeric && NumberOf(value) < 0x1_0000_0000 {
      ok := b.PutU32(typ, NumberOf(value));
    } else {
      ok := b.PutString(typ, value);
    }
    NodeSize(fs, NodeOf(id, value));
    assert Below(fs) == [];
  }

  lemma NodeSize(fs: seq<Frame>, n: Node)
    requires |fs| == 1
    ensures |EncAll(fs[0].done + [n])| == |OpenBytes(fs)| + match n
                                                           case Text(_, s) => Align4(NLA_HDRLEN + |s| + 1)
                                                           case Num(_, _) => 8
                                                           case Nest(_, kids) => Align4(NLA_HDRLEN + |EncAll(kids)|)
  {
    hide EncAttr, EncAll, Align4, AttrOf;
    EncAllAppend(fs[0].done, n);
    AttrSize(n);
    assert Below(fs) == [];
    assert OpenBytes(fs) == EncAll(fs[0].done);
  }

  lemma AttrSize(n: Node)
    ensures |EncAttr(AttrOf(n))| == match n
                                    case Text(_, s) => Align4(NLA_HDRLEN + |s| + 1)
                                    case Num(_, _) => 8
                                    case Nest(_, kids) => Align4(NLA_HDRLEN + |EncAll(kids)|)
  {
    hide EncAll, PutU32;
  }

  /** What the kernel finds for one argument. */
  function LeafOf(id: nat, value: bytes): Tree {
    Leaf(id, if LooksLikeUint(value) && NumberOf(value) < 0x1_0000_0000 then PutU32(NumberOf(value)) else value + [0])
  }

  lemma LeafMeant(id: nat, value: bytes)
    requires id < NLA_TYPE_LIMIT
    ensures var n := NodeOf(id, value); n.typ == id && !n.Nest? && Meant(n) == LeafOf(id, value)
  {
    assert id % 0x1_0000 == id;
  }

  /** With unique ids below 2^14, the name of each attribute the kernel finds is the key it came from,
      and its payload is the argument's number or text. */
  lemma KeysComeBack(defs: seq<AttrDef>, args: seq<Arg>, i: nat)
    requires Known(defs, args) && UniqueIds(defs) && i < |args|
    requires forall d :: d in defs ==> d.id < NLA_TYPE_LIMIT
    ensures TypesFit(NodesOf(defs, args))
    ensures var found := MeantAll(NodesOf(defs, args))[i];
            NameOf(defs, found.typ) == Some(args[i].key) && found == LeafOf(IdOf(defs, args[i].key).value, args[i].value)
  {
    hide NodeOf, LeafOf, Meant, MeantAll, TypesFit, IdOf, NameOf;
    var ns := NodesOf(defs, args);
    forall k | 0 <= k < |ns| ensures ns[k].typ < NLA_TYPE_LIMIT && !ns[k].Nest? {
      IdFits(defs, args[k].key);
      LeafMeant(IdOf(defs, args[k].key).value, args[k].value);
    }
    FlatTypesFit(ns);
    MeantAt(ns, i);
    IdNamesKey(defs, args[i].key);
    IdFits(defs, args[i].key);
    LeafMeant(IdOf(defs, args[i].key).value, args[i].value);
    LeafType(IdOf(defs, args[i].key).value, args[i].value);
  }

  lemma LeafType(id: nat, value: bytes)
    ensures LeafOf(id, value).typ == id
  {
  }

  lemma IdFits(defs: seq<AttrDef>, key: string)
    requires IdOf(defs, key).Some? && forall d :: d in defs ==> d.id < NLA_TYPE_LIMIT
    ensures IdOf(defs, key).value < NLA_TYPE_LIMIT
  {
    var d :| d in defs && d.id == IdOf(defs, key).value;
  }

  lemma {:induction false} FlatTypesFit(ns: seq<Node>)
    requires forall k :: 0 <= k < |ns| ==> ns[k].typ < NLA_TYPE_LIMIT && !ns[k].Nest?
    ensures TypesFit(ns)
  {
    if ns != [] { FlatTypesFit(ns[1..]); }
  }

  lemma {:induction false} MeantAt(ns: seq<Node>, i: nat)
    requires i < |ns|
    ensures MeantAll(ns)[i] == Meant(ns[i])
  {
    if i > 0 { MeantAt(ns[1..], i - 1); }
  }

  // ---------------------------------------------------------------------------------------------
  // invoke_ethtool_get

  /** strtoul(ifindex, &end, 10) followed by the checks of this caller, which lets the empty string be 0. */
  function IfIndex(s: string): (r: Option<nat>)
    ensures r.Some? ==> r.value < 0x1_0000_0000
  {
    if s == "" then Some(0) else OverlayFile.Uint32(s)
  }

  /** The header ids an ethtool request needs. */
  datatype HeaderIds = HeaderIds(header: nat, devName: nat, devIndex: nat)

  /** The device is named by ifname if that is given, else by ifindex if that is, else all are meant. */
  function HeaderNode(ids: HeaderIds, ifname: Option<bytes>, ifindex: Option<string>): Node
    requires ifname == None && ifindex.Some? ==> IfIndex(ifindex.value).Some?
  {
    Nest(ids.header % 0x1_0000,
         if ifname.Some? then [Text(ids.devName % 0x1_0000, ifname.value)]
         else if ifindex.Some? then [Num(ids.devIndex % 0x1_0000, IfIndex(ifindex.value).value)]
         else [])
  }

  datatype EthPacked = BadIndex | TooLong | Ready(request: bytes)

  /** The request of an ethtool read: a HEADER nest naming the device, or an empty one and NLM_F_DUMP
      when neither argument is given.  With a name the index is not even looked at. */
  method PackEthtool(ids: HeaderIds, ifname: Option<bytes>, ifindex: Option<string>, t: Target) returns (r: EthPacked)
    ensures r == BadIndex <==> ifname == None && ifindex.Some? && IfIndex(ifindex.value) == None
    ensures r == TooLong <==> ifname.Some? && |ifname.value| > 227
    ensures r.Ready? ==>
              KernelFinds(r.request, FlagsOf(ifname == None && ifindex == None), t, [HeaderNode(ids, ifname, ifindex)])
    // in the bytes: NLM_F_REQUEST, and NLM_F_DUMP for want of a device
    ensures r.Ready? ==> var ms := MsgWalk(r.request);
              && |ms| == 1 && ms[0].typ == t.family && ms[0].flags == (if ifname == None && ifindex == None then 0x301 else 0x1)
              && ms[0].sequence == t.sequence && ms[0].pid == 0
              && |ms[0].payload| >= 4 && ms[0].payload[0] == t.cmd && ms[0].payload[1] == t.version
    // one nest, with the name, or else the index, or else nothing in it
    ensures r.Ready? ==> var ms := MsgWalk(r.request);
              |ms| == 1 && |ms[0].payload| >= 4 && var found := Walk(ms[0].payload[4..]);
              |found| == 1 && found[0].raw % 0x8000 == ids.header % 0x8000 && found[0].raw >= 0x8000
              && var inner := Walk(found[0].payload);
              if ifname.Some? then |inner| == 1 && inner[0] == Attr(ids.devName % 0x1_0000, ifname.value + [0])
              else if ifindex.Some? then
                && |inner| == 1 && inner[0].raw == ids.devIndex % 0x1_0000 && |inner[0].payload| == 4
                && IfIndex(ifindex.value) == Some(GetU32(inner[0].payload, 0))
              else inner == []
  {
    var dump := ifname == None && ifindex == None;
    var flags := FlagsOf(dump);
    var b := NewBuffer(256, flags, t);
    hide EncAll, Headers, KernelFinds, AttrBuf.Valid, HeaderNode, IfIndex;
    r := WriteHeader(b, ids, ifname, ifindex);
    if r != Ready([]) { return; }
    var req := Finish(b, flags, t);
    HeaderBytes(ids, ifname, ifindex, t, req);
    return Ready(req);
  }

  /** The same request, byte by byte. */
  lemma HeaderBytes(ids: HeaderIds, ifname: Option<bytes>, ifindex: Option<string>, t: Target, req: bytes)
    requires ifname == None && ifindex.Some? ==> IfIndex(ifindex.value).Some?
    requires ifname.Some? ==> |ifname.value| <= 227
    requires KernelFinds(req, FlagsOf(ifname == None && ifindex == None), t, [HeaderNode(ids, ifname, ifindex)])
    ensures |MsgWalk(req)| == 1 && |MsgWalk(req)[0].payload| >= 4 && |Walk(MsgWalk(req)[0].payload[4..])| == 1
    ensures var m := MsgWalk(req)[0];
      && m.typ == t.family && m.flags == (if ifname == None && ifindex == None then 0x301 else 0x1)
      && m.sequence == t.sequence && m.pid == 0 && m.payload[0] == t.cmd && m.payload[1] == t.version
    ensures var nest := Walk(MsgWalk(req)[0].payload[4..])[0];
      var inner := Walk(nest.payload);
      && nest.raw % 0x8000 == ids.header % 0x8000 && nest.raw >= 0x8000
      && if ifname.Some? then |inner| == 1 && inner[0] == Attr(ids.devName % 0x1_0000, ifname.value + [0])
         else if ifindex.Some? then
           && |inner| == 1 && inner[0].raw == ids.devIndex % 0x1_0000 && |inner[0].payload| == 4
           && IfIndex(ifindex.value) == Some(GetU32(inner[0].payload, 0))
         else inner == []
  {
    hide EncAll, KernelFinds, Walk, MsgWalk, IfIndex, HeaderNode, AttrOf;
    var n := HeaderNode(ids, ifname, ifindex);
    HeaderKids(ids, ifname, ifindex);
    NestSize(n);
    RequestFields(req, FlagsOf(ifname == None && ifindex == None), t, [n]);
    FlatWalk(n.kids);
  }

  /** The nest and what is in it, as attributes. */
  lemma HeaderKids(ids: HeaderIds, ifname: Option<bytes>, ifindex: Option<string>)
    requires ifname == None && ifindex.Some? ==> IfIndex(ifindex.value).Some?
    requires ifname.Some? ==> |ifname.value| <= 227
    ensures var n := HeaderNode(ids, ifname, ifindex);
      && n.Nest? && |n.kids| <= 1 && (n.kids != [] ==> !n.kids[0].Nest? && (n.kids[0].Text? ==> |n.kids[0].s| <= 227))
      && AttrOf(n).raw % 0x8000 == ids.header % 0x8000 && AttrOf(n).raw >= 0x8000 && AttrOf(n).payload == EncAll(n.kids)
      && (n.kids == [] <==> ifname == None && ifindex == None)
      && (ifname.Some? ==> AttrOf(n.kids[0]) == Attr(ids.devName % 0x1_0000, ifname.value + [0]))
      && (ifname == None && ifindex.Some? ==>
            var a := AttrOf(n.kids[0]);
            a.raw == ids.devIndex % 0x1_0000 && |a.payload| == 4 && IfIndex(ifindex.value) == Some(GetU32(a.payload, 0)))
  {
    hide EncAll, IfIndex, PutU32, GetU32;
  }

  lemma NoSize()
    ensures EncAll([]) == []
  {
  }

  lemma SizeOfOne(n: Node)
    ensures |EncAll([n])| == match n
                             case Text(_, s) => Align4(NLA_HDRLEN + |s| + 1)
                             case Num(_, _) => 8
                             case Nest(_, kids) => Align4(NLA_HDRLEN + |EncAll(kids)|)
  {
    hide EncAttr, AttrOf, EncAll;
    NoSize();
    EncAllAppend([], n);
    assert [] + [n] == [n];
    AttrSize(n);
  }

  lemma NestSize(n: Node)
    requires n.Nest? && (n.kids == [] || (|n.kids| == 1 && !n.kids[0].Nest? && (n.kids[0].Text? ==> |n.kids[0].s| <= 227)))
    ensures |EncAll([n])| < 0x1_0000 && |EncAll(n.kids)| < 0x1_0000
  {
    hide EncAttr, AttrOf, EncAll;
    SizeOfOne(n);
    NoSize();
    if n.kids != [] {
      SizeOfOne(n.kids[0]);
      assert n.kids == [n.kids[0]];
    }
  }

  /** The HEADER nest; Ready([]) once it is complete. */
  method WriteHeader(b: AttrBuf, ids: HeaderIds, ifname: Option<bytes>, ifindex: Option<string>) returns (r: EthPacked)
    requires b.Valid() && b.frames == [Frame(0, 0, [])] && b.off == REQUEST_HDRLEN && b.data.Length == 256
    modifies b, b.data
    ensures r == BadIndex <==> ifname == None && ifindex.Some? && IfIndex(ifindex.value) == None
    ensures r == TooLong <==> ifname.Some? && |ifname.value| > 227
    ensures r.Ready? ==> r == Ready([]) && b.Valid() && b.frames == [Frame(0, 0, [HeaderNode(ids, ifname, ifindex)])]
  {
    hide AttrBuf.Valid, IfIndex, Align4;
    var ok, at := b.BeginNested(ids.header % 0x1_0000);
    ghost var fs := b.frames;
    assert fs == [Frame(0, 0, []), Frame(at, ids.header % 0x1_0000, [])];
    if ifname.Some? {
      NameFits(ifname.value);
      AddToSecond(fs, Text(ids.devName % 0x1_0000, ifname.value));
      ok := b.PutString(ids.devName % 0x1_0000, ifname.value);
      if !ok { return TooLong; }
    } else if ifindex.Some? {
      var v := IfIndex(ifindex.value);
      if v == None { return BadIndex; }
      AddToSecond(fs, Num(ids.devIndex % 0x1_0000, v.value));
      ok := b.PutU32(ids.devIndex % 0x1_0000, v.value);
    }
    ghost var header := HeaderNode(ids, ifname, ifindex);
    assert b.frames == [Frame(0, 0, []), Frame(at, ids.header % 0x1_0000, header.kids)];
    CloseOnly(b.frames, header);
    b.EndNested(at);
    return Ready([]);
  }

  lemma AddToSecond(fs: seq<Frame>, n: Node)
    requires |fs| == 2
    ensures Add(fs, n) == [fs[0], fs[1].(done := fs[1].done + [n])]
    ensures fs[1].done == [] ==> Add(fs, n) == [fs[0], fs[1].(done := [n])]
  {
    assert [] + [n] == [n];
  }

  lemma CloseOnly(fs: seq<Frame>, n: Node)
    requires n.Nest? && |fs| == 2 && fs[0] == Frame(0, 0, []) && Nest(fs[1].typ, fs[1].done) == n
    ensures Close(fs) == [Frame(0, 0, [n])]
  {
    assert Below(fs) == [fs[0]] && Below([fs[0]]) == [];
    assert [] + [n] == [n];
  }

  lemma NameFits(name: bytes)
    ensures REQUEST_HDRLEN + NLA_HDRLEN + Align4(NLA_HDRLEN + |name| + 1) <= 256 <==> |name| <= 227
  {
  }
}
