/** Rendering a reply: render_attrs_recursive walks raw attributes under a schema and prints them.

    `Interpret` is the parse tree of a byte string under a schema, `Pretty` prints a tree, and
    `RenderAttrs` is the loop that does both at once on a receive buffer.  The text of each printed
    piece is left to `fmt`, so the results hold whatever the format strings are. */
module Render {
  import opened Wire
  import opened Schema
  import opened TextBuffer

  datatype Metadata = Metadata(sets: seq<AttrSet>, aliases: seq<Alias>)

  /** What try_render_bit_compact collects about one bit. */
  datatype BitState = BitState(index: Option<u32>, name: Option<bytes>, on: bool)
  datatype BitIds = BitIds(index: nat, name: nat, value: nat)

  datatype Item =
    | Bit(bit: BitState)
    | Section(name: Option<string>, kids: seq<Item>)
    | Undeclared(name: Option<string>, size: nat)
    | Scalar(name: Option<string>, typ: nat, payload: bytes)

  /** One formatted append. */
  datatype Piece =
    | Indent
    | BitLine(index: u32, bitName: Option<bytes>, on: bool)
    | Heading(name: Option<string>)
    | NestedNote(size: nat)
    | NameEquals(name: Option<string>, typ: nat)
    | FlagText
    | Quoted(text: bytes, size: nat)
    | U8Text(v: nat) | U16Text(v: nat) | U32Text(v: nat) | U64Text(v: nat)
    | BlobHead(size: nat) | BlobByte(b: byte) | Ellipsis | Newline
    | EntryHead(number: nat) | NoSchema(attrsLen: int)
    | RouteHead(fields: seq<int>) | RouteAttr(name: Option<string>, typ: nat, payload: bytes)
    | Title | Footer(count: nat)

  // ---------------------------------------------------------------------------------------------
  // Parse tree

  function ChildSet(name: Option<string>, aset: AttrSet, m: Metadata): Option<AttrSet> {
    if name == None then None else
      var same := SetNamed(m.sets, name.value);
      if same.Some? then same else
        var aliased := AliasOf(m.aliases, aset.name, name.value);
        if aliased.Some? then SetNamed(m.sets, aliased.value) else None
  }

  function CompactIds(aset: AttrSet): Option<BitIds> {
    var i, n, v := IdOf(aset.attrs, "INDEX"), IdOf(aset.attrs, "NAME"), IdOf(aset.attrs, "VALUE");
    if aset.name == "BITSET_BIT" && i.Some? && n.Some? && v.Some?
    then Some(BitIds(i.value, n.value, v.value)) else None
  }

  function DropNul(s: bytes): bytes {
    if s != [] && s[|s| - 1] == 0 then s[..|s| - 1] else s
  }

  function BitStep(ids: BitIds, st: BitState, a: Attr): BitState {
    if a.Type() == ids.index && |a.payload| >= 4 then st.(index := Some(GetU32(a.payload, 0)))
    else if a.Type() == ids.name then st.(name := Some(DropNul(a.payload)))
    else if a.Type() == ids.value then st.(on := true)
    else st
  }

  function BitScan(ids: BitIds, st: BitState, attrs: seq<Attr>): BitState
    decreases attrs
  {
    if attrs == [] then st else BitScan(ids, BitStep(ids, st, attrs[0]), attrs[1..])
  }

  const NO_BIT := BitState(None, None, false)

  function InterpretOne(a: Attr, aset: AttrSet, m: Metadata): Item
    decreases |a.payload|, 1
  {
    var name := NameOf(aset.attrs, a.Type());
    var child := ChildSet(name, aset, m);
    if child.Some? then
      var ids := CompactIds(child.value);
      if ids.Some? then Bit(BitScan(ids.value, NO_BIT, Walk(a.payload)))
      else Section(name, Interpret(a.payload, child.value, m))
    else if a.Nested() then Undeclared(name, |a.payload|)
    else Scalar(name, a.Type(), a.payload)
  }

  /** Sets may name each other in a circle; the recursion ends because a payload is shorter than the
      attribute that holds it. */
  function Interpret(b: bytes, aset: AttrSet, m: Metadata): seq<Item>
    decreases |b|, 0
  {
    if AttrOk(b) then [InterpretOne(FirstAttr(b), aset, m)] + Interpret(RestAttrs(b), aset, m) else []
  }

  function Height(items: seq<Item>): nat {
    if items == [] then 0
    else Max(1 + if items[0].Section? then Height(items[0].kids) else 0, Height(items[1..]))
  }

  function Max(a: nat, b: nat): nat { if a < b then b else a }

  /** The recursion is at most total_len / 4 deep, whatever the schema. */
  lemma {:induction false} DepthBound(b: bytes, aset: AttrSet, m: Metadata)
    ensures 4 * Height(Interpret(b, aset, m)) <= |b|
    decreases |b|
  {
    if AttrOk(b) {
      var a := FirstAttr(b);
      var child := ChildSet(NameOf(aset.attrs, a.Type()), aset, m);
      if child.Some? { DepthBound(a.payload, child.value, m); }
      DepthBound(RestAttrs(b), aset, m);
    }
  }

  /** One item per attribute of the walk, in order. */
  lemma {:induction false} ItemPerAttr(b: bytes, aset: AttrSet, m: Metadata)
    ensures |Interpret(b, aset, m)| == |Walk(b)|
    ensures forall i :: 0 <= i < |Walk(b)| ==> Interpret(b, aset, m)[i] == InterpretOne(Walk(b)[i], aset, m)
    decreases |b|
  {
    hide InterpretOne, Interpret, Walk, FirstAttr, AttrOk;
    ItemStep(b, aset, m);
    if AttrOk(b) { ItemPerAttr(RestAttrs(b), aset, m); }
  }

  lemma ItemStep(b: bytes, aset: AttrSet, m: Metadata)
    ensures AttrOk(b) ==>
      && Walk(b) == [FirstAttr(b)] + Walk(RestAttrs(b))
      && Interpret(b, aset, m) == [InterpretOne(FirstAttr(b), aset, m)] + Interpret(RestAttrs(b), aset, m)
    ensures !AttrOk(b) ==> Walk(b) == [] && Interpret(b, aset, m) == []
  {
    hide InterpretOne;
  }

  /** So a list of attributes that was written comes out as one item for each of them. */
  lemma WrittenThenInterpreted(attrs: seq<Attr>, aset: AttrSet, m: Metadata)
    requires Sendable(attrs)
    ensures |Interpret(EncAttrs(attrs), aset, m)| == |attrs|
    ensures forall i :: 0 <= i < |attrs| ==>
      Interpret(EncAttrs(attrs), aset, m)[i] == InterpretOne(attrs[i], aset, m)
  {
    hide Interpret, InterpretOne, Walk, EncAttrs;
    ItemPerAttr(EncAttrs(attrs), aset, m);
    WalkEncAttrs(attrs);
  }

  // ---------------------------------------------------------------------------------------------
  // Printing a tree

  predicate PrintableByte(c: byte) {
    (c >= 0x20 || c == 9) && c != 0x7f
  }

  /** looks_like_string */
  predicate LooksLikeString(p: bytes) {
    && |p| >= 1 && p[|p| - 1] == 0
    && forall i :: 0 <= i < |p| - 1 ==> PrintableByte(p[i])
  }

  function BlobBytes(p: bytes): seq<Piece> {
    seq(|p|, i requires 0 <= i < |p| => BlobByte(p[i]))
  }

  function ScalarPieces(p: bytes): seq<Piece> {
    if p == [] then [FlagText]
    else if |p| > 1 && LooksLikeString(p) then [Quoted(p[..|p| - 1], |p|)]
    else match |p|
      case 1 => [U8Text(p[0])]
      case 2 => [U16Text(GetU16(p, 0))]
      case 4 => [U32Text(GetU32(p, 0))]
      case 8 => [U64Text(GetU32(p, 0) as nat + 0x1_0000_0000 * GetU32(p, 4) as nat)]
      case _ => BlobPieces(p)
  }

  function BlobPieces(p: bytes): seq<Piece> {
    [BlobHead(|p|)] + BlobBytes(p[..if |p| < 32 then |p| else 32]) + (if |p| > 32 then [Ellipsis] else []) + [Newline]
  }

  function Indents(depth: nat): seq<Piece> {
    seq(depth, _ => Indent)
  }

  function Pretty(it: Item, depth: nat): seq<Piece>
    decreases it, 1
  {
    match it
    case Bit(b) => Indents(depth) + [BitLine(if b.index.Some? then b.index.value else 0, b.name, b.on)]
    case Section(name, kids) => Indents(depth) + [Heading(name)] + PrettyAll(kids, depth + 1)
    case Undeclared(name, size) => Indents(depth) + [Heading(name)] + (Indents(depth + 1) + [NestedNote(size)])
    case Scalar(name, typ, payload) => Indents(depth) + [NameEquals(name, typ)] + ScalarPieces(payload)
  }

  function PrettyAll(items: seq<Item>, depth: nat): seq<Piece>
    decreases items, 0
  {
    if items == [] then [] else Pretty(items[0], depth) + PrettyAll(items[1..], depth)
  }

  // ---------------------------------------------------------------------------------------------
  // The loops

  function Texts(fmt: Piece -> string, ps: seq<Piece>): (ts: seq<string>)
    ensures |ts| == |ps|
  {
    seq(|ps|, i requires 0 <= i < |ps| => fmt(ps[i]))
  }

  lemma TextsAppend(fmt: Piece -> string, ps: seq<Piece>, qs: seq<Piece>)
    ensures Texts(fmt, ps + qs) == Texts(fmt, ps) + Texts(fmt, qs)
  {
  }

  /** The tb_appendf calls of a rendering, in order.  `WriteTo` carries them out on a text buffer. */
  class Printer {
    var pieces: seq<Piece>

    constructor ()
      ensures pieces == []
    {
      pieces := [];
    }

    method Put(p: Piece)
      modifies this
      ensures pieces == old(pieces) + [p]
    {
      pieces := pieces + [p];
    }

    /** tb_indent */
    method PutIndent(depth: nat)
      modifies this
      ensures pieces == old(pieces) + Indents(depth)
    {
      for i := 0 to depth
        invariant pieces == old(pieces) + Indents(i)
      {
        Put(Indent);
      }
    }

    /** The buffer ends up holding the concatenation of the formatted pieces, with its capacity within
        twice the text and no more characters moved than it can hold. */
    method WriteTo(tb: TextBuf, fmt: Piece -> string)
      requires tb.Valid() && tb.log == []
      modifies tb, tb.data
      ensures tb.Valid() && tb.data[..tb.off] == Concat(Texts(fmt, pieces))
      ensures tb.copied <= tb.data.Length && (tb.data.Length <= 256 || tb.data.Length < 2 * (tb.off + 1))
    {
      for i := 0 to |pieces|
        invariant tb.Valid() && tb.log == Texts(fmt, pieces[..i]) && pieces == old(pieces)
        invariant tb.data == old(tb.data) || fresh(tb.data)
      {
        TextsAppend(fmt, pieces[..i], [pieces[i]]);
        assert pieces[..i] + [pieces[i]] == pieces[..i + 1];
        tb.Append(fmt(pieces[i]));
      }
      assert pieces[..|pieces|] == pieces;
    }
  }

  method CheckString(p: bytes) returns (r: bool)
    ensures r == LooksLikeString(p)
  {
    if |p| < 1 || p[|p| - 1] != 0 { return false; }
    for i := 0 to |p| - 1
      invariant forall j :: 0 <= j < i ==> PrintableByte(p[j])
    {
      if !PrintableByte(p[i]) { return false; }
    }
    return true;
  }

  method RenderBlob(out: Printer, p: bytes)
    modifies out
    ensures out.pieces == old(out.pieces) + BlobPieces(p)
  {
    out.Put(BlobHead(|p|));
    var show := if |p| < 32 then |p| else 32;
    for i := 0 to show
      invariant out.pieces == old(out.pieces) + [BlobHead(|p|)] + BlobBytes(p[..i])
    {
      out.Put(BlobByte(p[i]));
      assert BlobBytes(p[..i + 1]) == BlobBytes(p[..i]) + [BlobByte(p[i])];
    }
    if show < |p| { out.Put(Ellipsis); }
    out.Put(Newline);
  }

  /** The text bytes: everything printable, and the tab. */
  predicate TextBytes(s: bytes) {
    forall c :: c in s ==> c == 9 || 0x20 <= c < 0x7f || 0x80 <= c
  }

  /** What is printed of a payload, by its bytes: nothing, a string, a number, or the first 32 bytes. */
  lemma ScalarShown(p: bytes)
    ensures p == [] ==> ScalarPieces(p) == [FlagText]
    ensures |p| == 1 ==> ScalarPieces(p) == [U8Text(p[0])]
    ensures |p| > 1 && p[|p| - 1] == 0 && TextBytes(p[..|p| - 1]) ==> ScalarPieces(p) == [Quoted(p[..|p| - 1], |p|)]
    ensures |p| > 1 && !(p[|p| - 1] == 0 && TextBytes(p[..|p| - 1])) ==>
      && (|p| == 2 ==> ScalarPieces(p) == [U16Text(p[0] as nat + 0x100 * p[1] as nat)])
      && (|p| == 4 ==> ScalarPieces(p) == [U32Text(p[0] as nat + 0x100 * p[1] as nat + 0x1_0000 * p[2] as nat + 0x100_0000 * p[3] as nat)])
      && (|p| == 8 ==> ScalarPieces(p) == [U64Text(GetU32(p, 0) as nat + 0x1_0000_0000 * GetU32(p, 4) as nat)])
      && (|p| !in {2, 4, 8} ==> BlobShown(p, ScalarPieces(p)))
  {
    hide GetU16, GetU32, LooksLikeString, TextBytes, BlobPieces, BlobShown;
    TextIff(p);
    Blobs(p);
    if |p| == 2 { NumberAt16(p); }
    if |p| == 4 { NumberAt(p, 0); }
  }

  /** Size, at most 32 bytes, and an ellipsis if there are more. */
  predicate BlobShown(p: bytes, ps: seq<Piece>) {
    var n := if |p| > 32 then 32 else |p|;
    && |ps| == n + (if |p| > 32 then 3 else 2) && ps[0] == BlobHead(|p|) && ps[|ps| - 1] == Newline
    && (|p| > 32 ==> ps[n + 1] == Ellipsis) && forall i :: 0 <= i < n ==> ps[1 + i] == BlobByte(p[i])
  }

  lemma Blobs(p: bytes)
    ensures BlobShown(p, BlobPieces(p))
  {
  }

  lemma NumberAt16(p: bytes)
    requires |p| >= 2
    ensures GetU16(p, 0) == p[0] as int + 0x100 * p[1] as int
  {
  }

  lemma TextIff(p: bytes)
    ensures LooksLikeString(p) <==> |p| >= 1 && p[|p| - 1] == 0 && TextBytes(p[..|p| - 1])
  {
    if |p| >= 1 {
      var s := p[..|p| - 1];
      assert forall i :: 0 <= i < |s| ==> s[i] == p[i] && s[i] in s;
    }
  }

  method RenderScalar(out: Printer, p: bytes)
    modifies out
    ensures out.pieces == old(out.pieces) + ScalarPieces(p)
  {
    hide GetU16, GetU32, LooksLikeString, BlobPieces;
    var text := CheckString(p);
    if p == [] {
      out.Put(FlagText);
    } else if |p| > 1 && text {
      out.Put(Quoted(p[..|p| - 1], |p|));
    } else {
      match |p|
      case 1 => out.Put(U8Text(p[0]));
      case 2 => out.Put(U16Text(GetU16(p, 0)));
      case 4 => out.Put(U32Text(GetU32(p, 0)));
      case 8 => out.Put(U64Text(GetU32(p, 0) as nat + 0x1_0000_0000 * GetU32(p, 4) as nat));
      case _ => RenderBlob(out, p);
    }
  }

  lemma Assoc(a: seq<Piece>, b: seq<Piece>, c: seq<Piece>, d: seq<Piece>)
    ensures a + b + c + d == a + (b + c + d)
    ensures a + b + c == a + (b + c)
  {
  }

  /** The attribute fills the index, or else the name, or else is the VALUE flag. */
  predicate FillsIndex(ids: BitIds, a: Attr) { a.Type() == ids.index && |a.payload| >= 4 }
  predicate FillsName(ids: BitIds, a: Attr) { a.Type() == ids.name && !FillsIndex(ids, a) }
  predicate IsFlag(ids: BitIds, a: Attr) { a.Type() == ids.value && !FillsName(ids, a) && !FillsIndex(ids, a) }

  /** The last attribute that fills the index, or -1. */
  function LastIndex(ids: BitIds, attrs: seq<Attr>): (k: int)
    ensures -1 <= k < |attrs| && (k >= 0 ==> FillsIndex(ids, attrs[k]))
    ensures forall j :: k < j < |attrs| ==> !FillsIndex(ids, attrs[j])
  {
    if attrs == [] then -1
    else if FillsIndex(ids, attrs[|attrs| - 1]) then |attrs| - 1 else LastIndex(ids, attrs[..|attrs| - 1])
  }

  function LastName(ids: BitIds, attrs: seq<Attr>): (k: int)
    ensures -1 <= k < |attrs| && (k >= 0 ==> FillsName(ids, attrs[k]))
    ensures forall j :: k < j < |attrs| ==> !FillsName(ids, attrs[j])
  {
    if attrs == [] then -1
    else if FillsName(ids, attrs[|attrs| - 1]) then |attrs| - 1 else LastName(ids, attrs[..|attrs| - 1])
  }

  ghost predicate IndexSays(ids: BitIds, attrs: seq<Attr>, index: Option<u32>) {
    var k := LastIndex(ids, attrs);
    index == if k < 0 then None else Some(GetU32(attrs[k].payload, 0))
  }

  ghost predicate NameSays(ids: BitIds, attrs: seq<Attr>, name: Option<bytes>) {
    var k := LastName(ids, attrs);
    if k < 0 then name == None
    else var p := attrs[k].payload; name == Some(if p != [] && p[|p| - 1] == 0 then p[..|p| - 1] else p)
  }

  /** The last index and the last name count, and VALUE if it occurs at all. */
  ghost predicate BitSays(ids: BitIds, attrs: seq<Attr>, st: BitState) {
    && IndexSays(ids, attrs, st.index) && NameSays(ids, attrs, st.name)
    && (st.on <==> exists k :: 0 <= k < |attrs| && IsFlag(ids, attrs[k]))
  }

  lemma IndexNext(ids: BitIds, pre: seq<Attr>, a: Attr, index: Option<u32>)
    requires IndexSays(ids, pre, index)
    ensures IndexSays(ids, pre + [a], if FillsIndex(ids, a) then Some(GetU32(a.payload, 0)) else index)
  {
    hide GetU32;
    assert (pre + [a])[..|pre|] == pre;
  }

  lemma NameNext(ids: BitIds, pre: seq<Attr>, a: Attr, name: Option<bytes>)
    requires NameSays(ids, pre, name)
    ensures NameSays(ids, pre + [a], if FillsName(ids, a) then Some(DropNul(a.payload)) else name)
  {
    assert (pre + [a])[..|pre|] == pre;
  }

  lemma FlagNext(ids: BitIds, pre: seq<Attr>, a: Attr)
    ensures (exists k :: 0 <= k < |pre + [a]| && IsFlag(ids, (pre + [a])[k]))
            <==> IsFlag(ids, a) || exists k :: 0 <= k < |pre| && IsFlag(ids, pre[k])
  {
    hide IsFlag;
    var attrs := pre + [a];
    assert attrs[|pre|] == a && forall k :: 0 <= k < |pre| ==> attrs[k] == pre[k];
  }

  lemma {:induction false} BitScanSays(ids: BitIds, attrs: seq<Attr>)
    ensures BitSays(ids, attrs, BitScan(ids, NO_BIT, attrs))
    decreases |attrs|
  {
    hide GetU32, DropNul, BitScan, IndexSays, NameSays;
    if attrs == [] {
      NoBitSeen(ids);
    } else {
      var n := |attrs| - 1;
      var pre, a := attrs[..n], attrs[n];
      assert attrs == pre + [a];
      BitScanSays(ids, pre);
      BitScanSnoc(ids, NO_BIT, pre, a);
      var st := BitScan(ids, NO_BIT, pre);
      IndexNext(ids, pre, a, st.index);
      NameNext(ids, pre, a, st.name);
      FlagNext(ids, pre, a);
    }
  }

  lemma NoBitSeen(ids: BitIds)
    ensures BitScan(ids, NO_BIT, []) == NO_BIT && IndexSays(ids, [], None) && NameSays(ids, [], None)
  {
  }

  lemma {:induction false} BitScanSnoc(ids: BitIds, st: BitState, attrs: seq<Attr>, a: Attr)
    ensures BitScan(ids, st, attrs + [a]) == BitStep(ids, BitScan(ids, st, attrs), a)
    decreases attrs
  {
    hide BitStep;
    if attrs == [] {
      assert attrs + [a] == [a] && [a][1..] == [];
    } else {
      assert (attrs + [a])[1..] == attrs[1..] + [a];
      BitScanSnoc(ids, BitStep(ids, st, attrs[0]), attrs[1..], a);
    }
  }

  method ScanBit(buf: bytes, inner: Cursor, ids: BitIds) returns (st: BitState)
    requires Inside(buf, inner)
    ensures st == BitScan(ids, NO_BIT, Walk(Window(buf, inner))) && BitSays(ids, Walk(Window(buf, inner)), st)
  {
    BitScanSays(ids, Walk(Window(buf, inner)));
    var c := inner;
    st := NO_BIT;
    CursorStep(buf, c);
    while NlaOk(buf, c)
      invariant Inside(buf, c) && (NlaOk(buf, c) <==> AttrOk(Window(buf, c)))
      invariant BitScan(ids, st, Walk(Window(buf, c))) == BitScan(ids, NO_BIT, Walk(Window(buf, inner)))
      decreases c.rem
    {
      hide GetU16, GetU32, Align4, AttrOk, FirstAttr, RestAttrs, Window, NlaNext, NlaData;
      CursorStep(buf, c);
      var a := Attr(NlaRawType(buf, c), Window(buf, NlaData(buf, c)));
      if a.Type() == ids.index && |a.payload| >= 4 {
        st := st.(index := Some(GetU32(a.payload, 0)));
      } else if a.Type() == ids.name {
        st := st.(name := Some(DropNul(a.payload)));
      } else if a.Type() == ids.value {
        st := st.(on := true);
      }
      c := NlaNext(buf, c);
      CursorStep(buf, c);
    }
  }

  /** try_render_bit_compact, called when the child set is BITSET_BIT: false means nothing was printed. */
  method TryRenderBit(out: Printer, buf: bytes, inner: Cursor, bitSet: AttrSet, depth: nat) returns (done: bool)
    requires Inside(buf, inner) && bitSet.name == "BITSET_BIT"
    modifies out
    ensures done == CompactIds(bitSet).Some?
    ensures out.pieces == old(out.pieces) +
                          if done then Pretty(Bit(BitScan(CompactIds(bitSet).value, NO_BIT, Walk(Window(buf, inner)))), depth)
                          else []
  {
    var idx := FindId(bitSet.attrs, "INDEX");
    var nam := FindId(bitSet.attrs, "NAME");
    var val := FindId(bitSet.attrs, "VALUE");
    if idx == None || nam == None || val == None { return false; }
    hide Window, Walk, BitScan, IdOf;
    ghost var before := out.pieces;
    var st := ScanBit(buf, inner, BitIds(idx.value, nam.value, val.value));
    out.PutIndent(depth);
    var line := BitLine(if st.index.Some? then st.index.value else 0, st.name, st.on);
    out.Put(line);
    Assoc(before, Indents(depth), [line], []);
    return true;
  }

  // ---------------------------------------------------------------------------------------------
  // What is shown of an attribute, in terms of the lookups alone

  /** The payload of `a`, found under `s`, is read under `c`: the set of its name or, if there is none of
      that name, the one its alias names. */
  ghost predicate ReadUnder(m: Metadata, s: AttrSet, a: Attr, c: AttrSet) {
    var name := NameOf(s.attrs, a.Type());
    name.Some? &&
    var same, alias := SetNamed(m.sets, name.value), AliasOf(m.aliases, s.name, name.value);
    same == Some(c) || (same == None && alias.Some? && SetNamed(m.sets, alias.value) == Some(c))
  }

  /** A BITSET_BIT that declares all three of its attributes is shown in one line. */
  ghost predicate InOneLine(c: AttrSet) {
    c.name == "BITSET_BIT"
    && IdOf(c.attrs, "INDEX").Some? && IdOf(c.attrs, "NAME").Some? && IdOf(c.attrs, "VALUE").Some?
  }

  /** `line` stands in `pieces` without a gap. */
  ghost predicate Has(pieces: seq<Piece>, line: seq<Piece>) {
    exists pre: seq<Piece>, post: seq<Piece> :: pieces == pre + line + post
  }

  lemma HasWithin(pre: seq<Piece>, pieces: seq<Piece>, post: seq<Piece>, line: seq<Piece>)
    requires Has(pieces, line)
    ensures Has(pre + pieces + post, line)
  {
    var before: seq<Piece>, after: seq<Piece> :| pieces == before + line + after;
    assert pre + pieces + post == (pre + before) + line + (after + post);
  }

  lemma HasFirst(line: seq<Piece>, post: seq<Piece>)
    ensures Has(line + post, line)
  {
    assert line + post == [] + line + post;
  }

  /** Attributes inside one another, from `path[0]` in `b` on, and the set each is read under. */
  ghost predicate Follows(b: bytes, s: AttrSet, m: Metadata, path: seq<Attr>, sets: seq<AttrSet>)
    decreases |path|
  {
    && |path| == |sets| > 0 && sets[0] == s && path[0] in Walk(b)
    && (|path| > 1 ==> ReadUnder(m, s, path[0], sets[1]) && !InOneLine(sets[1])
                       && Follows(path[0].payload, sets[1], m, path[1..], sets[1..]))
  }

  /** `a`, found under `s`, is printed somewhere in `pieces` at this depth: as a bit of its set in one
      line, as the heading of what its set says of its payload, as a nest nobody declared, or as a value
      under its name in `s`. */
  ghost predicate Told(pieces: seq<Piece>, m: Metadata, s: AttrSet, a: Attr, depth: nat) {
    var name := NameOf(s.attrs, a.Type());
    && (forall c :: ReadUnder(m, s, a, c) && InOneLine(c) ==>
          exists st: BitState ::
            BitSays(BitIds(IdOf(c.attrs, "INDEX").value, IdOf(c.attrs, "NAME").value, IdOf(c.attrs, "VALUE").value), Walk(a.payload), st)
            && Has(pieces, Indents(depth) + [BitLine(if st.index.Some? then st.index.value else 0, st.name, st.on)]))
    && (forall c :: ReadUnder(m, s, a, c) && !InOneLine(c) ==> Has(pieces, Indents(depth) + [Heading(name)]))
    && ((forall c :: !ReadUnder(m, s, a, c)) ==>
          Has(pieces, if a.raw >= 0x8000 then Indents(depth) + [Heading(name)] + Indents(depth + 1) + [NestedNote(|a.payload|)]
                      else Indents(depth) + [NameEquals(name, a.Type())] + ScalarPieces(a.payload)))
  }

  lemma ToldWithin(pre: seq<Piece>, pieces: seq<Piece>, post: seq<Piece>, m: Metadata, s: AttrSet, a: Attr, depth: nat)
    requires Told(pieces, m, s, a, depth)
    ensures Told(pre + pieces + post, m, s, a, depth)
  {
    hide Has, ReadUnder, InOneLine, BitSays, ScalarPieces;
    forall line | Has(pieces, line) ensures Has(pre + pieces + post, line) { HasWithin(pre, pieces, post, line); }
  }

  lemma ChildIsReadUnder(m: Metadata, s: AttrSet, a: Attr, c: AttrSet)
    ensures ReadUnder(m, s, a, c) <==> ChildSet(NameOf(s.attrs, a.Type()), s, m) == Some(c)
  {
  }

  /** The one attribute, with everything below it. */
  lemma OneShown(a: Attr, s: AttrSet, m: Metadata, depth: nat)
    ensures var name, ps := NameOf(s.attrs, a.Type()), Pretty(InterpretOne(a, s, m), depth);
      && (forall c :: ReadUnder(m, s, a, c) && !InOneLine(c) ==>
            ps == Indents(depth) + [Heading(name)] + PrettyAll(Interpret(a.payload, c, m), depth + 1))
      && ((forall c :: !ReadUnder(m, s, a, c)) ==>
            ps == if a.raw >= 0x8000 then Indents(depth) + [Heading(name)] + Indents(depth + 1) + [NestedNote(|a.payload|)]
                  else Indents(depth) + [NameEquals(name, a.Type())] + ScalarPieces(a.payload))
    ensures forall c :: ReadUnder(m, s, a, c) && InOneLine(c) ==>
      exists index, name, on :: Pretty(InterpretOne(a, s, m), depth) == Indents(depth) + [BitLine(index, name, on)]
    ensures Told(Pretty(InterpretOne(a, s, m), depth), m, s, a, depth)
  {
    hide Interpret, ScalarPieces, BitSays, BitScan, Walk, ReadUnder, IdOf, NameOf, SetNamed, AliasOf, Has, ChildSet;
    var name, it := NameOf(s.attrs, a.Type()), InterpretOne(a, s, m);
    var child, ps := ChildSet(name, s, m), Pretty(it, depth);
    forall c ensures ReadUnder(m, s, a, c) <==> child == Some(c) { ChildIsReadUnder(m, s, a, c); }
    assert ps + [] == ps;
    HasFirst(ps, []);
    if child.Some? {
      if InOneLine(child.value) {
        var ids := CompactIds(child.value).value;
        BitScanSays(ids, Walk(a.payload));
      } else {
        HasFirst(Indents(depth) + [Heading(name)], PrettyAll(it.kids, depth + 1));
      }
    } else if a.Nested() {
      Assoc(Indents(depth) + [Heading(name)], Indents(depth + 1), [NestedNote(|a.payload|)], []);
    }
  }

  /** The attributes of `b` are shown one after the other, each once, and nothing else is. */
  lemma AllShown(b: bytes, s: AttrSet, m: Metadata, depth: nat)
    ensures Walk(b) == [] ==> PrettyAll(Interpret(b, s, m), depth) == []
    ensures Walk(b) != [] ==>
      var next := (b[0] + 0x100 * b[1] as int + 3) / 4 * 4;
      PrettyAll(Interpret(b, s, m), depth)
      == Pretty(InterpretOne(Walk(b)[0], s, m), depth)
         + PrettyAll(Interpret(if next <= |b| then b[next..] else [], s, m), depth)
  {
    hide InterpretOne, Pretty;
    if AttrOk(b) { PrettyStep(b, s, m, depth); } else { PrettyDone(b, s, m, depth); }
  }

  /** Where an attribute stands among what is printed of `b`. */
  lemma {:induction false} Placed(b: bytes, s: AttrSet, m: Metadata, depth: nat, a: Attr) returns (pre: seq<Piece>, post: seq<Piece>)
    requires a in Walk(b)
    ensures PrettyAll(Interpret(b, s, m), depth) == pre + Pretty(InterpretOne(a, s, m), depth) + post
    decreases |b|
  {
    hide InterpretOne, Pretty, PrettyAll, Interpret;
    PrettyStep(b, s, m, depth);
    var here := Pretty(InterpretOne(FirstAttr(b), s, m), depth);
    if a == FirstAttr(b) {
      pre, post := [], PrettyAll(Interpret(RestAttrs(b), s, m), depth);
    } else {
      pre, post := Placed(RestAttrs(b), s, m, depth, a);
      Assoc(here, pre, Pretty(InterpretOne(a, s, m), depth), post);
      pre := here + pre;
    }
  }

  lemma FollowsOn(b: bytes, s: AttrSet, m: Metadata, path: seq<Attr>, sets: seq<AttrSet>)
    requires Follows(b, s, m, path, sets)
    ensures |path| == |sets| > 0 && sets[0] == s && path[0] in Walk(b)
    ensures |path| > 1 ==> ReadUnder(m, s, path[0], sets[1]) && !InOneLine(sets[1])
                           && Follows(path[0].payload, sets[1], m, path[1..], sets[1..])
  {
    hide ReadUnder, InOneLine, Walk;
  }

  lemma SectionShown(a: Attr, s: AttrSet, m: Metadata, depth: nat, c: AttrSet)
    requires ReadUnder(m, s, a, c) && !InOneLine(c)
    ensures Pretty(InterpretOne(a, s, m), depth)
         == Indents(depth) + [Heading(NameOf(s.attrs, a.Type()))] + PrettyAll(Interpret(a.payload, c, m), depth + 1)
  {
    hide InterpretOne, Pretty, PrettyAll, Interpret, Told, ReadUnder, InOneLine;
    OneShown(a, s, m, depth);
  }

  /** The end of every such path is told, as deep as the path is long. */
  lemma {:induction false} PathTold(b: bytes, s: AttrSet, m: Metadata, depth: nat, path: seq<Attr>, sets: seq<AttrSet>)
    requires Follows(b, s, m, path, sets)
    ensures Told(PrettyAll(Interpret(b, s, m), depth), m, sets[|path| - 1], path[|path| - 1], depth + |path| - 1)
    decreases |path|
  {
    hide InterpretOne, Pretty, PrettyAll, Interpret, Told, ReadUnder, InOneLine, Walk, Follows;
    FollowsOn(b, s, m, path, sets);
    var a := path[0];
    var pre, post := Placed(b, s, m, depth, a);
    var here := Pretty(InterpretOne(a, s, m), depth);
    if |path| == 1 {
      OneShown(a, s, m, depth);
    } else {
      SectionShown(a, s, m, depth, sets[1]);
      PathTold(a.payload, sets[1], m, depth + 1, path[1..], sets[1..]);
      var kids := PrettyAll(Interpret(a.payload, sets[1], m), depth + 1);
      ToldWithin(Indents(depth) + [Heading(NameOf(s.attrs, a.Type()))], kids, [], m, sets[|path| - 1], path[|path| - 1], depth + |path| - 1);
      assert here + [] == here;
    }
    ToldWithin(pre, here, post, m, sets[|path| - 1], path[|path| - 1], depth + |path| - 1);
  }

  lemma PathsTold(b: bytes, s: AttrSet, m: Metadata, depth: nat)
    ensures forall path, sets :: Follows(b, s, m, path, sets) ==>
      Told(PrettyAll(Interpret(b, s, m), depth), m, sets[|path| - 1], path[|path| - 1], depth + |path| - 1)
  {
    forall path, sets | Follows(b, s, m, path, sets)
      ensures Told(PrettyAll(Interpret(b, s, m), depth), m, sets[|path| - 1], path[|path| - 1], depth + |path| - 1)
    {
      PathTold(b, s, m, depth, path, sets);
    }
  }

  lemma PrettyDone(b: bytes, aset: AttrSet, m: Metadata, depth: nat)
    requires !AttrOk(b)
    ensures PrettyAll(Interpret(b, aset, m), depth) == []
  {
  }

  lemma PrettyStep(b: bytes, aset: AttrSet, m: Metadata, depth: nat)
    requires AttrOk(b)
    ensures PrettyAll(Interpret(b, aset, m), depth)
         == Pretty(InterpretOne(FirstAttr(b), aset, m), depth) + PrettyAll(Interpret(RestAttrs(b), aset, m), depth)
  {
  }

  /** render_attrs_recursive: prints the tree of its window and depends on nothing outside it. */
  method RenderAttrs(out: Printer, buf: bytes, first: Cursor, aset: AttrSet, m: Metadata, depth: nat)
    requires Inside(buf, first)
    modifies out
    ensures out.pieces == old(out.pieces) + PrettyAll(Interpret(Window(buf, first), aset, m), depth)
    ensures forall path, sets :: Follows(Window(buf, first), aset, m, path, sets) ==>
              Told(out.pieces[|old(out.pieces)|..], m, sets[|path| - 1], path[|path| - 1], depth + |path| - 1)
    decreases first.rem
  {
    hide InterpretOne, Pretty, PrettyAll, Interpret, Window, AttrOk, NlaOk, NlaNext, FirstAttr, RestAttrs, Follows, Told;
    PathsTold(Window(buf, first), aset, m, depth);
    var c := first;
    CursorStep(buf, c);
    while NlaOk(buf, c)
      invariant Inside(buf, c) && c.rem <= first.rem && (NlaOk(buf, c) <==> AttrOk(Window(buf, c)))
      invariant out.pieces + PrettyAll(Interpret(Window(buf, c), aset, m), depth)
             == old(out.pieces) + PrettyAll(Interpret(Window(buf, first), aset, m), depth)
      decreases c.rem
    {
      CursorStep(buf, c);
      PrettyStep(Window(buf, c), aset, m, depth);
      ghost var before := out.pieces;
      RenderOne(out, buf, c, aset, m, depth);
      c := NlaNext(buf, c);
      CursorStep(buf, c);
      ghost var rest := PrettyAll(Interpret(Window(buf, c), aset, m), depth);
      assert out.pieces + rest == before + (out.pieces[|before|..] + rest);
    }
    PrettyDone(Window(buf, c), aset, m, depth);
    assert out.pieces + [] == out.pieces;
    assert out.pieces[|old(out.pieces)|..] == PrettyAll(Interpret(Window(buf, first), aset, m), depth);
  }

  /** The set an attribute's payload is read under: the one named like it, else the aliased one. */
  method FindChildSet(name: Option<string>, aset: AttrSet, m: Metadata) returns (child: Option<AttrSet>)
    ensures child == ChildSet(name, aset, m)
  {
    child := None;
    if name.Some? {
      child := FindSet(m.sets, name.value);
      if child == None {
        var aliased := ResolveAlias(m.aliases, aset.name, name.value);
        if aliased.Some? { child := FindSet(m.sets, aliased.value); }
      }
    }
  }

  method PutNote(out: Printer, size: nat, depth: nat)
    modifies out
    ensures out.pieces == old(out.pieces) + (Indents(depth) + [NestedNote(size)])
  {
    out.PutIndent(depth);
    out.Put(NestedNote(size));
  }

  method PutValue(out: Printer, name: Option<string>, typ: nat, payload: bytes, depth: nat)
    modifies out
    ensures out.pieces == old(out.pieces) + Pretty(Scalar(name, typ, payload), depth)
  {
    hide ScalarPieces;
    ghost var before := out.pieces;
    out.PutIndent(depth);
    out.Put(NameEquals(name, typ));
    RenderScalar(out, payload);
    Assoc(before, Indents(depth), [NameEquals(name, typ)], ScalarPieces(payload));
  }

  /** The body of that loop, for the attribute under the cursor. */
  method RenderOne(out: Printer, buf: bytes, c: Cursor, aset: AttrSet, m: Metadata, depth: nat)
    requires Inside(buf, c) && NlaOk(buf, c)
    modifies out
    ensures out.pieces == old(out.pieces) +
                          Pretty(InterpretOne(Attr(NlaRawType(buf, c), Window(buf, NlaData(buf, c))), aset, m), depth)
    decreases c.rem, 0
  {
    hide NlaOk, Window, Walk, CompactIds, GetU16, Align4, SetNamed, AliasOf, NameOf, ScalarPieces, Interpret, BitScan,
      ChildSet;
    var a := Attr(NlaRawType(buf, c), Window(buf, NlaData(buf, c)));
    ghost var it, before := InterpretOne(a, aset, m), out.pieces;
    var name := FindName(aset.attrs, a.Type());
    var child := FindChildSet(name, aset, m);
    if child.Some? || a.Nested() {
      if child.Some? && child.value.name == "BITSET_BIT" {
        var done := TryRenderBit(out, buf, NlaData(buf, c), child.value, depth);
        if done { return; }
      }
      assert child.Some? ==> CompactIds(child.value) == None by { CompactOnlyBits(child); }
      out.PutIndent(depth);
      out.Put(Heading(name));
      if child.Some? {
        assert it == Section(name, Interpret(a.payload, child.value, m));
        RenderAttrs(out, buf, NlaData(buf, c), child.value, m, depth + 1);
        Assoc(before, Indents(depth), [Heading(name)], PrettyAll(it.kids, depth + 1));
      } else {
        assert it == Undeclared(name, |a.payload|);
        PutNote(out, |a.payload|, depth + 1);
        Assoc(before, Indents(depth), [Heading(name)], Indents(depth + 1) + [NestedNote(|a.payload|)]);
        assert Pretty(it, depth) == Indents(depth) + [Heading(name)] + (Indents(depth + 1) + [NestedNote(|a.payload|)]);
      }
    } else {
      assert it == Scalar(name, a.Type(), a.payload);
      PutValue(out, name, a.Type(), a.payload, depth);
    }
  }

  lemma CompactOnlyBits(child: Option<AttrSet>)
    ensures child.Some? && child.value.name != "BITSET_BIT" ==> CompactIds(child.value) == None
  {
  }
}
