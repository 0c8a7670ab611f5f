/** Attribute trees: what a well-bracketed run of ab_* calls writes, and what the recursive reading
    of those bytes finds.  `RoundTrip` connects the two. */
module AttrTree {
  import opened Wire

  /** One completed ab_string, ab_u32 or ab_begin_nested ... ab_end_nested. */
  datatype Node =
    | Text(typ: u16, s: bytes)
    | Num(typ: u16, v: u32)
    | Nest(typ: u16, kids: seq<Node>)

  /** type | NLA_F_NESTED */
  function WithNested(typ: u16): u16 {
    if typ >= 0x8000 then typ else typ + 0x8000
  }

  /** The attribute a node becomes: strings carry their NUL, nests their encoded kids. */
  function AttrOf(n: Node): Attr
    decreases n, 1
  {
    match n
    case Text(typ, s) => Attr(typ, s + [0])
    case Num(typ, v) => Attr(typ, PutU32(v))
    case Nest(typ, kids) => Attr(WithNested(typ), EncAll(kids))
  }

  function EncAll(ns: seq<Node>): bytes
    decreases ns, 0
  {
    if ns == [] then [] else EncAttr(AttrOf(ns[0])) + EncAll(ns[1..])
  }

  lemma {:induction false} EncAllAligned(ns: seq<Node>)
    ensures |EncAll(ns)| % 4 == 0
  {
    if ns != [] {
      hide EncAttr, Align4;
      Aligned(NLA_HDRLEN + |AttrOf(ns[0]).payload|);
      EncAllAligned(ns[1..]);
      AlignedSum(|EncAttr(AttrOf(ns[0]))|, |EncAll(ns[1..])|);
    }
  }

  lemma {:induction false} EncAllAppend(ns: seq<Node>, n: Node)
    ensures EncAll(ns + [n]) == EncAll(ns) + EncAttr(AttrOf(n))
  {
    if ns == [] {
      assert [n][1..] == [];
    } else {
      assert (ns + [n])[1..] == ns[1..] + [n];
      EncAllAppend(ns[1..], n);
    }
  }

  // ---------------------------------------------------------------------------------------------

  datatype Tree =
    | Leaf(typ: nat, payload: bytes)
    | Branch(typ: nat, kids: seq<Tree>)

  /** The recursive walk: NLA_OK/NLA_NEXT at every level, descending where NLA_F_NESTED is set.
      Only the number of bytes left decreases. */
  function Decode(b: bytes): seq<Tree>
    decreases |b|
  {
    if !AttrOk(b) then [] else
      var a := FirstAttr(b);
      [if a.Nested() then Branch(a.Type(), Decode(a.payload)) else Leaf(a.Type(), a.payload)]
      + Decode(RestAttrs(b))
  }

  /** The tree the caller of ab_* meant. */
  function Meant(n: Node): Tree
    decreases n, 1
  {
    match n
    case Text(typ, s) => Leaf(typ, s + [0])
    case Num(typ, v) => Leaf(typ, PutU32(v))
    case Nest(typ, kids) => Branch(typ, MeantAll(kids))
  }

  function MeantAll(ns: seq<Node>): (ts: seq<Tree>)
    ensures |ts| == |ns|
    decreases ns, 0
  {
    if ns == [] then [] else [Meant(ns[0])] + MeantAll(ns[1..])
  }

  /** Every attribute type fits under NLA_TYPE_MASK. */
  predicate TypesFit(ns: seq<Node>) {
    ns == [] ||
    (&& ns[0].typ < NLA_TYPE_LIMIT
     && (ns[0].Nest? ==> TypesFit(ns[0].kids))
     && TypesFit(ns[1..]))
  }

  predicate TreesFit(ts: seq<Tree>) {
    ts == [] ||
    (&& ts[0].typ < NLA_TYPE_LIMIT
     && (ts[0].Branch? ==> TreesFit(ts[0].kids))
     && TreesFit(ts[1..]))
  }

  function TreeOf(a: Attr): Tree {
    if a.Nested() then Branch(a.Type(), Decode(a.payload)) else Leaf(a.Type(), a.payload)
  }

  lemma DecodePeel(a: Attr, rest: bytes)
    requires NLA_HDRLEN + |a.payload| < 0x1_0000
    ensures Decode(EncAttr(a) + rest) == [TreeOf(a)] + Decode(rest)
  {
    PeelAttr(a, rest);
  }

  lemma TypeSurvives(typ: u16, payload: bytes)
    requires typ < NLA_TYPE_LIMIT
    ensures Attr(typ, payload).Type() == typ && !Attr(typ, payload).Nested()
    ensures Attr(WithNested(typ), payload).Type() == typ && Attr(WithNested(typ), payload).Nested()
  {
  }

  lemma TreeOfNode(n: Node)
    requires n.typ < NLA_TYPE_LIMIT
    requires n.Nest? ==> Decode(EncAll(n.kids)) == MeantAll(n.kids)
    ensures TreeOf(AttrOf(n)) == Meant(n)
  {
    TypeSurvives(n.typ, AttrOf(n).payload);
  }

  lemma PartsFit(ns: seq<Node>)
    requires ns != []
    ensures |EncAll(ns)| >= NLA_HDRLEN + |AttrOf(ns[0]).payload| + |EncAll(ns[1..])|
    ensures ns[0].Nest? ==> |EncAll(ns)| > |EncAll(ns[0].kids)|
  {
  }

  lemma {:induction false} DecodeEncAll(ns: seq<Node>)
    requires |EncAll(ns)| < 0x1_0000 && TypesFit(ns)
    ensures Decode(EncAll(ns)) == MeantAll(ns)
  {
    if ns != [] {
      PartsFit(ns);
      DecodePeel(AttrOf(ns[0]), EncAll(ns[1..]));
      DecodeEncAll(ns[1..]);
      if ns[0].Nest? { DecodeEncAll(ns[0].kids); }
      TreeOfNode(ns[0]);
    }
  }

  lemma {:induction false} DecodedTypesFit(b: bytes)
    ensures TreesFit(Decode(b))
    decreases |b|
  {
    if AttrOk(b) {
      DecodedTypesFit(FirstAttr(b).payload);
      DecodedTypesFit(RestAttrs(b));
    }
  }

  lemma {:induction false} MeantTypesFit(ns: seq<Node>)
    requires TreesFit(MeantAll(ns))
    ensures TypesFit(ns)
  {
    if ns != [] {
      assert MeantAll(ns)[0] == Meant(ns[0]) && MeantAll(ns)[1..] == MeantAll(ns[1..]);
      MeantTypesFit(ns[1..]);
      if ns[0].Nest? { MeantTypesFit(ns[0].kids); }
    }
  }

  /** Whatever fits a 16-bit length reads back as the tree that was meant exactly when every type is
      below 2^14. */
  lemma RoundTrip(ns: seq<Node>)
    requires |EncAll(ns)| < 0x1_0000
    ensures Decode(EncAll(ns)) == MeantAll(ns) <==> TypesFit(ns)
  {
    if TypesFit(ns) {
      DecodeEncAll(ns);
    } else if Decode(EncAll(ns)) == MeantAll(ns) {
      DecodedTypesFit(EncAll(ns));
      MeantTypesFit(ns);
      assert false;
    }
  }
}
