/** The request writer: ab_reserve, ab_string, ab_u32, ab_begin_nested and ab_end_nested over a fixed
    buffer that starts out zeroed behind its message headers. */
module AttrBuffer {
  import opened Wire
  import opened AttrTree

  /** A nest that is still open: where its header stands, its type, and what it holds so far.
      The bottom frame stands for the message itself and has no header. */
  datatype Frame = Frame(at: nat, typ: u16, done: seq<Node>)

  function Top(fs: seq<Frame>): Frame
    requires fs != []
  {
    fs[|fs| - 1]
  }

  function Below(fs: seq<Frame>): seq<Frame>
    requires fs != []
  {
    fs[..|fs| - 1]
  }

  /** The effect of one completed attribute, and of closing a nest, on the open frames. */
  function Add(fs: seq<Frame>, n: Node): seq<Frame>
    requires fs != []
  {
    Below(fs) + [Top(fs).(done := Top(fs).done + [n])]
  }

  function Close(fs: seq<Frame>): seq<Frame>
    requires |fs| > 1
  {
    Add(Below(fs), Nest(Top(fs).typ, Top(fs).done))
  }

  /** The bytes of a run that is not finished yet: nests still open have length 0 in their header. */
  function OpenBytes(fs: seq<Frame>): bytes
  {
    if fs == [] then []
    else OpenBytes(Below(fs)) + (if |fs| == 1 then [] else Hdr(0, WithNested(Top(fs).typ))) + EncAll(Top(fs).done)
  }

  lemma AddBytes(fs: seq<Frame>, n: Node)
    requires fs != []
    ensures OpenBytes(Add(fs, n)) == OpenBytes(fs) + EncAttr(AttrOf(n))
  {
    var gs := Add(fs, n);
    assert Below(gs) == Below(fs);
    EncAllAppend(Top(fs).done, n);
  }

  lemma NoPad(body: bytes)
    requires |body| % 4 == 0
    ensures Pad(NLA_HDRLEN + |body|) == []
  {
    Aligned(NLA_HDRLEN + |body|);
  }

  /** Closing a nest only fills in the two length bytes of its header. */
  lemma CloseBytes(fs: seq<Frame>)
    requires |fs| > 1
    ensures var body := EncAll(Top(fs).done);
            OpenBytes(Close(fs))
            == OpenBytes(Below(fs)) + Hdr(NLA_HDRLEN + |body|, WithNested(Top(fs).typ)) + body
  {
    hide EncAll, Hdr, Align4;
    var body := EncAll(Top(fs).done);
    var n := Nest(Top(fs).typ, Top(fs).done);
    AddBytes(Below(fs), n);
    EncAllAligned(Top(fs).done);
    NoPad(body);
    assert EncAttr(AttrOf(n)) == Hdr(NLA_HDRLEN + |body|, WithNested(n.typ)) + body;
  }

  lemma ZerosSplit(n: nat, m: nat)
    ensures Zeros(n + m) == Zeros(n) + Zeros(m)
  {
  }

  /** Overwriting the middle of a concatenation. */
  lemma Splice(d: bytes, a: bytes, b: bytes, c: bytes, src: bytes)
    requires d == a + b + c && |src| == |b|
    ensures d[..|a|] + src + d[|a| + |src|..] == a + src + c
  {
    assert d[..|a|] == a && d[|a| + |src|..] == c;
  }

  /** Header and payload stored over zeros make one encoded attribute, padding included. */
  lemma PutBytes(before: bytes, room: nat, a: Attr)
    requires Align4(NLA_HDRLEN + |a.payload|) <= room
    ensures var total := NLA_HDRLEN + |a.payload|;
            var d := before + Zeros(room);
            d[..|before|] + (Hdr(total, a.raw) + a.payload) + d[|before| + total..]
            == before + EncAttr(a) + Zeros(room - Align4(total))
  {
    var total := NLA_HDRLEN + |a.payload|;
    ZerosSplit(total, room - total);
    ZerosSplit(Align4(total) - total, room - Align4(total));
    Splice(before + Zeros(room), before, Zeros(total), Zeros(room - total), Hdr(total, a.raw) + a.payload);
  }

  /** The same store, seen from the frames: the open run grows by one node. */
  lemma StoreNode(d: bytes, head: bytes, fs: seq<Frame>, room: nat, n: Node)
    requires fs != [] && |EncAttr(AttrOf(n))| <= room
    requires d == head + OpenBytes(fs) + Zeros(room)
    ensures var a := AttrOf(n);
            var at := |head| + |OpenBytes(fs)|;
            d[..at] + (Hdr(NLA_HDRLEN + |a.payload|, a.raw) + a.payload) + d[at + NLA_HDRLEN + |a.payload|..]
            == head + OpenBytes(Add(fs, n)) + Zeros(room - |EncAttr(a)|)
  {
    hide AttrOf, EncAttr, OpenBytes, Align4;
    PutBytes(head + OpenBytes(fs), room, AttrOf(n));
    AddBytes(fs, n);
    assert head + (OpenBytes(fs) + EncAttr(AttrOf(n))) == head + OpenBytes(fs) + EncAttr(AttrOf(n));
  }

  /** Patching the length field of an open header. */
  lemma PatchBytes(below: bytes, typ: u16, body: bytes, tail: bytes, len: nat)
    ensures var d := below + Hdr(0, typ) + body + tail;
            d[..|below|] + PutU16(len % 0x1_0000) + d[|below| + 2..] == below + Hdr(len, typ) + body + tail
  {
    hide PutU16;
    var d := below + Hdr(0, typ) + body + tail;
    assert d == below + PutU16(0) + (PutU16(typ) + body + tail);
    Splice(d, below, PutU16(0), PutU16(typ) + body + tail, PutU16(len % 0x1_0000));
  }

  /** Every open header stands right behind what was written before it. */
  ghost predicate Placed(start: nat, fs: seq<Frame>) {
    |fs| <= 1 || (Top(fs).at == start + |OpenBytes(Below(fs))| && Placed(start, Below(fs)))
  }

  lemma AddPlaced(start: nat, fs: seq<Frame>, n: Node)
    requires fs != [] && Placed(start, fs)
    ensures Placed(start, Add(fs, n))
  {
    assert Below(Add(fs, n)) == Below(fs);
  }

  /** The patch of the length field, seen from the frames: the innermost nest is closed. */
  lemma CloseNode(d: bytes, head: bytes, fs: seq<Frame>, room: nat, at: nat)
    requires |fs| > 1 && at == Top(fs).at && Placed(|head|, fs) && d == head + OpenBytes(fs) + Zeros(room)
    ensures var off := |head| + |OpenBytes(fs)|;
      && at + 2 <= off && |PutU16((off - at) % 0x1_0000)| == 2
      && d[..at] + PutU16((off - at) % 0x1_0000) + d[at + 2..] == head + OpenBytes(Close(fs)) + Zeros(room)
      && |OpenBytes(Close(fs))| == |OpenBytes(fs)|
    ensures Placed(|head|, Close(fs)) && Close(fs) != []
  {
    hide EncAll, PutU16, Hdr, Zeros, Align4;
    var below, body := OpenBytes(Below(fs)), EncAll(Top(fs).done);
    var typ, tail := WithNested(Top(fs).typ), Zeros(room);
    assert OpenBytes(fs) == below + Hdr(0, typ) + body;
    CloseBytes(fs);
    AddPlaced(|head|, Below(fs), Nest(Top(fs).typ, Top(fs).done));
    Regroup(head, below, Hdr(0, typ), body, tail);
    Regroup(head, below, Hdr(NLA_HDRLEN + |body|, typ), body, tail);
    PatchBytes(head + below, typ, body, tail, NLA_HDRLEN + |body|);
  }

  lemma Regroup(a: bytes, b: bytes, c: bytes, d: bytes, e: bytes)
    ensures a + (b + c + d) + e == (a + b) + c + d + e
  {
  }

  /** Four bytes written over zeros. */
  lemma BeginBytes(d: bytes, before: bytes, room: nat, hdr: bytes)
    requires d == before + Zeros(room) && |hdr| == NLA_HDRLEN <= room
    ensures d[..|before|] + hdr + d[|before| + NLA_HDRLEN..] == before + hdr + Zeros(room - NLA_HDRLEN)
  {
    ZerosSplit(NLA_HDRLEN, room - NLA_HDRLEN);
    Splice(d, before, Zeros(NLA_HDRLEN), Zeros(room - NLA_HDRLEN), hdr);
  }

  lemma OpenedBytes(fs: seq<Frame>, f: Frame)
    requires fs != [] && f.done == []
    ensures OpenBytes(fs + [f]) == OpenBytes(fs) + Hdr(0, WithNested(f.typ))
  {
    hide Hdr;
    assert Below(fs + [f]) == fs && EncAll([]) == [];
  }

  lemma NestHeader(typ: u16)
    ensures Hdr(0, WithNested(typ)) == [0, 0] + PutU16(if typ >= 0x8000 then typ else typ + 0x8000)
  {
  }

  class AttrBuf {
    const data: array<byte>
    var off: nat
    ghost const head: bytes       // what precedes the attributes: nlmsghdr and genlmsghdr
    ghost var frames: seq<Frame>  // what has been written since

    ghost predicate Valid()
      reads this, data
    {
      && |frames| >= 1
      && off == |head| + |OpenBytes(frames)| <= data.Length
      && data[..] == head + OpenBytes(frames) + Zeros(data.Length - off)
      && Placed(|head|, frames)
    }

    /** `start` is NLMSG_LENGTH(sizeof(struct genlmsghdr)); the rest of the buffer is zero. */
    constructor (data: array<byte>, start: nat)
      requires start <= data.Length
      requires forall i :: start <= i < data.Length ==> data[i] == 0
      ensures Valid() && this.data == data && off == start && head == data[..start]
      ensures frames == [Frame(0, 0, [])]
    {
      this.data := data;
      off := start;
      head := data[..start];
      frames := [Frame(0, 0, [])];
      new;
      assert OpenBytes(frames) == [] by { assert Below(frames) == []; }
      assert data[..] == data[..start] + Zeros(data.Length - start);
    }

    /** ab_reserve */
    predicate Reserve(need: nat)
      reads this
    {
      off + need <= data.Length
    }

    /** memcpy and struct stores into the buffer. */
    method Poke(at: nat, src: bytes)
      requires at + |src| <= data.Length
      modifies data
      ensures data[..] == old(data[..at]) + src + old(data[at + |src|..])
    {
      forall i | 0 <= i < |src| { data[at + i] := src[i]; }
    }

    /** Header and payload of one attribute, written at `off` over zeros. */
    method PutAttr(ghost n: Node, total: nat, typ: u16, payload: bytes)
      requires Valid() && AttrOf(n) == Attr(typ, payload) && total == NLA_HDRLEN + |payload|
      requires Reserve(Align4(total))
      modifies this, data
      ensures Valid() && frames == Add(old(frames), n) && off == old(off) + Align4(total)
      ensures data[..off] == old(data[..off]) + EncAttr(Attr(typ, payload))
    {
      hide EncAttr, AttrOf, Align4, OpenBytes, Hdr, Zeros;
      ghost var fs := frames;
      assert data[..off] == head + OpenBytes(fs);
      StoreNode(data[..], head, fs, data.Length - off, n);
      AddBytes(fs, n);
      Poke(off, Hdr(total, typ) + payload);
      AddPlaced(|head|, fs, n);
      frames := Add(fs, n);
      off := off + Align4(total);
      assert data[..off] == head + OpenBytes(frames);
      assert head + (OpenBytes(fs) + EncAttr(AttrOf(n))) == head + OpenBytes(fs) + EncAttr(AttrOf(n));
    }

    /** ab_string: `s` is the string without its NUL. */
    method PutString(typ: u16, s: bytes) returns (ok: bool)
      requires Valid()
      modifies this, data
      ensures Valid() && ok == (old(off) + Align4(NLA_HDRLEN + |s| + 1) <= data.Length)
      ensures frames == if ok then Add(old(frames), Text(typ, s)) else old(frames)
      ensures off == old(off) + if ok then Align4(NLA_HDRLEN + |s| + 1) else 0
      ensures data[..off] == old(data[..off]) + if ok then EncAttr(Attr(typ, s + [0])) else []
    {
      var slen := |s| + 1;
      var total := NLA_HDRLEN + slen;
      if !Reserve(Align4(total)) { return false; }
      PutAttr(Text(typ, s), total, typ, s + [0]);
      return true;
    }

    /** ab_u32 */
    method PutU32(typ: u16, v: u32) returns (ok: bool)
      requires Valid()
      modifies this, data
      ensures Valid() && ok == (old(off) + 8 <= data.Length)
      ensures frames == if ok then Add(old(frames), Num(typ, v)) else old(frames)
      ensures off == old(off) + if ok then 8 else 0
      ensures data[..off] == old(data[..off]) + if ok then EncAttr(Attr(typ, Wire.PutU32(v))) else []
    {
      var total := NLA_HDRLEN + 4;
      if !Reserve(Align4(total)) { return false; }
      PutAttr(Num(typ, v), total, typ, Wire.PutU32(v));
      return true;
    }

    /** ab_begin_nested: the offset of the header, or nothing where the source returns SIZE_MAX. */
    method BeginNested(typ: u16) returns (ok: bool, at: nat)
      requires Valid()
      modifies this, data
      ensures Valid() && ok == (old(off) + NLA_HDRLEN <= data.Length) && at == old(off)
      ensures frames == if ok then old(frames) + [Frame(at, typ, [])] else old(frames)
      ensures off == old(off) + if ok then NLA_HDRLEN else 0
      ensures data[..off] == old(data[..off])
                             + if ok then [0, 0] + PutU16(if typ >= 0x8000 then typ else typ + 0x8000) else []
    {
      hide OpenBytes, Zeros, EncAll, PutU16, Hdr;
      at := off;
      if !Reserve(NLA_HDRLEN) { return false, at; }
      ghost var room, was := data.Length - off, data[..];
      ghost var before, fs := head + OpenBytes(frames), frames + [Frame(at, typ, [])];
      BeginBytes(was, before, room, Hdr(0, WithNested(typ)));
      OpenedBytes(frames, Frame(at, typ, []));
      NestHeader(typ);
      assert was[..at] == before;
      Poke(at, Hdr(0, WithNested(typ)));
      assert Below(fs) == frames;
      frames := fs;
      off := off + NLA_HDRLEN;
      assert data[..off] == before + Hdr(0, WithNested(typ));
      assert head + (OpenBytes(old(frames)) + Hdr(0, WithNested(typ))) == before + Hdr(0, WithNested(typ));
      ok := true;
    }

    /** ab_end_nested: back-patches the length of the innermost open nest. */
    method EndNested(at: nat)
      requires Valid() && |frames| > 1 && at == Top(frames).at
      modifies this, data
      ensures Valid() && frames == Close(old(frames)) && off == old(off)
      ensures at + 2 <= data.Length
              && data[..] == old(data[..at]) + PutU16((off - at) % 0x1_0000) + old(data[at + 2..])
    {
      hide EncAll, PutU16, Hdr, OpenBytes, Close, Zeros, Placed;
      ghost var fs := frames;
      CloseNode(data[..], head, fs, data.Length - off, at);
      Poke(at, PutU16((off - at) % 0x1_0000));
      frames := Close(fs);
    }

    /** What the kernel is sent once every nest is closed: the headers, then attributes that read
        back as the tree the caller meant, with no byte of padding or free space touched. */
    lemma Finished()
      requires Valid() && |frames| == 1 && data.Length < 0x1_0000
      ensures data[..off] == head + EncAll(frames[0].done)
      ensures |head| % 4 == 0 ==> off % 4 == 0
      ensures forall i :: off <= i < data.Length ==> data[i] == 0
      ensures Decode(data[|head|..off]) == MeantAll(frames[0].done) <==> TypesFit(frames[0].done)
    {
      hide EncAll, Decode, MeantAll, TypesFit;
      assert OpenBytes(frames) == EncAll(frames[0].done) by { assert Below(frames) == []; }
      assert data[..off] == head + OpenBytes(frames);
      assert data[|head|..off] == OpenBytes(frames);
      forall i | off <= i < data.Length ensures data[i] == 0 {
        assert data[i] == Zeros(data.Length - off)[i - off];
      }
      RoundTrip(frames[0].done);
      EncAllAligned(frames[0].done);
      if |head| % 4 == 0 { AlignedSum(|head|, |EncAll(frames[0].done)|); }
    }
  }
}
