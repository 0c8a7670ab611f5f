/** What draining a reply depends on: the messages and their order only, or also how they are packed into
    datagrams and what the receive buffer held before.  The drains read the field of an error message and
    the fixed header of a route answer without looking at the length, so short ones make the difference. */
module Packing {
  import opened Wire
  import opened Render
  import opened Drain
  import opened Invoke

  function Displayed(dec: Decoder, dump: bool, memory: Memory, ds: seq<bytes>): Outcome {
    Shown(dump, Run(dec, dump, SeenAll(dec, memory, ds), 0))
  }

  /** The loop goes on behind this message. */
  predicate Goes(dump: bool, m: Msg) {
    IsAck(m) || (dump && m.typ != NLMSG_ERROR && m.typ != NLMSG_DONE)
  }

  predicate GoesOn(dump: bool, ms: seq<Msg>) {
    ms == [] || (Goes(dump, ms[0]) && GoesOn(dump, ms[1..]))
  }

  lemma GoesOnStep(dump: bool, m: Msg, later: seq<Msg>)
    ensures GoesOn(dump, [m] + later) <==> Goes(dump, m) && GoesOn(dump, later)
  {
    hide Goes;
    assert ([m] + later)[1..] == later;
  }

  // ---------------------------------------------------------------------------------------------
  // Comparing two runs

  /** The same end after as many answers, though perhaps not the same text. */
  predicate Alike(r: Reply, s: Reply) {
    r.end == s.end && r.count == s.count && |r.pieces| == |s.pieces|
  }

  ghost predicate AlikeFrom(dec: Decoder, dump: bool, ms: seq<Msg>, ns: seq<Msg>) {
    forall n: nat :: Alike(Run(dec, dump, ms, n), Run(dec, dump, ns, n))
  }

  ghost predicate SameFrom(dec: Decoder, dump: bool, ms: seq<Msg>, ns: seq<Msg>) {
    forall n: nat :: Run(dec, dump, ms, n) == Run(dec, dump, ns, n)
  }

  ghost predicate OtherFrom(dec: Decoder, dump: bool, ms: seq<Msg>, ns: seq<Msg>) {
    forall n: nat :: Run(dec, dump, ms, n).pieces != Run(dec, dump, ns, n).pieces
  }

  ghost predicate ErrnoFrom(dec: Decoder, dump: bool, ms: seq<Msg>, ns: seq<Msg>) {
    forall n: nat :: var a, b := Run(dec, dump, ms, n).end, Run(dec, dump, ns, n).end; a.Errno? && b.Errno? && a != b
  }

  predicate IsAnswer(m: Msg) {
    m.typ != NLMSG_ERROR && m.typ != NLMSG_DONE
  }

  /** Messages that differ, if at all, in the text of one answer. */
  predicate Close(dec: Decoder, a: Msg, b: Msg) {
    a.typ == b.typ && (a == b || (IsAnswer(a) && |Body(dec, a)| == |Body(dec, b)|))
  }

  lemma CloseGoes(dec: Decoder, dump: bool, a: Msg, b: Msg)
    requires Close(dec, a, b)
    ensures Goes(dump, a) == Goes(dump, b)
  {
    hide Body, ErrorField;
  }

  /** One turn of both runs. */
  lemma Turn(dec: Decoder, dump: bool, a: Msg, b: Msg, later: seq<Msg>, other: seq<Msg>)
    requires Close(dec, a, b)
    ensures (Goes(dump, a) ==> AlikeFrom(dec, dump, later, other)) ==> AlikeFrom(dec, dump, [a] + later, [b] + other)
    ensures a == b && (Goes(dump, a) ==> SameFrom(dec, dump, later, other)) ==> SameFrom(dec, dump, [a] + later, [b] + other)
    ensures Goes(dump, a) && ErrnoFrom(dec, dump, later, other) ==> ErrnoFrom(dec, dump, [a] + later, [b] + other)
  {
    hide Body, ErrorField, Run;
    forall n: nat
      ensures var r, s := Run(dec, dump, [a] + later, n), Run(dec, dump, [b] + other, n);
              && ((Goes(dump, a) ==> AlikeFrom(dec, dump, later, other)) ==> Alike(r, s))
              && (a == b && (Goes(dump, a) ==> SameFrom(dec, dump, later, other)) ==> r == s)
              && (Goes(dump, a) && ErrnoFrom(dec, dump, later, other) ==> r.end.Errno? && s.end.Errno? && r.end != s.end)
    {
      Step(dec, dump, a, later, n);
      Step(dec, dump, b, other, n);
    }
  }

  lemma OtherTurn(dec: Decoder, dump: bool, a: Msg, b: Msg, later: seq<Msg>, other: seq<Msg>)
    requires Close(dec, a, b)
    requires if IsAnswer(a) && Body(dec, a) != Body(dec, b) then true
             else Goes(dump, a) && OtherFrom(dec, dump, later, other)
    ensures OtherFrom(dec, dump, [a] + later, [b] + other)
  {
    hide Body, ErrorField, Run;
    forall n: nat ensures Run(dec, dump, [a] + later, n).pieces != Run(dec, dump, [b] + other, n).pieces {
      Step(dec, dump, a, later, n);
      Step(dec, dump, b, other, n);
      var head := if dump then [EntryHead(n + 1)] else [];
      var p, q := Run(dec, dump, later, n + 1).pieces, Run(dec, dump, other, n + 1).pieces;
      SplitAt(head, Body(dec, a), Body(dec, b), p, q);
      SplitAt(head, Body(dec, a), Body(dec, b), [], []);
    }
  }

  lemma SplitAt(head: seq<Piece>, a: seq<Piece>, b: seq<Piece>, p: seq<Piece>, q: seq<Piece>)
    requires |a| == |b|
    ensures head + a + p == head + b + q <==> a == b && p == q
    ensures p == [] ==> head + a + p == head + a
  {
    if head + a + p == head + b + q {
      assert (head + a + p)[|head|..|head + a|] == a && (head + b + q)[|head|..|head + b|] == b;
      assert (head + a + p)[|head + a|..] == p && (head + b + q)[|head + b|..] == q;
    }
  }

  lemma Step(dec: Decoder, dump: bool, m: Msg, later: seq<Msg>, n: nat)
    ensures var head, r := if dump then [EntryHead(n + 1)] else [], Run(dec, dump, later, n + 1);
            Run(dec, dump, [m] + later, n)
            == if m.typ == NLMSG_DONE then Reply([], n, Done)
               else if IsAck(m) then Run(dec, dump, later, n)
               else if m.typ == NLMSG_ERROR then Reply([], n, Errno(-ErrorField(m)))
               else if !dump then Reply(head + Body(dec, m), n + 1, Done)
               else r.(pieces := head + Body(dec, m) + r.pieces)
  {
    hide Body, ErrorField;
    assert ([m] + later)[1..] == later;
  }

  lemma {:induction false} StarvedIff(dec: Decoder, dump: bool, ms: seq<Msg>, n: nat)
    ensures Run(dec, dump, ms, n).end == Starved <==> GoesOn(dump, ms)
    decreases ms
  {
    hide Run, Body, ErrorField;
    if ms == [] {
      RunNone([], dec, dump, n);
    } else {
      assert ms == [ms[0]] + ms[1..];
      Step(dec, dump, ms[0], ms[1..], n);
      StarvedIff(dec, dump, ms[1..], n);
      StarvedIff(dec, dump, ms[1..], n + 1);
    }
  }

  /** A run over one datagram's messages and then the rest. */
  lemma Joined(dec: Decoder, dump: bool, ms: seq<Msg>, later: seq<Msg>, n: nat)
    ensures var here := Run(dec, dump, ms, n);
            var r := Run(dec, dump, later, here.count);
            Run(dec, dump, ms + later, n) == if GoesOn(dump, ms) then r.(pieces := here.pieces + r.pieces) else here
  {
    hide Run, GoesOn;
    StarvedIff(dec, dump, ms, n);
    RunConcat([], dec, dump, ms, later, n);
    NothingBefore(Run(dec, dump, ms + later, n));
    NothingBefore(Run(dec, dump, ms, n));
  }

  lemma NothingBefore(r: Reply)
    ensures Printed([], r) == r
  {
    assert [] + r.pieces == r.pieces;
  }

  /** Two runs over one datagram each, then the rest. */
  lemma JoinBoth(dec: Decoder, dump: bool, ms: seq<Msg>, later: seq<Msg>, ns: seq<Msg>, other: seq<Msg>)
    requires AlikeFrom(dec, dump, ms, ns)
    ensures GoesOn(dump, ms) == GoesOn(dump, ns)
    ensures (GoesOn(dump, ms) ==> AlikeFrom(dec, dump, later, other)) ==> AlikeFrom(dec, dump, ms + later, ns + other)
    ensures SameFrom(dec, dump, ms, ns) && (GoesOn(dump, ms) ==> SameFrom(dec, dump, later, other))
            ==> SameFrom(dec, dump, ms + later, ns + other)
    ensures GoesOn(dump, ms) && ErrnoFrom(dec, dump, later, other) ==> ErrnoFrom(dec, dump, ms + later, ns + other)
    ensures OtherFrom(dec, dump, ms, ns) || (GoesOn(dump, ms) && OtherFrom(dec, dump, later, other))
            ==> OtherFrom(dec, dump, ms + later, ns + other)
  {
    hide Run, GoesOn, Alike;
    JoinPair(dec, dump, ms, later, ns, other, 0);
    forall n: nat
      ensures var r, s := Run(dec, dump, ms + later, n), Run(dec, dump, ns + other, n);
              && ((GoesOn(dump, ms) ==> AlikeFrom(dec, dump, later, other)) ==> Alike(r, s))
              && (SameFrom(dec, dump, ms, ns) && (GoesOn(dump, ms) ==> SameFrom(dec, dump, later, other)) ==> r == s)
              && (GoesOn(dump, ms) && ErrnoFrom(dec, dump, later, other) ==> r.end.Errno? && s.end.Errno? && r.end != s.end)
              && (OtherFrom(dec, dump, ms, ns) || (GoesOn(dump, ms) && OtherFrom(dec, dump, later, other)) ==> r.pieces != s.pieces)
    {
      JoinPair(dec, dump, ms, later, ns, other, n);
    }
  }

  /** `r` and `s` are `a` and `b` with `p` and `q` behind them if the loop goes on, and `a` and `b` if not. */
  predicate JoinedPair(on: bool, a: Reply, b: Reply, p: Reply, q: Reply, r: Reply, s: Reply) {
    if !on then r == a && s == b
    else
      && r.end == p.end && r.count == p.count && s.end == q.end && s.count == q.count
      && (Alike(p, q) ==> Alike(r, s)) && (r.pieces == s.pieces <==> a.pieces == b.pieces && p.pieces == q.pieces)
  }

  lemma JoinPair(dec: Decoder, dump: bool, ms: seq<Msg>, later: seq<Msg>, ns: seq<Msg>, other: seq<Msg>, n: nat)
    requires AlikeFrom(dec, dump, ms, ns)
    ensures Alike(Run(dec, dump, ms, n), Run(dec, dump, ns, n)) && GoesOn(dump, ms) == GoesOn(dump, ns)
    ensures JoinedPair(GoesOn(dump, ms), Run(dec, dump, ms, n), Run(dec, dump, ns, n),
                       Run(dec, dump, later, Run(dec, dump, ms, n).count), Run(dec, dump, other, Run(dec, dump, ms, n).count),
                       Run(dec, dump, ms + later, n), Run(dec, dump, ns + other, n))
  {
    hide Run, GoesOn;
    assert Alike(Run(dec, dump, ms, n), Run(dec, dump, ns, n));
    StarvedIff(dec, dump, ms, n);
    StarvedIff(dec, dump, ns, n);
    Joined(dec, dump, ms, later, n);
    Joined(dec, dump, ns, other, n);
    var k := Run(dec, dump, ms, n).count;
    var a, b := Run(dec, dump, ms, n).pieces, Run(dec, dump, ns, n).pieces;
    SplitAt([], a, b, Run(dec, dump, later, k).pieces, Run(dec, dump, other, k).pieces);
    assert [] + a == a && [] + b == b;
  }

  /** What the user sees of two runs. */
  lemma ShownOf(dec: Decoder, dump: bool, ms: seq<Msg>, ns: seq<Msg>)
    ensures ErrnoFrom(dec, dump, ms, ns) ==> Shown(dump, Run(dec, dump, ms, 0)) != Shown(dump, Run(dec, dump, ns, 0))
    ensures AlikeFrom(dec, dump, ms, ns) ==> Run(dec, dump, ms, 0).end == Run(dec, dump, ns, 0).end
    ensures AlikeFrom(dec, dump, ms, ns) && Run(dec, dump, ms, 0).end != Done
            ==> Shown(dump, Run(dec, dump, ms, 0)) == Shown(dump, Run(dec, dump, ns, 0))
    ensures AlikeFrom(dec, dump, ms, ns) && OtherFrom(dec, dump, ms, ns) && Run(dec, dump, ms, 0).end == Done
            ==> Shown(dump, Run(dec, dump, ms, 0)) != Shown(dump, Run(dec, dump, ns, 0))
    ensures SameFrom(dec, dump, ms, ns) ==> Shown(dump, Run(dec, dump, ms, 0)) == Shown(dump, Run(dec, dump, ns, 0))
  {
    hide Run;
    var r, s := Run(dec, dump, ms, 0), Run(dec, dump, ns, 0);
    assert AlikeFrom(dec, dump, ms, ns) ==> Alike(r, s);
    if Alike(r, s) {
      var foot := if dump then [Footer(r.count)] else [];
      SplitAt([Title], r.pieces, s.pieces, foot, foot);
    }
  }

  // ---------------------------------------------------------------------------------------------
  // The buffer as it was

  predicate Overreads(dec: Decoder, m: Msg, at: nat, written: nat) {
    Short(dec, m) && written < at + NLMSG_HDRLEN + Reads(dec, m.typ)
  }

  /** On its way through the messages from `c` the loop reads behind the first `written` bytes of the
      buffer: the field of an error message, or the header of an answer. */
  predicate Reaches(dec: Decoder, dump: bool, memory: Memory, c: Cursor, written: nat, error: bool)
    requires InBuffer(c)
    decreases c.rem
  {
    NlmsgOk(memory, c) &&
    (  (Overreads(dec, NlmsgAt(memory, c), c.pos, written) && (NlmsgAt(memory, c).typ == NLMSG_ERROR) == error)
    || (Goes(dump, SeenAt(dec, memory, c)) && Reaches(dec, dump, memory, NlmsgNext(memory, c), written, error)))
  }

  function Max(m: nat, n: nat): nat {
    if m < n then n else m
  }

  predicate ReachesAny(dec: Decoder, dump: bool, memory: Memory, ds: seq<bytes>, written: nat, error: bool)
    decreases ds
  {
    ds != [] &&
    var now, first, filled := Recv(memory, ds[0]), Arrived(ds[0]), Max(written, |Received(ds[0])|);
    || Reaches(dec, dump, now, first, filled, error)
    || (GoesOn(dump, Seen(dec, now, first)) && ReachesAny(dec, dump, now, ds[1..], filled, error))
  }

  predicate Agree(m: Memory, n: Memory, written: nat) {
    written <= RECV_SIZE && m[..written] == n[..written]
  }

  /** Behind the first `written` bytes the one holds ones and the other twos. */
  predicate Apart(m: Memory, n: Memory, written: nat) {
    Agree(m, n, written) && forall i :: written <= i < |m| ==> m[i] == 1 && n[i] == 2
  }

  lemma SameWindow(m: Memory, n: Memory, c: Cursor, written: nat)
    requires Agree(m, n, written) && InBuffer(c) && c.pos + c.rem <= written
    ensures Window(m, c) == Window(n, c)
  {
    if c.rem > 0 {
      SubSlice(m, 0, written, c.pos, c.pos + c.rem);
      SubSlice(n, 0, written, c.pos, c.pos + c.rem);
    }
  }

  lemma SameHeader(m: Memory, n: Memory, c: Cursor, written: nat)
    requires Agree(m, n, written) && InBuffer(c) && c.pos + c.rem <= written
    ensures NlmsgOk(m, c) == NlmsgOk(n, c)
    ensures NlmsgOk(m, c) ==>
              && NlmsgAt(m, c) == NlmsgAt(n, c) && NlmsgNext(m, c) == NlmsgNext(n, c)
              && NlmsgNext(m, c).pos + NlmsgNext(m, c).rem == c.pos + c.rem
  {
    hide Agree, Align4, GetU16, GetU32, Window, NlmsgAt, FirstMsg, MsgOk;
    SameWindow(m, n, c, written);
    MsgCursorStep(m, c);
    MsgCursorStep(n, c);
    if NlmsgOk(m, c) {
      HeaderFields(m, c);
      HeaderFields(n, c);
    }
  }

  /** A message is seen the same in two buffers unless it is read behind `written`; where the buffers are
      apart there it then is not. */
  lemma SeenPair(dec: Decoder, m: Memory, n: Memory, c: Cursor, written: nat)
    requires Agree(m, n, written) && InBuffer(c) && c.pos + c.rem <= written && NlmsgOk(m, c) && NlmsgOk(n, c)
    ensures var a, b := SeenAt(dec, m, c), SeenAt(dec, n, c);
            && a.typ == b.typ == NlmsgAt(m, c).typ
            && (!Overreads(dec, NlmsgAt(m, c), c.pos, written) ==> a == b)
            && (Overreads(dec, NlmsgAt(m, c), c.pos, written) ==>
                  var k := Reads(dec, a.typ);
                  && |a.payload| == k == |b.payload| && k > 0
                  && (Apart(m, n, written) ==> a.payload[k - 1] == 1 && b.payload[k - 1] == 2))
  {
    hide GetU16, GetU32, NlmsgAt, NlmsgNext, Reads;
    SameHeader(m, n, c, written);
    var at, k := c.pos + NLMSG_HDRLEN, Reads(dec, NlmsgAt(m, c).typ);
    if Short(dec, NlmsgAt(m, c)) && at + k <= written {
      SubSlice(m, 0, written, at, at + k);
      SubSlice(n, 0, written, at, at + k);
    }
  }

  /** What is printed of an answer that is no longer than its header. */
  lemma HeaderOnly(dec: Decoder, a: Msg, b: Msg)
    requires IsAnswer(a) && a.typ == b.typ && |a.payload| == Reads(dec, a.typ) == |b.payload| > 0
    ensures |Body(dec, a)| == |Body(dec, b)|
    ensures a.payload[|a.payload| - 1] == 1 && b.payload[|b.payload| - 1] == 2 ==> Body(dec, a) != Body(dec, b)
  {
    hide GetU16, GetU32, FieldsOf;
    assert a.payload[..|a.payload|] == a.payload && b.payload[..|b.payload|] == b.payload;
    assert Body(dec, a)[0] == RouteHead(FieldsOf(dec.head, a.payload));
    assert Body(dec, b)[0] == RouteHead(FieldsOf(dec.head, b.payload));
    LastField(dec.head, a.payload, b.payload);
  }

  lemma LastField(h: RouteHeader, a: bytes, b: bytes)
    requires |a| == HeaderSize(h) == |b|
    ensures a[|a| - 1] == 1 && b[|b| - 1] == 2 ==> FieldsOf(h, a) != FieldsOf(h, b)
  {
    var i := |FieldsOf(h, a)| - 1;
    assert a[|a| - 1] == 1 && b[|b| - 1] == 2 ==> FieldsOf(h, a)[i] != FieldsOf(h, b)[i];
  }

  lemma TopByte(m: Msg)
    requires |m.payload| == 4 && m.payload[3] < 0x80
    ensures m.payload[3] as int * 0x100_0000 <= ErrorField(m) < (m.payload[3] as int + 1) * 0x100_0000
  {
  }

  /** One message under the cursor, in both buffers. */
  lemma SeenClose(dec: Decoder, dump: bool, m: Memory, n: Memory, c: Cursor, written: nat)
    requires Agree(m, n, written) && InBuffer(c) && c.pos + c.rem <= written && NlmsgOk(m, c) && NlmsgOk(n, c)
    ensures var a, b, over := SeenAt(dec, m, c), SeenAt(dec, n, c), Overreads(dec, NlmsgAt(m, c), c.pos, written);
            && a.typ == b.typ == NlmsgAt(m, c).typ && (!over ==> a == b)
            && (over ==> a.typ == NLMSG_ERROR || IsAnswer(a))
            && (!over || IsAnswer(a) ==> Close(dec, a, b))
            && (over && IsAnswer(a) && Apart(m, n, written) ==> Body(dec, a) != Body(dec, b))
            && (over && a.typ == NLMSG_ERROR && Apart(m, n, written) ==> 0 < ErrorField(a) < ErrorField(b))
  {
    hide GetU16, GetU32, NlmsgOk, NlmsgAt, NlmsgNext, Agree, Apart, SeenAt, Body, ErrorField;
    SeenPair(dec, m, n, c, written);
    var a, b := SeenAt(dec, m, c), SeenAt(dec, n, c);
    if Overreads(dec, NlmsgAt(m, c), c.pos, written) {
      if IsAnswer(a) {
        HeaderOnly(dec, a, b);
      } else if Apart(m, n, written) {
        TopByte(a);
        TopByte(b);
      }
    }
  }

  /** A loop that comes to no error message reading behind `written` ends the same whatever is there; if no
      answer does either, it prints the same, and otherwise not. */
  lemma {:induction false} Unreached(dec: Decoder, dump: bool, m: Memory, n: Memory, c: Cursor, written: nat)
    requires Agree(m, n, written) && InBuffer(c) && c.pos + c.rem <= written
    ensures Reaches(dec, dump, m, c, written, true) == Reaches(dec, dump, n, c, written, true)
    ensures !Reaches(dec, dump, m, c, written, true) ==>
              && Reaches(dec, dump, m, c, written, false) == Reaches(dec, dump, n, c, written, false)
              && AlikeFrom(dec, dump, Seen(dec, m, c), Seen(dec, n, c))
              && (!Reaches(dec, dump, m, c, written, false) ==> SameFrom(dec, dump, Seen(dec, m, c), Seen(dec, n, c)))
              && (Reaches(dec, dump, m, c, written, false) && Apart(m, n, written) ==>
                    OtherFrom(dec, dump, Seen(dec, m, c), Seen(dec, n, c)))
    ensures Reaches(dec, dump, m, c, written, true) && Apart(m, n, written) ==>
              ErrnoFrom(dec, dump, Seen(dec, m, c), Seen(dec, n, c))
    decreases c.rem
  {
    hide GetU16, GetU32, Goes, Run, SeenAt, NlmsgAt, NlmsgNext, Agree, Apart, Seen, Overreads, Close, IsAnswer, Body, ErrorField,
         AlikeFrom, SameFrom, OtherFrom, ErrnoFrom;
    SameHeader(m, n, c, written);
    if !NlmsgOk(m, c) {
      NoneSeen(dec, m, c);
      NoneSeen(dec, n, c);
      SameRun(dec, dump, []);
    } else {
      SeenStep(dec, m, c);
      SeenStep(dec, n, c);
      SeenClose(dec, dump, m, n, c, written);
      var a, b, next := SeenAt(dec, m, c), SeenAt(dec, n, c), NlmsgNext(m, c);
      Unreached(dec, dump, m, n, next, written);
      ClosePair(dec, dump, a, b, Seen(dec, m, next), Seen(dec, n, next));
    }
  }

  lemma SameRun(dec: Decoder, dump: bool, ms: seq<Msg>)
    ensures SameFrom(dec, dump, ms, ms) && AlikeFrom(dec, dump, ms, ms)
  {
    hide Run;
  }

  /** One turn, by what the message is. */
  lemma ClosePair(dec: Decoder, dump: bool, a: Msg, b: Msg, later: seq<Msg>, other: seq<Msg>)
    ensures Close(dec, a, b) ==>
              && Goes(dump, a) == Goes(dump, b)
              && ((Goes(dump, a) ==> AlikeFrom(dec, dump, later, other)) ==> AlikeFrom(dec, dump, [a] + later, [b] + other))
              && (Goes(dump, a) && ErrnoFrom(dec, dump, later, other) ==> ErrnoFrom(dec, dump, [a] + later, [b] + other))
              && ((Goes(dump, a) && OtherFrom(dec, dump, later, other)) || (IsAnswer(a) && Body(dec, a) != Body(dec, b))
                  ==> OtherFrom(dec, dump, [a] + later, [b] + other))
    ensures a == b && (Goes(dump, a) ==> SameFrom(dec, dump, later, other)) ==> SameFrom(dec, dump, [a] + later, [b] + other)
    ensures a.typ == b.typ == NLMSG_ERROR && 0 < ErrorField(a) < ErrorField(b) ==> ErrnoFrom(dec, dump, [a] + later, [b] + other)
  {
    hide Goes, Run, Body, ErrorField, AlikeFrom, SameFrom, OtherFrom, ErrnoFrom;
    if Close(dec, a, b) {
      CloseGoes(dec, dump, a, b);
      Turn(dec, dump, a, b, later, other);
      if (IsAnswer(a) && Body(dec, a) != Body(dec, b)) || (Goes(dump, a) && OtherFrom(dec, dump, later, other)) {
        OtherTurn(dec, dump, a, b, later, other);
      }
    }
    if a.typ == b.typ == NLMSG_ERROR && 0 < ErrorField(a) < ErrorField(b) { ErrnoTurn(dec, dump, a, b, later, other); }
  }

  lemma ErrnoTurn(dec: Decoder, dump: bool, a: Msg, b: Msg, later: seq<Msg>, other: seq<Msg>)
    requires a.typ == b.typ == NLMSG_ERROR && 0 < ErrorField(a) < ErrorField(b)
    ensures ErrnoFrom(dec, dump, [a] + later, [b] + other)
  {
    hide Run, ErrorField;
    forall n: nat
      ensures Run(dec, dump, [a] + later, n).end == Errno(-ErrorField(a)) && Run(dec, dump, [b] + other, n).end == Errno(-ErrorField(b))
    {
      Step(dec, dump, a, later, n);
      Step(dec, dump, b, other, n);
    }
  }

  lemma RecvAgrees(m: Memory, n: Memory, d: bytes, written: nat)
    requires Agree(m, n, written)
    ensures Agree(Recv(m, d), Recv(n, d), Max(written, |Received(d)|))
    ensures Apart(m, n, written) ==> Apart(Recv(m, d), Recv(n, d), Max(written, |Received(d)|))
    ensures Arrived(d).pos + Arrived(d).rem <= Max(written, |Received(d)|)
  {
    hide Received;
    var k, w := |Received(d)|, Max(written, |Received(d)|);
    RecvAt(m, d);
    RecvAt(n, d);
    forall i | 0 <= i < w ensures Recv(m, d)[i] == Recv(n, d)[i] {
      if k <= i {
        assert m[..written][i] == n[..written][i];
      }
    }
    assert Recv(m, d)[..w] == Recv(n, d)[..w];
  }

  lemma RecvAt(m: Memory, d: bytes)
    ensures forall i :: 0 <= i < |m| ==> Recv(m, d)[i] == if i < |Received(d)| then Received(d)[i] else m[i]
  {
  }

  /** The same of a run of datagrams. */
  lemma {:induction false} UnreachedAll(dec: Decoder, dump: bool, m: Memory, n: Memory, ds: seq<bytes>, written: nat)
    requires Agree(m, n, written)
    ensures ReachesAny(dec, dump, m, ds, written, true) == ReachesAny(dec, dump, n, ds, written, true)
    ensures !ReachesAny(dec, dump, m, ds, written, true) ==>
              && ReachesAny(dec, dump, m, ds, written, false) == ReachesAny(dec, dump, n, ds, written, false)
              && AlikeFrom(dec, dump, SeenAll(dec, m, ds), SeenAll(dec, n, ds))
              && (!ReachesAny(dec, dump, m, ds, written, false) ==> SameFrom(dec, dump, SeenAll(dec, m, ds), SeenAll(dec, n, ds)))
              && (ReachesAny(dec, dump, m, ds, written, false) && Apart(m, n, written) ==>
                    OtherFrom(dec, dump, SeenAll(dec, m, ds), SeenAll(dec, n, ds)))
    ensures ReachesAny(dec, dump, m, ds, written, true) && Apart(m, n, written) ==>
              ErrnoFrom(dec, dump, SeenAll(dec, m, ds), SeenAll(dec, n, ds))
    decreases ds
  {
    hide Run, Reaches, Recv, Seen, Agree, Apart, Max, Received, Arrived, GoesOn, AlikeFrom, SameFrom, OtherFrom, ErrnoFrom;
    if ds == [] {
      SameRun(dec, dump, []);
    } else {
      var first, w := Arrived(ds[0]), Max(written, |Received(ds[0])|);
      var mm, nn := Recv(m, ds[0]), Recv(n, ds[0]);
      RecvAgrees(m, n, ds[0], written);
      Unreached(dec, dump, mm, nn, first, w);
      UnreachedAll(dec, dump, mm, nn, ds[1..], w);
      if Reaches(dec, dump, mm, first, w, true) {
        if Apart(m, n, written) {
          ErrnoJoin(dec, dump, Seen(dec, mm, first), SeenAll(dec, mm, ds[1..]), Seen(dec, nn, first), SeenAll(dec, nn, ds[1..]));
        }
      } else {
        JoinBoth(dec, dump, Seen(dec, mm, first), SeenAll(dec, mm, ds[1..]), Seen(dec, nn, first), SeenAll(dec, nn, ds[1..]));
      }
    }
  }

  lemma ErrnoJoin(dec: Decoder, dump: bool, ms: seq<Msg>, later: seq<Msg>, ns: seq<Msg>, other: seq<Msg>)
    requires ErrnoFrom(dec, dump, ms, ns)
    ensures ErrnoFrom(dec, dump, ms + later, ns + other)
  {
    hide Run;
    forall n: nat
      ensures Run(dec, dump, ms + later, n).end == Run(dec, dump, ms, n).end
      ensures Run(dec, dump, ns + other, n).end == Run(dec, dump, ns, n).end
    {
      var a, b := Run(dec, dump, ms, n).end, Run(dec, dump, ns, n).end;
      assert a.Errno? && b.Errno?;
      RunConcat([], dec, dump, ms, later, n);
      RunConcat([], dec, dump, ns, other, n);
    }
  }

  /** What is shown of any datagrams depends on what the buffer held before them if and only if the drain
      reads, behind everything received so far, the field of an error message, or the header of an answer
      and then comes to its end. */
  lemma BufferDecides(dec: Decoder, dump: bool, blank: Memory, ds: seq<bytes>)
    ensures (forall other: Memory :: Displayed(dec, dump, other, ds) == Displayed(dec, dump, blank, ds))
       <==> && !ReachesAny(dec, dump, blank, ds, 0, true)
            && (Run(dec, dump, SeenAll(dec, blank, ds), 0).end == Done ==> !ReachesAny(dec, dump, blank, ds, 0, false))
  {
    hide Run, SeenAll, ReachesAny, AlikeFrom, SameFrom, OtherFrom, ErrnoFrom, Shown;
    var ones: Memory, twos: Memory := seq(RECV_SIZE + 16, _ => 1), seq(RECV_SIZE + 16, _ => 2);
    UnreachedAll(dec, dump, blank, ones, ds, 0);
    UnreachedAll(dec, dump, ones, twos, ds, 0);
    ShownOf(dec, dump, SeenAll(dec, blank, ds), SeenAll(dec, ones, ds));
    ShownOf(dec, dump, SeenAll(dec, ones, ds), SeenAll(dec, twos, ds));
    forall other: Memory
      ensures && !ReachesAny(dec, dump, blank, ds, 0, true)
              && (Run(dec, dump, SeenAll(dec, blank, ds), 0).end == Done ==> !ReachesAny(dec, dump, blank, ds, 0, false))
              ==> Displayed(dec, dump, other, ds) == Displayed(dec, dump, blank, ds)
    {
      UnreachedAll(dec, dump, blank, other, ds, 0);
      ShownOf(dec, dump, SeenAll(dec, blank, ds), SeenAll(dec, other, ds));
    }
    assert Displayed(dec, dump, ones, ds) == Displayed(dec, dump, blank, ds) == Displayed(dec, dump, twos, ds)
      ==> Shown(dump, Run(dec, dump, SeenAll(dec, ones, ds), 0)) == Shown(dump, Run(dec, dump, SeenAll(dec, twos, ds), 0));
  }

  // ---------------------------------------------------------------------------------------------
  // Packed messages

  /** A payload and the padding behind it. */
  function Padded(m: Msg): (p: bytes)
    ensures |m.payload| <= |p|
  {
    m.payload + Zeros(Align4(NLMSG_HDRLEN + |m.payload|) - NLMSG_HDRLEN - |m.payload|)
  }

  /** Even with its padding the message is shorter than what is read of it. */
  predicate Open(dec: Decoder, m: Msg) {
    |Padded(m)| < Reads(dec, m.typ)
  }

  /** A message as the loops see it if `stray` stands behind it. */
  function FilledOne(dec: Decoder, m: Msg, stray: bytes): (r: Msg)
    ensures r.typ == m.typ && (!Short(dec, m) ==> r == m)
  {
    if Short(dec, m) then m.(payload := (Padded(m) + stray + Zeros(16))[..Reads(dec, m.typ)]) else m
  }

  function First(strays: seq<bytes>): bytes {
    if strays == [] then [] else strays[0]
  }

  function Rest(dec: Decoder, m: Msg, strays: seq<bytes>): seq<bytes> {
    if Open(dec, m) && strays != [] then strays[1..] else strays
  }

  /** The messages as the loops see them if `strays` stand behind the open ones, in order. */
  function Filled(dec: Decoder, ms: seq<Msg>, strays: seq<bytes>): seq<Msg>
    decreases ms
  {
    if ms == [] then []
    else [FilledOne(dec, ms[0], First(strays))] + Filled(dec, ms[1..], Rest(dec, ms[0], strays))
  }

  function OpenIn(dec: Decoder, ms: seq<Msg>): nat {
    if ms == [] then 0 else (if Open(dec, ms[0]) then 1 else 0) + OpenIn(dec, ms[1..])
  }

  /** Only an open message depends on what is behind it. */
  lemma ClosedFilled(dec: Decoder, m: Msg, s: bytes, t: bytes)
    ensures !Open(dec, m) ==> FilledOne(dec, m, s) == FilledOne(dec, m, t)
  {
    if Short(dec, m) && !Open(dec, m) {
      var k := Reads(dec, m.typ);
      assert (Padded(m) + s + Zeros(16))[..k] == Padded(m)[..k] && (Padded(m) + t + Zeros(16))[..k] == Padded(m)[..k];
    }
  }

  lemma {:induction false} FilledConcat(dec: Decoder, ms: seq<Msg>, later: seq<Msg>, s: seq<bytes>, t: seq<bytes>)
    requires |s| == OpenIn(dec, ms)
    ensures Filled(dec, ms + later, s + t) == Filled(dec, ms, s) + Filled(dec, later, t)
    ensures OpenIn(dec, ms + later) == OpenIn(dec, ms) + OpenIn(dec, later)
    decreases ms
  {
    hide FilledOne, Open, Filled, OpenIn;
    if ms == [] {
      NoneFilled(dec);
      assert ms + later == later && s + t == t;
    } else {
      assert (ms + later)[1..] == ms[1..] + later;
      ClosedFilled(dec, ms[0], First(s), First(s + t));
      FilledStep(dec, ms, s);
      FilledStep(dec, ms + later, s + t);
      var s' := if Open(dec, ms[0]) then s[1..] else s;
      assert Rest(dec, ms[0], s + t) == s' + t;
      FilledConcat(dec, ms[1..], later, s', t);
    }
  }

  lemma FilledStep(dec: Decoder, ms: seq<Msg>, s: seq<bytes>)
    requires ms != []
    ensures Filled(dec, ms, s) == [FilledOne(dec, ms[0], First(s))] + Filled(dec, ms[1..], Rest(dec, ms[0], s))
    ensures OpenIn(dec, ms) == (if Open(dec, ms[0]) then 1 else 0) + OpenIn(dec, ms[1..])
  {
    hide FilledOne, Open;
  }

  lemma EncPadded(m: Msg)
    requires NLMSG_HDRLEN + |m.payload| < 0x1_0000_0000
    ensures |EncMsg(m)| == NLMSG_HDRLEN + |Padded(m)| && EncMsg(m)[NLMSG_HDRLEN..] == Padded(m)
  {
    hide PutU16, PutU32;
  }

  /** How one sent message is seen where it arrives. */
  lemma SeenSent(dec: Decoder, memory: Memory, c: Cursor, m: Msg, rest: bytes) returns (stray: bytes)
    requires NLMSG_HDRLEN + |m.payload| < 0x1_0000_0000
    requires InBuffer(c) && Window(memory, c) == EncMsg(m) + rest
    ensures NlmsgOk(memory, c) && InBuffer(NlmsgNext(memory, c)) && Window(memory, NlmsgNext(memory, c)) == rest
    ensures NlmsgAt(memory, c) == m && SeenAt(dec, memory, c) == FilledOne(dec, m, stray)
  {
    hide GetU16, GetU32, EncMsg, NlmsgAt, FirstMsg, RestMsgs, MsgOk, NlmsgNext, Padded, Reads;
    PeelMsg(m, rest);
    MsgCursorStep(memory, c);
    NextInBuffer(memory, c);
    EncPadded(m);
    var i, k, p := c.pos + NLMSG_HDRLEN, Reads(dec, m.typ), |Padded(m)|;
    assert memory[i..i + p] == Padded(m) by {
      SubSlice(memory, c.pos, c.pos + c.rem, NLMSG_HDRLEN, NLMSG_HDRLEN + p);
      assert (EncMsg(m) + rest)[NLMSG_HDRLEN..NLMSG_HDRLEN + p] == EncMsg(m)[NLMSG_HDRLEN..];
    }
    stray := if p < k then memory[i + p..i + k] else [];
    if Short(dec, m) {
      assert memory[i..i + k] == (Padded(m) + stray + Zeros(16))[..k];
    }
  }

  lemma NextInBuffer(memory: Memory, c: Cursor)
    requires InBuffer(c) && NlmsgOk(memory, c)
    ensures InBuffer(NlmsgNext(memory, c))
  {
    hide GetU32, Align4;
  }

  lemma {:induction false} SeenGroup(dec: Decoder, memory: Memory, c: Cursor, ms: seq<Msg>) returns (strays: seq<bytes>)
    requires MsgsSendable(ms) && InBuffer(c) && Window(memory, c) == EncMsgs(ms)
    ensures |strays| == OpenIn(dec, ms) && Seen(dec, memory, c) == Filled(dec, ms, strays)
    decreases ms
  {
    hide Seen, FilledOne, Window, NlmsgOk, NlmsgNext, SeenAt, EncMsg, Open, NlmsgAt;
    if ms == [] {
      strays := [];
      MsgCursorStep(memory, c);
      NoneSeen(dec, memory, c);
    } else {
      var stray := SeenSent(dec, memory, c, ms[0], EncMsgs(ms[1..]));
      SeenStep(dec, memory, c);
      var later := SeenGroup(dec, memory, NlmsgNext(memory, c), ms[1..]);
      strays := (if Open(dec, ms[0]) then [stray] else []) + later;
      ClosedFilled(dec, ms[0], stray, First(strays));
      assert Open(dec, ms[0]) ==> strays[1..] == later;
      assert !Open(dec, ms[0]) ==> strays == later;
    }
  }

  /** A drain sees the packed messages in order; only what is behind the open ones depends on the packing
      and the buffer. */
  lemma {:induction false} SeenPacked(dec: Decoder, memory: Memory, groups: seq<seq<Msg>>) returns (strays: seq<bytes>)
    requires Packable(groups)
    ensures |strays| == OpenIn(dec, Flat(groups))
    ensures SeenAll(dec, memory, Datagrams(groups)) == Filled(dec, Flat(groups), strays)
    decreases groups
  {
    hide Seen, Recv, Arrived, EncMsgs, MsgsSendable, Packable, Datagrams, Filled, OpenIn;
    if groups == [] {
      strays := [];
      NoneFilled(dec);
    } else {
      DatagramsCons(groups);
      var d := EncMsgs(groups[0]);
      ArrivedWindow(memory, d);
      var here := SeenGroup(dec, Recv(memory, d), Arrived(d), groups[0]);
      var later := SeenPacked(dec, Recv(memory, d), groups[1..]);
      strays := here + later;
      FilledConcat(dec, groups[0], Flat(groups[1..]), here, later);
    }
  }

  lemma NoneFilled(dec: Decoder)
    ensures Filled(dec, [], []) == [] && OpenIn(dec, []) == 0
  {
  }

  // ---------------------------------------------------------------------------------------------
  // Whatever the packing

  /** An open error message, or an open answer, comes before what ends the drain. */
  predicate OpenBefore(dec: Decoder, dump: bool, ms: seq<Msg>, error: bool) {
    ms != [] &&
    (  (Open(dec, ms[0]) && (ms[0].typ == NLMSG_ERROR) == error)
    || (Goes(dump, FilledOne(dec, ms[0], [])) && OpenBefore(dec, dump, ms[1..], error)))
  }

  /** No open error message comes before what ends the drain nor, if the drain comes to its end and shows
      its answers, an open answer. */
  predicate Settled(dec: Decoder, dump: bool, ms: seq<Msg>) {
    && !OpenBefore(dec, dump, ms, true)
    && (Run(dec, dump, Filled(dec, ms, []), 0).end == Done ==> !OpenBefore(dec, dump, ms, false))
  }

  function Sixteen(v: byte): (b: bytes)
    ensures |b| == 16 && forall i :: 0 <= i < 16 ==> b[i] == v
  {
    seq(16, _ => v)
  }

  /** Ones stand behind all of the one list's messages and twos behind the other's. */
  predicate Far(s: seq<bytes>, t: seq<bytes>, n: nat) {
    n <= |s| && n <= |t| && (forall x :: x in s ==> x == Sixteen(1)) && (forall x :: x in t ==> x == Sixteen(2))
  }

  lemma OpenPayload(dec: Decoder, m: Msg, stray: bytes)
    requires Open(dec, m)
    ensures var p := FilledOne(dec, m, stray).payload;
            |p| == Reads(dec, m.typ) > 0 && (|stray| == 16 ==> p[|p| - 1] == stray[|p| - 1 - |Padded(m)|])
  {
  }

  /** One message with different bytes behind it. */
  lemma FilledPair(dec: Decoder, m: Msg, s: bytes, t: bytes)
    ensures var a, b, open := FilledOne(dec, m, s), FilledOne(dec, m, t), Open(dec, m);
            && a.typ == b.typ == m.typ && (!open ==> a == b)
            && (open ==> m.typ == NLMSG_ERROR || IsAnswer(a))
            && (!open || IsAnswer(a) ==> Close(dec, a, b))
            && (open && IsAnswer(a) && s == Sixteen(1) && t == Sixteen(2) ==> Body(dec, a) != Body(dec, b))
            && (open && m.typ == NLMSG_ERROR && s == Sixteen(1) && t == Sixteen(2) ==> 0 < ErrorField(a) < ErrorField(b))
  {
    hide FilledOne, Padded, Body, ErrorField, Sixteen;
    ClosedFilled(dec, m, s, t);
    if Open(dec, m) {
      var a, b := FilledOne(dec, m, s), FilledOne(dec, m, t);
      OpenPayload(dec, m, s);
      OpenPayload(dec, m, t);
      if IsAnswer(m) {
        HeaderOnly(dec, a, b);
      } else if s == Sixteen(1) && t == Sixteen(2) {
        TopByte(a);
        TopByte(b);
      }
    }
  }

  lemma {:induction false} Strays(dec: Decoder, dump: bool, ms: seq<Msg>, s: seq<bytes>, t: seq<bytes>)
    ensures !OpenBefore(dec, dump, ms, true) ==>
              && AlikeFrom(dec, dump, Filled(dec, ms, s), Filled(dec, ms, t))
              && (!OpenBefore(dec, dump, ms, false) ==> SameFrom(dec, dump, Filled(dec, ms, s), Filled(dec, ms, t)))
              && (OpenBefore(dec, dump, ms, false) && Far(s, t, |ms|) ==>
                    OtherFrom(dec, dump, Filled(dec, ms, s), Filled(dec, ms, t)))
    ensures OpenBefore(dec, dump, ms, true) && Far(s, t, |ms|) ==>
              ErrnoFrom(dec, dump, Filled(dec, ms, s), Filled(dec, ms, t))
    decreases ms
  {
    hide Goes, Run, Open, FilledOne, Close, IsAnswer, Body, ErrorField, Sixteen, Filled,
         AlikeFrom, SameFrom, OtherFrom, ErrnoFrom;
    if ms == [] {
      NoneSent(dec, s);
      NoneSent(dec, t);
      SameRun(dec, dump, []);
    } else {
      var m, rest := ms[0], ms[1..];
      var s', t' := Rest(dec, m, s), Rest(dec, m, t);
      FilledStep(dec, ms, s);
      FilledStep(dec, ms, t);
      FilledPair(dec, m, First(s), First(t));
      FilledPair(dec, m, First(s), []);
      Strays(dec, dump, rest, s', t');
      if Far(s, t, |ms|) { FarRest(dec, m, s, t, |rest|); }
      ClosePair(dec, dump, FilledOne(dec, m, First(s)), FilledOne(dec, m, []), [], []);
      ClosePair(dec, dump, FilledOne(dec, m, First(s)), FilledOne(dec, m, First(t)), Filled(dec, rest, s'), Filled(dec, rest, t'));
    }
  }

  lemma FarRest(dec: Decoder, m: Msg, s: seq<bytes>, t: seq<bytes>, n: nat)
    requires Far(s, t, n + 1)
    ensures Far(Rest(dec, m, s), Rest(dec, m, t), n) && First(s) == Sixteen(1) && First(t) == Sixteen(2)
  {
    hide Open, Sixteen;
    assert s[0] in s && t[0] in t;
    assert (forall x :: x in s[1..] ==> x in s) && (forall x :: x in t[1..] ==> x in t);
  }

  lemma NoneSent(dec: Decoder, s: seq<bytes>)
    ensures Filled(dec, [], s) == []
  {
  }

  /** Two packings of the same messages show the same, whatever stands behind the open messages of the one
      and of the other, if and only if the messages are settled. */
  lemma ShownWhateverThePacking(dec: Decoder, dump: bool, p: seq<seq<Msg>>, q: seq<seq<Msg>>)
    requires Packable(p) && Packable(q) && Flat(p) == Flat(q)
    ensures (forall s, t :: Shown(dump, Run(dec, dump, Filled(dec, Flat(p), s), 0))
                         == Shown(dump, Run(dec, dump, Filled(dec, Flat(q), t), 0)))
       <==> Settled(dec, dump, Flat(p))
  {
    hide Run, Packable, Filled, OpenBefore, Flat, Shown, Sixteen, AlikeFrom, SameFrom, OtherFrom, ErrnoFrom;
    var ms := Flat(p);
    var ones, twos := seq(|ms|, _ => Sixteen(1)), seq(|ms|, _ => Sixteen(2));
    Strays(dec, dump, ms, [], ones);
    Strays(dec, dump, ms, ones, twos);
    ShownOf(dec, dump, Filled(dec, ms, []), Filled(dec, ms, ones));
    ShownOf(dec, dump, Filled(dec, ms, ones), Filled(dec, ms, twos));
    forall s, t ensures Settled(dec, dump, ms) ==>
      Shown(dump, Run(dec, dump, Filled(dec, ms, s), 0)) == Shown(dump, Run(dec, dump, Filled(dec, ms, t), 0))
    {
      if Settled(dec, dump, ms) { SettledSame(dec, dump, ms, s, t); }
    }
  }

  lemma SettledSame(dec: Decoder, dump: bool, ms: seq<Msg>, s: seq<bytes>, t: seq<bytes>)
    requires Settled(dec, dump, ms)
    ensures Shown(dump, Run(dec, dump, Filled(dec, ms, s), 0)) == Shown(dump, Run(dec, dump, Filled(dec, ms, t), 0))
  {
    hide Run, Filled, OpenBefore, Shown, AlikeFrom, SameFrom, OtherFrom, ErrnoFrom;
    Strays(dec, dump, ms, [], s);
    Strays(dec, dump, ms, s, t);
    ShownOf(dec, dump, Filled(dec, ms, []), Filled(dec, ms, s));
    ShownOf(dec, dump, Filled(dec, ms, s), Filled(dec, ms, t));
  }

  /** So settled messages show the same however the kernel packs them and whatever the buffer held before. */
  lemma ShownWhateverTheBuffer(dec: Decoder, dump: bool, p: seq<seq<Msg>>, q: seq<seq<Msg>>, m: Memory, n: Memory)
    requires Packable(p) && Packable(q) && Flat(p) == Flat(q) && Settled(dec, dump, Flat(p))
    ensures Displayed(dec, dump, m, Datagrams(p)) == Displayed(dec, dump, n, Datagrams(q))
  {
    hide Run, Packable, Filled, Settled, Flat, SeenAll;
    var s := SeenPacked(dec, m, p);
    var t := SeenPacked(dec, n, q);
    SettledSame(dec, dump, Flat(p), s, t);
  }

  // ---------------------------------------------------------------------------------------------
  // Packings that show

  /** An error message with nothing behind its header. */
  predicate Bare(m: Msg) {
    m.typ == NLMSG_ERROR && m.payload == []
  }

  lemma Field(m: Msg, v: u32)
    requires m.typ == NLMSG_ERROR && m.payload == PutU32(v) && 0 < v < 0x8000_0000
    ensures ErrorField(m) == v && forall dump :: !Goes(dump, m)
  {
    hide GetU32, PutU32;
  }

  lemma WindowSlice(memory: Memory, c: Cursor, i: nat, j: nat)
    requires InBuffer(c) && i <= j <= c.rem && c.rem > 0
    ensures Window(memory, c)[i..j] == memory[c.pos + i..c.pos + j]
  {
    SubSlice(memory, c.pos, c.pos + c.rem, i, j);
  }

  lemma BareSeen(dec: Decoder, memory: Memory, c: Cursor)
    requires InBuffer(c) && NlmsgOk(memory, c) && Bare(NlmsgAt(memory, c))
    ensures c.pos + NLMSG_HDRLEN + 4 <= |memory|
    ensures SeenAt(dec, memory, c) == NlmsgAt(memory, c).(payload := memory[c.pos + NLMSG_HDRLEN..c.pos + NLMSG_HDRLEN + 4])
  {
    hide GetU16, GetU32, NlmsgAt;
  }

  /** Behind a bare message the loops read the length of the next one in the datagram. */
  lemma BareFollowed(dec: Decoder, memory: Memory, c: Cursor, m: Msg, next: Msg, rest: bytes)
    requires Bare(m) && NLMSG_HDRLEN + |next.payload| < 0x1_0000_0000
    requires InBuffer(c) && Window(memory, c) == EncMsg(m) + (EncMsg(next) + rest)
    ensures NlmsgOk(memory, c) && SeenAt(dec, memory, c) == m.(payload := PutU32(NLMSG_HDRLEN + |next.payload|))
  {
    hide GetU16, GetU32, PutU32, EncMsg, NlmsgAt, NlmsgOk, FirstMsg, MsgOk, Window, SeenAt;
    PeelMsg(m, EncMsg(next) + rest);
    MsgCursorStep(memory, c);
    LengthBehind(m, next, rest);
    WindowSlice(memory, c, NLMSG_HDRLEN, NLMSG_HDRLEN + 4);
    BareSeen(dec, memory, c);
  }

  lemma LengthBehind(m: Msg, next: Msg, rest: bytes)
    requires Bare(m) && NLMSG_HDRLEN + |next.payload| < 0x1_0000_0000
    ensures var b := EncMsg(m) + (EncMsg(next) + rest);
            NLMSG_HDRLEN + 4 <= |b| && b[NLMSG_HDRLEN..NLMSG_HDRLEN + 4] == PutU32(NLMSG_HDRLEN + |next.payload|)
  {
    hide PutU32, PutU16;
    assert |EncMsg(m)| == NLMSG_HDRLEN;
    assert EncMsg(next)[..4] == PutU32(NLMSG_HDRLEN + |next.payload|);
  }

  lemma EncTwo(m: Msg, n: Msg)
    requires MsgsSendable([m, n])
    ensures m in [m, n] && n in [m, n] && EncMsgs([m, n]) == EncMsg(m) + (EncMsg(n) + [])
    ensures NLMSG_HDRLEN + |n.payload| <= |EncMsgs([m, n])|
  {
    assert [m, n][1..] == [n] && [n][1..] == [] && n in [n];
    assert m in [m, n] && n in [m, n];
    assert EncMsgs([n]) == EncMsg(n) + [];
  }

  /** A bare message in front of another in one datagram passes the other's length off as an errno. */
  lemma OneDatagram(dec: Decoder, dump: bool, memory: Memory, m: Msg, next: Msg)
    requires Bare(m) && Packable([[m, next]])
    ensures Displayed(dec, dump, memory, Datagrams([[m, next]])) == KernelErrno(-(NLMSG_HDRLEN + |next.payload|), 0)
  {
    hide Run, Recv, Arrived, EncMsg, PutU32, GetU32, NlmsgNext, NlmsgOk;
    var ds := Datagrams([[m, next]]);
    DatagramsCons([[m, next]]);
    assert ds == [EncMsgs([m, next])];
    EncTwo(m, next);
    var now, c := Recv(memory, ds[0]), Arrived(ds[0]);
    ArrivedWindow(memory, ds[0]);
    BareFollowed(dec, now, c, m, next, []);
    SeenStep(dec, now, c);
    assert SeenAll(dec, memory, ds) == [SeenAt(dec, now, c)] + Seen(dec, now, NlmsgNext(now, c));
    Field(SeenAt(dec, now, c), NLMSG_HDRLEN + |next.payload|);
    Step(dec, dump, SeenAt(dec, now, c), Seen(dec, now, NlmsgNext(now, c)), 0);
  }

  /** Where the buffer holds zeros behind it, a bare message alone in its datagram is an acknowledgement. */
  lemma LoneBare(dec: Decoder, dump: bool, memory: Memory, m: Msg)
    requires Bare(m) && memory[NLMSG_HDRLEN..NLMSG_HDRLEN + 4] == Zeros(4)
    ensures var d := EncMsg(m);
            && Recv(memory, d)[NLMSG_HDRLEN..NLMSG_HDRLEN + 4] == Zeros(4)
            && GoesOn(dump, Seen(dec, Recv(memory, d), Arrived(d)))
  {
    hide GetU16, GetU32, PutU32, EncMsg, NlmsgAt, NlmsgOk, NlmsgNext, FirstMsg, RestMsgs;
    var d := EncMsg(m);
    var now, c := Recv(memory, d), Arrived(d);
    assert |d| == NLMSG_HDRLEN by { LoneSize(m); }
    assert now[NLMSG_HDRLEN..NLMSG_HDRLEN + 4] == memory[NLMSG_HDRLEN..NLMSG_HDRLEN + 4];
    ArrivedWindow(memory, d);
    assert d == d + [];
    var _ := SeenSent(dec, now, c, m, []);
    PeelMsg(m, []);
    MsgCursorStep(now, c);
    MsgCursorStep(now, NlmsgNext(now, c));
    NoneSeen(dec, now, NlmsgNext(now, c));
    SeenStep(dec, now, c);
    ZeroField(SeenAt(dec, now, c));
    GoesOnStep(dump, SeenAt(dec, now, c), []);
  }

  lemma LoneSize(m: Msg)
    requires Bare(m)
    ensures |EncMsg(m)| == NLMSG_HDRLEN
  {
  }

  lemma ZeroField(m: Msg)
    requires m.typ == NLMSG_ERROR && m.payload == Zeros(4)
    ensures IsAck(m)
  {
  }

  /** Two bare error messages in one datagram are shown as an errno; in two datagrams, with zeros in the
      buffer behind them, they pass for acknowledgements and the drain waits for more. */
  lemma PackingShows(dec: Decoder, dump: bool, memory: Memory, m: Msg, n: Msg)
    requires Bare(m) && Bare(n) && memory[NLMSG_HDRLEN..NLMSG_HDRLEN + 4] == Zeros(4)
    ensures Packable([[m, n]]) && Packable([[m], [n]]) && Flat([[m, n]]) == Flat([[m], [n]])
    ensures Displayed(dec, dump, memory, Datagrams([[m, n]])) == KernelErrno(-16, 0)
    ensures Displayed(dec, dump, memory, Datagrams([[m], [n]])) == RecvError
  {
    hide Run, Recv, Arrived, Seen, SeenAll, EncMsg, GoesOn;
    TwoPackings(m, n);
    OneDatagram(dec, dump, memory, m, n);
    var now := Recv(memory, EncMsg(m));
    LoneBare(dec, dump, memory, m);
    LoneBare(dec, dump, now, n);
    var here, later := Seen(dec, now, Arrived(EncMsg(m))), Seen(dec, Recv(now, EncMsg(n)), Arrived(EncMsg(n)));
    TwoSeen(dec, memory, EncMsg(m), EncMsg(n));
    StarvedIff(dec, dump, here, 0);
    RunConcat([], dec, dump, here, later, 0);
    StarvedIff(dec, dump, later, Run(dec, dump, here, 0).count);
  }

  lemma TwoPackings(m: Msg, n: Msg)
    requires Bare(m) && Bare(n)
    ensures Packable([[m, n]]) && Packable([[m], [n]]) && Flat([[m, n]]) == Flat([[m], [n]])
    ensures Datagrams([[m], [n]]) == [EncMsg(m), EncMsg(n)]
  {
    hide EncMsg;
    LoneSize(m);
    LoneSize(n);
    EncTwo(m, n);
    EncOne(m);
    EncOne(n);
    assert [[m], [n]][1..] == [[n]] && [[n]][1..] == [] && [[m, n]][1..] == [];
  }

  lemma EncOne(m: Msg)
    requires MsgsSendable([m])
    ensures m in [m] && EncMsgs([m]) == EncMsg(m)
  {
    assert m in [m];
    assert EncMsgs([m]) == EncMsg(m) + [];
  }

  lemma TwoSeen(dec: Decoder, memory: Memory, d: bytes, e: bytes)
    ensures var now := Recv(memory, d);
            SeenAll(dec, memory, [d, e]) == Seen(dec, now, Arrived(d)) + Seen(dec, Recv(now, e), Arrived(e))
  {
    hide Seen, Recv, Arrived;
    var last := Recv(Recv(memory, d), e);
    assert [d, e][1..] == [e] && [e][1..] == [];
    assert SeenAll(dec, Recv(memory, d), [e]) == Seen(dec, last, Arrived(e)) + SeenAll(dec, last, []);
    assert Seen(dec, last, Arrived(e)) + [] == Seen(dec, last, Arrived(e));
  }
}
