/** Draining a multipart reply: how a list of messages arrives in datagrams, and the loop that enumerates
    the generic netlink families.  NLMSG_DONE ends a multipart reply (RFC 3549, section 2.3.2). */
module Drain {
  import opened Wire
  import opened Ctrl

  const RECV_SIZE: nat := 65536

  /** What recv leaves in the buffer of one datagram. */
  function Received(d: bytes): (r: bytes)
    ensures |r| <= RECV_SIZE && (|d| <= RECV_SIZE ==> r == d)
    ensures r <= d && |r| == if |d| < 65536 then |d| else 65536
  {
    if |d| <= RECV_SIZE then d else d[..RECV_SIZE]
  }

  /** The messages of a run of datagrams, one after the other. */
  function Messages(ds: seq<bytes>): seq<Msg> {
    if ds == [] then [] else MsgWalk(Received(ds[0])) + Messages(ds[1..])
  }

  // ---------------------------------------------------------------------------------------------
  // Packing messages into datagrams

  function Flat(groups: seq<seq<Msg>>): seq<Msg> {
    if groups == [] then [] else groups[0] + Flat(groups[1..])
  }

  /** Non-empty groups of messages that each fit the receive buffer. */
  predicate Packable(groups: seq<seq<Msg>>) {
    forall g :: g in groups ==> g != [] && MsgsSendable(g) && |EncMsgs(g)| <= RECV_SIZE
  }

  function Datagrams(groups: seq<seq<Msg>>): (ds: seq<bytes>)
    requires Packable(groups)
    ensures |ds| == |groups|
  {
    seq(|groups|, i requires 0 <= i < |groups| => assert groups[i] in groups; EncMsgs(groups[i]))
  }

  lemma EncMsgsNonEmpty(ms: seq<Msg>)
    requires ms != [] && MsgsSendable(ms)
    ensures EncMsgs(ms) != []
  {
    assert |EncMsg(ms[0])| >= NLMSG_HDRLEN;
  }

  lemma DatagramsNonEmpty(groups: seq<seq<Msg>>)
    requires Packable(groups)
    ensures [] !in Datagrams(groups)
  {
    hide EncMsgs, MsgsSendable;
    forall i | 0 <= i < |groups| ensures Datagrams(groups)[i] != [] {
      assert groups[i] in groups;
      EncMsgsNonEmpty(groups[i]);
    }
  }

  lemma MessagesCons(d: bytes, ds: seq<bytes>)
    ensures Messages([d] + ds) == MsgWalk(Received(d)) + Messages(ds)
  {
    assert ([d] + ds)[1..] == ds;
  }

  lemma DatagramsCons(groups: seq<seq<Msg>>)
    requires Packable(groups) && groups != []
    ensures groups[0] != [] && MsgsSendable(groups[0]) && |EncMsgs(groups[0])| <= RECV_SIZE
    ensures Packable(groups[1..]) && Datagrams(groups) == [EncMsgs(groups[0])] + Datagrams(groups[1..])
  {
    hide EncMsgs, MsgsSendable;
    assert groups[0] in groups;
    assert forall h :: h in groups[1..] ==> h in groups;
  }

  lemma {:induction false} PackedMessages(groups: seq<seq<Msg>>)
    requires Packable(groups)
    ensures Messages(Datagrams(groups)) == Flat(groups)
  {
    hide EncMsgs, MsgWalk, MsgsSendable, Received, Packable, Datagrams;
    if groups != [] {
      DatagramsCons(groups);
      WalkEncMsgs(groups[0]);
      PackedMessages(groups[1..]);
      MessagesCons(EncMsgs(groups[0]), Datagrams(groups[1..]));
    }
  }

  // ---------------------------------------------------------------------------------------------
  // Enumerating families

  /** How the loop ends: at NLMSG_DONE, at an empty read, at NLMSG_ERROR, at a message too short for its
      header, or when recv fails. */
  datatype NsEnd = Finished | EmptyRead | KernelError | BadMessage | RecvFailed
  datatype NsResult = NsResult(families: seq<Family>, end: NsEnd)

  /** `tail` is what happens once the messages have run out. */
  function NsRun(ms: seq<Msg>, sequence: u32, tail: NsEnd): NsResult {
    if ms == [] then NsResult([], tail)
    else if ms[0].sequence != sequence then NsRun(ms[1..], sequence, tail)
    else if ms[0].typ == NLMSG_DONE then NsResult([], Finished)
    else if ms[0].typ == NLMSG_ERROR then NsResult([], KernelError)
    else
      match FamilyOf(ms[0].payload)
      case Truncated => NsResult([], BadMessage)
      case Skipped => NsRun(ms[1..], sequence, tail)
      case Append(f) =>
        var r := NsRun(ms[1..], sequence, tail);
        r.(families := [f] + r.families)
  }

  /** The datagrams before the first empty one. */
  function BeforeEmpty(ds: seq<bytes>): seq<bytes> {
    if ds == [] || ds[0] == [] then [] else [ds[0]] + BeforeEmpty(ds[1..])
  }

  function NsDrain(ds: seq<bytes>, sequence: u32): NsResult {
    NsRun(Messages(BeforeEmpty(ds)), sequence, if [] in ds then EmptyRead else RecvFailed)
  }

  function After(families: seq<Family>, r: NsResult): NsResult {
    r.(families := families + r.families)
  }

  /** One datagram's share of the work: its messages are handled, and the rest follows unless one of
      them ends the loop. */
  lemma {:induction false} NsRunConcat(ms: seq<Msg>, later: seq<Msg>, sequence: u32, tail: NsEnd)
    ensures var here := NsRun(ms, sequence, EmptyRead);
            NsRun(ms + later, sequence, tail)
            == if here.end == EmptyRead then After(here.families, NsRun(later, sequence, tail)) else here
  {
    hide NsRun, FamilyOf;
    var r := NsRun(later, sequence, tail);
    assert [] + r.families == r.families;
    if ms == [] {
      NsRunNone(sequence, EmptyRead);
      assert ms + later == later;
    } else {
      var m, rest := ms[0], ms[1..];
      assert ms == [m] + rest && ms + later == [m] + (rest + later);
      NsRunConcat(rest, later, sequence, tail);
      NsRunStep([], m, rest, sequence, EmptyRead);
      NsRunStep([], m, rest + later, sequence, tail);
      Nested(NsRun(rest, sequence, EmptyRead), r, FamilyOf(m.payload));
      Plain(NsRun(ms, sequence, EmptyRead));
      Plain(NsRun(ms + later, sequence, tail));
      Plain(NsRun(rest, sequence, EmptyRead));
      Plain(NsRun(rest + later, sequence, tail));
    }
  }

  lemma Plain(r: NsResult)
    ensures After([], r) == r
  {
    assert [] + r.families == r.families;
  }

  lemma Nested(rest: NsResult, r: NsResult, o: Outcome)
    ensures o.Append? ==> After([] + [o.family], After(rest.families, r)) == After(After([] + [o.family], rest).families, r)
  {
    if o.Append? {
      assert [] + [o.family] + (rest.families + r.families) == [] + [o.family] + rest.families + r.families;
    }
  }

  /** The loop goes on behind a message of somebody else's, and behind one that may describe a family. */
  predicate GoneBy(m: Msg, sequence: u32) {
    m.sequence != sequence || (m.typ != 2 && m.typ != 3 && |m.payload| >= 4)
  }

  /** The first other message ends it: DONE is type 3 and an error is type 2. */
  lemma {:induction false} NsEnds(ms: seq<Msg>, sequence: u32, tail: NsEnd, k: nat)
    requires k <= |ms| && forall i :: 0 <= i < k ==> GoneBy(ms[i], sequence)
    ensures var end := NsRun(ms, sequence, tail).end;
      && (k == |ms| ==> end == tail)
      && (k < |ms| && ms[k].sequence == sequence ==>
            && (ms[k].typ == 3 ==> end == Finished)
            && (ms[k].typ == 2 ==> end == KernelError)
            && (ms[k].typ !in {2, 3} && |ms[k].payload| < 4 ==> end == BadMessage))
    decreases ms
  {
    hide Conclude, FoundFold;
    if k > 0 { NsEnds(ms[1..], sequence, tail, k - 1); }
  }

  lemma NsEndsAt(ms: seq<Msg>, sequence: u32, tail: NsEnd)
    ensures var end := NsRun(ms, sequence, tail).end;
      && ((forall m :: m in ms ==> GoneBy(m, sequence)) ==> end == tail)
      && forall k :: 0 <= k < |ms| && ms[k].sequence == sequence && (forall i :: 0 <= i < k ==> GoneBy(ms[i], sequence)) ==>
           && (ms[k].typ == 3 ==> end == Finished)
           && (ms[k].typ == 2 ==> end == KernelError)
           && (ms[k].typ !in {2, 3} && |ms[k].payload| < 4 ==> end == BadMessage)
  {
    hide NsRun;
    forall k | 0 <= k < |ms| && ms[k].sequence == sequence && forall i :: 0 <= i < k ==> GoneBy(ms[i], sequence)
      ensures var end := NsRun(ms, sequence, tail).end;
        && (ms[k].typ == 3 ==> end == Finished)
        && (ms[k].typ == 2 ==> end == KernelError)
        && (ms[k].typ !in {2, 3} && |ms[k].payload| < 4 ==> end == BadMessage)
    {
      NsEnds(ms, sequence, tail, k);
    }
    if forall m :: m in ms ==> GoneBy(m, sequence) { NsEnds(ms, sequence, tail, |ms|); }
  }

  class GenlNamespace {
    var children: seq<Family>

    constructor ()
      ensures children == []
    {
      children := [];
    }

    /** The message loop over one datagram; EmptyRead means that recv is called again. */
    method WalkDatagram(buf: bytes, sequence: u32) returns (end: NsEnd)
      modifies this
      ensures After(old(children), NsRun(MsgWalk(buf), sequence, EmptyRead)) == NsResult(children, end)
    {
      hide MsgWalk, FamilyOf, NlmsgOk, NlmsgNext, NlmsgAt;
      var c := Cursor(0, |buf|);
      assert Window(buf, c) == buf;
      while NlmsgOk(buf, c)
        invariant Inside(buf, c)
        invariant After(children, NsRun(MsgWalk(Window(buf, c)), sequence, EmptyRead))
               == After(old(children), NsRun(MsgWalk(buf), sequence, EmptyRead))
        decreases c.rem
      {
        hide Window;
        MsgWalkStep(buf, c);
        var m := NlmsgAt(buf, c);
        ghost var later := MsgWalk(Window(buf, NlmsgNext(buf, c)));
        NsRunStep(children, m, later, sequence, EmptyRead);
        if m.sequence != sequence {
          c := NlmsgNext(buf, c);
          continue;
        }
        if m.typ == NLMSG_DONE { return Finished; }
        if m.typ == NLMSG_ERROR { return KernelError; }
        var r := ProcessFamilyMsg(m.payload);
        if r == Truncated { return BadMessage; }
        if r.Append? { children := children + [r.family]; }
        c := NlmsgNext(buf, c);
      }
      MsgWalkStep(buf, c);
      assert children + [] == children;
      return EmptyRead;
    }

    /** ns_populate_children behind the request: appends a family per message until the end.  What it
        has appended stays when it fails. */
    method PopulateChildren(datagrams: seq<bytes>, sequence: u32) returns (end: NsEnd)
      modifies this
      ensures NsResult(children, end) == After(old(children), NsDrain(datagrams, sequence))
      // the first message of this sequence that is DONE, an error or too short ends it, or else an empty
      // datagram does, or else recv
      ensures var ms := Messages(BeforeEmpty(datagrams));
        && ((forall m :: m in ms ==> GoneBy(m, sequence)) ==> end == if [] in datagrams then EmptyRead else RecvFailed)
        && forall k :: 0 <= k < |ms| && ms[k].sequence == sequence && (forall i :: 0 <= i < k ==> GoneBy(ms[i], sequence)) ==>
             && (ms[k].typ == 3 ==> end == Finished)
             && (ms[k].typ == 2 ==> end == KernelError)
             && (ms[k].typ !in {2, 3} && |ms[k].payload| < 4 ==> end == BadMessage)
    {
      NsEndsAt(Messages(BeforeEmpty(datagrams)), sequence, if [] in datagrams then EmptyRead else RecvFailed);
      end := ReceiveLoop(datagrams, sequence);
    }

    method ReceiveLoop(datagrams: seq<bytes>, sequence: u32) returns (end: NsEnd)
      modifies this
      ensures NsResult(children, end) == After(old(children), NsDrain(datagrams, sequence))
    {
      hide NsRun, MsgWalk;
      assert old(children) + [] == old(children);
      for i := 0 to |datagrams|
        invariant NsDrain(datagrams, sequence).end == NsDrain(datagrams[i..], sequence).end
        invariant After(children, NsDrain(datagrams[i..], sequence)) == After(old(children), NsDrain(datagrams, sequence))
      {
        ghost var rest := datagrams[i..];
        assert rest[0] == datagrams[i] && rest[1..] == datagrams[i + 1..];
        ghost var before := children;
        var buf := Received(datagrams[i]);
        NsDrainStep(before, rest, sequence);
        if |buf| == 0 {
          assert children + [] == children;
          return EmptyRead;
        }
        end := WalkDatagram(buf, sequence);
        if end != EmptyRead { return; }
      }
      assert datagrams[|datagrams|..] == [];
      NsRunNone(sequence, RecvFailed);
      assert children + [] == children;
      return RecvFailed;
    }
  }

  lemma NsRunNone(sequence: u32, tail: NsEnd)
    ensures NsRun([], sequence, tail) == NsResult([], tail)
  {
  }

  lemma NsRunStep(families: seq<Family>, m: Msg, later: seq<Msg>, sequence: u32, tail: NsEnd)
    ensures After(families, NsRun([m] + later, sequence, tail))
         == if m.sequence != sequence then After(families, NsRun(later, sequence, tail))
            else if m.typ == NLMSG_DONE then NsResult(families, Finished)
            else if m.typ == NLMSG_ERROR then NsResult(families, KernelError)
            else match FamilyOf(m.payload)
                 case Truncated => NsResult(families, BadMessage)
                 case Skipped => After(families, NsRun(later, sequence, tail))
                 case Append(f) => After(families + [f], NsRun(later, sequence, tail))
  {
    hide FamilyOf;
    assert ([m] + later)[1..] == later;
    assert families + [] == families;
    match FamilyOf(m.payload)
    case Append(f) =>
      var r := NsRun(later, sequence, tail);
      assert families + ([f] + r.families) == families + [f] + r.families;
    case _ =>
  }

  lemma NsDrainStep(families: seq<Family>, ds: seq<bytes>, sequence: u32)
    requires ds != []
    ensures Received(ds[0]) == [] ==> After(families, NsDrain(ds, sequence)) == NsResult(families, EmptyRead)
    ensures Received(ds[0]) != [] ==>
              var here := After(families, NsRun(MsgWalk(Received(ds[0])), sequence, EmptyRead));
              After(families, NsDrain(ds, sequence))
              == if here.end == EmptyRead then After(here.families, NsDrain(ds[1..], sequence)) else here
  {
    hide NsRun, MsgWalk;
    assert ds[0] == [] <==> Received(ds[0]) == [];
    if ds[0] == [] {
      NsRunNone(sequence, EmptyRead);
      assert families + [] == families;
    } else {
      var ms, later := MsgWalk(Received(ds[0])), Messages(BeforeEmpty(ds[1..]));
      var tail := if [] in ds then EmptyRead else RecvFailed;
      assert [] in ds <==> [] in ds[1..] by { assert ds == [ds[0]] + ds[1..]; }
      assert Messages(BeforeEmpty(ds)) == ms + later by {
        assert BeforeEmpty(ds)[1..] == BeforeEmpty(ds[1..]);
      }
      NsRunConcat(ms, later, sequence, tail);
      var here, r := NsRun(ms, sequence, EmptyRead), NsRun(later, sequence, tail);
      assert families + (here.families + r.families) == families + here.families + r.families;
    }
  }

  /** However a message list is packed into datagrams, the same families are appended in the same order
      and the loop ends the same way. */
  lemma PackingIrrelevant(p: seq<seq<Msg>>, q: seq<seq<Msg>>, sequence: u32)
    requires Packable(p) && Packable(q) && Flat(p) == Flat(q)
    ensures NsDrain(Datagrams(p), sequence) == NsDrain(Datagrams(q), sequence)
  {
    hide NsRun, Packable;
    PackedMessages(p);
    PackedMessages(q);
    DatagramsNonEmpty(p);
    DatagramsNonEmpty(q);
    NoEmpty(Datagrams(p));
    NoEmpty(Datagrams(q));
  }

  lemma {:induction false} NoEmpty(ds: seq<bytes>)
    requires [] !in ds
    ensures BeforeEmpty(ds) == ds
  {
    if ds != [] { NoEmpty(ds[1..]); }
  }

  // ---------------------------------------------------------------------------------------------
  // What the enumeration amounts to

  /** The messages that answer this request. */
  function Wanted(ms: seq<Msg>, sequence: u32): (w: seq<Msg>)
    ensures forall m :: m in w ==> m.sequence == sequence
  {
    if ms == [] then [] else (if ms[0].sequence == sequence then [ms[0]] else []) + Wanted(ms[1..], sequence)
  }

  predicate Stops(m: Msg) {
    m.typ == NLMSG_DONE || m.typ == NLMSG_ERROR || FamilyOf(m.payload) == Truncated
  }

  function EndAt(m: Msg): NsEnd
    requires Stops(m)
  {
    if m.typ == NLMSG_DONE then Finished else if m.typ == NLMSG_ERROR then KernelError else BadMessage
  }

  function FamiliesOf(ms: seq<Msg>): seq<Family> {
    if ms == [] then []
    else (match FamilyOf(ms[0].payload) case Append(f) => [f] case _ => []) + FamiliesOf(ms[1..])
  }

  /** Messages with another sequence number have no effect, whatever their type. */
  lemma {:induction false} StrayIgnored(ms: seq<Msg>, sequence: u32, tail: NsEnd)
    ensures NsRun(ms, sequence, tail) == NsRun(Wanted(ms, sequence), sequence, tail)
  {
    if ms != [] {
      hide NsRun, FamilyOf;
      var m, rest := ms[0], ms[1..];
      assert ms == [m] + rest;
      StrayIgnored(rest, sequence, tail);
      NsRunStep([], m, rest, sequence, tail);
      NsRunStep([], m, Wanted(rest, sequence), sequence, tail);
      Plain(NsRun(ms, sequence, tail));
      Plain(NsRun(rest, sequence, tail));
      Plain(NsRun([m] + Wanted(rest, sequence), sequence, tail));
      assert [] + Wanted(rest, sequence) == Wanted(rest, sequence);
    }
  }

  lemma {:induction false} AnswersUntilStop(w: seq<Msg>, sequence: u32, tail: NsEnd, k: nat)
    requires k <= |w| && (forall i :: 0 <= i < k ==> !Stops(w[i])) && (k < |w| ==> Stops(w[k]))
    requires forall m :: m in w ==> m.sequence == sequence
    ensures NsRun(w, sequence, tail) == NsResult(FamiliesOf(w[..k]), if k < |w| then EndAt(w[k]) else tail)
  {
    hide FamilyOf;
    if k > 0 {
      assert w[..k][1..] == w[1..][..k - 1];
      assert w[..k][0] == w[0] && w[0] in w;
      AnswersUntilStop(w[1..], sequence, tail, k - 1);
      assert [] + FamiliesOf(w[1..][..k - 1]) == FamiliesOf(w[1..][..k - 1]);
    } else {
      assert w != [] ==> w[0] in w;
    }
  }

  /** The families are those of the answering messages in front of the first one that stops the loop. */
  lemma Enumerated(ms: seq<Msg>, sequence: u32, tail: NsEnd, k: nat)
    requires var w := Wanted(ms, sequence);
             k <= |w| && (forall i :: 0 <= i < k ==> !Stops(w[i])) && (k < |w| ==> Stops(w[k]))
    ensures var w := Wanted(ms, sequence);
            NsRun(ms, sequence, tail) == NsResult(FamiliesOf(w[..k]), if k < |w| then EndAt(w[k]) else tail)
  {
    hide NsRun, FamilyOf;
    StrayIgnored(ms, sequence, tail);
    AnswersUntilStop(Wanted(ms, sequence), sequence, tail, k);
  }
}
