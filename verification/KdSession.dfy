// The protocol session of scripts/kd-listen.py: what the peer writes for each accepted packet, and
// what that makes of whole runs.
module KdSession {
  import opened Bytes
  import opened KdFraming
  import opened KdRoundTrip
  import opened Sequences
  import opened Wrappers

  const ACKNOWLEDGE := 4
  const RESEND := 5
  const RESET := 6
  const STATE_MANIPULATE := 2
  const DEBUG_IO := 3
  const STATE_CHANGE64 := 7
  const FILE_IO := 11
  const INITIAL_PACKET_ID := 0x80800000
  const SYNC_PACKET_ID := 0x800
  const DBG_KD_PRINT_STRING_API := 0x3230
  const DBG_KD_CONTINUE_API2 := 0x313C
  const DBG_CONTINUE := 0x00010002
  const MANIPULATE_SIZE := 56
  const FILE_IO_SIZE := 64
  const STATUS_NOT_IMPLEMENTED := 0xC0000002

  datatype Kind = ControlReply | DataReply | Resent

  // One os.write: the bytes put on the line, and why.
  datatype Write = Write(kind: Kind, bytes: seq<Byte>)

  datatype Session = Session(outId: nat, lastSent: Option<seq<Byte>>)

  datatype Outcome = Outcome(session: Session, wire: seq<Write>)

  const START := Session(INITIAL_PACKET_ID, None)

  predicate ValidId(id: nat) {
    id == INITIAL_PACKET_ID || id == INITIAL_PACKET_ID + 1
  }

  // id & SYNC_PACKET_ID
  predicate IsSync(id: nat) {
    id / SYNC_PACKET_ID % 2 == 1
  }

  // id ^ 1
  function FlipLowBit(id: nat): (r: nat) {
    if id % 2 == 0 then id + 1 else id - 1
  }

  function Zeros(n: nat): (r: seq<Byte>) {
    seq(n, _ => 0)
  }

  // Payloads are zeros with fields packed into them.
  function ContinuePayload(processor: nat): (pl: seq<Byte>)
    requires processor < 0x1_0000
    ensures |pl| == MANIPULATE_SIZE
  {
    Splice(Splice(Zeros(MANIPULATE_SIZE), 0, Le32(DBG_KD_CONTINUE_API2) + Le16(0) + Le16(processor) + Le32(0)),
             12, Le32(DBG_CONTINUE))
  }

  function FileIoFailPayload(api: nat): (pl: seq<Byte>)
    requires api < MOD32
    ensures |pl| == FILE_IO_SIZE
  {
    Splice(Zeros(FILE_IO_SIZE), 0, Le32(api) + Le32(STATUS_NOT_IMPLEMENTED))
  }

  function ControlPacket(ptype: nat, id: nat): (r: Packet) {
    Packet(false, ptype, id, 0, [])
  }

  function DataPacket(ptype: nat, id: nat, payload: seq<Byte>): (r: Packet) {
    Packet(true, ptype, id, Sum(payload) % MOD32, payload)
  }

  // The data packet, if any, that an accepted data packet asks for: its type and payload.
  function Wanted(p: Packet): (r: Option<(nat, seq<Byte>)>)
    ensures r.Some? ==> p.isData && KnownType(r.value.0) && |r.value.1| <= MAX_PAYLOAD
  {
    if !p.isData || |p.payload| < 8 then None
    else if p.ptype == FILE_IO then Some((FILE_IO, FileIoFailPayload(ReadLe32(p.payload, 0))))
    else if p.ptype == STATE_CHANGE64 then Some((STATE_MANIPULATE, ContinuePayload(ReadLe16(p.payload, 6))))
    else None
  }

  function Acknowledge(p: Packet): (a: Packet)
    requires WellFormed(p)
    ensures WellFormed(a)
  {
    if IsSync(p.id) then ControlPacket(RESET, 0) else ControlPacket(ACKNOWLEDGE, p.id)
  }

  // What one accepted packet does to the session and puts on the line.
  function Answer(s: Session, p: Packet): (r: Outcome)
    requires WellFormed(p) && ValidId(s.outId)
  {
    if p.isData then
      var ack := Write(ControlReply, Encode(Acknowledge(p)));
      match Wanted(p)
      case None => Outcome(s, [ack])
      case Some((ptype, payload)) =>
        var frame := Encode(DataPacket(ptype, s.outId, payload));
        Outcome(Session(FlipLowBit(s.outId), Some(frame)), [ack, Write(DataReply, frame)])
    else if p.ptype == RESEND && s.lastSent.Some? then
      Outcome(s, [Write(Resent, s.lastSent.value)])
    else if p.ptype == RESET then
      Outcome(s.(outId := INITIAL_PACKET_ID), [Write(ControlReply, Encode(ControlPacket(RESET, 0)))])
    else
      Outcome(s, [])
  }

  predicate AllWellFormed(ps: seq<Packet>) {
    forall p <- ps :: WellFormed(p)
  }

  // A whole run: the packets in the order they were accepted.
  function Run(ps: seq<Packet>): (o: Outcome)
    requires AllWellFormed(ps)
    ensures ValidId(o.session.outId)
  {
    if ps == [] then Outcome(START, [])
    else
      var before := Run(ps[..|ps| - 1]);
      var a := Answer(before.session, ps[|ps| - 1]);
      Outcome(a.session, before.wire + a.wire)
  }

  lemma RunAppend(ps: seq<Packet>, p: Packet)
    requires AllWellFormed(ps) && WellFormed(p)
    ensures AllWellFormed(ps + [p])
    ensures Run(ps + [p]) == Outcome(Answer(Run(ps).session, p).session, Run(ps).wire + Answer(Run(ps).session, p).wire)
  {
    assert (ps + [p])[..|ps|] == ps;
  }

  predicate IsReset(p: Packet) {
    !p.isData && p.ptype == RESET
  }

  // New data packets asked for since the last RESET came in.
  function WantedSinceReset(ps: seq<Packet>): (r: nat) {
    if ps == [] || IsReset(ps[|ps| - 1]) then 0
    else WantedSinceReset(ps[..|ps| - 1]) + if Wanted(ps[|ps| - 1]).Some? then 1 else 0
  }

  // Ids of new data packets alternate from the initial one, starting over at each RESET.
  lemma {:induction false} IdsAlternate(ps: seq<Packet>)
    requires AllWellFormed(ps)
    ensures Run(ps).session.outId == INITIAL_PACKET_ID + WantedSinceReset(ps) % 2
  {
    hide Encode, WellFormed, Acknowledge, Wanted;
    if ps != [] {
      IdsAlternate(ps[..|ps| - 1]);
    }
  }

  // The reply to p carries the alternating id, and the reply's fields answer p's own.
  lemma ReplyToWanted(ps: seq<Packet>, p: Packet)
    requires AllWellFormed(ps) && WellFormed(p) && Wanted(p).Some?
    ensures AllWellFormed(ps + [p])
    ensures var (ptype, payload) := Wanted(p).value;
            var reply := DataPacket(ptype, INITIAL_PACKET_ID + WantedSinceReset(ps) % 2, payload);
            && WellFormed(reply)
            && Run(ps + [p]).wire == Run(ps).wire + [Write(ControlReply, Encode(Acknowledge(p))), Write(DataReply, Encode(reply))]
            && Run(ps + [p]).session.lastSent == Some(Encode(reply))
  {
    hide Encode, Acknowledge, Wanted;
    RunAppend(ps, p);
    IdsAlternate(ps);
  }

  lemma FileIoIsRefused(p: Packet)
    requires WellFormed(p) && p.isData && p.ptype == FILE_IO && 8 <= |p.payload|
    ensures Wanted(p).Some? && Wanted(p).value.0 == FILE_IO
    ensures ReadLe32(Wanted(p).value.1, 0) == ReadLe32(p.payload, 0)
    ensures ReadLe32(Wanted(p).value.1, 4) == STATUS_NOT_IMPLEMENTED
  {
    var api, pl := ReadLe32(p.payload, 0), Wanted(p).value.1;
    assert pl[0..4] == Le32(api) && pl[4..8] == Le32(STATUS_NOT_IMPLEMENTED);
    ReadWrite32(pl, 0, api);
    ReadWrite32(pl, 4, STATUS_NOT_IMPLEMENTED);
  }

  lemma StateChangeIsContinued(p: Packet)
    requires WellFormed(p) && p.isData && p.ptype == STATE_CHANGE64 && 8 <= |p.payload|
    ensures Wanted(p).Some? && Wanted(p).value.0 == STATE_MANIPULATE
    ensures ReadLe32(Wanted(p).value.1, 0) == DBG_KD_CONTINUE_API2
    ensures ReadLe16(Wanted(p).value.1, 6) == ReadLe16(p.payload, 6)
    ensures ReadLe32(Wanted(p).value.1, 12) == DBG_CONTINUE
  {
    var processor, pl := ReadLe16(p.payload, 6), Wanted(p).value.1;
    assert pl[0..4] == Le32(DBG_KD_CONTINUE_API2) && pl[6..8] == Le16(processor) && pl[12..16] == Le32(DBG_CONTINUE);
    ReadWrite32(pl, 0, DBG_KD_CONTINUE_API2);
    ReadWrite16(pl, 6, processor);
    ReadWrite32(pl, 12, DBG_CONTINUE);
  }

  function CountKind(wire: seq<Write>, kind: Kind): (r: nat) {
    if wire == [] then 0
    else CountKind(wire[..|wire| - 1], kind) + if wire[|wire| - 1].kind == kind then 1 else 0
  }

  lemma {:induction false} CountKindAppend(a: seq<Write>, b: seq<Write>, kind: Kind)
    ensures CountKind(a + b, kind) == CountKind(a, kind) + CountKind(b, kind)
    decreases |b|
  {
    if b == [] {
      assert a + b == a;
    } else {
      assert (a + b)[..|a + b| - 1] == a + b[..|b| - 1];
      CountKindAppend(a, b[..|b| - 1], kind);
    }
  }

  // What an accepted packet is owed.
  predicate Calls(p: Packet, kind: Kind) {
    match kind
    case ControlReply => p.isData || IsReset(p)
    case DataReply => Wanted(p).Some?
    case Resent => !p.isData && p.ptype == RESEND
  }

  function CountCalls(ps: seq<Packet>, kind: Kind): (r: nat) {
    if ps == [] then 0
    else CountCalls(ps[..|ps| - 1], kind) + if Calls(ps[|ps| - 1], kind) then 1 else 0
  }

  lemma AnswerCounts(s: Session, p: Packet, kind: Kind)
    requires WellFormed(p) && ValidId(s.outId)
    ensures var n := CountKind(Answer(s, p).wire, kind); var c := if Calls(p, kind) then 1 else 0;
            n <= c && (kind != Resent ==> n == c)
  {
    hide Encode, WellFormed, Acknowledge;
    var w := Answer(s, p).wire;
    if |w| == 2 {
      assert w[..1][..0] == [] && CountKind(w[..1], kind) == if w[0].kind == kind then 1 else 0;
    }
  }

  // Over any run: one control reply per data packet and per RESET, one new data packet per packet
  // that wants one, and never more repeats than RESENDs.
  lemma {:induction false} RepliesAreCounted(ps: seq<Packet>, kind: Kind)
    requires AllWellFormed(ps)
    ensures CountKind(Run(ps).wire, kind) <= CountCalls(ps, kind)
    ensures kind != Resent ==> CountKind(Run(ps).wire, kind) == CountCalls(ps, kind)
  {
    hide Answer, Calls;
    if ps != [] {
      var before := ps[..|ps| - 1];
      RepliesAreCounted(before, kind);
      AnswerCounts(Run(before).session, ps[|ps| - 1], kind);
      CountKindAppend(Run(before).wire, Answer(Run(before).session, ps[|ps| - 1]).wire, kind);
    }
  }

  // The writes of one kind, in order.
  function OfKind(wire: seq<Write>, kind: Kind): (bs: seq<seq<Byte>>) {
    if wire == [] then []
    else
      var last := wire[|wire| - 1];
      OfKind(wire[..|wire| - 1], kind) + if last.kind == kind then [last.bytes] else []
  }

  lemma {:induction false} OfKindAppend(a: seq<Write>, b: seq<Write>, kind: Kind)
    ensures OfKind(a + b, kind) == OfKind(a, kind) + OfKind(b, kind)
    decreases |b|
  {
    if b == [] {
      assert a + b == a;
    } else {
      assert (a + b)[..|a + b| - 1] == a + b[..|b| - 1];
      OfKindAppend(a, b[..|b| - 1], kind);
    }
  }

  // What the last of these packets is owed, told from the packets alone: a RESET for a sync packet or
  // another RESET, else the acknowledgement of its own id; the data it asks for under the id that is
  // due; and the newest data packet again for a RESEND.
  function Due(ps: seq<Packet>, kind: Kind): (bs: seq<seq<Byte>>)
    requires AllWellFormed(ps) && ps != []
    decreases |ps|, 0
  {
    var before, p := ps[..|ps| - 1], ps[|ps| - 1];
    assert WellFormed(p);
    match kind
    case ControlReply =>
      if IsReset(p) || (p.isData && IsSync(p.id)) then [Encode(ControlPacket(RESET, 0))]
      else if p.isData then [Encode(ControlPacket(ACKNOWLEDGE, p.id))]
      else []
    case DataReply =>
      if Wanted(p).None? then []
      else
        var d := DataPacket(Wanted(p).value.0, INITIAL_PACKET_ID + WantedSinceReset(before) % 2, Wanted(p).value.1);
        [Encode(d)]
    case Resent =>
      var sent := Owed(before, DataReply);
      if !p.isData && p.ptype == RESEND && sent != [] then [sent[|sent| - 1]] else []
  }

  function Owed(ps: seq<Packet>, kind: Kind): (bs: seq<seq<Byte>>)
    requires AllWellFormed(ps)
    decreases |ps|, 1
  {
    if ps == [] then [] else Owed(ps[..|ps| - 1], kind) + Due(ps, kind)
  }

  // The newest data packet on the line is the last of its kind.
  lemma {:induction false} LatestIsLast(wire: seq<Write>)
    ensures var sent := OfKind(wire, DataReply); LatestData(wire) == if sent == [] then None else Some(sent[|sent| - 1])
  {
    if wire != [] {
      LatestIsLast(wire[..|wire| - 1]);
    }
  }

  // One step of a run writes just what is due, kind by kind.
  lemma AnswerIsDue(ps: seq<Packet>, kind: Kind)
    requires AllWellFormed(ps) && ps != []
    requires OfKind(Run(ps[..|ps| - 1]).wire, DataReply) == Owed(ps[..|ps| - 1], DataReply)
    ensures OfKind(Answer(Run(ps[..|ps| - 1]).session, ps[|ps| - 1]).wire, kind) == Due(ps, kind)
  {
    hide Encode, Run, Owed, Answer, OfKind, Wanted;
    var before, p := ps[..|ps| - 1], ps[|ps| - 1];
    IdsAlternate(before);
    LastSentIsLatest(before);
    LatestIsLast(Run(before).wire);
    AnswerByKind(Run(before).session, p);
  }

  // What one packet puts on the line, kind by kind.
  lemma AnswerByKind(s: Session, p: Packet)
    requires WellFormed(p) && ValidId(s.outId)
    ensures OfKind(Answer(s, p).wire, ControlReply)
         == if IsReset(p) then [Encode(ControlPacket(RESET, 0))] else if p.isData then [Encode(Acknowledge(p))] else []
    ensures OfKind(Answer(s, p).wire, DataReply)
         == if Wanted(p).None? then [] else [Encode(DataPacket(Wanted(p).value.0, s.outId, Wanted(p).value.1))]
    ensures OfKind(Answer(s, p).wire, Resent)
         == if !p.isData && p.ptype == RESEND && s.lastSent.Some? then [s.lastSent.value] else []
  {
    hide Encode, OfKind, Acknowledge;
    OfKindShort(Answer(s, p).wire, ControlReply);
    OfKindShort(Answer(s, p).wire, DataReply);
    OfKindShort(Answer(s, p).wire, Resent);
  }

  lemma OfKindShort(w: seq<Write>, kind: Kind)
    ensures |w| == 0 ==> OfKind(w, kind) == []
    ensures |w| == 1 ==> OfKind(w, kind) == if w[0].kind == kind then [w[0].bytes] else []
    ensures |w| == 2 ==> OfKind(w, kind) == (if w[0].kind == kind then [w[0].bytes] else [])
                                          + if w[1].kind == kind then [w[1].bytes] else []
  {
    if |w| == 2 {
      assert w[..1][..0] == [] && w[..1][0] == w[0];
    }
  }

  // Over any run the replies of each kind are the ordered image of the packets they answer.
  lemma {:induction false} RepliesAreTheImage(ps: seq<Packet>, kind: Kind)
    requires AllWellFormed(ps)
    ensures OfKind(Run(ps).wire, kind) == Owed(ps, kind)
    decreases |ps|
  {
    hide Answer, Due;
    if ps != [] {
      var before := ps[..|ps| - 1];
      RepliesAreTheImage(before, kind);
      RepliesAreTheImage(before, DataReply);
      AnswerIsDue(ps, kind);
      OfKindAppend(Run(before).wire, Answer(Run(before).session, ps[|ps| - 1]).wire, kind);
    }
  }

  // The bytes of the newest data packet on the line, repeats aside.
  function LatestData(wire: seq<Write>): (r: Option<seq<Byte>>) {
    if wire == [] then None
    else if wire[|wire| - 1].kind == DataReply then Some(wire[|wire| - 1].bytes)
    else LatestData(wire[..|wire| - 1])
  }

  lemma {:induction false} LatestDataAppend(a: seq<Write>, b: seq<Write>)
    ensures LatestData(a + b) == OrElse(LatestData(b), LatestData(a))
    decreases |b|
  {
    if b == [] {
      assert a + b == a;
    } else {
      assert (a + b)[..|a + b| - 1] == a + b[..|b| - 1];
      LatestDataAppend(a, b[..|b| - 1]);
    }
  }

  lemma AnswerKeepsLatest(s: Session, p: Packet)
    requires WellFormed(p) && ValidId(s.outId)
    ensures Answer(s, p).session.lastSent == OrElse(LatestData(Answer(s, p).wire), s.lastSent)
  {
    hide Encode, Acknowledge, Wanted;
  }

  lemma {:induction false} LastSentIsLatest(ps: seq<Packet>)
    requires AllWellFormed(ps)
    ensures Run(ps).session.lastSent == LatestData(Run(ps).wire)
  {
    hide Answer, WellFormed;
    if ps != [] {
      var before := Run(ps[..|ps| - 1]);
      LastSentIsLatest(ps[..|ps| - 1]);
      AnswerKeepsLatest(before.session, ps[|ps| - 1]);
      LatestDataAppend(before.wire, Answer(before.session, ps[|ps| - 1]).wire);
    }
  }

  // RESEND repeats the latest data packet byte for byte, or is ignored when there is none.
  lemma ResendRepeats(ps: seq<Packet>, p: Packet)
    requires AllWellFormed(ps) && WellFormed(p) && !p.isData && p.ptype == RESEND
    ensures AllWellFormed(ps + [p])
    ensures Run(ps + [p]).session == Run(ps).session
    ensures Run(ps + [p]).wire == Run(ps).wire + match LatestData(Run(ps).wire) case None => [] case Some(b) => [Write(Resent, b)]
  {
    RunAppend(ps, p);
    LastSentIsLatest(ps);
  }

  predicate IsFrame(b: seq<Byte>, p: Packet) {
    WellFormed(p) && b == Encode(p)
  }

  function Line(wire: seq<Write>): (r: seq<Byte>) {
    if wire == [] then [] else Line(wire[..|wire| - 1]) + wire[|wire| - 1].bytes
  }

  // A write session whose every entry is a frame is read back as those frames.
  ghost predicate Readable(wire: seq<Write>, sent: seq<Packet>) {
    && |sent| == |wire|
    && forall i :: 0 <= i < |wire| ==> IsFrame(wire[i].bytes, sent[i])
  }

  lemma NothingToParse()
    ensures Parse([]) == Parsed([], [])
  {
    assert Next([]) == Incomplete(0);
  }

  lemma {:induction false} LineParsesBack(wire: seq<Write>, sent: seq<Packet>)
    requires Readable(wire, sent)
    ensures Parse(Line(wire)) == Parsed(sent, [])
  {
    hide Encode, Parse, WellFormed;
    NothingToParse();
    if wire != [] {
      var n := |wire| - 1;
      LineParsesBack(wire[..n], sent[..n]);
      ParseResumes(Line(wire[..n]), wire[n].bytes);
      FrameParses(sent[n]);
      assert [] + wire[n].bytes == wire[n].bytes;
      assert sent == sent[..n] + [sent[n]];
    }
  }

  lemma FrameParses(p: Packet)
    requires WellFormed(p)
    ensures Parse(Encode(p)) == Parsed([p], [])
  {
    hide Encode, Next, WellFormed;
    NothingToParse();
    FrameSurvivesText([], p, []);
    assert [] + Encode(p) + [] == Encode(p);
  }

  lemma {:induction false} EveryWriteIsAFrame(ps: seq<Packet>) returns (sent: seq<Packet>, last: Option<Packet>)
    requires AllWellFormed(ps)
    ensures Readable(Run(ps).wire, sent)
    ensures Run(ps).session.lastSent.Some? <==> last.Some?
    ensures last.Some? ==> IsFrame(Run(ps).session.lastSent.value, last.value)
  {
    hide Encode, Acknowledge, Wanted, ContinuePayload, FileIoFailPayload, IsSync;
    if ps == [] {
      sent, last := [], None;
    } else {
      var p := ps[|ps| - 1];
      var before := Run(ps[..|ps| - 1]);
      sent, last := EveryWriteIsAFrame(ps[..|ps| - 1]);
      if p.isData {
        sent := sent + [Acknowledge(p)];
        match Wanted(p)
        case Some((ptype, payload)) =>
          var d := DataPacket(ptype, before.session.outId, payload);
          sent, last := sent + [d], Some(d);
        case None =>
      } else if p.ptype == RESEND && last.Some? {
        sent := sent + [last.value];
      } else if p.ptype == RESET {
        sent := sent + [ControlPacket(RESET, 0)];
      }
    }
  }

  // Whatever the peer is sent, what it puts on the line is a stream of well-formed packets that
  // parses back to exactly one packet per write.
  lemma RunIsReadable(ps: seq<Packet>) returns (sent: seq<Packet>)
    requires AllWellFormed(ps)
    ensures Readable(Run(ps).wire, sent)
    ensures Parse(Line(Run(ps).wire)) == Parsed(sent, [])
  {
    var last;
    sent, last := EveryWriteIsAFrame(ps);
    LineParsesBack(Run(ps).wire, sent);
  }

  // How often a data packet with this id and checksum was accepted since the last RESET: more than
  // once marks a retransmission.
  function TimesSeen(ps: seq<Packet>, key: (nat, nat)): (r: nat) {
    if ps == [] || IsReset(ps[|ps| - 1]) then 0
    else
      var p := ps[|ps| - 1];
      TimesSeen(ps[..|ps| - 1], key) + if p.isData && (p.id, p.checksum) == key then 1 else 0
  }
}
