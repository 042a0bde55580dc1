// The running peer of scripts/kd-listen.py: module globals mutated by a read loop around an
// incremental parser. Console output is not kept; what goes on the line is.
module KdPeer {
  import opened Bytes
  import opened KdFraming
  import opened KdLine
  import opened KdRoundTrip
  import opened KdSession
  import opened Sequences
  import opened Wrappers

  // bytearray.find for a leader, four equal bytes.
  method FindLeader(s: seq<Byte>, c: Byte) returns (i: int)
    requires c == DATA_LEADER || c == CONTROL_LEADER
    ensures i == -1 ==> forall j: nat :: LeaderAt(s, j) ==> s[j] != c
    ensures i != -1 ==> 0 <= i < |s| && LeaderAt(s, i) && s[i] == c && forall j: nat :: j < i && LeaderAt(s, j) ==> s[j] != c
  {
    i := 0;
    while i + 4 <= |s|
      invariant 0 <= i <= |s|
      invariant forall j: nat :: j < i && LeaderAt(s, j) ==> s[j] != c
    {
      if s[i] == c && s[i + 1] == c && s[i + 2] == c && s[i + 3] == c {
        return;
      }
      i := i + 1;
    }
    i := -1;
  }

  class Peer {
    var buf: seq<Byte>
    var outId: nat
    var lastSent: Option<seq<Byte>>
    var seen: map<(nat, nat), nat>
    var wire: seq<Write>
    ghost var received: seq<Byte>
    ghost var accepted: seq<Packet>

    // The session globals are those of the run of accepted packets, and the line carries its replies.
    ghost predicate InSession()
      reads this`outId, this`lastSent, this`seen, this`wire, this`accepted
    {
      && AllWellFormed(accepted)
      && Run(accepted) == Outcome(Session(outId, lastSent), wire)
      && forall key :: (if key in seen then seen[key] else 0) == TimesSeen(accepted, key)
    }

    // The buffer still holds everything that matters of what was received and not yet accepted.
    ghost predicate Tracks()
      reads this
    {
      && Parse(received).packets == accepted + Parse(buf).packets
      && Covers(Parse(received).rest, Parse(buf).rest)
    }

    ghost predicate Settled()
      reads this
    {
      && Parse(received).packets == accepted
      && Covers(Parse(received).rest, buf)
    }

    ghost predicate Valid()
      reads this
    {
      InSession() && Settled()
    }

    constructor ()
      ensures Valid() && received == [] && wire == []
    {
      buf, outId, lastSent, seen, wire := [], INITIAL_PACKET_ID, None, map[], [];
      received, accepted := [], [];
      new;
      NothingToParse();
    }

    method SendCtrl(ptype: nat, id: nat)
      requires KnownType(ptype) && id < MOD32
      modifies this`wire
      ensures wire == old(wire) + [Write(ControlReply, Encode(ControlPacket(ptype, id)))]
    {
      var packet := [CONTROL_LEADER, CONTROL_LEADER, CONTROL_LEADER, CONTROL_LEADER] + (Le16(ptype) + Le16(0) + Le32(id) + Le32(0));
      assert packet == Encode(ControlPacket(ptype, id));
      wire := wire + [Write(ControlReply, packet)];
    }

    method SendData(ptype: nat, payload: seq<Byte>)
      requires KnownType(ptype) && |payload| <= MAX_PAYLOAD && ValidId(outId)
      modifies this`wire, this`outId, this`lastSent
      ensures var frame := Encode(DataPacket(ptype, old(outId), payload));
              && wire == old(wire) + [Write(DataReply, frame)]
              && lastSent == Some(frame)
      ensures outId == FlipLowBit(old(outId))
    {
      var csum := Sum(payload) % MOD32;
      var hdr := [DATA_LEADER, DATA_LEADER, DATA_LEADER, DATA_LEADER] + (Le16(ptype) + Le16(|payload|) + Le32(outId) + Le32(csum));
      assert hdr == Header(DataPacket(ptype, outId, payload));
      var frame := hdr + payload + [TRAILER];
      lastSent := Some(frame);
      wire := wire + [Write(DataReply, frame)];
      outId := FlipLowBit(outId);
    }

    method SendContinue(processor: nat)
      requires processor < 0x1_0000 && ValidId(outId)
      modifies this`wire, this`outId, this`lastSent
      ensures var frame := Encode(DataPacket(STATE_MANIPULATE, old(outId), ContinuePayload(processor)));
              wire == old(wire) + [Write(DataReply, frame)] && lastSent == Some(frame)
      ensures outId == FlipLowBit(old(outId))
    {
      var pl := Zeros(MANIPULATE_SIZE);
      pl := Splice(pl, 0, Le32(DBG_KD_CONTINUE_API2) + Le16(0) + Le16(processor) + Le32(0));
      pl := Splice(pl, 12, Le32(DBG_CONTINUE));
      SendData(STATE_MANIPULATE, pl);
    }

    method SendFileIoFail(api: nat)
      requires api < MOD32 && ValidId(outId)
      modifies this`wire, this`outId, this`lastSent
      ensures var frame := Encode(DataPacket(FILE_IO, old(outId), FileIoFailPayload(api)));
              wire == old(wire) + [Write(DataReply, frame)] && lastSent == Some(frame)
      ensures outId == FlipLowBit(old(outId))
    {
      var pl := Zeros(FILE_IO_SIZE);
      pl := Splice(pl, 0, Le32(api) + Le32(STATUS_NOT_IMPLEMENTED));
      SendData(FILE_IO, pl);
    }

    // The handling of one accepted packet.
    method Handle(p: Packet)
      requires WellFormed(p) && InSession()
      modifies this`outId, this`lastSent, this`seen, this`wire, this`accepted
      ensures InSession() && accepted == old(accepted) + [p] && old(wire) <= wire
    {
      hide Answer, WellFormed;
      RunAppend(accepted, p);
      if p.isData {
        HandleData(p);
      } else {
        HandleControl(p);
      }
      SeenFollows(old(accepted), p, old(seen), seen);
      accepted := accepted + [p];
    }

    // seen after p is what seen before p and the rule of retransmissions make it.
    static predicate SeenStep(p: Packet, before: map<(nat, nat), nat>, after: map<(nat, nat), nat>) {
      if p.isData then
        var key := (p.id, p.checksum);
        after == before[key := (if key in before then before[key] else 0) + 1]
      else after == if p.ptype == RESET then map[] else before
    }

    static lemma SeenFollows(ps: seq<Packet>, p: Packet, before: map<(nat, nat), nat>, after: map<(nat, nat), nat>)
      requires SeenStep(p, before, after)
      requires forall key :: (if key in before then before[key] else 0) == TimesSeen(ps, key)
      ensures forall key :: (if key in after then after[key] else 0) == TimesSeen(ps + [p], key)
    {
      assert (ps + [p])[..|ps|] == ps;
    }

    method HandleData(p: Packet)
      requires WellFormed(p) && p.isData && ValidId(outId)
      modifies this`outId, this`lastSent, this`seen, this`wire
      ensures SeenStep(p, old(seen), seen)
      ensures var a := Answer(Session(old(outId), old(lastSent)), p);
              Session(outId, lastSent) == a.session && wire == old(wire) + a.wire
    {
      hide Encode, ContinuePayload, FileIoFailPayload;
      var key := (p.id, p.checksum);
      var n := (if key in seen then seen[key] else 0) + 1;
      seen := seen[key := n];
      if IsSync(p.id) {
        SendCtrl(RESET, 0);
      } else {
        SendCtrl(ACKNOWLEDGE, p.id);
      }
      if p.ptype == DEBUG_IO && |p.payload| >= 16 {
        if ReadLe32(p.payload, 0) == DBG_KD_PRINT_STRING_API {
          return;
        }
      }
      if p.ptype == FILE_IO && |p.payload| >= 8 {
        SendFileIoFail(ReadLe32(p.payload, 0));
        return;
      }
      if p.ptype == STATE_CHANGE64 && |p.payload| >= 8 {
        SendContinue(ReadLe16(p.payload, 6));
      }
    }

    method HandleControl(p: Packet)
      requires WellFormed(p) && !p.isData && ValidId(outId)
      modifies this`outId, this`lastSent, this`seen, this`wire
      ensures SeenStep(p, old(seen), seen)
      ensures var a := Answer(Session(old(outId), old(lastSent)), p);
              Session(outId, lastSent) == a.session && wire == old(wire) + a.wire
    {
      if p.ptype == RESEND && lastSent.Some? {
        wire := wire + [Write(Resent, lastSent.value)];
      } else if p.ptype == RESET {
        outId := INITIAL_PACKET_ID;
        seen := map[];
        SendCtrl(RESET, 0);
      }
    }

    // One turn of the framing loop: stop and wait for more bytes, or shorten the buffer.
    method Turn() returns (go: bool)
      requires InSession() && Tracks()
      modifies this`buf, this`outId, this`lastSent, this`seen, this`wire, this`accepted
      ensures InSession() && old(wire) <= wire
      ensures go ==> Tracks() && |buf| < |old(buf)|
      ensures !go ==> Settled() && |buf| <= |old(buf)|
    {
      hide InSession, Parse, Covers, FirstLeader, Leaderless, LeaderAt;
      var iD := FindLeader(buf, DATA_LEADER);
      var iC := FindLeader(buf, CONTROL_LEADER);
      LeaderChoice(buf, iD, iC);
      if iD < 0 && iC < 0 {
        WaitForMore(buf);
        assert Parse(received).packets + [] == Parse(received).packets;
        if |buf| > TRIM_ABOVE {
          TrimCovers(Parse(received).rest, buf);
          buf := buf[|buf| - KEEP..];
        }
        return false;
      }
      var i := if iD < 0 then iC else if iC < 0 then iD else if iC < iD then iC else iD;
      ParseFromLeader(buf, i);
      AtLeader(buf, i);
      if i > 0 {
        buf := buf[i..];
      }
      go := TurnAtLeader();
    }

    // The nearer leader of either kind is the first one.
    static lemma LeaderChoice(s: seq<Byte>, iD: int, iC: int)
      requires iD == -1 ==> forall j: nat :: LeaderAt(s, j) ==> s[j] != DATA_LEADER
      requires iD != -1 ==> 0 <= iD < |s| && LeaderAt(s, iD) && forall j: nat :: j < iD && LeaderAt(s, j) ==> s[j] != DATA_LEADER
      requires iC == -1 ==> forall j: nat :: LeaderAt(s, j) ==> s[j] != CONTROL_LEADER
      requires iC != -1 ==> 0 <= iC < |s| && LeaderAt(s, iC) && forall j: nat :: j < iC && LeaderAt(s, j) ==> s[j] != CONTROL_LEADER
      ensures iD < 0 && iC < 0 ==> FirstLeader(s) == None && Leaderless(s)
      ensures !(iD < 0 && iC < 0) ==>
                FirstLeader(s) == Some(if iD < 0 then iC else if iC < 0 then iD else if iC < iD then iC else iD)
    {
      hide FirstLeader;
    }

    static lemma WaitForMore(s: seq<Byte>)
      requires FirstLeader(s).None?
      ensures Parse(s) == Parsed([], s)
    {
      ParseStep(s);
      assert s[0..] == s;
    }

    static lemma AtLeader(s: seq<Byte>, i: nat)
      requires FirstLeader(s) == Some(i)
      ensures FirstLeader(s[i..]) == Some(0)
    {
      assert LeaderAt(s[i..], 0);
    }

    method TurnAtLeader() returns (go: bool)
      requires InSession() && Tracks() && FirstLeader(buf) == Some(0)
      modifies this`buf, this`outId, this`lastSent, this`seen, this`wire, this`accepted
      ensures InSession() && old(wire) <= wire
      ensures go ==> Tracks() && |buf| < |old(buf)|
      ensures !go ==> Settled() && |buf| <= |old(buf)|
    {
      hide InSession, Tracks, Settled, FirstLeader, ReadLe16, ReadLe32, Sum;
      if |buf| < HEADER {
        Waits();
        return false;
      }
      var isData := buf[0] == DATA_LEADER;
      var ptype, count, id, csum := ReadLe16(buf, 4), ReadLe16(buf, 6), ReadLe32(buf, 8), ReadLe32(buf, 12);
      var need := HEADER + count + if isData then 1 else 0;
      if !KnownType(ptype) || count > MAX_PAYLOAD {
        StepOver();
        return true;
      }
      if |buf| < need {
        Waits();
        return false;
      }
      var payload := buf[HEADER..HEADER + count];
      if Sum(payload) % MOD32 != csum {
        StepOver();
        return true;
      }
      if isData && buf[HEADER + count] != TRAILER {
        StepOver();
        return true;
      }
      Take(Packet(isData, ptype, id, csum, payload), need);
      go := true;
    }

    lemma Waits()
      requires Tracks() && FirstLeader(buf) == Some(0) && Examine(buf) == Incomplete(0)
      ensures Settled()
    {
      hide Covers, Examine, Parse, Next, FirstLeader, LeaderAt;
      NextAtLeader(buf, 0);
      assert buf[0..] == buf;
      ParseStep(buf);
      assert Parse(received).packets + [] == Parse(received).packets;
    }

    // One byte of a false leader goes.
    method StepOver()
      requires Tracks() && FirstLeader(buf) == Some(0) && Examine(buf) == Reject(1)
      modifies this`buf
      ensures Tracks() && |buf| < |old(buf)|
    {
      hide Covers, Examine, Parse, Next, FirstLeader, LeaderAt;
      NextAtLeader(buf, 0);
      assert buf[0..] == buf;
      ParseStep(buf);
      buf := buf[1..];
    }

    // The packet at the front of the buffer leaves it and is handled.
    method Take(p: Packet, need: nat)
      requires InSession() && Tracks() && FirstLeader(buf) == Some(0) && Examine(buf) == Accept(need, p)
      modifies this`buf, this`outId, this`lastSent, this`seen, this`wire, this`accepted
      ensures InSession() && old(wire) <= wire && Tracks() && |buf| < |old(buf)|
    {
      hide InSession, Covers, Encode, Examine, Parse, Next, FirstLeader, LeaderAt;
      NextAtLeader(buf, 0);
      assert buf[0..] == buf;
      ParseStep(buf);
      AcceptedWasEncoded(buf);
      buf := buf[need..];
      Handle(p);
    }

    // One read: the chunk joins the buffer and the framing loop runs until it has to wait.
    method Feed(chunk: seq<Byte>)
      requires Valid()
      modifies this
      ensures Valid()
      ensures received == old(received) + chunk
      ensures wire == Run(Parse(received).packets).wire
      ensures old(wire) <= wire
    {
      hide Parse, Run, WellFormed;
      buf := buf + chunk;
      ParseResumes(received, chunk);
      CoverIsEnough(Parse(received).rest, old(buf), chunk);
      received := received + chunk;
      var go := true;
      while go
        invariant InSession()
        invariant if go then Tracks() else Settled()
        invariant received == old(received) + chunk
        invariant old(wire) <= wire
        decreases |buf| + if go then 1 else 0
      {
        go := Turn();
      }
    }
  }

  function Concat(chunks: seq<seq<Byte>>): (r: seq<Byte>) {
    if chunks == [] then [] else chunks[0] + Concat(chunks[1..])
  }

  // However the stream is cut into reads, the line ends up carrying the replies to one parse of it,
  // byte for byte.
  method Listen(chunks: seq<seq<Byte>>) returns (wire: seq<Write>)
    ensures AllWellFormed(Parse(Concat(chunks)).packets)
    ensures wire == Run(Parse(Concat(chunks)).packets).wire
    ensures Line(wire) == LineOf(Parse(Concat(chunks)).packets)
  {
    hide Parse, Run, WellFormed, Line, LineOf;
    var peer := new Peer();
    var rest := chunks;
    while rest != []
      invariant peer.Valid() && fresh(peer)
      invariant peer.received + Concat(rest) == Concat(chunks)
      decreases |rest|
    {
      peer.Feed(rest[0]);
      rest := rest[1..];
    }
    assert peer.received + [] == peer.received;
    wire := peer.wire;
    LineIsLineOf(Parse(Concat(chunks)).packets);
  }
}
