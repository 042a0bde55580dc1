// The line of scripts/kd-listen.py, byte by byte: what a run of accepted packets puts there and what
// of a stream is accepted, told in the numbers of the wire and in nothing the session is made of.
module KdLine {
  import opened Bytes
  import opened KdFraming
  import opened KdRoundTrip
  import opened KdSession
  import opened Sequences
  import opened Wrappers

  // n in k bytes, the least significant first; what does not fit is cut off.
  function Digits(n: nat, k: nat): (b: seq<Byte>)
    ensures |b| == k
  {
    if k == 0 then [] else [n % 256] + Digits(n / 256, k - 1)
  }

  function Total(s: seq<Byte>): (n: nat) {
    if s == [] then 0 else Total(s[..|s| - 1]) + s[|s| - 1]
  }

  function Control(ptype: nat, id: nat): (b: seq<Byte>) {
    [0x69, 0x69, 0x69, 0x69] + Digits(ptype, 2) + [0, 0] + Digits(id, 4) + [0, 0, 0, 0]
  }

  function Data(ptype: nat, id: nat, payload: seq<Byte>): (b: seq<Byte>) {
    [0x30, 0x30, 0x30, 0x30] + Digits(ptype, 2) + Digits(|payload|, 2) + Digits(id, 4) + Digits(Total(payload) % 0x1_0000_0000, 4) + payload + [0xAA]
  }

  // A FILE_IO request is refused under its own api number; a state change is continued on its own processor.
  function Asked(p: Packet): (r: Option<(nat, seq<Byte>)>) {
    if !p.isData || |p.payload| < 8 then None
    else if p.ptype == 11 then Some((11, p.payload[..4] + [0x02, 0x00, 0x00, 0xC0] + seq(56, _ => 0)))
    else if p.ptype == 7 then
      Some((2, [0x3C, 0x31, 0, 0, 0, 0] + p.payload[6..8] + [0, 0, 0, 0] + [0x02, 0x00, 0x01, 0x00] + seq(40, _ => 0)))
    else None
  }

  // The id the next data packet goes out under: one of two in turn, the first again after a RESET.
  function NextId(ps: seq<Packet>): (id: nat)
    ensures id == 0x80800000 || id == 0x80800001
  {
    if ps == [] then 0x80800000
    else
      var p, before := ps[|ps| - 1], NextId(ps[..|ps| - 1]);
      if !p.isData && p.ptype == 6 then 0x80800000
      else if Asked(p).Some? then 0x80800000 + 0x80800001 - before
      else before
  }

  // The data packet p is answered with, if it asks for one.
  function Answered(ps: seq<Packet>, p: Packet): (r: Option<seq<Byte>>) {
    match Asked(p)
    case Some((ptype, payload)) => Some(Data(ptype, NextId(ps), payload))
    case None => None
  }

  // The data packet sent last.
  function Newest(ps: seq<Packet>): (r: Option<seq<Byte>>) {
    if ps == [] then None
    else OrElse(Answered(ps[..|ps| - 1], ps[|ps| - 1]), Newest(ps[..|ps| - 1]))
  }

  // What p adds to the line behind a run.
  function Added(ps: seq<Packet>, p: Packet): (b: seq<Byte>) {
    if p.isData then
      (if 0x800 <= p.id % 0x1000 then Control(6, 0) else Control(4, p.id)) + OrNothing(Answered(ps, p))
    else if p.ptype == 5 then OrNothing(Newest(ps))
    else if p.ptype == 6 then Control(6, 0)
    else []
  }

  function OrNothing(b: Option<seq<Byte>>): (r: seq<Byte>) {
    if b.Some? then b.value else []
  }

  function LineOf(ps: seq<Packet>): (b: seq<Byte>) {
    if ps == [] then [] else LineOf(ps[..|ps| - 1]) + Added(ps[..|ps| - 1], ps[|ps| - 1])
  }

  lemma Le16IsDigits(n: nat)
    requires n < 0x1_0000
    ensures Le16(n) == Digits(n, 2)
  {
    assert Digits(n, 2) == [n % 256] + ([n / 256 % 256] + Digits(n / 256 / 256, 0));
  }

  lemma Le32IsDigits(n: nat)
    requires n < 0x1_0000_0000
    ensures Le32(n) == Digits(n, 4)
  {
    var low, high := n % 0x1_0000, n / 0x1_0000;
    Le16IsDigits(low);
    Le16IsDigits(high);
    assert low % 256 == n % 256 && low / 256 == n / 256 % 256 && n / 256 / 256 == high;
    assert Digits(n, 4) == [n % 256] + ([n / 256 % 256] + Digits(n / 256 / 256, 2));
    assert Digits(low, 2) == [low % 256] + ([low / 256 % 256] + Digits(low / 256 / 256, 0));
  }

  lemma {:induction false} TotalIsSum(s: seq<Byte>)
    ensures Total(s) == Sum(s)
  {
    if s != [] {
      TotalIsSum(s[..|s| - 1]);
      SumLast(s);
    }
  }

  lemma {:induction false} SumLast(s: seq<Byte>)
    requires s != []
    ensures Sum(s) == Sum(s[..|s| - 1]) + s[|s| - 1]
  {
    if |s| > 1 {
      SumLast(s[1..]);
      assert s[1..][..|s| - 2] == s[..|s| - 1][1..];
    }
  }

  // The bytes of a control packet and of a data packet.
  lemma ControlBytes(ptype: nat, id: nat)
    requires 1 <= ptype <= 11 && id < 0x1_0000_0000
    ensures WellFormed(ControlPacket(ptype, id)) && Encode(ControlPacket(ptype, id)) == Control(ptype, id)
  {
    Le16IsDigits(ptype);
    Le32IsDigits(id);
    hide Digits;
    assert Le16(0) == [0, 0] && Le32(0) == [0, 0, 0, 0];
  }

  lemma DataBytes(ptype: nat, id: nat, payload: seq<Byte>)
    requires 1 <= ptype <= 11 && id < 0x1_0000_0000 && |payload| <= 4096
    ensures WellFormed(DataPacket(ptype, id, payload)) && Encode(DataPacket(ptype, id, payload)) == Data(ptype, id, payload)
  {
    Le16IsDigits(ptype);
    Le16IsDigits(|payload|);
    Le32IsDigits(id);
    Le32IsDigits(Sum(payload) % 0x1_0000_0000);
    TotalIsSum(payload);
    hide Digits, Le16, Le32, Sum, Total;
  }

  // Fields at the start of a payload of zeros.
  lemma FieldFirst(n: nat, a: seq<Byte>)
    requires |a| <= n
    ensures Splice(Zeros(n), 0, a) == a + Zeros(n - |a|)
  {
  }

  lemma FieldNext(n: nat, a: seq<Byte>, b: seq<Byte>)
    requires |b| <= n
    ensures Splice(a + Zeros(n), |a|, b) == a + b + Zeros(n - |b|)
  {
  }

  lemma RefusalBytes(request: seq<Byte>)
    requires 8 <= |request|
    ensures FileIoFailPayload(ReadLe32(request, 0)) == request[..4] + [0x02, 0x00, 0x00, 0xC0] + Zeros(56)
  {
    hide ReadLe32, Splice, Zeros;
    WriteRead32(request, 0);
    var a := Le32(ReadLe32(request, 0)) + Le32(STATUS_NOT_IMPLEMENTED);
    assert a == request[..4] + [0x02, 0x00, 0x00, 0xC0];
    FieldFirst(FILE_IO_SIZE, a);
  }

  lemma ContinueBytes(change: seq<Byte>)
    requires 8 <= |change|
    ensures ContinuePayload(ReadLe16(change, 6))
         == [0x3C, 0x31, 0, 0, 0, 0] + change[6..8] + [0, 0, 0, 0] + [0x02, 0x00, 0x01, 0x00] + Zeros(40)
  {
    hide ReadLe16, Splice, Zeros;
    WriteRead16(change, 6);
    var a := Le32(DBG_KD_CONTINUE_API2) + Le16(0) + Le16(ReadLe16(change, 6)) + Le32(0);
    assert a == [0x3C, 0x31, 0, 0, 0, 0] + change[6..8] + [0, 0, 0, 0];
    FieldFirst(MANIPULATE_SIZE, a);
    FieldNext(MANIPULATE_SIZE - |a|, a, Le32(DBG_CONTINUE));
  }

  lemma WantedIsAsked(p: Packet)
    requires WellFormed(p)
    ensures Wanted(p) == Asked(p)
  {
    hide FileIoFailPayload, ContinuePayload, ReadLe16, ReadLe32;
    if p.isData && 8 <= |p.payload| {
      RefusalBytes(p.payload);
      ContinueBytes(p.payload);
      assert Zeros(56) == seq(56, _ => 0) && Zeros(40) == seq(40, _ => 0);
    }
  }

  lemma {:induction false} LineAppend(a: seq<Write>, b: seq<Write>)
    ensures Line(a + b) == Line(a) + Line(b)
    decreases |b|
  {
    if b == [] {
      assert a + b == a;
    } else {
      assert (a + b)[..|a + b| - 1] == a + b[..|b| - 1];
      LineAppend(a, b[..|b| - 1]);
    }
  }

  lemma LineShort(w: seq<Write>)
    ensures |w| == 0 ==> Line(w) == []
    ensures |w| == 1 ==> Line(w) == w[0].bytes
    ensures |w| == 2 ==> Line(w) == w[0].bytes + w[1].bytes
  {
    if |w| == 2 {
      assert w[..1][..0] == [] && w[..1][0] == w[0];
    }
  }

  // One accepted packet in any session.
  lemma AnswerBytes(ps: seq<Packet>, p: Packet, s: Session)
    requires WellFormed(p) && s == Session(NextId(ps), Newest(ps))
    ensures Line(Answer(s, p).wire) == Added(ps, p)
    ensures Answer(s, p).session == Session(NextId(ps + [p]), Newest(ps + [p]))
  {
    hide Encode, Wanted, Asked, Control, Data, Line, Acknowledge, NextId, Newest;
    WantedIsAsked(p);
    AcknowledgeBytes(p);
    ControlBytes(6, 0);
    LineShort(Answer(s, p).wire);
    if Wanted(p).Some? {
      DataBytes(Wanted(p).value.0, s.outId, Wanted(p).value.1);
    }
    NextAfter(ps, p);
  }

  lemma AcknowledgeBytes(p: Packet)
    requires WellFormed(p)
    ensures Encode(Acknowledge(p)) == if 0x800 <= p.id % 0x1000 then Control(6, 0) else Control(4, p.id)
  {
    hide Encode, Control;
    ControlBytes(6, 0);
    ControlBytes(4, p.id);
  }

  lemma NextAfter(ps: seq<Packet>, p: Packet)
    ensures NextId(ps + [p]) == if !p.isData && p.ptype == 6 then 0x80800000
                                else if Asked(p).Some? then FlipLowBit(NextId(ps)) else NextId(ps)
    ensures Newest(ps + [p]) == OrElse(Answered(ps, p), Newest(ps))
  {
    hide Asked, Answered;
    assert (ps + [p])[..|ps|] == ps;
  }

  // After any run, every byte on the line is the one the packets accepted call for.
  lemma {:induction false} LineIsLineOf(ps: seq<Packet>)
    requires AllWellFormed(ps)
    ensures Line(Run(ps).wire) == LineOf(ps)
    ensures Run(ps).session == Session(NextId(ps), Newest(ps))
  {
    hide Answer, Added, Answered, WellFormed;
    if ps != [] {
      var before, p := ps[..|ps| - 1], ps[|ps| - 1];
      assert before + [p] == ps;
      LineIsLineOf(before);
      AnswerBytes(before, p, Run(before).session);
      LineAppend(Run(before).wire, Answer(Run(before).session, p).wire);
    }
  }

  // The control reply to each data packet: RESET for an id with bit 11 set, else its acknowledgement.
  lemma SyncIsReset(ps: seq<Packet>, p: Packet)
    requires AllWellFormed(ps) && WellFormed(p) && p.isData
    ensures AllWellFormed(ps + [p])
    ensures OfKind(Run(ps + [p]).wire, ControlReply) == OfKind(Run(ps).wire, ControlReply)
              + [Encode(if 0x800 <= p.id % 0x1000 then ControlPacket(RESET, 0) else ControlPacket(ACKNOWLEDGE, p.id))]
  {
    hide Encode, OfKind, Answer, Wanted, Run;
    RunAppend(ps, p);
    OfKindAppend(Run(ps).wire, Answer(Run(ps).session, p).wire, ControlReply);
    AnswerByKind(Run(ps).session, p);
  }

  // The places where a data packet with this id and checksum came in, with no RESET behind them.
  ghost function Places(ps: seq<Packet>, key: (nat, nat)): (r: set<nat>) {
    set i: nat | i < |ps| && IsAt(ps, key, i)
  }

  ghost predicate IsAt(ps: seq<Packet>, key: (nat, nat), i: nat)
    requires i < |ps|
  {
    && ps[i].isData && ps[i].id == key.0 && ps[i].checksum == key.1
    && forall j :: i < j < |ps| ==> ps[j].isData || ps[j].ptype != 6
  }

  lemma {:induction false} TimesSeenCounts(ps: seq<Packet>, key: (nat, nat))
    ensures TimesSeen(ps, key) == |Places(ps, key)|
  {
    if ps == [] {
      assert Places(ps, key) == {};
    } else {
      var n: nat := |ps| - 1;
      TimesSeenCounts(ps[..n], key);
      PlacesNext(ps[..n], ps[n], key);
      assert ps[..n] + [ps[n]] == ps;
    }
  }

  lemma PlacesNext(ps: seq<Packet>, p: Packet, key: (nat, nat))
    ensures !p.isData && p.ptype == 6 ==> Places(ps + [p], key) == {}
    ensures p.isData || p.ptype != 6 ==>
              Places(ps + [p], key) == Places(ps, key) + if p.isData && p.id == key.0 && p.checksum == key.1 then {|ps| as nat} else {}
  {
    hide IsAt;
    var all := ps + [p];
    forall i: nat | i < |ps| ensures IsAt(all, key, i) <==> IsAt(ps, key, i) && (p.isData || p.ptype != 6) {
      IsAtNext(ps, p, key, i);
    }
    LastIsAt(all, key);
  }

  lemma IsAtNext(ps: seq<Packet>, p: Packet, key: (nat, nat), i: nat)
    requires i < |ps|
    ensures IsAt(ps + [p], key, i) <==> IsAt(ps, key, i) && (p.isData || p.ptype != 6)
  {
    var all := ps + [p];
    assert all[|ps|] == p && forall j :: 0 <= j < |ps| ==> all[j] == ps[j];
  }

  lemma LastIsAt(ps: seq<Packet>, key: (nat, nat))
    requires ps != []
    ensures var p := ps[|ps| - 1]; IsAt(ps, key, |ps| - 1) <==> p.isData && p.id == key.0 && p.checksum == key.1
  {
  }

  // ---- What is accepted ----

  // Bytes read back as a number.
  function Number(b: seq<Byte>): (n: nat) {
    if b == [] then 0 else b[0] + 0x100 * Number(b[1..])
  }

  lemma NumberRead(s: seq<Byte>, at: nat)
    requires at + 2 <= |s|
    ensures Number(s[at..at + 2]) == ReadLe16(s, at)
    ensures at + 4 <= |s| ==> Number(s[at..at + 4]) == ReadLe32(s, at)
  {
    NumberOfTwo(s[at..at + 2]);
    if at + 4 <= |s| {
      var b := s[at..at + 4];
      NumberOfTwo(b[2..]);
      assert b[1..][1..] == b[2..];
    }
  }

  lemma NumberOfTwo(b: seq<Byte>)
    requires |b| == 2
    ensures Number(b) == b[0] as nat + 0x100 * b[1] as nat
  {
    assert b[1..][1..] == [] && Number(b[1..]) == b[1..][0] as nat + 0x100 * Number([]);
  }

  // The bytes at a leader of four zeros or of four i's are stepped over by one when the type or the
  // length is out of range, waited for while there are too few of them, and then taken for a packet
  // when the checksum and, behind data, the trailer are right.
  lemma TakenExactlyWhen(t: seq<Byte>)
    requires 16 <= |t| && (t[..4] == [0x30, 0x30, 0x30, 0x30] || t[..4] == [0x69, 0x69, 0x69, 0x69])
    ensures LeaderAt(t, 0)
    ensures var ptype, n, id, sum := Number(t[4..6]), Number(t[6..8]), Number(t[8..12]), Number(t[12..16]);
            var need := if t[0] == 0x30 then 17 + n else 16 + n;
            if !(1 <= ptype <= 11 && n <= 4096) then Examine(t) == Reject(1)
            else if |t| < need then Examine(t) == Incomplete(0)
            else if Total(t[16..16 + n]) % 0x1_0000_0000 == sum && (t[0] == 0x30 ==> t[16 + n] == 0xAA)
            then Examine(t) == Accept(need, Packet(t[0] == 0x30, ptype, id, sum, t[16..16 + n]))
            else Examine(t) == Reject(1)
  {
    hide Sum, Total, Number, ReadLe16, ReadLe32;
    assert t[0] == t[..4][0] && t[1] == t[..4][1] && t[2] == t[..4][2] && t[3] == t[..4][3];
    NumberRead(t, 4);
    NumberRead(t, 6);
    NumberRead(t, 8);
    NumberRead(t, 12);
    var n := Number(t[6..8]);
    if 16 + n <= |t| {
      TotalIsSum(t[16..16 + n]);
    }
  }
}
