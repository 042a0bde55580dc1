// The KDCOM framing of scripts/kd-listen.py: what one recursive parse of a whole byte stream
// accepts, and why a parser that sees the stream in pieces accepts the same packets.
module KdFraming {
  import opened Bytes
  import opened Wrappers

  // A packet as the wire carries it. Both leaders are four equal characters: '0' opens a data
  // packet, which a trailer byte closes, and 'i' opens a control packet.
  datatype Packet = Packet(isData: bool, ptype: nat, id: nat, checksum: nat, payload: seq<Byte>)

  datatype Parsed = Parsed(packets: seq<Packet>, rest: seq<Byte>)

  // What the bytes at the front of the buffer amount to, and how many of them are finished with.
  datatype Verdict =
    | Incomplete(drop: nat)
    | Reject(drop: nat)
    | Accept(drop: nat, packet: Packet)

  const DATA_LEADER: Byte := 0x30
  const CONTROL_LEADER: Byte := 0x69
  const TRAILER: Byte := 0xAA
  const HEADER := 16
  const MAX_PAYLOAD := 4096
  const KEEP := 16
  const TRIM_ABOVE := 65536
  const MOD32 := 0x1_0000_0000

  predicate KnownType(ptype: nat) {
    1 <= ptype <= 11
  }

  predicate LeaderAt(s: seq<Byte>, i: nat) {
    i + 4 <= |s| && s[i] == s[i + 1] == s[i + 2] == s[i + 3] && (s[i] == DATA_LEADER || s[i] == CONTROL_LEADER)
  }

  predicate Leaderless(s: seq<Byte>) {
    forall i: nat :: i < |s| ==> !LeaderAt(s, i)
  }

  function FirstLeaderFrom(s: seq<Byte>, from: nat): (r: Option<nat>)
    requires from <= |s|
    ensures r.Some? ==> from <= r.value && LeaderAt(s, r.value) && forall j: nat :: from <= j < r.value ==> !LeaderAt(s, j)
    ensures r.None? ==> forall j: nat :: from <= j ==> !LeaderAt(s, j)
    decreases |s| - from
  {
    if LeaderAt(s, from) then Some(from)
    else if from == |s| then None
    else FirstLeaderFrom(s, from + 1)
  }

  function FirstLeader(s: seq<Byte>): (r: Option<nat>)
    ensures r.None? <==> Leaderless(s)
    ensures r.Some? ==> LeaderAt(s, r.value) && forall j: nat :: j < r.value ==> !LeaderAt(s, j)
  {
    FirstLeaderFrom(s, 0)
  }

  // The bytes at a leader, before anything past the checked prefix is trusted.
  function Examine(t: seq<Byte>): (v: Verdict)
    requires LeaderAt(t, 0)
    ensures v.Incomplete? ==> v.drop == 0
    ensures !v.Incomplete? ==> 1 <= v.drop <= |t|
  {
    if |t| < HEADER then Incomplete(0)
    else
      var isData := t[0] == DATA_LEADER;
      var count := ReadLe16(t, 6);
      var need := HEADER + count + if isData then 1 else 0;
      if !KnownType(ReadLe16(t, 4)) || count > MAX_PAYLOAD then Reject(1)
      else if |t| < need then Incomplete(0)
      else
        var payload := t[HEADER..HEADER + count];
        if Sum(payload) % MOD32 != ReadLe32(t, 12) then Reject(1)
        else if isData && t[HEADER + count] != TRAILER then Reject(1)
        else Accept(need, Packet(isData, ReadLe16(t, 4), ReadLe32(t, 8), ReadLe32(t, 12), payload))
  }

  function Next(s: seq<Byte>): (v: Verdict)
    ensures v.drop <= |s|
    ensures !v.Incomplete? ==> 1 <= v.drop
  {
    match FirstLeader(s)
    case None => Incomplete(0)
    case Some(i) =>
      match Examine(s[i..])
      case Incomplete(d) => Incomplete(i + d)
      case Reject(d) => Reject(i + d)
      case Accept(d, p) => Accept(i + d, p)
  }

  // The reference: one recursive parse of everything received.
  function Parse(s: seq<Byte>): (r: Parsed)
    decreases |s|
  {
    match Next(s)
    case Incomplete(d) => Parsed([], s[d..])
    case Reject(d) => Parse(s[d..])
    case Accept(d, p) => var r := Parse(s[d..]); Parsed([p] + r.packets, r.rest)
  }

  // One turn of the parse, and no further.
  lemma ParseStep(s: seq<Byte>)
    ensures Next(s).Incomplete? ==> Parse(s) == Parsed([], s[Next(s).drop..])
    ensures Next(s).Reject? ==> Parse(s) == Parse(s[Next(s).drop..])
    ensures Next(s).Accept? ==>
              var r := Parse(s[Next(s).drop..]); Parse(s) == Parsed([Next(s).packet] + r.packets, r.rest)
  {
    hide Next;
  }

  function Shifted(v: Verdict, k: nat): (r: Verdict) {
    match v
    case Incomplete(d) => Incomplete(d + k)
    case Reject(d) => Reject(d + k)
    case Accept(d, p) => Accept(d + k, p)
  }

  lemma NextAtLeader(s: seq<Byte>, i: nat)
    requires FirstLeader(s) == Some(i)
    ensures Next(s) == Shifted(Examine(s[i..]), i)
  {
    hide Examine, FirstLeader;
  }

  lemma LeaderFromLeader(s: seq<Byte>, k: nat)
    requires FirstLeader(s).Some? && k <= FirstLeader(s).value
    ensures FirstLeader(s[k..]) == Some(FirstLeader(s).value - k)
  {
    hide FirstLeader;
    var i, t := FirstLeader(s).value, s[k..];
    assert forall j: nat :: j + k <= |s| ==> (LeaderAt(t, j) <==> LeaderAt(s, j + k));
    assert LeaderAt(t, i - k);
  }

  // Bytes in front of the first leader play no part in the verdict.
  lemma NextFromLeader(s: seq<Byte>, k: nat)
    requires FirstLeader(s).Some? && k <= FirstLeader(s).value
    ensures Next(s) == Shifted(Next(s[k..]), k)
  {
    hide Next, Examine, FirstLeader;
    var i := FirstLeader(s).value;
    LeaderFromLeader(s, k);
    NextAtLeader(s, i);
    NextAtLeader(s[k..], i - k);
    assert s[k..][i - k..] == s[i..];
  }

  lemma ParseFromLeader(s: seq<Byte>, k: nat)
    requires FirstLeader(s).Some? && k <= FirstLeader(s).value
    ensures Parse(s[k..]) == Parse(s)
  {
    hide Next, Parse, FirstLeader;
    NextFromLeader(s, k);
    ParseStep(s);
    ParseStep(s[k..]);
    var d := Next(s[k..]).drop;
    assert s[k..][d..] == s[d + k..];
  }

  lemma LeaderIsStable(s: seq<Byte>, more: seq<Byte>)
    requires FirstLeader(s).Some?
    ensures FirstLeader(s + more) == FirstLeader(s)
  {
    var i, w := FirstLeader(s).value, s + more;
    assert LeaderAt(w, i);
    assert forall j: nat :: j <= i ==> (LeaderAt(w, j) <==> LeaderAt(s, j));
  }

  lemma ReadsAreStable(t: seq<Byte>, more: seq<Byte>, at: nat)
    ensures at + 2 <= |t| ==> ReadLe16(t + more, at) == ReadLe16(t, at)
    ensures at + 4 <= |t| ==> ReadLe32(t + more, at) == ReadLe32(t, at)
  {
  }

  lemma ExamineIsStable(t: seq<Byte>, more: seq<Byte>)
    requires LeaderAt(t, 0) && !Examine(t).Incomplete?
    ensures LeaderAt(t + more, 0) && Examine(t + more) == Examine(t)
  {
    hide ReadLe16, ReadLe32, Sum, KnownType;
    ReadsAreStable(t, more, 4);
    ReadsAreStable(t, more, 6);
    ReadsAreStable(t, more, 8);
    ReadsAreStable(t, more, 12);
    var count := ReadLe16(t, 6);
    if HEADER + count <= |t| {
      assert (t + more)[HEADER..HEADER + count] == t[HEADER..HEADER + count];
    }
  }

  // More bytes behind a decided front do not change the decision.
  lemma NextIsStable(s: seq<Byte>, more: seq<Byte>)
    requires !Next(s).Incomplete?
    ensures Next(s + more) == Next(s)
  {
    hide Examine, FirstLeader;
    var i := FirstLeader(s).value;
    LeaderIsStable(s, more);
    assert (s + more)[i..] == s[i..] + more;
    ExamineIsStable(s[i..], more);
  }

  // Waiting for more bytes loses nothing but what is in front of the leader.
  lemma WaitingIsHarmless(s: seq<Byte>, more: seq<Byte>)
    requires Next(s).Incomplete?
    ensures Parse(s[Next(s).drop..] + more) == Parse(s + more)
  {
    var d := Next(s).drop;
    assert s[d..] + more == (s + more)[d..];
    if FirstLeader(s).Some? {
      LeaderIsStable(s, more);
      ParseFromLeader(s + more, d);
    } else {
      assert s[0..] == s;
    }
  }

  // Parsing may stop anywhere and go on from what it left over: the heart of incremental parsing.
  lemma {:induction false} ParseResumes(s: seq<Byte>, more: seq<Byte>)
    ensures Parse(s + more).packets == Parse(s).packets + Parse(Parse(s).rest + more).packets
    ensures Parse(s + more).rest == Parse(Parse(s).rest + more).rest
    decreases |s|
  {
    hide Next, Parse, FirstLeader;
    var d := Next(s).drop;
    ParseStep(s);
    ParseStep(s + more);
    if Next(s).Incomplete? {
      WaitingIsHarmless(s, more);
    } else {
      NextIsStable(s, more);
      ParseResumes(s[d..], more);
      assert (s + more)[d..] == s[d..] + more;
    }
  }

  // A buffer may stand in for the unparsed rest when it is that rest, or its last bytes once the
  // rest holds no leader.
  predicate Covers(rest: seq<Byte>, buffer: seq<Byte>) {
    || rest == buffer
    || (Leaderless(rest) && KEEP <= |buffer| <= |rest| && rest[|rest| - |buffer|..] == buffer)
  }

  lemma CoverIsEnough(rest: seq<Byte>, buffer: seq<Byte>, more: seq<Byte>)
    requires Covers(rest, buffer)
    ensures Parse(rest + more).packets == Parse(buffer + more).packets
    ensures Covers(Parse(rest + more).rest, Parse(buffer + more).rest)
  {
    if rest != buffer {
      var k := |rest| - |buffer|;
      var w, b := rest + more, buffer + more;
      assert b == w[k..];
      assert forall j: nat :: j < k ==> (LeaderAt(w, j) <==> LeaderAt(rest, j));
      match FirstLeader(w)
      case Some(i) =>
        assert i >= k;
        ParseFromLeader(w, k);
      case None =>
        assert forall j: nat :: LeaderAt(b, j) ==> LeaderAt(w, j + k);
        assert FirstLeader(b).None?;
        assert w[0..] == w && b[0..] == b;
    }
  }

  // Keeping the last 16 bytes of a leaderless buffer is a cover of a cover.
  lemma TrimCovers(rest: seq<Byte>, buffer: seq<Byte>)
    requires Covers(rest, buffer) && Leaderless(buffer) && KEEP <= |buffer|
    ensures Covers(rest, buffer[|buffer| - KEEP..])
  {
  }
}
