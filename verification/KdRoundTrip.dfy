// Writing packets and parsing them back: well-formed frames survive any console text around them,
// and everything the parser accepts is such a frame.
module KdRoundTrip {
  import opened Bytes
  import opened KdFraming
  import opened Wrappers

  // Console text that holds no leader of its own, then a frame.
  datatype Segment = Segment(text: seq<Byte>, packet: Packet)

  predicate WellFormed(p: Packet) {
    KnownType(p.ptype) && |p.payload| <= MAX_PAYLOAD && p.id < MOD32 && p.checksum == Sum(p.payload) % MOD32
  }

  function Leader(p: Packet): (r: Byte) {
    if p.isData then DATA_LEADER else CONTROL_LEADER
  }

  function Header(p: Packet): (h: seq<Byte>)
    requires WellFormed(p)
    ensures |h| == HEADER
  {
    [Leader(p), Leader(p), Leader(p), Leader(p)] + Le16(p.ptype) + Le16(|p.payload|) + Le32(p.id) + Le32(p.checksum)
  }

  function Encode(p: Packet): (e: seq<Byte>)
    requires WellFormed(p)
    ensures |e| == HEADER + |p.payload| + if p.isData then 1 else 0
  {
    Header(p) + p.payload + if p.isData then [TRAILER] else []
  }

  lemma HeaderFields(p: Packet, t: seq<Byte>)
    requires WellFormed(p) && HEADER <= |t| && t[..HEADER] == Header(p)
    ensures LeaderAt(t, 0) && t[0] == Leader(p)
    ensures ReadLe16(t, 4) == p.ptype && ReadLe16(t, 6) == |p.payload|
    ensures ReadLe32(t, 8) == p.id && ReadLe32(t, 12) == p.checksum
  {
    var h := Header(p);
    forall i | 0 <= i < HEADER ensures t[i] == h[i] {
      assert t[i] == t[..HEADER][i];
    }
    assert t[4..6] == h[4..6] == Le16(p.ptype);
    assert t[6..8] == h[6..8] == Le16(|p.payload|);
    assert t[8..12] == h[8..12] == Le32(p.id);
    assert t[12..16] == h[12..16] == Le32(p.checksum);
    ReadWrite16(t, 4, p.ptype);
    ReadWrite16(t, 6, |p.payload|);
    ReadWrite32(t, 8, p.id);
    ReadWrite32(t, 12, p.checksum);
  }

  lemma ExamineEncoded(p: Packet, more: seq<Byte>)
    requires WellFormed(p)
    ensures LeaderAt(Encode(p) + more, 0)
    ensures Examine(Encode(p) + more) == Accept(|Encode(p)|, p)
  {
    var t := Encode(p) + more;
    assert t[..HEADER] == Header(p);
    HeaderFields(p, t);
    assert t[HEADER..HEADER + |p.payload|] == p.payload;
    if p.isData {
      assert t[HEADER + |p.payload|] == Encode(p)[HEADER + |p.payload|];
    }
  }

  // What the parser accepts is byte for byte a well-formed frame.
  lemma AcceptedWasEncoded(t: seq<Byte>)
    requires LeaderAt(t, 0) && Examine(t).Accept?
    ensures WellFormed(Examine(t).packet)
    ensures t[..Examine(t).drop] == Encode(Examine(t).packet)
  {
    hide Le16, Le32, ReadLe16, ReadLe32, Sum, Header;
    var p, d := Examine(t).packet, Examine(t).drop;
    HeaderWasWritten(t);
    assert t[..d] == t[..HEADER] + p.payload + t[HEADER + |p.payload|..d];
  }

  lemma HeaderWasWritten(t: seq<Byte>)
    requires LeaderAt(t, 0) && Examine(t).Accept?
    ensures WellFormed(Examine(t).packet) && t[..HEADER] == Header(Examine(t).packet)
  {
    var p := Examine(t).packet;
    WriteRead16(t, 4);
    WriteRead16(t, 6);
    WriteRead32(t, 8);
    WriteRead32(t, 12);
    hide Le16, Le32, ReadLe16, ReadLe32, Sum;
    assert t[..HEADER] == t[..4] + t[4..6] + t[6..8] + t[8..12] + t[12..16];
    assert t[..4] == [Leader(p), Leader(p), Leader(p), Leader(p)];
  }

  // A match that starts in the text shares its last characters with the frame's leader, so the
  // type it reads is no packet type and the parser moves on by one byte.
  lemma EarlyMatchIsRejected(text: seq<Byte>, p: Packet, more: seq<Byte>, i: nat)
    requires Leaderless(text) && WellFormed(p) && i < |text| && LeaderAt(text + Encode(p) + more, i)
    ensures Examine((text + Encode(p) + more)[i..]) == Reject(1)
  {
    var e, s := Encode(p), text + Encode(p) + more;
    var t, k := s[i..], |text| - i;
    assert e[..HEADER] == Header(p);
    HeaderFields(p, e);
    assert forall j: nat :: |text| <= j < |text| + |e| ==> s[j] == e[j - |text|];
    assert forall j: nat :: j + 4 <= |text| ==> (LeaderAt(s, j) <==> LeaderAt(text, j));
    assert k < 4;
    assert t[4] == s[|text| + (4 - k)] == e[4 - k] == Leader(p);
    assert ReadLe16(t, 4) >= 0x30;
  }

  lemma LeaderInFrame(text: seq<Byte>, p: Packet, more: seq<Byte>) returns (i: nat)
    requires WellFormed(p)
    ensures FirstLeader(text + Encode(p) + more) == Some(i) && i <= |text|
  {
    var n, e, s := |text|, Encode(p), text + Encode(p) + more;
    ExamineEncoded(p, more);
    assert LeaderAt(s, n) by {
      assert forall j: nat :: j < |e| ==> s[n + j] == (e + more)[j];
    }
    i := FirstLeader(s).value;
  }

  lemma LeaderlessTail(text: seq<Byte>, i: nat)
    requires Leaderless(text) && i <= |text|
    ensures Leaderless(text[i..])
  {
    assert forall j: nat :: LeaderAt(text[i..], j) ==> LeaderAt(text, j + i);
  }

  lemma {:induction false} FrameSurvivesText(text: seq<Byte>, p: Packet, more: seq<Byte>)
    requires Leaderless(text) && WellFormed(p)
    ensures Parse(text + Encode(p) + more) == Parsed([p] + Parse(more).packets, Parse(more).rest)
    decreases |text|
  {
    hide Examine, Encode, FirstLeader, Parse, Next, WellFormed, Leaderless, LeaderAt;
    var n, e, s := |text|, Encode(p), text + Encode(p) + more;
    ExamineEncoded(p, more);
    var i := LeaderInFrame(text, p, more);
    NextAtLeader(s, i);
    ParseStep(s);
    if i < n {
      EarlyMatchIsRejected(text, p, more, i);
      var rest := text[i + 1..];
      LeaderlessTail(text, i + 1);
      assert s[i + 1..] == rest + e + more;
      FrameSurvivesText(rest, p, more);
    } else {
      assert s[n..] == e + more;
      assert s[n + |e|..] == more;
    }
  }

  predicate Sendable(segments: seq<Segment>) {
    forall g <- segments :: Leaderless(g.text) && WellFormed(g.packet)
  }

  function Weave(segments: seq<Segment>, tail: seq<Byte>): (r: seq<Byte>)
    requires forall g <- segments :: WellFormed(g.packet)
  {
    if segments == [] then tail
    else segments[0].text + Encode(segments[0].packet) + Weave(segments[1..], tail)
  }

  function PacketsOf(segments: seq<Segment>): (ps: seq<Packet>)
    ensures |ps| == |segments|
  {
    seq(|segments|, i requires 0 <= i < |segments| => segments[i].packet)
  }

  // Frames interleaved with console text parse back to exactly those frames.
  lemma {:induction false} RoundTrip(segments: seq<Segment>, tail: seq<Byte>)
    requires Sendable(segments) && Leaderless(tail)
    ensures Parse(Weave(segments, tail)) == Parsed(PacketsOf(segments), tail)
  {
    hide Parse, Encode;
    if segments == [] {
      ParseStep(tail);
      assert tail[0..] == tail;
    } else {
      FrameSurvivesText(segments[0].text, segments[0].packet, Weave(segments[1..], tail));
      RoundTrip(segments[1..], tail);
      assert PacketsOf(segments) == [segments[0].packet] + PacketsOf(segments[1..]);
    }
  }

  lemma WeaveCons(g: Segment, segments: seq<Segment>, tail: seq<Byte>)
    requires WellFormed(g.packet) && forall h <- segments :: WellFormed(h.packet)
    ensures Weave([g] + segments, tail) == g.text + Encode(g.packet) + Weave(segments, tail)
    ensures PacketsOf([g] + segments) == [g.packet] + PacketsOf(segments)
  {
    hide Encode;
    assert ([g] + segments)[1..] == segments;
  }

  // Bytes put in front of a woven stream go into its first text.
  lemma WeaveBehind(front: seq<Byte>, segments: seq<Segment>, skipped: seq<Byte>, rest: seq<Byte>)
    returns (segments': seq<Segment>, skipped': seq<Byte>)
    requires forall g <- segments :: WellFormed(g.packet)
    ensures forall g <- segments' :: WellFormed(g.packet)
    ensures PacketsOf(segments') == PacketsOf(segments)
    ensures Weave(segments', skipped' + rest) == front + Weave(segments, skipped + rest)
  {
    hide Encode;
    if segments == [] {
      segments', skipped' := [], front + skipped;
      assert skipped' + rest == front + (skipped + rest);
    } else {
      var g := segments[0];
      var g' := Segment(front + g.text, g.packet);
      segments', skipped' := [g'] + segments[1..], skipped;
      WeaveCons(g', segments[1..], skipped + rest);
      assert segments == [g] + segments[1..];
      WeaveCons(g, segments[1..], skipped + rest);
    }
  }

  // Nothing is invented: whatever the bytes, the accepted packets are well-formed frames standing
  // in the stream one after the other, with only stepped-over bytes between them.
  lemma {:induction false} AcceptedAreInTheStream(s: seq<Byte>) returns (segments: seq<Segment>, skipped: seq<Byte>)
    ensures forall g <- segments :: WellFormed(g.packet)
    ensures PacketsOf(segments) == Parse(s).packets
    ensures Weave(segments, skipped + Parse(s).rest) == s
    decreases |s|
  {
    hide Next, Encode, Parse;
    var v := Next(s);
    ParseStep(s);
    if v.Incomplete? {
      segments, skipped := [], s[..v.drop];
    } else {
      segments, skipped := AcceptedAreInTheStream(s[v.drop..]);
      if v.Accept? {
        var g := AcceptedSegment(s);
        WeaveCons(g, segments, skipped + Parse(s).rest);
        segments := [g] + segments;
      } else {
        segments, skipped := WeaveBehind(s[..v.drop], segments, skipped, Parse(s).rest);
        assert s == s[..v.drop] + s[v.drop..];
      }
    }
  }

  lemma AcceptedSegment(s: seq<Byte>) returns (g: Segment)
    requires Next(s).Accept?
    ensures g.packet == Next(s).packet && WellFormed(g.packet)
    ensures g.text + Encode(g.packet) + s[Next(s).drop..] == s
  {
    hide Encode, Examine;
    var i, d := FirstLeader(s).value, Next(s).drop;
    AcceptedWasEncoded(s[i..]);
    g := Segment(s[..i], Next(s).packet);
    assert s[i..][..d - i] == s[i..d];
    assert s == s[..i] + s[i..d] + s[d..];
  }
}
