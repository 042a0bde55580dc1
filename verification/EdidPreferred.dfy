// Choosing a preferred display mode, as the four strategies of Edid.c do it on a connector's state.
module EdidPreferred {
  import opened Bytes
  import opened DisplayModes
  import opened EdidCea
  import opened EdidOffers
  import opened EdidTiming
  import opened Wrappers

  ghost predicate Updated(before: DisplayMode, after: DisplayMode, found: bool, p: Option<DisplayMode>) {
    found == p.Some? && after == if p.Some? then p.value else before
  }

  // What the source keeps of a hit: the mode, and whether its code was marked native.
  ghost predicate Holds(h: Option<Hit>, m: Option<DisplayMode>, native: bool) {
    m == ModeOf(h) && (h.Some? ==> native == IsNative(h.value))
  }

  lemma NothingFound(table: seq<DisplayMode>, k: Sink)
    ensures Search(table, k, VideoOffers([])) == None && Search(table, k, HdmiOffers([])) == None
  {
  }

  // A block is never both a video block and a vendor block.
  lemma NotBoth(d: seq<Byte>)
    requires IsDataBlock(d)
    ensures IsVideo(d) ==> !IsHdmiVsdb(d)
  {
  }

  // One more data block: its offers come before those of the blocks behind it.
  lemma OffersStep(table: seq<DisplayMode>, k: Sink, d: seq<Byte>, ds: seq<seq<Byte>>, later: seq<seq<Byte>>)
    requires IsDataBlock(d) && (forall e <- ds :: IsDataBlock(e)) && (forall e <- later :: IsDataBlock(e))
    ensures Search(table, k, VideoOffers([d] + ds + later))
         == if IsVideo(d) then OrElse(Search(table, k, Svds(d)), Search(table, k, VideoOffers(ds + later)))
            else Search(table, k, VideoOffers(ds + later))
    ensures Search(table, k, HdmiOffers([d] + ds + later))
         == if IsHdmiVsdb(d) then OrElse(Search(table, k, HdmiVics(d)), Search(table, k, HdmiOffers(ds + later)))
            else Search(table, k, HdmiOffers(ds + later))
  {
    hide Search, Svds, HdmiVics, IsVideo, IsHdmiVsdb;
    var s := [d] + ds + later;
    assert s[1..] == ds + later;
    if IsVideo(d) {
      SearchAppend(table, k, Svds(d), VideoOffers(ds + later));
    } else {
      assert [] + VideoOffers(ds + later) == VideoOffers(ds + later);
    }
    if IsHdmiVsdb(d) {
      SearchAppend(table, k, HdmiVics(d), HdmiOffers(ds + later));
    } else {
      assert [] + HdmiOffers(ds + later) == HdmiOffers(ds + later);
    }
  }

  class Connector {
    const table: seq<DisplayMode>
    const edid: seq<Byte>
    const hdmiConnector: bool
    const sinkInfo: SinkInfo
    var preferredMode: DisplayMode

    constructor (table: seq<DisplayMode>, edid: seq<Byte>, hdmiConnector: bool, sinkInfo: SinkInfo, m: DisplayMode)
      requires IsEdid(edid)
      ensures this.table == table && this.edid == edid && this.hdmiConnector == hdmiConnector
      ensures this.sinkInfo == sinkInfo && preferredMode == m
    {
      this.table, this.edid, this.hdmiConnector := table, edid, hdmiConnector;
      this.sinkInfo, preferredMode := sinkInfo, m;
    }

    function Caps(): (r: Sink)
      reads sinkInfo
    {
      Sink(hdmiConnector, sinkInfo.hdmi20Supported, sinkInfo.hdmi20SpeedLimited, sinkInfo.scdcSupported)
    }

    method GetPreferredModeDetailed() returns (found: bool)
      requires IsEdid(edid)
      modifies this`preferredMode
      ensures Updated(old(preferredMode), preferredMode, found, Pick(table, Caps(), edid, 0))
    {
      hide Block, BlockDescriptors, Descriptors, Supported, Candidate;
      var i := 0;
      while i < BlockCount(edid)
        invariant i <= BlockCount(edid) && preferredMode == old(preferredMode)
        invariant Search(table, Caps(), DescriptorsFrom(edid, 0)) == Search(table, Caps(), DescriptorsFrom(edid, i))
      {
        var b := Block(edid, i);
        ghost var rest := DescriptorsFrom(edid, i + 1);
        var usable, at, n := LocateDescriptors(b, i == 0);
        i := i + 1;
        if !usable {
          assert [] + rest == rest;
          continue;
        }
        found := TryDescriptors(b, at, n, rest);
        if found {
          return;
        }
      }
      return false;
    }

    // The inner loop: the first supported descriptor of a block is taken.
    method TryDescriptors(b: seq<Byte>, at: nat, n: nat, ghost rest: seq<Offer>) returns (found: bool)
      requires at + DESCRIPTOR_SIZE * n <= |b|
      modifies this`preferredMode
      ensures var os := Descriptors(b, at, n);
              if found then Search(table, Caps(), os + rest).Some? && preferredMode == Search(table, Caps(), os + rest).value.mode
              else preferredMode == old(preferredMode) && Search(table, Caps(), os + rest) == Search(table, Caps(), rest)
    {
      hide Resolve, Supported;
      ghost var os := Descriptors(b, at, n);
      assert os[0..] + rest == os + rest;
      var j := 0;
      while j < n
        invariant j <= n && preferredMode == old(preferredMode)
        invariant Search(table, Caps(), os + rest) == Search(table, Caps(), os[j..] + rest)
      {
        SearchStep(table, Caps(), os, j, rest);
        var m := DecodeAndMatch(table, b[at + DESCRIPTOR_SIZE * j..at + DESCRIPTOR_SIZE * j + DESCRIPTOR_SIZE]);
        j := j + 1;
        if m.None? {
          continue;
        }
        if !Supported(Caps(), m.value) {
          continue;
        }
        preferredMode := m.value;
        return true;
      }
      assert os[n..] + rest == rest;
      return false;
    }

    // CeaVideoDataBlockGetFirstSupportedMode, with the native flag of the code taken.
    method FirstVideoMode(d: seq<Byte>) returns (m: Option<DisplayMode>, native: bool)
      requires IsDataBlock(d)
      ensures m == ModeOf(Search(table, Caps(), Svds(d)))
      ensures m.Some? ==> native == IsNative(Search(table, Caps(), Svds(d)).value)
    {
      hide Lookup, Supported, SvdToVic, SvdIsNative;
      ghost var os := Svds(d);
      assert os[0..] + [] == os;
      var i := 0;
      while i < PayloadLength(d[0])
        invariant i <= |os| && Search(table, Caps(), os) == Search(table, Caps(), os[i..] + [])
      {
        SearchStep(table, Caps(), os, i, []);
        var vic := SvdToVic(d[1 + i]);
        native := SvdIsNative(d[1 + i]);
        i := i + 1;
        if vic == 0 {
          continue;
        }
        m := GetByVic(table, vic);
        if m.None? {
          continue;
        }
        if !Supported(Caps(), m.value) {
          continue;
        }
        return;
      }
      return None, false;
    }

    // CeaHdmiVsdbDataBlockGetFirstSupportedMode
    method FirstHdmiMode(d: seq<Byte>) returns (m: Option<DisplayMode>)
      requires IsDataBlock(d)
      ensures m == ModeOf(Search(table, Caps(), HdmiVics(d)))
    {
      hide Lookup, Supported, HdmiToCeaVic, HdmiVics, PayloadLength;
      var at, n := LocateHdmiVics(d);
      ghost var os := HdmiVics(d);
      assert os[0..] + [] == os;
      var i := 0;
      while i < n
        invariant i <= n == |os| && Search(table, Caps(), os) == Search(table, Caps(), os[i..] + [])
      {
        SearchStep(table, Caps(), os, i, []);
        var vic := HdmiToCeaVic(d[at + i]);
        i := i + 1;
        if vic == 0 {
          continue;
        }
        m := GetByVic(table, vic);
        if m.None? {
          continue;
        }
        if !Supported(Caps(), m.value) {
          continue;
        }
        return;
      }
      return None;
    }

    method GetPreferredModeCea() returns (found: bool)
      requires IsEdid(edid)
      modifies this`preferredMode
      ensures Updated(old(preferredMode), preferredMode, found, Pick(table, Caps(), edid, 1))
    {
      hide Block, Walk, VideoOffers, HdmiOffers, IsNative, Search, Area;
      var cea, native: bool, hdmi := None, false, None;
      ghost var ceaHit, hdmiHit := None, None;
      ghost var video, vendor := VideoOffers(BlocksFrom(edid, 1)), HdmiOffers(BlocksFrom(edid, 1));
      var i := 1;
      while i < BlockCount(edid)
        invariant 1 <= i <= BlockCount(edid) && preferredMode == old(preferredMode)
        invariant Holds(ceaHit, cea, native) && hdmi == ModeOf(hdmiHit)
        invariant Search(table, Caps(), video) == OrElse(ceaHit, Search(table, Caps(), VideoOffers(BlocksFrom(edid, i))))
        invariant Search(table, Caps(), vendor) == OrElse(hdmiHit, Search(table, Caps(), HdmiOffers(BlocksFrom(edid, i))))
      {
        var b := Block(edid, i);
        ghost var later := BlocksFrom(edid, i + 1);
        assert [] + later == later;
        i := i + 1;
        if b[0] != EXTENSION_CEA_861 || b[1] < 3 {
          continue;
        }
        var end := b[2];
        if end > BLOCK_SIZE - 1 {
          continue;
        }
        var done;
        cea, native, hdmi, done, ceaHit, hdmiHit := ScanDataBlocks(b, end, later, cea, native, hdmi, ceaHit, hdmiHit);
        if done {
          break;
        }
      }
      assert ceaHit == Search(table, Caps(), video) && hdmiHit == Search(table, Caps(), vendor) by { NothingFound(table, Caps()); }
      var preferred: Option<DisplayMode> := None;
      if hdmi.Some? && (cea.None? || (!native && Outranks(hdmi.value, cea.value))) {
        preferred := hdmi;
      } else if cea.Some? {
        preferred := cea;
      }
      if preferred.Some? {
        preferredMode := preferred.value;
        return true;
      }
      return false;
    }

    // The inner loop: the data blocks of one extension, until both a CEA and an HDMI mode are known.
    method ScanDataBlocks(b: seq<Byte>, end: nat, ghost later: seq<seq<Byte>>,
                          cea0: Option<DisplayMode>, native0: bool, hdmi0: Option<DisplayMode>,
                          ghost ceaHit0: Option<Hit>, ghost hdmiHit0: Option<Hit>)
      returns (cea: Option<DisplayMode>, native: bool, hdmi: Option<DisplayMode>, done: bool,
               ghost ceaHit: Option<Hit>, ghost hdmiHit: Option<Hit>)
      requires end < |b| == BLOCK_SIZE && forall d <- later :: IsDataBlock(d)
      requires Holds(ceaHit0, cea0, native0) && hdmi0 == ModeOf(hdmiHit0)
      ensures Holds(ceaHit, cea, native) && hdmi == ModeOf(hdmiHit)
      ensures OrElse(ceaHit, Search(table, Caps(), VideoOffers(later)))
           == OrElse(ceaHit0, Search(table, Caps(), VideoOffers(Walk(b, DATA_OFFSET, end) + later)))
      ensures OrElse(hdmiHit, Search(table, Caps(), HdmiOffers(later)))
           == OrElse(hdmiHit0, Search(table, Caps(), HdmiOffers(Walk(b, DATA_OFFSET, end) + later)))
      ensures done ==> cea.Some? && hdmi.Some?
    {
      hide PayloadLength, IsVideo, IsHdmiVsdb, Svds, HdmiVics, IsNative, Search, VideoOffers, HdmiOffers;
      cea, native, hdmi, ceaHit, hdmiHit := cea0, native0, hdmi0, ceaHit0, hdmiHit0;
      assert [] + later == later;
      var at := DATA_OFFSET;
      while at < end
        invariant DATA_OFFSET <= at
        invariant Holds(ceaHit, cea, native) && hdmi == ModeOf(hdmiHit)
        invariant OrElse(ceaHit, Search(table, Caps(), VideoOffers(Walk(b, at, end) + later)))
               == OrElse(ceaHit0, Search(table, Caps(), VideoOffers(Walk(b, DATA_OFFSET, end) + later)))
        invariant OrElse(hdmiHit, Search(table, Caps(), HdmiOffers(Walk(b, at, end) + later)))
               == OrElse(hdmiHit0, Search(table, Caps(), HdmiOffers(Walk(b, DATA_OFFSET, end) + later)))
        decreases BLOCK_SIZE - at
      {
        var n := 1 + PayloadLength(b[at]);
        if at + n > end {
          break;
        }
        var d := b[at..at + n];
        OffersStep(table, Caps(), d, Walk(b, at + n, end), later);
        at := at + n;
        if IsVideo(d) {
          NotBoth(d);
          if cea.None? {
            cea, native := FirstVideoMode(d);
            ceaHit := Search(table, Caps(), Svds(d));
          }
        } else if IsHdmiVsdb(d) {
          if hdmi.None? {
            hdmi := FirstHdmiMode(d);
            hdmiHit := Search(table, Caps(), HdmiVics(d));
          }
        } else {
          continue;
        }
        if cea.Some? && hdmi.Some? {
          return cea, native, hdmi, true, ceaHit, hdmiHit;
        }
      }
      done := false;
    }

    method GetPreferredModeStandard() returns (found: bool)
      requires IsEdid(edid)
      modifies this`preferredMode
      ensures Updated(old(preferredMode), preferredMode, found, Pick(table, Caps(), edid, 2))
    {
      hide Lookup, Supported, ParseStandard;
      ghost var os := StandardOffers(edid);
      assert os[0..] + [] == os;
      var i := 0;
      while i < STANDARD_TIMINGS
        invariant i <= STANDARD_TIMINGS && preferredMode == old(preferredMode)
        invariant Search(table, Caps(), os) == Search(table, Caps(), os[i..] + [])
      {
        SearchStep(table, Caps(), os, i, []);
        var t := ParseStandard(edid[STANDARD_OFFSET + 2 * i], edid[STANDARD_OFFSET + 2 * i + 1]);
        i := i + 1;
        if t.None? {
          continue;
        }
        var m := GetByResolution(table, t.value.h, t.value.v, t.value.refresh);
        if m.None? {
          continue;
        }
        if !Supported(Caps(), m.value) {
          continue;
        }
        preferredMode := m.value;
        return true;
      }
      return false;
    }

    method GetPreferredModeEstablished() returns (found: bool)
      requires IsEdid(edid)
      modifies this`preferredMode
      ensures Updated(old(preferredMode), preferredMode, found, Pick(table, Caps(), edid, 3))
    {
      hide Supported, Listed, TimingOf, EstablishedOffers, Search, Resolve, ByVic, ParseStandard, Lookup;
      ghost var os := EstablishedOffers(table, edid);
      assert os[0..] + [] == os;
      var bits := edid[ESTABLISHED_OFFSET..ESTABLISHED_OFFSET + ESTABLISHED_BYTES];
      var i := |table| - 1;
      while i >= 0
        invariant -1 <= i < |table| && preferredMode == old(preferredMode)
        invariant Search(table, Caps(), os) == Search(table, Caps(), os[|table| - 1 - i..] + [])
      {
        EstablishedStep(table, Caps(), edid, i);
        var m := table[i];
        i := i - 1;
        var listed := IsListed(bits, TimingOf(m));
        if !listed {
          continue;
        }
        if !Supported(Caps(), m) {
          continue;
        }
        preferredMode := m;
        return true;
      }
      NothingMore(table, Caps(), os);
      return false;
    }

    // EdidGetPreferredMode: the strategies in order, until one answers.
    method GetPreferredMode() returns (found: bool)
      requires IsEdid(edid)
      modifies this`preferredMode
      ensures Updated(old(preferredMode), preferredMode, found, PickFrom(table, Caps(), edid, 0))
    {
      hide Pick;
      var stage := 0;
      while stage < STAGES
        invariant stage <= STAGES && preferredMode == old(preferredMode)
        invariant PickFrom(table, Caps(), edid, 0) == PickFrom(table, Caps(), edid, stage)
      {
        match stage {
          case 0 => found := GetPreferredModeDetailed();
          case 1 => found := GetPreferredModeCea();
          case 2 => found := GetPreferredModeStandard();
          case _ => found := GetPreferredModeEstablished();
        }
        if found {
          return true;
        }
        stage := stage + 1;
      }
      return false;
    }

    // EdidGetDisplaySinkInfo: features first, since they decide what is supported. Starting from a
    // cleared sink, an HDMI connector is given a clock beyond HDMI 1.4 only if some data block shows
    // HDMI 2.0 and SCDC and none limits the speed.
    method GetDisplaySinkInfo() returns (found: bool)
      requires IsEdid(edid)
      modifies this`preferredMode, sinkInfo
      ensures forall flag :: sinkInfo.Has(flag) <==> old(sinkInfo.Has(flag)) || Shown(BlocksFrom(edid, 1), flag)
      ensures Updated(old(preferredMode), preferredMode, found, PickFrom(table, Caps(), edid, 0))
      ensures found ==> Supported(Caps(), preferredMode)
      ensures !found ==> preferredMode == old(preferredMode)
      ensures (forall flag :: !old(sinkInfo.Has(flag))) && hdmiConnector && found && preferredMode.oscFreq > HDMI14_CLOCK_MAX ==>
                && Shown(BlocksFrom(edid, 1), Hdmi20) && Shown(BlocksFrom(edid, 1), Scdc)
                && !Shown(BlocksFrom(edid, 1), SpeedLimited)
    {
      hide Shown, BlocksFrom, PickFrom, Stage;
      sinkInfo.GetFeatures(edid);
      found := GetPreferredMode();
      PreferredIsFromTheFirstStrategy(table, Caps(), edid, 0);
      assert sinkInfo.Has(Hdmi20) == sinkInfo.hdmi20Supported && sinkInfo.Has(Scdc) == sinkInfo.scdcSupported;
      assert sinkInfo.Has(SpeedLimited) == sinkInfo.hdmi20SpeedLimited;
    }
  }

  lemma EstablishedOfferAt(table: seq<DisplayMode>, edid: seq<Byte>, i: nat)
    requires IsEdid(edid) && i < |table|
    ensures EstablishedOffers(table, edid)[|table| - 1 - i]
         == Established(edid[ESTABLISHED_OFFSET..ESTABLISHED_OFFSET + ESTABLISHED_BYTES], table[i])
  {
  }

  lemma EstablishedStep(table: seq<DisplayMode>, k: Sink, edid: seq<Byte>, i: nat)
    requires IsEdid(edid) && i < |table|
    ensures var os := EstablishedOffers(table, edid);
            var o := Established(edid[ESTABLISHED_OFFSET..ESTABLISHED_OFFSET + ESTABLISHED_BYTES], table[i]);
            Search(table, k, os[|table| - 1 - i..] + []) == (
              if Good(table, k, o) then Some(Hit(o, Candidate(table, o).value)) else Search(table, k, os[|table| - i..] + []))
  {
    hide Search, Good, Candidate, EstablishedOffers;
    EstablishedOfferAt(table, edid, i);
    SearchStep(table, k, EstablishedOffers(table, edid), |table| - 1 - i, []);
  }

  lemma NothingMore(table: seq<DisplayMode>, k: Sink, os: seq<Offer>)
    ensures Search(table, k, os[|os|..] + []) == None
  {
  }

  // Where the detailed timings of a block are, if it is one to take them from.
  method LocateDescriptors(b: seq<Byte>, base: bool) returns (usable: bool, at: nat, n: nat)
    requires |b| == BLOCK_SIZE
    ensures usable ==> at + DESCRIPTOR_SIZE * n <= |b| && BlockDescriptors(b, base) == Descriptors(b, at, n)
    ensures !usable ==> BlockDescriptors(b, base) == []
  {
    hide Sum, Descriptors;
    if base {
      var sum := ByteSum(b);
      return sum == 0, BASE_DESCRIPTORS, BASE_DESCRIPTOR_COUNT;
    }
    if b[0] == EXTENSION_CEA_861 {
      at := b[2];
      if at < DATA_OFFSET || at >= BLOCK_SIZE - 1 {
        return false, 0, 0;
      }
      return true, at, (BLOCK_SIZE - 1 - at) / DESCRIPTOR_SIZE;
    }
    if b[0] == EXTENSION_VTB {
      if b[1] != 1 {
        return false, 0, 0;
      }
      return true, VTB_DESCRIPTORS, if b[2] < VTB_DESCRIPTOR_MAX then b[2] else VTB_DESCRIPTOR_MAX;
    }
    return false, 0, 0;
  }

  // Where a vendor block keeps its HDMI codes, and how many there are.
  method LocateHdmiVics(d: seq<Byte>) returns (at: nat, n: nat)
    requires IsDataBlock(d)
    ensures n == |HdmiVics(d)| && at + n <= |d|
    ensures forall i :: 0 <= i < n ==> HdmiVics(d)[i] == HdmiVic(d[at + i])
  {
    if PayloadLength(d[0]) < 8 || d[8] / 32 % 2 == 0 {
      return 0, 0;
    }
    at := 15;
    if d[8] / 128 == 0 {
      at := at - 2;
    }
    if d[8] / 64 % 2 == 0 {
      at := at - 2;
    }
    if PayloadLength(d[0]) < at {
      return 0, 0;
    }
    n := d[at - 1] / 32;
    if at + n > PayloadLength(d[0]) + 1 {
      return 0, 0;
    }
  }

  // An 8-bit sum that wraps around.
  method ByteSum(b: seq<Byte>) returns (sum: Byte)
    ensures sum == Sum(b) % 256
  {
    sum := 0;
    ghost var carried := 0;
    var i := 0;
    assert b[0..] == b;
    while i < |b|
      invariant i <= |b| && 256 * carried + sum + Sum(b[i..]) == Sum(b)
    {
      assert b[i..][1..] == b[i + 1..];
      var wide := sum as nat + b[i] as nat;
      carried := carried + wide / 256;
      sum := wide % 256;
      i := i + 1;
    }
  }

  // EdidIsEstablishedModeSupported
  method IsListed(bits: seq<Byte>, t: Timing) returns (listed: bool)
    requires |bits| == ESTABLISHED_BYTES
    ensures listed <==> Listed(bits, t)
  {
    hide Bit;
    var i := 0;
    while i < ESTABLISHED_BYTES
      invariant i <= ESTABLISHED_BYTES
      invariant forall a, b :: 0 <= a < i && 0 <= b < 8 ==> !(Bit(bits[a], b) && ESTABLISHED[a][b] == t)
    {
      var j := 0;
      while j < 8
        invariant j <= 8
        invariant forall b :: 0 <= b < j ==> !(Bit(bits[i], b) && ESTABLISHED[i][b] == t)
      {
        if Bit(bits[i], j) && ESTABLISHED[i][j] == t {
          return true;
        }
        j := j + 1;
      }
      i := i + 1;
    }
    return false;
  }
}
