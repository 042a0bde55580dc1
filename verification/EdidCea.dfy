// The CEA-861 extension walk of Edid.c: length-tagged data blocks (section 7.5 of CEA-861-D) and
// the sink features read out of them.
module EdidCea {
  import opened Bytes

  const BLOCK_SIZE := 128
  const EXTENSION_FLAG := 126
  const MAX_EXTENSIONS := 4
  const EXTENSION_CEA_861 := 0x02
  const DATA_OFFSET := 4
  const TAG_VENDOR := 3
  const TAG_VIDEO := 2
  const TAG_EXTENDED := 7
  const VCDB := 0x00
  const Y420VDB := 0x0E
  const HF_SCDB := 0x79
  const OUI_HDMI := 0x000c03
  const OUI_HDMI_FORUM := 0xc45dd8

  // The EDID buffer of a connector: room for the base block and every extension looked at.
  predicate IsEdid(edid: seq<Byte>) {
    |edid| == (1 + MAX_EXTENSIONS) * BLOCK_SIZE
  }

  function BlockCount(edid: seq<Byte>): (n: nat)
    requires IsEdid(edid)
    ensures 1 <= n <= 1 + MAX_EXTENSIONS
  {
    1 + if edid[EXTENSION_FLAG] < MAX_EXTENSIONS then edid[EXTENSION_FLAG] else MAX_EXTENSIONS
  }

  function Block(edid: seq<Byte>, i: nat): (b: seq<Byte>)
    requires IsEdid(edid) && i < BlockCount(edid)
    ensures |b| == BLOCK_SIZE
  {
    edid[i * BLOCK_SIZE..(i + 1) * BLOCK_SIZE]
  }

  function Tag(header: Byte): (r: nat) {
    header / 32
  }

  function PayloadLength(header: Byte): (r: nat) {
    header % 32
  }

  // A data block: its header byte and the payload the header announces, nothing more.
  predicate IsDataBlock(d: seq<Byte>) {
    0 < |d| && |d| == 1 + PayloadLength(d[0])
  }

  predicate IsVideo(d: seq<Byte>)
    requires IsDataBlock(d)
  {
    Tag(d[0]) == TAG_VIDEO
  }

  function Oui(d: seq<Byte>): (r: nat)
    requires 4 <= |d|
  {
    d[3] as nat * 65536 + d[2] as nat * 256 + d[1] as nat
  }

  predicate IsVendor(d: seq<Byte>, oui: nat)
    requires IsDataBlock(d)
  {
    Tag(d[0]) == TAG_VENDOR && PayloadLength(d[0]) >= 3 && Oui(d) == oui
  }

  predicate IsExtended(d: seq<Byte>, tag: nat)
    requires IsDataBlock(d)
  {
    Tag(d[0]) == TAG_EXTENDED && PayloadLength(d[0]) >= 1 && d[1] == tag
  }

  predicate IsHdmiVsdb(d: seq<Byte>)
    requires IsDataBlock(d)
  {
    IsVendor(d, OUI_HDMI) && PayloadLength(d[0]) >= 5
  }

  predicate IsVcdb(d: seq<Byte>)
    requires IsDataBlock(d)
  {
    IsExtended(d, VCDB) && PayloadLength(d[0]) >= 2
  }

  predicate IsY420Vdb(d: seq<Byte>)
    requires IsDataBlock(d)
  {
    IsExtended(d, Y420VDB)
  }

  predicate IsHdmiForumScds(d: seq<Byte>)
    requires IsDataBlock(d)
  {
    (IsVendor(d, OUI_HDMI_FORUM) || IsExtended(d, HF_SCDB)) && PayloadLength(d[0]) >= 7
  }

  // Short video descriptors: codes 1 to 64 carry a native flag in the top bit, the rest are plain.
  predicate HasNativeFlag(svd: Byte) {
    1 <= svd <= 64 || 129 <= svd <= 192
  }

  function SvdToVic(svd: Byte): (r: Byte) {
    if HasNativeFlag(svd) then svd % 128 else svd
  }

  predicate SvdIsNative(svd: Byte) {
    HasNativeFlag(svd) && svd >= 128
  }

  // ---- The walk ----

  // The data blocks from at to end; a block that would run past end stops the walk.
  function Walk(b: seq<Byte>, at: nat, end: nat): (ds: seq<seq<Byte>>)
    requires end < |b| == BLOCK_SIZE
    ensures forall d <- ds :: IsDataBlock(d)
    decreases BLOCK_SIZE - at
  {
    if at >= end then []
    else
      var n := 1 + PayloadLength(b[at]);
      if at + n > end then [] else [b[at..at + n]] + Walk(b, at + n, end)
  }

  function CeaBlocks(b: seq<Byte>): (ds: seq<seq<Byte>>)
    requires |b| == BLOCK_SIZE
    ensures forall d <- ds :: IsDataBlock(d)
  {
    if b[0] != EXTENSION_CEA_861 || b[1] < 3 || b[2] > BLOCK_SIZE - 1 then [] else Walk(b, DATA_OFFSET, b[2])
  }

  // Every data block of every extension, in order.
  function BlocksFrom(edid: seq<Byte>, i: nat): (ds: seq<seq<Byte>>)
    requires IsEdid(edid) && i <= BlockCount(edid)
    ensures forall d <- ds :: IsDataBlock(d)
    decreases BlockCount(edid) - i
  {
    if i == BlockCount(edid) then [] else CeaBlocks(Block(edid, i)) + BlocksFrom(edid, i + 1)
  }

  function Flatten(ds: seq<seq<Byte>>): (r: seq<Byte>) {
    if ds == [] then [] else ds[0] + Flatten(ds[1..])
  }

  // The walked blocks lie one behind the other from at on, without overlap and inside the range.
  lemma {:induction false} WalkTiles(b: seq<Byte>, at: nat, end: nat)
    requires end < |b| == BLOCK_SIZE && at <= end
    ensures var run := Flatten(Walk(b, at, end)); at + |run| <= end && b[at..at + |run|] == run
    decreases BLOCK_SIZE - at
  {
    hide Walk, IsDataBlock, PayloadLength;
    if at < end {
      WalkStep(b, at, end);
      var n := 1 + PayloadLength(b[at]);
      if at + n <= end {
        WalkTiles(b, at + n, end);
        var rest := Flatten(Walk(b, at + n, end));
        assert ([b[at..at + n]] + Walk(b, at + n, end))[1..] == Walk(b, at + n, end);
        assert b[at..at + n + |rest|] == b[at..at + n] + b[at + n..at + n + |rest|];
      }
    } else {
      WalkEnds(b, at, end);
    }
  }

  // ---- Features ----

  datatype Flag = Hdmi | SelectableRgbRange | Hdmi20 | SpeedLimited | Scdc

  // YCC 4:2:0 codes whose mode needs more than 340 MHz unless halved.
  predicate LimitingVic(vic: nat) {
    vic in {91, 92, 96, 97, 101, 102, 106, 107, 114, 115, 116, 121, 122, 123}
  }

  // What a data block says on its own, whatever stands around it.
  predicate Shows(d: seq<Byte>, flag: Flag)
    requires IsDataBlock(d)
  {
    match flag
    case Hdmi => IsHdmiVsdb(d)
    case SelectableRgbRange => IsVcdb(d) && d[2] / 64 % 2 == 1
    case Hdmi20 => IsHdmiForumScds(d)
    case SpeedLimited =>
      || (IsHdmiForumScds(d) && d[5] as nat * 5 < 594)
      || (IsY420Vdb(d) && exists i :: 2 <= i < |d| && LimitingVic(SvdToVic(d[i])))
    case Scdc => IsHdmiForumScds(d) && d[6] / 128 == 1
  }

  ghost predicate Shown(ds: seq<seq<Byte>>, flag: Flag) {
    exists d :: d in ds && IsDataBlock(d) && Shows(d, flag)
  }

  // No block is of two kinds, so the order in which the kinds are tried does not matter.
  lemma KindsExclude(d: seq<Byte>)
    requires IsDataBlock(d)
    ensures IsVcdb(d) ==> !IsHdmiVsdb(d) && !IsHdmiForumScds(d) && !IsY420Vdb(d)
    ensures IsHdmiVsdb(d) ==> !IsHdmiForumScds(d) && !IsY420Vdb(d)
    ensures IsHdmiForumScds(d) ==> !IsY420Vdb(d)
  {
  }

  class SinkInfo {
    var isHdmi: bool
    var selectableRgbRange: bool
    var hdmi20Supported: bool
    var hdmi20SpeedLimited: bool
    var scdcSupported: bool

    predicate Has(flag: Flag)
      reads this
    {
      match flag
      case Hdmi => isHdmi
      case SelectableRgbRange => selectableRgbRange
      case Hdmi20 => hdmi20Supported
      case SpeedLimited => hdmi20SpeedLimited
      case Scdc => scdcSupported
    }

    // One data block's worth of features.
    method Read(d: seq<Byte>)
      requires IsDataBlock(d)
      modifies this
      ensures forall flag :: Has(flag) <==> old(Has(flag)) || Shows(d, flag)
    {
      KindsExclude(d);
      if IsVcdb(d) {
        if d[2] / 64 % 2 == 1 {
          selectableRgbRange := true;
        }
      } else if IsHdmiVsdb(d) {
        isHdmi := true;
      } else if IsHdmiForumScds(d) {
        hdmi20Supported := true;
        if d[5] as nat * 5 < 594 {
          hdmi20SpeedLimited := true;
        }
        if d[6] / 128 == 1 {
          scdcSupported := true;
        }
      } else if IsY420Vdb(d) {
        var svds := d[2..];
        var i := 0;
        while i < |svds|
          invariant i <= |svds|
          invariant hdmi20SpeedLimited <==>
                      old(hdmi20SpeedLimited) || exists k :: 2 <= k < 2 + i && LimitingVic(SvdToVic(d[k]))
          invariant isHdmi == old(isHdmi) && selectableRgbRange == old(selectableRgbRange)
          invariant hdmi20Supported == old(hdmi20Supported) && scdcSupported == old(scdcSupported)
        {
          if hdmi20SpeedLimited {
            break;
          }
          assert svds[i] == d[2 + i];
          var vic := SvdToVic(svds[i]);
          if LimitingVic(vic) {
            hdmi20SpeedLimited := true;
          }
          i := i + 1;
        }
      }
    }

    // EdidGetFeaturesCea: every feature is what it was, or what some data block shows.
    method GetFeatures(edid: seq<Byte>)
      requires IsEdid(edid)
      modifies this
      ensures forall flag :: Has(flag) <==> old(Has(flag)) || Shown(BlocksFrom(edid, 1), flag)
    {
      hide Shown, CeaBlocks, Block, Has;
      var i := 1;
      NothingShown();
      ghost var seen: seq<seq<Byte>> := [];
      while i < BlockCount(edid)
        invariant 1 <= i <= BlockCount(edid)
        invariant BlocksFrom(edid, 1) == seen + BlocksFrom(edid, i)
        invariant forall flag :: Has(flag) <==> old(Has(flag)) || Shown(seen, flag)
      {
        var b := Block(edid, i);
        GetFeaturesOf(b);
        ghost var more := CeaBlocks(b);
        ShownAppend(seen, more);
        assert seen + (more + BlocksFrom(edid, i + 1)) == seen + more + BlocksFrom(edid, i + 1);
        seen := seen + more;
        i := i + 1;
      }
      assert seen + [] == seen;
    }

    method GetFeaturesOf(b: seq<Byte>)
      requires |b| == BLOCK_SIZE
      modifies this
      ensures forall flag :: Has(flag) <==> old(Has(flag)) || Shown(CeaBlocks(b), flag)
    {
      hide Shown, Shows, PayloadLength, Has, Walk, IsDataBlock;
      NothingShown();
      if b[0] != EXTENSION_CEA_861 || b[1] < 3 {
        return;
      }
      var end := b[2];
      if end > BLOCK_SIZE - 1 {
        return;
      }
      var at := DATA_OFFSET;
      ghost var seen: seq<seq<Byte>> := [];
      while at < end
        invariant DATA_OFFSET <= at
        invariant CeaBlocks(b) == seen + Walk(b, at, end)
        invariant forall flag :: Has(flag) <==> old(Has(flag)) || Shown(seen, flag)
        decreases BLOCK_SIZE - at
      {
        var n := 1 + PayloadLength(b[at]);
        WalkStep(b, at, end);
        if at + n > end {
          break;
        }
        OneMoreSeen(b, at, end, seen);
        var d := b[at..at + n];
        Read(d);
        seen := seen + [d];
        at := at + n;
      }
      if at >= end {
        WalkEnds(b, at, end);
      }
      assert seen + [] == seen;
    }
  }

  lemma WalkStep(b: seq<Byte>, at: nat, end: nat)
    requires at < end < |b| == BLOCK_SIZE
    ensures var n := 1 + PayloadLength(b[at]);
            if at + n > end then Walk(b, at, end) == []
            else IsDataBlock(b[at..at + n]) && Walk(b, at, end) == [b[at..at + n]] + Walk(b, at + n, end)
  {
  }

  lemma WalkEnds(b: seq<Byte>, at: nat, end: nat)
    requires end < |b| == BLOCK_SIZE && at >= end
    ensures Walk(b, at, end) == []
  {
  }

  lemma ShownAppend(a: seq<seq<Byte>>, b: seq<seq<Byte>>)
    ensures forall flag :: Shown(a + b, flag) <==> Shown(a, flag) || Shown(b, flag)
  {
    hide Shows;
  }

  lemma ShownAlone(d: seq<Byte>)
    requires IsDataBlock(d)
    ensures forall flag :: Shown([d], flag) <==> Shows(d, flag)
  {
    hide Shows;
  }

  lemma OneMoreSeen(b: seq<Byte>, at: nat, end: nat, seen: seq<seq<Byte>>)
    requires at < end < |b| == BLOCK_SIZE && at + 1 + PayloadLength(b[at]) <= end
    ensures var d := b[at..at + 1 + PayloadLength(b[at])];
            && IsDataBlock(d)
            && seen + Walk(b, at, end) == (seen + [d]) + Walk(b, at + 1 + PayloadLength(b[at]), end)
            && forall flag :: Shown(seen + [d], flag) <==> Shown(seen, flag) || Shows(d, flag)
  {
    hide Walk, Shown, Shows, IsDataBlock, PayloadLength;
    var d := b[at..at + 1 + PayloadLength(b[at])];
    WalkStep(b, at, end);
    ShownAppend(seen, [d]);
    ShownAlone(d);
  }

  lemma NothingShown()
    ensures forall flag :: !Shown([], flag)
  {
  }
}
