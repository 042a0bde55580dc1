// The bytes of an EDID as VESA E-EDID and CEA-861-D give them out: what each code and each field
// says, told in the numbers of the standards.
module EdidBytes {
  import opened Bytes
  import opened DisplayModes
  import opened EdidCea
  import opened EdidOffers
  import opened EdidTiming
  import opened Wrappers

  // ---- Standard timings ----

  // Width to height, by the two bits of the aspect ratio.
  const RATIOS: seq<(nat, nat)> := [(16, 10), (4, 3), (5, 4), (16, 9)]

  // The height is the width over the ratio, rounded down, but for the two widths of 16:9 that stand
  // for 1360 by 768.
  lemma StandardCode(first: Byte, second: Byte)
    ensures ParseStandard(first, second).None? <==> first == second && first in {0, 1, 32}
    ensures ParseStandard(first, second).Some? ==>
              var t, w, (num, den) := ParseStandard(first, second).value, 8 * (first as nat + 31), RATIOS[second as nat / 64];
              && t.refresh == 60 + second as nat % 32
              && if second >= 192 && (w == 1360 || w == 1368) then t.h == 1360 && t.v == 768
                 else t.h == w && t.v * num <= w * den < t.v * num + num
  {
  }

  // A timing of any of those shapes, written as a code by its width, its ratio and its refresh rate.
  function StandardOf(w: nat, ratio: nat, refresh: nat): (code: (Byte, Byte))
    requires 256 <= w <= 2288 && ratio < 4 && 60 <= refresh <= 91
  {
    (w / 8 - 31, ratio * 64 + (refresh - 60))
  }

  lemma StandardComesBack(w: nat, v: nat, ratio: nat, refresh: nat)
    requires 256 <= w <= 2288 && w % 8 == 0 && ratio < 4 && 60 <= refresh <= 91
    requires v * RATIOS[ratio].0 <= w * RATIOS[ratio].1 < v * RATIOS[ratio].0 + RATIOS[ratio].0
    requires !(ratio == 3 && (w == 1360 || w == 1368))
    ensures var (first, second) := StandardOf(w, ratio, refresh);
            !UnusedStandard(first, second) ==> ParseStandard(first, second) == Some(Timing(w, v, refresh))
  {
    var (first, second) := StandardOf(w, ratio, refresh);
    StandardParts(ratio, refresh - 60);
    StandardCode(first, second);
  }

  lemma StandardParts(ratio: nat, low: nat)
    requires ratio < 4 && low < 32
    ensures (ratio * 64 + low) / 64 == ratio && (ratio * 64 + low) % 32 == low
  {
  }

  // ---- Established timings ----

  // Bit 7 of byte 35 first, in the order of section 3.8 of the VESA E-EDID Standard, Release A.
  const ESTABLISHED_ORDER: seq<Timing> := [
    Timing(720, 400, 70), Timing(720, 400, 88), Timing(640, 480, 60), Timing(640, 480, 67),
    Timing(640, 480, 72), Timing(640, 480, 75), Timing(800, 600, 56), Timing(800, 600, 60),
    Timing(800, 600, 72), Timing(800, 600, 75), Timing(832, 624, 75), Timing(1024, 768, 87),
    Timing(1024, 768, 60), Timing(1024, 768, 70), Timing(1024, 768, 75), Timing(1280, 1024, 75)]

  const POWERS: seq<nat> := [1, 2, 4, 8, 16, 32, 64, 128]

  lemma BitIs(n: nat, i: nat)
    requires i < 8
    ensures Bit(n, i) <==> n / POWERS[i] % 2 == 1
  {
    if i >= 4 {
      LowBitIs(n / 16, i - 4);
      HighBits(n, i);
    } else {
      LowBitIs(n, i);
    }
  }

  lemma LowBitIs(n: nat, i: nat)
    requires i < 4
    ensures Bit(n, i) <==> n / POWERS[i] % 2 == 1
  {
    assert n / 2 / 2 == n / 4 && n / 4 / 2 == n / 8;
  }

  lemma HighBits(n: nat, i: nat)
    requires 4 <= i < 8
    ensures Bit(n, i) == Bit(n / 16, i - 4) && n / POWERS[i] == n / 16 / POWERS[i - 4]
  {
    assert n / 2 / 2 == n / 4 && n / 4 / 2 == n / 8 && n / 8 / 2 == n / 16;
    assert Bit(n, i) == Bit(n / 2, i - 1) == Bit(n / 4, i - 2);
    assert Bit(n / 4, i - 2) == Bit(n / 8, i - 3) == Bit(n / 16, i - 4);
  }

  // The table of the source has each of these timings once, at its own bit.
  lemma EstablishedPlace(n: nat, i: nat, j: nat)
    requires n < 16 && i < ESTABLISHED_BYTES && j < 8
    ensures ESTABLISHED[i][j] == ESTABLISHED_ORDER[n] <==> i == n / 8 && j == 7 - n % 8
  {
    if i == 0 {
    } else if i == 1 {
    } else {
    }
  }

  // Each bit of the first two bytes stands for its own timing.
  lemma EstablishedBit(bits: seq<Byte>, n: nat)
    requires |bits| == 3 && n < 16
    ensures Listed(bits, ESTABLISHED_ORDER[n]) <==> bits[n / 8] as nat / POWERS[7 - n % 8] % 2 == 1
  {
    hide Bit;
    var i, j: nat := n / 8, 7 - n % 8;
    BitIs(bits[i], j);
    EstablishedPlace(n, i, j);
    if Listed(bits, ESTABLISHED_ORDER[n]) {
      var k, l :| 0 <= k < |bits| && k < ESTABLISHED_BYTES && 0 <= l < 8 && Bit(bits[k], l) && ESTABLISHED[k][l] == ESTABLISHED_ORDER[n];
      EstablishedPlace(n, k, l);
    }
  }

  // The third byte has 1152 by 870 in bit 0, where the standard has it in bit 7.
  lemma ThirdByte(bits: seq<Byte>)
    requires |bits| == 3
    ensures Listed(bits, Timing(1152, 870, 75)) <==> bits[2] % 2 == 1
  {
    hide Bit;
    BitIs(bits[2], 0);
    assert ESTABLISHED[2][0] == Timing(1152, 870, 75);
    if Listed(bits, Timing(1152, 870, 75)) {
      var k, l :| 0 <= k < |bits| && k < ESTABLISHED_BYTES && 0 <= l < 8 && Bit(bits[k], l) && ESTABLISHED[k][l] == Timing(1152, 870, 75);
      OnceInTheThird(k, l);
    }
  }

  lemma OnceInTheThird(i: nat, j: nat)
    requires i < ESTABLISHED_BYTES && j < 8 && ESTABLISHED[i][j] == Timing(1152, 870, 75)
    ensures i == 2 && j == 0
  {
  }

  // ---- Detailed timings ----

  // What the fields of a descriptor say, in its bytes.
  lemma FieldsOf(d: seq<Byte>)
    requires |d| == 18 && Decode(d).Mode?
    ensures var m := Decode(d).mode;
            && m.oscFreq == 10 * (d[0] as nat + 256 * d[1] as nat)
            && m.hActive == d[2] as nat + 256 * (d[4] as nat / 16)
            && m.hFrontPorch == d[8] as nat + 256 * (d[11] as nat / 64)
            && m.hSync == d[9] as nat + 256 * (d[11] as nat / 16 % 4)
            && m.hFrontPorch + m.hSync + m.hBackPorch == d[3] as nat + 256 * (d[4] as nat % 16)
            && m.hSyncActive == d[17] as nat / 2 % 2
    ensures var m := Decode(d).mode;
            && m.vActive == d[5] as nat + 256 * (d[7] as nat / 16)
            && m.vFrontPorch == d[10] as nat / 16 + 16 * (d[11] as nat / 4 % 4)
            && m.vSync == d[10] as nat % 16 + 16 * (d[11] as nat % 4)
            && m.vFrontPorch + m.vSync + m.vBackPorch == d[6] as nat + 256 * (d[7] as nat % 16)
            && m.vSyncActive == d[17] as nat / 4 % 2
  {
  }

  // It decodes when there is a clock, no interlace and no stereo bit, and room for a back porch.
  lemma DecodesExactlyWhen(d: seq<Byte>)
    requires |d| == 18
    ensures Decode(d).Mode? <==>
            && (d[0] != 0 || d[1] != 0) && d[17] < 32
            && d[8] as nat + 256 * (d[11] as nat / 64) + d[9] as nat + 256 * (d[11] as nat / 16 % 4) < d[3] as nat + 256 * (d[4] as nat % 16)
            && d[10] as nat / 16 + 16 * (d[11] as nat / 4 % 4) + d[10] as nat % 16 + 16 * (d[11] as nat % 4) < d[6] as nat + 256 * (d[7] as nat % 16)
  {
    NoHighFeature(d[17]);
  }

  lemma NoHighFeature(f: Byte)
    ensures !Interlaced(f as nat) && !Stereo(f as nat) <==> f < 32
  {
  }

  // 1920 by 1080 at 60 Hz, as displays announce it.
  const FULL_HD: seq<Byte> := [0x02, 0x3A, 0x80, 0x18, 0x71, 0x38, 0x2D, 0x40, 0x58, 0x2C, 0x45, 0x00, 0x56, 0x50, 0x21, 0x00, 0x00, 0x1E]

  lemma FullHdIsDecoded()
    ensures Decode(FULL_HD) == Mode(DisplayMode(0, 148500, 1920, 88, 44, 148, 1, 1080, 4, 5, 36, 1, 0, 0))
  {
    hide Decode, Encode, Encodable;
    DecodesExactlyWhen(FULL_HD);
    FieldsOf(FULL_HD);
    EncodeDecoded(FULL_HD);
    NoCodeDecoded(FULL_HD);
  }

  lemma NoCodeDecoded(d: seq<Byte>)
    requires |d| == 18 && Decode(d).Mode?
    ensures var m := Decode(d).mode; m.vic == 0 && m.denActive == 0 && m.clkActive == 0
  {
  }

  // ---- Data blocks ----

  // The kinds of a data block, by its header and the bytes behind it.
  lemma KindOf(d: seq<Byte>)
    requires IsDataBlock(d)
    ensures |d| == 1 + d[0] as nat % 32
    ensures IsVideo(d) <==> 0x40 <= d[0] < 0x60
    ensures IsHdmiVsdb(d) <==> 0x65 <= d[0] < 0x80 && d[1] == 0x03 && d[2] == 0x0C && d[3] == 0x00
    ensures IsVcdb(d) <==> 0xE2 <= d[0] && d[1] == 0x00
    ensures IsY420Vdb(d) <==> 0xE1 <= d[0] && d[1] == 0x0E
    ensures IsHdmiForumScds(d) <==>
            || (0x67 <= d[0] < 0x80 && d[1] == 0xD8 && d[2] == 0x5D && d[3] == 0xC4)
            || (0xE7 <= d[0] && d[1] == 0x79)
  {
  }

  // What each feature is read from.
  lemma ShownBy(d: seq<Byte>)
    requires IsDataBlock(d)
    ensures Shows(d, Hdmi) <==> 0x65 <= d[0] < 0x80 && d[1] == 0x03 && d[2] == 0x0C && d[3] == 0x00
    ensures Shows(d, SelectableRgbRange) <==> 0xE2 <= d[0] && d[1] == 0x00 && d[2] % 128 >= 64
    ensures Shows(d, Scdc) <==> Shows(d, Hdmi20) && d[6] >= 0x80
    ensures Shows(d, Hdmi20) <==>
            || (0x67 <= d[0] < 0x80 && d[1] == 0xD8 && d[2] == 0x5D && d[3] == 0xC4)
            || (0xE7 <= d[0] && d[1] == 0x79)
    ensures Shows(d, SpeedLimited) <==>
            || (Shows(d, Hdmi20) && d[5] <= 118)
            || (0xE1 <= d[0] && d[1] == 0x0E && exists i :: 2 <= i < |d| && IsFast(d[i]))
  {
    KindOf(d);
    forall svd: Byte ensures LimitingVic(SvdToVic(svd)) <==> IsFast(svd) {
    }
    hide LimitingVic, SvdToVic, IsFast;
  }

  // The codes whose modes have a pixel clock above 340 MHz when not halved.
  predicate IsFast(svd: Byte) {
    91 <= svd <= 92 || 96 <= svd <= 97 || 101 <= svd <= 102 || 106 <= svd <= 107 || 114 <= svd <= 116 || 121 <= svd <= 123
  }

  // A short video descriptor: 129 to 192 are the codes 1 to 64 marked native, the others are themselves.
  lemma CodeOf(svd: Byte)
    ensures SvdIsNative(svd) <==> 129 <= svd <= 192
    ensures SvdToVic(svd) == if 129 <= svd <= 192 then svd - 128 else svd
  {
  }

  // The HDMI codes 1 to 4 in the CEA numbering.
  const HDMI_CODES: seq<nat> := [0, 95, 94, 93, 98]

  lemma HdmiCode(code: Byte)
    ensures HdmiToCeaVic(code) == if code <= 4 then HDMI_CODES[code] else 0
  {
  }

  // The conversion the other way, which announces a mode to the display.
  function CeaToHdmiVic(vic: nat): (code: nat) {
    if vic == 95 then 1 else if vic == 94 then 2 else if vic == 93 then 3 else if vic == 98 then 4 else 0
  }

  lemma HdmiCodeComesBack(code: Byte, vic: Byte)
    ensures HdmiToCeaVic(code) != 0 ==> CeaToHdmiVic(HdmiToCeaVic(code)) == code
    ensures 0 < CeaToHdmiVic(vic) < 256 ==> HdmiToCeaVic(CeaToHdmiVic(vic)) == vic
  {
  }

  // A vendor block says with bit 5 of byte 8 that it has HDMI codes. They stand behind byte 10, and
  // two bytes further on for each of two pairs of latencies announced with bits 7 and 6; how many
  // there are is in the upper three bits of the byte in front of them.
  lemma HdmiCodesOf(d: seq<Byte>)
    requires IsDataBlock(d)
    ensures var at := 11 + (if 9 <= |d| && d[8] >= 128 then 2 else 0) + (if 9 <= |d| && d[8] % 128 >= 64 then 2 else 0);
            if |d| < 9 || d[8] % 64 < 32 || |d| <= at || |d| < at + d[at - 1] as nat / 32 then HdmiVics(d) == []
            else && |HdmiVics(d)| == d[at - 1] as nat / 32
                 && forall i :: 0 <= i < |HdmiVics(d)| ==> HdmiVics(d)[i] == HdmiVic(d[at + i])
  {
    hide HdmiVicsOffset;
    if 9 <= |d| {
      LatencyBits(d[8]);
    }
  }

  lemma LatencyBits(flags: Byte)
    ensures HdmiVicsOffset(flags) == 11 + (if flags >= 128 then 2 else 0) + (if flags % 128 >= 64 then 2 else 0)
    ensures flags / 32 % 2 == 0 <==> flags % 64 < 32
  {
    SixthBit(flags);
    FifthBit(flags);
  }

  lemma FifthBit(n: nat)
    ensures n / 32 % 2 == 0 <==> n % 64 < 32
  {
    var x, b := n / 32, n % 32;
    var q, a := x / 2, x % 2;
    assert n == q * 64 + (a * 32 + b);
    RestOf64(q, a * 32 + b);
  }

  lemma RestOf64(q: nat, r: nat)
    requires r < 64
    ensures (q * 64 + r) % 64 == r
  {
  }

  lemma SixthBit(n: nat)
    ensures n / 64 % 2 == 0 <==> n % 128 < 64
  {
    var x, b := n / 64, n % 64;
    var q, a := x / 2, x % 2;
    assert n == q * 128 + (a * 64 + b);
    RestOf128(q, a * 64 + b);
  }

  lemma RestOf128(q: nat, r: nat)
    requires r < 128
    ensures (q * 128 + r) % 128 == r
  {
  }

  // ---- Where the offers of a block are ----

  lemma BaseOffers(table: seq<DisplayMode>, edid: seq<Byte>, i: nat)
    requires |edid| == 640
    ensures IsEdid(edid) && BlockCount(edid) == 1 + (if edid[126] < 4 then edid[126] as nat else 4)
    ensures i < BlockCount(edid) ==> Block(edid, i) == edid[128 * i..128 * i + 128]
    ensures |StandardOffers(edid)| == 8
    ensures i < 8 ==> StandardOffers(edid)[i] == Standard(edid[38 + 2 * i], edid[39 + 2 * i])
    ensures i < |table| ==> EstablishedOffers(table, edid)[i] == Established(edid[35..38], table[|table| - 1 - i])
    ensures i < 4 && Sum(edid[..128]) % 256 == 0 ==>
              && |BlockDescriptors(edid[..128], true)| == 4
              && BlockDescriptors(edid[..128], true)[i] == Descriptor(edid[54 + 18 * i..72 + 18 * i])
    ensures Sum(edid[..128]) % 256 != 0 ==> BlockDescriptors(edid[..128], true) == []
  {
    if i < 4 && Sum(edid[..128]) % 256 == 0 {
      var b := edid[..128];
      assert b[54 + 18 * i..72 + 18 * i] == edid[54 + 18 * i..72 + 18 * i];
    }
  }

  // An extension of CEA-861 has as many descriptors as fit from byte 2's offset to byte 126, one of
  // VTB-EXT up to six from byte 5 on, and any other none.
  lemma ExtensionOffers(b: seq<Byte>, i: nat)
    requires |b| == 128
    ensures b[0] == 0x02 && 4 <= b[2] < 127 ==>
              && |BlockDescriptors(b, false)| == (127 - b[2]) / 18
              && (i < (127 - b[2]) / 18 ==> BlockDescriptors(b, false)[i] == Descriptor(b[b[2] + 18 * i..b[2] + 18 * i + 18]))
    ensures b[0] == 0x10 && b[1] == 1 ==>
              && |BlockDescriptors(b, false)| == (if b[2] < 6 then b[2] as nat else 6)
              && (i < |BlockDescriptors(b, false)| ==> BlockDescriptors(b, false)[i] == Descriptor(b[5 + 18 * i..23 + 18 * i]))
    ensures !(b[0] == 0x02 && 4 <= b[2] < 127) && !(b[0] == 0x10 && b[1] == 1) ==> BlockDescriptors(b, false) == []
  {
    hide Descriptors, Sum;
    if b[0] == 0x02 && 4 <= b[2] < 127 {
      DescriptorAt(b, b[2], (127 - b[2]) / 18, i);
    } else if b[0] == 0x10 && b[1] == 1 {
      DescriptorAt(b, 5, if b[2] < 6 then b[2] else 6, i);
    }
  }

  lemma DescriptorAt(b: seq<Byte>, at: nat, n: nat, i: nat)
    requires at + DESCRIPTOR_SIZE * n <= |b|
    ensures i < n ==> Descriptors(b, at, n)[i] == Descriptor(b[at + 18 * i..at + 18 * i + 18])
  {
  }

  // Its data blocks stand between byte 4 and the descriptors, from revision 3 on.
  lemma DataBlocksOf(b: seq<Byte>)
    requires |b| == 128
    ensures b[0] == 0x02 && 3 <= b[1] && b[2] < 128 ==> CeaBlocks(b) == Walk(b, 4, b[2])
    ensures !(b[0] == 0x02 && 3 <= b[1] && b[2] < 128) ==> CeaBlocks(b) == []
  {
    hide Walk;
  }

  // The codes of the video blocks, block after block.
  lemma {:induction false} VideoOffersAppend(a: seq<seq<Byte>>, b: seq<seq<Byte>>)
    requires (forall d <- a :: IsDataBlock(d)) && forall d <- b :: IsDataBlock(d)
    ensures forall d <- a + b :: IsDataBlock(d)
    ensures VideoOffers(a + b) == VideoOffers(a) + VideoOffers(b)
  {
    hide IsDataBlock, Svds, IsVideo;
    var c := a + b;
    if a == [] {
      assert c == b;
    } else {
      assert c[0] == a[0] && c[1..] == a[1..] + b;
      VideoOffersAppend(a[1..], b);
    }
  }

  lemma {:induction false} HdmiOffersAppend(a: seq<seq<Byte>>, b: seq<seq<Byte>>)
    requires (forall d <- a :: IsDataBlock(d)) && forall d <- b :: IsDataBlock(d)
    ensures forall d <- a + b :: IsDataBlock(d)
    ensures HdmiOffers(a + b) == HdmiOffers(a) + HdmiOffers(b)
  {
    hide IsDataBlock, HdmiVics, IsHdmiVsdb;
    var c := a + b;
    if a == [] {
      assert c == b;
    } else {
      assert c[0] == a[0] && c[1..] == a[1..] + b;
      HdmiOffersAppend(a[1..], b);
    }
  }

  lemma OffersOfOne(d: seq<Byte>)
    requires IsDataBlock(d)
    ensures VideoOffers([d]) == if 0x40 <= d[0] < 0x60 then seq(|d| - 1, i requires 0 <= i < |d| - 1 => Svd(d[1 + i])) else []
    ensures HdmiOffers([d]) == if 0x65 <= d[0] < 0x80 && d[1] == 0x03 && d[2] == 0x0C && d[3] == 0x00 then HdmiVics(d) else []
  {
    KindOf(d);
    hide IsVideo, IsHdmiVsdb, HdmiVics;
    assert [d][1..] == [] && VideoOffers([]) == [] && HdmiOffers([]) == [];
  }

  // ---- The order of the strategies ----

  // Detailed timings, the modes of CEA-861, standard timings, and the predefined modes that are
  // established, the last one first; a later strategy counts only when the earlier ones give nothing.
  lemma StrategiesInOrder(table: seq<DisplayMode>, k: Sink, edid: seq<Byte>)
    requires IsEdid(edid)
    ensures var detailed := Search(table, k, DescriptorsFrom(edid, 0));
            var standard := Search(table, k, StandardOffers(edid));
            PickFrom(table, k, edid, 0) ==
            if detailed.Some? then Some(detailed.value.mode)
            else if PickCea(table, k, edid).Some? then PickCea(table, k, edid)
            else if standard.Some? then Some(standard.value.mode)
            else ModeOf(Search(table, k, EstablishedOffers(table, edid)))
  {
    hide Search, DescriptorsFrom, StandardOffers, EstablishedOffers, PickCea;
    var third := PickFrom(table, k, edid, 3);
    assert third == OrElse(Pick(table, k, edid, 3), PickFrom(table, k, edid, 4));
    assert PickFrom(table, k, edid, 2) == OrElse(Pick(table, k, edid, 2), third);
    assert PickFrom(table, k, edid, 1) == OrElse(Pick(table, k, edid, 1), PickFrom(table, k, edid, 2));
  }

  // ---- What a sink takes ----

  lemma TakenExactlyWhen(k: Sink, m: DisplayMode)
    ensures Supported(k, m) <==>
            && 25175 <= m.oscFreq <= 600000 && 640 <= m.hActive <= 4096 && 480 <= m.vActive <= 4320
            && (m.oscFreq <= 340000 || !k.hdmiConnector || (k.hdmi20 && k.scdc && !k.speedLimited))
  {
  }

  // Modes are looked up as established by the low 16 bits of their size and the low 8 of their rate.
  lemma LookedUpAs(m: DisplayMode)
    ensures var t := TimingOf(m);
            && t.h < 0x1_0000 && (m.hActive - t.h) % 0x1_0000 == 0
            && t.v < 0x1_0000 && (m.vActive - t.v) % 0x1_0000 == 0
            && t.refresh < 0x100 && (VRefresh(m) - t.refresh) % 0x100 == 0
  {
    hide VRefresh;
    Cut(m.hActive, 0x1_0000);
    Cut(m.vActive, 0x1_0000);
    Cut(VRefresh(m), 0x100);
  }

  lemma Cut(n: nat, m: nat)
    requires m == 0x1_0000 || m == 0x100
    ensures (n - n % m) % m == 0
  {
    var q := n / m;
    assert n - n % m == q * m;
  }

  // The refresh rate of a mode is its lines a second over its lines a frame, to the nearest, with the
  // porches and the sync counted.
  lemma RefreshOf(m: DisplayMode)
    requires m.oscFreq <= 600000
    requires var h, v := m.hActive + m.hFrontPorch + m.hSync + m.hBackPorch, m.vActive + m.vFrontPorch + m.vSync + m.vBackPorch;
             0 < h < 0x1_0000 && 0 < v < 0x1_0000
    ensures var h, v := m.hActive + m.hFrontPorch + m.hSync + m.hBackPorch, m.vActive + m.vFrontPorch + m.vSync + m.vBackPorch;
            var lines := Quotient(m.oscFreq * 1000, h);
            lines * h <= m.oscFreq * 1000 < lines * h + h && 2 * lines - v <= 2 * (VRefresh(m) * v) <= 2 * lines + v
  {
    var h, v := m.hActive + m.hFrontPorch + m.hSync + m.hBackPorch, m.vActive + m.vFrontPorch + m.vSync + m.vBackPorch;
    hide Refresh, Quotient;
    Unwrapped(h);
    Unwrapped(v);
    RefreshRounds(m.oscFreq, h, v);
  }
}
