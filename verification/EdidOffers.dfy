// Everything an EDID offers as a preferred mode, and what a search through offers finds: the
// reference that the four strategies of Edid.c are measured against.
module EdidOffers {
  import opened Bytes
  import opened DisplayModes
  import opened EdidCea
  import opened EdidTiming
  import opened Wrappers

  const ESTABLISHED_OFFSET := 35
  const ESTABLISHED_BYTES := 3
  const STANDARD_OFFSET := 38
  const STANDARD_TIMINGS := 8
  const BASE_DESCRIPTORS := 54
  const BASE_DESCRIPTOR_COUNT := 4
  const EXTENSION_VTB := 0x10
  const VTB_DESCRIPTORS := 5
  const VTB_DESCRIPTOR_MAX := 6

  datatype Timing = Timing(h: nat, v: nat, refresh: nat)

  // The established timings of VESA E-EDID, bit 0 first.
  const ESTABLISHED: seq<seq<Timing>> := [
    [Timing(800, 600, 60), Timing(800, 600, 56), Timing(640, 480, 75), Timing(640, 480, 72),
     Timing(640, 480, 67), Timing(640, 480, 60), Timing(720, 400, 88), Timing(720, 400, 70)],
    [Timing(1280, 1024, 75), Timing(1024, 768, 75), Timing(1024, 768, 70), Timing(1024, 768, 60),
     Timing(1024, 768, 87), Timing(832, 624, 75), Timing(800, 600, 75), Timing(800, 600, 72)],
    [Timing(1152, 870, 75), Timing(0, 0, 0), Timing(0, 0, 0), Timing(0, 0, 0),
     Timing(0, 0, 0), Timing(0, 0, 0), Timing(0, 0, 0), Timing(0, 0, 0)]]

  datatype Offer =
    | Descriptor(d: seq<Byte>)
    | Svd(code: Byte)
    | HdmiVic(hdmiCode: Byte)
    | Standard(first: Byte, second: Byte)
    | Established(bits: seq<Byte>, mode: DisplayMode)

  datatype Hit = Hit(offer: Offer, mode: DisplayMode)

  // ---- From an offer to a mode ----

  function HdmiToCeaVic(code: Byte): (r: Byte) {
    if code == 1 then 95 else if code == 2 then 94 else if code == 3 then 93 else if code == 4 then 98 else 0
  }

  function ByVic(table: seq<DisplayMode>, vic: nat): (r: Option<DisplayMode>) {
    if vic == 0 then None else Lookup(table, Vic(vic))
  }

  predicate UnusedStandard(first: Byte, second: Byte) {
    first == second && (first == 0x00 || first == 0x01 || first == 0x20)
  }

  // A standard timing: eighths of the width less 31, an aspect ratio, and the refresh rate above 60.
  function ParseStandard(first: Byte, second: Byte): (r: Option<Timing>) {
    if UnusedStandard(first, second) then None
    else
      var h: nat := (first as nat + 31) * 8;
      var aspect := second as nat / 64;
      var v := if aspect == 0 then h * 10 / 16
               else if aspect == 1 then h * 3 / 4
               else if aspect == 2 then h * 4 / 5
               else h * 9 / 16;
      var refresh := second as nat % 32 + 60;
      if (h == 1360 && v == 765) || (h == 1368 && v == 769) then Some(Timing(1360, 768, refresh))
      else Some(Timing(h, v, refresh))
  }

  predicate Bit(n: nat, i: nat) {
    if i == 0 then n % 2 == 1 else Bit(n / 2, i - 1)
  }

  ghost predicate Listed(bits: seq<Byte>, t: Timing) {
    exists i, j :: 0 <= i < |bits| && i < ESTABLISHED_BYTES && 0 <= j < 8 && Bit(bits[i], j) && ESTABLISHED[i][j] == t
  }

  // What a mode is looked up as: 16 bits of width and height and 8 of the refresh rate.
  function TimingOf(m: DisplayMode): (t: Timing) {
    Timing(m.hActive % 0x1_0000, m.vActive % 0x1_0000, VRefresh(m) % 0x100)
  }

  ghost predicate IsEstablished(t: Timing) {
    exists i, j :: 0 <= i < ESTABLISHED_BYTES && 0 <= j < 8 && ESTABLISHED[i][j] == t
  }

  lemma ListedIsEstablished(bits: seq<Byte>, t: Timing)
    requires Listed(bits, t)
    ensures IsEstablished(t)
  {
    hide Bit;
    var i, j :| 0 <= i < |bits| && i < ESTABLISHED_BYTES && 0 <= j < 8 && Bit(bits[i], j) && ESTABLISHED[i][j] == t;
  }

  ghost function Candidate(table: seq<DisplayMode>, o: Offer): (r: Option<DisplayMode>) {
    match o
    case Descriptor(d) => if |d| == DESCRIPTOR_SIZE then Resolve(table, d) else None
    case Svd(code) => ByVic(table, SvdToVic(code))
    case HdmiVic(code) => ByVic(table, HdmiToCeaVic(code))
    case Standard(first, second) =>
      (match ParseStandard(first, second)
       case Some(t) => Lookup(table, Resolution(t.h, t.v, t.refresh))
       case None => None)
    case Established(bits, m) => if Listed(bits, TimingOf(m)) then Some(m) else None
  }

  // ---- Searching offers ----

  ghost predicate Good(table: seq<DisplayMode>, k: Sink, o: Offer) {
    Candidate(table, o).Some? && Supported(k, Candidate(table, o).value)
  }

  ghost function Search(table: seq<DisplayMode>, k: Sink, os: seq<Offer>): (r: Option<Hit>) {
    if os == [] then None
    else if Good(table, k, os[0]) then Some(Hit(os[0], Candidate(table, os[0]).value))
    else Search(table, k, os[1..])
  }

  lemma {:induction false} SearchFinds(table: seq<DisplayMode>, k: Sink, os: seq<Offer>) returns (i: nat)
    ensures Search(table, k, os).Some? ==>
              && i < |os| && Good(table, k, os[i]) && Search(table, k, os) == Some(Hit(os[i], Candidate(table, os[i]).value))
              && forall j :: 0 <= j < i ==> !Good(table, k, os[j])
    ensures Search(table, k, os).None? ==> forall o <- os :: !Good(table, k, o)
  {
    hide Good;
    i := 0;
    if os != [] && !Good(table, k, os[0]) {
      i := SearchFinds(table, k, os[1..]);
      i := i + 1;
    }
  }

  lemma {:induction false} SearchAppend(table: seq<DisplayMode>, k: Sink, a: seq<Offer>, b: seq<Offer>)
    ensures Search(table, k, a + b) == OrElse(Search(table, k, a), Search(table, k, b))
  {
    hide Good;
    if a == [] {
      assert a + b == b;
    } else {
      assert (a + b)[1..] == a[1..] + b;
      SearchAppend(table, k, a[1..], b);
    }
  }

  lemma SearchStep(table: seq<DisplayMode>, k: Sink, os: seq<Offer>, i: nat, rest: seq<Offer>)
    requires i < |os|
    ensures Search(table, k, os[i..] + rest)
         == if Good(table, k, os[i]) then Some(Hit(os[i], Candidate(table, os[i]).value))
            else Search(table, k, os[i + 1..] + rest)
  {
    hide Good;
    assert os[i..] + rest == [os[i]] + (os[i + 1..] + rest);
  }

  // ---- The offers of an EDID ----

  function Descriptors(b: seq<Byte>, at: nat, n: nat): (os: seq<Offer>)
    requires at + DESCRIPTOR_SIZE * n <= |b|
    ensures |os| == n
  {
    seq(n, i requires 0 <= i < n => Descriptor(b[at + DESCRIPTOR_SIZE * i..at + DESCRIPTOR_SIZE * i + DESCRIPTOR_SIZE]))
  }

  // The descriptors of one block. A base block counts only if its bytes sum to 0 modulo 256.
  function BlockDescriptors(b: seq<Byte>, base: bool): (r: seq<Offer>)
    requires |b| == BLOCK_SIZE
  {
    if base then
      if Sum(b) % 256 == 0 then Descriptors(b, BASE_DESCRIPTORS, BASE_DESCRIPTOR_COUNT) else []
    else if b[0] == EXTENSION_CEA_861 then
      if DATA_OFFSET <= b[2] < BLOCK_SIZE - 1 then
        Descriptors(b, b[2], (BLOCK_SIZE - 1 - b[2]) / DESCRIPTOR_SIZE)
      else []
    else if b[0] == EXTENSION_VTB && b[1] == 1 then
      Descriptors(b, VTB_DESCRIPTORS, if b[2] < VTB_DESCRIPTOR_MAX then b[2] else VTB_DESCRIPTOR_MAX)
    else []
  }

  function DescriptorsFrom(edid: seq<Byte>, i: nat): (r: seq<Offer>)
    requires IsEdid(edid) && i <= BlockCount(edid)
    decreases BlockCount(edid) - i
  {
    if i == BlockCount(edid) then []
    else BlockDescriptors(Block(edid, i), i == 0) + DescriptorsFrom(edid, i + 1)
  }

  function Svds(d: seq<Byte>): (r: seq<Offer>)
    requires IsDataBlock(d)
  {
    seq(|d| - 1, i requires 0 <= i < |d| - 1 => Svd(d[1 + i]))
  }

  // Where the HDMI codes of a vendor block start: behind the latency fields its flags announce.
  function HdmiVicsOffset(flags: Byte): (r: nat) {
    15 - (if flags / 128 == 0 then 2 else 0) - (if flags / 64 % 2 == 0 then 2 else 0)
  }

  function HdmiVics(d: seq<Byte>): (r: seq<Offer>)
    requires IsDataBlock(d)
  {
    if PayloadLength(d[0]) < 8 || d[8] / 32 % 2 == 0 then []
    else
      var at := HdmiVicsOffset(d[8]);
      if PayloadLength(d[0]) < at then []
      else
        var n: nat := d[at - 1] / 32;
        if at + n > |d| then [] else seq(n, i requires 0 <= i < n => HdmiVic(d[at + i]))
  }

  function VideoOffers(ds: seq<seq<Byte>>): (r: seq<Offer>)
    requires forall d <- ds :: IsDataBlock(d)
  {
    if ds == [] then []
    else (if IsVideo(ds[0]) then Svds(ds[0]) else []) + VideoOffers(ds[1..])
  }

  function HdmiOffers(ds: seq<seq<Byte>>): (r: seq<Offer>)
    requires forall d <- ds :: IsDataBlock(d)
  {
    if ds == [] then []
    else (if IsHdmiVsdb(ds[0]) then HdmiVics(ds[0]) else []) + HdmiOffers(ds[1..])
  }

  function StandardOffers(edid: seq<Byte>): (os: seq<Offer>)
    requires IsEdid(edid)
    ensures |os| == STANDARD_TIMINGS
  {
    seq(STANDARD_TIMINGS, i requires 0 <= i < STANDARD_TIMINGS =>
      Standard(edid[STANDARD_OFFSET + 2 * i], edid[STANDARD_OFFSET + 2 * i + 1]))
  }

  // The whole table, its last entry first.
  function EstablishedOffers(table: seq<DisplayMode>, edid: seq<Byte>): (os: seq<Offer>)
    requires IsEdid(edid)
    ensures |os| == |table|
  {
    seq(|table|, i requires 0 <= i < |table| =>
      Established(edid[ESTABLISHED_OFFSET..ESTABLISHED_OFFSET + ESTABLISHED_BYTES], table[|table| - 1 - i]))
  }

  // ---- The choice ----

  function Area(m: DisplayMode): (r: nat) {
    m.hActive * m.vActive % MOD32
  }

  predicate Outranks(m: DisplayMode, n: DisplayMode) {
    Area(m) > Area(n) || (Area(m) == Area(n) && m.oscFreq > n.oscFreq)
  }

  predicate IsNative(h: Hit) {
    h.offer.Svd? && SvdIsNative(h.offer.code)
  }

  predicate PrefersHdmi(cea: Option<Hit>, hdmi: Option<Hit>) {
    hdmi.Some? && (cea.None? || (!IsNative(cea.value) && Outranks(hdmi.value.mode, cea.value.mode)))
  }

  function ModeOf(h: Option<Hit>): (r: Option<DisplayMode>) {
    if h.Some? then Some(h.value.mode) else None
  }

  const STAGES := 4

  // What strategy n looks at.
  function Stage(table: seq<DisplayMode>, edid: seq<Byte>, n: nat): (r: seq<Offer>)
    requires IsEdid(edid) && n < STAGES
  {
    if n == 0 then DescriptorsFrom(edid, 0)
    else if n == 1 then VideoOffers(BlocksFrom(edid, 1)) + HdmiOffers(BlocksFrom(edid, 1))
    else if n == 2 then StandardOffers(edid)
    else EstablishedOffers(table, edid)
  }

  ghost function PickCea(table: seq<DisplayMode>, k: Sink, edid: seq<Byte>): (r: Option<DisplayMode>)
    requires IsEdid(edid)
  {
    var cea := Search(table, k, VideoOffers(BlocksFrom(edid, 1)));
    var hdmi := Search(table, k, HdmiOffers(BlocksFrom(edid, 1)));
    ModeOf(if PrefersHdmi(cea, hdmi) then hdmi else cea)
  }

  ghost function Pick(table: seq<DisplayMode>, k: Sink, edid: seq<Byte>, n: nat): (r: Option<DisplayMode>)
    requires IsEdid(edid) && n < STAGES
  {
    if n == 1 then PickCea(table, k, edid) else ModeOf(Search(table, k, Stage(table, edid, n)))
  }

  ghost function PickFrom(table: seq<DisplayMode>, k: Sink, edid: seq<Byte>, n: nat): (r: Option<DisplayMode>)
    requires IsEdid(edid) && n <= STAGES
    decreases STAGES - n
  {
    if n == STAGES then None else OrElse(Pick(table, k, edid, n), PickFrom(table, k, edid, n + 1))
  }

  // Some offer of strategy n gives this mode, and the sink takes it.
  ghost predicate Offers(table: seq<DisplayMode>, k: Sink, edid: seq<Byte>, n: nat, m: DisplayMode)
    requires IsEdid(edid) && n < STAGES
  {
    Supported(k, m) && exists o :: o in Stage(table, edid, n) && Candidate(table, o) == Some(m)
  }

  ghost predicate OffersNothing(table: seq<DisplayMode>, k: Sink, edid: seq<Byte>, n: nat)
    requires IsEdid(edid) && n < STAGES
  {
    forall o <- Stage(table, edid, n) :: !Good(table, k, o)
  }

  // One strategy gives a mode exactly when it has a supported candidate, and then one of those.
  lemma PickIsOffered(table: seq<DisplayMode>, k: Sink, edid: seq<Byte>, n: nat)
    requires IsEdid(edid) && n < STAGES
    ensures Pick(table, k, edid, n).None? <==> OffersNothing(table, k, edid, n)
    ensures Pick(table, k, edid, n).Some? ==> Offers(table, k, edid, n, Pick(table, k, edid, n).value)
  {
    hide Candidate, Supported, Search, DescriptorsFrom, StandardOffers, EstablishedOffers, VideoOffers, HdmiOffers, BlocksFrom, PrefersHdmi;
    if n == 1 {
      var i := SearchFinds(table, k, VideoOffers(BlocksFrom(edid, 1)));
      var j := SearchFinds(table, k, HdmiOffers(BlocksFrom(edid, 1)));
      PrefersWhatIsThere(Search(table, k, VideoOffers(BlocksFrom(edid, 1))), Search(table, k, HdmiOffers(BlocksFrom(edid, 1))));
    } else {
      var i := SearchFinds(table, k, Stage(table, edid, n));
    }
  }

  lemma PrefersWhatIsThere(cea: Option<Hit>, hdmi: Option<Hit>)
    ensures PrefersHdmi(cea, hdmi) ==> hdmi.Some?
    ensures cea.None? && hdmi.Some? ==> PrefersHdmi(cea, hdmi)
  {
  }

  // The mode taken is supported and comes from the first strategy, in order, that has a supported
  // candidate; there is none exactly when no strategy has.
  lemma {:induction false} PreferredIsFromTheFirstStrategy(table: seq<DisplayMode>, k: Sink, edid: seq<Byte>, from: nat)
    requires IsEdid(edid) && from <= STAGES
    ensures PickFrom(table, k, edid, from).None? <==> forall n :: from <= n < STAGES ==> OffersNothing(table, k, edid, n)
    ensures PickFrom(table, k, edid, from).Some? ==>
              exists n :: from <= n < STAGES && Offers(table, k, edid, n, PickFrom(table, k, edid, from).value)
                && forall j :: from <= j < n ==> OffersNothing(table, k, edid, j)
    decreases STAGES - from
  {
    hide Pick, Offers, OffersNothing;
    if from < STAGES {
      PickIsOffered(table, k, edid, from);
      PreferredIsFromTheFirstStrategy(table, k, edid, from + 1);
    }
  }

  // The areas of supported modes do not wrap.
  lemma SupportedArea(k: Sink, m: DisplayMode)
    requires Supported(k, m)
    ensures Area(m) == m.hActive * m.vActive
  {
    hide Supported;
    SupportedSize(k, m);
    Bounded(m.hActive, m.vActive, HORIZONTAL_RES_MAX, VERTICAL_RES_MAX);
    Unwrapped(m.hActive * m.vActive);
  }

  lemma SupportedSize(k: Sink, m: DisplayMode)
    requires Supported(k, m)
    ensures m.hActive <= HORIZONTAL_RES_MAX && m.vActive <= VERTICAL_RES_MAX
  {
  }

  lemma Bounded(a: nat, b: nat, x: nat, y: nat)
    requires a <= x && b <= y
    ensures 0 <= a * b <= x * y
  {
    assert a * b <= x * b;
    assert x * b <= x * y;
  }

  // The CEA strategy answers with the HDMI mode exactly when there is no CEA mode, or a CEA mode that
  // is not native and smaller by (pixels, clock).
  lemma HdmiModeIsPreferredExactlyWhen(table: seq<DisplayMode>, k: Sink, edid: seq<Byte>)
    requires IsEdid(edid)
    ensures var cea := Search(table, k, VideoOffers(BlocksFrom(edid, 1)));
            var hdmi := Search(table, k, HdmiOffers(BlocksFrom(edid, 1)));
            (cea.Some? || hdmi.Some?) && (cea.Some? && hdmi.Some? ==> cea.value.mode != hdmi.value.mode) ==>
            (PickCea(table, k, edid) == ModeOf(hdmi) <==>
             || cea.None?
             || (&& hdmi.Some? && !IsNative(cea.value)
                 && var m, n := cea.value.mode, hdmi.value.mode;
                    || m.hActive * m.vActive < n.hActive * n.vActive
                    || (m.hActive * m.vActive == n.hActive * n.vActive && m.oscFreq < n.oscFreq)))
  {
    hide Candidate, Supported, Search, VideoOffers, HdmiOffers, BlocksFrom, Area, IsNative;
    var cea := Search(table, k, VideoOffers(BlocksFrom(edid, 1)));
    var hdmi := Search(table, k, HdmiOffers(BlocksFrom(edid, 1)));
    var i := SearchFinds(table, k, VideoOffers(BlocksFrom(edid, 1)));
    var j := SearchFinds(table, k, HdmiOffers(BlocksFrom(edid, 1)));
    if cea.Some? && hdmi.Some? {
      SupportedArea(k, cea.value.mode);
      SupportedArea(k, hdmi.value.mode);
    }
  }

  // With the modes that have an established timing in ascending order, the established strategy takes
  // the largest mode on offer.
  lemma EstablishedTakesTheLargest(table: seq<DisplayMode>, k: Sink, edid: seq<Byte>, i: nat)
    requires IsEdid(edid) && i < |table|
    requires forall a: nat, b: nat :: a < b < |table| && IsEstablished(TimingOf(table[a])) && IsEstablished(TimingOf(table[b])) ==>
               !Outranks(table[a], table[b])
    requires Listed(edid[ESTABLISHED_OFFSET..ESTABLISHED_OFFSET + ESTABLISHED_BYTES], TimingOf(table[i])) && Supported(k, table[i])
    ensures Pick(table, k, edid, 3).Some? && !Outranks(table[i], Pick(table, k, edid, 3).value)
  {
    hide Supported, Search, Listed, Outranks, TimingOf, IsEstablished;
    var os := EstablishedOffers(table, edid);
    assert Good(table, k, os[|table| - 1 - i]);
    var j := SearchFinds(table, k, os);
    var bits := edid[ESTABLISHED_OFFSET..ESTABLISHED_OFFSET + ESTABLISHED_BYTES];
    ListedIsEstablished(bits, TimingOf(table[i]));
    ListedIsEstablished(bits, TimingOf(table[|table| - 1 - j]));
    SameOutranksNot(table[i]);
  }

  lemma SameOutranksNot(m: DisplayMode)
    ensures !Outranks(m, m)
  {
  }
}
