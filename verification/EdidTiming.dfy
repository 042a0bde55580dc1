// Detailed timing descriptors: the bit-packed form of a display mode, section 3.10.2 of VESA
// E-EDID Release A Revision 2, decoded as Edid.c does.
module EdidTiming {
  import opened Bytes

  const DESCRIPTOR_SIZE := 18
  const CLOCK_RESOLUTION := 10

  datatype DisplayMode = DisplayMode(
    vic: nat, oscFreq: nat,
    hActive: nat, hFrontPorch: nat, hSync: nat, hBackPorch: nat, hSyncActive: nat,
    vActive: nat, vFrontPorch: nat, vSync: nat, vBackPorch: nat, vSyncActive: nat,
    denActive: nat, clkActive: nat)

  datatype Decoded = Mode(mode: DisplayMode) | InvalidParameter | Unsupported

  // ---- Fields that share bytes ----

  // An active and a blanking length of 12 bits: a byte of low bits each, and a shared one.
  function High12(active: nat, blanking: nat): (b: Byte)
    requires active < 4096 && blanking < 4096
  {
    active / 256 * 16 + blanking / 256
  }

  // High bits in front of a byte.
  function Joined(q: nat, r: nat): (n: nat)
    ensures r < 256 ==> (q < 16 ==> n < 4096) && (q < 4 ==> n < 1024)
  {
    q * 256 + r
  }

  lemma ByteOf(q: nat, r: nat)
    requires r < 256
    ensures Joined(q, r) / 256 == q && Joined(q, r) % 256 == r
  {
  }

  lemma JoinedAgain(n: nat)
    ensures Joined(n / 256, n % 256) == n
  {
  }

  lemma Sixteenth(q: nat, r: nat)
    requires r < 16
    ensures (q * 16 + r) / 16 == q && (q * 16 + r) % 16 == r
  {
  }

  function Active12(low: Byte, high: Byte): (n: nat)
    ensures n < 4096
  {
    Joined(high as nat / 16, low as nat)
  }

  function Blanking12(low: Byte, high: Byte): (n: nat)
    ensures n < 4096
  {
    Joined(high as nat % 16, low as nat)
  }

  lemma Pack12(active: nat, blanking: nat)
    requires active < 4096 && blanking < 4096
    ensures Active12(active % 256, High12(active, blanking)) == active
    ensures Blanking12(blanking % 256, High12(active, blanking)) == blanking
  {
    hide Joined;
    Sixteenth(active / 256, blanking / 256);
    JoinedAgain(active);
    JoinedAgain(blanking);
  }

  lemma Unpack12(a: Byte, b: Byte, high: Byte)
    ensures Active12(a, high) % 256 == a && Blanking12(b, high) % 256 == b
    ensures High12(Active12(a, high), Blanking12(b, high)) == high
  {
    hide Joined;
    ByteOf(high as nat / 16, a as nat);
    ByteOf(high as nat % 16, b as nat);
  }

  // The high bits of both porches and both sync widths.
  function HighSync(hf: nat, hs: nat, vf: nat, vs: nat): (b: Byte)
    requires hf < 1024 && hs < 1024 && vf < 64 && vs < 64
  {
    hf / 256 * 64 + hs / 256 * 16 + vf / 16 * 4 + vs / 16
  }

  function LowSync(vf: nat, vs: nat): (b: Byte)
    requires vf < 64 && vs < 64
  {
    vf % 16 * 16 + vs % 16
  }

  function HFront(low: Byte, high: Byte): (n: nat)
    ensures n < 1024
  {
    Joined(high as nat / 64, low as nat)
  }

  function HWidth(low: Byte, high: Byte): (n: nat)
    ensures n < 1024
  {
    Joined(high as nat / 16 % 4, low as nat)
  }

  function VFront(low: Byte, high: Byte): (n: nat)
    ensures n < 64
  {
    high as nat / 4 % 4 * 16 + low as nat / 16
  }

  function VWidth(low: Byte, high: Byte): (n: nat)
    ensures n < 64
  {
    high as nat % 4 * 16 + low as nat % 16
  }

  // Dividing by a power of two drops the digits below it.
  lemma Halve(q: nat, r: nat)
    requires r < 2
    ensures (q * 2 + r) / 2 == q && (q * 2 + r) % 2 == r
  {
  }

  lemma Quarter(q: nat, r: nat)
    requires r < 4
    ensures (q * 4 + r) / 4 == q && (q * 4 + r) % 4 == r
  {
  }

  lemma SplitHigh(a: nat, b: nat, c: nat, e: nat)
    requires a < 4 && b < 4 && c < 4 && e < 4
    ensures var high := a * 64 + b * 16 + c * 4 + e;
            high / 64 == a && high / 16 % 4 == b && high / 4 % 4 == c && high % 4 == e
  {
    Quarter(a * 16 + b * 4 + c, e);
    Quarter(a * 4 + b, c);
    Quarter(a, b);
    Sixteenth(a * 4 + b, c * 4 + e);
  }

  lemma PackSync(hf: nat, hs: nat, vf: nat, vs: nat)
    requires hf < 1024 && hs < 1024 && vf < 64 && vs < 64
    ensures var high := HighSync(hf, hs, vf, vs);
            && HFront(hf % 256, high) == hf && HWidth(hs % 256, high) == hs
            && VFront(LowSync(vf, vs), high) == vf && VWidth(LowSync(vf, vs), high) == vs
  {
    hide HighSync, LowSync, Joined;
    HighParts(hf, hs, vf, vs);
    LowParts(vf, vs);
    JoinedAgain(hf);
    JoinedAgain(hs);
  }

  lemma HighParts(hf: nat, hs: nat, vf: nat, vs: nat)
    requires hf < 1024 && hs < 1024 && vf < 64 && vs < 64
    ensures var high := HighSync(hf, hs, vf, vs) as nat;
            high / 64 == hf / 256 && high / 16 % 4 == hs / 256 && high / 4 % 4 == vf / 16 && high % 4 == vs / 16
  {
    SplitHigh(hf / 256, hs / 256, vf / 16, vs / 16);
  }

  lemma LowParts(vf: nat, vs: nat)
    requires vf < 64 && vs < 64
    ensures LowSync(vf, vs) as nat / 16 == vf % 16 && LowSync(vf, vs) as nat % 16 == vs % 16
  {
    Sixteenth(vf % 16, vs % 16);
  }

  lemma Digits4(h: nat)
    requires h < 256
    ensures h == h / 64 * 64 + h / 16 % 4 * 16 + h / 4 % 4 * 4 + h % 4
  {
    var q := h / 4;
    var r := q / 4;
    SplitHigh(r / 4, r % 4, q % 4, h % 4);
  }

  lemma UnpackSyncLow(low: Byte, high: Byte)
    ensures LowSync(VFront(low, high), VWidth(low, high)) == low
    ensures VFront(low, high) / 16 == high as nat / 4 % 4 && VWidth(low, high) / 16 == high as nat % 4
  {
    Sixteenth(high as nat / 4 % 4, low as nat / 16);
    Sixteenth(high as nat % 4, low as nat % 16);
  }

  lemma UnpackSyncWide(f: Byte, s: Byte, high: Byte)
    ensures HFront(f, high) % 256 == f && HWidth(s, high) % 256 == s
    ensures HFront(f, high) / 256 == high as nat / 64 && HWidth(s, high) / 256 == high as nat / 16 % 4
  {
    hide Joined;
    ByteOf(high as nat / 64, f as nat);
    ByteOf(high as nat / 16 % 4, s as nat);
  }

  lemma UnpackSync(f: Byte, s: Byte, low: Byte, high: Byte)
    ensures HFront(f, high) % 256 == f && HWidth(s, high) % 256 == s
    ensures LowSync(VFront(low, high), VWidth(low, high)) == low
    ensures HighSync(HFront(f, high), HWidth(s, high), VFront(low, high), VWidth(low, high)) == high
  {
    hide HFront, HWidth, VFront, VWidth, LowSync;
    UnpackSyncLow(low, high);
    UnpackSyncWide(f, s, high);
    Digits4(high);
  }

  function Features(scheme: nat, v: nat, h: nat, low: nat): (b: Byte)
    requires scheme < 4 && v < 2 && h < 2 && low < 2
  {
    scheme * 8 + v * 4 + h * 2 + low
  }

  lemma PackFeatures(scheme: nat, v: nat, h: nat, low: nat)
    requires scheme < 4 && v < 2 && h < 2 && low < 2
    ensures var f: nat := Features(scheme, v, h, low);
            !Interlaced(f) && !Stereo(f) && f / 8 % 4 == scheme && f / 4 % 2 == v && f / 2 % 2 == h && f % 2 == low
  {
    hide Features;
    LowFeatures(scheme, v, h, low);
    HighFeatures(scheme, v, h, low);
  }

  lemma LowFeatures(scheme: nat, v: nat, h: nat, low: nat)
    requires scheme < 4 && v < 2 && h < 2 && low < 2
    ensures var f := Features(scheme, v, h, low) as nat; f % 2 == low && f / 2 % 2 == h
  {
    Halve(scheme * 4 + v * 2 + h, low);
    Halve(scheme * 2 + v, h);
  }

  lemma HighFeatures(scheme: nat, v: nat, h: nat, low: nat)
    requires scheme < 4 && v < 2 && h < 2 && low < 2
    ensures var f := Features(scheme, v, h, low) as nat; f < 32 && f / 4 % 2 == v && f / 8 == scheme
  {
    Quarter(scheme * 2 + v, h * 2 + low);
    Halve(scheme, v);
    Eighth(scheme, v * 4 + h * 2 + low);
  }

  lemma Eighth(q: nat, r: nat)
    requires r < 8
    ensures (q * 8 + r) / 8 == q
  {
  }

  lemma UnpackFeatures(f: Byte)
    requires !Interlaced(f) && !Stereo(f)
    ensures Features(f as nat / 8 % 4, f as nat / 4 % 2, f as nat / 2 % 2, f as nat % 2) == f
  {
    assert f as nat < 32;
    var q := f as nat / 2;
    var r := q / 2;
    PackFeatures(r / 2, r % 2, q % 2, f as nat % 2);
  }

  function HBlanking(d: seq<Byte>): (r: nat)
    requires |d| == DESCRIPTOR_SIZE
  {
    Blanking12(d[3], d[4])
  }

  function VBlanking(d: seq<Byte>): (r: nat)
    requires |d| == DESCRIPTOR_SIZE
  {
    Blanking12(d[6], d[7])
  }

  function Interlaced(features: nat): (r: bool) {
    features / 128 % 2 == 1
  }

  function Stereo(features: nat): (r: bool) {
    features / 32 % 4 != 0
  }

  // EdidDetailedTimingToDisplayMode
  function Decode(d: seq<Byte>): (r: Decoded)
    requires |d| == DESCRIPTOR_SIZE
  {
    var clock, features: nat := ReadLe16(d, 0), d[17];
    if clock == 0 then InvalidParameter
    else if Interlaced(features) then Unsupported
    else if Stereo(features) then Unsupported
    else
      var hFrontPorch, hSync := HFront(d[8], d[11]), HWidth(d[9], d[11]);
      if hFrontPorch + hSync >= HBlanking(d) then InvalidParameter
      else
        var vFrontPorch, vSync := VFront(d[10], d[11]), VWidth(d[10], d[11]);
        if vFrontPorch + vSync >= VBlanking(d) then InvalidParameter
        else
          Mode(DisplayMode(
            0, clock * CLOCK_RESOLUTION,
            Active12(d[2], d[4]), hFrontPorch, hSync, HBlanking(d) - (hFrontPorch + hSync), features / 2 % 2,
            Active12(d[5], d[7]), vFrontPorch, vSync, VBlanking(d) - (vFrontPorch + vSync), features / 4 % 2,
            0, 0))
  }

  // Modes that the packed form has room for.
  predicate Encodable(m: DisplayMode) {
    && m.vic == 0 && m.denActive == 0 && m.clkActive == 0
    && 0 < m.oscFreq <= 0xFFFF * CLOCK_RESOLUTION && m.oscFreq % CLOCK_RESOLUTION == 0
    && m.hActive < 4096 && m.vActive < 4096
    && m.hFrontPorch < 1024 && m.hSync < 1024 && m.vFrontPorch < 64 && m.vSync < 64
    && 0 < m.hBackPorch && m.hFrontPorch + m.hSync + m.hBackPorch < 4096
    && 0 < m.vBackPorch && m.vFrontPorch + m.vSync + m.vBackPorch < 4096
    && m.hSyncActive < 2 && m.vSyncActive < 2
  }

  // What a descriptor holds besides the mode: image size and borders, the sync scheme and the low
  // feature bit.
  datatype Extras = Extras(image: seq<Byte>, scheme: nat, low: nat)

  predicate ValidExtras(x: Extras) {
    |x.image| == 5 && x.scheme < 4 && x.low < 2
  }

  // The packed form of a mode.
  function Encode(m: DisplayMode, x: Extras): (d: seq<Byte>)
    requires Encodable(m) && ValidExtras(x)
    ensures |d| == DESCRIPTOR_SIZE
  {
    var hBlanking, vBlanking := m.hFrontPorch + m.hSync + m.hBackPorch, m.vFrontPorch + m.vSync + m.vBackPorch;
    Le16(m.oscFreq / CLOCK_RESOLUTION)
    + [m.hActive % 256, hBlanking % 256, High12(m.hActive, hBlanking)]
    + [m.vActive % 256, vBlanking % 256, High12(m.vActive, vBlanking)]
    + [m.hFrontPorch % 256, m.hSync % 256, LowSync(m.vFrontPorch, m.vSync),
       HighSync(m.hFrontPorch, m.hSync, m.vFrontPorch, m.vSync)]
    + x.image
    + [Features(x.scheme, m.vSyncActive, m.hSyncActive, x.low)]
  }

  lemma DecodeEncoded(m: DisplayMode, x: Extras)
    requires Encodable(m) && ValidExtras(x)
    ensures Decode(Encode(m, x)) == Mode(m)
  {
    hide Le16, High12, Active12, Blanking12, HighSync, LowSync, HFront, HWidth, VFront, VWidth, Features, Interlaced, Stereo;
    var d := Encode(m, x);
    assert d[0..2] == Le16(m.oscFreq / CLOCK_RESOLUTION);
    ReadWrite16(d, 0, m.oscFreq / CLOCK_RESOLUTION);
    Pack12(m.hActive, m.hFrontPorch + m.hSync + m.hBackPorch);
    Pack12(m.vActive, m.vFrontPorch + m.vSync + m.vBackPorch);
    PackSync(m.hFrontPorch, m.hSync, m.vFrontPorch, m.vSync);
    PackFeatures(x.scheme, m.vSyncActive, m.hSyncActive, x.low);
  }

  function ExtrasOf(d: seq<Byte>): (r: Extras)
    requires |d| == DESCRIPTOR_SIZE
  {
    Extras(d[12..17], d[17] as nat / 8 % 4, d[17] as nat % 2)
  }

  // What decodes is the packed form of what it decodes to: nothing is lost and nothing made up, and
  // the porches and sync of either axis add up to the blanking that was encoded.
  lemma EncodeDecoded(d: seq<Byte>)
    requires |d| == DESCRIPTOR_SIZE && Decode(d).Mode?
    ensures var m := Decode(d).mode;
            && Encodable(m) && Encode(m, ExtrasOf(d)) == d
            && m.hFrontPorch + m.hSync + m.hBackPorch == HBlanking(d)
            && m.vFrontPorch + m.vSync + m.vBackPorch == VBlanking(d)
  {
    hide Le16, ReadLe16, High12, Active12, Blanking12, HighSync, LowSync, HFront, HWidth, VFront, VWidth, Features, Interlaced, Stereo;
    WriteRead16(d, 0);
    Unpack12(d[2], d[3], d[4]);
    Unpack12(d[5], d[6], d[7]);
    UnpackSync(d[8], d[9], d[10], d[11]);
    UnpackFeatures(d[17]);
    assert d == d[0..2] + [d[2], d[3], d[4]] + [d[5], d[6], d[7]] + [d[8], d[9], d[10], d[11]] + d[12..17] + [d[17]];
  }
}
