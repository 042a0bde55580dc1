// The table of predefined display modes of DisplayModes.c, which modes the hardware takes, and the
// refresh rate of a mode as RockchipDisplayLib.c rounds it.
module DisplayModes {
  import opened Bytes
  import opened EdidTiming
  import opened Wrappers

  const MOD32 := 0x1_0000_0000
  const PIXEL_CLOCK_MIN := 25175
  const PIXEL_CLOCK_MAX := 600000
  const HORIZONTAL_RES_MIN := 640
  const HORIZONTAL_RES_MAX := 4096
  const VERTICAL_RES_MIN := 480
  const VERTICAL_RES_MAX := 4320
  const HDMI14_CLOCK_MAX := 340000

  // What the support check asks of a sink, and whether it hangs on an HDMI connector.
  datatype Sink = Sink(hdmiConnector: bool, hdmi20: bool, speedLimited: bool, scdc: bool)

  predicate Supported(k: Sink, m: DisplayMode) {
    && PIXEL_CLOCK_MIN <= m.oscFreq <= PIXEL_CLOCK_MAX
    && HORIZONTAL_RES_MIN <= m.hActive <= HORIZONTAL_RES_MAX
    && VERTICAL_RES_MIN <= m.vActive <= VERTICAL_RES_MAX
    && (k.hdmiConnector && m.oscFreq > HDMI14_CLOCK_MAX ==> k.hdmi20 && !k.speedLimited && k.scdc)
  }

  function HTotal(m: DisplayMode): (r: nat) {
    (m.hActive + m.hFrontPorch + m.hSync + m.hBackPorch) % MOD32
  }

  function VTotal(m: DisplayMode): (r: nat) {
    (m.vActive + m.vFrontPorch + m.vSync + m.vBackPorch) % MOD32
  }

  // Half of a total that the source has put in a signed integer.
  function SignedHalf(n: nat): (r: nat)
    requires n < MOD32
  {
    if n < MOD32 / 2 then n / 2 else MOD32 - (MOD32 - n) / 2
  }

  // Whole-number division, told by its bounds.
  function Quotient(n: nat, d: nat): (q: nat)
    requires 0 < d
    ensures q * d <= n < q * d + d
  {
    DivideBounds(n, d);
    n / d
  }

  lemma DivideBounds(n: nat, d: nat)
    requires 0 < d
    ensures 0 <= n / d && n / d * d <= n < n / d * d + d
  {
    assert n == n / d * d + n % d;
  }

  lemma QuotientIs(n: nat, d: nat, q: nat)
    requires 0 < d && q * d <= n < q * d + d
    ensures Quotient(n, d) == q
  {
    var p := Quotient(n, d);
    hide Quotient;
    if p < q {
      Wider(p + 1, q, d);
    } else if q < p {
      Wider(q + 1, p, d);
    }
  }

  lemma Wider(a: nat, b: nat, d: nat)
    requires a <= b
    ensures a * d <= b * d
  {
  }

  lemma Grows(k: nat, d: nat)
    requires 0 < d
    ensures k <= k * d
  {
  }

  // DrmModeVRefresh, in 32-bit arithmetic.
  function Refresh(clock: nat, h: nat, v: nat): (r: nat)
    requires h < MOD32 && v < MOD32
  {
    if h == 0 || v == 0 then 0
    else Quotient((Quotient(clock * 1000 % MOD32, h) + SignedHalf(v)) % MOD32, v)
  }

  lemma RefreshIs(clock: nat, h: nat, v: nat, lines: nat, refresh: nat)
    requires 0 < h < MOD32 && 0 < v < MOD32 / 2 && clock * 1000 < MOD32 && lines + v / 2 < MOD32
    requires lines * h <= clock * 1000 < lines * h + h
    requires refresh * v <= lines + v / 2 < refresh * v + v
    ensures Refresh(clock, h, v) == refresh
  {
    hide Quotient;
    QuotientIs(clock * 1000, h, lines);
    QuotientIs(lines + v / 2, v, refresh);
    Unwrapped(clock * 1000);
    Unwrapped(lines + v / 2);
  }

  function VRefresh(m: DisplayMode): (r: nat) {
    Refresh(m.oscFreq, HTotal(m), VTotal(m))
  }

  lemma Unwrapped(n: nat)
    requires n < MOD32
    ensures n % MOD32 == n
  {
  }

  lemma Nearest(n: nat, v: nat, q: nat)
    requires q * v <= n + v / 2 < q * v + v
    ensures 2 * n - v <= 2 * (q * v) <= 2 * n + v
  {
  }

  // For every clock the hardware takes, this is the line rate over the lines of a frame, rounded to
  // the nearest whole.
  lemma RefreshRounds(clock: nat, h: nat, v: nat)
    requires clock <= PIXEL_CLOCK_MAX && 0 < h < MOD32 && 0 < v < MOD32 / 2
    ensures var lines := Quotient(clock * 1000, h);
            2 * lines - v <= 2 * (Refresh(clock, h, v) * v) <= 2 * lines + v
  {
    hide Quotient;
    var lines := Quotient(clock * 1000, h);
    Grows(lines, h);
    Unwrapped(clock * 1000);
    Unwrapped(lines + v / 2);
    Nearest(lines, v, Refresh(clock, h, v));
  }

  // ABS of a difference taken as a signed 32-bit number.
  function Distance(a: nat, b: nat): (n: nat)
    ensures a < MOD32 / 2 && b < MOD32 / 2 ==> n == if a < b then b - a else a - b
  {
    var w := (a - b) % MOD32;
    if w <= MOD32 / 2 then w else MOD32 - w
  }

  lemma NoDistance(a: nat)
    ensures Distance(a, a) == 0
  {
  }

  predicate SameTiming(m: DisplayMode, n: DisplayMode) {
    m.(vic := n.vic, oscFreq := n.oscFreq) == n
  }

  // What the three table searches look for.
  datatype Key = Vic(vic: nat) | Resolution(h: nat, v: nat, refresh: nat) | Like(mode: DisplayMode, tolerance: nat)

  predicate Fits(m: DisplayMode, key: Key) {
    match key
    case Vic(vic) => m.vic == vic
    case Resolution(h, v, refresh) => m.hActive == h && m.vActive == v && VRefresh(m) == refresh
    case Like(mode, tolerance) => SameTiming(mode, m) && Distance(mode.oscFreq, m.oscFreq) <= tolerance
  }

  // The first entry that fits, from index i on.
  function LookupFrom(table: seq<DisplayMode>, key: Key, i: nat): (r: Option<DisplayMode>)
    requires i <= |table|
    decreases |table| - i
  {
    if i == |table| then None
    else if Fits(table[i], key) then Some(table[i])
    else LookupFrom(table, key, i + 1)
  }

  function Lookup(table: seq<DisplayMode>, key: Key): (r: Option<DisplayMode>) {
    LookupFrom(table, key, 0)
  }

  predicate IsFirst(table: seq<DisplayMode>, key: Key, from: nat, i: nat) {
    from <= i < |table| && Fits(table[i], key) && forall j :: from <= j < i ==> !Fits(table[j], key)
  }

  lemma {:induction false} LookupIsFirst(table: seq<DisplayMode>, key: Key, from: nat, i: nat)
    requires IsFirst(table, key, from, i)
    ensures LookupFrom(table, key, from) == Some(table[i])
    decreases i - from
  {
    if from < i {
      LookupIsFirst(table, key, from + 1, i);
    }
  }

  lemma {:induction false} LookupFinds(table: seq<DisplayMode>, key: Key, from: nat) returns (i: nat)
    requires from <= |table|
    ensures LookupFrom(table, key, from).Some? ==>
              IsFirst(table, key, from, i) && LookupFrom(table, key, from) == Some(table[i])
    ensures LookupFrom(table, key, from).None? ==> forall j :: from <= j < |table| ==> !Fits(table[j], key)
    decreases |table| - from
  {
    i := from;
    if from < |table| && !Fits(table[from], key) {
      i := LookupFinds(table, key, from + 1);
    }
  }

  method GetByVic(table: seq<DisplayMode>, vic: nat) returns (r: Option<DisplayMode>)
    ensures r == Lookup(table, Vic(vic))
  {
    var i := 0;
    while i < |table|
      invariant i <= |table| && LookupFrom(table, Vic(vic), 0) == LookupFrom(table, Vic(vic), i)
    {
      if table[i].vic == vic {
        return Some(table[i]);
      }
      i := i + 1;
    }
    return None;
  }

  method GetByResolution(table: seq<DisplayMode>, h: nat, v: nat, refresh: nat) returns (r: Option<DisplayMode>)
    ensures r == Lookup(table, Resolution(h, v, refresh))
  {
    hide VRefresh;
    var i := 0;
    while i < |table|
      invariant i <= |table|
      invariant LookupFrom(table, Resolution(h, v, refresh), 0) == LookupFrom(table, Resolution(h, v, refresh), i)
    {
      if table[i].hActive == h && table[i].vActive == v && VRefresh(table[i]) == refresh {
        return Some(table[i]);
      }
      i := i + 1;
    }
    return None;
  }

  method Match(table: seq<DisplayMode>, m: DisplayMode, tolerance: nat) returns (r: Option<DisplayMode>)
    ensures r == Lookup(table, Like(m, tolerance))
  {
    hide Distance;
    var i := 0;
    while i < |table|
      invariant i <= |table| && LookupFrom(table, Like(m, tolerance), 0) == LookupFrom(table, Like(m, tolerance), i)
    {
      var n := table[i];
      i := i + 1;
      if m.hActive != n.hActive || m.hFrontPorch != n.hFrontPorch || m.hSync != n.hSync
         || m.hBackPorch != n.hBackPorch || m.hSyncActive != n.hSyncActive
         || m.vActive != n.vActive || m.vFrontPorch != n.vFrontPorch || m.vSync != n.vSync
         || m.vBackPorch != n.vBackPorch || m.vSyncActive != n.vSyncActive
         || m.denActive != n.denActive || m.clkActive != n.clkActive {
        continue;
      }
      if Distance(m.oscFreq, n.oscFreq) > tolerance {
        continue;
      }
      return Some(n);
    }
    return None;
  }

  // ---- A descriptor against the table ----

  // EdidDetailedTimingToDisplayModeMatch: a predefined mode of the same timing lends its code and clock.
  function Resolve(table: seq<DisplayMode>, d: seq<Byte>): (r: Option<DisplayMode>)
    requires |d| == DESCRIPTOR_SIZE
  {
    match Decode(d)
    case Mode(m) =>
      (match Lookup(table, Like(m, CLOCK_RESOLUTION / 2))
       case Some(n) => Some(m.(vic := n.vic, oscFreq := n.oscFreq))
       case None => Some(m))
    case _ => None
  }

  method DecodeAndMatch(table: seq<DisplayMode>, d: seq<Byte>) returns (r: Option<DisplayMode>)
    requires |d| == DESCRIPTOR_SIZE
    ensures r == Resolve(table, d)
  {
    hide Decode, Lookup;
    var decoded := Decode(d);
    if !decoded.Mode? {
      return None;
    }
    var m := decoded.mode;
    var n := Match(table, m, CLOCK_RESOLUTION / 2);
    if n.Some? {
      m := m.(vic := n.value.vic);
      if m.oscFreq != n.value.oscFreq {
        m := m.(oscFreq := n.value.oscFreq);
      }
    }
    return Some(m);
  }

  // The packed clock counts tens of kHz.
  function RoundedClock(n: nat): (r: nat) {
    (n + CLOCK_RESOLUTION / 2) / CLOCK_RESOLUTION * CLOCK_RESOLUTION
  }

  // A predefined mode sent as a descriptor, its clock rounded to what the packed form can hold, comes
  // back as exactly that table entry unless an earlier entry of the same timing is as close.
  lemma RoundedModeComesBack(table: seq<DisplayMode>, i: nat, x: Extras)
    requires i < |table| && ValidExtras(x)
    requires var m := table[i].(vic := 0, oscFreq := RoundedClock(table[i].oscFreq));
             Encodable(m) && IsFirst(table, Like(m, CLOCK_RESOLUTION / 2), 0, i)
    ensures Resolve(table, Encode(table[i].(vic := 0, oscFreq := RoundedClock(table[i].oscFreq)), x)) == Some(table[i])
  {
    hide Encode, Decode, Encodable;
    var m := table[i].(vic := 0, oscFreq := RoundedClock(table[i].oscFreq));
    DecodeEncoded(m, x);
    LookupIsFirst(table, Like(m, CLOCK_RESOLUTION / 2), 0, i);
  }

  // Rounding stays inside the tolerance, so the entry itself always fits.
  lemma RoundedClockFits(m: DisplayMode)
    requires m.oscFreq < MOD32 / 4
    ensures Fits(m, Like(m.(vic := 0, oscFreq := RoundedClock(m.oscFreq)), CLOCK_RESOLUTION / 2))
  {
    var q, r := (m.oscFreq + 5) / 10, (m.oscFreq + 5) % 10;
    assert RoundedClock(m.oscFreq) == m.oscFreq + 5 - r;
  }

  // What a match changes: the code, and the clock by no more than the tolerance.
  lemma MatchStaysClose(table: seq<DisplayMode>, d: seq<Byte>)
    requires |d| == DESCRIPTOR_SIZE
    ensures Resolve(table, d).Some? <==> Decode(d).Mode?
    ensures Resolve(table, d).Some? ==>
              var m, n := Decode(d).mode, Resolve(table, d).value;
              && SameTiming(m, n) && Distance(m.oscFreq, n.oscFreq) <= CLOCK_RESOLUTION / 2
              && (n.vic != 0 ==> n in table)
  {
    hide Decode, Encode, LookupFrom, Distance;
    if Decode(d).Mode? {
      var m := Decode(d).mode;
      NoDistance(m.oscFreq);
      EncodeDecoded(d);
      var i := LookupFinds(table, Like(m, CLOCK_RESOLUTION / 2), 0);
    }
  }
}
