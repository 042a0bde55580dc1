// The modes DisplayModes.c predefines, and what the searches through any table come to on this one.
module PredefinedModes {
  import opened Bytes
  import opened DisplayModes
  import opened EdidCea
  import opened EdidOffers
  import opened EdidTiming
  import opened Wrappers

  const COUNT := 26

  const MODES: seq<DisplayMode> := [
    DisplayMode(1, 25175, 640, 16, 96, 48, 0, 480, 10, 2, 33, 0, 0, 0),
    DisplayMode(0, 40000, 800, 40, 128, 88, 1, 600, 1, 4, 23, 1, 0, 0),
    DisplayMode(0, 65000, 1024, 24, 136, 160, 0, 768, 3, 6, 29, 0, 0, 0),
    DisplayMode(0, 81750, 1152, 64, 120, 184, 0, 864, 3, 4, 26, 1, 0, 0),
    DisplayMode(4, 74250, 1280, 110, 40, 220, 1, 720, 5, 5, 20, 1, 0, 0),
    DisplayMode(0, 79500, 1280, 64, 128, 192, 0, 768, 3, 7, 20, 1, 0, 0),
    DisplayMode(0, 83500, 1280, 72, 128, 200, 0, 800, 3, 6, 22, 1, 0, 0),
    DisplayMode(0, 108000, 1280, 96, 112, 312, 1, 960, 1, 3, 36, 1, 0, 0),
    DisplayMode(0, 108000, 1280, 48, 112, 248, 1, 1024, 1, 3, 38, 1, 0, 0),
    DisplayMode(0, 85500, 1360, 64, 112, 256, 1, 768, 3, 6, 18, 1, 0, 0),
    DisplayMode(0, 121750, 1400, 88, 144, 232, 0, 1050, 3, 4, 32, 1, 0, 0),
    DisplayMode(0, 106500, 1440, 80, 152, 232, 0, 900, 3, 6, 25, 1, 0, 0),
    DisplayMode(0, 108000, 1600, 24, 80, 96, 1, 900, 1, 3, 96, 1, 0, 0),
    DisplayMode(0, 162000, 1600, 64, 192, 304, 1, 1200, 1, 3, 46, 1, 0, 0),
    DisplayMode(0, 146250, 1680, 104, 176, 280, 0, 1050, 3, 6, 30, 1, 0, 0),
    DisplayMode(16, 148500, 1920, 88, 44, 148, 1, 1080, 4, 5, 36, 1, 0, 0),
    DisplayMode(0, 154000, 1920, 48, 32, 80, 1, 1200, 3, 6, 26, 0, 0, 0),
    DisplayMode(0, 162000, 2048, 26, 80, 96, 1, 1152, 1, 3, 44, 1, 0, 0),
    DisplayMode(90, 198000, 2560, 248, 44, 148, 1, 1080, 4, 5, 11, 1, 0, 0),
    DisplayMode(0, 241500, 2560, 48, 32, 80, 1, 1440, 3, 5, 33, 1, 0, 0),
    DisplayMode(0, 268500, 2560, 48, 32, 80, 1, 1600, 3, 6, 37, 0, 0, 0),
    DisplayMode(0, 319750, 3440, 48, 32, 80, 1, 1440, 3, 10, 28, 0, 0, 0),
    DisplayMode(95, 297000, 3840, 176, 88, 296, 1, 2160, 8, 10, 72, 1, 0, 0),
    DisplayMode(97, 594000, 3840, 176, 88, 296, 1, 2160, 8, 10, 72, 1, 0, 0),
    DisplayMode(100, 297000, 4096, 88, 88, 128, 1, 2160, 8, 10, 72, 1, 0, 0),
    DisplayMode(102, 594000, 4096, 88, 88, 128, 1, 2160, 8, 10, 72, 1, 0, 0)]

  // Width, height and clock tell the modes apart.
  lemma ModesDiffer(i: nat, j: nat)
    requires i < j < COUNT
    ensures |MODES| == COUNT
    ensures MODES[i].hActive != MODES[j].hActive || MODES[i].vActive != MODES[j].vActive
            || MODES[i].oscFreq + 10 < MODES[j].oscFreq
  {
  }

  // The packed form has room for each of them but those 4096 pixels wide.
  lemma ModeFits(i: nat)
    requires i < COUNT
    ensures |MODES| == COUNT && MODES[i].oscFreq <= PIXEL_CLOCK_MAX
    ensures Encodable(Packed(MODES[i])) <==> MODES[i].hActive < 4096
  {
    hide RoundedClock;
    ClockIsRounded(MODES[i].oscFreq);
  }

  lemma ClockIsRounded(n: nat)
    ensures RoundedClock(n) % CLOCK_RESOLUTION == 0 && n - 5 < RoundedClock(n) <= n + 5
  {
    var q, r := (n + 5) / 10, (n + 5) % 10;
    assert RoundedClock(n) == q * 10 == n + 5 - r;
  }

  // A mode as a descriptor can carry it.
  function Packed(m: DisplayMode): (p: DisplayMode) {
    m.(vic := 0, oscFreq := RoundedClock(m.oscFreq))
  }

  // Any of those, sent as a descriptor with its clock rounded, is recognised as the mode it is.
  lemma EveryModeComesBack(i: nat, x: Extras)
    requires i < COUNT && ValidExtras(x) && |MODES| == COUNT && MODES[i].hActive < 4096
    ensures Encodable(Packed(MODES[i])) && Resolve(MODES, Encode(Packed(MODES[i]), x)) == Some(MODES[i])
  {
    hide MODES, Encodable, Encode, Resolve, RoundedClock;
    ModeFits(i);
    var m := Packed(MODES[i]);
    var key := Like(m, CLOCK_RESOLUTION / 2);
    RoundedClockFits(MODES[i]);
    ClockIsRounded(MODES[i].oscFreq);
    forall j | 0 <= j < i ensures !Fits(MODES[j], key) {
      ModesDiffer(j, i);
      ModeFits(j);
    }
    RoundedModeComesBack(MODES, i, x);
  }

  predicate EstablishedSize(h: nat, v: nat) {
    (h, v) in {(640, 480), (720, 400), (800, 600), (832, 624), (1024, 768), (1152, 870), (1280, 1024), (0, 0)}
  }

  lemma EstablishedHasSize(t: Timing)
    requires IsEstablished(t)
    ensures EstablishedSize(t.h, t.v) && ((t.h, t.v) == (1280, 1024) ==> t.refresh == 75)
  {
  }

  lemma ModeSize(i: nat)
    requires i < COUNT
    ensures |MODES| == COUNT && MODES[i].hActive < 0x1_0000 && MODES[i].vActive < 0x1_0000
    ensures i >= 3 && i != 8 ==> !EstablishedSize(MODES[i].hActive, MODES[i].vActive)
  {
  }

  lemma SizedRefresh()
    ensures Refresh(25175, 800, 525) == 60 && Refresh(40000, 1056, 628) == 60
    ensures Refresh(65000, 1344, 806) == 60 && Refresh(108000, 1688, 1066) == 60
  {
    hide Refresh;
    RefreshIs(25175, 800, 525, 31468, 60);
    RefreshIs(40000, 1056, 628, 37878, 60);
    RefreshIs(65000, 1344, 806, 48363, 60);
    RefreshIs(108000, 1688, 1066, 63981, 60);
  }

  // The four of them that have the size of an established timing are shown at 60 Hz.
  lemma SizedModes(i: nat)
    requires i < 3 || i == 8
    ensures |MODES| == COUNT
    ensures TimingOf(MODES[i]) == if i == 0 then Timing(640, 480, 60) else if i == 1 then Timing(800, 600, 60)
                                  else if i == 2 then Timing(1024, 768, 60) else Timing(1280, 1024, 60)
  {
    hide Refresh;
    SizedRefresh();
  }

  // Only three of the modes have an established timing.
  lemma ListedModes(i: nat)
    requires i < COUNT
    ensures |MODES| == COUNT && (IsEstablished(TimingOf(MODES[i])) <==> i < 3)
  {
    hide MODES, VRefresh, IsEstablished;
    ModeSize(i);
    if i < 3 || i == 8 {
      SizedModes(i);
      ThreeAreEstablished();
      if i == 8 && IsEstablished(TimingOf(MODES[i])) {
        EstablishedHasSize(TimingOf(MODES[i]));
      }
    } else if IsEstablished(TimingOf(MODES[i])) {
      EstablishedHasSize(TimingOf(MODES[i]));
    }
  }

  lemma ThreeAreEstablished()
    ensures IsEstablished(Timing(640, 480, 60)) && IsEstablished(Timing(800, 600, 60)) && IsEstablished(Timing(1024, 768, 60))
  {
    assert ESTABLISHED[0][5] == Timing(640, 480, 60);
    assert ESTABLISHED[0][0] == Timing(800, 600, 60);
    assert ESTABLISHED[1][3] == Timing(1024, 768, 60);
  }

  // Those three are in ascending order, as the established strategy wants it.
  lemma ListedModesAscend(i: nat, j: nat)
    requires i < j < COUNT && |MODES| == COUNT
    requires IsEstablished(TimingOf(MODES[i])) && IsEstablished(TimingOf(MODES[j]))
    ensures !Outranks(MODES[i], MODES[j])
  {
    hide IsEstablished, TimingOf;
    ListedModes(i);
    ListedModes(j);
  }

  // The whole of them is not: 1152 by 864 comes before 1280 by 720.
  lemma ModesDoNotAscend()
    ensures |MODES| == COUNT && Outranks(MODES[3], MODES[4])
  {
  }

  // On these modes the established strategy takes the largest one on offer.
  lemma LargestModeIsTaken(k: Sink, edid: seq<Byte>, i: nat)
    requires IsEdid(edid) && i < |MODES| == COUNT
    requires Listed(edid[ESTABLISHED_OFFSET..ESTABLISHED_OFFSET + ESTABLISHED_BYTES], TimingOf(MODES[i])) && Supported(k, MODES[i])
    ensures Pick(MODES, k, edid, 3).Some? && !Outranks(MODES[i], Pick(MODES, k, edid, 3).value)
  {
    hide MODES, IsEstablished, TimingOf, Outranks, Supported, Listed, Pick;
    forall a: nat, b: nat | a < b < |MODES| && IsEstablished(TimingOf(MODES[a])) && IsEstablished(TimingOf(MODES[b]))
      ensures !Outranks(MODES[a], MODES[b])
    {
      ListedModesAscend(a, b);
    }
    EstablishedTakesTheLargest(MODES, k, edid, i);
  }
}
