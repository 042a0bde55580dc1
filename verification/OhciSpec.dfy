// Transfer descriptors by value: the chains that OHCI submissions build (OpenHCI Release 1.0a,
// section 4.3.1) and the completion codes found in them.
module OhciSpec {
  const NO_ERROR := 0x0
  const CRC_ERROR := 0x1
  const BITSTUFFING_ERROR := 0x2
  const DEVICE_STALL := 0x4
  const NO_RESPONSE := 0x5
  const BUFFER_OVERRUN := 0xC
  const BUFFER_UNDERRUN := 0xD
  const TOBE_PROCESSED := 0xE
  const TOBE_PROCESSED_2 := 0xF
  const NO_DELAY := 7
  const SETUP_PID := 0
  const OUT_PID := 1
  const IN_PID := 2
  const REQUEST_SIZE := 8

  // EFI_USB_* transfer results
  const USB_NOERROR: bv32 := 0x000
  const USB_ERR_NOTEXECUTE: bv32 := 0x001
  const USB_ERR_STALL: bv32 := 0x002
  const USB_ERR_BUFFER: bv32 := 0x004
  const USB_ERR_CRC: bv32 := 0x020
  const USB_ERR_TIMEOUT: bv32 := 0x040
  const USB_ERR_BITSTUFF: bv32 := 0x080
  const USB_ERR_SYSTEM: bv32 := 0x100

  // A descriptor's words, links aside. Of the two toggle bits the upper one says that the lower one
  // counts, rather than the endpoint's carry.
  datatype TdVal = TdVal(rounding: nat, dirPid: nat, delay: nat, toggle: nat, errors: nat, code: nat,
                         current: nat, bufferEnd: nat, dataBuffer: nat, length: nat)

  function Trunc32(n: nat): (r: nat) {
    n % 0x1_0000_0000
  }

  // n - 1 in UINT32
  function Before32(n: nat): (r: nat) {
    Trunc32(n + 0xFFFF_FFFF)
  }

  // The toggle field as OhciSetTDField sets it: the upper bit always.
  function OwnToggle(toggle: nat): (r: nat) {
    2 + toggle % 2
  }

  function DataVal(address: nat, n: nat, toggle: nat, dirPid: nat): (r: TdVal) {
    TdVal(1, dirPid, NO_DELAY, OwnToggle(toggle), 0, TOBE_PROCESSED, Trunc32(address), Before32(address + n), Trunc32(address), n)
  }

  // The neutral descriptor that ends a chain.
  const EMPTY := TdVal(0, 0, 0, 0, 0, 0, 0, 0, 0, 0)

  function SetupVal(request: nat): (r: TdVal) {
    TdVal(1, SETUP_PID, NO_DELAY, OwnToggle(0), 0, TOBE_PROCESSED, Trunc32(request), Trunc32(request + REQUEST_SIZE - 1), Trunc32(request), REQUEST_SIZE)
  }

  function StatusVal(dirPid: nat): (r: TdVal) {
    TdVal(1, dirPid, NO_DELAY, OwnToggle(1), 0, TOBE_PROCESSED, 0, 0, 0, 0)
  }

  function Piece(left: nat, mps: nat): (r: nat) {
    if left > mps then mps else left
  }

  function Flip(toggle: nat): (r: nat) {
    if toggle == 0 then 1 else 0
  }

  // The data descriptors of a transfer of left bytes at address.
  function Pieces(address: nat, left: nat, mps: nat, toggle: nat, dirPid: nat): (ps: seq<TdVal>)
    decreases left
  {
    if left == 0 || mps == 0 then []
    else
      var n := Piece(left, mps);
      [DataVal(address, n, toggle, dirPid)] + Pieces(address + n, left - n, mps, Flip(toggle), dirPid)
  }

  function Toggled(toggle: nat, count: nat): (r: nat) {
    (toggle + count) % 2
  }

  // One descriptor per started packet: the count is left / mps rounded up.
  lemma {:induction false} PieceCount(address: nat, left: nat, mps: nat, toggle: nat, dirPid: nat)
    requires mps > 0
    ensures var n := |Pieces(address, left, mps, toggle, dirPid)|; n * mps >= left && (n > 0 ==> (n - 1) * mps < left)
    decreases left
  {
    if left > 0 {
      var n := Piece(left, mps);
      var rest := Pieces(address + n, left - n, mps, Flip(toggle), dirPid);
      PieceCount(address + n, left - n, mps, Flip(toggle), dirPid);
      assert (|rest| + 1) * mps == |rest| * mps + mps;
      if |rest| > 0 {
        assert n == mps;
        assert |rest| * mps == (|rest| - 1) * mps + mps;
      }
    }
  }

  lemma ToggledNext(toggle: nat, i: nat)
    requires toggle < 2
    ensures Toggled(Flip(toggle), i) == Toggled(toggle, i + 1) && Toggled(toggle, 0) == toggle
  {
  }

  // Descriptor i carries its piece of the range, at its place, with the toggle alternating.
  lemma {:induction false} PieceAt(address: nat, left: nat, mps: nat, toggle: nat, dirPid: nat, i: nat)
    requires mps > 0 && toggle < 2 && i < |Pieces(address, left, mps, toggle, dirPid)|
    ensures i * mps < left
    ensures Pieces(address, left, mps, toggle, dirPid)[i]
            == DataVal(address + i * mps, Piece(left - i * mps, mps), Toggled(toggle, i), dirPid)
    decreases left
  {
    hide DataVal, Toggled;
    var n := Piece(left, mps);
    if i > 0 {
      assert n == mps && i * mps == (i - 1) * mps + mps;
      PieceAt(address + n, left - n, mps, Flip(toggle), dirPid, i - 1);
      ToggledNext(toggle, i - 1);
    } else {
      ToggledNext(toggle, 0);
    }
  }

  function TotalLength(ps: seq<TdVal>): (r: nat) {
    if ps == [] then 0 else ps[0].length + TotalLength(ps[1..])
  }

  lemma {:induction false} PiecesAddUp(address: nat, left: nat, mps: nat, toggle: nat, dirPid: nat)
    requires mps > 0
    ensures TotalLength(Pieces(address, left, mps, toggle, dirPid)) == left
    decreases left
  {
    if left > 0 {
      PiecesAddUp(address + Piece(left, mps), left - Piece(left, mps), mps, Flip(toggle), dirPid);
    }
  }

  lemma TruncSum(a: nat, n: nat)
    ensures Trunc32(Trunc32(a) + n) == Trunc32(a + n)
  {
    var q, r := a / 0x1_0000_0000, Trunc32(a);
    var p, s := (r + n) / 0x1_0000_0000, Trunc32(r + n);
    assert a + n == (q + p) * 0x1_0000_0000 + s;
  }

  lemma BeforeTrunc(a: nat, n: nat)
    ensures Before32(a + n) == Before32(Trunc32(a) + n)
  {
  }

  // The pieces tile the range: each starts where the one before ends and none is longer than a packet.
  lemma PiecesTile(address: nat, left: nat, mps: nat, toggle: nat, dirPid: nat, i: nat)
    requires mps > 0 && toggle < 2 && i < |Pieces(address, left, mps, toggle, dirPid)|
    ensures var ps := Pieces(address, left, mps, toggle, dirPid);
            && 0 < ps[i].length <= mps
            && ps[i].current == ps[i].dataBuffer
            && ps[i].bufferEnd == Before32(ps[i].dataBuffer + ps[i].length)
            && ps[i].dataBuffer == if i == 0 then Trunc32(address) else Trunc32(ps[i - 1].dataBuffer + ps[i - 1].length)
  {
    hide Pieces, DataVal, Trunc32, Before32, Toggled;
    PieceAt(address, left, mps, toggle, dirPid, i);
    var at, n := i * mps, Piece(left - i * mps, mps);
    DataFields(address + at, n, Toggled(toggle, i), dirPid);
    if i > 0 {
      PieceAt(address, left, mps, toggle, dirPid, i - 1);
      var before := (i - 1) * mps;
      Successor(i, mps);
      DataFields(address + before, mps, Toggled(toggle, i - 1), dirPid);
      TruncSum(address + before, mps);
    }
  }

  lemma Successor(i: nat, mps: nat)
    requires i > 0
    ensures i * mps == (i - 1) * mps + mps
  {
  }

  lemma DataFields(address: nat, n: nat, toggle: nat, dirPid: nat)
    ensures var v := DataVal(address, n, toggle, dirPid);
            && v.length == n && v.current == v.dataBuffer == Trunc32(address)
            && v.bufferEnd == Before32(v.dataBuffer + n)
  {
    hide Before32, Trunc32;
    BeforeTrunc(address, n);
  }

  // What the controller may write into a descriptor while it works on it.
  function Software(v: TdVal): (r: TdVal) {
    v.(toggle := 0, errors := 0, code := 0, current := 0)
  }

  function SoftwareAll(vs: seq<TdVal>): (r: seq<TdVal>)
    ensures |r| == |vs|
  {
    seq(|vs|, i requires 0 <= i < |vs| => Software(vs[i]))
  }

  // ---- Completion codes ----

  function ConvertErrorCode(code: nat): (r: bv32)
    ensures r == USB_NOERROR <==> code == NO_ERROR
  {
    if code == NO_ERROR then USB_NOERROR
    else if code == TOBE_PROCESSED || code == TOBE_PROCESSED_2 then USB_ERR_NOTEXECUTE
    else if code == DEVICE_STALL then USB_ERR_STALL
    else if code == BUFFER_OVERRUN || code == BUFFER_UNDERRUN then USB_ERR_BUFFER
    else if code == CRC_ERROR then USB_ERR_CRC
    else if code == NO_RESPONSE then USB_ERR_TIMEOUT
    else if code == BITSTUFFING_ERROR then USB_ERR_BITSTUFF
    else USB_ERR_SYSTEM
  }

  // OhciHouseKeeper leaves a transfer alone while it is waiting to be executed, or stalled.
  predicate Waits(result: bv32) {
    result & USB_ERR_STALL == USB_ERR_STALL || result & USB_ERR_NOTEXECUTE == USB_ERR_NOTEXECUTE
  }

  datatype Fate = Complete | Waiting | Broken

  function FateOf(code: nat): (r: Fate) {
    if code == NO_ERROR then Complete
    else if code == DEVICE_STALL || code == TOBE_PROCESSED || code == TOBE_PROCESSED_2 then Waiting
    else Broken
  }

  lemma FateIsDecided(code: nat)
    ensures Waits(ConvertErrorCode(code)) <==> FateOf(code) == Waiting
    ensures ConvertErrorCode(code) == USB_NOERROR <==> FateOf(code) == Complete
  {
  }

  // The first code that is not NO_ERROR, or NO_ERROR.
  function FirstCode(vs: seq<TdVal>): (r: nat) {
    if vs == [] then NO_ERROR
    else if vs[0].code != NO_ERROR then vs[0].code
    else FirstCode(vs[1..])
  }

  lemma {:induction false} FirstCodeAppend(a: seq<TdVal>, b: seq<TdVal>)
    ensures FirstCode(a + b) == if FirstCode(a) != NO_ERROR then FirstCode(a) else FirstCode(b)
  {
    if a == [] {
      assert a + b == b;
    } else {
      assert (a + b)[1..] == a[1..] + b;
      FirstCodeAppend(a[1..], b);
    }
  }

  lemma {:induction false} FirstCodeZero(vs: seq<TdVal>)
    ensures FirstCode(vs) == NO_ERROR <==> forall i :: 0 <= i < |vs| ==> vs[i].code == NO_ERROR
  {
    if vs != [] {
      FirstCodeZero(vs[1..]);
      assert forall i :: 1 <= i < |vs| ==> vs[i] == vs[1..][i - 1];
    }
  }

  // What OhciCheckTDsResults reports looks at every descriptor, CheckEDStatus at all but the tail.
  // The two agree exactly when the tail is clean or an earlier descriptor already decided.
  lemma WalkersAgreeExactlyWhen(vs: seq<TdVal>)
    requires vs != []
    ensures var n := |vs| - 1;
            ConvertErrorCode(FirstCode(vs)) == ConvertErrorCode(FirstCode(vs[..n]))
            <==> vs[n].code == NO_ERROR || FirstCode(vs[..n]) != NO_ERROR
  {
    var n := |vs| - 1;
    assert vs == vs[..n] + [vs[n]];
    FirstCodeAppend(vs[..n], [vs[n]]);
  }

  // How many descriptors in front completed cleanly.
  function Passed(vs: seq<TdVal>): (n: nat)
    ensures n <= |vs|
    ensures forall i :: 0 <= i < n ==> vs[i].code == NO_ERROR
    ensures n < |vs| ==> vs[n].code != NO_ERROR && FirstCode(vs) == vs[n].code
    ensures n == |vs| ==> FirstCode(vs) == NO_ERROR
  {
    if vs == [] || vs[0].code != NO_ERROR then 0 else 1 + Passed(vs[1..])
  }

  // ---- Re-arming ----

  // A descriptor's controller-written words as at submission.
  function Reset(v: TdVal, isTail: bool): (r: TdVal) {
    if isTail then v.(errors := 0, code := NO_ERROR, current := 0)
    else v.(errors := 0, code := TOBE_PROCESSED, current := v.dataBuffer)
  }

  // A completed chain made ready again: toggles alternate from the carry, the words the controller
  // writes are as at submission, the tail is neutral.
  function Rearmed(vs: seq<TdVal>, carry: nat): (r: seq<TdVal>)
    ensures |r| == |vs|
  {
    seq(|vs|, i requires 0 <= i < |vs| =>
      Reset(vs[i].(toggle := if i == |vs| - 1 then 0 else OwnToggle(Toggled(carry, i))), i == |vs| - 1))
  }

  function FreshChain(address: nat, length: nat, mps: nat, toggle: nat, dirPid: nat): (r: seq<TdVal>) {
    Pieces(address, length, mps, toggle, dirPid) + [EMPTY]
  }

  // What the toggles were and what the controller wrote does not matter: re-arming gives the very
  // chain that a new submission would, started with the carried toggle.
  lemma RearmedIsFresh(vs: seq<TdVal>, address: nat, length: nat, mps: nat, toggle: nat, carry: nat, dirPid: nat)
    requires mps > 0 && toggle < 2 && carry < 2
    requires SoftwareAll(vs) == SoftwareAll(FreshChain(address, length, mps, toggle, dirPid))
    ensures Rearmed(vs, carry) == FreshChain(address, length, mps, carry, dirPid)
  {
    var was, now := FreshChain(address, length, mps, toggle, dirPid), FreshChain(address, length, mps, carry, dirPid);
    SameCount(address, length, mps, toggle, carry, dirPid);
    var n := |vs| - 1;
    assert |was| == |now| == |vs|;
    forall i | 0 <= i < |vs| ensures Rearmed(vs, carry)[i] == now[i] {
      assert Software(vs[i]) == SoftwareAll(vs)[i] == Software(was[i]);
      if i < n {
        PieceAt(address, length, mps, toggle, dirPid, i);
        PieceAt(address, length, mps, carry, dirPid, i);
      }
    }
  }

  lemma {:induction false} SameCount(address: nat, length: nat, mps: nat, a: nat, b: nat, dirPid: nat)
    ensures |Pieces(address, length, mps, a, dirPid)| == |Pieces(address, length, mps, b, dirPid)|
    decreases length
  {
    if length > 0 && mps > 0 {
      SameCount(address + Piece(length, mps), length - Piece(length, mps), mps, Flip(a), Flip(b), dirPid);
    }
  }
}
