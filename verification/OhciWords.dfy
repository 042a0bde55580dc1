// The words of descriptors and the bits of transfer results as the hardware and the USB stack have
// them (OpenHCI Release 1.0a, sections 4.3.1 and 4.3.3), and what the walkers and the context list
// make of them.
module OhciWords {
  import opened OhciSpec
  import opened OhciChain
  import opened OhciWalk
  import opened OhciSched
  import opened Wrappers

  function Least(a: int, b: int): (r: int) {
    if a <= b then a else b
  }

  // Data descriptor i: buffer rounding, no interrupt delay, DATA0 or DATA1 of its own, not accessed
  // yet, and the addresses of its first and its last byte.
  lemma DataWords(address: nat, left: nat, mps: nat, toggle: nat, dirPid: nat, i: nat)
    requires mps > 0 && toggle < 2 && i < |Pieces(address, left, mps, toggle, dirPid)|
    ensures var n, at := Least(mps, left - i * mps), address + i * mps;
            && 0 < n
            && Pieces(address, left, mps, toggle, dirPid)[i]
               == TdVal(1, dirPid, 7, if (toggle + i) % 2 == 0 then 2 else 3, 0, 14, at % 0x1_0000_0000,
                        (at + n - 1) % 0x1_0000_0000, at % 0x1_0000_0000, n)
  {
    hide Pieces;
    PieceAt(address, left, mps, toggle, dirPid, i);
    LastByte(address + i * mps, Least(mps, left - i * mps));
  }

  lemma LastByte(at: nat, n: nat)
    requires 0 < n
    ensures Before32(at + n) == (at + n - 1) % 0x1_0000_0000
  {
  }

  // A control transfer: the request under DATA0, the data from DATA1 on in turn, the status under
  // DATA1, and the neutral descriptor.
  lemma ControlWords(request: nat, address: nat, length: nat, mps: nat, dataPid: nat, statusPid: nat, i: nat)
    requires mps > 0
    requires var n := |Pieces(address, length, mps, 1, dataPid)|; i < n + 3
    ensures var n := |Pieces(address, length, mps, 1, dataPid)|;
            var vs := [SetupVal(request)] + Pieces(address, length, mps, 1, dataPid) + [StatusVal(statusPid), EMPTY];
            && |vs| == n + 3
            && (i == 0 ==> vs[i] == TdVal(1, 0, 7, 2, 0, 14, request % 0x1_0000_0000, (request + 7) % 0x1_0000_0000,
                                          request % 0x1_0000_0000, 8))
            && (1 <= i <= n ==> vs[i].dirPid == dataPid && vs[i].toggle == (if i % 2 == 1 then 3 else 2) && vs[i].code == 14)
            && (i == n + 1 ==> vs[i] == TdVal(1, statusPid, 7, 3, 0, 14, 0, 0, 0, 0))
            && (i == n + 2 ==> vs[i] == TdVal(0, 0, 0, 0, 0, 0, 0, 0, 0, 0))
  {
    hide Pieces;
    var n := |Pieces(address, length, mps, 1, dataPid)|;
    if 1 <= i <= n {
      DataWords(address, length, mps, 1, dataPid, i - 1);
    }
  }

  // Where the walker finds every data descriptor clean, the toggle it goes on with is the one the
  // builder handed back for the next transfer.
  lemma WalkerGoesOn(vs: seq<TdVal>, address: nat, left: nat, mps: nat, toggle: nat, dirPid: nat)
    requires var ps := Pieces(address, left, mps, toggle, dirPid);
             && mps > 0 && toggle < 2 && |vs| == |ps|
             && forall i :: 0 <= i < |vs| ==> vs[i].code == 0 && vs[i].toggle == ps[i].toggle
    ensures NextToggle(vs, toggle) == Toggled(toggle, |Pieces(address, left, mps, toggle, dirPid)|) == (toggle + |vs|) % 2
  {
    hide Pieces, Flip;
    if vs != [] {
      DataWords(address, left, mps, toggle, dirPid, |vs| - 1);
      OneFurther(toggle, |vs| - 1);
    }
    AllPassed(vs);
    hide Passed;
  }

  lemma OneFurther(toggle: nat, n: nat)
    ensures Flip((if (toggle + n) % 2 == 0 then 2 else 3) % 2) == (toggle + (n + 1)) % 2
  {
  }

  lemma AllPassed(vs: seq<TdVal>)
    requires forall i :: 0 <= i < |vs| ==> vs[i].code == 0
    ensures Passed(vs) == |vs|
  {
  }

  // The transfer result for each completion code: no error, CRC, bit stuffing, toggle mismatch, stall,
  // no response, PID check, unexpected PID, data overrun and underrun, two reserved, buffer overrun
  // and underrun, and two for not accessed.
  const RESULTS: seq<bv32> := [0x000, 0x020, 0x080, 0x100, 0x002, 0x040, 0x100, 0x100,
                               0x100, 0x100, 0x100, 0x100, 0x004, 0x004, 0x001, 0x001]

  lemma ResultOfCode(code: nat)
    requires code < 16
    ensures ConvertErrorCode(code) == RESULTS[code]
  {
  }

  // A transfer is complete with code 0, left alone with 4, 14 and 15, and broken with any other.
  lemma FateOfCode(code: nat)
    requires code < 16
    ensures FateOf(code) == if code == 0 then Complete else if code in {4, 14, 15} then Waiting else Broken
    ensures Waits(RESULTS[code]) <==> code in {4, 14, 15}
  {
  }

  // A callback gets the start of the mapped buffer and the length of the first packet.
  lemma HandedOver(e: Entry, vs: seq<TdVal>)
    requires FirstCode(vs) < 16
    ensures Handing(e, vs) ==
            if FirstCode(vs) == 0 then [Delivery(e, e.address % 0x1_0000_0000, Least(e.length, e.mps), 0)]
            else if FirstCode(vs) in {4, 14, 15} then []
            else [Delivery(e, 0, 0, RESULTS[FirstCode(vs)])]
  {
    FateOfCode(FirstCode(vs));
    ResultOfCode(FirstCode(vs));
  }

  // Entry j was complete and shares its endpoint descriptor with entry i.
  ghost predicate Completed(es: seq<Entry>, was: seq<seq<TdVal>>, i: nat, j: nat)
    requires i < |es| == |was|
  {
    j < |es| && es[j].ed == es[i].ed && FirstCode(was[j]) == 0
  }

  // What a pass that has seen to the first k entries leaves of entry i. A complete one is submitted
  // again, from the toggle the controller carried over, or from 0 when an entry before it has used
  // that up; any other is as it was.
  lemma PassLeaves(es: seq<Entry>, was: seq<seq<TdVal>>, eds0: seq<EdVal>, k: nat, live: set<Td>, i: nat)
    requires InPass(es, was, eds0, k, live) && i < |es|
    ensures forall j :: 0 <= j < k ==> FirstCode(was[j]) in {0, 4, 14, 15}
    ensures if i < k && FirstCode(was[i]) == 0 then
              && Mirrored(es[i].chain)
              && Vals(es[i].chain) == FreshChain(es[i].address, es[i].length, es[i].mps,
                                                 if exists j: nat :: j < i && Completed(es, was, i, j) then 0 else eds0[i].carry, es[i].dirPid)
            else Vals(es[i].chain) == was[i]
  {
    hide Vals, Mirrored, FreshChain;
    assert Served(es, was, eds0, k, i);
    CompletedIs(es, was, i);
  }

  lemma CompletedIs(es: seq<Entry>, was: seq<seq<TdVal>>, i: nat)
    requires i < |es| == |was|
    ensures forall j: nat :: Completed(es, was, i, j) <==> j < |es| && Found(was[j]) == Complete && es[j].ed == es[i].ed
  {
    hide FirstCode;
  }

  // The last complete entry on the endpoint of entry i.
  lemma LastCompleted(es: seq<Entry>, was: seq<seq<TdVal>>, k: nat, i: nat)
    requires k <= |es| == |was| && i < |es|
    ensures LastOn(es, was, k, es[i].ed).None? <==> forall j: nat :: j < k ==> !Completed(es, was, i, j)
    ensures forall j: nat :: j < k && Completed(es, was, i, j) && (forall l: nat :: j < l < k ==> !Completed(es, was, i, l)) ==>
              LastOn(es, was, k, es[i].ed) == Some(j)
  {
    hide LastOn, Completed, Found;
    CompletedIs(es, was, i);
    var last := LastOn(es, was, k, es[i].ed);
    if last.Some? {
      assert Completed(es, was, i, last.value);
    }
  }

  // And of its endpoint descriptor: running the chain of the last complete entry on it, or as it was.
  lemma PassLeavesEndpoint(es: seq<Entry>, was: seq<seq<TdVal>>, eds0: seq<EdVal>, k: nat, live: set<Td>, i: nat)
    requires InPass(es, was, eds0, k, live) && i < |es|
    ensures (forall j: nat :: j < k ==> !Completed(es, was, i, j)) ==> es[i].ed.Val() == eds0[i]
    ensures forall j: nat :: j < k && Completed(es, was, i, j) && (forall l: nat :: j < l < k ==> !Completed(es, was, i, l)) ==>
              && !es[i].ed.skip && !es[i].ed.halted && es[i].ed.carry == 0 && es[i].ed.tail == eds0[i].tail
              && es[i].ed.head == At(es[j].chain, 0)
  {
    hide LastOn, Completed, Found, Served;
    LastCompleted(es, was, k, i);
    assert es[i].ed.Val() == EdAfter(es, was, eds0, k, i);
  }

  // A transfer cancelled before the controller has touched it hands back the toggle it was submitted with.
  lemma CancelledUntouched(e: Entry, toggle: nat, before: nat)
    requires e.mps > 0 && e.length > 0 && toggle < 2
    requires Vals(e.chain) == FreshChain(e.address, e.length, e.mps, toggle, e.dirPid)
    ensures ToggleAfter([e], before) == toggle
  {
    DataWords(e.address, e.length, e.mps, toggle, e.dirPid, 0);
    assert Vals(e.chain)[0] == e.chain[0].Val();
  }

  predicate Named(e: Entry, device: nat, endpoint: nat) {
    e.device == device && e.endpoint == endpoint
  }

  lemma SelectLast(es: seq<Entry>, device: nat, endpoint: nat, matching: bool)
    requires es != []
    ensures var n := |es| - 1;
            Select(es, device, endpoint, matching) == (
              Select(es[..n], device, endpoint, matching) + if Named(es[n], device, endpoint) == matching then [es[n]] else [])
  {
    var n := |es| - 1;
    assert es == es[..n] + [es[n]];
    SelectAppend(es[..n], [es[n]], device, endpoint, matching);
    assert [es[n]][1..] == [];
  }

  ghost predicate Ascending(at: seq<nat>) {
    forall k, l :: 0 <= k < l < |at| ==> at[k] < at[l]
  }

  lemma AscendingMore(at: seq<nat>, last: nat)
    requires Ascending(at) && forall k :: 0 <= k < |at| ==> at[k] < last
    ensures Ascending(at + [last])
  {
  }

  lemma NoneAscend()
    ensures Ascending([])
  {
  }

  // The entries selected for an endpoint are those that name its device and itself, in list order;
  // the others are those that do not.
  lemma {:induction false} SelectIsTheFilter(es: seq<Entry>, device: nat, endpoint: nat, matching: bool) returns (at: seq<nat>)
    ensures |at| == |Select(es, device, endpoint, matching)| && Ascending(at)
    ensures forall k :: 0 <= k < |at| ==> at[k] < |es| && Select(es, device, endpoint, matching)[k] == es[at[k]]
    ensures forall k :: 0 <= k < |at| ==> Named(es[at[k]], device, endpoint) == matching
    ensures forall i: nat :: i < |es| && Named(es[i], device, endpoint) == matching ==> i in at
  {
    hide Named, Ascending;
    if es == [] {
      at := [];
      NoneAscend();
    } else {
      var n: nat := |es| - 1;
      at := SelectIsTheFilter(es[..n], device, endpoint, matching);
      SelectLast(es, device, endpoint, matching);
      hide Select;
      if Named(es[n], device, endpoint) == matching {
        AscendingMore(at, n);
        at := at + [n];
      }
    }
  }
}
