// The interrupt context list of OhciSched.c and the timer that serves it.
module OhciSched {
  import opened OhciSpec
  import opened OhciChain
  import opened OhciWalk
  import opened Wrappers

  // One asynchronous interrupt transfer. The chain it owns and the transfer it was built for are
  // remembered for the proofs.
  class Entry {
    const device: nat
    const endpoint: nat
    const ed: Ed
    const periodic: bool
    const hasCallback: bool
    var dataTd: Td?
    var next: Entry?
    ghost const chain: seq<Td>
    ghost const address: nat
    ghost const length: nat
    ghost const mps: nat
    ghost const dirPid: nat

    constructor (device: nat, endpoint: nat, ed: Ed, dataTd: Td?, hasCallback: bool, periodic: bool,
                 ghost chain: seq<Td>, ghost address: nat, ghost length: nat, ghost mps: nat, ghost dirPid: nat)
      ensures this.device == device && this.endpoint == endpoint && this.ed == ed && this.dataTd == dataTd
      ensures this.hasCallback == hasCallback && this.periodic == periodic && this.next == null
      ensures this.chain == chain && this.address == address && this.length == length && this.mps == mps && this.dirPid == dirPid
    {
      this.device, this.endpoint, this.ed, this.dataTd := device, endpoint, ed, dataTd;
      this.hasCallback, this.periodic, this.next := hasCallback, periodic, null;
      this.chain, this.address, this.length, this.mps, this.dirPid := chain, address, length, mps, dirPid;
    }
  }

  function EntryAt(es: seq<Entry>, i: int): (r: Entry?) {
    if 0 <= i < |es| then es[i] else null
  }

  // The entries reached from first, in order.
  ghost predicate Listed(first: Entry?, es: seq<Entry>)
    reads (set e | e in es)`next
  {
    && first == EntryAt(es, 0)
    && (forall i :: 0 <= i < |es| ==> es[i].next == EntryAt(es, i + 1))
    && (forall i, j :: 0 <= i < j < |es| ==> es[i] != es[j])
  }

  ghost function Owned(es: seq<Entry>): (r: set<Td>) {
    set e, t | e in es && t in e.chain :: t
  }

  // No two entries share a descriptor.
  ghost predicate Apart(es: seq<Entry>) {
    forall i, j :: 0 <= i < j < |es| ==> Members(es[i].chain) !! Members(es[j].chain)
  }

  // An entry of the list: periodic, with a callback, and with the chain of its own submission, of
  // which the controller has changed no more than the words it may write. The tail is not its to touch.
  ghost predicate Armed(e: Entry)
    reads e`dataTd, Members(e.chain)
  {
    && e.periodic && e.hasCallback && e.mps > 0
    && 2 <= |e.chain| && e.dataTd == e.chain[0] && Chain(e.dataTd, e.chain)
    && SoftwareAll(Vals(e.chain)) == SoftwareAll(FreshChain(e.address, e.length, e.mps, 0, e.dirPid))
    && e.chain[|e.chain| - 1].code == NO_ERROR
  }

  predicate Matches(e: Entry, device: nat, endpoint: nat) {
    e.device == device && e.endpoint == endpoint
  }

  // The entries for an endpoint, or the others, in list order.
  function Select(es: seq<Entry>, device: nat, endpoint: nat, matching: bool): (r: seq<Entry>) {
    if es == [] then []
    else if Matches(es[0], device, endpoint) == matching then [es[0]] + Select(es[1..], device, endpoint, matching)
    else Select(es[1..], device, endpoint, matching)
  }

  lemma {:induction false} SelectAppend(a: seq<Entry>, b: seq<Entry>, device: nat, endpoint: nat, matching: bool)
    ensures Select(a + b, device, endpoint, matching) == Select(a, device, endpoint, matching) + Select(b, device, endpoint, matching)
  {
    if a == [] {
      assert a + b == b;
    } else {
      var c := a + b;
      assert c[0] == a[0] && c[1..] == a[1..] + b;
      SelectAppend(a[1..], b, device, endpoint, matching);
    }
  }

  lemma {:induction false} SelectAll(es: seq<Entry>, device: nat, endpoint: nat, matching: bool)
    requires forall e <- es :: Matches(e, device, endpoint) == matching
    ensures Select(es, device, endpoint, matching) == es && Select(es, device, endpoint, !matching) == []
  {
    if es != [] {
      SelectAll(es[1..], device, endpoint, matching);
    }
  }

  function Without(es: seq<Entry>, k: nat): (r: seq<Entry>)
    requires k < |es|
  {
    es[..k] + es[k + 1..]
  }

  lemma SelectCons(e: Entry, es: seq<Entry>, device: nat, endpoint: nat)
    requires Matches(e, device, endpoint)
    ensures Select([e] + es, device, endpoint, true) == [e] + Select(es, device, endpoint, true)
    ensures Select([e] + es, device, endpoint, false) == Select(es, device, endpoint, false)
  {
    assert ([e] + es)[1..] == es;
  }

  // Taking out the first entry that matches.
  lemma SelectWithout(es: seq<Entry>, k: nat, device: nat, endpoint: nat)
    requires k < |es| && Matches(es[k], device, endpoint)
    requires forall e <- es[..k] :: !Matches(e, device, endpoint)
    ensures Select(Without(es, k), device, endpoint, false) == Select(es, device, endpoint, false)
    ensures [es[k]] + Select(Without(es, k), device, endpoint, true) == Select(es, device, endpoint, true)
  {
    var a, b := es[..k], es[k + 1..];
    assert es == a + ([es[k]] + b);
    SelectCons(es[k], b, device, endpoint);
    hide Select;
    SelectAll(a, device, endpoint, false);
    SelectAppend(a, [es[k]] + b, device, endpoint, false);
    SelectAppend(a, [es[k]] + b, device, endpoint, true);
    SelectAppend(a, b, device, endpoint, false);
    SelectAppend(a, b, device, endpoint, true);
  }

  lemma ApartWithout(es: seq<Entry>, k: nat)
    requires Apart(es) && k < |es|
    ensures Apart(Without(es, k))
    ensures forall e <- Without(es, k) :: e in es && Members(e.chain) !! Members(es[k].chain)
  {
    var r := Without(es, k);
    WithoutAt(es, k);
    forall i, j | 0 <= i < j < |r| ensures Members(r[i].chain) !! Members(r[j].chain) {
    }
    forall e | e in r ensures e in es && Members(e.chain) !! Members(es[k].chain) {
      var i :| 0 <= i < |r| && r[i] == e;
    }
  }

  method ListRemove(first: Entry?, prev: Entry?, ghost k: nat, ghost es: seq<Entry>) returns (first': Entry?, taken: Entry)
    requires Listed(first, es) && k < |es| && prev == EntryAt(es, k - 1)
    modifies (set f | f in es)`next
    ensures taken == es[k] && Listed(first', Without(es, k))
    ensures forall f <- Without(es, k) :: f != taken
  {
    first' := first;
    if prev == null {
      taken := first;
      first' := first.next;
    } else {
      taken := prev.next;
      prev.next := prev.next.next;
    }
    WithoutAt(es, k);
  }

  lemma WithoutAt(es: seq<Entry>, k: nat)
    requires k < |es|
    ensures forall i :: 0 <= i < |es| - 1 ==> Without(es, k)[i] == es[if i < k then i else i + 1]
    ensures |Without(es, k)| == |es| - 1
  {
  }

  // One call of a callback: on an error without a buffer, else with the first descriptor's.
  datatype Delivery = Delivery(entry: Entry, buffer: nat, length: nat, result: bv32)

  // What an entry's callback is handed, given what was found in its chain.
  ghost function Handing(e: Entry, vs: seq<TdVal>): (r: seq<Delivery>) {
    match Found(vs)
    case Complete => [Delivery(e, Trunc32(e.address), Piece(e.length, e.mps), USB_NOERROR)]
    case Waiting => []
    case Broken => [Delivery(e, 0, 0, ConvertErrorCode(FirstCode(vs)))]
  }

  // The deliveries to the first k entries; was[i] is what the pass found in the
  // chain of entry i.
  ghost function Handed(es: seq<Entry>, was: seq<seq<TdVal>>, k: nat): (r: seq<Delivery>)
    requires k <= |es| == |was|
  {
    if k == 0 then [] else Handed(es, was, k - 1) + Handing(es[k - 1], was[k - 1])
  }

  lemma NoneHanded(es: seq<Entry>, was: seq<seq<TdVal>>)
    requires |es| == |was|
    ensures Handed(es, was, 0) == []
  {
  }

  lemma HandedNext(es: seq<Entry>, was: seq<seq<TdVal>>, k: nat, before: seq<Delivery>)
    requires k < |es| == |was|
    ensures before + Handed(es, was, k) + Handing(es[k], was[k]) == before + Handed(es, was, k + 1)
  {
  }

  function Found(vs: seq<TdVal>): (r: Fate) {
    FateOf(FirstCode(vs))
  }

  // The last of the first k entries that was re-armed on this endpoint descriptor in this pass.
  ghost function LastOn(es: seq<Entry>, was: seq<seq<TdVal>>, k: nat, ed: Ed): (j: Option<nat>)
    requires k <= |es| == |was|
    ensures j.Some? ==> j.value < k && Found(was[j.value]) == Complete && es[j.value].ed == ed
    ensures forall l :: 0 <= l < k && Found(was[l]) == Complete && es[l].ed == ed ==> j.Some? && l <= j.value
  {
    if k == 0 then None
    else if Found(was[k - 1]) == Complete && es[k - 1].ed == ed then Some(k - 1)
    else LastOn(es, was, k - 1, ed)
  }

  // The toggle an entry starts from when it is re-armed: its endpoint's, unless that is used up.
  ghost function CarryFor(es: seq<Entry>, was: seq<seq<TdVal>>, eds0: seq<EdVal>, i: nat): (carry: Bit)
    requires i < |es| == |was| == |eds0|
  {
    if LastOn(es, was, i, es[i].ed).Some? then 0 else eds0[i].carry
  }

  // Entry i's endpoint after k entries have been seen to: running the chain of the last entry on it
  // that was re-armed, or as it was found.
  ghost function EdAfter(es: seq<Entry>, was: seq<seq<TdVal>>, eds0: seq<EdVal>, k: nat, i: nat): (v: EdVal)
    requires k <= |es| == |was| == |eds0| && i < |es|
  {
    match LastOn(es, was, k, es[i].ed)
    case Some(j) => EdVal(false, false, 0, At(es[j].chain, 0), eds0[i].tail)
    case None => eds0[i]
  }

  // Entry i after k entries have been seen to: re-armed if it was complete, else as it was found.
  ghost predicate Served(es: seq<Entry>, was: seq<seq<TdVal>>, eds0: seq<EdVal>, k: nat, i: nat)
    requires i < |es| == |was| == |eds0|
    reads Members(es[i].chain)
  {
    var e := es[i];
    if i < k && Found(was[i]) == Complete
    then Vals(e.chain) == FreshChain(e.address, e.length, e.mps, CarryFor(es, was, eds0, i), e.dirPid) && Mirrored(e.chain)
    else Vals(e.chain) == was[i]
  }

  // A pass that has seen to the first k entries.
  ghost predicate InPass(es: seq<Entry>, was: seq<seq<TdVal>>, eds0: seq<EdVal>, k: nat, live: set<Td>)
    reads (set e: Entry | e in es :: e.ed), live
  {
    && k <= |es| == |was| == |eds0|
    && (forall i :: 0 <= i < k ==> Found(was[i]) != Broken)
    && (forall i :: 0 <= i < |es| ==> es[i].ed.Val() == EdAfter(es, was, eds0, k, i))
    && (forall i :: 0 <= i < |es| ==> Members(es[i].chain) <= live && Served(es, was, eds0, k, i))
  }

  lemma LastOnNext(es: seq<Entry>, was: seq<seq<TdVal>>, k: nat)
    requires k < |es| == |was|
    ensures forall i :: 0 <= i < |es| ==>
              LastOn(es, was, k + 1, es[i].ed)
              == if Found(was[k]) == Complete && es[k].ed == es[i].ed then Some(k) else LastOn(es, was, k, es[i].ed)
  {
  }

  // A completed entry's endpoint, and those that share it, change; the others do not.
  lemma EdAfterNext(es: seq<Entry>, was: seq<seq<TdVal>>, eds0: seq<EdVal>, k: nat)
    requires k < |es| == |was| == |eds0| && Found(was[k]) == Complete
    ensures forall i :: 0 <= i < |es| ==>
              EdAfter(es, was, eds0, k + 1, i)
              == if es[k].ed == es[i].ed then EdVal(false, false, 0, At(es[k].chain, 0), EdAfter(es, was, eds0, k, i).tail)
                 else EdAfter(es, was, eds0, k, i)
    ensures EdAfter(es, was, eds0, k, k).carry == CarryFor(es, was, eds0, k)
  {
    hide Found, LastOn;
    LastOnNext(es, was, k);
  }

  lemma ServedNow(es: seq<Entry>, was: seq<seq<TdVal>>, eds0: seq<EdVal>, k: nat)
    requires k < |es| == |was| == |eds0| && Found(was[k]) == Complete && Mirrored(es[k].chain)
    requires Vals(es[k].chain) == FreshChain(es[k].address, es[k].length, es[k].mps, CarryFor(es, was, eds0, k), es[k].dirPid)
    ensures Served(es, was, eds0, k + 1, k)
  {
  }

  lemma ServedStill(es: seq<Entry>, was: seq<seq<TdVal>>, eds0: seq<EdVal>, k: nat, i: nat)
    requires i < |es| == |was| == |eds0| && i != k && Served(es, was, eds0, k, i)
    ensures Served(es, was, eds0, k + 1, i)
  {
  }

  // The re-submission of one completed entry: the chain is what a new submission would have built,
  // started with the toggle the controller carried over.
  method Resubmit(e: Entry)
    requires Armed(e)
    modifies e.ed, Members(e.chain)
    ensures Armed(e) && Mirrored(e.chain)
    ensures Vals(e.chain) == FreshChain(e.address, e.length, e.mps, old(e.ed.carry), e.dirPid)
    ensures e.ed.Val() == EdVal(false, false, 0, e.dataTd, old(e.ed.tail))
  {
    hide Chain, Pieces, Rearmed;
    ghost var vs, carry := Vals(e.chain), e.ed.carry;
    RearmedIsFresh(vs, e.address, e.length, e.mps, 0, carry, e.dirPid);
    Rearm(e.ed, e.dataTd, e.chain);
    SoftwareOfFresh(e.address, e.length, e.mps, 0, carry, e.dirPid);
    assert Vals(e.chain)[|e.chain| - 1] == EMPTY;
  }

  lemma SoftwareOfFresh(address: nat, length: nat, mps: nat, a: nat, b: nat, dirPid: nat)
    requires mps > 0 && a < 2 && b < 2
    ensures SoftwareAll(FreshChain(address, length, mps, a, dirPid)) == SoftwareAll(FreshChain(address, length, mps, b, dirPid))
  {
    hide Pieces;
    var p, q := Pieces(address, length, mps, a, dirPid), Pieces(address, length, mps, b, dirPid);
    SameCount(address, length, mps, a, b, dirPid);
    forall i | 0 <= i < |p| ensures Software(p[i]) == Software(q[i]) {
      PieceAt(address, length, mps, a, dirPid, i);
      PieceAt(address, length, mps, b, dirPid, i);
    }
  }

  class Hc {
    const pool: Pool
    // InterruptContextList
    var list: Entry?
    ghost var entries: seq<Entry>
    // What callbacks were handed, and whether the task priority was left raised.
    var delivered: seq<Delivery>
    var raised: bool

    constructor (pool: Pool)
      ensures this.pool == pool && Valid() && entries == [] && delivered == [] && !raised
    {
      this.pool, list, entries, delivered, raised := pool, null, [], [], false;
    }

    ghost predicate Valid()
      reads this`list, this`entries, entries, pool, pool.live
    {
      && Listed(list, entries)
      && Apart(entries)
      && forall e <- entries :: Members(e.chain) <= pool.live && Armed(e)
    }

    // OhciAddInterruptContextEntry: to the end of the list.
    method Add(e: Entry)
      requires Valid() && Armed(e) && e !in entries && e.next == null
      requires Members(e.chain) <= pool.live && forall f <- entries :: Members(f.chain) !! Members(e.chain)
      modifies this`list, this`entries, (set f: Entry | f in entries)`next
      ensures Valid() && entries == old(entries) + [e]
    {
      hide Armed, Listed;
      list := ListAppend(list, e, entries);
      entries := entries + [e];
    }

    // OhciFreeInterruptContextEntry: every descriptor of the entry's chain goes back to the pool, once.
    method FreeEntry(e: Entry)
      requires Chain(e.dataTd, e.chain) && Members(e.chain) <= pool.live
      modifies pool, e`dataTd
      ensures pool.live == old(pool.live) - Members(e.chain)
      ensures pool.available == old(pool.available) + |e.chain|
    {
      FreeChain(pool, e.dataTd, e.chain);
      e.dataTd := null;
    }

    // Take the entry behind prev, or the first, out of the list and free it.
    method Remove(prev: Entry?, ghost k: nat) returns (toggle: nat)
      requires Valid() && k < |entries| && prev == EntryAt(entries, k - 1)
      modifies this`list, this`entries, pool, (set f: Entry | f in entries)`next, (set f: Entry | f in entries)`dataTd
      ensures Valid() && entries == Without(old(entries), k)
      ensures pool.live == old(pool.live) - Members(old(entries[k]).chain)
      ensures pool.available == old(pool.available) + |old(entries[k]).chain|
      ensures toggle == old(entries[k].chain[0].toggle) % 2
    {
      hide Listed, Armed, Apart, Chain, Without;
      var e;
      ApartWithout(entries, k);
      ArmedChain(entries[k]);
      list, e := ListRemove(list, prev, k, entries);
      toggle := e.dataTd.toggle % 2;
      FreeEntry(e);
      entries := Without(entries, k);
    }

    lemma PassStarts() returns (was: seq<seq<TdVal>>, eds0: seq<EdVal>)
      requires Valid()
      ensures |was| == |eds0| == |entries|
      ensures forall i :: 0 <= i < |entries| ==> was[i] == Vals(entries[i].chain) && eds0[i] == entries[i].ed.Val()
      ensures InPass(entries, was, eds0, 0, pool.live)
    {
      hide Vals, Armed, Listed, Apart;
      var es := entries;
      was := seq(|es|, i requires 0 <= i < |es| reads if 0 <= i < |es| then Members(es[i].chain) else {} => Vals(es[i].chain));
      eds0 := seq(|es|, i requires 0 <= i < |es| reads if 0 <= i < |es| then {es[i].ed} else {} => es[i].ed.Val());
    }

    lemma EntryOf(k: nat)
      requires Valid() && k < |entries|
      ensures Armed(entries[k]) && Members(entries[k].chain) <= pool.live
      ensures forall i :: 0 <= i < |entries| && i != k ==> Members(entries[i].chain) !! Members(entries[k].chain)
    {
    }

    // A completed entry of the pass: only its own chain and its endpoint change.
    method VisitComplete(entry: Entry, ghost was: seq<seq<TdVal>>, ghost eds0: seq<EdVal>, ghost k: nat)
      requires Valid() && InPass(entries, was, eds0, k, pool.live) && k < |entries| && entry == entries[k]
      requires Found(was[k]) == Complete
      modifies entry.ed, Members(entry.chain)
      ensures Valid() && InPass(entries, was, eds0, k + 1, pool.live)
    {
      hide Armed, Vals, Mirrored, Listed, Found, LastOn, FreshChain, EdAfter, CarryFor, Served;
      EntryOf(k);
      EdAfterNext(entries, was, eds0, k);
      assert entry.ed.Val() == EdAfter(entries, was, eds0, k, k);
      Resubmit(entry);
      ServedNow(entries, was, eds0, k);
      forall i | 0 <= i < |entries| && i != k
        ensures Served(entries, was, eds0, k + 1, i) && Armed(entries[i])
      {
        assert Served(entries, was, eds0, k, i);
        ServedStill(entries, was, eds0, k, i);
      }
    }

    lemma VisitIncomplete(was: seq<seq<TdVal>>, eds0: seq<EdVal>, k: nat)
      requires InPass(entries, was, eds0, k, pool.live) && k < |entries| && Found(was[k]) == Waiting
      ensures InPass(entries, was, eds0, k + 1, pool.live)
    {
      hide Vals, Mirrored, Found, LastOn, FreshChain;
      LastOnNext(entries, was, k);
      var next := k + 1;
      forall i | 0 <= i < |entries| ensures Served(entries, was, eds0, next, i) {
        assert Served(entries, was, eds0, k, i);
      }
    }

    lemma FoundNow(was: seq<seq<TdVal>>, eds0: seq<EdVal>, k: nat)
      requires InPass(entries, was, eds0, k, pool.live) && k < |entries|
      ensures |was| == |entries| && Vals(entries[k].chain) == was[k]
    {
      hide Vals;
      assert Served(entries, was, eds0, k, k);
    }

    // One entry of the pass. It ends at an error.
    method Visit(entry: Entry, ghost was: seq<seq<TdVal>>, ghost eds0: seq<EdVal>, ghost k: nat) returns (go: bool)
      requires Valid() && InPass(entries, was, eds0, k, pool.live) && k < |entries| && entry == entries[k]
      modifies this`delivered, entry.ed, Members(entry.chain)
      ensures Valid() && go == (Found(was[k]) != Broken)
      ensures InPass(entries, was, eds0, if go then k + 1 else k, pool.live)
      ensures delivered == old(delivered) + Handing(entry, was[k])
    {
      hide Armed, Vals, Valid, InPass, ConvertErrorCode, Waits;
      EntryOf(k);
      FoundNow(was, eds0, k);
      ArmedChain(entry);
      ArmedFirst(entry);
      var ok, result := CheckTdsResults(entry.dataTd, entry.chain);
      FateIsDecided(FirstCode(was[k]));
      if Waits(result) {
        VisitIncomplete(was, eds0, k);
        return true;
      }
      if entry.hasCallback {
        var d := if result != USB_NOERROR then Delivery(entry, 0, 0, result)
                 else Delivery(entry, entry.dataTd.dataBuffer, entry.dataTd.length, result);
        delivered := delivered + [d];
      }
      if entry.periodic {
        if result == USB_NOERROR {
          VisitComplete(entry, was, eds0, k);
        } else {
          return false;
        }
      } else {
        assert false;
      }
      go := true;
    }

    // OhciHouseKeeper: from the head of the list to the first transfer that ended in an error, every
    // completed transfer is delivered and submitted again, every waiting one is left alone. The
    // error is delivered too, and ends the pass with the task priority still raised.
    method HouseKeeper() returns (ghost was: seq<seq<TdVal>>, ghost eds0: seq<EdVal>, ghost stop: nat)
      requires Valid()
      modifies this`delivered, this`raised, (set e: Entry | e in entries :: e.ed), pool.live
      ensures Valid() && entries == old(entries) && |was| == |eds0| == |entries|
      ensures forall i :: 0 <= i < |entries| ==> was[i] == old(Vals(entries[i].chain)) && eds0[i] == old(entries[i].ed.Val())
      ensures InPass(entries, was, eds0, stop, pool.live)
      ensures raised <==> stop < |entries|
      ensures stop < |entries| ==> Found(was[stop]) == Broken
      ensures delivered == old(delivered) + Handed(entries, was, if stop < |entries| then stop + 1 else stop)
    {
      hide Vals, Valid, InPass, Found, Handed, Ed.Val, Members, Armed, Listed;
      was, eds0 := PassStarts();
      raised := true;
      var clean;
      clean, stop := Pass(was, eds0);
      if clean {
        raised := false;
      }
    }

    // The entries one after the other, up to an error.
    method Pass(ghost was: seq<seq<TdVal>>, ghost eds0: seq<EdVal>) returns (clean: bool, ghost stop: nat)
      requires Valid() && InPass(entries, was, eds0, 0, pool.live) && |was| == |entries|
      modifies this`delivered, (set e: Entry | e in entries :: e.ed), pool.live
      ensures Valid() && InPass(entries, was, eds0, stop, pool.live) && stop <= |entries|
      ensures clean <==> stop == |entries|
      ensures !clean ==> Found(was[stop]) == Broken
      ensures delivered == old(delivered) + Handed(entries, was, if clean then stop else stop + 1)
    {
      hide Armed, Vals, Valid, InPass, Found, Handing, Handed, FirstCode, ConvertErrorCode, FateOf, Members, Listed, Ed.Val;
      ghost var es := entries;
      stop := 0;
      var entry := list;
      ListedAt(-1);
      NoneHanded(es, was);
      while entry != null
        invariant stop <= |es| && entry == EntryAt(es, stop)
        invariant Valid() && InPass(es, was, eds0, stop, pool.live)
        invariant delivered == old(delivered) + Handed(es, was, stop)
        decreases |es| - stop
      {
        ListedAt(stop);
        EntryOf(stop);
        HandedNext(es, was, stop, old(delivered));
        assert es[stop] in es;
        var go := Visit(entry, was, eds0, stop);
        if !go {
          return false, stop;
        }
        entry, stop := entry.next, stop + 1;
      }
      clean := true;
    }

    // What is gone and what is left make up the list there was, the descriptors of what is gone are
    // back in the pool, and the toggle is the last one's.
    ghost predicate CutFrom(orig: seq<Entry>, gone: seq<Entry>, live: set<Td>, device: nat, endpoint: nat)
      reads this`list, this`entries, entries, pool, pool.live
    {
      && Valid()
      && (forall e <- entries :: e in orig)
      && Select(entries, device, endpoint, false) == Select(orig, device, endpoint, false)
      && gone + Select(entries, device, endpoint, true) == Select(orig, device, endpoint, true)
      && pool.live == live - Owned(gone)
    }

    // Remove the first entry that matches.
    method RemoveMatching(prev: Entry?, device: nat, endpoint: nat, toggle0: nat, ghost k: nat,
                          ghost orig: seq<Entry>, ghost gone: seq<Entry>, ghost live: set<Td>)
      returns (toggle: nat, ghost gone': seq<Entry>)
      requires CutFrom(orig, gone, live, device, endpoint)
      requires k < |entries| && prev == EntryAt(entries, k - 1) && Matches(entries[k], device, endpoint)
      requires forall e <- entries[..k] :: !Matches(e, device, endpoint)
      modifies this`list, this`entries, pool, (set f: Entry | f in entries)`next, (set f: Entry | f in entries)`dataTd
      ensures CutFrom(orig, gone', live, device, endpoint) && entries == Without(old(entries), k)
      ensures toggle == ToggleAfter(gone', toggle0)
    {
      hide Listed, Select, Armed, Apart, Owned;
      ghost var e := entries[k];
      ArmedChain(e);
      SelectWithout(entries, k, device, endpoint);
      gone' := OneMore(gone, e, Select(Without(entries, k), device, endpoint, true), toggle0);
      toggle := Remove(prev, k);
    }

    // OhciFreeInterruptContext: first the matching entries at the head, then those further on.
    method FreeContext(device: nat, endpoint: nat, toggle0: nat) returns (toggle: nat)
      requires Valid()
      modifies this`list, this`entries, pool, (set f: Entry | f in entries)`next, (set f: Entry | f in entries)`dataTd
      ensures Valid() && entries == Select(old(entries), device, endpoint, false)
      ensures var gone := Select(old(entries), device, endpoint, true);
              pool.live == old(pool.live) - Owned(gone) && toggle == ToggleAfter(gone, toggle0)
    {
      hide Listed, Select, Valid, ToggleAfter, Owned;
      toggle := toggle0;
      ghost var orig, gone: seq<Entry>, live := entries, [], pool.live;
      OwnsNothing(Select(orig, device, endpoint, true), toggle0);
      ListedAt(-1);
      while list != null && Matches(list, device, endpoint)
        invariant CutFrom(orig, gone, live, device, endpoint) && list == EntryAt(entries, 0)
        invariant toggle == ToggleAfter(gone, toggle0)
        decreases |entries|
      {
        toggle, gone := RemoveMatching(null, device, endpoint, toggle0, 0, orig, gone, live);
        ListedAt(-1);
      }
      var entry := list;
      if entry == null {
        NothingLeft(orig, gone, live, device, endpoint);
        return;
      }
      ghost var k := 0;
      while entry.next != null
        invariant k < |entries| && entry == entries[k] && forall e <- entries[..k + 1] :: !Matches(e, device, endpoint)
        invariant CutFrom(orig, gone, live, device, endpoint)
        invariant toggle == ToggleAfter(gone, toggle0)
        decreases |entries| - k
      {
        ListedAt(k);
        if Matches(entry.next, device, endpoint) {
          toggle, gone := RemoveMatching(entry, device, endpoint, toggle0, k + 1, orig, gone, live);
        } else {
          entry := entry.next;
          k := k + 1;
        }
      }
      ListedAt(k);
      assert entries[..k + 1] == entries;
      NothingLeft(orig, gone, live, device, endpoint);
    }

    lemma ListedAt(k: int)
      requires Valid() && -1 <= k < |entries|
      ensures k == -1 ==> list == EntryAt(entries, 0)
      ensures 0 <= k ==> entries[k].next == EntryAt(entries, k + 1)
    {
    }

    lemma NothingLeft(orig: seq<Entry>, gone: seq<Entry>, live: set<Td>, device: nat, endpoint: nat)
      requires CutFrom(orig, gone, live, device, endpoint)
      requires forall e <- entries :: !Matches(e, device, endpoint)
      ensures entries == Select(orig, device, endpoint, false) && gone == Select(orig, device, endpoint, true)
    {
      hide Valid, Select;
      SelectAll(entries, device, endpoint, false);
      assert gone + [] == gone;
    }
  }

  lemma OwnsNothing(rest: seq<Entry>, toggle: nat)
    ensures Owned([]) == {} && [] + rest == rest && ToggleAfter([], toggle) == toggle
  {
  }

  lemma ArmedChain(e: Entry)
    requires Armed(e)
    ensures e.chain != [] && e.dataTd == e.chain[0] && Chain(e.dataTd, e.chain) && e.periodic && e.hasCallback
  {
  }

  // The buffer a callback gets is the start of the transfer's own.
  lemma ArmedFirst(e: Entry)
    requires Armed(e)
    ensures e.dataTd.dataBuffer == Trunc32(e.address) && e.dataTd.length == Piece(e.length, e.mps)
  {
    var vs, f := Vals(e.chain), FreshChain(e.address, e.length, e.mps, 0, e.dirPid);
    assert Software(vs[0]) == SoftwareAll(vs)[0] == SoftwareAll(f)[0] == Software(f[0]);
    PieceAt(e.address, e.length, e.mps, 0, e.dirPid, 0);
  }

  lemma OneMore(gone: seq<Entry>, e: Entry, rest: seq<Entry>, toggle: nat) returns (gone': seq<Entry>)
    requires e.chain != []
    ensures ToggleAfter(gone', toggle) == e.chain[0].toggle % 2
    ensures gone' == gone + [e] && gone' + rest == gone + ([e] + rest)
    ensures Owned(gone') == Owned(gone) + Members(e.chain)
  {
    gone' := gone + [e];
  }

  // The low toggle bit that freeing entries hands back: that of the last one's first descriptor.
  ghost function ToggleAfter(removed: seq<Entry>, toggle: nat): (r: nat)
    reads if removed == [] then {} else Members(removed[|removed| - 1].chain)
  {
    if removed == [] || removed[|removed| - 1].chain == [] then toggle
    else removed[|removed| - 1].chain[0].toggle % 2
  }

  method ListAppend(first: Entry?, e: Entry, ghost es: seq<Entry>) returns (first': Entry?)
    requires Listed(first, es) && e !in es && e.next == null
    modifies (set f | f in es)`next
    ensures Listed(first', es + [e])
  {
    first' := first;
    if first == null {
      first' := e;
    } else {
      var last: Entry := first;
      ghost var i := 0;
      while last.next != null
        invariant 0 <= i < |es| && last == es[i]
        decreases |es| - i
      {
        last := last.next;
        i := i + 1;
      }
      last.next := e;
    }
  }
}
