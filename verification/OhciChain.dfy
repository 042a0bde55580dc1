// Chains of transfer descriptors in memory: allocation, linking, the data stages of the transfers,
// and freeing.
module OhciChain {
  import opened OhciSpec

  class Td {
    var rounding: nat
    var dirPid: nat
    var delay: nat
    var toggle: nat
    var errors: nat
    var code: nat
    var current: nat
    // NextTD, the controller's link
    var hcNext: Td?
    var bufferEnd: nat
    // NextTDPointer, the driver's own link
    var next: Td?
    var dataBuffer: nat
    var length: nat

    constructor ()
      ensures next == null && hcNext == null && Val() == EMPTY
    {
      rounding, dirPid, delay, toggle, errors, code := 0, 0, 0, 0, 0, 0;
      current, bufferEnd, dataBuffer, length := 0, 0, 0, 0;
      hcNext, next := null, null;
    }

    ghost function Val(): (r: TdVal)
      reads this
    {
      TdVal(rounding, dirPid, delay, toggle, errors, code, current, bufferEnd, dataBuffer, length)
    }

    // The words the controller updates, as they were at submission.
    method ResetWords()
      modifies this
      ensures next == old(next) && hcNext == next && Val() == Reset(old(Val()), next == null)
    {
      if next == null {
        errors, code, current, hcNext := 0, NO_ERROR, 0, null;
        return;
      }
      errors := 0;
      code := TOBE_PROCESSED;
      hcNext := next;
      current := dataBuffer;
    }

    // One field of OhciSetTDField, or the bare bits of it.
    method SetToggle(field: nat)
      modifies this`toggle
      ensures Val() == old(Val()).(toggle := field)
    {
      toggle := field;
    }

    // The run of OhciSetTDField calls that fills a descriptor; it is not linked yet.
    method Fill(v: TdVal)
      modifies this
      ensures Val() == v && next == null && hcNext == null
    {
      rounding, dirPid, delay, toggle, errors, code := v.rounding, v.dirPid, v.delay, v.toggle, v.errors, v.code;
      current, bufferEnd, dataBuffer, length := v.current, v.bufferEnd, v.dataBuffer, v.length;
      hcNext, next := null, null;
    }
  }

  function At(tds: seq<Td>, i: int): (r: Td?) {
    if 0 <= i < |tds| then tds[i] else null
  }

  // The descriptors reached from head by the driver's links, in order.
  ghost predicate Chain(head: Td?, tds: seq<Td>)
    reads tds
  {
    && head == At(tds, 0)
    && (forall i :: 0 <= i < |tds| ==> tds[i].next == At(tds, i + 1))
    && (forall i, j :: 0 <= i < j < |tds| ==> tds[i] != tds[j])
  }

  // The controller's links are the driver's.
  ghost predicate Mirrored(tds: seq<Td>)
    reads tds
  {
    forall i :: 0 <= i < |tds| ==> tds[i].hcNext == tds[i].next
  }

  ghost function Vals(tds: seq<Td>): (vs: seq<TdVal>)
    reads tds
    ensures |vs| == |tds|
  {
    seq(|tds|, i requires 0 <= i < |tds| reads tds => tds[i].Val())
  }

  // Where a data stage stands: what is done and what is left make the whole.
  ghost predicate Progress(all: seq<TdVal>, done: seq<TdVal>, at: nat, left: nat, mps: nat, toggle0: nat, toggle: nat, dirPid: nat) {
    all == done + Pieces(at, left, mps, toggle, dirPid) && toggle == Toggled(toggle0, |done|)
  }

  lemma ProgressStep(all: seq<TdVal>, done: seq<TdVal>, at: nat, left: nat, mps: nat, toggle0: nat, toggle: nat, dirPid: nat)
    requires Progress(all, done, at, left, mps, toggle0, toggle, dirPid) && left > 0 && mps > 0 && toggle0 < 2
    ensures var n := Piece(left, mps);
            Progress(all, done + [DataVal(at, n, toggle, dirPid)], at + n, left - n, mps, toggle0, Flip(toggle), dirPid)
    ensures |done| < |all|
  {
    hide DataVal, Toggled;
    ToggledFlip(toggle0, |done|);
  }

  ghost function Members(tds: seq<Td>): (r: set<Td>) {
    set t | t in tds
  }

  // The memory pool, with what is allocated from it.
  class Pool {
    var available: nat
    ghost var live: set<Td>

    constructor (available: nat)
      ensures this.available == available && live == {}
    {
      this.available, live := available, {};
    }

    method Create() returns (td: Td?)
      modifies this
      ensures old(available) == 0 ==> td == null && available == 0 && live == old(live)
      ensures old(available) > 0 ==>
                && td != null && fresh(td) && td.next == null && td.hcNext == null && td.Val() == EMPTY
                && available == old(available) - 1 && live == old(live) + {td}
    {
      td := null;
      if available > 0 {
        td := new Td();
        available, live := available - 1, live + {td};
      }
    }

    // Only what is allocated can be freed, and only once.
    method Free(td: Td)
      requires td in live
      modifies this
      ensures available == old(available) + 1 && live == old(live) - {td}
    {
      available, live := available + 1, live - {td};
    }
  }

  // Link td to the end of the chain at head.
  method Link(head: Td?, td: Td, ghost tds: seq<Td>)
    requires Chain(head, tds) && Mirrored(tds) && tds != [] && td !in tds
    requires td.next == null && td.hcNext == null
    modifies tds
    ensures Chain(head, tds + [td]) && Mirrored(tds + [td])
    ensures Vals(tds + [td]) == old(Vals(tds)) + [old(td.Val())]
  {
    var last: Td := head;
    ghost var i := 0;
    while last.hcNext != null
      invariant 0 <= i < |tds| && last == tds[i]
      decreases |tds| - i
    {
      last := last.hcNext;
      i := i + 1;
    }
    assert i == |tds| - 1;
    last.hcNext := td;
    last.next := td;
  }

  // Free every descriptor of a chain.
  method FreeChain(pool: Pool, head: Td?, ghost tds: seq<Td>)
    requires Chain(head, tds) && Members(tds) <= pool.live
    modifies pool
    ensures pool.live == old(pool.live) - Members(tds)
    ensures pool.available == old(pool.available) + |tds|
  {
    var left := head;
    ghost var i := 0;
    while left != null
      invariant 0 <= i <= |tds| && left == At(tds, i)
      invariant pool.live == old(pool.live) - Members(tds[..i])
      invariant pool.available == old(pool.available) + i
      decreases |tds| - i
    {
      var td := left;
      assert td in tds && td !in tds[..i];
      left := left.next;
      pool.Free(td);
      assert Members(tds[..i + 1]) == Members(tds[..i]) + {td};
      i := i + 1;
    }
    assert tds[..i] == tds;
  }

  lemma ChainStarts(head: Td?, tds: seq<Td>)
    requires Chain(head, tds)
    ensures head == null <==> tds == []
    ensures tds == [] ==> Vals(tds) == []
  {
  }

  lemma AloneInChain(td: Td)
    requires td.next == null && td.hcNext == null
    ensures Chain(td, [td]) && Mirrored([td]) && Vals([td]) == [td.Val()]
  {
  }

  // One more descriptor at the end of a chain, or none when the pool is empty.
  method Append(pool: Pool, head: Td?, ghost tds: seq<Td>, v: TdVal) returns (head': Td?, td: Td?)
    requires Chain(head, tds) && Mirrored(tds)
    modifies pool, tds
    ensures td == null <==> old(pool.available) == 0
    ensures td == null ==>
              && head' == head && Chain(head, tds) && Mirrored(tds) && Vals(tds) == old(Vals(tds))
              && pool.available == 0 && pool.live == old(pool.live)
    ensures td != null ==>
              && fresh(td) && Chain(head', tds + [td]) && Mirrored(tds + [td])
              && Vals(tds + [td]) == old(Vals(tds)) + [v]
              && pool.available == old(pool.available) - 1 && pool.live == old(pool.live) + {td}
  {
    hide Chain, Mirrored, Vals;
    head' := head;
    td := pool.Create();
    if td != null {
      td.Fill(v);
      ChainStarts(head, tds);
      if head' == null {
        AloneInChain(td);
        assert [] + [td] == [td] && [] + [v] == [v];
        head' := td;
      } else {
        Link(head', td, tds);
      }
    }
  }

  // The data stage shared by control, bulk and interrupt transfers: one descriptor per packet,
  // linked behind what is already there. It stops when the pool is empty.
  method DataStage(pool: Pool, head0: Td?, ghost tds0: seq<Td>, address: nat, length: nat, mps: nat, toggle: nat, dirPid: nat)
    returns (head: Td?, toggle': nat, ok: bool, ghost added: seq<Td>)
    requires Chain(head0, tds0) && Mirrored(tds0) && toggle < 2
    modifies pool, tds0
    ensures Chain(head, tds0 + added) && Mirrored(tds0 + added) && forall i :: 0 <= i < |added| ==> fresh(added[i])
    ensures pool.live == old(pool.live) + Members(added) && pool.available == old(pool.available) - |added|
    ensures ok <==> length == 0 || (mps > 0 && |Pieces(address, length, mps, toggle, dirPid)| <= old(pool.available))
    ensures toggle' == Toggled(toggle, |added|)
    ensures !ok ==> |added| == old(pool.available)
    ensures ok ==>
              && Vals(tds0 + added) == old(Vals(tds0)) + Pieces(address, length, mps, toggle, dirPid)
              && |added| == |Pieces(address, length, mps, toggle, dirPid)|
  {
    hide Progress, DataVal, Chain, Mirrored, Vals, Pieces, Toggled;
    ghost var all, was := Pieces(address, length, mps, toggle, dirPid), Vals(tds0);
    ghost var done: seq<TdVal>, tds := [], tds0;
    var at, left: nat := address, length;
    head, added, toggle' := head0, [], toggle;
    ProgressStart(address, length, mps, toggle, dirPid);
    ToggledNext(toggle, 0);
    assert tds0 + added == tds0 && was + done == was;
    while left > 0
      invariant tds == tds0 + added && Chain(head, tds) && Mirrored(tds) && forall i :: 0 <= i < |added| ==> fresh(added[i])
      invariant pool.live == old(pool.live) + Members(added) && pool.available == old(pool.available) - |added|
      invariant (mps == 0 && length > 0) || Progress(all, done, at, left, mps, toggle, toggle', dirPid)
      invariant toggle' == Toggled(toggle, |added|) && toggle' < 2 && left <= length && (mps == 0 ==> left == length)
      invariant mps > 0 || length == 0 ==> Vals(tds) == was + done && |done| == |added|
      decreases pool.available
    {
      var n := left;
      if left > mps {
        n := mps;
      }
      var td;
      ghost var v := DataVal(at, n, toggle', dirPid);
      forall i | 0 <= i < |tds| ensures tds[i] in tds0 || fresh(tds[i]) {
        assert tds[i] == if i < |tds0| then tds0[i] else added[i - |tds0|];
      }
      if mps > 0 {
        ProgressStep(all, done, at, left, mps, toggle, toggle', dirPid);
      }
      ToggledFlip(toggle, |added|);
      head, td := Append(pool, head, tds, DataVal(at, n, toggle', dirPid));
      if td == null {
        ok := false;
        return;
      }
      added, tds := added + [td], tds + [td];
      assert (was + done) + [v] == was + (done + [v]);
      done := done + [v];
      toggle', at, left := Flip(toggle'), at + n, left - n;
    }
    ProgressEnd(all, done, at, mps, toggle, toggle', dirPid);
    ok := true;
  }

  lemma ProgressStart(address: nat, length: nat, mps: nat, toggle: nat, dirPid: nat)
    requires toggle < 2
    ensures Progress(Pieces(address, length, mps, toggle, dirPid), [], address, length, mps, toggle, toggle, dirPid)
  {
  }

  lemma ProgressEnd(all: seq<TdVal>, done: seq<TdVal>, at: nat, mps: nat, toggle0: nat, toggle: nat, dirPid: nat)
    requires Progress(all, done, at, 0, mps, toggle0, toggle, dirPid)
    ensures all == done && toggle == Toggled(toggle0, |all|)
  {
  }

  lemma ToggledFlip(toggle: nat, i: nat)
    requires toggle < 2
    ensures Flip(Toggled(toggle, i)) == Toggled(toggle, i + 1)
  {
  }

  // The chain of a bulk or an interrupt transfer: its data stage and the neutral tail, or nothing
  // at all and every descriptor back in the pool: then the toggle has been flipped once for each
  // descriptor there was. A packet size of 0 never succeeds.
  method BuildChain(pool: Pool, address: nat, length: nat, mps: nat, toggle: nat, dirPid: nat)
    returns (head: Td?, tail: Td?, toggle': nat, ok: bool, ghost tds: seq<Td>)
    requires length > 0 && toggle < 2
    modifies pool
    ensures ok <==> mps > 0 && |Pieces(address, length, mps, toggle, dirPid)| < old(pool.available)
    ensures ok ==>
              && Chain(head, tds) && Mirrored(tds) && (forall i :: 0 <= i < |tds| ==> fresh(tds[i])) && 2 <= |tds| && tail == tds[|tds| - 1]
              && Vals(tds) == Pieces(address, length, mps, toggle, dirPid) + [EMPTY]
              && toggle' == Toggled(toggle, |Pieces(address, length, mps, toggle, dirPid)|)
              && pool.live == old(pool.live) + Members(tds) && pool.available == old(pool.available) - |tds|
    ensures !ok ==>
              && head == null && toggle' == Toggled(toggle, old(pool.available))
              && pool.live == old(pool.live) && pool.available == old(pool.available)
  {
    hide Toggled, Chain, Mirrored, Vals, Pieces;
    ghost var added;
    tds := [];
    NoChain();
    head, toggle', ok, added := DataStage(pool, null, [], address, length, mps, toggle, dirPid);
    assert [] + added == added && [] + Pieces(address, length, mps, toggle, dirPid) == Pieces(address, length, mps, toggle, dirPid);
    if ok {
      head, tail := Append(pool, head, added, EMPTY);
      if tail != null {
        tds := added + [tail];
        PieceCount(address, length, mps, toggle, dirPid);
        return;
      }
    }
    FreeChain(pool, head, added);
    head, tail, ok := null, null, false;
  }

  // The chain of a control transfer: setup, data stage from toggle 1, status and the neutral tail.
  method BuildControlChain(pool: Pool, request: nat, address: nat, length: nat, mps: nat, dataPid: nat, statusPid: nat)
    returns (head: Td?, tail: Td?, ok: bool, ghost tds: seq<Td>)
    modifies pool
    ensures ok <==> (length == 0 || mps > 0) && |Pieces(address, length, mps, 1, dataPid)| + 2 < old(pool.available)
    ensures ok ==>
              && Chain(head, tds) && Mirrored(tds) && (forall i :: 0 <= i < |tds| ==> fresh(tds[i]))
              && Vals(tds) == [SetupVal(request)] + Pieces(address, length, mps, 1, dataPid) + [StatusVal(statusPid), EMPTY]
              && tds != [] && tail == tds[|tds| - 1]
              && pool.live == old(pool.live) + Members(tds) && pool.available == old(pool.available) - |tds|
    ensures !ok ==> head == null && pool.live == old(pool.live) && pool.available == old(pool.available)
  {
    hide Toggled, Chain, Mirrored, Vals, Pieces, SetupVal, StatusVal, At, Members;
    ghost var added;
    var setup, toggle';
    tds, tail, ok := [], null, false;
    NoChain();
    head, setup := Append(pool, null, [], SetupVal(request));
    if setup == null {
      return;
    }
    assert [] + [setup] == [setup] && [] + [SetupVal(request)] == [SetupVal(request)];
    head, toggle', ok, added := DataStage(pool, head, [setup], address, length, mps, 1, dataPid);
    tds := [setup] + added;
    MembersCons(setup, added);
    MembersApart(tds, old(pool.live));
    if !ok {
      FreeChain(pool, head, tds);
      head := null;
      return;
    }
    ghost var tds0 := tds;
    head, tail, ok, tds := EndControl(pool, head, tds, statusPid);
    if ok {
      MembersPrefix(tds0, tds);
    }
  }

  lemma MembersCons(td: Td, tds: seq<Td>)
    ensures Members([td] + tds) == {td} + Members(tds) && Members([]) == {}
  {
  }

  lemma MembersApart(tds: seq<Td>, live: set<Td>)
    requires forall i :: 0 <= i < |tds| ==> tds[i] !in live
    ensures Members(tds) !! live
  {
  }

  lemma MembersPrefix(a: seq<Td>, b: seq<Td>)
    requires a <= b
    ensures Members(a) <= Members(b)
  {
    forall td | td in a ensures td in b {
      var i :| 0 <= i < |a| && a[i] == td;
      assert b[i] == td;
    }
  }

  // The last two descriptors of a control transfer, or the whole chain freed.
  method EndControl(pool: Pool, head0: Td?, ghost tds0: seq<Td>, statusPid: nat)
    returns (head: Td?, tail: Td?, ok: bool, ghost tds: seq<Td>)
    requires Chain(head0, tds0) && Mirrored(tds0) && Members(tds0) <= pool.live
    modifies pool, tds0
    ensures ok <==> 2 <= old(pool.available)
    ensures ok ==>
              && Chain(head, tds) && Mirrored(tds) && tds0 <= tds && |tds| == |tds0| + 2 && tail == tds[|tds| - 1]
              && (forall i :: |tds0| <= i < |tds| ==> fresh(tds[i]))
              && Vals(tds) == old(Vals(tds0)) + [StatusVal(statusPid), EMPTY]
              && pool.live == old(pool.live) + Members(tds) && pool.available == old(pool.available) - 2
    ensures !ok ==>
              && head == null && pool.live == old(pool.live) - Members(tds0)
              && pool.available == old(pool.available) + |tds0|
  {
    hide Chain, Mirrored, Vals;
    ghost var vs := Vals(tds0);
    var td;
    tds := tds0;
    head, td := Append(pool, head0, tds, StatusVal(statusPid));
    if td != null {
      tds := tds + [td];
      head, tail := Append(pool, head, tds, EMPTY);
      if tail != null {
        tds, ok := tds + [tail], true;
        assert vs + [StatusVal(statusPid)] + [EMPTY] == vs + [StatusVal(statusPid), EMPTY];
        return;
      }
    }
    FreeChain(pool, head, tds);
    head, tail, ok := null, null, false;
  }

  lemma NoChain()
    ensures Chain(null, []) && Mirrored([]) && Vals([]) == []
  {
  }
}
