// The interrupt entry points of Ohci.c over the context list, and whole runs of them with the
// controller working in between.
module OhciDriver {
  import opened OhciSpec
  import opened OhciChain
  import opened OhciWalk
  import opened OhciWords
  import opened OhciSched
  import opened Wrappers

  datatype Status = Success | InvalidParameter | OutOfResources | MappingFailed

  // What a submission may be refused: the data buffer, its DMA mapping, the endpoint descriptor, and
  // the context entry. Transfer descriptors come from the pool.
  datatype Granted = Granted(buffer: bool, mapping: bool, endpoint: bool, entry: bool)

  const MAX_BYTES_PER_TD := 0x1000

  function Pow2(n: nat): (r: nat) {
    if n == 0 then 1 else 2 * Pow2(n - 1)
  }

  // The level of the interval tree: the longest power of two up to 32 that is not longer than the
  // polling interval asked for.
  method PollingDepth(interval: nat) returns (depth: nat, index: nat)
    ensures depth <= 5 && index == Pow2(5 - depth)
    ensures 1 <= interval ==> index <= interval
    ensures depth == 0 || interval < 2 * index
  {
    depth, index := 5, 1;
    while interval >= index * 2 && depth > 0
      invariant depth <= 5 && index == Pow2(5 - depth)
      invariant 1 <= interval ==> index <= interval
      decreases depth
    {
      index := index * 2;
      depth := depth - 1;
    }
  }

  // Everything an interrupt transfer is asked with; the buffer is where it was mapped.
  datatype Transfer = Transfer(device: nat, endpoint: nat, mps: nat, toggle: nat, interval: nat, address: nat, length: nat,
                               hasCallback: bool)

  // The chain a transfer is submitted as, and what it is made of.
  function DirPid(endpoint: nat): (r: nat) {
    if endpoint / 0x80 % 2 == 1 then IN_PID else OUT_PID
  }

  function DataOf(t: Transfer): (r: seq<TdVal>) {
    Pieces(t.address, t.length, t.mps, t.toggle, DirPid(t.endpoint))
  }

  // The words of a transfer's data descriptors; one on an IN endpoint, whose address has bit 7 set, has
  // direction IN.
  lemma WordsOf(t: Transfer, i: nat)
    requires t.mps > 0 && t.toggle < 2 && i < |DataOf(t)|
    ensures var n, at := Least(t.mps, t.length - i * t.mps), t.address + i * t.mps;
            && 0 < n
            && DataOf(t)[i] == TdVal(1, if 0x80 <= t.endpoint % 0x100 then 2 else 1, 7, if (t.toggle + i) % 2 == 0 then 2 else 3, 0, 14,
                                     at % 0x1_0000_0000, (at + n - 1) % 0x1_0000_0000, at % 0x1_0000_0000, n)
  {
    hide Pieces, DirPid;
    DirectionIs(t.endpoint);
    DataWords(t.address, t.length, t.mps, t.toggle, DirPid(t.endpoint), i);
  }

  lemma DirectionIs(endpoint: nat)
    ensures DirPid(endpoint) == if 0x80 <= endpoint % 0x100 then 2 else 1
  {
    HighBit(endpoint);
  }

  lemma HighBit(endpoint: nat)
    ensures endpoint / 0x80 % 2 == 1 <==> 0x80 <= endpoint % 0x100
  {
    var q, r := endpoint / 0x100, endpoint % 0x100;
    assert endpoint / 0x80 == 2 * q + r / 0x80;
  }

  ghost predicate EnoughMemory(t: Transfer, available: nat) {
    t.mps > 0 && |DataOf(t)| < available
  }

  // What a transfer asks of a driver with that much memory left is there.
  ghost predicate Submitted(t: Transfer, g: Granted, available: nat) {
    t.length <= MAX_BYTES_PER_TD && g.mapping && g.endpoint && EnoughMemory(t, available)
  }

  // Where a submission leaves the toggle: flipped once for each data descriptor it made, whether or
  // not they could be kept.
  ghost function SubmittedToggle(t: Transfer, g: Granted, available: nat): (r: nat) {
    if t.length > MAX_BYTES_PER_TD || !g.mapping || !g.endpoint then t.toggle
    else Toggled(t.toggle, if EnoughMemory(t, available) then |DataOf(t)| else available)
  }

  // A new chain next to those of the list.
  method BuildFor(hc: Hc, t: Transfer) returns (head: Td?, tail: Td?, toggle: nat, ok: bool, ghost tds: seq<Td>)
    requires hc.Valid() && t.toggle < 2 && t.length > 0
    modifies hc.pool
    ensures hc.Valid() && (ok <==> EnoughMemory(t, old(hc.pool.available)))
    ensures ok ==>
              && t.mps > 0 && head != null && Chain(head, tds) && 2 <= |tds| && tail == tds[|tds| - 1] && Members(tds) <= hc.pool.live
              && Vals(tds) == DataOf(t) + [EMPTY] && toggle == Toggled(t.toggle, |DataOf(t)|)
              && (forall e <- hc.entries :: Members(e.chain) !! Members(tds))
              && hc.pool.live == old(hc.pool.live) + Members(tds) && hc.pool.available == old(hc.pool.available) - |tds|
              && fresh(Members(tds))
    ensures !ok ==>
              && toggle == Toggled(t.toggle, old(hc.pool.available))
              && hc.pool.live == old(hc.pool.live) && hc.pool.available == old(hc.pool.available)
  {
    hide Pieces, Toggled, Vals, Mirrored, Armed, Listed, Apart;
    head, tail, toggle, ok, tds := BuildChain(hc.pool, t.address, t.length, t.mps, t.toggle, DirPid(t.endpoint));
    assert ok ==> forall i :: 0 <= i < |tds| ==> fresh(tds[i]);
  }

  lemma FreshIsArmed(e: Entry, t: Transfer)
    requires e.periodic && e.hasCallback && t.mps > 0 && t.toggle < 2 && 2 <= |e.chain|
    requires e.dataTd == e.chain[0] && Chain(e.dataTd, e.chain) && Vals(e.chain) == DataOf(t) + [EMPTY]
    requires e.address == t.address && e.length == t.length && e.mps == t.mps && e.dirPid == DirPid(t.endpoint)
    ensures Armed(e)
  {
    SoftwareOfFresh(t.address, t.length, t.mps, t.toggle, 0, DirPid(t.endpoint));
    hide Pieces, Chain;
    assert Vals(e.chain)[|e.chain| - 1] == EMPTY;
  }

  // OhciInterruptTransfer for a new transfer, on an endpoint descriptor of its own: the search for one
  // to share wants a direction of its own, and those made here take theirs from the transfers.
  // When the context entry cannot be allocated, the source frees the chain again and still reports
  // success.
  method Submit(hc: Hc, t: Transfer, periodic: bool, g: Granted)
    returns (s: Status, toggle: nat, ed: Ed?, head: Td?, ghost tds: seq<Td>, ghost added: seq<Entry>)
    requires hc.Valid() && t.toggle < 2 && t.length > 0 && (t.hasCallback ==> periodic)
    modifies hc`list, hc`entries, hc.pool, (set e: Entry | e in hc.entries)`next
    ensures hc.Valid() && hc.entries == old(hc.entries) + added && fresh(hc.pool.live - old(hc.pool.live))
    ensures s == if t.length > MAX_BYTES_PER_TD then InvalidParameter
                 else if !g.mapping then MappingFailed
                 else if !g.endpoint || !EnoughMemory(t, old(hc.pool.available)) then OutOfResources
                 else Success
    ensures if s == Success && t.hasCallback && g.entry
            then |added| == 1 && fresh(added[0]) && fresh(added[0].ed) && Context(added[0], t)
            else added == []
    ensures toggle == SubmittedToggle(t, g, old(hc.pool.available))
    ensures s == Success && !t.hasCallback ==>
              && ed != null && Chain(head, tds) && Vals(tds) == DataOf(t) + [EMPTY]
              && (forall e <- hc.entries :: Members(e.chain) !! Members(tds))
              && hc.pool.live == old(hc.pool.live) + Members(tds) && fresh(Members(tds))
    ensures s != Success || (t.hasCallback && !g.entry) ==>
              hc.pool.live == old(hc.pool.live) && hc.pool.available == old(hc.pool.available)
  {
    hide DataOf, Toggled, Vals, Chain, Hc.Valid, Members, EnoughMemory, Context;
    added, toggle, ed, head, tds := [], t.toggle, null, null, [];
    if t.length > MAX_BYTES_PER_TD {
      return InvalidParameter, toggle, null, null, [], [];
    }
    if !g.mapping {
      return MappingFailed, toggle, null, null, [], [];
    }
    var depth, index := PollingDepth(t.interval);
    if !g.endpoint {
      return OutOfResources, toggle, null, null, [], [];
    }
    var own := new Ed();
    ed := own;
    var tail, ok;
    head, tail, toggle, ok, tds := BuildFor(hc, t);
    if !ok {
      return OutOfResources, toggle, null, null, [], [];
    }
    added := Start(hc, t, periodic, own, head, tail, tds, g.entry);
    s := Success;
  }

  // A chain is put on its endpoint, which is set going, with a context entry for its callback. Without
  // memory for that entry the chain is freed again.
  method Start(hc: Hc, t: Transfer, periodic: bool, ed: Ed, head: Td?, tail: Td?, ghost tds: seq<Td>, memory: bool)
    returns (ghost added: seq<Entry>)
    requires hc.Valid() && t.mps > 0 && t.toggle < 2 && (t.hasCallback ==> periodic)
    requires head != null && Chain(head, tds) && 2 <= |tds| && tail == tds[|tds| - 1]
    requires Vals(tds) == DataOf(t) + [EMPTY] && Members(tds) <= hc.pool.live
    requires forall f <- hc.entries :: Members(f.chain) !! Members(tds)
    requires ed.head == null && !ed.halted && ed.carry == 0
    modifies hc`list, hc`entries, hc.pool, (set e: Entry | e in hc.entries)`next, ed
    ensures hc.Valid() && hc.entries == old(hc.entries) + added
    ensures if t.hasCallback && memory
            then |added| == 1 && fresh(added[0]) && added[0].ed == ed && Context(added[0], t)
            else added == []
    ensures if t.hasCallback && !memory
            then hc.pool.live == old(hc.pool.live) - Members(tds) && hc.pool.available == old(hc.pool.available) + |tds|
            else hc.pool.live == old(hc.pool.live) && hc.pool.available == old(hc.pool.available)
  {
    hide DataOf, Vals, Chain, Hc.Valid;
    added := [];
    ed.tail := tail;
    ed.Attach(head);
    if t.hasCallback {
      if !memory {
        FreeUnlisted(hc, head, tds);
        return;
      }
      var e := Register(hc, t, periodic, ed, head, tds);
      added := [e];
    }
    ed.skip := false;
  }

  // A submitted periodic transfer joins the list.
  method Register(hc: Hc, t: Transfer, periodic: bool, ed: Ed, head: Td?, ghost tds: seq<Td>) returns (e: Entry)
    requires hc.Valid() && t.mps > 0 && t.toggle < 2 && periodic
    requires Chain(head, tds) && 2 <= |tds| && Vals(tds) == DataOf(t) + [EMPTY] && Members(tds) <= hc.pool.live
    requires forall f <- hc.entries :: Members(f.chain) !! Members(tds)
    modifies hc`list, hc`entries, (set f: Entry | f in hc.entries)`next
    ensures hc.Valid() && hc.entries == old(hc.entries) + [e] && fresh(e)
    ensures e.device == t.device && e.endpoint == t.endpoint && e.ed == ed && e.dataTd == head && e.chain == tds
  {
    hide Pieces, Vals, Chain, Armed, Listed, Apart;
    e := new Entry(t.device, t.endpoint, ed, head, true, periodic, tds, t.address, t.length, t.mps, DirPid(t.endpoint));
    FirstOfChain(head, tds);
    FreshIsArmed(e, t);
    assert e !in hc.entries;
    hc.Add(e);
  }

  // The context entry of a transfer, as it was submitted, and its endpoint ready to run it.
  ghost predicate Context(e: Entry, t: Transfer)
    reads e`dataTd, e.ed, Members(e.chain)
  {
    && e.device == t.device && e.endpoint == t.endpoint && Vals(e.chain) == DataOf(t) + [EMPTY]
    && e.ed.head == e.dataTd && e.chain != [] && e.ed.tail == e.chain[|e.chain| - 1]
    && !e.ed.skip && !e.ed.halted && e.ed.carry == 0
  }

  lemma FirstOfChain(head: Td?, tds: seq<Td>)
    requires Chain(head, tds) && tds != []
    ensures head == tds[0]
  {
  }

  // A chain that no entry owns goes back to the pool.
  method FreeUnlisted(hc: Hc, head: Td?, ghost tds: seq<Td>)
    requires hc.Valid() && Chain(head, tds) && Members(tds) <= hc.pool.live
    requires forall e <- hc.entries :: Members(e.chain) !! Members(tds)
    modifies hc.pool
    ensures hc.Valid()
    ensures hc.pool.live == old(hc.pool.live) - Members(tds) && hc.pool.available == old(hc.pool.available) + |tds|
  {
    hide Chain, Armed, Listed, Apart;
    FreeChain(hc.pool, head, tds);
  }

  // ---- The entry points ----

  // Nothing joins the list or the pool's allocations that was there before; a joining entry has an endpoint of its own.
  twostate predicate OnlyNew(hc: Hc, es: seq<Entry>, live: set<Td>)
    reads hc, hc.pool
  {
    && (forall e <- hc.entries :: e in es || (fresh(e) && fresh(e.ed)))
    && fresh(hc.pool.live - live)
  }

  lemma {:induction false} SelectFrom(es: seq<Entry>, device: nat, endpoint: nat, matching: bool)
    ensures forall e <- Select(es, device, endpoint, matching) :: e in es
  {
    if es != [] {
      SelectFrom(es[1..], device, endpoint, matching);
    }
  }

  // What OhciAsyncInterruptTransfer checks before it asks for anything.
  predicate Acceptable(t: Transfer, isNew: bool) {
    && t.endpoint / 0x80 % 2 == 1
    && (isNew ==> t.length > 0 && t.toggle <= 1 && 1 <= t.interval <= 255)
  }

  // OhciAsyncInterruptTransfer: a periodic transfer is started or cancelled. The packet size is cut
  // to one byte on the way down. The length is checked for a cancel as well, although it plays no
  // part in one: a longer one than a descriptor takes is refused and the transfer goes on.
  method AsyncInterrupt(hc: Hc, t: Transfer, isNew: bool, g: Granted) returns (s: Status, toggle: nat)
    requires hc.Valid()
    modifies hc`list, hc`entries, hc.pool, (set e: Entry | e in hc.entries)`next, (set e: Entry | e in hc.entries)`dataTd
    ensures hc.Valid() && OnlyNew(hc, old(hc.entries), old(hc.pool.live))
    ensures s == InvalidParameter <==>
              || t.endpoint % 0x100 < 0x80
              || (isNew && (t.length == 0 || t.toggle > 1 || t.interval == 0 || t.interval > 255))
              || ((isNew ==> g.buffer) && t.length > 4096)
    ensures !isNew ==> s == if Acceptable(t, false) && t.length <= MAX_BYTES_PER_TD then Success else InvalidParameter
    ensures !isNew && s == Success ==>
              && hc.entries == Select(old(hc.entries), t.device, t.endpoint, false)
              && hc.pool.live == old(hc.pool.live) - Owned(Select(old(hc.entries), t.device, t.endpoint, true))
    ensures isNew ==>
              s == if !Acceptable(t, true) then InvalidParameter
                   else if !g.buffer then OutOfResources
                   else if t.length > MAX_BYTES_PER_TD then InvalidParameter
                   else if !g.mapping then MappingFailed
                   else if !g.endpoint || !EnoughMemory(t.(mps := t.mps % 256), old(hc.pool.available)) then OutOfResources
                   else Success
    ensures toggle == if isNew && Acceptable(t, true) && g.buffer
                      then SubmittedToggle(t.(mps := t.mps % 256), g, old(hc.pool.available))
                      else if !isNew && s == Success then old(ToggleAfter(Select(hc.entries, t.device, t.endpoint, true), t.toggle))
                      else t.toggle
    ensures isNew && s == Success && t.hasCallback && g.entry ==>
              && |hc.entries| == |old(hc.entries)| + 1 && old(hc.entries) <= hc.entries
              && Context(hc.entries[|old(hc.entries)|], t.(mps := t.mps % 256))
    ensures s != Success || (isNew && !(t.hasCallback && g.entry)) ==> hc.entries == old(hc.entries)
    ensures s != Success ==> hc.pool.live == old(hc.pool.live)
  {
    hide Hc.Valid, Select, Owned, EnoughMemory, SubmittedToggle, ToggleAfter;
    HighBit(t.endpoint);
    if !Acceptable(t, isNew) {
      return InvalidParameter, t.toggle;
    }
    if isNew {
      if !g.buffer {
        return OutOfResources, t.toggle;
      }
      var ed, head;
      ghost var tds, added;
      s, toggle, ed, head, tds, added := Submit(hc, t.(mps := t.mps % 256), true, g);
    } else {
      s, toggle := Cancel(hc, t.device, t.endpoint, t.length, t.toggle);
    }
  }

  // A cancel that happens to name a length of 4097 cancels nothing.
  method CancelRefused(hc: Hc, t: Transfer, g: Granted) returns (s: Status)
    requires hc.Valid() && t.length == 0x1001
    modifies hc`list, hc`entries, hc.pool, (set e: Entry | e in hc.entries)`next, (set e: Entry | e in hc.entries)`dataTd
    ensures s == InvalidParameter && hc.entries == old(hc.entries) && hc.pool.live == old(hc.pool.live)
  {
    var toggle;
    s, toggle := AsyncInterrupt(hc, t, false, g);
  }

  // OhciInterruptTransfer for a transfer that is not new.
  method Cancel(hc: Hc, device: nat, endpoint: nat, length: nat, toggle0: nat) returns (s: Status, toggle: nat)
    requires hc.Valid()
    modifies hc`list, hc`entries, hc.pool, (set e: Entry | e in hc.entries)`next, (set e: Entry | e in hc.entries)`dataTd
    ensures hc.Valid() && s == if length > MAX_BYTES_PER_TD then InvalidParameter else Success
    ensures s == InvalidParameter ==> hc.entries == old(hc.entries) && hc.pool.live == old(hc.pool.live) && toggle == toggle0
    ensures s == Success ==>
              && hc.entries == Select(old(hc.entries), device, endpoint, false)
              && hc.pool.live == old(hc.pool.live) - Owned(Select(old(hc.entries), device, endpoint, true))
              && toggle == old(ToggleAfter(Select(hc.entries, device, endpoint, true), toggle0))
    ensures forall e <- hc.entries :: e in old(hc.entries)
  {
    hide Hc.Valid, Select, Owned;
    if length > MAX_BYTES_PER_TD {
      return InvalidParameter, toggle0;
    }
    SelectFrom(hc.entries, device, endpoint, false);
    ghost var gone := Select(hc.entries, device, endpoint, true);
    ghost var last := ToggleAfter(gone, toggle0);
    toggle := hc.FreeContext(device, endpoint, toggle0);
    assert ToggleAfter(gone, toggle0) == last;
    s := Success;
  }

  // ---- The controller at work ----

  // What the controller does to a descriptor that is not a chain's tail: anything, to the words
  // that are its own.
  datatype Words = Words(toggle: nat, errors: nat, code: nat, current: nat, hcNext: Td?)

  function Written(v: TdVal, w: Words): (r: TdVal)
    ensures Software(r) == Software(v)
  {
    v.(toggle := w.toggle, errors := w.errors, code := w.code, current := w.current)
  }

  method WriteWords(td: Td, w: Words)
    modifies td
    ensures td.next == old(td.next) && td.Val() == Written(old(td.Val()), w)
  {
    td.toggle, td.errors, td.code, td.current, td.hcNext := w.toggle, w.errors, w.code, w.current, w.hcNext;
  }

  // A chain after one round of that: descriptor i, unless it is the tail, has ws[i] if there is one.
  function Worked(vs: seq<TdVal>, ws: seq<Words>): (r: seq<TdVal>)
    ensures |r| == |vs|
  {
    seq(|vs|, i requires 0 <= i < |vs| => if i < |ws| && i + 1 < |vs| then Written(vs[i], ws[i]) else vs[i])
  }

  // A chain after k rounds.
  function After(vs: seq<TdVal>, work: nat -> seq<Words>, k: nat): (r: seq<TdVal>)
    ensures |r| == |vs|
  {
    if k == 0 then vs else Worked(After(vs, work, k - 1), work(k - 1))
  }

  // The code that check k finds, each check being made after one more round.
  function Checked(vs: seq<TdVal>, work: nat -> seq<Words>, k: nat): (code: nat)
    requires vs != []
  {
    FirstCode(After(vs, work, k + 1)[..|vs| - 1])
  }

  // Check k is the first to find something else than a transfer still to be processed, or the last
  // there is time for.
  ghost predicate Decides(vs: seq<TdVal>, work: nat -> seq<Words>, timeout: nat, k: nat)
    requires vs != []
  {
    && k <= timeout
    && (forall j :: 0 <= j < k ==> Checked(vs, work, j) == TOBE_PROCESSED)
    && (k < timeout ==> Checked(vs, work, k) != TOBE_PROCESSED)
  }

  // What check n looks at is all clean.
  ghost predicate CleanAt(vs: seq<TdVal>, work: nat -> seq<Words>, n: nat) {
    var now := After(vs, work, n + 1);
    forall i :: 0 <= i < |vs| - 1 ==> now[i].code == NO_ERROR
  }

  // The polling reports success exactly when some check made in time finds every descriptor in front
  // of the tail clean, with nothing but unprocessed transfers at all checks before it. Time has run
  // out on it exactly when every check finds an unprocessed one.
  lemma PollSucceedsExactlyWhen(vs: seq<TdVal>, work: nat -> seq<Words>, timeout: nat, k: nat)
    requires vs != [] && Decides(vs, work, timeout, k)
    ensures ConvertErrorCode(Checked(vs, work, k)) == USB_NOERROR
            <==> exists n: nat :: n <= timeout && CleanAt(vs, work, n) && forall j :: 0 <= j < n ==> Checked(vs, work, j) == TOBE_PROCESSED
    ensures Checked(vs, work, k) == TOBE_PROCESSED <==> forall j :: 0 <= j <= timeout ==> Checked(vs, work, j) == TOBE_PROCESSED
  {
    hide After, ConvertErrorCode;
    forall n: nat ensures CleanAt(vs, work, n) <==> Checked(vs, work, n) == NO_ERROR {
      var now := After(vs, work, n + 1);
      FirstCodeZero(now[..|vs| - 1]);
      assert forall i :: 0 <= i < |vs| - 1 ==> now[..|vs| - 1][i] == now[i];
    }
    forall n: nat | n <= timeout && CleanAt(vs, work, n) && forall j :: 0 <= j < n ==> Checked(vs, work, j) == TOBE_PROCESSED
      ensures n == k
    {
    }
  }

  // One round on a chain.
  method Round(head: Td?, ws: seq<Words>, ghost tds: seq<Td>)
    requires Chain(head, tds) && tds != []
    modifies tds
    ensures Chain(head, tds) && Vals(tds) == Worked(old(Vals(tds)), ws)
  {
    hide Written, Td.Val;
    var td: Td, i := head, 0;
    while td.next != null && i < |ws|
      invariant 0 <= i < |tds| && i <= |ws| && td == tds[i] && Chain(head, tds)
      invariant forall k :: 0 <= k < |tds| ==>
                  tds[k].Val() == if k < i then Written(old(tds[k].Val()), ws[k]) else old(tds[k].Val())
    {
      WriteWords(td, ws[i]);
      td, i := td.next, i + 1;
    }
  }

  // The polling loop of a synchronous transfer, with a round of the controller before each check.
  method Poll(ed: Ed, head: Td?, toggle: nat, timeout: nat, work: nat -> seq<Words>, ghost tds: seq<Td>)
    returns (result: bv32, ghost k: nat)
    requires Chain(head, tds) && tds != []
    modifies tds
    ensures Chain(head, tds) && Vals(tds) == After(old(Vals(tds)), work, k + 1)
    ensures Decides(old(Vals(tds)), work, timeout, k)
    ensures result == ConvertErrorCode(Checked(old(Vals(tds)), work, k))
  {
    hide Chain, Vals, Worked, FirstCode, NextToggle, ConvertErrorCode;
    ghost var vs := Vals(tds);
    k := 0;
    Round(head, work(0), tds);
    var status, code, next := CheckIfDone(InterruptList, false, ed, head, toggle, tds);
    var left, done := timeout, 1;
    while status == TaskPending && left > 0
      invariant k == timeout - left && done == k + 1
      invariant Chain(head, tds) && Vals(tds) == After(vs, work, k + 1)
      invariant code == Checked(vs, work, k) && (status == TaskPending <==> code == TOBE_PROCESSED)
      invariant forall j :: 0 <= j < k ==> Checked(vs, work, j) == TOBE_PROCESSED
    {
      left := left - 1;
      Round(head, work(done), tds);
      k, done := k + 1, done + 1;
      status, code, next := CheckIfDone(InterruptList, false, ed, head, toggle, tds);
    }
    result := ConvertErrorCode(code);
  }

  // Polling a chain that no entry owns leaves the list alone.
  method PollUnlisted(hc: Hc, ed: Ed, head: Td?, toggle: nat, timeout: nat, work: nat -> seq<Words>, ghost tds: seq<Td>)
    returns (result: bv32, ghost k: nat)
    requires hc.Valid() && Chain(head, tds) && tds != []
    requires forall e <- hc.entries :: Members(e.chain) !! Members(tds)
    modifies tds
    ensures hc.Valid()
    ensures Decides(old(Vals(tds)), work, timeout, k)
    ensures result == ConvertErrorCode(Checked(old(Vals(tds)), work, k))
  {
    hide Armed, Listed, Apart, Chain, Vals, Decides, Checked, After;
    assert forall e <- hc.entries :: forall td <- Members(e.chain) :: td !in tds;
    result, k := Poll(ed, head, toggle, timeout, work, tds);
  }

  // Freeing what is listed does not touch a chain that is not.
  lemma OwnedIsListed(hc: Hc, device: nat, endpoint: nat)
    requires hc.Valid()
    ensures Owned(Select(hc.entries, device, endpoint, true)) <= hc.pool.live
  {
    hide Armed, Listed, Apart;
    SelectFrom(hc.entries, device, endpoint, true);
  }

  // OhciSyncInterruptTransfer: submitted without a callback, so never listed, polled, and taken down
  // again, which also cancels whatever is listed for the endpoint and decides the status returned.
  // Taking it down frees listed chains only: the chain of the transfer itself stays allocated.
  // The transfer result is written when the transfer could be submitted; k is the check it is from.
  method SyncInterrupt(hc: Hc, t: Transfer, slow: bool, timeout: nat, work: nat -> seq<Words>, g: Granted)
    returns (s: Status, toggle: nat, result: Option<bv32>, ghost k: nat, ghost lost: seq<Td>)
    requires hc.Valid()
    modifies hc`list, hc`entries, hc.pool, (set e: Entry | e in hc.entries)`next, (set e: Entry | e in hc.entries)`dataTd
    ensures hc.Valid() && OnlyNew(hc, old(hc.entries), old(hc.pool.live))
    ensures s == InvalidParameter <==>
              t.endpoint % 0x100 < 0x80 || t.length == 0 || t.toggle > 1 || t.mps > 64 || (slow && t.mps > 8)
    ensures s == if !SyncAcceptable(t, slow) then InvalidParameter else if !g.buffer then OutOfResources else Success
    ensures s != Success ==>
              && hc.entries == old(hc.entries) && hc.pool.live == old(hc.pool.live) && lost == []
              && toggle == t.toggle && result == None
    ensures s == Success ==>
              && hc.entries == Select(old(hc.entries), t.device, t.endpoint, false)
              && hc.pool.live == old(hc.pool.live) - Owned(Select(old(hc.entries), t.device, t.endpoint, true)) + Members(lost)
              && |lost| == (if Submitted(t, g, old(hc.pool.available)) then |DataOf(t)| + 1 else 0)
              && toggle == old(ToggleAfter(Select(hc.entries, t.device, t.endpoint, true), SubmittedToggle(t, g, hc.pool.available)))
    ensures s == Success && Submitted(t, g, old(hc.pool.available)) ==>
              && Decides(DataOf(t) + [EMPTY], work, timeout, k)
              && result == Some(ConvertErrorCode(Checked(DataOf(t) + [EMPTY], work, k)))
    ensures s == Success && !Submitted(t, g, old(hc.pool.available)) ==> result == None
  {
    hide Hc.Valid, Select, Owned, Chain, Pieces, EnoughMemory, SubmittedToggle, Decides, Checked, ConvertErrorCode, SyncAcceptable;
    SyncAcceptableIs(t, slow);
    lost, result, k := [], None, 0;
    if !SyncAcceptable(t, slow) {
      return InvalidParameter, t.toggle, None, 0, lost;
    }
    if !g.buffer {
      return OutOfResources, t.toggle, None, 0, lost;
    }
    var submitted, ed, head;
    ghost var tds, added;
    ghost var gone := Select(hc.entries, t.device, t.endpoint, true);
    ghost var last := ToggleAfter(gone, SubmittedToggle(t, g, hc.pool.available));
    var once := t.(hasCallback := false, interval := 1);
    SameDemand(t, once, g, hc.pool.available);
    OwnedIsListed(hc, t.device, t.endpoint);
    submitted, toggle, ed, head, tds, added := Submit(hc, once, false, g);
    assert old(hc.entries) + [] == old(hc.entries);
    if submitted == Success {
      assert Vals(tds) == DataOf(t) + [EMPTY];
      var code;
      code, k := PollUnlisted(hc, ed, head, toggle, timeout, work, tds);
      result, lost := Some(code), tds;
    }
    assert ToggleAfter(gone, toggle) == last;
    s, toggle := Cancel(hc, t.device, t.endpoint, 0, toggle);
  }

  predicate SyncAcceptable(t: Transfer, slow: bool) {
    t.endpoint / 0x80 % 2 == 1 && t.length > 0 && t.toggle <= 1 && t.mps <= if slow then 8 else 64
  }

  lemma SyncAcceptableIs(t: Transfer, slow: bool)
    ensures !SyncAcceptable(t, slow) <==>
              t.endpoint % 0x100 < 0x80 || t.length == 0 || t.toggle > 1 || t.mps > 64 || (slow && t.mps > 8)
  {
    HighBit(t.endpoint);
  }

  lemma SameDemand(t: Transfer, once: Transfer, g: Granted, available: nat)
    requires once == t.(hasCallback := once.hasCallback, interval := once.interval)
    ensures DataOf(once) == DataOf(t) && EnoughMemory(once, available) == EnoughMemory(t, available)
    ensures SubmittedToggle(once, g, available) == SubmittedToggle(t, g, available)
  {
  }

  // An entry stays armed as long as its links, its tail and the driver's words stay.
  twostate lemma StaysArmed(e: Entry)
    requires old(Armed(e)) && e.dataTd == old(e.dataTd)
    requires forall k :: 0 <= k < |e.chain| ==>
               e.chain[k].next == old(e.chain[k].next) && Software(e.chain[k].Val()) == Software(old(e.chain[k].Val()))
    requires e.chain[|e.chain| - 1].code == NO_ERROR
    ensures Armed(e)
  {
    hide Pieces, Software;
    assert SoftwareAll(Vals(e.chain)) == old(SoftwareAll(Vals(e.chain)));
  }

  method ControllerWrites(hc: Hc, ghost i: nat, ghost j: nat, td: Td, w: Words)
    requires hc.Valid() && i < |hc.entries| && j < |hc.entries[i].chain| - 1 && td == hc.entries[i].chain[j]
    modifies td
    ensures hc.Valid()
  {
    hide Armed, Listed;
    ghost var es := hc.entries;
    assert td in Members(es[i].chain);
    forall k | 0 <= k < |es| && k != i ensures td !in Members(es[k].chain) {
    }
    ArmedTail(es[i], j);
    WriteWords(td, w);
    StaysArmed(es[i]);
    assert forall k :: 0 <= k < |es| ==> Armed(es[k]);
  }

  lemma ArmedTail(e: Entry, j: nat)
    requires Armed(e) && j < |e.chain| - 1
    ensures e.chain[|e.chain| - 1].code == NO_ERROR && e.chain[j] != e.chain[|e.chain| - 1]
  {
  }

  // ---- Whole runs ----

  // One step of a run: a call of an entry point, the timer, or the controller at work on the j-th
  // descriptor of the i-th listed entry or on its endpoint descriptor.
  datatype Op =
    | Async(t: Transfer, isNew: bool, g: Granted)
    | Sync(t: Transfer, slow: bool, timeout: nat, work: nat -> seq<Words>, g: Granted)
    | Tick
    | Controller(i: nat, j: nat, w: Words)
    | ControllerEd(i: nat, carry: Bit, halted: bool, head: Td?)

  // The i-th entry's j-th descriptor, if there is one and it is not the tail.
  method Reach(hc: Hc, i: nat, j: nat) returns (td: Td?)
    requires hc.Valid()
    ensures td != null ==> i < |hc.entries| && j < |hc.entries[i].chain| - 1 && td == hc.entries[i].chain[j]
    ensures td != null ==> td in hc.pool.live
  {
    var e, k: nat := hc.list, 0;
    while e != null && k < i
      invariant k <= i && e == EntryAt(hc.entries, k)
      decreases i - k
    {
      e, k := e.next, k + 1;
    }
    if e == null {
      return null;
    }
    td, k := e.dataTd, 0;
    while td != null && k < j
      invariant k <= j && td == At(hc.entries[i].chain, k)
      decreases j - k
    {
      td, k := td.next, k + 1;
    }
    if td != null && td.next == null {
      td := null;
    }
  }

  // The i-th entry, if there is one.
  method EntryAtIndex(hc: Hc, i: nat) returns (e: Entry?)
    requires hc.Valid()
    ensures e == EntryAt(hc.entries, i)
  {
    var k: nat;
    e, k := hc.list, 0;
    while e != null && k < i
      invariant k <= i && e == EntryAt(hc.entries, k)
      decreases i - k
    {
      e, k := e.next, k + 1;
    }
  }

  ghost function Endpoints(es: seq<Entry>): (r: set<Ed>) {
    set e: Entry | e in es :: e.ed
  }

  method Step(hc: Hc, op: Op)
    requires hc.Valid()
    modifies hc, hc.pool, hc.entries, hc.pool.live, Endpoints(hc.entries)
    ensures hc.Valid() && fresh(hc.pool.live - old(hc.pool.live))
    ensures forall e <- hc.entries :: (e in old(hc.entries) || fresh(e)) && (e.ed in old(Endpoints(hc.entries)) || fresh(e.ed))
  {
    hide Hc.Valid, Select;
    match op {
      case Async(t, isNew, g) =>
        var s, toggle := AsyncInterrupt(hc, t, isNew, g);
      case Sync(t, slow, timeout, work, g) =>
        ghost var k, lost;
        var s, toggle, result;
        s, toggle, result, k, lost := SyncInterrupt(hc, t, slow, timeout, work, g);
      case Tick =>
        ghost var was, eds0, stop := hc.HouseKeeper();
      case Controller(i, j, w) =>
        var td := Reach(hc, i, j);
        if td != null {
          ControllerWrites(hc, i, j, td, w);
        }
      case ControllerEd(i, carry, halted, head) =>
        var e := EntryAtIndex(hc, i);
        if e != null {
          e.ed.carry, e.ed.halted, e.ed.head := carry, halted, head;
        }
    }
  }

  // In every run of calls, timer ticks and controller work, the list stays the list it claims to be:
  // entries own separate, allocated chains that are those of their submissions up to the words the
  // controller writes, and every one of them is periodic and has a callback.
  method Run(hc: Hc, ops: seq<Op>)
    requires hc.Valid()
    modifies hc, hc.pool, hc.entries, hc.pool.live, Endpoints(hc.entries)
    ensures hc.Valid() && forall e <- hc.entries :: e.periodic && e.hasCallback
  {
    hide Hc.Valid;
    var rest := ops;
    while |rest| > 0
      invariant hc.Valid()
      invariant fresh(hc.pool.live - old(hc.pool.live))
      invariant forall e <- hc.entries :: (e in old(hc.entries) || fresh(e)) && (e.ed in old(Endpoints(hc.entries)) || fresh(e.ed))
      decreases |rest|
    {
      assert forall td <- hc.pool.live :: td in old(hc.pool.live) || fresh(td);
      assert forall i :: 0 <= i < |hc.entries| ==> hc.entries[i] in old(hc.entries) || fresh(hc.entries[i]);
      assert forall ed <- Endpoints(hc.entries) :: ed in old(Endpoints(hc.entries)) || fresh(ed);
      Step(hc, rest[0]);
      rest := rest[1..];
    }
    AllPeriodic(hc);
  }

  lemma AllPeriodic(hc: Hc)
    requires hc.Valid()
    ensures forall e <- hc.entries :: e.periodic && e.hasCallback
  {
  }
}
