// Ownership of the display states of LcdGraphicsOutputDxe.c: allocated by PrepareDisplays, compacted
// in place by DetectDisplays, freed by LcdGraphicsOutputDestroy.
module Displays {
  import opened Wrappers

  // What a connector protocol will answer: whether its handle and the allocation succeed, whether it
  // comes up, the output interface it drives, what Detect says when there is one, what identifying
  // the display finds out about it, and whether the display controller can be set up for it.
  datatype Connector = Connector(handled: bool, allocates: bool, ready: bool, interface: nat, detect: Option<bool>,
                                 identity: nat, setup: bool)

  class State {
    const interface: nat
    const detect: Option<bool>
    const identity: nat
    const setup: bool
    // SinkInfo, cleared to begin with, and IsEnable
    var sink: nat
    var enabled: bool

    constructor (c: Connector)
      ensures interface == c.interface && detect == c.detect && identity == c.identity && setup == c.setup
      ensures sink == 0 && !enabled
    {
      interface, detect, identity, setup := c.interface, c.detect, c.identity, c.setup;
      sink, enabled := 0, false;
    }

    // SetupDisplay
    method SetUp() returns (ok: bool)
      modifies this`enabled
      ensures ok == setup && enabled == (old(enabled) || setup)
    {
      ok := setup;
      if ok {
        enabled := true;
      }
    }
  }

  // The memory pool, as far as display states go: freeing what is not allocated is ruled out.
  class Pool {
    ghost var live: set<State>

    constructor ()
      ensures live == {}
    {
      live := {};
    }

    method Allocate(c: Connector) returns (s: State?)
      modifies this
      ensures s == null <==> !c.allocates
      ensures s != null ==> fresh(s) && StateOf(s, Some(c)) && Unused(s)
      ensures live == old(live) + (if s == null then {} else {s})
    {
      if !c.allocates {
        return null;
      }
      s := new State(c);
      live := live + {s};
    }

    method Free(s: State)
      requires s in live
      modifies this
      ensures live == old(live) - {s}
    {
      live := live - {s};
    }
  }

  // ---- What detection decides ----

  predicate Connected(s: State) {
    s.detect.None? || s.detect.value
  }

  predicate Stays(s: State?, force: bool) {
    s != null && (force || Connected(s))
  }

  function Keep(ss: seq<State?>, force: bool): (r: seq<State?>) {
    if ss == [] then []
    else
      var last := ss[|ss| - 1];
      Keep(ss[..|ss| - 1], force) + if Stays(last, force) then [last] else []
  }

  // The states that go: there, but not staying.
  ghost function Dropped(ss: seq<State?>, force: bool): (r: set<State>) {
    set s: State | s in ss && !Stays(s, force)
  }

  ghost function All(ss: seq<State?>): (r: set<State>) {
    set s: State | s in ss
  }

  function FirstConnected(ss: seq<State?>): (r: State?) {
    if ss == [] then null
    else if ss[0] != null && Connected(ss[0]) then ss[0]
    else FirstConnected(ss[1..])
  }

  // How many slots are looked at: all, or up to the first connected one.
  function Scanned(ss: seq<State?>, all: bool): (n: nat)
    ensures n <= |ss|
  {
    if ss == [] then 0
    else if !all && ss[0] != null && Connected(ss[0]) then 1
    else 1 + Scanned(ss[1..], all)
  }

  ghost predicate Distinct(ss: seq<State?>) {
    forall i, j :: 0 <= i < j < |ss| && ss[i] != null ==> ss[i] != ss[j]
  }

  ghost predicate Increasing(at: seq<nat>) {
    forall k, l :: 0 <= k < l < |at| ==> at[k] < at[l]
  }

  lemma NoneIncrease()
    ensures Increasing([])
  {
  }

  lemma IncreasingMore(at: seq<nat>, last: nat)
    requires Increasing(at) && forall k :: 0 <= k < |at| ==> at[k] < last
    ensures Increasing(at + [last]) && at + [] == at
  {
  }

  // What is kept is exactly what stays, in the order it was in.
  lemma {:induction false} KeepIsTheFilter(ss: seq<State?>, force: bool) returns (at: seq<nat>)
    ensures |at| == |Keep(ss, force)| && Increasing(at)
    ensures forall k :: 0 <= k < |at| ==> at[k] < |ss| && Keep(ss, force)[k] == ss[at[k]] && Stays(ss[at[k]], force)
    ensures forall i :: 0 <= i < |ss| && Stays(ss[i], force) ==> i in at
  {
    hide Stays, Increasing;
    if ss == [] {
      at := [];
      NoneIncrease();
    } else {
      var last: nat := |ss| - 1;
      var before := KeepIsTheFilter(ss[..last], force);
      at := before + if Stays(ss[last], force) then [last] else [];
      IncreasingMore(before, last);
      forall i | 0 <= i < |ss| && Stays(ss[i], force) ensures i in at {
        assert i < last ==> ss[..last][i] == ss[i] && i in before;
      }
    }
  }

  lemma KeepStaysDistinct(ss: seq<State?>, force: bool)
    requires Distinct(ss)
    ensures Distinct(Keep(ss, force))
    ensures All(Keep(ss, force)) == All(ss) - Dropped(ss, force)
  {
    hide Keep, Stays;
    var at := KeepIsTheFilter(ss, force);
    forall s: State | s in All(ss) - Dropped(ss, force)
      ensures s in All(Keep(ss, force))
    {
      var i: nat :| i < |ss| && ss[i] == s;
      var k: nat :| k < |at| && at[k] == i;
      assert Keep(ss, force)[k] == s;
    }
    assert forall k :: 0 <= k < |at| ==> !(Keep(ss, force)[k] in Dropped(ss, force));
    KeepOnlyStays(ss, force);
  }

  lemma KeepOnlyStays(ss: seq<State?>, force: bool)
    ensures forall s: State :: s in Keep(ss, force) ==> s in ss && Stays(s, force)
  {
    hide Keep;
    var at := KeepIsTheFilter(ss, force);
  }

  lemma {:induction false} ScannedMore(ss: seq<State?>, all: bool, i: nat)
    requires i < |ss| && (all || FirstConnected(ss[..i]) == null)
    ensures Scanned(ss, all) == if !all && ss[i] != null && Connected(ss[i]) then i + 1 else i + 1 + Scanned(ss[i + 1..], all)
    ensures FirstConnected(ss[..i + 1])
         == if FirstConnected(ss[..i]) != null then FirstConnected(ss[..i])
            else if ss[i] != null && Connected(ss[i]) then ss[i] else null
  {
    hide Connected;
    if i == 0 {
      assert ss[..1][1..] == [];
    } else {
      assert ss[..i][1..] == ss[1..][..i - 1] && ss[..i + 1][1..] == ss[1..][..i];
      assert ss[1..][i..] == ss[i + 1..];
      if all {
        ScannedAll(ss);
        ScannedAll(ss[i + 1..]);
        FirstMore(ss, i);
      } else {
        ScannedMore(ss[1..], all, i - 1);
      }
    }
  }

  lemma {:induction false} ScannedAll(ss: seq<State?>)
    ensures Scanned(ss, true) == |ss|
  {
    hide Connected;
    if ss != [] {
      ScannedAll(ss[1..]);
    }
  }

  lemma {:induction false} FirstMore(ss: seq<State?>, i: nat)
    requires i < |ss|
    ensures FirstConnected(ss[..i + 1])
         == if FirstConnected(ss[..i]) != null then FirstConnected(ss[..i])
            else if ss[i] != null && Connected(ss[i]) then ss[i] else null
  {
    hide Connected;
    if i == 0 {
      assert ss[..1][1..] == [];
    } else {
      assert ss[..i][1..] == ss[1..][..i - 1] && ss[..i + 1][1..] == ss[1..][..i];
      FirstMore(ss[1..], i - 1);
    }
  }

  // One more slot looked at.
  lemma OneMore(ss: seq<State?>, i: nat, force: bool)
    requires i < |ss| && Distinct(ss)
    ensures ss[i] == null ==> All(ss[..i + 1]) == All(ss[..i]) && Dropped(ss[..i + 1], force) == Dropped(ss[..i], force)
    ensures ss[i] != null ==> ss[i] in All(ss) && ss[i] !in All(ss[..i]) && All(ss[..i + 1]) == All(ss[..i]) + {ss[i]}
    ensures ss[i] != null ==>
              && ss[i] !in Dropped(ss[..i], force)
              && Dropped(ss[..i + 1], force) == Dropped(ss[..i], force) + if Stays(ss[i], force) then {} else {ss[i]}
    ensures Keep(ss[..i + 1], force) == Keep(ss[..i], force) + if Stays(ss[i], force) then [ss[i]] else []
  {
    hide Stays;
    assert ss[..i + 1] == ss[..i] + [ss[i]];
    if ss[i] != null {
      assert forall j :: 0 <= j < i && ss[j] != null ==> ss[j] != ss[i];
    }
  }

  lemma FillSlot(ss: seq<State?>, i: nat, s: State)
    requires i < |ss| && ss[i] == null
    ensures All(ss[i := s]) == All(ss) + {s}
  {
    var t := ss[i := s];
    assert forall j :: 0 <= j < |ss| && j != i ==> t[j] == ss[j];
    assert t[i] == s;
  }

  lemma {:induction false} FirstIsScanned(ss: seq<State?>, all: bool)
    ensures FirstConnected(ss[..Scanned(ss, all)]) == FirstConnected(ss)
    ensures FirstConnected(ss) == null ==> forall s: State | s in ss :: !Connected(s)
    ensures FirstConnected(ss) != null ==> FirstConnected(ss) in ss[..Scanned(ss, all)] && Connected(FirstConnected(ss))
  {
    hide Connected;
    if ss != [] {
      FirstIsScanned(ss[1..], all);
      var n := Scanned(ss, all);
      assert ss[..n][1..] == ss[1..][..n - 1] && ss[..n][0] == ss[0];
      assert forall s :: s in ss[1..][..n - 1] ==> s in ss[..n];
    }
  }

  // What detection leaves behind: states that are distinct, still allocated, and led by a usable one.
  lemma Survivors(ss: seq<State?>, force: bool, all: bool)
    requires Distinct(ss)
    ensures var n := Scanned(ss, all);
            var kept := Keep(ss[..n], force);
            && |kept| <= n && Distinct(kept) && All(kept) <= All(ss) - Dropped(ss[..n], force)
            && FirstConnected(ss[..n]) == FirstConnected(ss)
            && (kept != [] ==> kept[0] != null && (FirstConnected(ss) != null || force))
            && (FirstConnected(ss) != null ==> FirstConnected(ss) in kept && Connected(FirstConnected(ss)))
  {
    hide Keep, Scanned, FirstConnected, Connected;
    var n := Scanned(ss, all);
    var at := KeepIsTheFilter(ss[..n], force);
    IncreasingFits(at, n);
    KeepStaysDistinct(ss[..n], force);
    FirstIsScanned(ss, all);
    var first := FirstConnected(ss);
    if first != null {
      assert first in All(ss[..n]) - Dropped(ss[..n], force);
    }
    if at != [] {
      assert ss[..n][at[0]] in ss;
    }
  }

  lemma {:induction false} IncreasingFits(at: seq<nat>, n: nat)
    requires Increasing(at) && forall k :: 0 <= k < |at| ==> at[k] < n
    ensures |at| <= n
  {
    if at != [] {
      IncreasingFits(at[..|at| - 1], at[|at| - 1]);
    }
  }

  lemma NothingScanned(ss: seq<State?>, force: bool, all: bool)
    ensures Keep([], force) == [] && Dropped([], force) == {} && FirstConnected([]) == null && Scanned([], all) == 0
    ensures ss[0..] == ss
  {
  }

  // The first position of an interface in the configured order, or its length.
  function Position(order: seq<nat>, interface: nat): (i: nat)
    ensures i <= |order| && forall j :: 0 <= j < i ==> order[j] != interface
    ensures i < |order| ==> order[i] == interface
  {
    if order == [] then 0 else if order[0] == interface then 0 else 1 + Position(order[1..], interface)
  }

  // A connector whose state goes into a slot.
  predicate Usable(c: Connector, order: seq<nat>) {
    c.handled && c.ready && c.interface in order
  }

  // No two usable connectors drive the same interface, so no slot is written twice.
  ghost predicate OnePerInterface(cs: seq<Connector>, order: seq<nat>) {
    forall i, j :: 0 <= i < j < |cs| && Usable(cs[i], order) && Usable(cs[j], order) ==> cs[i].interface != cs[j].interface
  }

  lemma DistinctInterfaces(cs: seq<Connector>, order: seq<nat>)
    requires forall i, j :: 0 <= i < j < |cs| ==> cs[i].interface != cs[j].interface
    ensures OnePerInterface(cs, order)
  {
  }

  // The connector whose state ends up in slot i: the last usable one whose interface has it.
  function LastFor(cs: seq<Connector>, order: seq<nat>, i: nat): (c: Option<Connector>)
    ensures c.Some? ==> c.value in cs && Usable(c.value, order) && Position(order, c.value.interface) == i
  {
    if cs == [] then None
    else
      var last := cs[|cs| - 1];
      if Usable(last, order) && Position(order, last.interface) == i then Some(last)
      else LastFor(cs[..|cs| - 1], order, i)
  }

  // It is the last of them that has a handle, comes up, and drives the interface that the order first
  // names at i.
  lemma {:induction false} LastForIsLast(cs: seq<Connector>, order: seq<nat>, i: nat) returns (k: nat)
    requires i < |order| && forall j :: 0 <= j < i ==> order[j] != order[i]
    ensures LastFor(cs, order, i).Some? ==>
              && k < |cs| && LastFor(cs, order, i) == Some(cs[k])
              && cs[k].handled && cs[k].ready && cs[k].interface == order[i]
              && forall l :: k < l < |cs| ==> !(cs[l].handled && cs[l].ready && cs[l].interface == order[i])
    ensures LastFor(cs, order, i).None? ==> forall c <- cs :: !(c.handled && c.ready && c.interface == order[i])
  {
    hide Position;
    if cs == [] {
      k := 0;
    } else {
      var last := cs[|cs| - 1];
      FirstPlace(order, last.interface, i);
      if Usable(last, order) && Position(order, last.interface) == i {
        k := |cs| - 1;
      } else {
        k := LastForIsLast(cs[..|cs| - 1], order, i);
      }
    }
  }

  lemma FirstPlace(order: seq<nat>, interface: nat, i: nat)
    requires i < |order| && forall j :: 0 <= j < i ==> order[j] != order[i]
    ensures Position(order, interface) == i <==> interface == order[i]
  {
  }

  ghost predicate StateOf(s: State?, c: Option<Connector>) {
    && (s == null <==> c.None?)
    && (s != null ==>
          && s.interface == c.value.interface && s.detect == c.value.detect
          && s.identity == c.value.identity && s.setup == c.value.setup)
  }

  lemma InTheirSlots(ss: seq<State?>, order: seq<nat>, cs: seq<Connector>)
    requires |ss| == |order| && forall i :: 0 <= i < |ss| ==> StateOf(ss[i], LastFor(cs, order, i))
    ensures forall i :: 0 <= i < |ss| && ss[i] != null ==> ss[i].interface == order[i]
  {
    hide LastFor;
  }

  // A state as it was allocated.
  ghost predicate Unused(s: State)
    reads s
  {
    s.sink == 0 && !s.enabled
  }

  lemma LastForMore(cs: seq<Connector>, c: Connector, order: seq<nat>)
    ensures forall i: nat :: LastFor(cs + [c], order, i)
              == if Usable(c, order) && Position(order, c.interface) == i then Some(c) else LastFor(cs, order, i)
  {
    hide Usable, Position;
    assert (cs + [c])[..|cs|] == cs;
  }

  lemma NothingPlaced(order: seq<nat>)
    ensures forall i: nat :: LastFor([], order, i) == None
  {
  }

  // Where each interface has one connector, the slot of the next one is still empty.
  lemma PlacedOnce(cs: seq<Connector>, order: seq<nat>, k: nat)
    requires k < |cs|
    ensures OnePerInterface(cs, order) && Usable(cs[k], order) ==> LastFor(cs[..k], order, Position(order, cs[k].interface)) == None
  {
    hide Position, LastFor;
    if OnePerInterface(cs, order) && Usable(cs[k], order) {
      var at := Position(order, cs[k].interface);
      PositionThere(order, cs[k].interface);
      assert forall j :: 0 <= j < k && Usable(cs[j], order) ==> Position(order, cs[j].interface) != at;
      assert forall c <- cs[..k] :: Usable(c, order) ==> Position(order, c.interface) != at;
    }
  }

  lemma {:induction false} PositionMissing(order: seq<nat>, interface: nat)
    ensures Position(order, interface) == |order| ==> interface !in order
  {
    if order != [] {
      PositionMissing(order[1..], interface);
    }
  }

  lemma {:induction false} PositionThere(order: seq<nat>, interface: nat)
    requires interface in order
    ensures Position(order, interface) < |order|
  {
    PositionMissing(order, interface);
  }

  lemma NoStates(ss: seq<State?>)
    ensures (forall i :: 0 <= i < |ss| ==> ss[i] == null) ==> Distinct(ss) && All(ss) == {}
  {
  }

  lemma NotBefore(ss: seq<State?>, base: set<State>)
    requires forall i :: 0 <= i < |ss| && ss[i] != null ==> ss[i] !in base
    ensures All(ss) !! base
  {
  }

  lemma AllFresh(ss: seq<State?>, s: State, live: set<State>)
    requires All(ss) <= live - {s}
    ensures s !in ss
  {
  }

  lemma PutInSlot(ss: seq<State?>, i: nat, s: State)
    requires i < |ss| && s !in ss && Distinct(ss)
    ensures Distinct(ss[i := s]) && All(ss[i := s]) <= All(ss) + {s}
    ensures ss[i] == null ==> All(ss[i := s]) == All(ss) + {s}
  {
    if ss[i] == null {
      FillSlot(ss, i, s);
    }
  }

  class Instance {
    const slots: array<State?>
    const pool: Pool
    var count: nat

    constructor (pool: Pool, n: nat)
      ensures fresh(slots) && this.pool == pool && count == 0
      ensures slots.Length == n && forall i :: 0 <= i < n ==> slots[i] == null
    {
      this.pool, count := pool, 0;
      slots := new State?[n](i => null);
    }

    ghost predicate Owned()
      reads this, slots, pool
    {
      count <= slots.Length && Distinct(slots[..count]) && All(slots[..count]) <= pool.live
    }

    // The slots so far: each holds the state of the last usable connector seen for it.
    ghost predicate Filled(order: seq<nat>, cs: seq<Connector>)
      reads this, slots, pool
    {
      && Owned() && count == |order|
      && forall i :: 0 <= i < count ==> StateOf(slots[i], LastFor(cs, order, i))
    }

    // PrepareDisplays: one state for each connector that comes up, in the slot of its interface. found
    // says whether the display controller and the connectors are there, ordered whether an order of
    // interfaces is configured.
    method Prepare(found: bool, ordered: bool, order: seq<nat>, cs: seq<Connector>) returns (ok: bool)
      requires count == 0 && |order| <= slots.Length && forall i :: 0 <= i < slots.Length ==> slots[i] == null
      modifies this, slots, pool
      ensures Owned() && count == if found && ordered then |order| else 0
      ensures ok <==> found && ordered && forall c <- cs :: c.handled ==> c.allocates
      ensures ok ==> forall i :: 0 <= i < count ==> StateOf(slots[i], LastFor(cs, order, i))
      ensures !ok ==> forall i :: 0 <= i < count ==> slots[i] == null
      ensures forall i :: 0 <= i < count && slots[i] != null ==>
                fresh(slots[i]) && slots[i].interface == order[i] && Unused(slots[i])
      ensures OnePerInterface(cs, order) ==> pool.live == old(pool.live) + All(slots[..count])
    {
      hide All, Distinct, LastFor;
      NoStates(slots[..count]);
      if !found {
        return false;
      }
      if !ordered {
        FreeAll(true);
        return false;
      }
      count := |order|;
      NoStates(slots[..count]);
      NothingPlaced(order);
      ok := PlaceAll(order, cs);
      if ok {
        InTheirSlots(slots[..count], order, cs);
      } else {
        NotBefore(slots[..count], old(pool.live));
        FreeAll(true);
        NoStates(slots[..count]);
      }
    }

    // One connector after the other, up to one whose state cannot be allocated.
    method PlaceAll(order: seq<nat>, cs: seq<Connector>) returns (ok: bool)
      requires Filled(order, []) && forall i :: 0 <= i < count ==> slots[i] == null
      modifies slots, pool
      ensures Owned() && (ok ==> Filled(order, cs))
      ensures ok <==> forall c <- cs :: c.handled ==> c.allocates
      ensures forall i :: 0 <= i < count && slots[i] != null ==> fresh(slots[i]) && Unused(slots[i])
      ensures OnePerInterface(cs, order) ==> pool.live == old(pool.live) + All(slots[..count])
    {
      hide All, Distinct, LastFor, OnePerInterface, StateOf, Unused;
      ok := true;
      var k := 0;
      NoStates(slots[..count]);
      assert cs[..0] == [];
      while k < |cs|
        invariant k <= |cs| && Filled(order, cs[..k])
        invariant forall i :: 0 <= i < k ==> cs[i].handled ==> cs[i].allocates
        invariant forall i :: 0 <= i < count && slots[i] != null ==> fresh(slots[i]) && Unused(slots[i])
        invariant OnePerInterface(cs, order) ==> pool.live == old(pool.live) + All(slots[..count])
      {
        assert cs[..k + 1] == cs[..k] + [cs[k]];
        LastForMore(cs[..k], cs[k], order);
        PlacedOnce(cs, order, k);
        if cs[k].handled {
          ok := Place(order, cs[..k], cs[k], old(pool.live), OnePerInterface(cs, order));
          if !ok {
            return;
          }
        }
        k := k + 1;
      }
      assert cs[..|cs|] == cs;
    }

    // One connector: its state is allocated, and freed again or put into its slot.
    method Place(order: seq<nat>, ghost before: seq<Connector>, c: Connector, ghost base: set<State>, ghost once: bool)
      returns (ok: bool)
      requires Filled(order, before) && c.handled
      requires once ==> pool.live == base + All(slots[..count])
      requires once && Usable(c, order) ==> LastFor(before, order, Position(order, c.interface)) == None
      modifies slots, pool
      ensures ok <==> c.allocates
      ensures Owned() && count == |order| && (ok ==> Filled(order, before + [c]))
      ensures forall i :: 0 <= i < count ==> slots[i] == old(slots[i]) || (slots[i] != null && fresh(slots[i]) && Unused(slots[i]))
      ensures once ==> pool.live == base + All(slots[..count])
    {
      hide All, Distinct, LastFor, Position;
      LastForMore(before, c, order);
      ghost var was := slots[..count];
      var s := pool.Allocate(c);
      if s == null {
        return false;
      }
      ok := true;
      AllFresh(was, s, pool.live);
      var at := Position(order, c.interface);
      if !c.ready || at == count {
        PositionMissing(order, c.interface);
        pool.Free(s);
        return;
      }
      PutInSlot(was, at, s);
      slots[at] := s;
      assert slots[..count] == was[at := s];
    }

    // Frees every state in the slots, and clears them when the instance lives on.
    method FreeAll(clear: bool)
      requires Owned()
      modifies slots, pool
      ensures pool.live == old(pool.live) - old(All(slots[..count]))
      ensures clear ==> forall i :: 0 <= i < count ==> slots[i] == null
      ensures !clear ==> slots[..] == old(slots[..])
    {
      ghost var ss := slots[..count];
      var i := 0;
      while i < count
        invariant i <= count && slots[i..] == old(slots[i..])
        invariant pool.live == old(pool.live) - All(ss[..i])
        invariant clear ==> forall j :: 0 <= j < i ==> slots[j] == null
        invariant !clear ==> slots[..] == old(slots[..])
      {
        var s := slots[i];
        assert s == slots[i..][0] == ss[i];
        OneMore(ss, i, false);
        if s != null {
          pool.Free(s);
          if clear {
            slots[i] := null;
          }
        }
        i := i + 1;
      }
      assert ss[..count] == ss;
    }

    // Where the scan stands: what was kept is in front, and the states still to come are untouched.
    ghost predicate Looked(ss: seq<State?>, live: set<State>, force: bool, index: nat, newCount: nat, primary: State?)
      reads slots, pool
    {
      && Distinct(ss) && All(ss) <= live
      && newCount <= index <= |ss| <= slots.Length
      && slots[..newCount] == Keep(ss[..index], force)
      && (forall j :: index <= j < |ss| ==> slots[j] == ss[j])
      && primary == FirstConnected(ss[..index])
      && pool.live == live - Dropped(ss[..index], force)
    }

    // One slot of DetectDisplays: its state is moved to the end of those kept, or freed.
    method Look(ghost ss: seq<State?>, ghost live: set<State>, force: bool, index: nat, newCount0: nat, primary0: State?)
      returns (newCount: nat, primary: State?)
      requires Looked(ss, live, force, index, newCount0, primary0) && index < |ss|
      modifies slots, pool
      ensures Looked(ss, live, force, index + 1, newCount, primary)
      ensures forall j :: index < j < slots.Length ==> slots[j] == old(slots[j])
    {
      hide Keep, Dropped, All, Distinct, FirstConnected, Connected;
      newCount, primary := newCount0, primary0;
      var s := slots[index];
      FirstMore(ss, index);
      OneMore(ss, index, force);
      if s == null {
        return;
      }
      if Connected(s) {
        if primary == null {
          primary := s;
        }
      } else if !force {
        pool.Free(s);
        slots[index] := null;
        return;
      }
      ghost var kept := slots[..newCount];
      slots[newCount] := s;
      newCount := newCount + 1;
      assert slots[..newCount] == kept + [s];
    }

    // DetectDisplays
    method Detect(force: bool, all: bool) returns (ok: bool, primary: State?)
      requires Owned()
      modifies this`count, slots, pool
      ensures var ss := old(slots[..count]);
              var n := Scanned(ss, all);
              && count <= slots.Length && slots[..count] == Keep(ss[..n], force)
              && primary == FirstConnected(ss)
              && pool.live == old(pool.live) - Dropped(ss[..n], force)
              && count <= n && slots[n..] == old(slots[n..])
      ensures Owned()
      ensures ok <==> count > 0
      ensures ok ==> slots[0] != null && (primary != null || force)
      ensures primary != null ==> primary in slots[..count] && Connected(primary)
    {
      hide Keep, Dropped, All, Distinct, Scanned, FirstConnected, Connected;
      ghost var ss := slots[..count];
      assert slots[..0] == [] && ss[..0] == [];
      NothingScanned(ss, force, all);
      count, primary := Scan(ss, pool.live, force, all);
      Survivors(ss, force, all);
      ok := count > 0;
    }

    // The slots one after the other, up to the first connected one unless all are asked for.
    method Scan(ghost ss: seq<State?>, ghost live: set<State>, force: bool, all: bool) returns (newCount: nat, primary: State?)
      requires count == |ss| && Looked(ss, live, force, 0, 0, null)
      modifies slots, pool
      ensures Looked(ss, live, force, Scanned(ss, all), newCount, primary)
      ensures forall j :: Scanned(ss, all) <= j < slots.Length ==> slots[j] == old(slots[j])
    {
      hide Keep, Dropped, All, Distinct, Scanned, FirstConnected, Connected;
      primary := null;
      NothingScanned(ss, force, all);
      var index: nat := 0;
      newCount := 0;
      while index < count
        invariant newCount <= index <= count
        invariant Looked(ss, live, force, index, newCount, primary)
        invariant forall j :: index <= j < slots.Length ==> slots[j] == old(slots[j])
        invariant !all ==> primary == null
        invariant Scanned(ss, all) == index + Scanned(ss[index..], all)
      {
        ScannedMore(ss, all, index);
        newCount, primary := Look(ss, live, force, index, newCount, primary);
        index := index + 1;
        if primary != null && !all {
          return;
        }
      }
      assert ss[index..] == [];
    }

    // SetupAllDisplays: every display that is not enabled takes over what is known of the primary one
    // and is set up, if it can be.
    method SetUpAll(primary: State?)
      requires Owned() && (primary != null ==> primary.enabled)
      modifies All(slots[..count])
      ensures forall i :: 0 <= i < count && slots[i] != null ==>
                && slots[i].enabled == (old(slots[i].enabled) || slots[i].setup)
                && slots[i].sink == if primary == null || old(slots[i].enabled) then old(slots[i].sink) else old(primary.sink)
    {
      ghost var ss := slots[..count];
      var i := 0;
      while i < count
        invariant i <= count && slots[..count] == ss
        invariant primary != null ==> primary.enabled && primary.sink == old(primary.sink)
        invariant forall j :: i <= j < count && slots[j] != null ==>
                    slots[j].enabled == old(slots[j].enabled) && slots[j].sink == old(slots[j].sink)
        invariant forall j :: 0 <= j < i && slots[j] != null ==>
                    && slots[j].enabled == (old(slots[j].enabled) || slots[j].setup)
                    && slots[j].sink == if primary == null || old(slots[j].enabled) then old(slots[j].sink) else old(primary.sink)
      {
        var s := slots[i];
        assert s == ss[i];
        if s != null && !s.enabled {
          if primary != null {
            s.sink := primary.sink;
          }
          var ok := s.SetUp();
        }
        i := i + 1;
      }
    }

    // LcdGraphicsOutputInit. modes says whether the mode list can be allocated, installed whether the
    // protocols can be. It starts up exactly when all of that can be had and there is a display to use
    // that can be set up: the first connected one in the configured order, or the first there is when
    // output is forced. That one is then enabled, and where output is duplicated so is every other one
    // that can be. A failure frees each state it still holds once, so that when one connector drives
    // each interface nothing stays allocated but what detection never came to; and that is nothing
    // when all displays are asked for.
    method Initialize(found: bool, ordered: bool, order: seq<nat>, cs: seq<Connector>, force: bool, all: bool,
                      modes: bool, installed: bool)
      returns (ok: bool, display: State?, ghost unscanned: set<State>)
      requires count == 0 && |order| <= slots.Length && forall i :: 0 <= i < slots.Length ==> slots[i] == null
      modifies this, slots, pool
      ensures ok <==>
                && found && ordered && (forall c <- cs :: c.handled ==> c.allocates) && modes && installed
                && Chosen(order, cs, force).Some? && Chosen(order, cs, force).value.setup
      ensures ok ==> Owned() && display in slots[..count] && StateOf(display, Chosen(order, cs, force))
      ensures ok ==> Started(display, if Connected(display) then display else null, all || !Connected(display))
      ensures ok ==> display.enabled && display.sink == if Connected(display) then display.identity else 0
      ensures !ok && OnePerInterface(cs, order) ==> pool.live == old(pool.live) + unscanned
      ensures unscanned != {} ==> !all && display != null && Connected(display)
      ensures fresh(unscanned)
    {
      hide Distinct, OnePerInterface, LastFor, All, Connected, Chosen, Started;
      display, unscanned := null, {};
      ok := Prepare(found, ordered, order, cs);
      if !ok {
        NoStates(slots[..count]);
        FreeAll(false);
        return;
      }
      ghost var ss := slots[..count];
      NotBefore(ss, old(pool.live));
      FromSlots(ss, 0);
      assert forall s: State :: s in ss ==> fresh(s);
      ok, display, unscanned := Present(order, cs, force, all, modes, installed);
    }

    // LcdGraphicsOutputInit from the detection of the displays on.
    method Present(ghost order: seq<nat>, ghost cs: seq<Connector>, force: bool, all: bool, modes: bool, installed: bool)
      returns (ok: bool, display: State?, ghost unscanned: set<State>)
      requires Filled(order, cs) && forall i :: 0 <= i < count && slots[i] != null ==> Unused(slots[i])
      modifies this`count, slots, pool, All(slots[..count])
      ensures ok <==> modes && installed && Chosen(order, cs, force).Some? && Chosen(order, cs, force).value.setup
      ensures ok ==> Owned() && display in slots[..count] && StateOf(display, Chosen(order, cs, force))
      ensures ok ==> Started(display, if Connected(display) then display else null, all || !Connected(display))
      ensures ok ==> display.enabled && display.sink == if Connected(display) then display.identity else 0
      ensures !ok ==> pool.live == old(pool.live - All(slots[..count])) + unscanned
      ensures unscanned <= old(All(slots[..count]))
      ensures unscanned != {} ==> !all && display != null && Connected(display)
    {
      hide Keep, Scanned, FirstConnected, Distinct, LastFor, All, Connected, Chosen, Dropped, Started, Unused, Stays;
      display := null;
      ghost var ss := slots[..count];
      ghost var n := Scanned(ss, all);
      ScannedSplits(ss, force, all);
      ChosenIsKept(ss, order, cs, force, all);
      FromSlots(ss, n);
      KeptIsThere(ss, n, force);
      var primary;
      ok, primary := Detect(force, all);
      unscanned := All(ss[n..]);
      if ok {
        display := if primary != null then primary else if force then slots[0] else null;
        assert display != null;
        ok := Begin(display, primary, all || primary == null);
        ok := ok && modes && installed;
      }
      if !ok {
        FreeAll(false);
      }
    }

    // The display to use is enabled, and with duplicated output every other one that can be set up;
    // what is known of the primary display, if there is one, is known of each of those.
    ghost predicate Started(display: State, primary: State?, duplicate: bool)
      requires count <= slots.Length
      reads this, slots, slots[..count]
    {
      forall i :: 0 <= i < count && slots[i] != null ==>
        && slots[i].enabled == (slots[i] == display || (duplicate && slots[i].setup))
        && slots[i].sink == if primary != null && (slots[i] == display || duplicate) then primary.identity else 0
    }

    // What follows detection: the display to use is set up, and with duplicated output the others.
    method Begin(display: State, primary: State?, duplicate: bool) returns (ok: bool)
      requires Owned() && display in slots[..count] && (primary != null ==> primary == display)
      requires forall i :: 0 <= i < count && slots[i] != null ==> Unused(slots[i])
      modifies All(slots[..count])
      ensures ok == display.setup && (ok ==> Started(display, primary, duplicate))
    {
      if primary != null {
        primary.sink := primary.identity;
      }
      ok := display.SetUp();
      if ok && duplicate {
        SetUpAll(primary);
      }
    }
  }

  // The first slot from i on whose connector's display detection keeps.
  function LeadFrom(order: seq<nat>, cs: seq<Connector>, force: bool, i: nat): (k: nat)
    requires i <= |order|
    ensures i <= k <= |order|
    ensures k < |order| ==> Shows(LastFor(cs, order, k), force)
    ensures forall j :: i <= j < k ==> !Shows(LastFor(cs, order, j), force)
    decreases |order| - i
  {
    if i == |order| || Shows(LastFor(cs, order, i), force) then i else LeadFrom(order, cs, force, i + 1)
  }

  // The connector whose display is put to use: the first connected one, or else the first there is.
  function Chosen(order: seq<nat>, cs: seq<Connector>, force: bool): (c: Option<Connector>) {
    var connected := LeadFrom(order, cs, false, 0);
    if connected < |order| then LastFor(cs, order, connected)
    else
      var there := LeadFrom(order, cs, true, 0);
      if force && there < |order| then LastFor(cs, order, there) else None
  }

  lemma LeadIs(ss: seq<State?>, order: seq<nat>, cs: seq<Connector>, force: bool, i: nat)
    requires |ss| == |order| && forall i :: 0 <= i < |ss| ==> StateOf(ss[i], LastFor(cs, order, i))
    requires i <= |ss| && (i < |ss| ==> Stays(ss[i], force)) && forall j :: 0 <= j < i ==> !Stays(ss[j], force)
    ensures LeadFrom(order, cs, force, 0) == i
  {
    hide LastFor;
    forall j: nat | j < |ss| ensures Shows(LastFor(cs, order, j), force) <==> Stays(ss[j], force) {
    }
  }

  lemma {:induction false} FirstConnectedAt(ss: seq<State?>) returns (i: nat)
    ensures i <= |ss| && (i < |ss| ==> FirstConnected(ss) == ss[i] && Stays(ss[i], false)) && (i == |ss| ==> FirstConnected(ss) == null)
    ensures forall j :: 0 <= j < i ==> !Stays(ss[j], false)
  {
    hide Connected;
    if ss == [] || Stays(ss[0], false) {
      i := 0;
    } else {
      i := FirstConnectedAt(ss[1..]);
      i := i + 1;
    }
  }

  lemma FirstKeptAt(ss: seq<State?>, force: bool) returns (i: nat)
    ensures i <= |ss| && (i < |ss| ==> Stays(ss[i], force) && Keep(ss, force) != [] && Keep(ss, force)[0] == ss[i])
    ensures i == |ss| ==> Keep(ss, force) == []
    ensures forall j :: 0 <= j < i ==> !Stays(ss[j], force)
  {
    hide Keep, Stays;
    var at := KeepIsTheFilter(ss, force);
    if at == [] {
      i := |ss|;
    } else {
      i := at[0];
      assert forall k :: 0 <= k < |at| ==> i <= at[k];
    }
  }

  // Detection keeps something exactly when there is a display to put to use, and then the primary
  // display, or the first one kept when there is none, is that of the connector chosen.
  lemma ChosenIsKept(ss: seq<State?>, order: seq<nat>, cs: seq<Connector>, force: bool, all: bool)
    requires |ss| == |order| && forall i :: 0 <= i < |ss| ==> StateOf(ss[i], LastFor(cs, order, i))
    ensures var kept := Keep(ss[..Scanned(ss, all)], force);
            && (kept != [] <==> Chosen(order, cs, force).Some?)
            && (FirstConnected(ss) == null ==> forall s: State | s in kept :: !Connected(s))
            && (kept != [] ==> StateOf(if FirstConnected(ss) != null then FirstConnected(ss) else kept[0], Chosen(order, cs, force)))
  {
    hide Keep, Scanned, FirstConnected, LastFor, Connected;
    var i := FirstConnectedAt(ss);
    LeadIs(ss, order, cs, false, i);
    SomeStays(ss, force, all);
    FirstIsScanned(ss, all);
    KeepOnlyStays(ss[..Scanned(ss, all)], force);
    if i == |ss| {
      StopsAtAConnected(ss, all);
      assert ss[..|ss|] == ss;
      var k := FirstKeptAt(ss, force);
      LeadIs(ss, order, cs, force, k);
    }
  }

  // A slot's connector whose display detection keeps.
  predicate Shows(c: Option<Connector>, force: bool) {
    c.Some? && (force || c.value.detect.None? || c.value.detect.value)
  }

  lemma KeptIsThere(ss: seq<State?>, n: nat, force: bool)
    requires n <= |ss|
    ensures var kept := Keep(ss[..n], force);
            && All(kept) <= All(ss)
            && forall i :: 0 <= i < |kept| && kept[i] != null ==> exists j :: 0 <= j < |ss| && ss[j] == kept[i]
  {
    hide Keep;
    KeepOnlyStays(ss[..n], force);
    var kept := Keep(ss[..n], force);
    forall i | 0 <= i < |kept| && kept[i] != null
      ensures exists j :: 0 <= j < |ss| && ss[j] == kept[i]
    {
      var s: State := kept[i];
      assert s in kept;
      assert s in ss[..n];
    }
  }

  lemma FromSlots(ss: seq<State?>, n: nat)
    requires n <= |ss|
    ensures forall s :: s in All(ss[n..]) ==> s in ss
    ensures n == |ss| ==> All(ss[n..]) == {}
  {
  }

  // Something is kept exactly when some state stays: a scan that stops early has found one.
  lemma SomeStays(ss: seq<State?>, force: bool, all: bool)
    ensures |Keep(ss[..Scanned(ss, all)], force)| > 0 <==> exists i :: 0 <= i < |ss| && Stays(ss[i], force)
  {
    hide Keep, Scanned, FirstConnected, Connected;
    var n := Scanned(ss, all);
    var at := KeepIsTheFilter(ss[..n], force);
    StopsAtAConnected(ss, all);
    FirstIsScanned(ss, all);
    if n < |ss| {
      var first := FirstConnected(ss);
      var i :| 0 <= i < n && ss[..n][i] == first;
      assert Stays(ss[..n][i], force) && Stays(ss[i], force);
    }
    if at != [] {
      assert Stays(ss[at[0]], force);
    }
  }

  lemma {:induction false} StopsAtAConnected(ss: seq<State?>, all: bool)
    ensures Scanned(ss, all) < |ss| ==> !all && FirstConnected(ss) != null
  {
    hide Connected;
    if ss != [] {
      StopsAtAConnected(ss[1..], all);
    }
  }

  // The states looked at, which are kept or dropped, and the others are all there are.
  lemma ScannedSplits(ss: seq<State?>, force: bool, all: bool)
    requires Distinct(ss)
    ensures var n := Scanned(ss, all);
            && All(ss) == All(Keep(ss[..n], force)) + Dropped(ss[..n], force) + All(ss[n..])
            && All(ss[n..]) !! All(ss[..n])
            && (n < |ss| ==> !all && FirstConnected(ss) != null)
    ensures var n := Scanned(ss, all); All(Keep(ss[..n], force)) == All(ss[..n]) - Dropped(ss[..n], force)
    ensures var n := Scanned(ss, all); Dropped(ss[..n], force) <= All(ss[..n])
  {
    hide Keep, Scanned;
    var n := Scanned(ss, all);
    StopsAtAConnected(ss, all);
    KeepStaysDistinct(ss[..n], force);
    assert ss == ss[..n] + ss[n..];
    forall s: State | s in All(ss[n..])
      ensures s !in All(ss[..n])
    {
      var j: nat :| j < |ss| - n && ss[n..][j] == s;
      assert ss[n + j] == s;
    }
  }
}
