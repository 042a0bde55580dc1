// The two completion walkers of OhciSched.c and the re-arming of a completed chain.
module OhciWalk {
  import opened OhciSpec
  import opened OhciChain

  type Bit = n: nat | n < 2

  // An endpoint descriptor's words.
  datatype EdVal = EdVal(skip: bool, halted: bool, carry: Bit, head: Td?, tail: Td?)

  class Ed {
    var skip: bool
    var halted: bool
    // ToggleCarry, what the controller last wrote there
    var carry: Bit
    var head: Td?
    var tail: Td?

    constructor ()
      ensures skip && !halted && carry == 0 && head == null && tail == null
    {
      skip, halted, carry, head, tail := true, false, 0, null, null;
    }

    ghost function Val(): (v: EdVal)
      reads this
    {
      EdVal(skip, halted, carry, head, tail)
    }

    // OhciAttachTDListToED on an endpoint with nothing queued.
    method Attach(td: Td?)
      requires head == null
      modifies this`head
      ensures head == td
    {
      head := td;
    }
  }

  // Walking one step on drops one value.
  lemma ValsFrom(tds: seq<Td>, i: nat)
    requires i < |tds|
    ensures Vals(tds)[i..][0] == tds[i].Val() && Vals(tds)[i..][1..] == Vals(tds)[i + 1..]
  {
  }

  method CheckTdsResults(head: Td?, ghost tds: seq<Td>) returns (ok: bool, result: bv32)
    requires Chain(head, tds)
    ensures result == ConvertErrorCode(FirstCode(Vals(tds)))
    ensures ok <==> result == USB_NOERROR
  {
    hide ConvertErrorCode;
    result := USB_NOERROR;
    var td := head;
    ghost var i := 0;
    while td != null
      invariant 0 <= i <= |tds| && td == At(tds, i)
      invariant result == USB_NOERROR && FirstCode(Vals(tds)) == FirstCode(Vals(tds)[i..])
      decreases |tds| - i
    {
      ValsFrom(tds, i);
      result := result | ConvertErrorCode(td.code);
      assert result == ConvertErrorCode(td.code);
      if result != 0 {
        return false, result;
      }
      td := td.next;
      i := i + 1;
    }
    ok := true;
  }

  // The toggle behind the last descriptor that completed cleanly, or the one to start with.
  function NextToggle(vs: seq<TdVal>, toggle: nat): (r: nat) {
    if Passed(vs) == 0 then toggle else Flip(vs[Passed(vs) - 1].toggle % 2)
  }

  method CheckEdStatus(ed: Ed, head: Td?, toggle: nat, ghost tds: seq<Td>) returns (code: nat, nextToggle: nat)
    requires Chain(head, tds)
    ensures tds == [] ==> code == (if ed.head != ed.tail then TOBE_PROCESSED else NO_ERROR) && nextToggle == toggle
    ensures tds != [] ==>
              var vs := Vals(tds)[..|tds| - 1];
              && code == FirstCode(vs)
              && nextToggle == NextToggle(vs, toggle)
  {
    var td := head;
    nextToggle := toggle;
    ghost var i, n := 0, |tds| - 1;
    while td != null
      invariant 0 <= i <= |tds| && td == At(tds, i) && (i == |tds| ==> tds == [])
      invariant tds != [] ==>
                  var vs := Vals(tds)[..n];
                  && FirstCode(vs) == FirstCode(vs[i..]) && Passed(vs) == i + Passed(vs[i..])
                  && nextToggle == if i == 0 then toggle else Flip(vs[i - 1].toggle % 2)
      invariant tds == [] ==> nextToggle == toggle
      decreases |tds| - i
    {
      ghost var vs := Vals(tds)[..n];
      if td.next == null {
        assert i == n && vs[i..] == [];
        return NO_ERROR, nextToggle;
      }
      assert vs[i] == td.Val() && vs[i..][1..] == vs[i + 1..];
      if td.code != NO_ERROR {
        return td.code, nextToggle;
      }
      nextToggle := Flip(td.toggle % 2);
      td := td.next;
      i := i + 1;
    }
    code := if ed.head != ed.tail then TOBE_PROCESSED else NO_ERROR;
  }

  datatype DescriptorList = ControlList | BulkList | InterruptList
  datatype TaskStatus = TaskDone | TaskPending | TaskFailed

  // listFilled: the controller still has the control or bulk list to process.
  method CheckIfDone(list: DescriptorList, listFilled: bool, ed: Ed, head: Td?, toggle: nat, ghost tds: seq<Td>)
    returns (status: TaskStatus, code: nat, nextToggle: nat)
    requires Chain(head, tds) && tds != []
    ensures listFilled && list != InterruptList ==> status == TaskPending && code == TOBE_PROCESSED && nextToggle == toggle
    ensures !(listFilled && list != InterruptList) ==>
              && code == FirstCode(Vals(tds)[..|tds| - 1])
              && (status == TaskDone <==> forall i :: 0 <= i < |tds| - 1 ==> Vals(tds)[i].code == NO_ERROR)
              && (status == TaskPending <==> code == TOBE_PROCESSED)
              && nextToggle == NextToggle(Vals(tds)[..|tds| - 1], toggle)
  {
    hide FirstCode, NextToggle, Chain, Vals;
    code, nextToggle := TOBE_PROCESSED, toggle;
    if list != InterruptList && listFilled {
      return TaskPending, code, nextToggle;
    }
    code, nextToggle := CheckEdStatus(ed, head, toggle, tds);
    ghost var vs := Vals(tds)[..|tds| - 1];
    FirstCodeZero(vs);
    assert forall i :: 0 <= i < |tds| - 1 ==> vs[i] == Vals(tds)[i];
    if code == NO_ERROR {
      status := TaskDone;
    } else if code == TOBE_PROCESSED {
      status := TaskPending;
    } else {
      status := TaskFailed;
    }
  }

  // On a chain with a clean tail both walkers report the same: the first code that is not
  // NO_ERROR, converted.
  method WalkersAgree(ed: Ed, head: Td?, toggle: nat, ghost tds: seq<Td>) returns (result: bv32, converted: bv32)
    requires Chain(head, tds) && tds != []
    ensures result == converted <==> tds[|tds| - 1].code == NO_ERROR || FirstCode(Vals(tds)[..|tds| - 1]) != NO_ERROR
  {
    var ok, code, next;
    ok, result := CheckTdsResults(head, tds);
    code, next := CheckEdStatus(ed, head, toggle, tds);
    converted := ConvertErrorCode(code);
    WalkersAgreeExactlyWhen(Vals(tds));
  }

  // The toggles of a chain about to be re-armed: alternating from the carry, the tail's cleared.
  method SetToggles(head: Td, carry: nat, ghost tds: seq<Td>)
    requires Chain(head, tds) && carry < 2
    modifies tds
    ensures Chain(head, tds)
    ensures forall i :: 0 <= i < |tds| ==>
              tds[i].Val() == old(tds[i].Val()).(toggle := if i == |tds| - 1 then 0 else OwnToggle(Toggled(carry, i)))
  {
    hide Toggled, OwnToggle, Td.Val;
    var td: Td?, toggle := head, carry;
    ghost var i := 0;
    ToggledNext(carry, 0);
    while td != null
      invariant 0 <= i < |tds| && td == At(tds, i) && toggle == Toggled(carry, i) && toggle < 2
      invariant Chain(head, tds)
      invariant forall k :: 0 <= k < |tds| ==>
                  tds[k].Val() == if k < i then old(tds[k].Val()).(toggle := OwnToggle(Toggled(carry, k))) else old(tds[k].Val())
      decreases |tds| - i
    {
      if td.next == null {
        td.SetToggle(0);
        break;
      } else {
        td.SetToggle(OwnToggle(toggle));
      }
      ToggledFlip(carry, i);
      td := td.next;
      toggle := Flip(toggle);
      i := i + 1;
    }
  }

  method ResetChain(head: Td, ghost tds: seq<Td>)
    requires Chain(head, tds)
    modifies tds
    ensures Chain(head, tds) && Mirrored(tds)
    ensures forall i :: 0 <= i < |tds| ==> tds[i].Val() == Reset(old(tds[i].Val()), i == |tds| - 1)
  {
    hide Reset, Td.Val;
    var td: Td? := head;
    ghost var i := 0;
    while td != null
      invariant 0 <= i <= |tds| && td == At(tds, i)
      invariant Chain(head, tds)
      invariant forall k :: 0 <= k < i ==> tds[k].hcNext == tds[k].next
      invariant forall k :: 0 <= k < |tds| ==>
                  tds[k].Val() == if k < i then Reset(old(tds[k].Val()), k == |tds| - 1) else old(tds[k].Val())
      decreases |tds| - i
    {
      td.ResetWords();
      td := td.next;
      i := i + 1;
    }
  }

  // A chain's toggles and words made ready again.
  method RearmChain(head: Td, carry: nat, ghost tds: seq<Td>)
    requires Chain(head, tds) && carry < 2
    modifies tds
    ensures Chain(head, tds) && Mirrored(tds) && Vals(tds) == Rearmed(old(Vals(tds)), carry)
  {
    hide Toggled, OwnToggle, Reset, Td.Val, Chain, Mirrored;
    SetToggles(head, carry, tds);
    ResetChain(head, tds);
  }

  // The re-submission of a completed periodic chain on its endpoint.
  method Rearm(ed: Ed, head: Td, ghost tds: seq<Td>)
    requires Chain(head, tds)
    modifies ed, tds
    ensures Chain(head, tds) && Mirrored(tds) && Vals(tds) == Rearmed(old(Vals(tds)), old(ed.carry))
    ensures ed.Val() == EdVal(false, false, 0, head, old(ed.tail))
  {
    hide Chain, Mirrored, Vals, Rearmed;
    ed.skip := true;
    var toggle := ed.carry;
    RearmChain(head, toggle, tds);
    ed.head := head;
    ed.halted, ed.carry := false, 0;
    ed.skip := false;
  }
}
