// The flash chip as the driver sees it over SPI: a write-enable latch, a busy period after every
// program, erase or status write, and commands that are ignored at the wrong time.
module NorDevice {
  import opened NorFlash

  datatype Op = ReadStatusOp | WriteEnableOp | WriteStatusOp | ProgramOp | EraseOp | ReadOp

  // A command as it reached the chip: the latch and the busy state it met.
  datatype Event = Event(op: Op, wel: bool, busy: bool)

  // Nothing but status reads while busy; nothing that changes the chip without the latch.
  predicate SafeEvent(e: Event) {
    && (e.busy ==> e.op == ReadStatusOp)
    && (e.op == ProgramOp || e.op == EraseOp || e.op == WriteStatusOp ==> e.wel && !e.busy)
  }

  predicate SafeLog(log: seq<Event>) {
    forall e <- log :: SafeEvent(e)
  }

  class Chip {
    const cells: array<bv8>
    var wel: bool
    // Status reads that will still answer "busy".
    var busy: nat
    // Status register bytes; the two low bits of the first are the latch and busy bits, kept apart.
    var status0: bv8
    var status1: bv8
    // The longest busy periods, counted in status reads.
    const programTime: nat
    const eraseTime: EraseType -> nat
    const statusTime: nat
    ghost var log: seq<Event>

    ghost predicate Valid()
      reads this
    {
      && 0 < cells.Length <= 0x8000_0000
      && cells.Length % BLOCK == 0
      && status0 & 3 == 0
    }

    ghost function Contents(): (r: seq<bv8>)
      reads this, cells
    {
      cells[..]
    }

    constructor (memory: array<bv8>, programTime: nat, eraseTime: EraseType -> nat, statusTime: nat)
      requires 0 < memory.Length <= 0x8000_0000 && memory.Length % BLOCK == 0
      ensures Valid() && busy == 0 && log == [] && cells == memory
      ensures this.programTime == programTime && this.eraseTime == eraseTime && this.statusTime == statusTime
    {
      cells := memory;
      this.programTime, this.eraseTime, this.statusTime := programTime, eraseTime, statusTime;
      wel, busy, status0, status1, log := false, 0, 0, 0, [];
    }

    method ReadStatus0() returns (v: bv8)
      requires Valid()
      modifies this`busy, this`log
      ensures v == status0 | (if old(busy) > 0 then 1 else 0) | (if wel then 2 else 0)
      ensures v & 1 == (if old(busy) > 0 then 1 else 0) && v & 0xFC == status0
      ensures busy == if old(busy) > 0 then old(busy) - 1 else 0
      ensures log == old(log) + [Event(ReadStatusOp, wel, old(busy) > 0)]
    {
      log := log + [Event(ReadStatusOp, wel, busy > 0)];
      v := status0 | (if busy > 0 then 1 else 0) | (if wel then 2 else 0);
      busy := if busy > 0 then busy - 1 else 0;
    }

    method ReadStatus1() returns (v: bv8)
      modifies this`busy, this`log
      ensures v == status1
      ensures busy == if old(busy) > 0 then old(busy) - 1 else 0
      ensures log == old(log) + [Event(ReadStatusOp, wel, old(busy) > 0)]
    {
      log := log + [Event(ReadStatusOp, wel, busy > 0)];
      v := status1;
      busy := if busy > 0 then busy - 1 else 0;
    }

    method WriteEnable()
      modifies this`wel, this`log
      ensures wel == (old(wel) || busy == 0)
      ensures log == old(log) + [Event(WriteEnableOp, old(wel), busy > 0)]
    {
      log := log + [Event(WriteEnableOp, wel, busy > 0)];
      wel := wel || busy == 0;
    }

    // The status bytes given; one that is not given is left alone.
    method WriteStatus(v0: bv8, v1: bv8, set0: bool, set1: bool)
      requires Valid()
      modifies this`wel, this`busy, this`status0, this`status1, this`log
      ensures Valid()
      ensures log == old(log) + [Event(WriteStatusOp, old(wel), old(busy) > 0)]
      ensures old(wel) && old(busy) == 0 ==>
                && !wel && busy <= statusTime
                && status0 == (if set0 then v0 & 0xFC else old(status0))
                && status1 == (if set1 then v1 else old(status1))
      ensures !(old(wel) && old(busy) == 0) ==>
                busy == old(busy) && wel == old(wel) && status0 == old(status0) && status1 == old(status1)
    {
      log := log + [Event(WriteStatusOp, wel, busy > 0)];
      if wel && busy == 0 {
        status0 := if set0 then v0 & 0xFC else status0;
        status1 := if set1 then v1 else status1;
        var period: nat :| period <= statusTime;
        busy := period;
        wel := false;
      }
    }

    method PageProgram(at: nat, data: seq<bv8>)
      requires Valid() && at < cells.Length && 1 <= |data| <= PAGE
      modifies this`wel, this`busy, this`log, cells
      ensures log == old(log) + [Event(ProgramOp, old(wel), old(busy) > 0)]
      ensures old(wel) && old(busy) == 0 ==> !wel && busy <= programTime && Contents() == PageProgrammed(old(Contents()), at, data)
      ensures !(old(wel) && old(busy) == 0) ==> busy == old(busy) && wel == old(wel) && Contents() == old(Contents())
    {
      log := log + [Event(ProgramOp, wel, busy > 0)];
      if wel && busy == 0 {
        forall i | 0 <= i < cells.Length && i / PAGE == at / PAGE && (i - at) % PAGE < |data| {
          cells[i] := cells[i] & data[(i - at) % PAGE];
        }
        assert cells[..] == PageProgrammed(old(cells[..]), at, data);
        var period: nat :| period <= programTime;
        busy := period;
        wel := false;
      }
    }

    // The chip ignores the low address bits: the aligned range that holds the address goes.
    method Erase(at: nat, kind: EraseType)
      requires Valid() && at < cells.Length
      modifies this`wel, this`busy, this`log, cells
      ensures log == old(log) + [Event(EraseOp, old(wel), old(busy) > 0)]
      ensures old(wel) && old(busy) == 0 ==>
                && !wel && busy <= eraseTime(kind)
                && Contents() == Erased(old(Contents()), EraseStart(at, kind), EraseEnd(at, kind, cells.Length))
      ensures !(old(wel) && old(busy) == 0) ==> busy == old(busy) && wel == old(wel) && Contents() == old(Contents())
    {
      hide EraseStart, EraseEnd;
      log := log + [Event(EraseOp, wel, busy > 0)];
      if wel && busy == 0 {
        var start, end := EraseStart(at, kind), EraseEnd(at, kind, cells.Length);
        EraseFits(at, kind, cells.Length);
        forall i | start <= i < end {
          cells[i] := ERASED;
        }
        assert cells[..] == Erased(old(cells[..]), start, end);
        var period: nat :| period <= eraseTime(kind);
        busy := period;
        wel := false;
      }
    }

    // A read of a busy chip fills the buffer with anything at all.
    method Read(at: nat, len: nat, buf: array<bv8>, off: nat)
      requires Valid() && at + len <= cells.Length && off + len <= buf.Length && buf != cells
      modifies this`log, buf
      ensures log == old(log) + [Event(ReadOp, wel, busy > 0)]
      ensures busy == 0 ==> buf[..] == Spliced(old(buf[..]), off, Contents()[at..at + len])
    {
      log := log + [Event(ReadOp, wel, busy > 0)];
      for j := 0 to len
        modifies buf
        invariant forall k :: 0 <= k < buf.Length ==>
                    busy == 0 ==> buf[k] == if off <= k < off + j then cells[at + k - off] else old(buf[k])
      {
        var garbage: bv8 := *;
        buf[off + j] := if busy == 0 then cells[at + j] else garbage;
      }
      assert busy == 0 ==> buf[..] == Spliced(old(buf[..]), off, cells[at..at + len]);
    }
  }
}
