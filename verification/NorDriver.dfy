// The SPI-NOR driver of NorFlashDxe.c over the chip: waiting, page splitting, sector erase and the
// read, erase and rewrite of an update. Transfers are assumed to succeed.
module NorDriver {
  import opened NorFlash
  import opened NorDevice

  // RETURN_STATUS: a value without the error bit (0 is RETURN_SUCCESS), or an error.
  datatype Status = Success(value: nat) | DeviceError | NotReady | OutOfResources

  // Which write-status command the chip takes: one byte a register, or both in one command.
  datatype StatusMode = Mode0 | Mode1 | Mode2

  const READ_MAX_IOSIZE := 8192
  const POLLS := 10000

  // UINT32 addition and multiplication.
  function Add32(a: nat, b: nat): (r: nat)
    ensures r < 0x1_0000_0000
  {
    (a + b) % 0x1_0000_0000
  }

  function Mul32(a: nat, b: nat): (r: nat)
    ensures r < 0x1_0000_0000
  {
    (a * b) % 0x1_0000_0000
  }

  lemma NoWrap(a: nat, b: nat)
    requires a + b < 0x1_0000_0000
    ensures Add32(a, b) == a + b
  {
  }

  // Sector numbers turn into addresses modulo 4 GiB.
  lemma SectorAddress(sec: nat)
    requires sec < 0x1_0000_0000
    ensures Mul32(sec, SECTOR) % SECTOR == 0 && Mul32(sec, SECTOR) < 0x1_0000_0000
    ensures Mul32(Add32(sec, 1), SECTOR) == Add32(Mul32(sec, SECTOR), SECTOR)
  {
    hide Mul32;
    Wrapped(sec);
    if sec + 1 < 0x1_0000_0000 {
      Wrapped(sec + 1);
      NextResidue(sec);
    } else {
      Wrapped(0);
    }
  }

  lemma Wrapped(sec: nat)
    ensures Mul32(sec, SECTOR) == sec % 0x10_0000 * SECTOR
  {
    var j, k := sec / 0x10_0000, sec % 0x10_0000;
    Residue(j, k * 0x1000);
    assert Mul32(sec, SECTOR) == (j * 0x1_0000_0000 + k * 0x1000) % 0x1_0000_0000;
  }

  lemma Residue(j: nat, r: nat)
    requires r < 0x1_0000_0000
    ensures (j * 0x1_0000_0000 + r) % 0x1_0000_0000 == r
  {
  }

  lemma NextResidue(sec: nat)
    ensures (sec + 1) % 0x10_0000 == if sec % 0x10_0000 + 1 == 0x10_0000 then 0 else sec % 0x10_0000 + 1
  {
    var j, k := sec / 0x10_0000, sec % 0x10_0000;
    assert sec == j * 0x10_0000 + k;
  }

  predicate Aligned(n: nat) {
    n % SECTOR == 0
  }

  lemma AlignedIs(n: nat)
    ensures Aligned(n) <==> n % SECTOR == 0
  {
  }

  lemma AlignedNext(left: nat, at: nat)
    requires Aligned(left) && Aligned(at) && left != 0
    ensures SECTOR <= left && Aligned(left - SECTOR) && Aligned(at + SECTOR)
  {
  }

  // A sector-aligned address and the next one, on a chip of whole blocks.
  lemma NextSector(at: nat, size: nat)
    requires at % SECTOR == 0
    ensures EraseStart(at, EraseSector) == at && EraseEnd(at, EraseSector, size) == at + SECTOR
    ensures (at + SECTOR) % SECTOR == 0
  {
  }

  lemma InsideChip(at: nat, size: nat)
    requires at % SECTOR == 0 && at < size && size % BLOCK == 0
    ensures at + SECTOR <= size
  {
    EraseFits(at, EraseSector, size);
  }

  lemma WholeSectors(size: nat)
    requires size % BLOCK == 0
    ensures size % SECTOR == 0
  {
    var k := size / BLOCK;
    assert size == k * 16 * 0x1000;
  }

  lemma InsideOrNot(at: nat, size: nat)
    requires size % BLOCK == 0
    ensures at < size ==> at - at % SECTOR + SECTOR <= size
  {
    if at < size {
      EraseFits(at, EraseSector, size);
    }
  }

  function ErasePolls(kind: EraseType): (r: nat) {
    match kind
    case EraseSector => 400 * 1000
    case EraseBlock64K => 2000 * 1000
    case EraseChip => 40000 * 1000
  }

  // What a call of Update comes to: its status, the contents it leaves, and whether it copied past
  // the end of its sector buffer on the way.
  datatype UpdateOutcome = UpdateOutcome(status: Status, contents: seq<bv8>, overran: bool)

  // An error when a piece of the data would start behind the chip; what is in front of its end is
  // updated all the same.
  ghost function OutcomeOf(was: seq<bv8>, offset: nat, data: seq<bv8>): (o: UpdateOutcome)
    ensures |o.contents| == |was|
  {
    var last := if data == [] then 0 else (|data| - 1) / SECTOR * SECTOR;
    UpdateOutcome(if data != [] && offset + last >= |was| then DeviceError else Success(0),
                  Updated(was, offset, data),
                  offset < |was| && offset % SECTOR != 0 && offset % SECTOR + |data| > SECTOR)
  }

  // The pieces of the data start a sector apart, the last one before its end.
  lemma LastPiece(n: nat, done: nat)
    requires done < n && done % SECTOR == 0
    ensures done <= (n - 1) / SECTOR * SECTOR < n
    ensures n <= done + SECTOR ==> (n - 1) / SECTOR * SECTOR == done
  {
    var k, q := done / SECTOR, (n - 1) / SECTOR;
    assert done == k * SECTOR && n - 1 == q * SECTOR + (n - 1) % SECTOR;
  }

  lemma SameAlign(offset: nat, done: nat)
    requires done % SECTOR == 0
    ensures (offset + done) % SECTOR == offset % SECTOR
  {
    var k, q := done / SECTOR, offset / SECTOR;
    assert offset + done == (q + k) * SECTOR + offset % SECTOR;
  }

  lemma AllBlank(s: seq<bv8>, n: nat)
    requires n <= |s| && forall i :: 0 <= i < |s| ==> s[i] == 0
    ensures Blank(s, n)
  {
  }

  // Where Update's loop stands, and how it ends.
  ghost predicate Going(was: seq<bv8>, offset: nat, data: seq<bv8>, done: nat, now: seq<bv8>, overran: bool) {
    && |was| % SECTOR == 0 && done <= |data| && (done == |data| || done % SECTOR == 0)
    && (done == 0 || offset + (done - 1) / SECTOR * SECTOR < |was|)
    && now == Updated(was, offset, data[..done])
    && (overran <==> done > 0 && offset < |was| && offset % SECTOR != 0 && offset % SECTOR + done > SECTOR)
  }

  lemma UpdateStarts(was: seq<bv8>, offset: nat, data: seq<bv8>)
    requires |was| % SECTOR == 0
    ensures Going(was, offset, data, 0, was, false)
  {
    assert Updated(was, offset, data[..0]) == was;
  }

  lemma UpdateStops(was: seq<bv8>, offset: nat, data: seq<bv8>, done: nat, now: seq<bv8>, overran: bool)
    requires Going(was, offset, data, done, now, overran) && done < |data| && offset + done >= |was|
    ensures UpdateOutcome(DeviceError, now, overran) == OutcomeOf(was, offset, data)
  {
    hide Updated;
    LastPiece(|data|, done);
    UpdateBeyond(was, offset, data, done);
  }

  lemma UpdateEnds(was: seq<bv8>, offset: nat, data: seq<bv8>, now: seq<bv8>, overran: bool)
    requires Going(was, offset, data, |data|, now, overran)
    ensures UpdateOutcome(Success(0), now, overran) == OutcomeOf(was, offset, data)
  {
    hide Updated;
    assert data[..|data|] == data;
  }

  // One more piece: the sector written back is the one the update leaves.
  lemma UpdateGoes(was: seq<bv8>, offset: nat, data: seq<bv8>, done: nat, now: seq<bv8>, overran: bool,
                   n: nat, before: seq<bv8>, image: seq<bv8>, now': seq<bv8>)
    requires Going(was, offset, data, done, now, overran) && done < |data| && offset + done < |was|
    requires n == if |data| - done < SECTOR then |data| - done else SECTOR
    requires |before| == SECTOR
    requires var at, align := offset + done, offset % SECTOR;
             && at - align + SECTOR <= |was|
             && (align == 0 ==> now' == Spliced(now, at, data[done..done + n]))
             && (align != 0 ==>
                   && Blank(before, align)
                   && image == Spliced(if n == SECTOR then before else now[at - align..at - align + SECTOR], align, data[done..done + n])
                   && now' == Spliced(now, at - align, image))
    ensures Going(was, offset, data, done + n, now', overran || offset % SECTOR + n > SECTOR)
    ensures offset % SECTOR != 0 && n == SECTOR ==> Blank(image, offset % SECTOR)
  {
    hide Updated, Spliced;
    LastPiece(done + n, done);
    if offset % SECTOR == 0 {
      UpdateAligned(was, offset, data, done, n);
    } else {
      UpdateNext(was, offset, data, done, n, before, image);
      FrontStays(before, offset % SECTOR, data[done..done + n]);
    }
  }

  class Nor {
    const chip: Chip
    const mode: StatusMode

    // Between driver calls the chip is idle and has never been sent a command at the wrong time;
    // its busy periods fit the poll budgets.
    ghost predicate Ready()
      reads chip
    {
      && chip.Valid()
      && chip.busy == 0
      && SafeLog(chip.log)
      && chip.programTime < POLLS
      && chip.statusTime < POLLS
      && forall kind :: chip.eraseTime(kind) < ErasePolls(kind)
    }

    constructor (chip: Chip, mode: StatusMode)
      ensures this.chip == chip && this.mode == mode
    {
      this.chip, this.mode := chip, mode;
    }

    lemma Sizes()
      requires Ready()
      ensures chip.cells.Length <= 0x8000_0000 && chip.cells.Length % BLOCK == 0 && chip.cells.Length % SECTOR == 0
    {
      WholeSectors(chip.cells.Length);
    }

    // HAL_SNOR_* range check: true when the range is refused.
    predicate OutOfRange(from: nat, len: nat) {
      from >= chip.cells.Length || len > chip.cells.Length || Add32(from, len) > chip.cells.Length
    }

    // The check's UINT32 sum cannot wrap on a chip of at most 2 GiB.
    lemma RangeCheckIsExact(from: nat, len: nat)
      requires chip.cells.Length <= 0x8000_0000
      ensures OutOfRange(from, len) <==> from >= chip.cells.Length || from + len > chip.cells.Length
    {
    }

    // Nothing but status reads since.
    static ghost predicate Polled(before: seq<Event>, after: seq<Event>) {
      before <= after && forall e <- after[|before|..] :: e.op == ReadStatusOp
    }

    method WaitBusy(timeout: nat) returns (r: Status)
      requires chip.Valid() && SafeLog(chip.log)
      modifies chip`busy, chip`log
      ensures SafeLog(chip.log) && Polled(old(chip.log), chip.log)
      ensures r == if old(chip.busy) < timeout then Success(0) else NotReady
      ensures chip.busy == if old(chip.busy) < timeout then 0 else old(chip.busy) - timeout
    {
      var i := 0;
      while i < timeout
        invariant i <= timeout && i <= old(chip.busy) && chip.busy == old(chip.busy) - i
        invariant SafeLog(chip.log) && Polled(old(chip.log), chip.log)
      {
        var status := chip.ReadStatus0();
        if status & 1 == 0 {
          return Success(0);
        }
        i := i + 1;
      }
      return NotReady;
    }

    method ReadStatus(regIndex: nat) returns (v: bv8)
      requires regIndex < 2 && Ready()
      modifies chip`busy, chip`log
      ensures Ready()
      ensures Polled(old(chip.log), chip.log)
      ensures if regIndex == 0 then v == chip.status0 | (if chip.wel then 2 else 0) else v == chip.status1
    {
      if regIndex == 0 {
        v := chip.ReadStatus0();
      } else {
        v := chip.ReadStatus1();
      }
    }

    // The status registers are written, one or both, and waited for.
    method StatusCommand(v0: bv8, v1: bv8, set0: bool, set1: bool) returns (r: Status)
      requires Ready()
      modifies chip`wel, chip`busy, chip`status0, chip`status1, chip`log
      ensures Ready() && r == Success(0)
      ensures chip.status0 == if set0 then v0 & 0xFC else old(chip.status0)
      ensures chip.status1 == if set1 then v1 else old(chip.status1)
    {
      chip.WriteEnable();
      chip.WriteStatus(v0, v1, set0, set1);
      r := WaitBusy(POLLS);
    }

    static lemma LatchBitGoes(v: bv8)
      requires v & 3 == 0
      ensures v & 0xFC == v && (v | 2) & 0xFC == v && (v | 0) & 0xFC == v
    {
    }

    // One status register changes, the other does not, whichever write command the chip takes.
    method WriteStatus(regIndex: nat, status: bv8) returns (r: Status)
      requires regIndex < 2 && Ready()
      modifies chip`wel, chip`busy, chip`status0, chip`status1, chip`log
      ensures Ready() && r == Success(0)
      ensures chip.status0 == if regIndex == 0 then status & 0xFC else old(chip.status0)
      ensures chip.status1 == if regIndex == 1 then status else old(chip.status1)
    {
      if mode == Mode0 {
        r := StatusCommand(status, status, regIndex == 0, regIndex == 1);
        if !r.Success? {
          return;
        }
      } else {
        var other := ReadStatus(1 - regIndex);
        var status2 := if regIndex == 0 then (status, other) else (other, status);
        LatchBitGoes(chip.status0);
        var ignored := StatusCommand(status2.0, status2.1, true, true);
      }
      r := Success(0);
    }

    method ReadData(from: nat, buf: array<bv8>, off: nat, len: nat) returns (r: Status)
      requires Ready() && off + len <= buf.Length && buf != chip.cells
      requires from < 0x1_0000_0000 && len < 0x1_0000_0000
      modifies chip`log, buf
      ensures Ready()
      ensures if from >= chip.cells.Length || from + len > chip.cells.Length
              then r == DeviceError && buf[..] == old(buf[..])
              else r == Success(len) && buf[..] == Spliced(old(buf[..]), off, chip.Contents()[from..from + len])
    {
      hide Spliced;
      RangeCheckIsExact(from, len);
      if OutOfRange(from, len) {
        return DeviceError;
      }
      var from': nat, pBuf: nat, remain: nat := from, off, len;
      ghost var was := buf[..];
      NothingDone(was, off);
      assert chip.Contents()[from..from] == [];
      while remain != 0
        invariant remain <= len && from' == from + (len - remain) && pBuf == off + (len - remain)
        invariant Ready() && buf[..] == Spliced(was, off, chip.Contents()[from..from'])
      {
        var size := if READ_MAX_IOSIZE < remain then READ_MAX_IOSIZE else remain;
        ReadPiece(from', size, buf, pBuf, was, off, from);
        remain := remain - size;
        from' := Add32(from', size);
        pBuf := pBuf + size;
      }
      return Success(len);
    }

    // One read command, behind what has been read since from0.
    method ReadPiece(from: nat, len: nat, buf: array<bv8>, off: nat, ghost was: seq<bv8>, ghost off0: nat, ghost from0: nat)
      requires Ready() && from0 <= from && from + len <= chip.cells.Length
      requires off + len <= buf.Length && buf != chip.cells && off == off0 + (from - from0)
      requires buf[..] == Spliced(was, off0, chip.Contents()[from0..from])
      modifies chip`log, buf
      ensures Ready() && buf[..] == Spliced(was, off0, chip.Contents()[from0..from + len])
    {
      hide Spliced;
      chip.Read(from, len, buf, off);
      SpliceMore(was, off0, chip.Contents(), from0, from, from + len);
    }

    // One unbounded program: the page split does not show.
    method ProgData(to: nat, data: seq<bv8>) returns (r: Status)
      requires Ready() && to < 0x1_0000_0000 && |data| < 0x1_0000_0000
      modifies chip`wel, chip`busy, chip`log, chip.cells
      ensures Ready()
      ensures if to >= chip.cells.Length || to + |data| > chip.cells.Length
              then r == DeviceError && chip.Contents() == old(chip.Contents())
              else r == Success(|data|) && chip.Contents() == Programmed(old(chip.Contents()), to, data)
    {
      hide Programmed, PageProgrammed;
      RangeCheckIsExact(to, |data|);
      if OutOfRange(to, |data|) {
        return DeviceError;
      }
      var to': nat, pBuf: nat, remain: nat := to, 0, |data|;
      ghost var was := chip.Contents();
      NothingDone(was, to);
      while remain != 0
        invariant remain <= |data| && pBuf == |data| - remain && to' == to + pBuf
        invariant Ready()
        invariant chip.Contents() == Programmed(was, to, data[..pBuf])
      {
        var pageOffset := to' % PAGE;
        var size := if PAGE - pageOffset < remain then PAGE - pageOffset else remain;
        ProgPiece(to', data, pBuf, size, was, to);
        remain := remain - size;
        to' := Add32(to', size);
        pBuf := pBuf + size;
      }
      assert data[..pBuf] == data;
      return Success(|data|);
    }

    // One page program, behind those that started at to0.
    method ProgPiece(to: nat, data: seq<bv8>, pBuf: nat, size: nat, ghost was: seq<bv8>, ghost to0: nat)
      requires Ready() && to == to0 + pBuf && pBuf + size <= |data| && 0 < size && to % PAGE + size <= PAGE
      requires to + size <= chip.cells.Length && chip.Contents() == Programmed(was, to0, data[..pBuf])
      modifies chip`wel, chip`busy, chip`log, chip.cells
      ensures Ready() && chip.Contents() == Programmed(was, to0, data[..pBuf + size])
    {
      hide Programmed, PageProgrammed;
      chip.WriteEnable();
      chip.PageProgram(to, data[pBuf..pBuf + size]);
      ProgramMore(was, to0, data, pBuf, size);
      var ignored := WaitBusy(POLLS);
    }

    method Erase(addr: nat, kind: EraseType) returns (r: Status)
      requires Ready()
      modifies chip`wel, chip`busy, chip`log, chip.cells
      ensures Ready()
      ensures if addr >= chip.cells.Length
              then r == DeviceError && chip.Contents() == old(chip.Contents())
              else && r == Success(0)
                   && chip.Contents() == Erased(old(chip.Contents()), EraseStart(addr, kind), EraseEnd(addr, kind, chip.cells.Length))
    {
      if addr >= chip.cells.Length {
        return DeviceError;
      }
      chip.WriteEnable();
      chip.Erase(addr, kind);
      r := WaitBusy(ErasePolls(kind));
    }

    method Read(sec: nat, nSec: nat, buf: array<bv8>, off: nat) returns (r: Status)
      requires Ready() && sec < 0x1_0000_0000 && nSec < 0x1_0000_0000
      requires buf != chip.cells && off + Mul32(nSec, SECTOR) <= buf.Length
      modifies chip`log, buf
      ensures Ready()
      ensures var from, len := Mul32(sec, SECTOR), Mul32(nSec, SECTOR);
              if from >= chip.cells.Length || from + len > chip.cells.Length
              then r == DeviceError && buf[..] == old(buf[..])
              else r == Success(nSec) && buf[..] == Spliced(old(buf[..]), off, chip.Contents()[from..from + len])
    {
      r := ReadData(Mul32(sec, SECTOR), buf, off, Mul32(nSec, SECTOR));
      if r != Success(Mul32(nSec, SECTOR)) {
        return;
      }
      r := Success(nSec);
    }

    method Write(sec: nat, nSec: nat, data: seq<bv8>) returns (r: Status)
      requires Ready() && sec < 0x1_0000_0000 && nSec < 0x1_0000_0000
      requires |data| == Mul32(nSec, SECTOR)
      modifies chip`wel, chip`busy, chip`log, chip.cells
      ensures Ready()
      ensures var to := Mul32(sec, SECTOR);
              if to >= chip.cells.Length || to + |data| > chip.cells.Length
              then r == DeviceError && chip.Contents() == old(chip.Contents())
              else r == Success(nSec) && chip.Contents() == Programmed(old(chip.Contents()), to, data)
    {
      r := ProgData(Mul32(sec, SECTOR), data);
      if r != Success(|data|) {
        return;
      }
      r := Success(nSec);
    }

    // One sector of OverWrite.
    method OverWriteSector(sec: nat, data: seq<bv8>) returns (r: Status)
      requires Ready() && sec < 0x1_0000_0000 && |data| == SECTOR
      modifies chip`wel, chip`busy, chip`log, chip.cells
      ensures Ready()
      ensures var at := Mul32(sec, SECTOR);
              if at >= chip.cells.Length then r == DeviceError && chip.Contents() == old(chip.Contents())
              else r == Success(SECTOR) && chip.Contents() == Spliced(old(chip.Contents()), at, data)
    {
      hide Programmed, Erased, Spliced, Mul32, EraseStart, EraseEnd;
      var at := Mul32(sec, SECTOR);
      SectorAddress(sec);
      NextSector(at, chip.cells.Length);
      if at < chip.cells.Length {
        InsideChip(at, chip.cells.Length);
      }
      r := Erase(at, EraseSector);
      if !r.Success? {
        return;
      }
      Rewritten(old(chip.Contents()), at, data);
      r := ProgData(at, data);
    }

    // Every sector of the run, or the ones in front of the end of the chip and an error.
    method OverWrite(sec: nat, nSec: nat, data: seq<bv8>) returns (r: Status)
      requires Ready() && sec < 0x1_0000_0000 && nSec < 0x1_0000_0000
      requires |data| == nSec * SECTOR
      modifies chip`wel, chip`busy, chip`log, chip.cells
      ensures Ready()
      ensures var at, size := Mul32(sec, SECTOR), chip.cells.Length;
              if nSec == 0 || at + |data| <= size
              then r == Success(nSec) && chip.Contents() == Spliced(old(chip.Contents()), at, data)
              else && r == DeviceError
                   && chip.Contents() == Spliced(old(chip.Contents()), at, data[..if at < size then size - at else 0])
    {
      hide Spliced, Mul32, Add32;
      var sec', pBuf: nat, remaining: nat := sec, 0, nSec;
      ghost var at, was := Mul32(sec, SECTOR), chip.Contents();
      NothingDone(was, at);
      SectorAddress(sec);
      while remaining != 0
        invariant remaining <= nSec && pBuf == (nSec - remaining) * SECTOR && sec' < 0x1_0000_0000
        invariant pBuf == 0 || at + pBuf <= chip.cells.Length
        invariant Mul32(sec', SECTOR) == at + pBuf && (at + pBuf) % SECTOR == 0
        invariant Ready()
        invariant chip.Contents() == Spliced(was, at, data[0..pBuf])
      {
        SpliceMore(was, at, data, 0, pBuf, pBuf + SECTOR);
        r := OverWriteSector(sec', data[pBuf..pBuf + SECTOR]);
        if !r.Success? {
          return;
        }
        InsideChip(at + pBuf, chip.cells.Length);
        SectorAddress(sec');
        NoWrap(at + pBuf, SECTOR);
        pBuf := pBuf + SECTOR;
        remaining := remaining - 1;
        sec' := Add32(sec', 1);
        NextSector(at + pBuf - SECTOR, 0);
      }
      assert data[0..pBuf] == data;
      return Success(nSec);
    }

    // The firmware's own stress test in one step: what was overwritten reads back.
    method OverWriteThenRead(sec: nat, nSec: nat, data: seq<bv8>, back: array<bv8>) returns (r: Status)
      requires Ready() && sec < 0x1_0000_0000 && 1 <= nSec < 0x1_0000_0000
      requires chip.cells != back && back.Length == |data| == nSec * SECTOR
      modifies chip`wel, chip`busy, chip`log, chip.cells, back
      ensures Ready()
      ensures r == Success(nSec) <==> Mul32(sec, SECTOR) + nSec * SECTOR <= chip.cells.Length
      ensures r == Success(nSec) ==> back[..] == data
    {
      r := OverWrite(sec, nSec, data);
      if r == Success(nSec) {
        ReadBack(old(chip.Contents()), Mul32(sec, SECTOR), data);
        r := Read(sec, nSec, back, 0);
        FillsWhole(old(back[..]), data);
      }
    }

    // EFI_STATUS Erase: whole sectors, one erase command each.
    method EraseSectors(offset: nat, length: nat) returns (r: Status)
      requires Ready() && offset < 0x1_0000_0000 && length < 0x1_0000_0000
      modifies chip`wel, chip`busy, chip`log, chip.cells
      ensures Ready()
      ensures var size := chip.cells.Length;
              if offset % SECTOR != 0 || length % SECTOR != 0 then
                r == DeviceError && chip.Contents() == old(chip.Contents())
              else
                && r == (if length == 0 || offset + length <= size then Success(0) else DeviceError)
                && chip.Contents() == Erased(old(chip.Contents()), offset, offset + length)
    {
      hide Erased, Add32, EraseStart, EraseEnd, SafeLog, ErasePolls, Aligned;
      AlignedIs(offset);
      AlignedIs(length);
      if offset % SECTOR != 0 || length % SECTOR != 0 {
        return DeviceError;
      }
      var offset': nat, left: nat := offset, length;
      ghost var was := chip.Contents();
      NothingDone(was, offset);
      while left != 0
        invariant left <= length && Aligned(left) && offset' == offset + (length - left) && Aligned(offset')
        invariant left == length || offset' <= chip.cells.Length
        invariant Ready()
        invariant chip.Contents() == Erased(was, offset, offset')
      {
        AlignedNext(left, offset');
        r := EraseNext(offset', was, offset);
        if !r.Success? {
          EraseBeyond(was, offset, offset', offset + length);
          return;
        }
        NoWrap(offset', SECTOR);
        offset' := Add32(offset', SECTOR);
        left := left - SECTOR;
      }
      return Success(0);
    }

    // One more sector.
    method EraseNext(at: nat, ghost was: seq<bv8>, ghost from: nat) returns (r: Status)
      requires Ready() && Aligned(at) && from <= at < 0x1_0000_0000
      requires chip.Contents() == Erased(was, from, at)
      modifies chip`wel, chip`busy, chip`log, chip.cells
      ensures Ready() && r == if at < chip.cells.Length then Success(0) else DeviceError
      ensures r.Success? ==> at + SECTOR <= chip.cells.Length <= 0x8000_0000
      ensures chip.Contents() == Erased(was, from, if r.Success? then at + SECTOR else at)
    {
      hide Erased, EraseStart, EraseEnd, SafeLog, ErasePolls;
      NextSector(at, chip.cells.Length);
      r := Erase(at, EraseSector);
      if r.Success? {
        EraseMore(was, from, at, at + SECTOR);
        InsideChip(at, chip.cells.Length);
      }
    }

    // CopyMem into the sector buffer: what fits is in it, and what does not has gone past its end.
    method CopyInto(tmp: array<bv8>, at: nat, data: seq<bv8>) returns (overran: bool)
      modifies tmp
      ensures overran <==> at + |data| > tmp.Length
      ensures tmp[..] == Spliced(old(tmp[..]), at, data)
    {
      var n := if at + |data| <= tmp.Length then |data| else if at < tmp.Length then tmp.Length - at else 0;
      for k := 0 to n
        invariant forall j :: 0 <= j < tmp.Length ==> tmp[j] == if at <= j < at + k then data[j - at] else old(tmp[j])
      {
        tmp[at + k] := data[k];
      }
      assert tmp[..] == Spliced(old(tmp[..]), at, data);
      overran := at + |data| > tmp.Length;
    }

    // SpiFlashUpdateBlock: one sector written back. From a sector start on it is the new bytes and the
    // rest as it was. From inside a sector it is the sector buffer, with the new bytes copied over the
    // old sector, or, when they are a sector's length, over whatever the buffer held.
    method UpdateBlock(offset: nat, align: nat, data: seq<bv8>, tmp: array<bv8>) returns (r: Status, overran: bool)
      requires Ready() && offset < 0x1_0000_0000 && align == offset % SECTOR && 1 <= |data| <= SECTOR
      requires tmp.Length == SECTOR && tmp != chip.cells
      modifies chip`wel, chip`busy, chip`log, chip.cells, tmp
      ensures Ready()
      ensures offset >= chip.cells.Length ==> r == DeviceError && !overran && chip.Contents() == old(chip.Contents())
      ensures offset < chip.cells.Length ==>
                var was, start := old(chip.Contents()), offset - align;
                && r == Success(0) && start + SECTOR <= |was|
                && (overran <==> align + |data| > SECTOR)
                && (align == 0 ==> chip.Contents() == Spliced(was, offset, data))
                && (align != 0 ==>
                      && chip.Contents() == Spliced(was, start, tmp[..])
                      && tmp[..] == Spliced(if |data| == SECTOR then old(tmp[..]) else was[start..start + SECTOR], align, data))
    {
      hide Spliced, Programmed, Erased;
      overran := false;
      var toUpdate, start := |data|, offset - align;
      ghost var was := chip.Contents();
      if offset < chip.cells.Length {
        InsideChip(start, chip.cells.Length);
      }
      if toUpdate != SECTOR {
        r := ReadData(start, tmp, 0, SECTOR);
        if !r.Success? {
          return;
        }
        FillsWhole(old(tmp[..]), was[start..start + SECTOR]);
      }
      r := Erase(offset, EraseSector);
      if !r.Success? {
        return;
      }
      if align != 0 {
        overran := CopyInto(tmp, align, data);
        r := ProgData(start, tmp[..]);
        Rewritten(was, start, tmp[..]);
        return Success(0), overran;
      }
      WriteErased(offset, data, tmp, was);
      r := Success(0);
    }

    // The erased sector gets the new bytes and, behind them, those it was read to hold.
    method WriteErased(offset: nat, data: seq<bv8>, tmp: array<bv8>, ghost was: seq<bv8>)
      requires Ready() && 1 <= |data| <= SECTOR == tmp.Length && offset + SECTOR <= chip.cells.Length == |was|
      requires chip.Contents() == Erased(was, offset, offset + SECTOR)
      requires |data| != SECTOR ==> tmp[..] == was[offset..offset + SECTOR]
      modifies chip`wel, chip`busy, chip`log, chip.cells
      ensures Ready() && chip.Contents() == Spliced(was, offset, data)
    {
      hide Spliced, Programmed, Erased, SafeLog, ErasePolls;
      var n := |data|;
      var r := ProgData(offset, data);
      if n != SECTOR {
        ghost var back := was[offset..offset + SECTOR];
        assert tmp[n..] == back[n..] == was[offset + n..offset + SECTOR];
        RewrittenHead(was, offset, data, back[n..]);
        NoWrap(offset, n);
        r := ProgData(Add32(offset, n), tmp[n..]);
      } else {
        Rewritten(was, offset, data);
      }
    }

    static lemma FillsWhole(s: seq<bv8>, data: seq<bv8>)
      requires |s| == |data|
      ensures Spliced(s, 0, data) == data
    {
    }

    // Update, for every range and contents.
    method Update(offset: nat, data: seq<bv8>, memory: bool) returns (r: Status, overran: bool)
      requires Ready() && offset < 0x1_0000_0000 && |data| < 0x1_0000_0000
      modifies chip`wel, chip`busy, chip`log, chip.cells
      ensures Ready()
      ensures if memory then UpdateOutcome(r, chip.Contents(), overran) == OutcomeOf(old(chip.Contents()), offset, data)
              else r == OutOfResources && !overran && chip.Contents() == old(chip.Contents())
    {
      hide Ready, Spliced, Updated, Blank, Add32, OutcomeOf, Going, Aligned;
      overran := false;
      if !memory {
        return OutOfResources, overran;
      }
      var align := offset % SECTOR;
      var tmp := new bv8[SECTOR](_ => 0);
      var at: nat, pBuf: nat := offset, 0;
      ghost var was := chip.Contents();
      r := Success(0);
      Sizes();
      AllBlank(tmp[..], align);
      AlignedIs(0);
      UpdateStarts(was, offset, data);
      while pBuf < |data|
        invariant pBuf <= |data| && at == offset + pBuf < 0x1_0000_0000 && (pBuf < |data| ==> Aligned(pBuf))
        invariant align != 0 && pBuf < |data| ==> Blank(tmp[..], align)
        invariant r == Success(0) && Ready()
        invariant Going(was, offset, data, pBuf, chip.Contents(), overran)
        decreases |data| - pBuf
      {
        var toUpdate;
        r, overran, toUpdate := UpdatePiece(offset, align, data, pBuf, at, tmp, was, overran);
        if !r.Success? {
          return;
        }
        pBuf := pBuf + toUpdate;
        at := Add32(at, toUpdate);
      }
      UpdateEnds(was, offset, data, chip.Contents(), overran);
    }

    // One piece of an update, up to a sector long.
    method UpdatePiece(ghost offset: nat, align: nat, data: seq<bv8>, pBuf: nat, at: nat, tmp: array<bv8>,
                       ghost was: seq<bv8>, overran0: bool)
      returns (r: Status, overran: bool, toUpdate: nat)
      requires Ready() && at == offset + pBuf < 0x1_0000_0000 && pBuf < |data| && Aligned(pBuf) && align == offset % SECTOR
      requires tmp.Length == SECTOR && tmp != chip.cells && (align != 0 ==> Blank(tmp[..], align))
      requires Going(was, offset, data, pBuf, chip.Contents(), overran0) && |was| == chip.cells.Length
      modifies chip`wel, chip`busy, chip`log, chip.cells, tmp
      ensures Ready() && (r == Success(0) || r == DeviceError)
      ensures !r.Success? ==> UpdateOutcome(r, chip.Contents(), overran) == OutcomeOf(was, offset, data)
      ensures r.Success? ==>
                && 0 < toUpdate && pBuf + toUpdate <= |data| && (pBuf + toUpdate < |data| ==> Aligned(pBuf + toUpdate))
                && Add32(at, toUpdate) == at + toUpdate < 0x1_0000_0000
                && Going(was, offset, data, pBuf + toUpdate, chip.Contents(), overran)
                && (align != 0 && pBuf + toUpdate < |data| ==> Blank(tmp[..], align))
    {
      hide Ready, Spliced, Updated, Blank, Add32, OutcomeOf, Going;
      Sizes();
      toUpdate := if |data| - pBuf < SECTOR then |data| - pBuf else SECTOR;
      ghost var now, before := chip.Contents(), tmp[..];
      SameAlign(offset, pBuf);
      InsideOrNot(at, chip.cells.Length);
      var over;
      r, over := UpdateBlock(at, align, data[pBuf..pBuf + toUpdate], tmp);
      overran := overran0 || over;
      if !r.Success? {
        UpdateStops(was, offset, data, pBuf, now, overran0);
        return;
      }
      UpdateGoes(was, offset, data, pBuf, now, overran0, toUpdate, before, tmp[..], chip.Contents());
      NoWrap(at, toUpdate);
    }
  }

  // Update does what it is for, on all contents of the chip, exactly when the range is empty, or
  // inside the chip and starting on a sector or staying in one.
  lemma UpdateIsRightExactlyWhen(size: nat, offset: nat, data: seq<bv8>)
    requires size % SECTOR == 0
    ensures (forall was: seq<bv8> | |was| == size ::
               OutcomeOf(was, offset, data).status == Success(0) && Written(was, OutcomeOf(was, offset, data).contents, offset, data))
            <==> || data == []
                 || (offset + |data| <= size && (offset % SECTOR == 0 || offset % SECTOR + |data| <= SECTOR))
  {
    hide Updated, Spliced;
    if data == [] || (offset + |data| <= size && (offset % SECTOR == 0 || offset % SECTOR + |data| <= SECTOR)) {
      forall was: seq<bv8> | |was| == size
        ensures OutcomeOf(was, offset, data).status == Success(0) && Written(was, OutcomeOf(was, offset, data).contents, offset, data)
      {
        UpdatedIsSpliced(was, offset, data);
        SplicedIsWritten(was, Updated(was, offset, data), offset, data);
      }
    } else {
      var was: seq<bv8>;
      if offset + |data| <= size {
        was := UpdateDamages(size, offset, data);
      } else {
        was := seq(size, _ => ERASED);
      }
      assert |was| == size && !Written(was, OutcomeOf(was, offset, data).contents, offset, data);
    }
  }

  // One byte into a sector, a sector's worth of data: the byte in front is lost, the last byte of the
  // data is not written, the sector buffer has been overrun, and the call reports success.
  lemma UpdateAtOne(was: seq<bv8>, data: seq<bv8>)
    requires |was| % SECTOR == 0 && |was| > SECTOR && |data| == SECTOR
    ensures var o := OutcomeOf(was, 1, data);
            && o.status == Success(0) && o.overran && o.contents[0] == 0 && o.contents[SECTOR] == was[SECTOR]
            && forall i :: 0 <= i < SECTOR - 1 ==> o.contents[1 + i] == data[i]
  {
    var o := OutcomeOf(was, 1, data);
    assert o.contents[0] == UpdatedByte(was, 1, data, 0);
    assert o.contents[SECTOR] == UpdatedByte(was, 1, data, SECTOR);
    forall i | 0 <= i < SECTOR - 1 ensures o.contents[1 + i] == data[i] {
      var p := 1 + i;
      assert o.contents[p] == UpdatedByte(was, 1, data, p);
    }
  }

  // A call of the driver. Sectors stands for the sector-numbered entry points.
  datatype Call =
    | ReadCall(from: nat, len: nat)
    | ReadSectorsCall(sec: nat, nSec: nat)
    | ProgramCall(to: nat, data: seq<bv8>)
    | ProgramSectorsCall(sec: nat, nSec: nat, data: seq<bv8>)
    | EraseCall(addr: nat, kind: EraseType)
    | OverWriteCall(sec: nat, nSec: nat, data: seq<bv8>)
    | EraseSectorsCall(offset: nat, length: nat)
    | UpdateCall(offset: nat, data: seq<bv8>, memory: bool)
    | WriteStatusCall(regIndex: nat, status: bv8)

  // What a call gives back: its status, the bytes a successful read delivered, and whether an update
  // copied past the end of its buffer.
  datatype Reply = Reply(status: Status, bytes: seq<bv8>, overran: bool)

  predicate ValidCall(c: Call) {
    match c
    case ReadCall(from, len) => from < 0x1_0000_0000 && len < 0x1_0000_0000
    case ReadSectorsCall(sec, nSec) => sec < 0x1_0000_0000 && nSec < 0x1_0000_0000
    case ProgramCall(to, data) => to < 0x1_0000_0000 && |data| < 0x1_0000_0000
    case ProgramSectorsCall(sec, nSec, data) =>
      sec < 0x1_0000_0000 && nSec < 0x1_0000_0000 && |data| == Mul32(nSec, SECTOR)
    case EraseCall(_, _) => true
    case OverWriteCall(sec, nSec, data) => sec < 0x1_0000_0000 && nSec < 0x1_0000_0000 && |data| == nSec * SECTOR
    case EraseSectorsCall(offset, length) => offset < 0x1_0000_0000 && length < 0x1_0000_0000
    case UpdateCall(offset, data, _) => offset < 0x1_0000_0000 && |data| < 0x1_0000_0000
    case WriteStatusCall(regIndex, _) => regIndex < 2
  }

  // A range inside the array, as the driver takes one: not even an empty one may start at its end.
  predicate Inside(size: nat, from: nat, len: nat) {
    from < size && from + len <= size
  }

  // What the call makes of a plain byte array.
  ghost function Effect(was: seq<bv8>, c: Call): (now: seq<bv8>)
    ensures |now| == |was|
  {
    match c
    case ReadCall(_, _) => was
    case ReadSectorsCall(_, _) => was
    case ProgramCall(to, data) => if Inside(|was|, to, |data|) then Programmed(was, to, data) else was
    case ProgramSectorsCall(sec, _, data) =>
      if Inside(|was|, Mul32(sec, SECTOR), |data|) then Programmed(was, Mul32(sec, SECTOR), data) else was
    case EraseCall(addr, kind) => if addr < |was| then Erased(was, EraseStart(addr, kind), EraseEnd(addr, kind, |was|)) else was
    case OverWriteCall(sec, _, data) => Spliced(was, Mul32(sec, SECTOR), data)
    case EraseSectorsCall(offset, length) =>
      if offset % SECTOR == 0 && length % SECTOR == 0 then Erased(was, offset, offset + length) else was
    case UpdateCall(offset, data, memory) => if memory then Updated(was, offset, data) else was
    case WriteStatusCall(_, _) => was
  }

  // What it gives back, from a plain byte array.
  ghost function Answer(was: seq<bv8>, c: Call): (a: Reply)
  {
    match c
    case ReadCall(from, len) =>
      if Inside(|was|, from, len) then Reply(Success(len), was[from..from + len], false) else Reply(DeviceError, [], false)
    case ReadSectorsCall(sec, nSec) =>
      var from, len := Mul32(sec, SECTOR), Mul32(nSec, SECTOR);
      if Inside(|was|, from, len) then Reply(Success(nSec), was[from..from + len], false) else Reply(DeviceError, [], false)
    case ProgramCall(to, data) =>
      Reply(if Inside(|was|, to, |data|) then Success(|data|) else DeviceError, [], false)
    case ProgramSectorsCall(sec, nSec, data) =>
      Reply(if Inside(|was|, Mul32(sec, SECTOR), |data|) then Success(nSec) else DeviceError, [], false)
    case EraseCall(addr, _) => Reply(if addr < |was| then Success(0) else DeviceError, [], false)
    case OverWriteCall(sec, nSec, data) =>
      Reply(if nSec == 0 || Mul32(sec, SECTOR) + |data| <= |was| then Success(nSec) else DeviceError, [], false)
    case EraseSectorsCall(offset, length) =>
      var fits := offset % SECTOR == 0 && length % SECTOR == 0 && (length == 0 || offset + length <= |was|);
      Reply(if fits then Success(0) else DeviceError, [], false)
    case UpdateCall(offset, data, memory) =>
      if memory then Reply(OutcomeOf(was, offset, data).status, [], OutcomeOf(was, offset, data).overran)
      else Reply(OutOfResources, [], false)
    case WriteStatusCall(_, _) => Reply(Success(0), [], false)
  }

  ghost function Effects(was: seq<bv8>, calls: seq<Call>): (now: seq<bv8>)
    ensures |now| == |was|
    decreases |calls|
  {
    if calls == [] then was else Effects(Effect(was, calls[0]), calls[1..])
  }

  ghost function Answers(was: seq<bv8>, calls: seq<Call>): (replies: seq<Reply>)
    ensures |replies| == |calls|
    decreases |calls|
  {
    if calls == [] then [] else [Answer(was, calls[0])] + Answers(Effect(was, calls[0]), calls[1..])
  }

  // A splice that runs off the end keeps what fits.
  lemma SpliceClipped(s: seq<bv8>, at: nat, data: seq<bv8>)
    requires at + |data| > |s|
    ensures Spliced(s, at, data) == Spliced(s, at, data[..if at < |s| then |s| - at else 0])
  {
  }

  method Perform(nor: Nor, c: Call) returns (reply: Reply)
    requires nor.Ready() && ValidCall(c)
    modifies nor.chip, nor.chip.cells
    ensures nor.Ready() && nor.chip.Contents() == Effect(old(nor.chip.Contents()), c)
    ensures reply == Answer(old(nor.chip.Contents()), c)
  {
    hide Spliced, Erased, Programmed, Updated, Mul32;
    var r, overran := Success(0), false;
    var bytes: seq<bv8> := [];
    match c {
      case ReadCall(from, len) =>
        r, bytes := ReadInto(nor, from, len);
      case ReadSectorsCall(sec, nSec) =>
        r, bytes := ReadSectorsInto(nor, sec, nSec);
      case ProgramCall(to, data) =>
        r := nor.ProgData(to, data);
      case ProgramSectorsCall(sec, nSec, data) =>
        r := nor.Write(sec, nSec, data);
      case EraseCall(addr, kind) =>
        r := nor.Erase(addr, kind);
      case OverWriteCall(sec, nSec, data) =>
        if Mul32(sec, SECTOR) + |data| > nor.chip.cells.Length {
          SpliceClipped(nor.chip.Contents(), Mul32(sec, SECTOR), data);
        }
        r := nor.OverWrite(sec, nSec, data);
      case EraseSectorsCall(offset, length) =>
        r := nor.EraseSectors(offset, length);
      case UpdateCall(offset, data, memory) =>
        r, overran := nor.Update(offset, data, memory);
      case WriteStatusCall(regIndex, status) =>
        r := nor.WriteStatus(regIndex, status);
    }
    reply := Reply(r, bytes, overran);
  }

  // A read into a buffer of its length, and what is then in it.
  method ReadInto(nor: Nor, from: nat, len: nat) returns (r: Status, bytes: seq<bv8>)
    requires nor.Ready() && from < 0x1_0000_0000 && len < 0x1_0000_0000
    modifies nor.chip`log
    ensures nor.Ready()
    ensures var mem := old(nor.chip.Contents());
            if Inside(|mem|, from, len) then r == Success(len) && bytes == mem[from..from + len] else r == DeviceError && bytes == []
  {
    hide Spliced;
    var back := new bv8[len];
    ghost var was := back[..];
    r := nor.ReadData(from, back, 0, len);
    bytes := if r.Success? then back[..] else [];
    if r.Success? {
      Nor.FillsWhole(was, nor.chip.Contents()[from..from + len]);
    }
  }

  method ReadSectorsInto(nor: Nor, sec: nat, nSec: nat) returns (r: Status, bytes: seq<bv8>)
    requires nor.Ready() && sec < 0x1_0000_0000 && nSec < 0x1_0000_0000
    modifies nor.chip`log
    ensures nor.Ready()
    ensures var mem, from, len := old(nor.chip.Contents()), Mul32(sec, SECTOR), Mul32(nSec, SECTOR);
            if Inside(|mem|, from, len) then r == Success(nSec) && bytes == mem[from..from + len] else r == DeviceError && bytes == []
  {
    hide Spliced, Mul32;
    var back := new bv8[Mul32(nSec, SECTOR)];
    ghost var was := back[..];
    r := nor.Read(sec, nSec, back, 0);
    bytes := if r.Success? then back[..] else [];
    if r.Success? {
      ghost var from := Mul32(sec, SECTOR);
      Nor.FillsWhole(was, nor.chip.Contents()[from..from + Mul32(nSec, SECTOR)]);
    }
  }

  // Any sequence of driver calls: no command ever reaches the chip while it is busy, bar status
  // reads, or without the write latch where it needs one, and what every call leaves and gives back
  // is what it does to a plain byte array.
  method RunCalls(nor: Nor, calls: seq<Call>) returns (replies: seq<Reply>)
    requires nor.Ready() && forall c <- calls :: ValidCall(c)
    modifies nor.chip, nor.chip.cells
    ensures nor.Ready()
    ensures forall e <- nor.chip.log ::
              && (e.busy ==> e.op == ReadStatusOp)
              && (e.op == ProgramOp || e.op == EraseOp || e.op == WriteStatusOp ==> e.wel && !e.busy)
    ensures nor.chip.Contents() == Effects(old(nor.chip.Contents()), calls)
    ensures replies == Answers(old(nor.chip.Contents()), calls)
  {
    hide Effect, Answer, ValidCall;
    var rest := calls;
    replies := [];
    while rest != []
      invariant nor.Ready() && forall c <- rest :: ValidCall(c)
      invariant Effects(nor.chip.Contents(), rest) == Effects(old(nor.chip.Contents()), calls)
      invariant replies + Answers(nor.chip.Contents(), rest) == Answers(old(nor.chip.Contents()), calls)
      decreases |rest|
    {
      ghost var was := nor.chip.Contents();
      var reply := Perform(nor, rest[0]);
      assert replies + Answers(was, rest) == replies + [reply] + Answers(nor.chip.Contents(), rest[1..]);
      replies := replies + [reply];
      rest := rest[1..];
    }
  }
}
