// What each call of the SPI-NOR driver and each page program of the chip make of a single byte.
module NorBytes {
  import opened NorFlash
  import opened NorDevice
  import opened NorDriver

  // Where a sector number stands for, in 32 bits.
  function AddressOf(sec: nat): (at: nat) {
    sec * 4096 % 0x1_0000_0000
  }

  // The data overwrites the byte at p, if it reaches it.
  function Over(b: bv8, at: nat, data: seq<bv8>, p: nat): (r: bv8) {
    if at <= p < at + |data| then data[p - at] else b
  }

  function Under(b: bv8, at: nat, data: seq<bv8>, size: nat, p: nat): (r: bv8) {
    if at < size && at + |data| <= size && at <= p < at + |data| then b & data[p - at] else b
  }

  predicate SameUnit(addr: nat, kind: EraseType, p: nat) {
    match kind
    case EraseSector => p / 4096 == addr / 4096
    case EraseBlock64K => p / 65536 == addr / 65536
    case EraseChip => true
  }

  // The byte at p after a call, for updates that start on a sector or stay in one.
  ghost function ByteAfter(was: seq<bv8>, c: Call, p: nat): (b: bv8)
    requires p < |was|
  {
    match c
    case ProgramCall(to, data) => Under(was[p], to, data, |was|, p)
    case ProgramSectorsCall(sec, _, data) => Under(was[p], AddressOf(sec), data, |was|, p)
    case EraseCall(addr, kind) => if addr < |was| && SameUnit(addr, kind, p) then 255 else was[p]
    case OverWriteCall(sec, _, data) => Over(was[p], AddressOf(sec), data, p)
    case EraseSectorsCall(offset, length) =>
      if offset % 4096 == 0 && length % 4096 == 0 && offset <= p < offset + length then 255 else was[p]
    case UpdateCall(offset, data, memory) => if memory then Over(was[p], offset, data, p) else was[p]
    case _ => was[p]
  }

  predicate IsPlain(c: Call) {
    c.UpdateCall? && c.memory ==> c.offset % 4096 == 0 || c.offset % 4096 + |c.data| <= 4096
  }

  lemma SameUnitIs(size: nat, addr: nat, kind: EraseType, p: nat)
    requires p < size && addr < size
    ensures EraseStart(addr, kind) <= p < EraseEnd(addr, kind, size) <==> SameUnit(addr, kind, p)
  {
    match kind
    case EraseSector => SameQuotient(addr, p, 4096);
    case EraseBlock64K => SameQuotient(addr, p, 65536);
    case EraseChip =>
  }

  lemma SameQuotient(a: nat, p: nat, n: nat)
    requires n == 4096 || n == 65536
    ensures a - a % n <= p < a - a % n + n <==> p / n == a / n
  {
  }

  lemma ProgrammedByte(s: seq<bv8>, at: nat, data: seq<bv8>, p: nat)
    requires p < |s|
    ensures at + |data| <= |s| && at < |s| ==> Programmed(s, at, data)[p] == Under(s[p], at, data, |s|, p)
  {
  }

  lemma ErasedByte(s: seq<bv8>, lo: nat, hi: nat, p: nat)
    requires p < |s|
    ensures Erased(s, lo, hi)[p] == if lo <= p < hi then 255 else s[p]
  {
  }

  lemma SplicedByte(s: seq<bv8>, at: nat, data: seq<bv8>, p: nat)
    requires p < |s|
    ensures Spliced(s, at, data)[p] == Over(s[p], at, data, p)
  {
  }

  lemma AddressIs(sec: nat)
    ensures Mul32(sec, SECTOR) == AddressOf(sec)
  {
  }

  // Every call on every byte.
  lemma EffectOnByte(was: seq<bv8>, c: Call, p: nat)
    requires ValidCall(c) && IsPlain(c) && p < |was|
    ensures Effect(was, c)[p] == ByteAfter(was, c, p)
  {
    hide EraseStart, EraseEnd, SameUnit, Updated, Programmed, Erased, Spliced, Mul32, AddressOf;
    match c
    case ProgramCall(to, data) =>
      ProgrammedByte(was, to, data, p);
    case ProgramSectorsCall(sec, _, data) =>
      AddressIs(sec);
      ProgrammedByte(was, AddressOf(sec), data, p);
    case EraseCall(addr, kind) =>
      ErasedByte(was, EraseStart(addr, kind), EraseEnd(addr, kind, |was|), p);
      if addr < |was| {
        SameUnitIs(|was|, addr, kind, p);
      }
    case OverWriteCall(sec, _, data) =>
      AddressIs(sec);
      SplicedByte(was, AddressOf(sec), data, p);
    case EraseSectorsCall(offset, length) =>
      ErasedByte(was, offset, offset + length, p);
    case UpdateCall(offset, data, memory) =>
      SplicedByte(was, offset, data, p);
      if memory {
        UpdatedIsSpliced(was, offset, data);
      }
    case _ =>
  }

  // One page program of the chip: the bytes wrap inside the page of 256 that they start in.
  lemma PageByte(s: seq<bv8>, at: nat, data: seq<bv8>, k: nat)
    requires k < |data| <= 256 && at / 256 * 256 + 256 <= |s|
    ensures var t := at / 256 * 256 + (at + k) % 256; PageProgrammed(s, at, data)[t] == s[t] & data[k]
  {
    PagePlace(at, k);
  }

  lemma PagePlace(at: nat, k: nat)
    requires k < 256
    ensures var t := at / 256 * 256 + (at + k) % 256; t / 256 == at / 256 && (t - at) % 256 == k
  {
    var q, r := at / 256, at % 256;
    assert (at + k) % 256 == if r + k < 256 then r + k else r + k - 256;
  }

  lemma OtherPages(s: seq<bv8>, at: nat, data: seq<bv8>, p: nat)
    requires p < |s| && p / 256 != at / 256
    ensures PageProgrammed(s, at, data)[p] == s[p]
  {
  }

  // The driver is at home with a chip that is idle, has only seen safe commands, and is never busy for
  // longer than the budgets: 10,000 polls after a program or a status write, and after an erase 0.4,
  // 2 and 40 million for a sector, a block and the chip.
  lemma ReadyExactlyWhen(nor: Nor)
    ensures nor.Ready() <==>
            && nor.chip.Valid() && nor.chip.busy == 0
            && nor.chip.programTime < 10_000 && nor.chip.statusTime < 10_000
            && nor.chip.eraseTime(EraseSector) < 400_000 && nor.chip.eraseTime(EraseBlock64K) < 2_000_000
            && nor.chip.eraseTime(EraseChip) < 40_000_000
            && forall e <- nor.chip.log ::
                 && (e.busy ==> e.op == ReadStatusOp)
                 && (e.op == ProgramOp || e.op == EraseOp || e.op == WriteStatusOp ==> e.wel && !e.busy)
  {
  }
}
