// A serial NOR flash as a plain byte array: what programming, erasing and overwriting mean, and
// the laws the driver's page and sector splitting relies on.
module NorFlash {
  const PAGE := 256
  const SECTOR := 4096
  const BLOCK := 65536
  const ERASED: bv8 := 0xFF

  // Programming can only clear bits.
  function Programmed(s: seq<bv8>, at: nat, data: seq<bv8>): (r: seq<bv8>)
    ensures |r| == |s|
  {
    seq(|s|, i requires 0 <= i < |s| => if at <= i < at + |data| then s[i] & data[i - at] else s[i])
  }

  // What the chip does: bytes that run past the end of a page wrap round to its start.
  function PageProgrammed(s: seq<bv8>, at: nat, data: seq<bv8>): (r: seq<bv8>)
    ensures |r| == |s|
  {
    seq(|s|, i requires 0 <= i < |s| =>
      if i / PAGE == at / PAGE && (i - at) % PAGE < |data| then s[i] & data[(i - at) % PAGE] else s[i])
  }

  function Erased(s: seq<bv8>, lo: nat, hi: nat): (r: seq<bv8>)
    ensures |r| == |s|
  {
    seq(|s|, i requires 0 <= i < |s| => if lo <= i < hi then ERASED else s[i])
  }

  function Spliced(s: seq<bv8>, at: nat, data: seq<bv8>): (r: seq<bv8>)
    ensures |r| == |s|
  {
    seq(|s|, i requires 0 <= i < |s| => if at <= i < at + |data| then data[i - at] else s[i])
  }

  datatype EraseType = EraseSector | EraseBlock64K | EraseChip

  // The aligned range that an erase command takes with the addressed byte.
  function EraseStart(at: nat, kind: EraseType): (r: nat) {
    match kind
    case EraseSector => at - at % SECTOR
    case EraseBlock64K => at - at % BLOCK
    case EraseChip => 0
  }

  function EraseEnd(at: nat, kind: EraseType, size: nat): (r: nat)
  {
    match kind
    case EraseSector => at - at % SECTOR + SECTOR
    case EraseBlock64K => at - at % BLOCK + BLOCK
    case EraseChip => size
  }

  // What an erase takes lies inside a chip of whole blocks.
  lemma EraseFits(at: nat, kind: EraseType, size: nat)
    requires at < size && size % BLOCK == 0
    ensures EraseStart(at, kind) <= EraseEnd(at, kind, size) <= size
  {
    var b, p, q := size / BLOCK, at / BLOCK, at / SECTOR;
    assert size == b * BLOCK == 16 * b * SECTOR;
    assert at == p * BLOCK + at % BLOCK && at == q * SECTOR + at % SECTOR;
    assert p + 1 <= b && q + 1 <= 16 * b;
  }

  lemma PageProgramStaysInside(s: seq<bv8>, at: nat, data: seq<bv8>)
    requires at % PAGE + |data| <= PAGE
    ensures PageProgrammed(s, at, data) == Programmed(s, at, data)
  {
    forall i | 0 <= i < |s|
      ensures PageProgrammed(s, at, data)[i] == Programmed(s, at, data)[i]
    {
      if i / PAGE == at / PAGE && i >= at {
        assert (i - at) % PAGE == i - at;
      } else if i / PAGE == at / PAGE {
        assert (i - at) % PAGE == PAGE - (at - i);
      }
    }
  }

  lemma NothingDone(s: seq<bv8>, at: nat)
    ensures Programmed(s, at, []) == s && Spliced(s, at, []) == s && Erased(s, at, at) == s
  {
  }

  lemma EraseMore(s: seq<bv8>, lo: nat, mid: nat, hi: nat)
    requires lo <= mid <= hi
    ensures Erased(Erased(s, lo, mid), mid, hi) == Erased(s, lo, hi)
  {
  }

  lemma EraseBeyond(s: seq<bv8>, lo: nat, mid: nat, hi: nat)
    requires |s| <= mid <= hi
    ensures Erased(s, lo, mid) == Erased(s, lo, hi)
  {
  }

  // Any split of a program is the one program.
  lemma ProgramSplit(s: seq<bv8>, at: nat, a: seq<bv8>, b: seq<bv8>)
    ensures Programmed(Programmed(s, at, a), at + |a|, b) == Programmed(s, at, a + b)
  {
  }

  lemma SpliceSplit(s: seq<bv8>, at: nat, a: seq<bv8>, b: seq<bv8>)
    ensures Spliced(Spliced(s, at, a), at + |a|, b) == Spliced(s, at, a + b)
  {
  }

  // One more page program of a longer run: the pieces add up to the one unbounded program.
  lemma ProgramMore(s: seq<bv8>, at: nat, data: seq<bv8>, done: nat, size: nat)
    requires done + size <= |data| && (at + done) % PAGE + size <= PAGE
    ensures PageProgrammed(Programmed(s, at, data[..done]), at + done, data[done..done + size])
            == Programmed(s, at, data[..done + size])
  {
    PageProgramStaysInside(Programmed(s, at, data[..done]), at + done, data[done..done + size]);
    ProgramSplit(s, at, data[..done], data[done..done + size]);
    assert data[..done] + data[done..done + size] == data[..done + size];
  }

  lemma SpliceMore(s: seq<bv8>, at: nat, data: seq<bv8>, lo: nat, mid: nat, hi: nat)
    requires lo <= mid <= hi <= |data|
    ensures Spliced(Spliced(s, at, data[lo..mid]), at + mid - lo, data[mid..hi]) == Spliced(s, at, data[lo..hi])
  {
    SpliceSplit(s, at, data[lo..mid], data[mid..hi]);
    assert data[lo..mid] + data[mid..hi] == data[lo..hi];
  }

  // Erasing first makes programming a plain write.
  lemma ErasedThenProgrammed(s: seq<bv8>, lo: nat, hi: nat, at: nat, data: seq<bv8>)
    requires lo <= at && at + |data| <= hi
    ensures Programmed(Erased(s, lo, hi), at, data) == Spliced(Erased(s, lo, hi), at, data)
  {
    forall i | at <= i < at + |data| && i < |s|
      ensures Programmed(Erased(s, lo, hi), at, data)[i] == data[i - at]
    {
      assert ERASED & data[i - at] == data[i - at];
    }
  }

  // A sector that is rewritten whole need not have been erased, as far as its contents go.
  lemma SpliceHidesErase(s: seq<bv8>, at: nat, data: seq<bv8>)
    ensures Spliced(Erased(s, at, at + |data|), at, data) == Spliced(s, at, data)
  {
  }

  // A sector run written and then read back.
  lemma ReadBack(s: seq<bv8>, at: nat, data: seq<bv8>)
    requires at + |data| <= |s|
    ensures Spliced(s, at, data)[at..at + |data|] == data
  {
  }

  // Erasing a whole range and programming all of it is writing it.
  lemma Rewritten(s: seq<bv8>, lo: nat, data: seq<bv8>)
    ensures Programmed(Erased(s, lo, lo + |data|), lo, data) == Spliced(s, lo, data)
  {
    ErasedThenProgrammed(s, lo, lo + |data|, lo, data);
    SpliceHidesErase(s, lo, data);
  }

  // The head of a sector is new and its tail is programmed back from the backup.
  lemma RewrittenHead(s: seq<bv8>, lo: nat, data: seq<bv8>, tail: seq<bv8>)
    requires lo + |data| + |tail| <= |s| && tail == s[lo + |data|..lo + |data| + |tail|]
    ensures Programmed(Programmed(Erased(s, lo, lo + |data| + |tail|), lo, data), lo + |data|, tail) == Spliced(s, lo, data)
  {
    var n := |data| + |tail|;
    ProgramSplit(Erased(s, lo, lo + n), lo, data, tail);
    assert |data + tail| == n;
    Rewritten(s, lo, data + tail);
    SpliceSplit(s, lo, data, tail);
  }

  // ---- Updates ----

  // The whole of the data is in the flash and every other byte is as it was.
  ghost predicate Written(was: seq<bv8>, now: seq<bv8>, at: nat, data: seq<bv8>) {
    && |now| == |was|
    && (data == [] || at + |data| <= |now|)
    && (forall i :: 0 <= i < |data| ==> now[at + i] == data[i])
    && (forall p :: 0 <= p < |was| && !(at <= p < at + |data|) ==> now[p] == was[p])
  }

  // What an update leaves of a byte. It takes a sector's length of data at a time and writes back one
  // sector for each: from the start of the data on the bytes of that sector are new, and those in
  // front are zero where the data fills the length, else as they were.
  function UpdatedByte(s: seq<bv8>, at: nat, data: seq<bv8>, p: nat): (b: bv8)
    requires p < |s|
  {
    var align := at % SECTOR;
    if p + align < at then s[p]
    else
      var u := p + align - at;
      if u % SECTOR < align then if (u / SECTOR + 1) * SECTOR <= |data| then 0 else s[p]
      else if p - at < |data| then data[p - at]
      else s[p]
  }

  function Updated(s: seq<bv8>, at: nat, data: seq<bv8>): (r: seq<bv8>)
    ensures |r| == |s|
  {
    seq(|s|, p requires 0 <= p < |s| => UpdatedByte(s, at, data, p))
  }

  // A range that starts on a sector, or stays in one, is just written.
  lemma UpdatedIsSpliced(s: seq<bv8>, at: nat, data: seq<bv8>)
    requires at % SECTOR == 0 || at % SECTOR + |data| <= SECTOR
    ensures Updated(s, at, data) == Spliced(s, at, data)
  {
    forall p | 0 <= p < |s| ensures UpdatedByte(s, at, data, p) == Spliced(s, at, data)[p] {
    }
  }

  // Where a byte of the sector of the next piece of data lies.
  lemma InSector(at: nat, done: nat, p: nat)
    requires done % SECTOR == 0
    ensures var start := at - at % SECTOR + done;
            && (start <= p < start + SECTOR ==>
                  var u := p + at % SECTOR - at; u / SECTOR * SECTOR == done && u % SECTOR == p - start)
            && (p + at % SECTOR >= at && !(start <= p < start + SECTOR) ==>
                  (p + at % SECTOR - at) / SECTOR * SECTOR != done)
  {
    if p + at % SECTOR >= at {
      var u := p + at % SECTOR - at;
      assert u == u / SECTOR * SECTOR + u % SECTOR;
    }
  }

  // One more piece of an update: its sector, as it is written back.
  lemma UpdateMore(s: seq<bv8>, at: nat, data: seq<bv8>, done: nat, n: nat, image: seq<bv8>)
    requires done % SECTOR == 0 && done + n <= |data| && 1 <= n <= SECTOR && |image| == SECTOR
    requires forall i :: 0 <= i < SECTOR && at - at % SECTOR + done + i < |s| ==>
               image[i] == if i < at % SECTOR then if n == SECTOR then 0 else s[at - at % SECTOR + done + i]
                           else if i < at % SECTOR + n then data[done + i - at % SECTOR]
                           else s[at - at % SECTOR + done + i]
    ensures Spliced(Updated(s, at, data[..done]), at - at % SECTOR + done, image) == Updated(s, at, data[..done + n])
  {
    var start := at - at % SECTOR + done;
    forall p | 0 <= p < |s|
      ensures Spliced(Updated(s, at, data[..done]), start, image)[p] == UpdatedByte(s, at, data[..done + n], p)
    {
      InSector(at, done, p);
      if !(start <= p < start + SECTOR) && p + at % SECTOR >= at {
        OtherSector(at, done, n, p);
      }
    }
  }

  // A byte of another sector is decided by the data before this piece as by the data with it.
  lemma OtherSector(at: nat, done: nat, n: nat, p: nat)
    requires done % SECTOR == 0 && 1 <= n <= SECTOR && p + at % SECTOR >= at
    requires (p + at % SECTOR - at) / SECTOR * SECTOR != done
    ensures var u := p + at % SECTOR - at;
            && ((u / SECTOR + 1) * SECTOR <= done <==> (u / SECTOR + 1) * SECTOR <= done + n)
            && (u % SECTOR >= at % SECTOR ==> (p - at < done <==> p - at < done + n))
  {
    var u := p + at % SECTOR - at;
    var q, k := u / SECTOR, done / SECTOR;
    assert u == q * SECTOR + u % SECTOR && done == k * SECTOR;
    if q < k {
      assert q + 1 <= k;
    } else {
      assert q >= k + 1;
    }
  }

  // The sector of the next piece and those behind it are still as they were.
  lemma NotYet(s: seq<bv8>, at: nat, data: seq<bv8>, done: nat, p: nat)
    requires done % SECTOR == 0 && done <= |data| && at - at % SECTOR + done <= p < |s|
    ensures UpdatedByte(s, at, data[..done], p) == s[p]
  {
    var u := p + at % SECTOR - at;
    var q, k := u / SECTOR, done / SECTOR;
    assert u == q * SECTOR + u % SECTOR && done == k * SECTOR;
    assert q >= k;
  }

  lemma SectorNotYet(s: seq<bv8>, at: nat, data: seq<bv8>, done: nat)
    requires done % SECTOR == 0 && done <= |data| && at - at % SECTOR + done + SECTOR <= |s|
    ensures var start := at - at % SECTOR + done;
            Updated(s, at, data[..done])[start..start + SECTOR] == s[start..start + SECTOR]
  {
    hide UpdatedByte;
    var start := at - at % SECTOR + done;
    forall p | start <= p < start + SECTOR
      ensures Updated(s, at, data[..done])[p] == s[p]
    {
      NotYet(s, at, data, done, p);
    }
  }

  // The front of the sector buffer as it was allocated.
  predicate Blank(s: seq<bv8>, n: nat) {
    n <= |s| && forall i :: 0 <= i < n ==> s[i] == 0
  }

  // One more piece of an update that starts inside a sector: the sector buffer holds zeros in front
  // of the data until a short piece has the old sector read into it.
  lemma UpdateNext(s: seq<bv8>, at: nat, data: seq<bv8>, done: nat, n: nat, before: seq<bv8>, image: seq<bv8>)
    requires done % SECTOR == 0 && done + n <= |data| && 1 <= n <= SECTOR
    requires at - at % SECTOR + done + SECTOR <= |s|
    requires |before| == SECTOR && Blank(before, at % SECTOR)
    requires var start := at - at % SECTOR + done;
             image == Spliced(if n == SECTOR then before else Updated(s, at, data[..done])[start..start + SECTOR],
                              at % SECTOR, data[done..done + n])
    ensures Spliced(Updated(s, at, data[..done]), at - at % SECTOR + done, image) == Updated(s, at, data[..done + n])
  {
    hide Updated;
    SectorNotYet(s, at, data, done);
    UpdateMore(s, at, data, done, n, image);
  }

  // One more piece of an update that starts on a sector.
  lemma UpdateAligned(s: seq<bv8>, at: nat, data: seq<bv8>, done: nat, n: nat)
    requires at % SECTOR == 0 && done + n <= |data|
    ensures Spliced(Updated(s, at, data[..done]), at + done, data[done..done + n]) == Updated(s, at, data[..done + n])
  {
    hide Updated, Spliced;
    UpdatedIsSpliced(s, at, data[..done]);
    UpdatedIsSpliced(s, at, data[..done + n]);
    SpliceMore(s, at, data, 0, done, done + n);
    assert data[0..done] == data[..done] && data[0..done + n] == data[..done + n];
  }

  lemma FrontStays(before: seq<bv8>, at: nat, data: seq<bv8>)
    requires Blank(before, at)
    ensures Blank(Spliced(before, at, data), at)
  {
  }

  // Data that would go past the end of the flash changes nothing.
  lemma UpdateBeyond(s: seq<bv8>, at: nat, data: seq<bv8>, done: nat)
    requires |s| % SECTOR == 0 && done % SECTOR == 0 && done <= |data| && |s| <= at + done
    ensures Updated(s, at, data[..done]) == Updated(s, at, data)
  {
    forall p | 0 <= p < |s| ensures UpdatedByte(s, at, data[..done], p) == UpdatedByte(s, at, data, p) {
      if p + at % SECTOR >= at {
        BelowStart(|s|, at, done);
        var u := p + at % SECTOR - at;
        assert u < done;
        FullSector(u, done);
      }
    }
  }

  lemma BelowStart(size: nat, at: nat, done: nat)
    requires size % SECTOR == 0 && done % SECTOR == 0 && size <= at + done
    ensures size <= at - at % SECTOR + done
  {
    var i, j, k := size / SECTOR, at / SECTOR, done / SECTOR;
    assert size == i * SECTOR && at - at % SECTOR == j * SECTOR && done == k * SECTOR;
  }

  lemma FullSector(u: nat, done: nat)
    requires done % SECTOR == 0 && u < done
    ensures (u / SECTOR + 1) * SECTOR <= done
  {
    var q, k := u / SECTOR, done / SECTOR;
    assert u == q * SECTOR + u % SECTOR && done == k * SECTOR;
    assert q < k;
  }

  // That is what overwriting comes to, and nothing else is.
  lemma SplicedIsWritten(s: seq<bv8>, now: seq<bv8>, at: nat, data: seq<bv8>)
    ensures Written(s, now, at, data) <==> (data == [] || at + |data| <= |s|) && now == Spliced(s, at, data)
  {
    if Written(s, now, at, data) {
      forall p | 0 <= p < |s| ensures now[p] == Spliced(s, at, data)[p] {
        assert at <= p < at + |data| ==> now[at + (p - at)] == data[p - at];
      }
    }
  }

  // Data that starts inside a sector and runs past its end: some contents are always damaged, a byte
  // in front of the data or the byte at the sector's end.
  lemma UpdateDamages(size: nat, at: nat, data: seq<bv8>) returns (was: seq<bv8>)
    requires at % SECTOR != 0 && at % SECTOR + |data| > SECTOR && at + |data| <= size
    ensures |was| == size && !Written(was, Updated(was, at, data), at, data)
  {
    var start := at - at % SECTOR;
    if |data| >= SECTOR {
      was := seq(size, _ => ERASED);
      var now := Updated(was, at, data);
      assert now[start] == UpdatedByte(was, at, data, start) == 0;
      assert now[start] != was[start];
    } else {
      var j, p := SECTOR - at % SECTOR, start + SECTOR;
      was := seq(size, _ => if data[j] == 0 then ERASED else 0);
      var now := Updated(was, at, data);
      InSector(at, SECTOR, p);
      assert now[p] == UpdatedByte(was, at, data, p) == was[p];
      assert p == at + j && now[at + j] != data[j];
    }
  }
}
