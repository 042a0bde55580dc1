// What a Blt() call promises, on pictures: EFI_GRAPHICS_OUTPUT_PROTOCOL.Blt(), section 12.9 of the
// UEFI Specification. The buffer of the call is a run of bytes whose rows are a stride apart.
module BltSpec {
  import opened Images
  import opened Sequences

  datatype Operation = VideoFill | VideoToBltBuffer | BufferToVideo | VideoToVideo | OtherOperation

  // Delta is in bytes, the rest in pixels.
  datatype Request = Request(op: Operation, sourceX: nat, sourceY: nat, destinationX: nat, destinationY: nat,
                             width: nat, height: nat, delta: nat)

  datatype Status = Success | InvalidParameter

  const BYTES_PER_PIXEL := 4

  predicate NeedsBuffer(op: Operation) {
    op == VideoFill || op == BufferToVideo || op == VideoToBltBuffer
  }

  predicate ReadsVideo(op: Operation) {
    op == VideoToBltBuffer || op == VideoToVideo
  }

  predicate WritesVideo(op: Operation) {
    op == VideoFill || op == BufferToVideo || op == VideoToVideo
  }

  // LcdGraphicsBltCheckParameters
  function CheckParameters(horizontal: nat, vertical: nat, hasBuffer: bool, q: Request): (s: Status)
    ensures s == Success <==>
              && 0 < q.width && 0 < q.height && (NeedsBuffer(q.op) ==> hasBuffer)
              && (ReadsVideo(q.op) ==> q.sourceX + q.width <= horizontal && q.sourceY + q.height <= vertical)
              && (WritesVideo(q.op) ==> q.destinationX + q.width <= horizontal && q.destinationY + q.height <= vertical)
  {
    if q.width == 0 || q.height == 0 then InvalidParameter
    else if !hasBuffer && NeedsBuffer(q.op) then InvalidParameter
    else if ReadsVideo(q.op) && (q.sourceY + q.height > vertical || q.sourceX + q.width > horizontal) then InvalidParameter
    else if WritesVideo(q.op) && (q.destinationY + q.height > vertical || q.destinationX + q.width > horizontal) then InvalidParameter
    else Success
  }

  // How far apart the rows of the buffer are, in bytes.
  function Stride(q: Request): (n: nat) {
    if q.delta == 0 then q.width * BYTES_PER_PIXEL else q.delta
  }

  function RowAt(stride: nat, x: nat, y: nat): (at: nat) {
    y * stride + x * BYTES_PER_PIXEL
  }

  // The caller's buffer is big enough for the rows [y, y + h) of w pixels from x on.
  ghost predicate HoldsRows(length: nat, stride: nat, x: nat, y: nat, w: nat, h: nat) {
    forall r: nat :: y <= r < y + h ==> RowAt(stride, x, r) + BYTES_PER_PIXEL * w <= length
  }

  // ---- Pixels as bytes ----

  function Component(p: Pixel, i: nat): (b: bv8) {
    if i == 0 then p.blue else if i == 1 then p.green else if i == 2 then p.red else p.reserved
  }

  function RowBytes(row: seq<Pixel>): (b: seq<bv8>)
    ensures |b| == BYTES_PER_PIXEL * |row|
  {
    seq(BYTES_PER_PIXEL * |row|, i requires 0 <= i < BYTES_PER_PIXEL * |row| =>
      Component(row[i / BYTES_PER_PIXEL], i % BYTES_PER_PIXEL))
  }

  function RowPixels(b: seq<bv8>, n: nat): (row: seq<Pixel>)
    requires |b| == BYTES_PER_PIXEL * n
    ensures |row| == n
  {
    seq(n, k requires 0 <= k < n => Pixel(b[4 * k], b[4 * k + 1], b[4 * k + 2], b[4 * k + 3]))
  }

  lemma ByteAt(row: seq<Pixel>, k: nat, i: nat)
    requires k < |row| && i < BYTES_PER_PIXEL
    ensures RowBytes(row)[4 * k + i] == Component(row[k], i)
  {
    assert (4 * k + i) / 4 == k && (4 * k + i) % 4 == i;
  }

  lemma PixelsOfBytes(row: seq<Pixel>)
    ensures RowPixels(RowBytes(row), |row|) == row
  {
    hide RowBytes;
    var pixels := RowPixels(RowBytes(row), |row|);
    forall k | 0 <= k < |row| ensures pixels[k] == row[k] {
      ByteAt(row, k, 0);
      ByteAt(row, k, 1);
      ByteAt(row, k, 2);
      ByteAt(row, k, 3);
    }
  }

  // One more pixel behind those of a row.
  lemma RowBytesMore(row: seq<Pixel>, k: nat)
    requires k < |row|
    ensures RowBytes(row[..k + 1]) == RowBytes(row[..k]) + RowBytes([row[k]])
  {
    var a, b := RowBytes(row[..k + 1]), RowBytes(row[..k]) + RowBytes([row[k]]);
    forall i | 0 <= i < 4 * k + 4 ensures a[i] == b[i] {
      if i >= 4 * k {
        ByteAt(row[..k + 1], k, i - 4 * k);
        ByteAt([row[k]], 0, i - 4 * k);
      }
    }
  }

  // The tile a buffer holds.
  function Load(buf: seq<bv8>, stride: nat, x: nat, y: nat, w: nat, h: nat): (tile: Image)
    requires HoldsRows(|buf|, stride, x, y, w, h)
    ensures IsImage(tile, w, h)
  {
    seq(h, j requires 0 <= j < h =>
      seq(w, k requires 0 <= k < w =>
        var at := RowAt(stride, x, y + j) + BYTES_PER_PIXEL * k;
        Pixel(buf[at], buf[at + 1], buf[at + 2], buf[at + 3])))
  }

  // A tile written to a buffer row by row, a later row on top of an earlier one where they overlap.
  function Store(buf: seq<bv8>, stride: nat, x: nat, y: nat, tile: Image, w: nat): (r: seq<bv8>)
    requires IsImage(tile, w, |tile|) && HoldsRows(|buf|, stride, x, y, w, |tile|)
    ensures |r| == |buf|
    decreases |tile|
  {
    if tile == [] then buf
    else
      var n := |tile| - 1;
      Splice(Store(buf, stride, x, y, tile[..n], w), RowAt(stride, x, y + n), RowBytes(tile[n]))
  }

  lemma StoreRow(buf: seq<bv8>, stride: nat, x: nat, y: nat, tile: Image, w: nat, k: nat)
    requires IsImage(tile, w, |tile|) && HoldsRows(|buf|, stride, x, y, w, |tile|) && k < |tile|
    ensures Store(buf, stride, x, y, tile[..k + 1], w)
            == Splice(Store(buf, stride, x, y, tile[..k], w), RowAt(stride, x, y + k), RowBytes(tile[k]))
  {
    hide RowAt, Splice, RowBytes;
    assert tile[..k + 1][..k] == tile[..k];
  }

  // A part of a sequence that lies in front of what is overwritten.
  lemma SplicedBehind<T>(s: seq<T>, at: nat, data: seq<T>, lo: nat, hi: nat)
    requires lo <= hi <= at && at + |data| <= |s|
    ensures Splice(s, at, data)[lo..hi] == s[lo..hi]
  {
  }

  lemma SplicedThere<T>(s: seq<T>, at: nat, data: seq<T>)
    requires at + |data| <= |s|
    ensures Splice(s, at, data)[at..at + |data|] == data
  {
  }

  lemma RowsApart(stride: nat, x: nat, j: nat, n: nat, w: nat)
    requires j < n && BYTES_PER_PIXEL * w <= stride
    ensures RowAt(stride, x, j) + BYTES_PER_PIXEL * w <= RowAt(stride, x, n)
  {
    MulStep(j, n, stride);
  }

  // Rows that do not overlap stay as they were put.
  lemma {:induction false} StoredRowStays(buf: seq<bv8>, stride: nat, x: nat, y: nat, tile: Image, w: nat, j: nat)
    requires IsImage(tile, w, |tile|) && HoldsRows(|buf|, stride, x, y, w, |tile|) && j < |tile|
    requires BYTES_PER_PIXEL * w <= stride || |tile| == 1
    ensures var at := RowAt(stride, x, y + j);
            Store(buf, stride, x, y, tile, w)[at..at + BYTES_PER_PIXEL * w] == RowBytes(tile[j])
    decreases |tile|
  {
    hide RowAt, Splice, RowBytes;
    var n := |tile| - 1;
    var before := Store(buf, stride, x, y, tile[..n], w);
    var at, last := RowAt(stride, x, y + j), RowAt(stride, x, y + n);
    if j < n {
      StoredRowStays(buf, stride, x, y, tile[..n], w, j);
      RowsApart(stride, x, y + j, y + n, w);
      SplicedBehind(before, last, RowBytes(tile[n]), at, at + BYTES_PER_PIXEL * w);
    } else {
      SplicedThere(before, last, RowBytes(tile[n]));
    }
  }

  lemma LoadedRow(buf: seq<bv8>, stride: nat, x: nat, y: nat, w: nat, h: nat, j: nat)
    requires HoldsRows(|buf|, stride, x, y, w, h) && j < h
    ensures var at := RowAt(stride, x, y + j);
            at + BYTES_PER_PIXEL * w <= |buf| && Load(buf, stride, x, y, w, h)[j] == RowPixels(buf[at..at + BYTES_PER_PIXEL * w], w)
  {
    hide RowAt;
    var at := RowAt(stride, x, y + j);
    var a, b := Load(buf, stride, x, y, w, h)[j], RowPixels(buf[at..at + BYTES_PER_PIXEL * w], w);
    forall k | 0 <= k < w ensures a[k] == b[k] {
    }
  }

  // Video to buffer and back: with rows that do not overlap, the tile comes back whole.
  lemma LoadStored(buf: seq<bv8>, stride: nat, x: nat, y: nat, tile: Image, w: nat)
    requires IsImage(tile, w, |tile|) && HoldsRows(|buf|, stride, x, y, w, |tile|)
    requires BYTES_PER_PIXEL * w <= stride || |tile| <= 1
    ensures Load(Store(buf, stride, x, y, tile, w), stride, x, y, w, |tile|) == tile
  {
    hide RowAt, Store, Load, HoldsRows, RowBytes, RowPixels;
    var stored := Store(buf, stride, x, y, tile, w);
    var loaded := Load(stored, stride, x, y, w, |tile|);
    forall j | 0 <= j < |tile| ensures loaded[j] == tile[j] {
      LoadedRow(stored, stride, x, y, w, |tile|, j);
      StoredRowStays(buf, stride, x, y, tile, w, j);
      PixelsOfBytes(tile[j]);
    }
  }

  const BLACK := Pixel(0, 0, 0, 0)
  const WHITE := Pixel(255, 255, 255, 255)

  // With rows closer than their width some picture is always lost: the bound on Delta is exact.
  lemma OverlappingRowsLose(buf: seq<bv8>, stride: nat, x: nat, y: nat, w: nat, h: nat) returns (tile: Image)
    requires HoldsRows(|buf|, stride, x, y, w, h) && stride < BYTES_PER_PIXEL * w && 2 <= h
    ensures IsImage(tile, w, h)
    ensures Load(Store(buf, stride, x, y, tile, w), stride, x, y, w, h) != tile
  {
    hide RowAt, Splice, RowBytes, RowPixels, Store, Load;
    tile := seq(h, j => seq(w, _ => if j == h - 1 then WHITE else BLACK));
    var r := Store(buf, stride, x, y, tile, w);
    var at, last := RowAt(stride, x, y + h - 2), RowAt(stride, x, y + h - 1);
    OneRowOn(stride, x, y + h - 2);
    LastRowThere(buf, stride, x, y, tile, w);
    assert r[last] == r[last..last + BYTES_PER_PIXEL * w][0] == RowBytes(tile[h - 1])[0];
    ByteAt(tile[h - 1], 0, 0);
    LoadedRow(r, stride, x, y, w, h, h - 2);
    var row := r[at..at + BYTES_PER_PIXEL * w];
    assert row[stride] == r[at + stride];
    if Load(r, stride, x, y, w, h) == tile {
      BlackBytes(row, w, stride);
    }
  }

  lemma OneRowOn(stride: nat, x: nat, y: nat)
    ensures RowAt(stride, x, y + 1) == RowAt(stride, x, y) + stride
  {
  }

  lemma LastRowThere(buf: seq<bv8>, stride: nat, x: nat, y: nat, tile: Image, w: nat)
    requires IsImage(tile, w, |tile|) && HoldsRows(|buf|, stride, x, y, w, |tile|) && tile != []
    ensures var at := RowAt(stride, x, y + |tile| - 1);
            at + BYTES_PER_PIXEL * w <= |buf|
            && Store(buf, stride, x, y, tile, w)[at..at + BYTES_PER_PIXEL * w] == RowBytes(tile[|tile| - 1])
  {
    hide RowAt, Splice, RowBytes, Store;
    var n := |tile| - 1;
    StoreRow(buf, stride, x, y, tile, w, n);
    assert tile[..n + 1] == tile;
    SplicedThere(Store(buf, stride, x, y, tile[..n], w), RowAt(stride, x, y + n), RowBytes(tile[n]));
  }

  // Bytes that read as black pixels are zero.
  lemma BlackBytes(b: seq<bv8>, n: nat, i: nat)
    requires |b| == BYTES_PER_PIXEL * n && i < |b| && RowPixels(b, n) == seq(n, _ => BLACK)
    ensures b[i] == 0
  {
    var k := i / 4;
    assert RowPixels(b, n)[k] == BLACK;
    assert i == 4 * k || i == 4 * k + 1 || i == 4 * k + 2 || i == 4 * k + 3;
  }

  // Pixels copied one by one from left to right. Inside one row, where the destination starts
  // among the source's own pixels, what is copied is by then already copied.
  function CopiedRow(source: seq<Pixel>, sx: nat, dx: nat, w: nat, sameRow: bool): (row: seq<Pixel>)
    requires sx + w <= |source|
    ensures |row| == w
  {
    seq(w, k requires 0 <= k < w => if sameRow && sx < dx then source[sx + Within(k, dx - sx)] else source[sx + k])
  }

  // k % n, which is never past k.
  function Within(k: nat, n: nat): (r: nat)
    requires 0 < n
    ensures r <= k && r < n && (k < n ==> r == k)
  {
    if k < n then k else Within(k - n, n)
  }

  predicate Smears(q: Request) {
    q.sourceY == q.destinationY && q.sourceX < q.destinationX < q.sourceX + q.width
  }

  function CopiedTileRow(img: Image, q: Request, j: nat): (row: seq<Pixel>)
    requires j < q.height && q.sourceY + q.height <= |img|
    requires forall r :: q.sourceY <= r < q.sourceY + q.height ==> q.sourceX + q.width <= |img[r]|
    ensures |row| == q.width
  {
    CopiedRow(img[q.sourceY + j], q.sourceX, q.destinationX, q.width, q.sourceY == q.destinationY)
  }

  function CopiedTile(img: Image, q: Request): (tile: Image)
    requires q.sourceY + q.height <= |img|
    requires forall r :: q.sourceY <= r < q.sourceY + q.height ==> q.sourceX + q.width <= |img[r]|
    ensures IsImage(tile, q.width, q.height)
  {
    seq(q.height, j requires 0 <= j < q.height => CopiedTileRow(img, q, j))
  }

  lemma CopiedTileIsCut(img: Image, q: Request)
    requires q.sourceY + q.height <= |img|
    requires forall r :: q.sourceY <= r < q.sourceY + q.height ==> q.sourceX + q.width <= |img[r]|
    requires !Smears(q)
    ensures CopiedTile(img, q) == Cut(img, q.sourceX, q.sourceY, q.width, q.height)
  {
    var a, b := CopiedTile(img, q), Cut(img, q.sourceX, q.sourceY, q.width, q.height);
    forall j | 0 <= j < q.height ensures a[j] == b[j] {
      assert a[j] == CopiedTileRow(img, q, j);
    }
  }

  // In every request that smears, some picture comes out wrong.
  lemma SmearShows(horizontal: nat, vertical: nat, q: Request) returns (img: Image)
    requires 0 < q.height && q.sourceX + q.width <= horizontal && q.sourceY + q.height <= vertical && Smears(q)
    ensures IsImage(img, horizontal, vertical)
    ensures CopiedTile(img, q) != Cut(img, q.sourceX, q.sourceY, q.width, q.height)
  {
    img := seq(vertical, _ => seq(horizontal, x => if x == q.destinationX then WHITE else BLACK));
    var k := q.destinationX - q.sourceX;
    assert CopiedTile(img, q)[0] == CopiedTileRow(img, q, 0);
    assert CopiedTile(img, q)[0][k] == img[q.sourceY][q.sourceX];
    assert Cut(img, q.sourceX, q.sourceY, q.width, q.height)[0][k] == img[q.sourceY][q.sourceX + k];
  }

  // A pixel-by-pixel move is the simultaneous one on every picture exactly when it does not smear.
  lemma MoveIsSimultaneousExactlyWhen(horizontal: nat, vertical: nat, q: Request)
    requires 0 < q.height && q.sourceX + q.width <= horizontal && q.sourceY + q.height <= vertical
    requires q.destinationX + q.width <= horizontal && q.destinationY + q.height <= vertical
    ensures (forall img: Image | IsImage(img, horizontal, vertical) ::
               Stamp(img, q.destinationX, q.destinationY, CopiedTile(img, q))
               == Stamp(img, q.destinationX, q.destinationY, Cut(img, q.sourceX, q.sourceY, q.width, q.height)))
            <==> !Smears(q)
  {
    hide Stamp, Cut, CopiedTile;
    if Smears(q) {
      var img := SmearShows(horizontal, vertical, q);
      var a, b := CopiedTile(img, q), Cut(img, q.sourceX, q.sourceY, q.width, q.height);
      CutStamped(img, q.destinationX, q.destinationY, a, q.width, q.height);
      CutStamped(img, q.destinationX, q.destinationY, b, q.width, q.height);
    } else {
      forall img: Image | IsImage(img, horizontal, vertical)
        ensures CopiedTile(img, q) == Cut(img, q.sourceX, q.sourceY, q.width, q.height)
      {
        CopiedTileIsCut(img, q);
      }
    }
  }

  // The picture and the buffer a successful call leaves, given those it found.
  ghost predicate Served(q: Request, img: Image, buf: seq<bv8>) {
    && (ReadsVideo(q.op) ==>
          q.sourceY + q.height <= |img| && forall r :: q.sourceY <= r < q.sourceY + q.height ==> q.sourceX + q.width <= |img[r]|)
    && (WritesVideo(q.op) ==>
          q.destinationY + q.height <= |img|
          && forall r :: q.destinationY <= r < q.destinationY + q.height ==> q.destinationX + q.width <= |img[r]|)
    && (q.op == VideoFill ==> BYTES_PER_PIXEL <= |buf|)
    && (q.op == BufferToVideo ==> HoldsRows(|buf|, Stride(q), q.sourceX, q.sourceY, q.width, q.height))
    && (q.op == VideoToBltBuffer ==> HoldsRows(|buf|, Stride(q), q.destinationX, q.destinationY, q.width, q.height))
  }

  ghost function SourceTile(q: Request, img: Image, buf: seq<bv8>): (tile: Image)
    requires Served(q, img, buf) && q.op != OtherOperation
    ensures IsImage(tile, q.width, q.height)
  {
    if q.op == VideoFill then Solid(RowPixels(buf[..BYTES_PER_PIXEL], 1)[0], q.width, q.height)
    else if q.op == BufferToVideo then Load(buf, Stride(q), q.sourceX, q.sourceY, q.width, q.height)
    else Cut(img, q.sourceX, q.sourceY, q.width, q.height)
  }

  ghost function VideoAfter(q: Request, img: Image, buf: seq<bv8>): (r: Image)
    requires Served(q, img, buf) && q.op != OtherOperation
  {
    if WritesVideo(q.op) then Stamp(img, q.destinationX, q.destinationY, SourceTile(q, img, buf)) else img
  }

  ghost function BufferAfter(q: Request, img: Image, buf: seq<bv8>): (b: seq<bv8>)
    requires Served(q, img, buf) && q.op != OtherOperation
  {
    if q.op == VideoToBltBuffer
    then Store(buf, Stride(q), q.destinationX, q.destinationY, SourceTile(q, img, buf), q.width)
    else buf
  }

  // Saving a rectangle to the buffer and putting it back later, whatever was drawn meanwhile, restores it
  // and leaves the rest of the later picture alone.
  lemma SaveAndRestore(save: Request, restore: Request, img: Image, later: Image, buf: seq<bv8>)
    requires save.op == VideoToBltBuffer && restore.op == BufferToVideo
    requires restore.sourceX == save.destinationX && restore.sourceY == save.destinationY
    requires restore.width == save.width && restore.height == save.height && restore.delta == save.delta
    requires BYTES_PER_PIXEL * save.width <= Stride(save) || save.height <= 1
    requires Served(save, img, buf) && Served(restore, later, BufferAfter(save, img, buf))
    ensures VideoAfter(restore, later, BufferAfter(save, img, buf))
            == Stamp(later, restore.destinationX, restore.destinationY, Cut(img, save.sourceX, save.sourceY, save.width, save.height))
    ensures restore.destinationX == save.sourceX && restore.destinationY == save.sourceY && later == img ==>
              VideoAfter(restore, later, BufferAfter(save, img, buf)) == img
  {
    var tile := Cut(img, save.sourceX, save.sourceY, save.width, save.height);
    LoadStored(buf, Stride(save), save.destinationX, save.destinationY, tile, save.width);
    StampCut(img, save.sourceX, save.sourceY, save.width, save.height);
  }
}
