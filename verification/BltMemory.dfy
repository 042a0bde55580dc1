// What a Blt() call makes of memory, cell by cell of the framebuffer and byte by byte of the caller's
// buffer, told by addresses alone.
module BltMemory {
  import opened Images
  import opened BltSpec
  import opened Sequences

  function Cell(fb: seq<Pixel>, i: int): (p: Pixel) {
    if 0 <= i < |fb| then fb[i] else Pixel(0, 0, 0, 0)
  }

  // The pixel in four bytes of the buffer.
  function Four(buf: seq<bv8>, i: int): (p: Pixel) {
    if 0 <= i && i + 4 <= |buf| then Pixel(buf[i], buf[i + 1], buf[i + 2], buf[i + 3]) else Pixel(0, 0, 0, 0)
  }

  function Byte(buf: seq<bv8>, i: int): (b: bv8) {
    if 0 <= i < |buf| then buf[i] else 0
  }

  // Delta, which is the row's own length when it is given as 0.
  function RowPitch(q: Request): (n: nat) {
    if q.delta == 0 then 4 * q.width else q.delta
  }

  predicate InDestination(q: Request, x: int, y: int) {
    q.destinationX <= x < q.destinationX + q.width && q.destinationY <= y < q.destinationY + q.height
  }

  // The cell of (x, y) after a call on an upright screen w cells wide.
  predicate UprightCell(q: Request, w: nat, h: nat, was: seq<Pixel>, now: seq<Pixel>, buf: seq<bv8>, x: int, y: int) {
    var sx, sy := q.sourceX + x - q.destinationX, q.sourceY + y - q.destinationY;
    Cell(now, y * w + x) ==
      if q.op == VideoToBltBuffer || !InDestination(q, x, y) then Cell(was, y * w + x)
      else if q.op == VideoFill then Four(buf, 0)
      else if q.op == BufferToVideo then Four(buf, sy * RowPitch(q) + 4 * sx)
      else Cell(was, sy * w + sx)
  }

  // The same on a screen turned by 90 degrees, whose columns are the rows of memory, h cells long. A
  // move along its own row to the right repeats what lies between source and destination.
  predicate TurnedCell(q: Request, w: nat, h: nat, was: seq<Pixel>, now: seq<Pixel>, buf: seq<bv8>, x: int, y: int) {
    var sx, sy := q.sourceX + x - q.destinationX, q.sourceY + y - q.destinationY;
    var mx := if q.sourceY == q.destinationY && q.sourceX < q.destinationX
              then q.sourceX + (x - q.destinationX) % (q.destinationX - q.sourceX) else sx;
    Cell(now, (h - 1 - y) + x * h) ==
      if q.op == VideoToBltBuffer || !InDestination(q, x, y) then Cell(was, (h - 1 - y) + x * h)
      else if q.op == VideoFill then Four(buf, 0)
      else if q.op == BufferToVideo then Four(buf, sy * RowPitch(q) + 4 * sx)
      else Cell(was, (h - 1 - sy) + mx * h)
  }

  // Byte b of the buffer belongs to row j of the destination.
  predicate InRow(q: Request, j: int, b: int) {
    0 <= b - ((q.destinationY + j) * RowPitch(q) + 4 * q.destinationX) < 4 * q.width
  }

  // The pixel p is at column k of row j of the buffer, but where a later row lies over it. None does
  // when the rows are as far apart as they are long.
  predicate Kept(q: Request, buf: seq<bv8>, p: Pixel, j: int, k: int) {
    var b := (q.destinationY + j) * RowPitch(q) + 4 * (q.destinationX + k);
    KeptBytes(q, buf, p, j, b) && (4 * q.width <= RowPitch(q) || q.height == 1 ==> Four(buf, b) == p)
  }

  predicate KeptBytes(q: Request, buf: seq<bv8>, p: Pixel, j: int, b: int) {
    && (OnTop(q, j, b) ==> Byte(buf, b) == p.blue)
    && (OnTop(q, j, b + 1) ==> Byte(buf, b + 1) == p.green)
    && (OnTop(q, j, b + 2) ==> Byte(buf, b + 2) == p.red)
    && (OnTop(q, j, b + 3) ==> Byte(buf, b + 3) == p.reserved)
  }

  predicate OnTop(q: Request, j: int, b: int) {
    forall l :: j < l < q.height ==> !InRow(q, l, b)
  }

  predicate UprightStored(q: Request, w: nat, h: nat, fb: seq<Pixel>, buf: seq<bv8>, j: int, k: int) {
    Kept(q, buf, Cell(fb, (q.sourceY + j) * w + (q.sourceX + k)), j, k)
  }

  predicate TurnedStored(q: Request, w: nat, h: nat, fb: seq<Pixel>, buf: seq<bv8>, j: int, k: int) {
    Kept(q, buf, Cell(fb, (h - 1 - (q.sourceY + j)) + (q.sourceX + k) * h), j, k)
  }

  // Any byte that no row covers stays as it was.
  predicate Untouched(q: Request, was: seq<bv8>, now: seq<bv8>, b: int) {
    (q.op == VideoToBltBuffer && exists j :: 0 <= j < q.height && InRow(q, j, b)) || Byte(now, b) == Byte(was, b)
  }

  // What a successful call leaves in memory.
  ghost predicate UprightMemory(q: Request, w: nat, h: nat, was: seq<Pixel>, now: seq<Pixel>, bufWas: seq<bv8>, bufNow: seq<bv8>) {
    && |now| == |was| && |bufNow| == |bufWas|
    && (forall x: nat, y: nat :: x < w && y < h ==> UprightCell(q, w, h, was, now, bufWas, x, y))
    && (q.op == VideoToBltBuffer ==> forall j: nat, k: nat :: j < q.height && k < q.width ==> UprightStored(q, w, h, was, bufNow, j, k))
    && forall b: nat :: b < |bufWas| ==> Untouched(q, bufWas, bufNow, b)
  }

  ghost predicate TurnedMemory(q: Request, w: nat, h: nat, was: seq<Pixel>, now: seq<Pixel>, bufWas: seq<bv8>, bufNow: seq<bv8>) {
    && |now| == |was| && |bufNow| == |bufWas|
    && (forall x: nat, y: nat :: x < w && y < h ==> TurnedCell(q, w, h, was, now, bufWas, x, y))
    && (q.op == VideoToBltBuffer ==> forall j: nat, k: nat :: j < q.height && k < q.width ==> TurnedStored(q, w, h, was, bufNow, j, k))
    && forall b: nat :: b < |bufWas| ==> Untouched(q, bufWas, bufNow, b)
  }

  // What is refused, operation by operation.
  lemma AcceptedExactlyWhen(w: nat, h: nat, hasBuffer: bool, q: Request)
    ensures CheckParameters(w, h, hasBuffer, q) == Success <==>
            && q.width > 0 && q.height > 0
            && (q.op in {VideoFill, VideoToBltBuffer, BufferToVideo} ==> hasBuffer)
            && (q.op in {VideoToBltBuffer, VideoToVideo} ==> q.sourceX <= w - q.width && q.sourceY <= h - q.height)
            && (q.op in {VideoFill, BufferToVideo, VideoToVideo} ==> q.destinationX <= w - q.width && q.destinationY <= h - q.height)
  {
  }

  // The rows all have room exactly when the last one has.
  lemma HoldsRowsExactlyWhen(length: nat, stride: nat, x: nat, y: nat, w: nat, h: nat)
    ensures HoldsRows(length, stride, x, y, w, h) <==> h == 0 || (y + h - 1) * stride + 4 * (x + w) <= length
  {
    if h > 0 {
      forall r: nat | y <= r < y + h ensures r * stride <= (y + h - 1) * stride {
        MulAtMost(r, y + h - 1, stride);
      }
      var last: nat := y + h - 1;
      if HoldsRows(length, stride, x, y, w, h) {
        assert RowAt(stride, x, last) + BYTES_PER_PIXEL * w <= length;
      }
    }
  }

  // ---- From pictures to cells ----

  lemma StampAt(img: Image, x0: nat, y0: nat, tile: Image, w: nat, h: nat, x: nat, y: nat)
    requires IsImage(tile, w, h) && Images.Fits(img, x0, y0, tile) && y < |img| && x < |img[y]|
    ensures Stamp(img, x0, y0, tile)[y][x] == if x0 <= x < x0 + w && y0 <= y < y0 + h then tile[y - y0][x - x0] else img[y][x]
  {
  }

  lemma UprightView(fb: seq<Pixel>, w: nat, h: nat, x: nat, y: nat)
    requires |fb| == w * h && x < w && y < h
    ensures View(Upright, fb, w, h)[y][x] == Cell(fb, y * w + x)
  {
    IndexInRange(Upright, w, h, x, y);
    assert View(Upright, fb, w, h)[y][x] == fb[Index(Upright, w, h, x, y)];
  }

  lemma TurnedView(fb: seq<Pixel>, w: nat, h: nat, x: nat, y: nat)
    requires |fb| == w * h && x < w && y < h
    ensures View(Rotated, fb, w, h)[y][x] == Cell(fb, (h - 1 - y) + x * h)
  {
    IndexInRange(Rotated, w, h, x, y);
    assert View(Rotated, fb, w, h)[y][x] == fb[Index(Rotated, w, h, x, y)];
  }

  // The turned picture is the upright one of the same memory, a quarter turn on.
  lemma QuarterTurn(fb: seq<Pixel>, w: nat, h: nat, x: nat, y: nat)
    requires |fb| == w * h && x < w && y < h
    ensures |fb| == h * w && View(Rotated, fb, w, h)[y][x] == View(Upright, fb, h, w)[x][h - 1 - y]
  {
    hide View;
    TurnedView(fb, w, h, x, y);
    UprightView(fb, h, w, h - 1 - y, x);
  }

  // What stands at (x, y) of the destination, on pictures.
  ghost function Written(q: Request, img: Image, buf: seq<bv8>, x: nat, y: nat): (p: Pixel)
    requires Served(q, img, buf) && q.op != OtherOperation && InDestination(q, x, y)
  {
    SourceTile(q, img, buf)[y - q.destinationY][x - q.destinationX]
  }

  lemma LoadedAt(buf: seq<bv8>, stride: nat, x: nat, y: nat, w: nat, h: nat, j: nat, k: nat)
    requires HoldsRows(|buf|, stride, x, y, w, h) && j < h && k < w
    ensures Load(buf, stride, x, y, w, h)[j][k] == Four(buf, (y + j) * stride + 4 * (x + k))
  {
    var at := RowAt(stride, x, y + j);
    assert at + BYTES_PER_PIXEL * w <= |buf|;
  }

  lemma FilledAt(buf: seq<bv8>, w: nat, h: nat, j: nat, k: nat)
    requires BYTES_PER_PIXEL <= |buf| && j < h && k < w
    ensures Solid(RowPixels(buf[..BYTES_PER_PIXEL], 1)[0], w, h)[j][k] == Four(buf, 0)
  {
  }

  lemma WrittenIs(q: Request, img: Image, buf: seq<bv8>, x: nat, y: nat)
    requires Served(q, img, buf) && q.op != OtherOperation && InDestination(q, x, y)
    ensures var sx, sy := q.sourceX + x - q.destinationX, q.sourceY + y - q.destinationY;
            && (q.op == VideoFill ==> Written(q, img, buf, x, y) == Four(buf, 0))
            && (q.op == BufferToVideo ==> Written(q, img, buf, x, y) == Four(buf, sy * RowPitch(q) + 4 * sx))
            && (ReadsVideo(q.op) ==> Written(q, img, buf, x, y) == img[sy][sx])
  {
    hide Load, Solid, RowPixels, HoldsRows, Four;
    var j, k := y - q.destinationY, x - q.destinationX;
    if q.op == BufferToVideo {
      LoadedAt(buf, Stride(q), q.sourceX, q.sourceY, q.width, q.height, j, k);
    } else if q.op == VideoFill {
      FilledAt(buf, q.width, q.height, j, k);
    }
  }

  // A picture after the call, pixel by pixel.
  lemma VideoAfterAt(q: Request, img: Image, buf: seq<bv8>, w: nat, h: nat, x: nat, y: nat)
    requires IsImage(img, w, h) && Served(q, img, buf) && q.op != OtherOperation && x < w && y < h
    ensures IsImage(VideoAfter(q, img, buf), w, h)
    ensures VideoAfter(q, img, buf)[y][x]
         == if WritesVideo(q.op) && InDestination(q, x, y) then Written(q, img, buf, x, y) else img[y][x]
  {
    hide SourceTile, HoldsRows, Stamp;
    if WritesVideo(q.op) {
      StampAt(img, q.destinationX, q.destinationY, SourceTile(q, img, buf), q.width, q.height, x, y);
    }
  }

  lemma UprightCells(q: Request, w: nat, h: nat, was: seq<Pixel>, now: seq<Pixel>, buf: seq<bv8>, x: nat, y: nat)
    requires |was| == |now| == w * h && q.op != OtherOperation && x < w && y < h
    requires Served(q, View(Upright, was, w, h), buf)
    requires View(Upright, now, w, h) == VideoAfter(q, View(Upright, was, w, h), buf)
    ensures UprightCell(q, w, h, was, now, buf, x, y)
  {
    hide View, VideoAfter, Written, Cell, Four, HoldsRows;
    var img := View(Upright, was, w, h);
    VideoAfterAt(q, img, buf, w, h, x, y);
    UprightView(now, w, h, x, y);
    UprightView(was, w, h, x, y);
    if WritesVideo(q.op) && InDestination(q, x, y) {
      WrittenIs(q, img, buf, x, y);
      if q.op == VideoToVideo {
        UprightView(was, w, h, q.sourceX + x - q.destinationX, q.sourceY + y - q.destinationY);
      }
    }
  }

  lemma {:induction false} WithinIs(k: nat, n: nat)
    requires 0 < n
    ensures Within(k, n) == k % n
  {
    if k >= n {
      WithinIs(k - n, n);
      SameRest(k - n, n);
    }
  }

  lemma SameRest(k: nat, n: nat)
    requires 0 < n
    ensures (k + n) % n == k % n
  {
    var q, r := k / n, k % n;
    RestIs(k + n, n, q + 1, r);
  }

  lemma RestIs(m: nat, n: nat, q: nat, r: nat)
    requires r < n && m == q * n + r
    ensures m % n == r
  {
    var d := m / n;
    if d < q {
      MulAtMost(d + 1, q, n);
    } else if q < d {
      MulAtMost(q + 1, d, n);
    }
  }

  // How far along its row the pixel comes from that a move on the turned screen copies to column k.
  function Along(q: Request, k: nat): (m: nat)
    ensures m <= k
  {
    if q.sourceY == q.destinationY && q.sourceX < q.destinationX then Within(k, q.destinationX - q.sourceX) else k
  }

  lemma AlongIs(q: Request, k: nat)
    ensures Along(q, k) == if q.sourceY == q.destinationY && q.sourceX < q.destinationX then k % (q.destinationX - q.sourceX) else k
  {
    if q.sourceY == q.destinationY && q.sourceX < q.destinationX {
      WithinIs(k, q.destinationX - q.sourceX);
    }
  }

  lemma CopiedAt(q: Request, img: Image, j: nat, k: nat)
    requires q.sourceY + q.height <= |img| && j < q.height && k < q.width
    requires forall r :: q.sourceY <= r < q.sourceY + q.height ==> q.sourceX + q.width <= |img[r]|
    ensures q.sourceX + Along(q, k) < |img[q.sourceY + j]|
    ensures CopiedTile(img, q)[j][k] == img[q.sourceY + j][q.sourceX + Along(q, k)]
  {
    hide Within;
    assert q.sourceX + q.width <= |img[q.sourceY + j]|;
    assert CopiedTile(img, q)[j] == CopiedTileRow(img, q, j);
  }

  // A move that is served stays on the screen.
  lemma MoveFits(q: Request, img: Image, buf: seq<bv8>, w: nat, h: nat)
    requires q.op == VideoToVideo && Served(q, img, buf) && IsImage(img, w, h)
    ensures q.sourceY + q.height <= h && (q.height > 0 ==> q.sourceX + q.width <= w)
    ensures q.destinationY + q.height <= h && (q.height > 0 ==> q.destinationX + q.width <= w)
  {
    if q.height > 0 {
      assert q.sourceX + q.width <= |img[q.sourceY]|;
      assert q.destinationX + q.width <= |img[q.destinationY]|;
    }
  }

  lemma TurnedMoveCell(q: Request, w: nat, h: nat, was: seq<Pixel>, now: seq<Pixel>, buf: seq<bv8>, x: nat, y: nat)
    requires |was| == |now| == w * h && q.op == VideoToVideo && x < w && y < h
    requires var img := View(Rotated, was, w, h);
             && Served(q, img, buf)
             && View(Rotated, now, w, h) == Stamp(img, q.destinationX, q.destinationY, CopiedTile(img, q))
    ensures TurnedCell(q, w, h, was, now, buf, x, y)
  {
    hide View, Cell, Four, Served, Stamp, CopiedTile, Along;
    var img := View(Rotated, was, w, h);
    MoveFits(q, img, buf, w, h);
    TurnedView(now, w, h, x, y);
    TurnedView(was, w, h, x, y);
    StampAt(img, q.destinationX, q.destinationY, CopiedTile(img, q), q.width, q.height, x, y);
    if InDestination(q, x, y) {
      var j, k := y - q.destinationY, x - q.destinationX;
      CopiedAt(q, img, j, k);
      AlongIs(q, k);
      TurnedView(was, w, h, q.sourceX + Along(q, k), q.sourceY + j);
    }
  }

  lemma TurnedCells(q: Request, w: nat, h: nat, was: seq<Pixel>, now: seq<Pixel>, buf: seq<bv8>, x: nat, y: nat)
    requires |was| == |now| == w * h && q.op != OtherOperation && x < w && y < h
    requires Served(q, View(Rotated, was, w, h), buf)
    requires q.op != VideoToVideo ==> View(Rotated, now, w, h) == VideoAfter(q, View(Rotated, was, w, h), buf)
    requires q.op == VideoToVideo ==>
               var img := View(Rotated, was, w, h);
               View(Rotated, now, w, h) == Stamp(img, q.destinationX, q.destinationY, CopiedTile(img, q))
    ensures TurnedCell(q, w, h, was, now, buf, x, y)
  {
    hide View, VideoAfter, Written, Cell, Four, HoldsRows, Stamp, CopiedTile;
    if q.op == VideoToVideo {
      TurnedMoveCell(q, w, h, was, now, buf, x, y);
    } else {
      var img := View(Rotated, was, w, h);
      TurnedView(now, w, h, x, y);
      TurnedView(was, w, h, x, y);
      VideoAfterAt(q, img, buf, w, h, x, y);
      if WritesVideo(q.op) && InDestination(q, x, y) {
        WrittenIs(q, img, buf, x, y);
      }
    }
  }

  // ---- From stored rows to bytes ----

  // Byte b lies in row j of the buffer.
  predicate Covers(stride: nat, x: nat, y: nat, w: nat, j: nat, b: nat) {
    RowAt(stride, x, y + j) <= b < RowAt(stride, x, y + j) + BYTES_PER_PIXEL * w
  }

  lemma SplicedAt<T>(s: seq<T>, at: nat, data: seq<T>, i: nat)
    requires at + |data| <= |s| && i < |s|
    ensures Splice(s, at, data)[i] == if at <= i < at + |data| then data[i - at] else s[i]
  {
  }

  lemma FrontRows(length: nat, stride: nat, x: nat, y: nat, tile: Image, w: nat)
    requires IsImage(tile, w, |tile|) && HoldsRows(length, stride, x, y, w, |tile|) && tile != []
    ensures var n := |tile| - 1;
            && IsImage(tile[..n], w, n) && HoldsRows(length, stride, x, y, w, n)
            && RowAt(stride, x, y + n) + BYTES_PER_PIXEL * w <= length
  {
    hide RowAt;
  }

  lemma {:induction false} StoredByte(buf: seq<bv8>, stride: nat, x: nat, y: nat, tile: Image, w: nat, j: nat, b: nat)
    requires IsImage(tile, w, |tile|) && HoldsRows(|buf|, stride, x, y, w, |tile|) && j < |tile| && b < |buf|
    requires Covers(stride, x, y, w, j, b) && forall l :: j < l < |tile| ==> !Covers(stride, x, y, w, l, b)
    ensures Store(buf, stride, x, y, tile, w)[b] == RowBytes(tile[j])[b - RowAt(stride, x, y + j)]
    decreases |tile|
  {
    hide RowAt, RowBytes, Splice, HoldsRows;
    var n := |tile| - 1;
    FrontRows(|buf|, stride, x, y, tile, w);
    SplicedAt(Store(buf, stride, x, y, tile[..n], w), RowAt(stride, x, y + n), RowBytes(tile[n]), b);
    if j < n {
      StoredByte(buf, stride, x, y, tile[..n], w, j, b);
      assert !Covers(stride, x, y, w, n, b);
    }
  }

  lemma {:induction false} OtherByte(buf: seq<bv8>, stride: nat, x: nat, y: nat, tile: Image, w: nat, b: nat)
    requires IsImage(tile, w, |tile|) && HoldsRows(|buf|, stride, x, y, w, |tile|) && b < |buf|
    requires forall l :: 0 <= l < |tile| ==> !Covers(stride, x, y, w, l, b)
    ensures Store(buf, stride, x, y, tile, w)[b] == buf[b]
    decreases |tile|
  {
    hide RowAt, RowBytes, Splice, HoldsRows;
    if tile != [] {
      var n := |tile| - 1;
      FrontRows(|buf|, stride, x, y, tile, w);
      SplicedAt(Store(buf, stride, x, y, tile[..n], w), RowAt(stride, x, y + n), RowBytes(tile[n]), b);
      OtherByte(buf, stride, x, y, tile[..n], w, b);
      assert !Covers(stride, x, y, w, n, b);
    }
  }

  // The stored rows against the addresses of the call.
  lemma CoversIs(q: Request, j: nat, b: nat)
    ensures Covers(Stride(q), q.destinationX, q.destinationY, q.width, j, b) <==> InRow(q, j, b)
  {
  }

  // One byte of column k of row j.
  lemma StoredComponent(q: Request, img: Image, buf: seq<bv8>, j: nat, k: nat, i: nat, b: nat)
    requires q.op == VideoToBltBuffer && Served(q, img, buf) && j < q.height && k < q.width && i < 4
    requires b == (q.destinationY + j) * RowPitch(q) + 4 * (q.destinationX + k) + i
    ensures OnTop(q, j, b) ==> Byte(BufferAfter(q, img, buf), b) == Component(img[q.sourceY + j][q.sourceX + k], i)
  {
    hide Store, RowBytes, Component, HoldsRows;
    RowRoom(q, img, buf, j, k);
    var at := RowAt(Stride(q), q.destinationX, q.destinationY + j);
    assert b == at + 4 * k + i;
    if OnTop(q, j, b) {
      forall l: nat | l < q.height
        ensures Covers(Stride(q), q.destinationX, q.destinationY, q.width, l, b) <==> InRow(q, l, b)
      {
        CoversIs(q, l, b);
      }
      var tile := SourceTile(q, img, buf);
      StoredByte(buf, Stride(q), q.destinationX, q.destinationY, tile, q.width, j, b);
      ByteAt(tile[j], k, i);
    }
  }

  lemma NothingOnTop(q: Request, j: nat, k: nat, i: nat, b: nat)
    requires 4 * q.width <= RowPitch(q) || q.height == 1
    requires j < q.height && k < q.width && i < 4
    requires b == (q.destinationY + j) * RowPitch(q) + 4 * (q.destinationX + k) + i
    ensures OnTop(q, j, b)
  {
    forall l: nat | j < l < q.height ensures !InRow(q, l, b) {
      MulStep(q.destinationY + j, q.destinationY + l, RowPitch(q));
    }
  }

  lemma RowRoom(q: Request, img: Image, buf: seq<bv8>, j: nat, k: nat)
    requires q.op == VideoToBltBuffer && Served(q, img, buf) && j < q.height && k < q.width
    ensures (q.destinationY + j) * RowPitch(q) + 4 * (q.destinationX + k) + 4 <= |buf|
    ensures q.sourceY + j < |img| && q.sourceX + k < |img[q.sourceY + j]|
  {
    assert RowAt(Stride(q), q.destinationX, q.destinationY + j) + BYTES_PER_PIXEL * q.width <= |buf|;
  }

  lemma StoredBytes(q: Request, img: Image, buf: seq<bv8>, j: nat, k: nat, b: nat)
    requires q.op == VideoToBltBuffer && Served(q, img, buf) && j < q.height && k < q.width
    requires b == (q.destinationY + j) * RowPitch(q) + 4 * (q.destinationX + k)
    ensures KeptBytes(q, BufferAfter(q, img, buf), img[q.sourceY + j][q.sourceX + k], j, b)
  {
    hide OnTop, Served, BufferAfter, RowPitch, Byte;
    StoredComponent(q, img, buf, j, k, 0, b);
    StoredComponent(q, img, buf, j, k, 1, b + 1);
    StoredComponent(q, img, buf, j, k, 2, b + 2);
    StoredComponent(q, img, buf, j, k, 3, b + 3);
  }

  // A pixel that no later row lies over is whole.
  lemma StoredWhole(q: Request, buf: seq<bv8>, p: Pixel, j: nat, k: nat, b: nat)
    requires j < q.height && k < q.width && (4 * q.width <= RowPitch(q) || q.height == 1)
    requires b == (q.destinationY + j) * RowPitch(q) + 4 * (q.destinationX + k) && b + 4 <= |buf|
    requires KeptBytes(q, buf, p, j, b)
    ensures Four(buf, b) == p
  {
    hide OnTop, RowPitch;
    NothingOnTop(q, j, k, 0, b);
    NothingOnTop(q, j, k, 1, b + 1);
    NothingOnTop(q, j, k, 2, b + 2);
    NothingOnTop(q, j, k, 3, b + 3);
  }

  lemma StoredPixel(q: Request, img: Image, buf: seq<bv8>, j: nat, k: nat)
    requires q.op == VideoToBltBuffer && Served(q, img, buf) && j < q.height && k < q.width
    ensures Kept(q, BufferAfter(q, img, buf), img[q.sourceY + j][q.sourceX + k], j, k)
  {
    hide RowPitch, Served, BufferAfter, KeptBytes, Four;
    var b: nat := (q.destinationY + j) * RowPitch(q) + 4 * (q.destinationX + k);
    StoredBytes(q, img, buf, j, k, b);
    SameLength(q, img, buf);
    RowRoom(q, img, buf, j, k);
    if 4 * q.width <= RowPitch(q) || q.height == 1 {
      StoredWhole(q, BufferAfter(q, img, buf), img[q.sourceY + j][q.sourceX + k], j, k, b);
    }
  }

  lemma UntouchedByte(q: Request, img: Image, buf: seq<bv8>, b: nat)
    requires Served(q, img, buf) && q.op != OtherOperation && b < |buf|
    ensures |BufferAfter(q, img, buf)| == |buf| && Untouched(q, buf, BufferAfter(q, img, buf), b)
  {
    hide Store, HoldsRows, InRow, Covers;
    if q.op == VideoToBltBuffer && !(exists j :: 0 <= j < q.height && InRow(q, j, b)) {
      forall l: nat | l < q.height
        ensures !Covers(Stride(q), q.destinationX, q.destinationY, q.width, l, b)
      {
        CoversIs(q, l, b);
      }
      OtherByte(buf, Stride(q), q.destinationX, q.destinationY, SourceTile(q, img, buf), q.width, b);
    }
  }

  ghost predicate PictureStored(q: Request, img: Image, buf: seq<bv8>, j: nat, k: nat) {
    && q.sourceY + j < |img| && q.sourceX + k < |img[q.sourceY + j]|
    && Kept(q, buf, img[q.sourceY + j][q.sourceX + k], j, k)
  }

  lemma BufferMemory(q: Request, img: Image, bufWas: seq<bv8>)
    requires Served(q, img, bufWas) && q.op != OtherOperation
    ensures var bufNow := BufferAfter(q, img, bufWas);
            && |bufNow| == |bufWas| && (forall b: nat :: b < |bufWas| ==> Untouched(q, bufWas, bufNow, b))
            && (q.op == VideoToBltBuffer ==> forall j: nat, k: nat :: j < q.height && k < q.width ==> PictureStored(q, img, bufNow, j, k))
  {
    hide BufferAfter, Untouched, Kept, HoldsRows;
    forall b: nat | b < |bufWas| ensures Untouched(q, bufWas, BufferAfter(q, img, bufWas), b) {
      UntouchedByte(q, img, bufWas, b);
    }
    if q.op == VideoToBltBuffer {
      forall j: nat, k: nat | j < q.height && k < q.width
        ensures PictureStored(q, img, BufferAfter(q, img, bufWas), j, k)
      {
        assert q.sourceX + q.width <= |img[q.sourceY + j]|;
        StoredPixel(q, img, bufWas, j, k);
      }
    }
    SameLength(q, img, bufWas);
  }

  lemma SameLength(q: Request, img: Image, buf: seq<bv8>)
    requires Served(q, img, buf) && q.op != OtherOperation
    ensures |BufferAfter(q, img, buf)| == |buf|
  {
  }

  lemma UprightServed(q: Request, w: nat, h: nat, was: seq<Pixel>, now: seq<Pixel>, bufWas: seq<bv8>)
    requires |was| == |now| == w * h && q.op != OtherOperation
    requires var img := View(Upright, was, w, h);
             Served(q, img, bufWas) && View(Upright, now, w, h) == VideoAfter(q, img, bufWas)
    ensures UprightMemory(q, w, h, was, now, bufWas, BufferAfter(q, View(Upright, was, w, h), bufWas))
  {
    hide View, VideoAfter, BufferAfter, Untouched, Kept, HoldsRows, UprightCell, Cell;
    var img := View(Upright, was, w, h);
    BufferMemory(q, img, bufWas);
    forall x: nat, y: nat | x < w && y < h ensures UprightCell(q, w, h, was, now, bufWas, x, y) {
      UprightCells(q, w, h, was, now, bufWas, x, y);
    }
    if q.op == VideoToBltBuffer {
      forall j: nat, k: nat | j < q.height && k < q.width
        ensures UprightStored(q, w, h, was, BufferAfter(q, img, bufWas), j, k)
      {
        assert PictureStored(q, img, BufferAfter(q, img, bufWas), j, k);
        UprightView(was, w, h, q.sourceX + k, q.sourceY + j);
      }
    }
  }

  lemma TurnedServed(q: Request, w: nat, h: nat, was: seq<Pixel>, now: seq<Pixel>, bufWas: seq<bv8>)
    requires |was| == |now| == w * h && q.op != OtherOperation
    requires var img := View(Rotated, was, w, h);
             && Served(q, img, bufWas)
             && (q.op != VideoToVideo ==> View(Rotated, now, w, h) == VideoAfter(q, img, bufWas))
             && (q.op == VideoToVideo ==>
                   View(Rotated, now, w, h) == Stamp(img, q.destinationX, q.destinationY, CopiedTile(img, q)))
    ensures TurnedMemory(q, w, h, was, now, bufWas, BufferAfter(q, View(Rotated, was, w, h), bufWas))
  {
    hide View, VideoAfter, BufferAfter, Untouched, Kept, HoldsRows, TurnedCell, Cell, Stamp, CopiedTile;
    var img := View(Rotated, was, w, h);
    BufferMemory(q, img, bufWas);
    forall x: nat, y: nat | x < w && y < h ensures TurnedCell(q, w, h, was, now, bufWas, x, y) {
      TurnedCells(q, w, h, was, now, bufWas, x, y);
    }
    if q.op == VideoToBltBuffer {
      forall j: nat, k: nat | j < q.height && k < q.width
        ensures TurnedStored(q, w, h, was, BufferAfter(q, img, bufWas), j, k)
      {
        assert PictureStored(q, img, BufferAfter(q, img, bufWas), j, k);
        TurnedView(was, w, h, q.sourceX + k, q.sourceY + j);
      }
    }
  }
}
