// LcdGraphicsOutputBlt.c: the upright and the rotated Blt, in place in the framebuffer.
module Blt {
  import opened Images
  import opened BltMemory
  import opened BltSpec
  import opened Sequences

  // CopyMem: safe for overlapping ranges.
  method CopyMem(dst: array<Pixel>, d: nat, src: array<Pixel>, s: nat, n: nat)
    requires d + n <= dst.Length && s + n <= src.Length
    modifies dst
    ensures dst[..] == Splice(old(dst[..]), d, old(src[s..s + n]))
  {
    var data := src[s..s + n];
    forall k | 0 <= k < n {
      dst[d + k] := data[k];
    }
    assert dst[..] == Splice(old(dst[..]), d, data);
  }

  // The caller's bytes and the framebuffer's pixels are different memory.
  ghost predicate Separate(buf: array<bv8>, fb: array<Pixel>) {
    (buf as object) != (fb as object)
  }

  // CopyMem between the framebuffer and the caller's bytes.
  method CopyOut(dst: array<bv8>, d: nat, src: array<Pixel>, s: nat, n: nat)
    requires Separate(dst, src) && d + BYTES_PER_PIXEL * n <= dst.Length && s + n <= src.Length
    modifies dst
    ensures dst[..] == Splice(old(dst[..]), d, RowBytes(src[s..s + n]))
  {
    hide Splice, RowBytes;
    ghost var was, row := dst[..], src[s..s + n];
    StartOfRow(was, d, row);
    for k := 0 to n
      invariant dst[..] == Splice(was, d, RowBytes(row[..k]))
    {
      SplicePixelBytes(was, d, row, k);
      PutBytes(dst, d + BYTES_PER_PIXEL * k, src[s + k]);
    }
    assert row[..n] == row;
  }

  method CopyIn(dst: array<Pixel>, d: nat, src: array<bv8>, s: nat, n: nat)
    requires Separate(src, dst) && d + n <= dst.Length && s + BYTES_PER_PIXEL * n <= src.Length
    modifies dst
    ensures dst[..] == Splice(old(dst[..]), d, RowPixels(src[s..s + BYTES_PER_PIXEL * n], n))
  {
    hide Splice, RowPixels;
    ghost var was, row := dst[..], RowPixels(src[s..s + BYTES_PER_PIXEL * n], n);
    SpliceNothing(was, d);
    assert row[..0] == [];
    for k := 0 to n
      invariant dst[..] == Splice(was, d, row[..k])
    {
      SplicePixel(was, d, row, k);
      ghost var before := dst[..];
      var p := GetBytes(src, s + BYTES_PER_PIXEL * k);
      PixelInRow(src[..], s, n, k);
      assert src[..][s..s + BYTES_PER_PIXEL * n] == src[s..s + BYTES_PER_PIXEL * n];
      dst[d + k] := p;
      assert dst[..] == before[d + k := p];
    }
    assert row[..n] == row;
  }

  // One pixel of the caller's buffer.
  method PutBytes(buf: array<bv8>, at: nat, p: Pixel)
    requires at + BYTES_PER_PIXEL <= buf.Length
    modifies buf
    ensures buf[..] == Splice(old(buf[..]), at, RowBytes([p]))
  {
    buf[at], buf[at + 1], buf[at + 2], buf[at + 3] := p.blue, p.green, p.red, p.reserved;
    assert RowBytes([p]) == [p.blue, p.green, p.red, p.reserved];
    assert buf[..] == Splice(old(buf[..]), at, [p.blue, p.green, p.red, p.reserved]);
  }

  method GetBytes(buf: array<bv8>, at: nat) returns (p: Pixel)
    requires at + BYTES_PER_PIXEL <= buf.Length
    ensures p == Pixel(buf[at], buf[at + 1], buf[at + 2], buf[at + 3])
  {
    p := Pixel(buf[at], buf[at + 1], buf[at + 2], buf[at + 3]);
  }

  // Pixel k of the row of n that the buffer holds at a byte offset.
  method PixelOfRow(buf: array<bv8>, at: nat, ghost n: nat, k: nat) returns (p: Pixel)
    requires at + BYTES_PER_PIXEL * n <= buf.Length && k < n
    ensures p == RowPixels(buf[at..at + BYTES_PER_PIXEL * n], n)[k]
  {
    hide RowPixels;
    p := GetBytes(buf, at + BYTES_PER_PIXEL * k);
    PixelInRow(buf[..], at, n, k);
    assert buf[..][at..at + BYTES_PER_PIXEL * n] == buf[at..at + BYTES_PER_PIXEL * n];
  }

  lemma PixelInRow(buf: seq<bv8>, at: nat, n: nat, k: nat)
    requires at + BYTES_PER_PIXEL * n <= |buf| && k < n
    ensures var i := at + BYTES_PER_PIXEL * k;
            RowPixels(buf[at..at + BYTES_PER_PIXEL * n], n)[k] == Pixel(buf[i], buf[i + 1], buf[i + 2], buf[i + 3])
  {
  }

  lemma SpliceFurther<T>(s: seq<T>, at: nat, a: seq<T>, b: seq<T>)
    requires at + |a| + |b| <= |s|
    ensures Splice(Splice(s, at, a), at + |a|, b) == Splice(s, at, a + b)
  {
  }

  lemma SplicePixelBytes(s: seq<bv8>, at: nat, row: seq<Pixel>, k: nat)
    requires at + BYTES_PER_PIXEL * |row| <= |s| && k < |row|
    ensures Splice(Splice(s, at, RowBytes(row[..k])), at + BYTES_PER_PIXEL * k, RowBytes([row[k]]))
         == Splice(s, at, RowBytes(row[..k + 1]))
  {
    hide RowBytes, Splice;
    RowBytesMore(row, k);
    SpliceFurther(s, at, RowBytes(row[..k]), RowBytes([row[k]]));
  }

  lemma StartOfRow(s: seq<bv8>, at: nat, row: seq<Pixel>)
    requires at <= |s|
    ensures Splice(s, at, RowBytes(row[..0])) == s
  {
  }

  method SetMem32(dst: array<Pixel>, d: nat, n: nat, p: Pixel)
    requires d + n <= dst.Length
    modifies dst
    ensures dst[..] == Splice(old(dst[..]), d, seq(n, _ => p))
  {
    for k := 0 to n
      invariant forall j :: 0 <= j < dst.Length ==> dst[j] == if d <= j < d + k then p else old(dst[j])
    {
      dst[d + k] := p;
    }
    assert dst[..] == Splice(old(dst[..]), d, seq(n, _ => p));
  }

  lemma SplicePixel(s: seq<Pixel>, at: nat, data: seq<Pixel>, k: nat)
    requires at + |data| <= |s| && k < |data|
    ensures Splice(s, at, data[..k + 1]) == Splice(s, at, data[..k])[at + k := data[k]]
  {
  }

  // A row of a stamped picture that the stamp has not reached.
  lemma RowUntouched(img: Image, x: nat, y: nat, tile: Image, r: nat)
    requires Fits(img, x, y, tile) && r < |img| && !(y <= r < y + |tile|)
    ensures Stamp(img, x, y, tile)[r] == img[r]
  {
  }

  ghost predicate InImage(img: Image, x: nat, y: nat, w: nat, h: nat) {
    y + h <= |img| && forall r :: 0 <= r < |img| ==> x + w <= |img[r]|
  }

  // A row of the source is still as it was when its turn comes: going down when the destination is
  // not below the source, going up when it is.
  lemma MoveBelow(img: Image, sx: nat, sy: nat, dx: nat, dy: nat, w: nat, h: nat, tile: Image, y: nat)
    requires InImage(img, sx, sy, w, h) && InImage(img, dx, dy, w, h) && IsImage(tile, w, h) && dy <= sy && y < h
    ensures Fits(img, dx, dy, tile[..y]) && Fits(img, dx, dy, tile[..y + 1]) && dx + |tile[y]| <= |img[dy + y]|
    ensures var part := Stamp(img, dx, dy, tile[..y]);
            && part[sy + y] == img[sy + y]
            && Stamp(img, dx, dy, tile[..y + 1]) == part[dy + y := Splice(part[dy + y], dx, tile[y])]
  {
    hide Splice, Stamp;
    StampBelow(img, dx, dy, tile, y);
    RowUntouched(img, dx, dy, tile[..y], sy + y);
  }

  lemma MoveAbove(img: Image, sx: nat, sy: nat, dx: nat, dy: nat, w: nat, h: nat, tile: Image, y: nat)
    requires InImage(img, sx, sy, w, h) && InImage(img, dx, dy, w, h) && IsImage(tile, w, h) && sy < dy && y < h
    ensures Fits(img, dx, dy, tile) && dx + |tile[y]| <= |img[dy + y]|
    ensures var part := StampFrom(img, dx, dy, tile, y + 1);
            && part[sy + y] == img[sy + y]
            && StampFrom(img, dx, dy, tile, y) == part[dy + y := Splice(part[dy + y], dx, tile[y])]
  {
    hide Splice, Stamp;
    StampAbove(img, dx, dy, tile, y);
    RowUntouched(img, dx, dy + y + 1, tile[y + 1..], sy + y);
  }

  class Gop {
    const fb: array<Pixel>
    const horizontal: nat
    const vertical: nat

    ghost predicate Valid() {
      fb.Length == horizontal * vertical
    }

    // What the framebuffer shows: upright for LcdGraphicsBlt, turned for LcdGraphicsBlt90.
    ghost function Picture(l: Layout): (img: Image)
      requires Valid()
      reads fb
      ensures IsImage(img, horizontal, vertical)
    {
      View(l, fb[..], horizontal, vertical)
    }

    constructor (fb: array<Pixel>, horizontal: nat, vertical: nat)
      requires fb.Length == horizontal * vertical
      ensures Valid() && this.fb == fb && this.horizontal == horizontal && this.vertical == vertical
    {
      this.fb, this.horizontal, this.vertical := fb, horizontal, vertical;
    }

    // ---- Upright: a row is a run of memory ----

    method FillRow(x: nat, y: nat, n: nat, p: Pixel)
      requires Valid() && x + n <= horizontal && y < vertical
      modifies fb
      ensures var img := old(Picture(Upright)); Picture(Upright) == img[y := Splice(img[y], x, seq(n, _ => p))]
    {
      hide Splice, View;
      RowPosition(horizontal, vertical, x, y, n);
      ViewRowSplice(fb[..], horizontal, vertical, x, y, seq(n, _ => p));
      SetMem32(fb, y * horizontal + x, n, p);
    }

    method LoadRow(x: nat, y: nat, n: nat, buf: array<bv8>, at: nat)
      requires Valid() && Separate(buf, fb) && x + n <= horizontal && y < vertical && at + BYTES_PER_PIXEL * n <= buf.Length
      modifies fb
      ensures var img := old(Picture(Upright));
              Picture(Upright) == img[y := Splice(img[y], x, RowPixels(buf[at..at + BYTES_PER_PIXEL * n], n))]
    {
      hide Splice, View, RowPixels;
      RowPosition(horizontal, vertical, x, y, n);
      ViewRowSplice(fb[..], horizontal, vertical, x, y, RowPixels(buf[at..at + BYTES_PER_PIXEL * n], n));
      CopyIn(fb, y * horizontal + x, buf, at, n);
    }

    method SaveRow(x: nat, y: nat, n: nat, buf: array<bv8>, at: nat)
      requires Valid() && Separate(buf, fb) && x + n <= horizontal && y < vertical && at + BYTES_PER_PIXEL * n <= buf.Length
      modifies buf
      ensures buf[..] == Splice(old(buf[..]), at, RowBytes(Picture(Upright)[y][x..x + n]))
    {
      hide Splice, View, RowBytes;
      RowPosition(horizontal, vertical, x, y, n);
      ViewRowCut(fb[..], horizontal, vertical, x, y, n);
      var s := y * horizontal + x;
      assert fb[s..s + n] == fb[..][s..s + n];
      CopyOut(buf, at, fb, s, n);
    }

    method MoveRow(sx: nat, sy: nat, dx: nat, dy: nat, n: nat)
      requires Valid() && sx + n <= horizontal && dx + n <= horizontal && sy < vertical && dy < vertical
      modifies fb
      ensures var img := old(Picture(Upright)); Picture(Upright) == img[dy := Splice(img[dy], dx, img[sy][sx..sx + n])]
    {
      hide Splice, View;
      RowPosition(horizontal, vertical, sx, sy, n);
      RowPosition(horizontal, vertical, dx, dy, n);
      ViewRowCut(fb[..], horizontal, vertical, sx, sy, n);
      var s, d := sy * horizontal + sx, dy * horizontal + dx;
      assert fb[s..s + n] == fb[..][s..s + n];
      ViewRowSplice(fb[..], horizontal, vertical, dx, dy, fb[s..s + n]);
      CopyMem(fb, d, fb, s, n);
    }

    method FillUpright(q: Request, p: Pixel)
      requires Valid() && q.destinationX + q.width <= horizontal && q.destinationY + q.height <= vertical
      modifies fb
      ensures Picture(Upright) == Stamp(old(Picture(Upright)), q.destinationX, q.destinationY, Solid(p, q.width, q.height))
    {
      hide Splice, Stamp, View, Valid;
      ghost var img, tile := Picture(Upright), Solid(p, q.width, q.height);
      StampNothing(img, q.destinationX, q.destinationY);
      for y := 0 to q.height
        invariant Picture(Upright) == Stamp(img, q.destinationX, q.destinationY, tile[..y])
      {
        StampBelow(img, q.destinationX, q.destinationY, tile, y);
        FillRow(q.destinationX, q.destinationY + y, q.width, p);
      }
      assert tile[..q.height] == tile;
    }

    method StoreUpright(q: Request, buf: array<bv8>)
      requires Valid() && Separate(buf, fb) && q.sourceX + q.width <= horizontal && q.sourceY + q.height <= vertical
      requires HoldsRows(buf.Length, Stride(q), q.destinationX, q.destinationY, q.width, q.height)
      modifies buf
      ensures buf[..] == Store(old(buf[..]), Stride(q), q.destinationX, q.destinationY,
                               Cut(Picture(Upright), q.sourceX, q.sourceY, q.width, q.height), q.width)
    {
      hide Splice, Store, RowAt, View, Valid;
      var stride := Stride(q);
      ghost var was, img := buf[..], Picture(Upright);
      ghost var tile := Cut(img, q.sourceX, q.sourceY, q.width, q.height);
      StoreNothing(was, stride, q.destinationX, q.destinationY, q.width);
      for y := 0 to q.height
        invariant buf[..] == Store(was, stride, q.destinationX, q.destinationY, tile[..y], q.width)
        invariant Picture(Upright) == img
      {
        StoreRow(was, stride, q.destinationX, q.destinationY, tile, q.width, y);
        SaveRow(q.sourceX, q.sourceY + y, q.width, buf, RowAt(stride, q.destinationX, q.destinationY + y));
      }
      assert tile[..q.height] == tile;
    }

    method LoadUpright(q: Request, buf: array<bv8>)
      requires Valid() && Separate(buf, fb) && q.destinationX + q.width <= horizontal && q.destinationY + q.height <= vertical
      requires HoldsRows(buf.Length, Stride(q), q.sourceX, q.sourceY, q.width, q.height)
      modifies fb
      ensures Picture(Upright) == Stamp(old(Picture(Upright)), q.destinationX, q.destinationY,
                                        Load(buf[..], Stride(q), q.sourceX, q.sourceY, q.width, q.height))
    {
      hide Splice, Stamp, RowAt, View, Valid, Load;
      var stride := Stride(q);
      ghost var img, data := Picture(Upright), buf[..];
      ghost var tile := Load(data, stride, q.sourceX, q.sourceY, q.width, q.height);
      StampNothing(img, q.destinationX, q.destinationY);
      for y := 0 to q.height
        invariant Picture(Upright) == Stamp(img, q.destinationX, q.destinationY, tile[..y])
      {
        StampBelow(img, q.destinationX, q.destinationY, tile, y);
        LoadedRow(data, stride, q.sourceX, q.sourceY, q.width, q.height, y);
        var at := RowAt(stride, q.sourceX, q.sourceY + y);
        assert data[at..at + BYTES_PER_PIXEL * q.width] == buf[at..at + BYTES_PER_PIXEL * q.width];
        LoadRow(q.destinationX, q.destinationY + y, q.width, buf, at);
      }
      assert tile[..q.height] == tile;
    }

    method MoveUpright(q: Request)
      requires Valid() && q.sourceX + q.width <= horizontal && q.sourceY + q.height <= vertical
      requires q.destinationX + q.width <= horizontal && q.destinationY + q.height <= vertical
      modifies fb
      ensures Picture(Upright) == Stamp(old(Picture(Upright)), q.destinationX, q.destinationY,
                                        Cut(old(Picture(Upright)), q.sourceX, q.sourceY, q.width, q.height))
    {
      if q.sourceY < q.destinationY {
        MoveFromBottom(q);
      } else {
        MoveFromTop(q);
      }
    }

    // A destination below the source: the last row first.
    method MoveFromBottom(q: Request)
      requires Valid() && q.sourceX + q.width <= horizontal && q.sourceY + q.height <= vertical
      requires q.destinationX + q.width <= horizontal && q.destinationY + q.height <= vertical
      requires q.sourceY < q.destinationY
      modifies fb
      ensures Picture(Upright) == Stamp(old(Picture(Upright)), q.destinationX, q.destinationY,
                                        Cut(old(Picture(Upright)), q.sourceX, q.sourceY, q.width, q.height))
    {
      hide Splice, Stamp, View, Valid;
      var sx, sy, dx, dy, w, h := q.sourceX, q.sourceY, q.destinationX, q.destinationY, q.width, q.height;
      ghost var img := Picture(Upright);
      ghost var tile := Cut(img, sx, sy, w, h);
      var y: nat := h;
      assert tile[h..] == [];
      StampNothing(img, dx, dy + h);
      while y > 0
        invariant y <= h
        invariant Picture(Upright) == StampFrom(img, dx, dy, tile, y)
      {
        y := y - 1;
        MoveAbove(img, sx, sy, dx, dy, w, h, tile, y);
        MoveRow(sx, sy + y, dx, dy + y, w);
      }
      assert tile[0..] == tile;
    }

    method MoveFromTop(q: Request)
      requires Valid() && q.sourceX + q.width <= horizontal && q.sourceY + q.height <= vertical
      requires q.destinationX + q.width <= horizontal && q.destinationY + q.height <= vertical
      requires q.destinationY <= q.sourceY
      modifies fb
      ensures Picture(Upright) == Stamp(old(Picture(Upright)), q.destinationX, q.destinationY,
                                        Cut(old(Picture(Upright)), q.sourceX, q.sourceY, q.width, q.height))
    {
      hide Splice, Stamp, View, Valid;
      var sx, sy, dx, dy, w, h := q.sourceX, q.sourceY, q.destinationX, q.destinationY, q.width, q.height;
      ghost var img := Picture(Upright);
      ghost var tile := Cut(img, sx, sy, w, h);
      StampNothing(img, dx, dy);
      for y := 0 to h
        invariant Picture(Upright) == Stamp(img, dx, dy, tile[..y])
      {
        MoveBelow(img, sx, sy, dx, dy, w, h, tile, y);
        MoveRow(sx, sy + y, dx, dy + y, w);
      }
      assert tile[..h] == tile;
    }

    // ---- Rotated: a row is a column of memory, taken pixel by pixel ----

    // Where the picture's pixel (x, y) is kept; horizontal in the source is the other dimension.
    function Cell(x: nat, y: nat): (i: nat)
      requires Valid() && x < horizontal && y < vertical
      ensures i == Index(Rotated, horizontal, vertical, x, y) && i < fb.Length
    {
      IndexInRange(Rotated, horizontal, vertical, x, y);
      (vertical - 1 - y) + x * vertical
    }

    method PutPixel(x: nat, y: nat, p: Pixel)
      requires Valid() && x < horizontal && y < vertical
      modifies fb
      ensures var img := old(Picture(Rotated)); Picture(Rotated) == img[y := img[y][x := p]]
    {
      hide View, Index;
      ViewPixel(Rotated, fb[..], horizontal, vertical, x, y, p);
      fb[Cell(x, y)] := p;
      assert fb[..] == old(fb[..])[Cell(x, y) := p];
    }

    method GetPixel(x: nat, y: nat) returns (p: Pixel)
      requires Valid() && x < horizontal && y < vertical
      ensures p == Picture(Rotated)[y][x]
    {
      hide Index;
      p := fb[Cell(x, y)];
    }

    method FillRow90(x: nat, y: nat, n: nat, p: Pixel)
      requires Valid() && x + n <= horizontal && y < vertical
      modifies fb
      ensures var img := old(Picture(Rotated)); Picture(Rotated) == img[y := Splice(img[y], x, seq(n, _ => p))]
    {
      hide Splice, View, Index;
      ghost var img, row := Picture(Rotated), seq(n, _ => p);
      SpliceNothing(img[y], x);
      assert row[..0] == [];
      for k := 0 to n
        invariant Picture(Rotated) == img[y := Splice(img[y], x, row[..k])]
      {
        SplicePixel(img[y], x, row, k);
        PutPixel(x + k, y, p);
      }
      assert row[..n] == row;
    }

    method SaveRow90(x: nat, y: nat, n: nat, buf: array<bv8>, at: nat)
      requires Valid() && Separate(buf, fb) && x + n <= horizontal && y < vertical && at + BYTES_PER_PIXEL * n <= buf.Length
      modifies buf
      ensures buf[..] == Splice(old(buf[..]), at, RowBytes(Picture(Rotated)[y][x..x + n]))
    {
      hide Splice, View, Index, RowBytes;
      ghost var was, img := buf[..], Picture(Rotated);
      ghost var row := img[y][x..x + n];
      StartOfRow(was, at, row);
      for k := 0 to n
        invariant buf[..] == Splice(was, at, RowBytes(row[..k]))
        invariant Picture(Rotated) == img
      {
        SplicePixelBytes(was, at, row, k);
        var p := GetPixel(x + k, y);
        PutBytes(buf, at + BYTES_PER_PIXEL * k, p);
      }
      assert row[..n] == row;
    }

    method LoadRow90(x: nat, y: nat, n: nat, buf: array<bv8>, at: nat)
      requires Valid() && Separate(buf, fb) && x + n <= horizontal && y < vertical && at + BYTES_PER_PIXEL * n <= buf.Length
      modifies fb
      ensures var img := old(Picture(Rotated));
              Picture(Rotated) == img[y := Splice(img[y], x, RowPixels(buf[at..at + BYTES_PER_PIXEL * n], n))]
    {
      hide Splice, View, Index, RowPixels;
      ghost var img, row := Picture(Rotated), RowPixels(buf[at..at + BYTES_PER_PIXEL * n], n);
      SpliceNothing(img[y], x);
      assert row[..0] == [];
      for k := 0 to n
        invariant Picture(Rotated) == img[y := Splice(img[y], x, row[..k])]
      {
        SplicePixel(img[y], x, row, k);
        var p := PixelOfRow(buf, at, n, k);
        PutPixel(x + k, y, p);
      }
      assert row[..n] == row;
    }

    // Left to right, whatever the overlap.
    method MoveRow90(sx: nat, sy: nat, dx: nat, dy: nat, n: nat)
      requires Valid() && sx + n <= horizontal && dx + n <= horizontal && sy < vertical && dy < vertical
      modifies fb
      ensures var img := old(Picture(Rotated));
              Picture(Rotated) == img[dy := Splice(img[dy], dx, CopiedRow(img[sy], sx, dx, n, sy == dy))]
    {
      hide Splice, View, Index, CopiedRow;
      ghost var img := Picture(Rotated);
      ghost var row := CopiedRow(img[sy], sx, dx, n, sy == dy);
      SpliceNothing(img[dy], dx);
      assert row[..0] == [];
      for k := 0 to n
        invariant Picture(Rotated) == img[dy := Splice(img[dy], dx, row[..k])]
      {
        SplicePixel(img[dy], dx, row, k);
        var p := GetPixel(sx + k, sy);
        CopiedPixel(img[sy], sx, dx, n, sy == dy, k);
        PutPixel(dx + k, dy, p);
      }
      assert row[..n] == row;
    }

    method FillRotated(q: Request, p: Pixel)
      requires Valid() && q.destinationX + q.width <= horizontal && q.destinationY + q.height <= vertical
      modifies fb
      ensures Picture(Rotated) == Stamp(old(Picture(Rotated)), q.destinationX, q.destinationY, Solid(p, q.width, q.height))
    {
      hide Splice, Stamp, View, Valid;
      ghost var img, tile := Picture(Rotated), Solid(p, q.width, q.height);
      StampNothing(img, q.destinationX, q.destinationY);
      for y := 0 to q.height
        invariant Picture(Rotated) == Stamp(img, q.destinationX, q.destinationY, tile[..y])
      {
        StampBelow(img, q.destinationX, q.destinationY, tile, y);
        FillRow90(q.destinationX, q.destinationY + y, q.width, p);
      }
      assert tile[..q.height] == tile;
    }

    method StoreRotated(q: Request, buf: array<bv8>)
      requires Valid() && Separate(buf, fb) && q.sourceX + q.width <= horizontal && q.sourceY + q.height <= vertical
      requires HoldsRows(buf.Length, Stride(q), q.destinationX, q.destinationY, q.width, q.height)
      modifies buf
      ensures buf[..] == Store(old(buf[..]), Stride(q), q.destinationX, q.destinationY,
                               Cut(Picture(Rotated), q.sourceX, q.sourceY, q.width, q.height), q.width)
    {
      hide Splice, Store, RowAt, View, Valid;
      var stride := Stride(q);
      ghost var was, img := buf[..], Picture(Rotated);
      ghost var tile := Cut(img, q.sourceX, q.sourceY, q.width, q.height);
      StoreNothing(was, stride, q.destinationX, q.destinationY, q.width);
      for y := 0 to q.height
        invariant buf[..] == Store(was, stride, q.destinationX, q.destinationY, tile[..y], q.width)
        invariant Picture(Rotated) == img
      {
        StoreRow(was, stride, q.destinationX, q.destinationY, tile, q.width, y);
        SaveRow90(q.sourceX, q.sourceY + y, q.width, buf, RowAt(stride, q.destinationX, q.destinationY + y));
      }
      assert tile[..q.height] == tile;
    }

    method LoadRotated(q: Request, buf: array<bv8>)
      requires Valid() && Separate(buf, fb) && q.destinationX + q.width <= horizontal && q.destinationY + q.height <= vertical
      requires HoldsRows(buf.Length, Stride(q), q.sourceX, q.sourceY, q.width, q.height)
      modifies fb
      ensures Picture(Rotated) == Stamp(old(Picture(Rotated)), q.destinationX, q.destinationY,
                                        Load(buf[..], Stride(q), q.sourceX, q.sourceY, q.width, q.height))
    {
      hide Splice, Stamp, RowAt, View, Valid, Load;
      var stride := Stride(q);
      ghost var img, data := Picture(Rotated), buf[..];
      ghost var tile := Load(data, stride, q.sourceX, q.sourceY, q.width, q.height);
      StampNothing(img, q.destinationX, q.destinationY);
      for y := 0 to q.height
        invariant Picture(Rotated) == Stamp(img, q.destinationX, q.destinationY, tile[..y])
      {
        StampBelow(img, q.destinationX, q.destinationY, tile, y);
        LoadedRow(data, stride, q.sourceX, q.sourceY, q.width, q.height, y);
        var at := RowAt(stride, q.sourceX, q.sourceY + y);
        assert data[at..at + BYTES_PER_PIXEL * q.width] == buf[at..at + BYTES_PER_PIXEL * q.width];
        LoadRow90(q.destinationX, q.destinationY + y, q.width, buf, at);
      }
      assert tile[..q.height] == tile;
    }

    method MoveRotated(q: Request)
      requires Valid() && q.sourceX + q.width <= horizontal && q.sourceY + q.height <= vertical
      requires q.destinationX + q.width <= horizontal && q.destinationY + q.height <= vertical
      modifies fb
      ensures Picture(Rotated) == Stamp(old(Picture(Rotated)), q.destinationX, q.destinationY,
                                        CopiedTile(old(Picture(Rotated)), q))
    {
      if q.sourceY < q.destinationY {
        MoveFromBottom90(q);
      } else {
        MoveFromTop90(q);
      }
    }

    method MoveFromBottom90(q: Request)
      requires Valid() && q.sourceX + q.width <= horizontal && q.sourceY + q.height <= vertical
      requires q.destinationX + q.width <= horizontal && q.destinationY + q.height <= vertical
      requires q.sourceY < q.destinationY
      modifies fb
      ensures Picture(Rotated) == Stamp(old(Picture(Rotated)), q.destinationX, q.destinationY,
                                        CopiedTile(old(Picture(Rotated)), q))
    {
      hide Splice, Stamp, View, Valid, CopiedRow;
      var sx, sy, dx, dy, w, h := q.sourceX, q.sourceY, q.destinationX, q.destinationY, q.width, q.height;
      ghost var img := Picture(Rotated);
      ghost var tile := CopiedTile(img, q);
      var y: nat := h;
      assert tile[h..] == [];
      StampNothing(img, dx, dy + h);
      while y > 0
        invariant y <= h
        invariant Picture(Rotated) == StampFrom(img, dx, dy, tile, y)
      {
        y := y - 1;
        MoveAbove(img, sx, sy, dx, dy, w, h, tile, y);
        assert tile[y] == CopiedTileRow(img, q, y);
        MoveRow90(sx, sy + y, dx, dy + y, w);
      }
      assert tile[0..] == tile;
    }

    method MoveFromTop90(q: Request)
      requires Valid() && q.sourceX + q.width <= horizontal && q.sourceY + q.height <= vertical
      requires q.destinationX + q.width <= horizontal && q.destinationY + q.height <= vertical
      requires q.destinationY <= q.sourceY
      modifies fb
      ensures Picture(Rotated) == Stamp(old(Picture(Rotated)), q.destinationX, q.destinationY,
                                        CopiedTile(old(Picture(Rotated)), q))
    {
      hide Splice, Stamp, View, Valid, CopiedRow;
      var sx, sy, dx, dy, w, h := q.sourceX, q.sourceY, q.destinationX, q.destinationY, q.width, q.height;
      ghost var img := Picture(Rotated);
      ghost var tile := CopiedTile(img, q);
      StampNothing(img, dx, dy);
      for y := 0 to h
        invariant Picture(Rotated) == Stamp(img, dx, dy, tile[..y])
      {
        MoveBelow(img, sx, sy, dx, dy, w, h, tile, y);
        assert tile[y] == CopiedTileRow(img, q, y);
        MoveRow90(sx, sy + y, dx, dy + y, w);
      }
      assert tile[..h] == tile;
    }

    // ---- The two entry points ----

    // The call's buffer, when it has one, holds the rows the call names.
    ghost predicate Callable(q: Request, buf: array?<bv8>)
      reads if buf == null then {} else {buf}
    {
      && (buf != null ==> Separate(buf, fb))
      && (buf != null && q.op == VideoFill ==> BYTES_PER_PIXEL <= buf.Length)
      && (buf != null && q.op == BufferToVideo ==>
            HoldsRows(buf.Length, Stride(q), q.sourceX, q.sourceY, q.width, q.height))
      && (buf != null && q.op == VideoToBltBuffer ==>
            HoldsRows(buf.Length, Stride(q), q.destinationX, q.destinationY, q.width, q.height))
    }

    static ghost function Data(buf: array?<bv8>): (bytes: seq<bv8>)
      reads if buf == null then {} else {buf}
    {
      if buf == null then [] else buf[..]
    }

    method LcdGraphicsBlt(buf: array?<bv8>, q: Request) returns (r: Status)
      requires Valid() && Callable(q, buf)
      modifies fb, if buf == null then {} else {buf}
      ensures r == if q.op == OtherOperation then InvalidParameter else CheckParameters(horizontal, vertical, buf != null, q)
      ensures r == Success ==>
                var img, data := old(Picture(Upright)), old(Data(buf));
                && Served(q, img, data)
                && Picture(Upright) == VideoAfter(q, img, data) && Data(buf) == BufferAfter(q, img, data)
                && UprightMemory(q, horizontal, vertical, old(fb[..]), fb[..], data, Data(buf))
      ensures r != Success ==> fb[..] == old(fb[..]) && Data(buf) == old(Data(buf))
    {
      hide View, Stamp, Store, Load, HoldsRows, UprightMemory;
      ghost var was, data := fb[..], Data(buf);
      r := CheckParameters(horizontal, vertical, buf != null, q);
      if r != Success {
        return;
      }
      match q.op {
        case VideoFill =>
          var p := GetBytes(buf, 0);
          FillUpright(q, p);
        case VideoToBltBuffer =>
          StoreUpright(q, buf);
        case BufferToVideo =>
          LoadUpright(q, buf);
        case VideoToVideo =>
          MoveUpright(q);
        case OtherOperation =>
          return InvalidParameter;
      }
      UprightServed(q, horizontal, vertical, was, fb[..], data);
    }

    // Through the turned picture, the same promise, but for moves along a row to an overlapping
    // place on the right; what those leave is CopiedTile.
    method LcdGraphicsBlt90(buf: array?<bv8>, q: Request) returns (r: Status)
      requires Valid() && Callable(q, buf)
      modifies fb, if buf == null then {} else {buf}
      ensures r == if q.op == OtherOperation then InvalidParameter else CheckParameters(horizontal, vertical, buf != null, q)
      ensures r == Success ==>
                var img, data := old(Picture(Rotated)), old(Data(buf));
                && Served(q, img, data)
                && (!(q.op == VideoToVideo && Smears(q)) ==> Picture(Rotated) == VideoAfter(q, img, data))
                && (q.op == VideoToVideo ==>
                      Picture(Rotated) == Stamp(img, q.destinationX, q.destinationY, CopiedTile(img, q)))
                && Data(buf) == BufferAfter(q, img, data)
                && TurnedMemory(q, horizontal, vertical, old(fb[..]), fb[..], data, Data(buf))
      ensures r != Success ==> fb[..] == old(fb[..]) && Data(buf) == old(Data(buf))
    {
      hide View, Stamp, Store, Load, HoldsRows, CopiedTile, TurnedMemory;
      ghost var was, data := fb[..], Data(buf);
      r := CheckParameters(horizontal, vertical, buf != null, q);
      if r != Success {
        return;
      }
      match q.op {
        case VideoFill =>
          var p := GetBytes(buf, 0);
          FillRotated(q, p);
        case VideoToBltBuffer =>
          StoreRotated(q, buf);
        case BufferToVideo =>
          LoadRotated(q, buf);
        case VideoToVideo =>
          if !Smears(q) {
            CopiedTileIsCut(Picture(Rotated), q);
          }
          MoveRotated(q);
        case OtherOperation =>
          return InvalidParameter;
      }
      TurnedServed(q, horizontal, vertical, was, fb[..], data);
    }
  }

  // The next pixel to copy, read from a row that already holds the copies of the ones before it.
  lemma CopiedPixel(s: seq<Pixel>, sx: nat, dx: nat, n: nat, sameRow: bool, k: nat)
    requires sx + n <= |s| && dx + n <= |s| && k < n
    ensures var row := CopiedRow(s, sx, dx, n, sameRow);
            row[k] == if sameRow then Splice(s, dx, row[..k])[sx + k] else s[sx + k]
  {
    if sameRow && sx < dx && dx - sx <= k {
      assert Within(k, dx - sx) == Within(k - (dx - sx), dx - sx);
    }
  }

  lemma SpliceNothing(s: seq<Pixel>, at: nat)
    requires at <= |s|
    ensures Splice(s, at, []) == s
  {
  }

  lemma StoreNothing(buf: seq<bv8>, stride: nat, x: nat, y: nat, w: nat)
    ensures Store(buf, stride, x, y, [], w) == buf
  {
  }
}
