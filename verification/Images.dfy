// Pictures as rows of pixels, the rectangle operations the UEFI Blt() call is specified by, and
// the two ways a picture is laid out in a linear framebuffer.
module Images {
  import opened Sequences

  // EFI_GRAPHICS_OUTPUT_BLT_PIXEL, its bytes in the order memory has them.
  datatype Pixel = Pixel(blue: bv8, green: bv8, red: bv8, reserved: bv8)

  type Image = seq<seq<Pixel>>

  ghost predicate IsImage(img: Image, width: nat, height: nat) {
    |img| == height && forall y :: 0 <= y < height ==> |img[y]| == width
  }

  // The rectangle of an image.
  function Cut(img: Image, x: nat, y: nat, w: nat, h: nat): (tile: Image)
    requires y + h <= |img| && forall r :: y <= r < y + h ==> x + w <= |img[r]|
    ensures IsImage(tile, w, h)
  {
    seq(h, j requires 0 <= j < h => img[y + j][x..x + w])
  }

  ghost predicate Fits(img: Image, x: nat, y: nat, tile: Image) {
    y + |tile| <= |img| && forall j :: 0 <= j < |tile| ==> x + |tile[j]| <= |img[y + j]|
  }

  // The image with a tile put on it; all of the tile is taken before any of it is put down.
  function Stamp(img: Image, x: nat, y: nat, tile: Image): (r: Image)
    requires Fits(img, x, y, tile)
    ensures |r| == |img| && forall i :: 0 <= i < |img| ==> |r[i]| == |img[i]|
  {
    seq(|img|, i requires 0 <= i < |img| => if y <= i < y + |tile| then Splice(img[i], x, tile[i - y]) else img[i])
  }

  function Solid(p: Pixel, w: nat, h: nat): (tile: Image)
    ensures IsImage(tile, w, h)
  {
    seq(h, _ => seq(w, _ => p))
  }

  lemma StampNothing(img: Image, x: nat, y: nat)
    requires y <= |img|
    ensures Stamp(img, x, y, []) == img
  {
  }

  // What a stamp makes of one row.
  lemma StampedRow(img: Image, x: nat, y: nat, tile: Image, i: nat)
    requires Fits(img, x, y, tile) && i < |img|
    ensures Stamp(img, x, y, tile)[i] == if y <= i < y + |tile| then Splice(img[i], x, tile[i - y]) else img[i]
  {
  }

  lemma PartFits(img: Image, x: nat, y: nat, tile: Image, k: nat)
    requires Fits(img, x, y, tile) && k <= |tile|
    ensures Fits(img, x, y, tile[..k]) && Fits(img, x, y + k, tile[k..])
  {
    var below := tile[k..];
    forall j | 0 <= j < |below| ensures x + |below[j]| <= |img[y + k + j]| {
      assert below[j] == tile[k + j] && x + |tile[k + j]| <= |img[y + (k + j)]|;
    }
  }

  // One more row at the bottom, or one more at the top.
  lemma StampBelow(img: Image, x: nat, y: nat, tile: Image, k: nat)
    requires Fits(img, x, y, tile) && k < |tile|
    ensures Fits(img, x, y, tile[..k]) && Fits(img, x, y, tile[..k + 1])
    ensures x + |tile[k]| <= |img[y + k]| && Stamp(img, x, y, tile[..k])[y + k] == img[y + k]
    ensures var part := Stamp(img, x, y, tile[..k]);
            Stamp(img, x, y, tile[..k + 1]) == part[y + k := Splice(part[y + k], x, tile[k])]
  {
    hide Stamp, Splice;
    PartFits(img, x, y, tile, k);
    PartFits(img, x, y, tile, k + 1);
    StampedRow(img, x, y, tile[..k], y + k);
    var part, more := Stamp(img, x, y, tile[..k]), Stamp(img, x, y, tile[..k + 1]);
    forall i | 0 <= i < |img| ensures more[i] == part[y + k := Splice(part[y + k], x, tile[k])][i] {
      StampedRow(img, x, y, tile[..k], i);
      StampedRow(img, x, y, tile[..k + 1], i);
    }
  }

  // The image with the rows of the tile from k on put in their places.
  function StampFrom(img: Image, x: nat, y: nat, tile: Image, k: nat): (r: Image)
    requires Fits(img, x, y, tile) && k <= |tile|
    ensures |r| == |img| && forall i :: 0 <= i < |img| ==> |r[i]| == |img[i]|
  {
    PartFits(img, x, y, tile, k);
    Stamp(img, x, y + k, tile[k..])
  }

  lemma StampAbove(img: Image, x: nat, y: nat, tile: Image, k: nat)
    requires Fits(img, x, y, tile) && k < |tile|
    ensures Fits(img, x, y + k, tile[k..]) && Fits(img, x, y + k + 1, tile[k + 1..])
    ensures x + |tile[k]| <= |img[y + k]| && Stamp(img, x, y + k + 1, tile[k + 1..])[y + k] == img[y + k]
    ensures var part := Stamp(img, x, y + k + 1, tile[k + 1..]);
            Stamp(img, x, y + k, tile[k..]) == part[y + k := Splice(part[y + k], x, tile[k])]
  {
    hide Stamp, Splice;
    PartFits(img, x, y, tile, k);
    PartFits(img, x, y, tile, k + 1);
    StampedRow(img, x, y + k + 1, tile[k + 1..], y + k);
    var part, more := Stamp(img, x, y + k + 1, tile[k + 1..]), Stamp(img, x, y + k, tile[k..]);
    forall i | 0 <= i < |img| ensures more[i] == part[y + k := Splice(part[y + k], x, tile[k])][i] {
      StampedRow(img, x, y + k + 1, tile[k + 1..], i);
      StampedRow(img, x, y + k, tile[k..], i);
    }
  }

  lemma CutSpliced(s: seq<Pixel>, x: nat, data: seq<Pixel>)
    requires x + |data| <= |s|
    ensures Splice(s, x, data)[x..x + |data|] == data
  {
  }

  lemma CutStamped(img: Image, x: nat, y: nat, tile: Image, w: nat, h: nat)
    requires Fits(img, x, y, tile) && IsImage(tile, w, h)
    ensures Cut(Stamp(img, x, y, tile), x, y, w, h) == tile
  {
    hide Splice;
    var r := Stamp(img, x, y, tile);
    forall j | 0 <= j < h ensures r[y + j][x..x + w] == tile[j] {
      CutSpliced(img[y + j], x, tile[j]);
    }
  }

  lemma SpliceCut(s: seq<Pixel>, x: nat, w: nat)
    requires x + w <= |s|
    ensures Splice(s, x, s[x..x + w]) == s
  {
  }

  lemma StampCut(img: Image, x: nat, y: nat, w: nat, h: nat)
    requires y + h <= |img| && forall r :: y <= r < y + h ==> x + w <= |img[r]|
    ensures Stamp(img, x, y, Cut(img, x, y, w, h)) == img
  {
    hide Splice, Stamp;
    var tile := Cut(img, x, y, w, h);
    var r := Stamp(img, x, y, tile);
    forall i | 0 <= i < |img| ensures r[i] == img[i] {
      StampedRow(img, x, y, tile, i);
      if y <= i < y + h {
        assert tile[i - y] == img[i][x..x + w];
        SpliceCut(img[i], x, w);
      }
    }
  }

  // ---- Layouts ----

  // Upright: row after row. Rotated: the picture turned by 90 degrees, so that a row of it is a
  // column of memory, counted from the far end.
  datatype Layout = Upright | Rotated

  function Index(l: Layout, width: nat, height: nat, x: nat, y: nat): (r: int) {
    match l
    case Upright => y * width + x
    case Rotated => (height - 1 - y) + x * height
  }

  lemma {:induction false} MulStep(a: nat, b: nat, n: nat)
    requires a < b
    ensures a * n + n <= b * n
    decreases b
  {
    assert b * n == (b - 1) * n + n;
    if a < b - 1 {
      MulStep(a, b - 1, n);
    }
  }

  // A row-major position determines its row and column.
  lemma RowMajorOrder(x: nat, y: nat, x': nat, y': nat, n: nat)
    requires x < n && x' < n
    ensures y < y' ==> y * n + x < y' * n + x' && y * n + x < y' * n
    ensures y * n + x == y' * n + x' ==> x == x' && y == y'
  {
    if y < y' {
      MulStep(y, y', n);
    } else if y' < y {
      MulStep(y', y, n);
    }
  }

  lemma IndexInRange(l: Layout, width: nat, height: nat, x: nat, y: nat)
    requires x < width && y < height
    ensures 0 <= Index(l, width, height, x, y) < width * height
  {
    match l
    case Upright =>
      MulStep(y, height, width);
    case Rotated =>
      MulStep(x, width, height);
  }

  lemma IndexInjective(l: Layout, width: nat, height: nat, x: nat, y: nat, x': nat, y': nat)
    requires x < width && y < height && x' < width && y' < height
    requires Index(l, width, height, x, y) == Index(l, width, height, x', y')
    ensures x == x' && y == y'
  {
    match l
    case Upright =>
      RowMajorOrder(x, y, x', y', width);
    case Rotated =>
      RowMajorOrder(height - 1 - y, x, height - 1 - y', x', height);
  }

  lemma Decompose(i: nat, m: nat, n: nat) returns (q: nat, r: nat)
    requires i < m * n
    ensures q < m && r < n && i == q * n + r
  {
    q, r := i / n, i % n;
    if m <= q {
      MulAtMost(m, q, n);
    }
  }

  lemma IndexOnto(l: Layout, width: nat, height: nat, i: nat) returns (x: nat, y: nat)
    requires i < width * height
    ensures x < width && y < height && Index(l, width, height, x, y) == i
  {
    if l == Upright {
      y, x := Decompose(i, height, width);
    } else {
      var back;
      x, back := Decompose(i, width, height);
      y := height - 1 - back;
    }
  }

  lemma MulAtMost(a: nat, b: nat, n: nat)
    requires a <= b
    ensures a * n <= b * n
  {
    if a < b {
      MulStep(a, b, n);
    }
  }

  // The picture that a linear framebuffer shows.
  ghost function View(l: Layout, fb: seq<Pixel>, width: nat, height: nat): (img: Image)
    requires |fb| == width * height
    ensures IsImage(img, width, height)
    ensures forall x, y :: 0 <= x < width && 0 <= y < height ==>
              0 <= Index(l, width, height, x, y) < |fb| && img[y][x] == fb[Index(l, width, height, x, y)]
  {
    var inside := forall x, y :: 0 <= x < width && 0 <= y < height ==> 0 <= Index(l, width, height, x, y) < |fb|;
    assert inside by {
      forall x, y | 0 <= x < width && 0 <= y < height
        ensures 0 <= Index(l, width, height, x, y) < |fb|
      {
        IndexInRange(l, width, height, x, y);
      }
    }
    seq(height, y requires 0 <= y < height && inside =>
      seq(width, x requires 0 <= x < width && inside => fb[Index(l, width, height, x, y)]))
  }

  // The view is faithful: the picture determines every cell of the framebuffer.
  lemma ViewDetermines(l: Layout, a: seq<Pixel>, b: seq<Pixel>, width: nat, height: nat)
    requires |a| == |b| == width * height
    requires View(l, a, width, height) == View(l, b, width, height)
    ensures a == b
  {
    forall i | 0 <= i < |a| ensures a[i] == b[i] {
      var x, y := IndexOnto(l, width, height, i);
      assert View(l, a, width, height)[y][x] == a[i] && View(l, b, width, height)[y][x] == b[i];
    }
  }

  lemma SameImage(a: Image, b: Image, width: nat, height: nat)
    requires IsImage(a, width, height) && IsImage(b, width, height)
    requires forall x, y :: 0 <= x < width && 0 <= y < height ==> a[y][x] == b[y][x]
    ensures a == b
  {
    forall y | 0 <= y < height ensures a[y] == b[y] {
    }
  }

  lemma ViewPixel(l: Layout, fb: seq<Pixel>, width: nat, height: nat, x: nat, y: nat, p: Pixel)
    requires |fb| == width * height && x < width && y < height
    ensures 0 <= Index(l, width, height, x, y) < |fb|
    ensures var img := View(l, fb, width, height);
            View(l, fb[Index(l, width, height, x, y) := p], width, height) == img[y := img[y][x := p]]
  {
    hide Index, View;
    IndexInRange(l, width, height, x, y);
    var at, img := Index(l, width, height, x, y), View(l, fb, width, height);
    var img' := View(l, fb[at := p], width, height);
    forall x', y' | 0 <= x' < width && 0 <= y' < height
      ensures img'[y'][x'] == img[y := img[y][x := p]][y'][x']
    {
      if Index(l, width, height, x', y') == at {
        IndexInjective(l, width, height, x', y', x, y);
      }
    }
    SameImage(img', img[y := img[y][x := p]], width, height);
  }

  // A row of an upright picture is a run of memory.
  lemma RowPosition(width: nat, height: nat, x: nat, y: nat, n: nat)
    requires x + n <= width && y < height
    ensures 0 <= y * width + x && y * width + x + n <= width * height
  {
    MulStep(y, height, width);
  }

  lemma AlongRow(width: nat, height: nat, x: nat, y: nat, k: nat)
    ensures Index(Upright, width, height, x + k, y) == y * width + x + k
  {
  }

  lemma RowHolds(width: nat, height: nat, x: nat, y: nat, n: nat, x': nat, y': nat)
    requires x + n <= width && x' < width && y < height && y' < height
    ensures 0 <= Index(Upright, width, height, x', y') - (y * width + x) < n <==> y' == y && x <= x' < x + n
    ensures y' == y ==> Index(Upright, width, height, x', y') - (y * width + x) == x' - x
  {
    if n > 0 {
      RowMajorOrder(x', y', x, y, width);
      RowMajorOrder(x, y, x', y', width);
      RowMajorOrder(x + n - 1, y, x', y', width);
      RowMajorOrder(x', y', x + n - 1, y, width);
    }
  }

  lemma ViewRowCut(fb: seq<Pixel>, width: nat, height: nat, x: nat, y: nat, n: nat)
    requires |fb| == width * height && x + n <= width && y < height
    ensures 0 <= y * width + x && y * width + x + n <= |fb|
    ensures fb[y * width + x..y * width + x + n] == View(Upright, fb, width, height)[y][x..x + n]
  {
    hide Index, View;
    RowPosition(width, height, x, y, n);
    var at, img := y * width + x, View(Upright, fb, width, height);
    var run, row := fb[at..at + n], img[y][x..x + n];
    forall k | 0 <= k < n ensures run[k] == row[k] {
      AlongRow(width, height, x, y, k);
      assert img[y][x + k] == fb[Index(Upright, width, height, x + k, y)];
    }
  }

  lemma ViewRowSplice(fb: seq<Pixel>, width: nat, height: nat, x: nat, y: nat, row: seq<Pixel>)
    requires |fb| == width * height && x + |row| <= width && y < height
    ensures 0 <= y * width + x && y * width + x + |row| <= |fb|
    ensures var img := View(Upright, fb, width, height);
            View(Upright, Splice(fb, y * width + x, row), width, height) == img[y := Splice(img[y], x, row)]
  {
    hide Index, View;
    RowPosition(width, height, x, y, |row|);
    var at, img := y * width + x, View(Upright, fb, width, height);
    var fb' := Splice(fb, at, row);
    var img' := View(Upright, fb', width, height);
    forall x', y' | 0 <= x' < width && 0 <= y' < height
      ensures img'[y'][x'] == img[y := Splice(img[y], x, row)][y'][x']
    {
      RowHolds(width, height, x, y, |row|, x', y');
      var i := Index(Upright, width, height, x', y');
      assert fb'[i] == if 0 <= i - at < |row| then row[i - at] else fb[i];
    }
    SameImage(img', img[y := Splice(img[y], x, row)], width, height);
  }
}
