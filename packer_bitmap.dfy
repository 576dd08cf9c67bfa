/** PackerBitmap: an image to be packed, trimmed to the bounding box of its
    non-transparent pixels, with the frame offsets that locate the trimmed
    window inside the original image.  Pixels are 32-bit words whose top byte
    is the alpha channel. */
module Bitmaps {
  import opened Util

  /** A loaded texture: its pixel buffer (row-major, width * height words)
      and its size. */
  datatype TexHandle = TexHandle(Data: array<bv32>, Width: nat, Height: nat)

  /** The pixel buffer holds exactly width * height pixels. */
  predicate ValidTex(tex: TexHandle)
    reads tex.Data
  {
    tex.Data.Length == tex.Width * tex.Height
  }

  /** The contents of a pixel buffer at one moment, with its size. */
  datatype Image = Image(pixels: seq<bv32>, width: nat, height: nat)

  predicate ValidImage(img: Image)
  {
    |img.pixels| == img.width * img.height
  }

  /** The current contents of tex. */
  function Snapshot(tex: TexHandle): (img: Image)
    reads tex.Data
    ensures ValidTex(tex) ==> ValidImage(img)
  {
    Image(tex.Data[..], tex.Width, tex.Height)
  }

  predicate InImage(img: Image, x: int, y: int)
  {
    0 <= x < img.width && 0 <= y < img.height
  }

  /** Pixel (x, y) of img. */
  function PixelAt(img: Image, x: int, y: int): bv32
    requires ValidImage(img) && InImage(img, x, y)
  {
    IndexInGrid(x, y, img.width, img.height);
    img.pixels[GridIndex(x, y, img.width)]
  }

  /** (x, y) is a pixel of img whose alpha byte is non-zero. */
  predicate Opaque(img: Image, x: int, y: int)
  {
    ValidImage(img) && InImage(img, x, y) && (PixelAt(img, x, y) >> 24) > 0
  }

  ghost predicate HasOpaque(img: Image)
  {
    exists x, y :: Opaque(img, x, y)
  }

  /** An inclusive pixel window minX..maxX x minY..maxY. */
  datatype Box = Box(minX: int, minY: int, maxX: int, maxY: int)

  predicate InBox(b: Box, x: int, y: int)
  {
    b.minX <= x <= b.maxX && b.minY <= y <= b.maxY
  }

  /** The whole image. */
  function FullFrame(img: Image): Box
  {
    Box(0, 0, img.width - 1, img.height - 1)
  }

  /** b is the tight bounding box of the opaque pixels: it holds every one
      of them and each of its four edges touches one. */
  ghost predicate TightBox(img: Image, b: Box)
  {
    && (forall x, y :: Opaque(img, x, y) ==> InBox(b, x, y))
    && (exists y :: Opaque(img, b.minX, y))
    && (exists y :: Opaque(img, b.maxX, y))
    && (exists x :: Opaque(img, x, b.minY))
    && (exists x :: Opaque(img, x, b.maxY))
  }

  /** There is only one tight bounding box. */
  lemma TightBoxUnique(img: Image, b1: Box, b2: Box)
    requires TightBox(img, b1) && TightBox(img, b2)
    ensures b1 == b2
  {
    var y1 :| Opaque(img, b1.minX, y1);
    var y2 :| Opaque(img, b2.minX, y2);
    assert InBox(b2, b1.minX, y1) && InBox(b1, b2.minX, y2);
    var y3 :| Opaque(img, b1.maxX, y3);
    var y4 :| Opaque(img, b2.maxX, y4);
    assert InBox(b2, b1.maxX, y3) && InBox(b1, b2.maxX, y4);
    var x1 :| Opaque(img, x1, b1.minY);
    var x2 :| Opaque(img, x2, b2.minY);
    assert InBox(b2, x1, b1.minY) && InBox(b1, x2, b2.minY);
    var x3 :| Opaque(img, x3, b1.maxY);
    var x4 :| Opaque(img, x4, b2.maxY);
    assert InBox(b2, x3, b1.maxY) && InBox(b1, x4, b2.maxY);
  }

  /** The window the constructor keeps.  Without trimming it is the whole
      image; with trimming it is the tight box of the opaque pixels, and
      when there is none the whole image again, except that the fallback
      test only fires when the image is at least 2 pixels wide or high. */
  ghost predicate TrimBox(img: Image, trim: bool, b: Box)
  {
    if !trim then b == FullFrame(img)
    else if HasOpaque(img) then TightBox(img, b)
    else b == (if img.width >= 2 || img.height >= 2 then FullFrame(img) else Box(img.width - 1, img.height - 1, 0, 0))
  }

  /** Trimming is asked of an image other than 0 x 0, 1 x 0 and 0 x 1. */
  predicate TrimSafe(tex: TexHandle, trim: bool)
  {
    trim && tex.Width <= 1 && tex.Height <= 1 ==> tex.Width == 1 && tex.Height == 1
  }

  /** The kept window lies inside a non-empty image, so the trimmed size is
      at least 1 x 1 and at most the image size; it is the whole image when
      nothing is trimmed or nothing is opaque. */
  lemma TrimBoxInside(img: Image, trim: bool, b: Box)
    requires ValidImage(img) && TrimBox(img, trim, b)
    requires 1 <= img.width && 1 <= img.height
    ensures 0 <= b.minX <= b.maxX < img.width && 0 <= b.minY <= b.maxY < img.height
    ensures 1 <= b.maxX - b.minX + 1 <= img.width && 1 <= b.maxY - b.minY + 1 <= img.height
    ensures !trim || !HasOpaque(img) ==> b == FullFrame(img)
  {
    if trim && HasOpaque(img) {
      var y1 :| Opaque(img, b.minX, y1);
      var y2 :| Opaque(img, b.maxX, y2);
      var x1 :| Opaque(img, x1, b.minY);
      var x2 :| Opaque(img, x2, b.maxY);
      assert InBox(b, b.minX, y1) && InBox(b, x1, b.minY);
    }
  }

  /** An image with a zero side keeps its full, empty frame, unless it is
      one of the shapes TrimSafe excludes. */
  lemma TrimBoxEmptyImage(img: Image, trim: bool, b: Box)
    requires TrimBox(img, trim, b)
    requires !(trim && img.width <= 1 && img.height <= 1) || (img.width == 1 && img.height == 1)
    requires img.width == 0 || img.height == 0
    ensures b == FullFrame(img)
  {
  }

  /** The three shapes TrimSafe excludes: the bounds scan leaves a 2-pixel
      window that starts before the image, so the copy would read pixel -1
      or past the end of an empty buffer. */
  lemma TrimOfEmptyImageOverruns(img: Image)
    requires img.pixels == [] && img.width <= 1 && img.height <= 1 && img.width * img.height == 0
    ensures var b := Box(img.width - 1, img.height - 1, 0, 0);
      && TrimBox(img, true, b)
      && (b.maxX - b.minX + 1 == 2 || b.maxY - b.minY + 1 == 2)
      && (b.minX < 0 || b.minY < 0)
  {
    assert !HasOpaque(img);
  }

  /** Pixels scanned before (x, y) in row-major order. */
  predicate ScannedBefore(px: int, py: int, x: int, y: int)
  {
    py < y || (py == y && px < x)
  }

  /** Rows (for the x edges) and columns (for the y edges) of opaque pixels
      that the edges of the scan box touch. */
  datatype EdgeWitness = EdgeWitness(minXRow: int, maxXRow: int, minYCol: int, maxYCol: int)

  /** The state of the bounds scan after every pixel before (x, y): when an
      opaque pixel has been seen, b is the tight box of those seen so far
      (w names the pixels on its edges); otherwise b still holds its initial
      value. */
  ghost predicate ScanState(img: Image, x: int, y: int, found: bool, b: Box, w: EdgeWitness)
  {
    if found then
      && (forall px, py :: Opaque(img, px, py) && ScannedBefore(px, py, x, y) ==> InBox(b, px, py))
      && Opaque(img, b.minX, w.minXRow) && ScannedBefore(b.minX, w.minXRow, x, y)
      && Opaque(img, b.maxX, w.maxXRow) && ScannedBefore(b.maxX, w.maxXRow, x, y)
      && Opaque(img, w.minYCol, b.minY) && ScannedBefore(w.minYCol, b.minY, x, y)
      && Opaque(img, w.maxYCol, b.maxY) && ScannedBefore(w.maxYCol, b.maxY, x, y)
    else
      && b == Box(img.width - 1, img.height - 1, 0, 0)
      && forall px, py :: Opaque(img, px, py) ==> !ScannedBefore(px, py, x, y)
  }

  /** Taking in opaque pixel (x, y) grows the box to hold it. */
  lemma ScanOpaque(img: Image, x: int, y: int, found: bool, b: Box, w: EdgeWitness) returns (w': EdgeWitness)
    requires ScanState(img, x, y, found, b, w) && Opaque(img, x, y)
    ensures ScanState(img, x + 1, y, true,
              Box(if x < b.minX then x else b.minX, if y < b.minY then y else b.minY,
                  if x > b.maxX then x else b.maxX, if y > b.maxY then y else b.maxY), w')
  {
    if found {
      w' := EdgeWitness(if x < b.minX then y else w.minXRow, if x > b.maxX then y else w.maxXRow,
                        if y < b.minY then x else w.minYCol, if y > b.maxY then x else w.maxYCol);
    } else {
      w' := EdgeWitness(y, y, x, x);
    }
  }

  /** Taking in any other pixel changes nothing. */
  lemma ScanTransparent(img: Image, x: int, y: int, found: bool, b: Box, w: EdgeWitness)
    requires ScanState(img, x, y, found, b, w) && !Opaque(img, x, y)
    ensures ScanState(img, x + 1, y, found, b, w)
  {
  }

  /** The end of a row is the start of the next. */
  lemma ScanNextRow(img: Image, y: int, found: bool, b: Box, w: EdgeWitness)
    requires ScanState(img, img.width, y, found, b, w)
    ensures ScanState(img, 0, y + 1, found, b, w)
  {
  }

  /** After the last row the scan box is the tight box, or the initial
      value when nothing is opaque. */
  lemma ScanComplete(img: Image, found: bool, b: Box, w: EdgeWitness)
    requires ScanState(img, 0, img.height, found, b, w)
    ensures found <==> HasOpaque(img)
    ensures found ==> TightBox(img, b)
    ensures !found ==> b == Box(img.width - 1, img.height - 1, 0, 0)
  {
    if HasOpaque(img) {
      var x, y :| Opaque(img, x, y);
      assert ScannedBefore(x, y, 0, img.height);
    }
  }

  /** One row of the bounds scan: every pixel of row y taken in, left to
      right. */
  method ScanRow(tex: TexHandle, y: int, b0: Box, ghost found0: bool, ghost w0: EdgeWitness)
      returns (b: Box, ghost found: bool, ghost w: EdgeWitness)
    requires ValidTex(tex) && 0 <= y < tex.Height
    requires ScanState(Snapshot(tex), 0, y, found0, b0, w0)
    ensures ScanState(Snapshot(tex), 0, y + 1, found, b, w)
  {
    ghost var img := Snapshot(tex);
    b, found, w := b0, found0, w0;
    var x := 0;
    while x < tex.Width
      invariant 0 <= x <= tex.Width
      invariant ScanState(img, x, y, found, b, w)
    {
      IndexInGrid(x, y, tex.Width, tex.Height);
      var p := tex.Data[GridIndex(x, y, tex.Width)];
      assert p == PixelAt(img, x, y);
      if (p >> 24) > 0 {
        w := ScanOpaque(img, x, y, found, b, w);
        b := Box(if x < b.minX then x else b.minX, if y < b.minY then y else b.minY,
                 if x > b.maxX then x else b.maxX, if y > b.maxY then y else b.maxY);
        found := true;
      } else {
        ScanTransparent(img, x, y, found, b, w);
      }
      x := x + 1;
    }
    ScanNextRow(img, y, found, b, w);
  }

  /** The bounds computation of the constructor: the scan for opaque pixels
      when trimming, the transparent-image fallback, or the full frame. */
  method PixelBounds(tex: TexHandle, trim: bool) returns (b: Box)
    requires ValidTex(tex)
    ensures TrimBox(Snapshot(tex), trim, b)
  {
    ghost var img := Snapshot(tex);
    if trim {
      ghost var found := false;
      ghost var w := EdgeWitness(0, 0, 0, 0);
      b := Box(tex.Width - 1, tex.Height - 1, 0, 0);
      var y := 0;
      while y < tex.Height
        invariant 0 <= y <= tex.Height
        invariant ScanState(img, 0, y, found, b, w)
      {
        b, found, w := ScanRow(tex, y, b, found, w);
        y := y + 1;
      }
      ScanComplete(img, found, b, w);
      if b.maxX < b.minX || b.maxY < b.minY {
        b := Box(0, 0, tex.Width - 1, tex.Height - 1);
      }
    } else {
      b := Box(0, 0, tex.Width - 1, tex.Height - 1);
    }
  }

  /** Pixel (x, y) of img sits in buf, a buffer w pixels wide whose origin is
      pixel (x0, y0) of img. */
  predicate CopiedAt(buf: seq<bv32>, w: int, x0: int, y0: int, img: Image, x: int, y: int)
  {
    && ValidImage(img) && InImage(img, x, y)
    && 0 <= GridIndex(x - x0, y - y0, w) < |buf|
    && buf[GridIndex(x - x0, y - y0, w)] == PixelAt(img, x, y)
  }

  /** Every pixel of window b before (x, y) is in buf. */
  ghost predicate CopiedBefore(buf: seq<bv32>, b: Box, img: Image, x: int, y: int)
  {
    forall px, py :: InBox(b, px, py) && ScannedBefore(px, py, x, y) ==>
      CopiedAt(buf, b.maxX - b.minX + 1, b.minX, b.minY, img, px, py)
  }

  /** Writing pixel (x, y) into its place keeps the pixels already copied. */
  lemma CopyStep(buf: seq<bv32>, b: Box, img: Image, x: int, y: int)
    requires ValidImage(img) && 0 <= b.minX && b.maxX < img.width && 0 <= b.minY && b.maxY < img.height
    requires InBox(b, x, y) && |buf| == (b.maxX - b.minX + 1) * (b.maxY - b.minY + 1)
    requires CopiedBefore(buf, b, img, x, y)
    ensures 0 <= GridIndex(x - b.minX, y - b.minY, b.maxX - b.minX + 1) < |buf|
    ensures CopiedBefore(buf[GridIndex(x - b.minX, y - b.minY, b.maxX - b.minX + 1) := PixelAt(img, x, y)], b, img, x + 1, y)
  {
    var w := b.maxX - b.minX + 1;
    IndexInGrid(x - b.minX, y - b.minY, w, b.maxY - b.minY + 1);
    var i := GridIndex(x - b.minX, y - b.minY, w);
    var buf' := buf[i := PixelAt(img, x, y)];
    forall px, py | InBox(b, px, py) && ScannedBefore(px, py, x + 1, y)
      ensures CopiedAt(buf', w, b.minX, b.minY, img, px, py)
    {
      if px != x || py != y {
        GridIndexInjective(px - b.minX, py - b.minY, x - b.minX, y - b.minY, w);
      }
    }
  }

  /** The end of a row of the window is the start of the next. */
  lemma CopyNextRow(buf: seq<bv32>, b: Box, img: Image, y: int)
    requires CopiedBefore(buf, b, img, b.maxX + 1, y)
    ensures CopiedBefore(buf, b, img, b.minX, y + 1)
  {
  }

  /** Copy row y of window b of tex into its place in data. */
  method CopyRow(tex: TexHandle, b: Box, data: array<bv32>, y: int)
    requires ValidTex(tex) && data != tex.Data
    requires 0 <= b.minX <= b.maxX < tex.Width && b.minY <= y <= b.maxY < tex.Height && 0 <= b.minY
    requires data.Length == (b.maxX - b.minX + 1) * (b.maxY - b.minY + 1)
    requires CopiedBefore(data[..], b, Snapshot(tex), b.minX, y)
    modifies data
    ensures CopiedBefore(data[..], b, Snapshot(tex), b.minX, y + 1)
  {
    ghost var img := Snapshot(tex);
    var width := b.maxX - b.minX + 1;
    var x := b.minX;
    while x <= b.maxX
      invariant b.minX <= x <= b.maxX + 1
      invariant CopiedBefore(data[..], b, img, x, y)
    {
      ghost var before := data[..];
      CopyStep(before, b, img, x, y);
      IndexInGrid(x, y, tex.Width, tex.Height);
      var i := GridIndex(x - b.minX, y - b.minY, width);
      var p := tex.Data[GridIndex(x, y, tex.Width)];
      data[i] := p;
      assert data[..] == before[i := PixelAt(img, x, y)];
      x := x + 1;
    }
    CopyNextRow(data[..], b, img, y);
  }

  /** Copy window b of tex into a new buffer of its size. */
  method CopyWindow(tex: TexHandle, b: Box) returns (data: array<bv32>)
    requires ValidTex(tex)
    requires 0 <= b.minX <= b.maxX < tex.Width && 0 <= b.minY <= b.maxY < tex.Height
    ensures fresh(data)
    ensures data.Length == (b.maxX - b.minX + 1) * (b.maxY - b.minY + 1)
    ensures CopiedBefore(data[..], b, Snapshot(tex), b.minX, b.maxY + 1)
  {
    data := new bv32[(b.maxX - b.minX + 1) * (b.maxY - b.minY + 1)];
    var y := b.minY;
    while y <= b.maxY
      invariant b.minY <= y <= b.maxY + 1
      invariant CopiedBefore(data[..], b, Snapshot(tex), b.minX, y)
    {
      CopyRow(tex, b, data, y);
      y := y + 1;
    }
  }

  /** An image ready for packing: Data holds Width x Height pixels of the
      kept window, which sits at (-FrameX, -FrameY) in the FrameW x FrameH
      original.  Data is compared by reference, as the C# code compares the
      buffer address. */
  datatype PackerBitmap = PackerBitmap(
    Data: array<bv32>,
    Width: int,
    Height: int,
    Name: string,
    FrameX: int,
    FrameY: int,
    FrameW: int,
    FrameH: int)

  /** The buffer holds Width x Height pixels. */
  predicate WellFormed(bmp: PackerBitmap)
    reads bmp.Data
  {
    0 <= bmp.Width && 0 <= bmp.Height && bmp.Data.Length == bmp.Width * bmp.Height
  }

  /** The constructor PackerBitmap(TexHandle, name, premultiply, trim),
      without the premultiplication.  box is the kept window. */
  method FromTexture(tex: TexHandle, name: string, trim: bool) returns (bmp: PackerBitmap, ghost box: Box)
    requires ValidTex(tex) && TrimSafe(tex, trim)
    ensures TrimBox(Snapshot(tex), trim, box)
    ensures WellFormed(bmp)
    ensures bmp.Name == name && bmp.FrameW == tex.Width && bmp.FrameH == tex.Height
    ensures bmp.Width == box.maxX - box.minX + 1 && bmp.Height == box.maxY - box.minY + 1
    ensures bmp.Width == tex.Width && bmp.Height == tex.Height ==>
              bmp.Data == tex.Data && bmp.FrameX == 0 && bmp.FrameY == 0
    ensures !(bmp.Width == tex.Width && bmp.Height == tex.Height) ==>
              && fresh(bmp.Data)
              && bmp.FrameX == -box.minX && bmp.FrameY == -box.minY
              && CopiedBefore(bmp.Data[..], box, Snapshot(tex), box.minX, box.maxY + 1)
  {
    var b := PixelBounds(tex, trim);
    box := b;
    var width := b.maxX - b.minX + 1;
    var height := b.maxY - b.minY + 1;
    if tex.Width == 0 || tex.Height == 0 {
      TrimBoxEmptyImage(Snapshot(tex), trim, b);
    } else {
      TrimBoxInside(Snapshot(tex), trim, b);
    }
    if width == tex.Width && height == tex.Height {
      bmp := PackerBitmap(tex.Data, width, height, name, 0, 0, tex.Width, tex.Height);
    } else {
      var data := CopyWindow(tex, b);
      bmp := PackerBitmap(data, width, height, name, -b.minX, -b.minY, tex.Width, tex.Height);
    }
  }

  /** Area of the kept window. */
  function Area(bmp: PackerBitmap): int
  {
    bmp.Width * bmp.Height
  }

  /** CompareTo: -1 when this image is larger, 1 when smaller, 0 when the
      areas are equal. */
  function CompareTo(self: PackerBitmap, other: PackerBitmap): (r: int)
    ensures r == -1 <==> Area(self) > Area(other)
    ensures r == 1 <==> Area(self) < Area(other)
    ensures r == 0 <==> Area(self) == Area(other)
  {
    var areaX := self.Width * self.Height;
    var areaY := other.Width * other.Height;
    if areaX < areaY then 1
    else if areaX > areaY then -1
    else 0
  }

  /** CompareTo is antisymmetric and transitive, a total preorder by
      decreasing area. */
  lemma CompareToOrder(a: PackerBitmap, b: PackerBitmap, c: PackerBitmap)
    ensures CompareTo(a, b) == -CompareTo(b, a)
    ensures CompareTo(a, a) == 0
    ensures CompareTo(a, b) <= 0 && CompareTo(b, c) <= 0 ==> CompareTo(a, c) <= 0
  {
  }

  /** The order List.Sort leaves the images in: no image compares after the
      next one. */
  predicate SortedByCompareTo(s: seq<PackerBitmap>)
  {
    forall i :: 0 <= i < |s| - 1 ==> CompareTo(s[i], s[i + 1]) <= 0
  }

  /** A sorted list has its areas in non-increasing order, so its last image
      is one of the smallest. */
  lemma {:induction false} SortedAreasDescend(s: seq<PackerBitmap>, i: int, j: int)
    requires SortedByCompareTo(s) && 0 <= i <= j < |s|
    ensures Area(s[i]) >= Area(s[j])
    decreases j - i
  {
    if i < j {
      assert CompareTo(s[i], s[i + 1]) <= 0;
      SortedAreasDescend(s, i + 1, j);
    }
  }

  /** Equals: field by field, the buffer by reference. */
  function Equals(self: PackerBitmap, other: PackerBitmap): (r: bool)
    ensures r <==> self == other
  {
    self.Data == other.Data &&
    self.Width == other.Width &&
    self.Height == other.Height &&
    self.Name == other.Name &&
    self.FrameX == other.FrameX &&
    self.FrameY == other.FrameY &&
    self.FrameW == other.FrameW &&
    self.FrameH == other.FrameH
  }

  /** operator == */
  function EqualOp(left: PackerBitmap, right: PackerBitmap): (r: bool)
    ensures r <==> left == right
  {
    Equals(left, right)
  }

  /** operator != */
  function NotEqualOp(left: PackerBitmap, right: PackerBitmap): (r: bool)
    ensures r <==> left != right
  {
    !EqualOp(left, right)
  }

  /** Equality is reflexive and symmetric, and != is the negation of ==. */
  lemma EqualsLaws(a: PackerBitmap, b: PackerBitmap)
    ensures Equals(a, a)
    ensures Equals(a, b) == Equals(b, a)
    ensures NotEqualOp(a, b) == !EqualOp(a, b)
  {
  }
}
