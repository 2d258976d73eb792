/**
 * The face-crop rectangle of cropFace: a square centred on the detected box,
 * padded by padRatio, truncated to whole pixels, clamped to the source bitmap,
 * cut out of the source and scaled to size x size.
 *
 * Float arithmetic is modelled over the reals: padRatio and the centre and
 * half-side are reals, and Float.toInt() is truncation toward zero.
 */
module ImageUtils {
  import opened Wrappers

  function Max(a: int, b: int): int { if a >= b then a else b }

  function Min(a: int, b: int): int { if a <= b then a else b }

  /** android.graphics.Rect; its edges are not required to be sorted. */
  datatype Rect = Rect(left: int, top: int, right: int, bottom: int) {

    /** centerX() is (left + right) >> 1: the midpoint rounded down. */
    function CenterX(): (c: int)
      ensures 2 * c <= left + right <= 2 * c + 1
    {
      (left + right) / 2
    }

    /** centerY() is (top + bottom) >> 1: the midpoint rounded down. */
    function CenterY(): (c: int)
      ensures 2 * c <= top + bottom <= 2 * c + 1
    {
      (top + bottom) / 2
    }

    function Width(): int { right - left }

    function Height(): int { bottom - top }
  }

  /** Float.toInt(): the integer part, rounding toward zero. */
  function Truncate(x: real): (n: int)
    ensures 0.0 <= x ==> n as real <= x < n as real + 1.0
    ensures x < 0.0 ==> n as real - 1.0 < x <= n as real
  {
    if x >= 0.0 then x.Floor else -((-x).Floor)
  }

  /** Half the side of the padded square: the larger box side times (1 + padRatio), halved. */
  function HalfSide(box: Rect, padRatio: real): real
  {
    Max(box.Width(), box.Height()) as real * (1.0 + padRatio) / 2.0
  }

  /** A square in real coordinates, before truncation and clamping. */
  datatype Square = Square(left: real, top: real, right: real, bottom: real)

  /** The padded square: centred on the box's centre, side 2 * HalfSide. */
  function PaddedSquare(box: Rect, padRatio: real): (sq: Square)
    ensures sq.right - sq.left == sq.bottom - sq.top == 2.0 * HalfSide(box, padRatio)
    ensures sq.left + sq.right == 2.0 * box.CenterX() as real
    ensures sq.top + sq.bottom == 2.0 * box.CenterY() as real
  {
    var cx, cy, half := box.CenterX() as real, box.CenterY() as real, HalfSide(box, padRatio);
    Square(cx - half, cy - half, cx + half, cy + half)
  }

  /**
   * With a non-negative padding, the padded square covers a well-formed box,
   * up to the half pixel lost by rounding the centre down.
   */
  lemma PaddedSquareCoversBox(box: Rect, padRatio: real)
    requires box.left <= box.right && box.top <= box.bottom
    requires 0.0 <= padRatio
    ensures PaddedSquare(box, padRatio).left <= box.left as real
    ensures PaddedSquare(box, padRatio).top <= box.top as real
    ensures box.right as real <= PaddedSquare(box, padRatio).right + 0.5
    ensures box.bottom as real <= PaddedSquare(box, padRatio).bottom + 0.5
  {
    var m := Max(box.Width(), box.Height()) as real;
    assert m >= 0.0;
    assert m * padRatio >= 0.0;
    assert m * (1.0 + padRatio) == m + m * padRatio;
    assert HalfSide(box, padRatio) >= box.Width() as real / 2.0;
    assert HalfSide(box, padRatio) >= box.Height() as real / 2.0;
  }

  /** The crop edges: each truncated edge of the padded square, clamped into the source. */
  function ClampedEdges(sourceWidth: int, sourceHeight: int, box: Rect, padRatio: real): (e: Rect)
    ensures e.left >= 0 && e.top >= 0
    ensures e.right <= sourceWidth - 1 && e.bottom <= sourceHeight - 1
  {
    var sq := PaddedSquare(box, padRatio);
    Rect(Max(Truncate(sq.left), 0), Max(Truncate(sq.top), 0),
         Min(Truncate(sq.right), sourceWidth - 1), Min(Truncate(sq.bottom), sourceHeight - 1))
  }

  /** The (x, y, width, height) handed to Bitmap.createBitmap. */
  datatype Window = Window(x: int, y: int, width: int, height: int)

  /**
   * The crop window: from the clamped top-left corner, with width and height
   * right - left and bottom - top forced up to at least 1.
   */
  function CropWindow(sourceWidth: int, sourceHeight: int, box: Rect, padRatio: real): (w: Window)
    ensures w.x >= 0 && w.y >= 0 && w.width >= 1 && w.height >= 1
    ensures var e := ClampedEdges(sourceWidth, sourceHeight, box, padRatio);
      w.x == e.left && w.y == e.top &&
      (e.right > e.left ==> w.x + w.width == e.right) &&
      (e.right <= e.left ==> w.width == 1) &&
      (e.bottom > e.top ==> w.y + w.height == e.bottom) &&
      (e.bottom <= e.top ==> w.height == 1)
  {
    var e := ClampedEdges(sourceWidth, sourceHeight, box, padRatio);
    Window(e.left, e.top, Max(e.right - e.left, 1), Max(e.bottom - e.top, 1))
  }

  /**
   * When the padding adds at least a pixel to the larger box side, the crop
   * window covers the part of the box inside the source; when the truncated
   * square needs no clamping, the clamped edges are that square.
   */
  lemma CropWindowCoversBox(sourceWidth: int, sourceHeight: int, box: Rect, padRatio: real)
    requires box.left <= box.right && box.top <= box.bottom
    requires 0.0 <= padRatio && 1.0 <= Max(box.Width(), box.Height()) as real * padRatio
    ensures var w := CropWindow(sourceWidth, sourceHeight, box, padRatio);
      w.x <= Max(box.left, 0) && w.y <= Max(box.top, 0) &&
      Min(box.right, sourceWidth - 1) <= w.x + w.width && Min(box.bottom, sourceHeight - 1) <= w.y + w.height
    ensures var sq := PaddedSquare(box, padRatio);
      0 <= Truncate(sq.left) && 0 <= Truncate(sq.top) &&
      Truncate(sq.right) <= sourceWidth - 1 && Truncate(sq.bottom) <= sourceHeight - 1 ==>
      ClampedEdges(sourceWidth, sourceHeight, box, padRatio) ==
        Rect(Truncate(sq.left), Truncate(sq.top), Truncate(sq.right), Truncate(sq.bottom))
  {
    var sq := PaddedSquare(box, padRatio);
    PaddedSquareContainsBox(box, padRatio, sq);
    TruncateBetween(sq.left, box.left);
    TruncateBetween(sq.top, box.top);
    TruncateBetween(sq.right, box.right);
    TruncateBetween(sq.bottom, box.bottom);
  }

  /** A padding of at least a pixel makes the padded square contain the box outright. */
  lemma PaddedSquareContainsBox(box: Rect, padRatio: real, sq: Square)
    requires box.left <= box.right && box.top <= box.bottom
    requires 0.0 <= padRatio && 1.0 <= Max(box.Width(), box.Height()) as real * padRatio
    requires sq == PaddedSquare(box, padRatio)
    ensures sq.left <= box.left as real && sq.top <= box.top as real
    ensures box.right as real <= sq.right && box.bottom as real <= sq.bottom
  {
    var m := Max(box.Width(), box.Height()) as real;
    assert m * (1.0 + padRatio) == m + m * padRatio;
    assert 2.0 * HalfSide(box, padRatio) >= m + 1.0;
  }

  /** Truncation stays on the same side of an integer as its argument. */
  lemma TruncateBetween(x: real, n: int)
    ensures x <= n as real ==> Truncate(x) <= n
    ensures n as real <= x ==> n <= Truncate(x)
  {
  }

  /** Bitmap.createBitmap(source, x, y, width, height) accepts exactly the windows inside the source. */
  predicate InsideSource(sourceWidth: int, sourceHeight: int, w: Window)
  {
    0 <= w.x && 0 <= w.y && 0 < w.width && 0 < w.height &&
    w.x + w.width <= sourceWidth && w.y + w.height <= sourceHeight
  }

  /**
   * The failures: createBitmap's for a window outside the source, and this
   * model's own error for a size that is not positive (both callers pass 160).
   */
  datatype CropError = WindowOutsideSource | NonPositiveSize

  /** What cropFace returns: the window cut out of the source and the size it is scaled to. */
  datatype Crop = Crop(window: Window, width: int, height: int)

  /**
   * cropFace: cut the window out of the source, failing as createBitmap does
   * when it does not lie inside, then scale it to size x size. A size that is
   * not positive is treated as an error; no caller passes one, the enrol
   * screen taking the default 160 and the verify screen passing 160.
   */
  function CropFace(sourceWidth: int, sourceHeight: int, box: Rect, padRatio: real, size: int): (r: Result<Crop, CropError>)
    ensures var w := CropWindow(sourceWidth, sourceHeight, box, padRatio);
      (r.Ok? <==> InsideSource(sourceWidth, sourceHeight, w) && size > 0) &&
      (!InsideSource(sourceWidth, sourceHeight, w) ==> r == Err(WindowOutsideSource)) &&
      (r.Ok? ==> r.value == Crop(w, size, size))
  {
    var w := CropWindow(sourceWidth, sourceHeight, box, padRatio);
    if !InsideSource(sourceWidth, sourceHeight, w) then Err(WindowOutsideSource)
    else if size <= 0 then Err(NonPositiveSize)
    else Ok(Crop(w, size, size))
  }

  /**
   * When the clamped edges are ordered, the window ends exactly at the clamped
   * right and bottom edges, one pixel short of the source's last column and row,
   * so the crop succeeds and is square-scaled whatever its aspect ratio.
   */
  lemma CropInsideWhenEdgesOrdered(sourceWidth: int, sourceHeight: int, box: Rect, padRatio: real, size: int)
    requires var e := ClampedEdges(sourceWidth, sourceHeight, box, padRatio); e.left < e.right && e.top < e.bottom
    requires size > 0
    ensures var w := CropWindow(sourceWidth, sourceHeight, box, padRatio);
      w.x + w.width <= sourceWidth - 1 && w.y + w.height <= sourceHeight - 1 &&
      CropFace(sourceWidth, sourceHeight, box, padRatio, size) == Ok(Crop(w, size, size))
  {
  }

  /**
   * cropFace has no guard for a padded square that lies wholly past the right
   * or bottom edge: it fails exactly when the clamped left edge is at or past
   * the source width, or the clamped top edge at or past its height.
   */
  lemma CropFailsIffPastEdge(sourceWidth: int, sourceHeight: int, box: Rect, padRatio: real, size: int)
    requires size > 0
    ensures var e := ClampedEdges(sourceWidth, sourceHeight, box, padRatio);
      CropFace(sourceWidth, sourceHeight, box, padRatio, size).Err? <==>
      e.left >= sourceWidth || e.top >= sourceHeight
  {
    var e := ClampedEdges(sourceWidth, sourceHeight, box, padRatio);
    var w := CropWindow(sourceWidth, sourceHeight, box, padRatio);
    if e.right > e.left {
      assert w.x + w.width <= sourceWidth - 1;
    } else {
      assert w.x + w.width == e.left + 1;
    }
    if e.bottom > e.top {
      assert w.y + w.height <= sourceHeight - 1;
    } else {
      assert w.y + w.height == e.top + 1;
    }
  }

  /**
   * A face box wholly to the right of a 100 x 100 source: the window starts at
   * x = 147 with width 1, and cropping fails.
   */
  lemma CropFailsForBoxPastRightEdge()
    ensures CropWindow(100, 100, Rect(150, 10, 170, 30), 0.25) == Window(147, 7, 1, 25)
    ensures CropFace(100, 100, Rect(150, 10, 170, 30), 0.25, 160) == Err(WindowOutsideSource)
  {
    var box := Rect(150, 10, 170, 30);
    assert HalfSide(box, 0.25) == 12.5;
    assert PaddedSquare(box, 0.25) == Square(147.5, 7.5, 172.5, 32.5);
    assert Truncate(147.5) == 147 && Truncate(7.5) == 7 && Truncate(172.5) == 172 && Truncate(32.5) == 32;
    assert ClampedEdges(100, 100, box, 0.25) == Rect(147, 7, 99, 32);
  }
}
