/**
 * FaceEmbedder: the 160 x 160 packed-ARGB pixels become a 1 x 160 x 160 x 3
 * float tensor, the model's 128 outputs are L2-normalised once, and two
 * embeddings are compared by cosine similarity.
 *
 * Arithmetic is over the reals. The square root is a parameter: all the
 * model needs of it is that it is non-negative on non-negative arguments,
 * and the lemmas that need it to be a true square root say so.
 */
module FaceEmbedder {
  import opened Wrappers

  const InputSize: int := 160
  const PixelCount: int := InputSize * InputSize
  /** Floats in the input tensor of shape [1, 160, 160, 3]. */
  const TensorLength: int := 1 * InputSize * InputSize * 3
  /** Bytes allocated for the input buffer, four per float. */
  const TensorBytes: int := TensorLength * 4
  const EmbeddingDim: int := 128
  /** The 1e-10 guarding the divisions, taken as an exact real. */
  const Eps: real := 0.0000000001

  /** A Kotlin Int. */
  type Int32 = x: int | -0x8000_0000 <= x < 0x8000_0000

  // ---------------------------------------------------------------------------
  // Channels of a packed ARGB pixel

  /** Bits 24-31: the alpha byte (its sign folded back to 0..255). */
  function Alpha(p: Int32): int { (p / 0x100_0000) % 0x100 }

  /** p shr 16 and 0xFF: an arithmetic shift is floor division, and the mask keeps the residue mod 256. */
  function Red(p: Int32): (r: int)
    ensures 0 <= r < 0x100
    ensures r == (p % 0x1_0000_0000) / 0x1_0000 % 0x100
  {
    var u := p % 0x1_0000_0000;
    assert p < 0 ==> u == p + 0x1_0000_0000 && u / 0x1_0000 == p / 0x1_0000 + 0x1_0000;
    (p / 0x1_0000) % 0x100
  }

  /** p shr 8 and 0xFF. */
  function Green(p: Int32): (g: int)
    ensures 0 <= g < 0x100
    ensures g == (p % 0x1_0000_0000) / 0x100 % 0x100
  {
    var u := p % 0x1_0000_0000;
    assert p < 0 ==> u == p + 0x1_0000_0000 && u / 0x100 == p / 0x100 + 0x100_0000;
    (p / 0x100) % 0x100
  }

  /** p and 0xFF. */
  function Blue(p: Int32): (b: int)
    ensures 0 <= b < 0x100
    ensures b == (p % 0x1_0000_0000) % 0x100
  {
    var u := p % 0x1_0000_0000;
    assert p < 0 ==> u == p + 0x1_0000_0000;
    p % 0x100
  }

  /** The Kotlin Int holding the bytes a, r, g, b, most significant first (two's complement). */
  function Argb(a: int, r: int, g: int, b: int): Int32
    requires 0 <= a < 0x100 && 0 <= r < 0x100 && 0 <= g < 0x100 && 0 <= b < 0x100
  {
    var u := a * 0x100_0000 + r * 0x1_0000 + g * 0x100 + b;
    if u < 0x8000_0000 then u else u - 0x1_0000_0000
  }

  /** The three channels read back exactly the red, green and blue bytes, whatever the alpha byte. */
  lemma ChannelsOfArgb(a: int, r: int, g: int, b: int)
    requires 0 <= a < 0x100 && 0 <= r < 0x100 && 0 <= g < 0x100 && 0 <= b < 0x100
    ensures Red(Argb(a, r, g, b)) == r
    ensures Green(Argb(a, r, g, b)) == g
    ensures Blue(Argb(a, r, g, b)) == b
    ensures Alpha(Argb(a, r, g, b)) == a
  {
    var p: int := Argb(a, r, g, b);
    var u := a * 0x100_0000 + r * 0x1_0000 + g * 0x100 + b;
    assert p % 0x1_0000_0000 == u;
    UnsignedBytes(a, r, g, b, u);
    var k := if u < 0x8000_0000 then 0 else 1;
    assert p == (a - 0x100 * k) * 0x100_0000 + (u - a * 0x100_0000);
    assert p / 0x100_0000 == a - 0x100 * k;
  }

  /** The bytes of the unsigned word a r g b, most significant first. */
  lemma UnsignedBytes(a: int, r: int, g: int, b: int, u: int)
    requires 0 <= a < 0x100 && 0 <= r < 0x100 && 0 <= g < 0x100 && 0 <= b < 0x100
    requires u == a * 0x100_0000 + r * 0x1_0000 + g * 0x100 + b
    ensures u / 0x1_0000 % 0x100 == r && u / 0x100 % 0x100 == g && u % 0x100 == b
  {
    assert u == ((a * 0x100 + r) * 0x100 + g) * 0x100 + b;
    assert u / 0x100 == (a * 0x100 + r) * 0x100 + g;
    assert u / 0x1_0000 == a * 0x100 + r;
  }

  /** Every Kotlin Int is the packing of its four channel bytes. */
  lemma ArgbOfChannels(p: Int32)
    ensures 0 <= Alpha(p) < 0x100 && 0 <= Red(p) < 0x100 && 0 <= Green(p) < 0x100 && 0 <= Blue(p) < 0x100
    ensures p == Argb(Alpha(p), Red(p), Green(p), Blue(p))
  {
    var q1, q2, q3 := p / 0x100, p / 0x1_0000, p / 0x100_0000;
    assert p == q1 * 0x100 + Blue(p);
    assert q1 == (p / 0x100) && q2 == q1 / 0x100 && q3 == q2 / 0x100;
    assert q1 == q2 * 0x100 + Green(p);
    assert q2 == q3 * 0x100 + Red(p);
    assert -0x80 <= q3 < 0x80;
    assert q3 == Alpha(p) || q3 == Alpha(p) - 0x100;
  }

  // ---------------------------------------------------------------------------
  // The input tensor

  /** (c - 128f) / 128f, exact in binary32 for a byte c. */
  function ChannelValue(c: int): (v: real)
    requires 0 <= c < 0x100
    ensures -1.0 <= v <= 127.0 / 128.0
  {
    (c as real - 128.0) / 128.0
  }

  /** The three floats one pixel contributes, in R, G, B order. */
  function PixelFloats(p: Int32): seq<real>
  {
    [ChannelValue(Red(p)), ChannelValue(Green(p)), ChannelValue(Blue(p))]
  }

  /** The tensor the pixel loop writes: the pixels' floats in getPixels (row-major) order. */
  function Tensor(pixels: seq<Int32>): (t: seq<real>)
    ensures |t| == 3 * |pixels|
  {
    if pixels == [] then [] else Tensor(pixels[..|pixels| - 1]) + PixelFloats(pixels[|pixels| - 1])
  }

  /** Pixel k's R, G and B land at positions 3k, 3k+1 and 3k+2. */
  lemma {:induction false} TensorAt(pixels: seq<Int32>, k: int)
    requires 0 <= k < |pixels|
    ensures Tensor(pixels)[3 * k] == ChannelValue(Red(pixels[k]))
    ensures Tensor(pixels)[3 * k + 1] == ChannelValue(Green(pixels[k]))
    ensures Tensor(pixels)[3 * k + 2] == ChannelValue(Blue(pixels[k]))
  {
    var n := |pixels|;
    var init := pixels[..n - 1];
    if k < n - 1 {
      TensorAt(init, k);
      assert init[k] == pixels[k];
    }
  }

  /** Every tensor value lies in [-1, 127/128]. */
  lemma TensorRange(pixels: seq<Int32>, i: int)
    requires 0 <= i < |Tensor(pixels)|
    ensures -1.0 <= Tensor(pixels)[i] <= 127.0 / 128.0
  {
    TensorAt(pixels, i / 3);
  }

  /** The alpha byte never reaches the tensor. */
  lemma TensorIgnoresAlpha(a: int, a': int, r: int, g: int, b: int)
    requires 0 <= a < 0x100 && 0 <= a' < 0x100 && 0 <= r < 0x100 && 0 <= g < 0x100 && 0 <= b < 0x100
    ensures PixelFloats(Argb(a, r, g, b)) == PixelFloats(Argb(a', r, g, b))
    ensures Argb(a, r, g, b) != Argb(a', r, g, b) <==> a != a'
  {
    ChannelsOfArgb(a, r, g, b);
    ChannelsOfArgb(a', r, g, b);
  }

  /**
   * The float buffer allocateDirect returns: room for capacity / 4 floats,
   * and a position that putFloat advances one float at a time.
   */
  class TensorBuffer {
    const capacity: nat
    var floats: array<real>
    var position: nat

    ghost predicate Valid()
      reads this
    {
      floats.Length == capacity / 4 && position <= floats.Length
    }

    /** ByteBuffer.allocateDirect(capacity): zero-filled, position 0. */
    constructor AllocateDirect(capacity: nat)
      ensures Valid() && fresh(floats)
      ensures this.capacity == capacity && position == 0
      ensures floats[..] == seq(capacity / 4, _ => 0.0)
    {
      this.capacity := capacity;
      floats := new real[capacity / 4](_ => 0.0);
      position := 0;
    }

    /** putFloat: write at the position and advance, or overflow when no room is left. */
    method PutFloat(x: real) returns (ok: bool)
      requires Valid()
      modifies this`position, floats
      ensures Valid() && floats == old(floats)
      ensures ok == (old(position) < floats.Length)
      ensures ok ==> position == old(position) + 1 && floats[..] == old(floats[..])[old(position) := x]
      ensures !ok ==> position == old(position) && floats[..] == old(floats[..])
    {
      ok := position < floats.Length;
      if ok {
        floats[position] := x;
        position := position + 1;
      }
    }

    /** rewind: the position goes back to 0, the contents stay. */
    method Rewind()
      requires Valid()
      modifies this`position
      ensures Valid() && position == 0
    {
      position := 0;
    }
  }

  /** The loop body of preprocess: the pixel's R, G and B floats, put one after another. */
  method PutPixel(buffer: TensorBuffer, p: Int32)
    requires buffer.Valid() && buffer.position + 3 <= buffer.floats.Length
    modifies buffer`position, buffer.floats
    ensures buffer.Valid() && buffer.floats == old(buffer.floats)
    ensures buffer.position == old(buffer.position) + 3
    ensures buffer.floats[..buffer.position] == old(buffer.floats[..buffer.position]) + PixelFloats(p)
    ensures buffer.floats[buffer.position..] == old(buffer.floats[buffer.position + 3..])
  {
    ghost var before := buffer.floats[..buffer.position];
    var ok1 := buffer.PutFloat(ChannelValue(Red(p)));
    var ok2 := buffer.PutFloat(ChannelValue(Green(p)));
    var ok3 := buffer.PutFloat(ChannelValue(Blue(p)));
    assert ok1 && ok2 && ok3;
    assert buffer.floats[..buffer.position] == before + PixelFloats(p);
  }

  /**
   * preprocess, from the 160 x 160 pixels onward: three putFloats per pixel,
   * then rewind. The buffer holds exactly the tensor of the pixels.
   */
  method Preprocess(pixels: array<Int32>) returns (buffer: TensorBuffer)
    requires pixels.Length == PixelCount
    ensures fresh(buffer) && fresh(buffer.floats) && buffer.Valid()
    ensures buffer.capacity == TensorBytes && buffer.position == 0
    ensures buffer.floats[..] == Tensor(pixels[..])
  {
    buffer := new TensorBuffer.AllocateDirect(1 * InputSize * InputSize * 3 * 4);
    for i := 0 to pixels.Length
      invariant buffer.Valid() && fresh(buffer) && fresh(buffer.floats)
      invariant buffer.capacity == TensorBytes
      invariant buffer.position == 3 * i
      invariant buffer.floats[..3 * i] == Tensor(pixels[..i])
    {
      PutPixel(buffer, pixels[i]);
      assert pixels[..i + 1][..i] == pixels[..i];
    }
    assert pixels[..pixels.Length] == pixels[..];
    buffer.Rewind();
  }

  // ---------------------------------------------------------------------------
  // Vector arithmetic

  /** The dot product, accumulated from index 0 upward. */
  function Dot(a: seq<real>, b: seq<real>): (r: real)
    requires |a| == |b|
    ensures a == b ==> r >= 0.0
  {
    if a == [] then 0.0
    else
      var x, y := a[|a| - 1], b[|b| - 1];
      assert a == b ==> x * y >= 0.0;
      Dot(a[..|a| - 1], b[..|b| - 1]) + x * y
  }

  /** The sum of squares Σ v[i]^2, never negative. */
  function SumSquares(v: seq<real>): (s: real)
    ensures s >= 0.0
  {
    Dot(v, v)
  }

  lemma {:induction false} DotSymmetric(a: seq<real>, b: seq<real>)
    requires |a| == |b|
    ensures Dot(a, b) == Dot(b, a)
  {
    if a != [] {
      DotSymmetric(a[..|a| - 1], b[..|b| - 1]);
      assert a[|a| - 1] * b[|b| - 1] == b[|b| - 1] * a[|a| - 1];
    }
  }

  /** Scaling every element by c scales the sum of squares by c^2. */
  lemma {:induction false} SumSquaresScaled(u: seq<real>, v: seq<real>, c: real)
    requires |u| == |v|
    requires forall i :: 0 <= i < |u| ==> u[i] == c * v[i]
    ensures SumSquares(u) == c * c * SumSquares(v)
  {
    if u != [] {
      var n := |u|;
      SumSquaresScaled(u[..n - 1], v[..n - 1], c);
      assert u[n - 1] * u[n - 1] == c * c * (v[n - 1] * v[n - 1]);
    }
  }

  /** What the square root parameter must at least do. */
  ghost predicate NonNegativeRoot(sqrt: real -> real)
  {
    forall x :: 0.0 <= x ==> 0.0 <= sqrt(x)
  }

  /** A true square root on the non-negative reals. */
  ghost predicate IsSquareRoot(sqrt: real -> real)
  {
    forall x :: 0.0 <= x ==> 0.0 <= sqrt(x) && sqrt(x) * sqrt(x) == x
  }

  /** The divisor l2Normalize uses: the norm plus 1e-10, always positive. */
  function NormDivisor(v: seq<real>, sqrt: real -> real): (d: real)
    requires NonNegativeRoot(sqrt)
    ensures d >= Eps
  {
    sqrt(SumSquares(v)) + Eps
  }

  /** What l2Normalize returns: every element divided by the norm plus 1e-10. */
  function Normalized(v: seq<real>, sqrt: real -> real): (r: seq<real>)
    requires NonNegativeRoot(sqrt)
    ensures |r| == |v|
    ensures forall i :: 0 <= i < |v| ==> r[i] * NormDivisor(v, sqrt) == v[i]
  {
    var d := NormDivisor(v, sqrt);
    seq(|v|, i requires 0 <= i < |v| => v[i] / d)
  }

  /**
   * The normalised vector's sum of squares is S / (sqrt(S) + 1e-10)^2, so
   * with a true square root it is below 1, and positive for a non-zero input.
   */
  lemma NormalizedSumSquares(v: seq<real>, sqrt: real -> real)
    requires NonNegativeRoot(sqrt)
    ensures var d := NormDivisor(v, sqrt);
      |Normalized(v, sqrt)| == |v| &&
      SumSquares(Normalized(v, sqrt)) == SumSquares(v) / (d * d)
    ensures IsSquareRoot(sqrt) ==>
      0.0 <= SumSquares(Normalized(v, sqrt)) < 1.0 &&
      (SumSquares(v) > 0.0 ==> SumSquares(Normalized(v, sqrt)) > 0.0)
  {
    var d := NormDivisor(v, sqrt);
    var u := Normalized(v, sqrt);
    var c := 1.0 / d;
    forall i | 0 <= i < |u| ensures u[i] == c * v[i] {
      assert u[i] == v[i] / d;
    }
    SumSquaresScaled(u, v, c);
    var s := SumSquares(v);
    assert c * c * s == s / (d * d);
    if IsSquareRoot(sqrt) {
      var n := sqrt(s);
      assert n >= 0.0 && n * n == s;
      RatioBelowOne(s, n, d);
    }
  }

  /** s / (sqrt(s) + 1e-10)^2 lies in [0, 1), and is positive for s > 0. */
  lemma RatioBelowOne(s: real, n: real, d: real)
    requires n >= 0.0 && n * n == s && d == n + Eps
    ensures 0.0 <= s / (d * d) < 1.0
    ensures s > 0.0 ==> s / (d * d) > 0.0
  {
    assert d * d == s + 2.0 * Eps * n + Eps * Eps;
    assert s < d * d;
  }

  /**
   * l2Normalize: accumulate the sum of squares, take its root, and build a new
   * array of the same length holding vec[i] / (norm + 1e-10).
   */
  method L2Normalize(vec: array<real>, sqrt: real -> real) returns (out: array<real>)
    requires NonNegativeRoot(sqrt)
    ensures out.Length == vec.Length
    ensures out[..] == Normalized(vec[..], sqrt)
  {
    var sum := 0.0;
    for i := 0 to vec.Length
      invariant sum == SumSquares(vec[..i])
    {
      assert vec[..i + 1][..i] == vec[..i];
      sum := sum + vec[i] * vec[i];
    }
    assert vec[..vec.Length] == vec[..];
    var norm := sqrt(sum);
    var d := norm + Eps;
    out := new real[vec.Length](i requires 0 <= i < vec.Length reads vec => vec[i] / d);
  }

  /** The cosine similarity: dot / (sqrt(na) * sqrt(nb) + 1e-10). */
  function Cosine(a: seq<real>, b: seq<real>, sqrt: real -> real): (r: real)
    requires |a| == |b|
    requires NonNegativeRoot(sqrt)
    ensures r == 0.0 <==> Dot(a, b) == 0.0
    ensures r > 0.0 <==> Dot(a, b) > 0.0
  {
    var den := sqrt(SumSquares(a)) * sqrt(SumSquares(b)) + Eps;
    assert den > 0.0;
    SignOfQuotient(Dot(a, b), den);
    Dot(a, b) / den
  }

  lemma SignOfQuotient(x: real, d: real)
    requires d > 0.0
    ensures x / d == 0.0 <==> x == 0.0
    ensures x / d > 0.0 <==> x > 0.0
  {
    assert x / d * d == x;
  }

  /** The similarity does not depend on the order of its arguments. */
  lemma CosineSymmetric(a: seq<real>, b: seq<real>, sqrt: real -> real)
    requires |a| == |b|
    requires NonNegativeRoot(sqrt)
    ensures Cosine(a, b, sqrt) == Cosine(b, a, sqrt)
  {
    DotSymmetric(a, b);
    assert sqrt(SumSquares(a)) * sqrt(SumSquares(b)) == sqrt(SumSquares(b)) * sqrt(SumSquares(a));
  }

  /** With a true square root a vector's similarity with itself is S / (S + 1e-10), in [0, 1). */
  lemma CosineWithItself(a: seq<real>, sqrt: real -> real)
    requires IsSquareRoot(sqrt)
    ensures SumSquares(a) >= 0.0
    ensures Cosine(a, a, sqrt) == SumSquares(a) / (SumSquares(a) + Eps)
    ensures 0.0 <= Cosine(a, a, sqrt) < 1.0
  {
    var s := SumSquares(a);
    assert sqrt(s) * sqrt(s) == s;
  }

  /**
   * The Cauchy-Schwarz inequality for the accumulated sums, with both sums
   * shifted by any c > 0: dot^2 <= (na + c) * (nb + c).
   */
  lemma {:induction false} CauchySchwarz(a: seq<real>, b: seq<real>, c: real)
    requires |a| == |b| && c > 0.0
    ensures SquareAtMost(Dot(a, b), SumSquares(a) + c, SumSquares(b) + c)
    decreases |a|
  {
    if a == [] {
      assert Dot(a, b) == 0.0 && SumSquares(a) == 0.0 && SumSquares(b) == 0.0;
      ZeroBelowSquare(Dot(a, b), SumSquares(a) + c, SumSquares(b) + c);
    } else {
      var n := |a|;
      var a', b' := a[..n - 1], b[..n - 1];
      var x, y := a[n - 1], b[n - 1];
      CauchySchwarz(a', b', c);
      var sa, sb, d := SumSquares(a') + c, SumSquares(b') + c, Dot(a', b');
      assert Dot(a, b) == d + x * y;
      assert SumSquares(a) + c == sa + x * x && SumSquares(b) + c == sb + y * y;
      CauchySchwarzStep(sa, sb, d, x, y, Dot(a, b), SumSquares(a) + c, SumSquares(b) + c);
    }
  }

  /** d^2 <= sa * sb. */
  ghost predicate SquareAtMost(d: real, sa: real, sb: real)
  {
    d * d <= sa * sb
  }

  /** p * q < t^2. */
  ghost predicate ProductBelowSquare(p: real, q: real, t: real)
  {
    p * q < t * t
  }

  /** Appending one pair (x, y) keeps dot^2 <= sa * sb. */
  lemma CauchySchwarzStep(sa: real, sb: real, d: real, x: real, y: real, d': real, sa': real, sb': real)
    requires sa > 0.0 && sb > 0.0 && SquareAtMost(d, sa, sb)
    requires d' == d + x * y && sa' == sa + x * x && sb' == sb + y * y
    ensures SquareAtMost(d', sa', sb')
  {
    CrossTermBound(sa, sb, d, x, y);
    var p, xx, yy := x * y, x * x, y * y;
    assert p * p == xx * yy;
    assert (d + p) * (d + p) == d * d + 2.0 * d * p + p * p;
    assert (sa + xx) * (sb + yy) == sa * sb + sa * yy + sb * xx + xx * yy;
  }

  /** The cross term: 2 d x y <= sa y^2 + sb x^2 when d^2 <= sa sb. */
  lemma CrossTermBound(sa: real, sb: real, d: real, x: real, y: real)
    requires sa > 0.0 && sb >= 0.0 && d * d <= sa * sb
    ensures 2.0 * d * (x * y) <= sa * (y * y) + sb * (x * x)
  {
    var q := sa * (y * y) + sb * (x * x) - 2.0 * d * (x * y);
    var u := sa * y - d * x;
    assert sa * q == u * u + (sa * sb - d * d) * (x * x);
    NonNegativeProduct(sa * sb - d * d, x * x);
    PositiveFactor(sa, q);
  }

  lemma ZeroBelowSquare(d: real, sa: real, sb: real)
    requires d == 0.0 && sa > 0.0 && sb == sa
    ensures SquareAtMost(d, sa, sb)
  {
    PositiveProduct(sa, sb);
  }

  lemma NonNegativeProduct(x: real, y: real)
    requires x >= 0.0 && y >= 0.0
    ensures x * y >= 0.0
  {
  }

  lemma PositiveProduct(x: real, y: real)
    requires x > 0.0 && y > 0.0
    ensures x * y > 0.0
  {
  }

  lemma PositiveFactor(a: real, q: real)
    requires a > 0.0 && a * q >= 0.0
    ensures q >= 0.0
  {
    if q < 0.0 {
      PositiveProduct(a, -q);
    }
  }

  /** |d| < t whenever d^2 < t^2 and t > 0. */
  lemma AbsBound(d: real, t: real)
    requires t > 0.0 && d * d < t * t
    ensures -t < d < t
  {
    if d >= t {
      assert d * d - t * t == (d - t) * (d + t);
      NonNegativeProduct(d - t, d + t);
    }
    if d <= -t {
      assert d * d - t * t == (-d - t) * (-d + t);
      NonNegativeProduct(-d - t, -d + t);
    }
  }

  /** A quotient by a positive divisor larger than the dividend's magnitude lies in (-1, 1). */
  lemma QuotientBound(d: real, den: real)
    requires den > 0.0 && -den < d < den
    ensures -1.0 < d / den < 1.0
  {
    assert d / den * den == d;
  }

  /**
   * The documented range: with a true square root the similarity lies
   * strictly between -1 and 1, the 1e-10 keeping it off both ends.
   */
  lemma CosineBounded(a: seq<real>, b: seq<real>, sqrt: real -> real)
    requires |a| == |b| && IsSquareRoot(sqrt)
    ensures -1.0 < Cosine(a, b, sqrt) < 1.0
  {
    var sa, sb := SumSquares(a), SumSquares(b);
    var s := CosineOverRoots(a, b, sqrt);
    var c := ShiftBelowEps(sa, sb, s);
    CauchySchwarz(a, b, c);
    QuotientInRange(Dot(a, b), sa + c, sb + c, s + Eps, Cosine(a, b, sqrt));
  }

  /** d / t lies in (-1, 1) when d^2 <= p q < t^2 and t > 0. */
  lemma QuotientInRange(d: real, p: real, q: real, t: real, r: real)
    requires SquareAtMost(d, p, q) && ProductBelowSquare(p, q, t) && t > 0.0 && r == d / t
    ensures -1.0 < r < 1.0
  {
    AbsBound(d, t);
    QuotientBound(d, t);
  }

  /** s >= 0 and s^2 == p. */
  ghost predicate IsRootOf(s: real, p: real)
  {
    s >= 0.0 && s * s == p
  }

  /** A shift c > 0 small enough that (sa + c)(sb + c) stays below (s + 1e-10)^2. */
  lemma ShiftBelowEps(sa: real, sb: real, s: real) returns (c: real)
    requires sa >= 0.0 && sb >= 0.0 && IsRootOf(s, sa * sb)
    ensures c > 0.0
    ensures ProductBelowSquare(sa + c, sb + c, s + Eps)
  {
    c := Eps * Eps / (sa + sb + 2.0);
    assert c * (sa + sb + 2.0) == Eps * Eps;
    assert 0.0 < c < 1.0;
    PositiveProduct(c, 2.0 - c);
    assert (sa + c) * (sb + c) == sa * sb + c * (sa + sb + c);
    assert c * (sa + sb + c) < Eps * Eps;
    NonNegativeProduct(Eps, s);
    assert (s + Eps) * (s + Eps) == s * s + 2.0 * (Eps * s) + Eps * Eps;
  }

  /**
   * With a true square root, the denominator's product of roots is a
   * non-negative root of na * nb.
   */
  lemma CosineOverRoots(a: seq<real>, b: seq<real>, sqrt: real -> real) returns (s: real)
    requires |a| == |b| && IsSquareRoot(sqrt)
    ensures IsRootOf(s, SumSquares(a) * SumSquares(b))
    ensures Cosine(a, b, sqrt) == Dot(a, b) / (s + Eps)
  {
    var sa, sb := SumSquares(a), SumSquares(b);
    var ra, rb := sqrt(sa), sqrt(sb);
    assert ra >= 0.0 && ra * ra == sa;
    assert rb >= 0.0 && rb * rb == sb;
    s := ra * rb;
    NonNegativeProduct(ra, rb);
    assert s * s == (ra * ra) * (rb * rb);
  }

  /** The error cosineSimilarity's require raises for vectors of different lengths. */
  const SizeMismatchMessage: string := "Embedding sizes differ"

  /**
   * cosineSimilarity: fail when the sizes differ, otherwise accumulate dot, na
   * and nb over every index and divide.
   */
  method CosineSimilarity(a: array<real>, b: array<real>, sqrt: real -> real) returns (r: Result<real, string>)
    requires NonNegativeRoot(sqrt)
    ensures a.Length != b.Length ==> r == Err(SizeMismatchMessage)
    ensures a.Length == b.Length ==> r == Ok(Cosine(a[..], b[..], sqrt))
  {
    if a.Length != b.Length {
      return Err(SizeMismatchMessage);
    }
    var dot, na, nb := 0.0, 0.0, 0.0;
    for i := 0 to a.Length
      invariant dot == Dot(a[..i], b[..i])
      invariant na == SumSquares(a[..i]) && nb == SumSquares(b[..i])
    {
      assert a[..i + 1][..i] == a[..i];
      assert b[..i + 1][..i] == b[..i];
      dot := dot + a[i] * b[i];
      na := na + a[i] * a[i];
      nb := nb + b[i] * b[i];
    }
    assert a[..a.Length] == a[..] && b[..b.Length] == b[..];
    assert dot == Dot(a[..], b[..]) && na == SumSquares(a[..]) && nb == SumSquares(b[..]);
    var score := dot / (sqrt(na) * sqrt(nb) + Eps);
    assert score == Cosine(a[..], b[..], sqrt);
    return Ok(score);
  }

  // ---------------------------------------------------------------------------
  // embed

  /** The interpreter's output did not fit the 1 x 128 output array. */
  datatype EmbedError = OutputShapeMismatch

  /**
   * embed: preprocess, run the model (the parameter infer), and L2-normalise
   * its 128 outputs exactly once.
   */
  method Embed(pixels: array<Int32>, infer: seq<real> -> seq<real>, sqrt: real -> real)
    returns (r: Result<array<real>, EmbedError>)
    requires pixels.Length == PixelCount
    requires NonNegativeRoot(sqrt)
    ensures r.Ok? <==> |infer(Tensor(pixels[..]))| == EmbeddingDim
    ensures r.Ok? ==> r.value.Length == EmbeddingDim
    ensures r.Ok? ==> r.value[..] == Normalized(infer(Tensor(pixels[..])), sqrt)
  {
    var input := Preprocess(pixels);
    var raw := infer(input.floats[..]);
    if |raw| != EmbeddingDim {
      return Err(OutputShapeMismatch);
    }
    var output := new real[EmbeddingDim](i requires 0 <= i < EmbeddingDim => raw[i]);
    assert output[..] == raw;
    var e := L2Normalize(output, sqrt);
    return Ok(e);
  }
}
