/** src/filters.rs: the colour distance between two pixels and the filter
    returned by `gaussian_blur`, with the `ImageFilter` type they share. */
module Filters {
  import opened Pixels

  // ---------------------------------------------------------------------
  // Integer square root
  // ---------------------------------------------------------------------

  /** k is the truncated square root of n. */
  ghost predicate IsIntSqrt(n: nat, k: nat) {
    k * k <= n < (k + 1) * (k + 1)
  }

  /** The truncated square root is the largest k whose square fits in n. */
  lemma IntSqrtIsLargest(n: nat, k: nat, j: nat)
    requires IsIntSqrt(n, k) && j * j <= n
    ensures j <= k
  {
    MulMonotonic(k + 1, j, k + 1);
    MulMonotonic(k + 1, j, j);
  }

  /** The truncated square root of n is unique. */
  lemma IntSqrtUnique(n: nat, k: nat, j: nat)
    requires IsIntSqrt(n, k) && IsIntSqrt(n, j)
    ensures j == k
  {
    IntSqrtIsLargest(n, k, j);
    IntSqrtIsLargest(n, j, k);
  }

  /** Counting up from a root candidate k until the next square exceeds n. */
  function SqrtSearch(n: nat, k: nat): (root: nat)
    requires k * k <= n
    ensures IsIntSqrt(n, root)
    decreases n - k * k
  {
    if (k + 1) * (k + 1) <= n then SqrtSearch(n, k + 1) else k
  }

  /** The largest k with k * k <= n. For n up to 3 * 255 * 255, taking the
      `f64` square root of n and truncating it with `as u32` gives exactly
      this k. */
  function ISqrt(n: nat): (k: nat)
    ensures IsIntSqrt(n, k)
  {
    SqrtSearch(n, 0)
  }

  // ---------------------------------------------------------------------
  // color_dist
  // ---------------------------------------------------------------------

  /** `a - b` on `u8` as a release build evaluates it: modulo 256. */
  function WrappingSub(a: Byte, b: Byte): (d: Byte)
    ensures a >= b ==> d == a - b
    ensures a < b ==> d == a - b + 256
  {
    (a - b) % 256
  }

  /** A debug build evaluates `color_dist(p, q)` without an overflow panic
      exactly when no channel of p is below the matching channel of q. */
  predicate SubtractsWithoutOverflow(p: Rgb, q: Rgb) {
    p.r >= q.r && p.g >= q.g && p.b >= q.b
  }

  /** `d_x * d_x + d_y * d_y + d_z * d_z` with the channel differences taken
      as `u8` subtractions. */
  function SquaredDist(p: Rgb, q: Rgb): nat {
    var dx, dy, dz := WrappingSub(p.r, q.r), WrappingSub(p.g, q.g), WrappingSub(p.b, q.b);
    dx * dx + dy * dy + dz * dz
  }

  /** The Euclidean squared distance of two pixels over the integers. */
  ghost function EuclideanSquared(p: Rgb, q: Rgb): nat {
    (p.r - q.r) * (p.r - q.r) + (p.g - q.g) * (p.g - q.g) + (p.b - q.b) * (p.b - q.b)
  }

  /** `color_dist(p, q)` as written, with release-build `u8` subtraction. */
  function ColorDist(p: Rgb, q: Rgb): (d: nat)
    ensures IsIntSqrt(SquaredDist(p, q), d)
    ensures SubtractsWithoutOverflow(p, q) ==> IsIntSqrt(EuclideanSquared(p, q), d)
  {
    ISqrt(SquaredDist(p, q))
  }

  /** A pixel is at distance 0 from itself. */
  lemma ColorDistSelf(p: Rgb)
    ensures ColorDist(p, p) == 0
  {
    IntSqrtUnique(0, ColorDist(p, p), 0);
  }

  /** Every distance is at most 441, the truncated square root of 3 * 255 * 255. */
  lemma ColorDistAtMost441(p: Rgb, q: Rgb)
    ensures ColorDist(p, q) <= 441
  {
    var dx, dy, dz := WrappingSub(p.r, q.r), WrappingSub(p.g, q.g), WrappingSub(p.b, q.b);
    MulMonotonic(dx, 255, dx);
    MulMonotonic(dx, 255, 255);
    MulMonotonic(dy, 255, dy);
    MulMonotonic(dy, 255, 255);
    MulMonotonic(dz, 255, dz);
    MulMonotonic(dz, 255, 255);
    assert SquaredDist(p, q) < 442 * 442;
    var d := ColorDist(p, q);
    MulMonotonic(442, d, 442);
    MulMonotonic(442, d, d);
  }

  /** The distance is 0 exactly when the two pixels are equal. */
  lemma ColorDistZeroIff(p: Rgb, q: Rgb)
    ensures ColorDist(p, q) == 0 <==> p == q
  {
    var d := ColorDist(p, q);
    var dx, dy, dz := WrappingSub(p.r, q.r), WrappingSub(p.g, q.g), WrappingSub(p.b, q.b);
    if d == 0 {
      assert dx * dx + dy * dy + dz * dz < 1;
      MulMonotonic(1, dx, dx);
      MulMonotonic(1, dy, dy);
      MulMonotonic(1, dz, dz);
    } else {
      MulMonotonic(1, d, d);
    }
  }

  /** The source's distance is not symmetric: from (1, 0, 0) to (0, 0, 0)
      it is 1, the other way round the subtraction overflows (a panic in a
      debug build) and wraps to 255 (a release build). */
  lemma ColorDistNotSymmetric()
    ensures ColorDist(Rgb(1, 0, 0), Rgb(0, 0, 0)) == 1
    ensures !SubtractsWithoutOverflow(Rgb(0, 0, 0), Rgb(1, 0, 0))
    ensures ColorDist(Rgb(0, 0, 0), Rgb(1, 0, 0)) == 255
  {
    IntSqrtUnique(1, ColorDist(Rgb(1, 0, 0), Rgb(0, 0, 0)), 1);
    assert SquaredDist(Rgb(0, 0, 0), Rgb(1, 0, 0)) == 255 * 255;
    IntSqrtUnique(255 * 255, ColorDist(Rgb(0, 0, 0), Rgb(1, 0, 0)), 255);
  }

  /** The absolute difference of two channels. */
  function AbsDiff(a: Byte, b: Byte): (d: Byte)
    ensures d == a - b || d == b - a
  {
    if a >= b then a - b else b - a
  }

  /** The colour distance as evidently intended: per-channel absolute
      differences, so that the distance is symmetric and never overflows. */
  function AbsColorDist(p: Rgb, q: Rgb): (d: nat)
    ensures IsIntSqrt(EuclideanSquared(p, q), d)
  {
    var dx, dy, dz := AbsDiff(p.r, q.r), AbsDiff(p.g, q.g), AbsDiff(p.b, q.b);
    assert dx * dx + dy * dy + dz * dz == EuclideanSquared(p, q);
    ISqrt(dx * dx + dy * dy + dz * dz)
  }

  /** The intended distance is symmetric, and agrees with the source's
      wherever the source's subtractions do not overflow. */
  lemma AbsColorDistSymmetric(p: Rgb, q: Rgb)
    ensures AbsColorDist(p, q) == AbsColorDist(q, p)
    ensures SubtractsWithoutOverflow(p, q) ==> AbsColorDist(p, q) == ColorDist(p, q)
  {
    assert EuclideanSquared(p, q) == EuclideanSquared(q, p);
    IntSqrtUnique(EuclideanSquared(p, q), AbsColorDist(p, q), AbsColorDist(q, p));
    if SubtractsWithoutOverflow(p, q) {
      IntSqrtUnique(EuclideanSquared(p, q), AbsColorDist(p, q), ColorDist(p, q));
    }
  }

  // ---------------------------------------------------------------------
  // ImageFilter and gaussian_blur
  // ---------------------------------------------------------------------

  /** `ImageFilter<Rgb<u8>>`: a boxed closure from buffer to buffer. */
  type ImageFilter = ImageBuffer -> ImageBuffer

  /** A filter that returns every buffer unchanged. */
  ghost predicate IsIdentity(f: ImageFilter) {
    forall ib :: f(ib) == ib
  }

  /** A filter that keeps every buffer's width and height. */
  ghost predicate PreservesDims(f: ImageFilter) {
    forall ib :: f(ib).width == ib.width && f(ib).height == ib.height
  }

  /** The closure that `gaussian_blur` returns: it rebuilds the buffer with
      `from_fn` at the input's width and height, reading each output pixel
      from the input at the same coordinates. */
  function BlurFrame(ib: ImageBuffer): (out: ImageBuffer)
    ensures out.width == ib.width && out.height == ib.height && out.surplus == []
    ensures forall x: nat, y: nat :: x < ib.width && y < ib.height ==> GetPixel(out, x, y) == GetPixel(ib, x, y)
  {
    FromFn(ib.width, ib.height, (x: nat, y: nat) requires x < ib.width && y < ib.height => GetPixel(ib, x, y))
  }

  /** Rebuilding a buffer pixel by pixel from itself gives the same pixels
      at the same resolution. Only surplus container bytes are lost, so on a
      buffer without them the closure is the identity. */
  lemma BlurFrameIsTrim(ib: ImageBuffer)
    ensures BlurFrame(ib) == Trim(ib)
    ensures ib.surplus == [] ==> BlurFrame(ib) == ib
  {
    var out := BlurFrame(ib);
    forall i | 0 <= i < |ib.pixels|
      ensures out.pixels[i] == ib.pixels[i]
    {
      BlurFramePixelAt(ib, out, i);
    }
    assert out.pixels == ib.pixels;
  }

  lemma BlurFramePixelAt(ib: ImageBuffer, out: ImageBuffer, i: nat)
    requires out == BlurFrame(ib) && i < |ib.pixels|
    ensures out.pixels[i] == ib.pixels[i]
  {
    RowMajorCoords(i, ib.width, ib.height);
    var x, y := i % ib.width, i / ib.width;
    assert GetPixel(out, x, y) == GetPixel(ib, x, y);
  }

  lemma BlurFrameIsTrimEverywhere()
    ensures forall ib :: BlurFrame(ib) == Trim(ib)
  {
    forall ib: ImageBuffer {
      BlurFrameIsTrim(ib);
    }
  }

  /** `gaussian_blur(sigma)`: whatever sigma is, the returned filter gives
      back the input's pixels at the input's resolution, without surplus
      container bytes. The Gaussian weight and the kernel size are never
      used. */
  function GaussianBlur(sigma: real): (f: ImageFilter)
    ensures forall ib :: f(ib) == Trim(ib)
  {
    BlurFrameIsTrimEverywhere();
    BlurFrame
  }

  /** On a buffer without surplus bytes the blur is the identity. */
  lemma GaussianBlurIsIdentity(sigma: real, ib: ImageBuffer)
    requires ib.surplus == []
    ensures GaussianBlur(sigma)(ib) == ib
  {
  }

  /** The blur keeps width and height. */
  lemma GaussianBlurPreservesDims(sigma: real)
    ensures PreservesDims(GaussianBlur(sigma))
  {
  }

  /** Blurring twice is blurring once, with any two sigmas. */
  lemma GaussianBlurIdempotent(sigma: real, sigma': real, ib: ImageBuffer)
    ensures GaussianBlur(sigma')(GaussianBlur(sigma)(ib)) == GaussianBlur(sigma)(ib)
  {
  }
}
