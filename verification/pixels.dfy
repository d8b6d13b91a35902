/** The part of the `image` crate that the filters rely on: 8-bit RGB pixels,
    row-major pixel buffers, and the three buffer constructors and accessors
    the source calls (`from_fn`, `get_pixel`, `from_vec` / `into_vec`). The
    crate itself is not part of this model; these definitions state only what
    the filters need of it. */
module Pixels {

  datatype Option<+T> = None | Some(value: T)

  /** A `u8` channel sample. */
  type Byte = x: int | 0 <= x < 256

  /** `image::Rgb<u8>`: channels `data[0]`, `data[1]`, `data[2]`. */
  datatype Rgb = Rgb(r: Byte, g: Byte, b: Byte)

  /** A buffer before its size invariant is known. `surplus` holds the
      container's bytes past the last pixel: the crate accepts a container
      longer than the resolution needs, keeps the extra bytes and never
      reads them. */
  datatype Raster = Raster(width: nat, height: nat, pixels: seq<Rgb>, surplus: seq<Byte>)

  /** `ImageBuffer<Rgb<u8>, Vec<u8>>`: pixel (x, y) sits at row-major index
      `y * width + x`, and there is exactly one pixel per coordinate. */
  type ImageBuffer = ib: Raster | |ib.pixels| == ib.width * ib.height
    witness Raster(0, 0, [], [])

  /** The same pixels without the surplus bytes. */
  function Trim(ib: ImageBuffer): ImageBuffer {
    Raster(ib.width, ib.height, ib.pixels, [])
  }

  lemma MulMonotonic(a: int, b: int, c: nat)
    ensures a <= b ==> a * c <= b * c
  {
    assert b * c - a * c == (b - a) * c;
  }

  /** Euclidean division by a positive width has one quotient and one
      remainder. */
  lemma DivModUnique(i: int, width: nat, q: int, r: int)
    requires width > 0 && 0 <= r < width && i == q * width + r
    ensures i / width == q && i % width == r
  {
    var q', r' := i / width, i % width;
    var d := q - q';
    assert d * width == r' - r by {
      assert d * width == q * width - q' * width;
    }
    MulMonotonic(1, d, width);
    MulMonotonic(d, -1, width);
  }

  lemma RowMajorIndex(x: nat, y: nat, width: nat, height: nat)
    requires x < width && y < height
    ensures y * width + x < width * height
    ensures (y * width + x) / width == y && (y * width + x) % width == x
  {
    MulMonotonic(y + 1, height, width);
    assert (y + 1) * width == y * width + width;
    DivModUnique(y * width + x, width, y, x);
  }

  lemma RowMajorCoords(i: nat, width: nat, height: nat)
    requires i < width * height
    ensures width > 0
    ensures i % width < width && i / width < height
    ensures (i / width) * width + i % width == i
  {
    MulMonotonic(height, i / width, width);
  }

  /** `ImageBuffer::get_pixel`: the pixel at column x of row y, whose R, G
      and B subpixels are the three container bytes starting at offset
      `3 * (y * width + x)`. */
  function GetPixel(ib: ImageBuffer, x: nat, y: nat): (p: Rgb)
    requires x < ib.width && y < ib.height
    ensures 3 * (y * ib.width + x) + 3 <= 3 * (ib.width * ib.height)
    ensures IntoVec(ib)[3 * (y * ib.width + x)..3 * (y * ib.width + x) + 3] == [p.r, p.g, p.b]
  {
    RowMajorIndex(x, y, ib.width, ib.height);
    ib.pixels[y * ib.width + x]
  }

  /** `ImageBuffer::from_fn`: a width-by-height buffer whose pixel (x, y) is
      `gen(x, y)`, in a container of exactly the size it needs. */
  function FromFn(width: nat, height: nat, gen: (nat, nat) --> Rgb): (ib: ImageBuffer)
    requires forall x: nat, y: nat :: x < width && y < height ==> gen.requires(x, y)
    ensures ib.width == width && ib.height == height && ib.surplus == []
    ensures forall x: nat, y: nat :: x < width && y < height ==> GetPixel(ib, x, y) == gen(x, y)
  {
    var pixels := seq(width * height, (i: int) requires 0 <= i < width * height =>
      RowMajorCoords(i, width, height);
      gen(i % width, i / width));
    var ib: ImageBuffer := Raster(width, height, pixels, []);
    assert forall x: nat, y: nat :: x < width && y < height ==> GetPixel(ib, x, y) == gen(x, y) by {
      forall x: nat, y: nat | x < width && y < height
        ensures GetPixel(ib, x, y) == gen(x, y)
      {
        RowMajorIndex(x, y, width, height);
        assert ib.pixels[y * width + x] == gen(x, y);
      }
    }
    ib
  }

  /** The subpixels of a pixel sequence, three per pixel, in order. */
  function Flatten(pixels: seq<Rgb>): (bytes: seq<Byte>)
    ensures |bytes| == 3 * |pixels|
  {
    if pixels == [] then [] else [pixels[0].r, pixels[0].g, pixels[0].b] + Flatten(pixels[1..])
  }

  /** Consecutive subpixel triples read back as pixels. */
  function Group(bytes: seq<Byte>): (pixels: seq<Rgb>)
    requires |bytes| % 3 == 0
    ensures 3 * |pixels| == |bytes|
  {
    if bytes == [] then [] else [Rgb(bytes[0], bytes[1], bytes[2])] + Group(bytes[3..])
  }

  lemma {:induction false} FlattenAt(pixels: seq<Rgb>, i: nat)
    requires i < |pixels|
    ensures Flatten(pixels)[3 * i] == pixels[i].r
    ensures Flatten(pixels)[3 * i + 1] == pixels[i].g
    ensures Flatten(pixels)[3 * i + 2] == pixels[i].b
  {
    if i > 0 {
      FlattenAt(pixels[1..], i - 1);
    }
  }

  lemma {:induction false} GroupFlatten(pixels: seq<Rgb>)
    ensures Group(Flatten(pixels)) == pixels
  {
    if pixels != [] {
      var bytes := Flatten(pixels);
      assert bytes[3..] == Flatten(pixels[1..]);
      GroupFlatten(pixels[1..]);
    }
  }

  lemma {:induction false} FlattenGroup(bytes: seq<Byte>)
    requires |bytes| % 3 == 0
    ensures Flatten(Group(bytes)) == bytes
  {
    if bytes != [] {
      var pixels := Group(bytes);
      assert pixels[1..] == Group(bytes[3..]);
      FlattenGroup(bytes[3..]);
      assert bytes == bytes[..3] + bytes[3..];
    }
  }

  /** `ImageBuffer::into_vec`: the whole container: the subpixels row by
      row, pixel by pixel, in channel order R, G, B, then the surplus bytes. */
  function IntoVec(ib: ImageBuffer): (bytes: seq<Byte>)
    ensures |bytes| == 3 * (ib.width * ib.height) + |ib.surplus|
    ensures forall i :: 0 <= i < |ib.pixels| ==>
      bytes[3 * i] == ib.pixels[i].r && bytes[3 * i + 1] == ib.pixels[i].g && bytes[3 * i + 2] == ib.pixels[i].b
    ensures bytes[3 * (ib.width * ib.height)..] == ib.surplus
  {
    var samples := Flatten(ib.pixels);
    assert forall i :: 0 <= i < |ib.pixels| ==>
      samples[3 * i] == ib.pixels[i].r && samples[3 * i + 1] == ib.pixels[i].g && samples[3 * i + 2] == ib.pixels[i].b
    by {
      forall i | 0 <= i < |ib.pixels| {
        FlattenAt(ib.pixels, i);
      }
    }
    samples + ib.surplus
  }

  /** `ImageBuffer::from_vec`: a buffer of the given resolution over the given
      container, or None when the container is too short for it. A longer
      container is accepted whole. */
  function FromVec(width: nat, height: nat, data: seq<Byte>): (r: Option<ImageBuffer>)
    ensures r.Some? <==> |data| >= 3 * (width * height)
    ensures r.Some? ==> r.value.width == width && r.value.height == height && IntoVec(r.value) == data
  {
    var n := 3 * (width * height);
    if |data| >= n then
      FlattenGroup(data[..n]);
      assert data == data[..n] + data[n..];
      Some(Raster(width, height, Group(data[..n]), data[n..]))
    else
      None
  }

  /** Reading a buffer's own container back at its own resolution gives the
      buffer again. */
  lemma FromVecIntoVec(ib: ImageBuffer)
    ensures FromVec(ib.width, ib.height, IntoVec(ib)) == Some(ib)
  {
    var bytes, n := IntoVec(ib), 3 * (ib.width * ib.height);
    assert bytes[..n] == Flatten(ib.pixels);
    GroupFlatten(ib.pixels);
  }
}
