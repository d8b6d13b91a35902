/** src/main.rs, the part that is not I/O: folding a buffer through a list
    of filters (`filters.iter().fold(buf, |b, f| f(b))`), as
    `run_from_file_to_file` does, and `convert_frame`, which wraps a captured
    frame's bytes in a buffer, runs the chain and hands back the resulting
    bytes (no code in the program calls it). */
module Pipeline {
  import opened Pixels
  import opened Filters

  /** The fold: the first filter sees `buf`, each later filter sees its
      predecessor's output, and the last output is the result. When every
      filter keeps width and height, so does the chain. */
  function Chain(buf: ImageBuffer, filters: seq<ImageFilter>): (out: ImageBuffer)
    ensures (forall i :: 0 <= i < |filters| ==> PreservesDims(filters[i])) ==>
      out.width == buf.width && out.height == buf.height
    decreases |filters|
  {
    if filters == [] then buf else Chain(filters[0](buf), filters[1..])
  }

  /** The buffers the fold passes through: the input, then each filter's
      output in list order, so that the output of filter i is the input of
      filter i + 1 and the last buffer is the fold's result. */
  ghost function Stages(buf: ImageBuffer, filters: seq<ImageFilter>): (st: seq<ImageBuffer>)
    ensures |st| == |filters| + 1 && st[0] == buf
    ensures forall i :: 0 <= i < |filters| ==> st[i + 1] == filters[i](st[i])
    ensures st[|filters|] == Chain(buf, filters)
    decreases |filters|
  {
    if filters == [] then [buf] else [buf] + Stages(filters[0](buf), filters[1..])
  }

  /** Folding over no filters returns the input. */
  lemma ChainEmpty(buf: ImageBuffer)
    ensures Chain(buf, []) == buf
  {
  }

  /** Chaining `xs + ys` is chaining `ys` over the result of chaining `xs`. */
  lemma {:induction false} ChainAppend(buf: ImageBuffer, xs: seq<ImageFilter>, ys: seq<ImageFilter>)
    ensures Chain(buf, xs + ys) == Chain(Chain(buf, xs), ys)
    decreases |xs|
  {
    if xs == [] {
      assert xs + ys == ys;
    } else {
      assert (xs + ys)[0] == xs[0];
      assert (xs + ys)[1..] == xs[1..] + ys;
      ChainAppend(xs[0](buf), xs[1..], ys);
    }
  }

  /** Appending a filter applies it to the chain's previous output. */
  lemma ChainSnoc(buf: ImageBuffer, filters: seq<ImageFilter>, f: ImageFilter)
    ensures Chain(buf, filters + [f]) == f(Chain(buf, filters))
  {
    ChainAppend(buf, filters, [f]);
  }

  /** A chain of identity filters returns its input. */
  lemma {:induction false} ChainOfIdentities(buf: ImageBuffer, filters: seq<ImageFilter>)
    requires forall i :: 0 <= i < |filters| ==> IsIdentity(filters[i])
    ensures Chain(buf, filters) == buf
    decreases |filters|
  {
    if filters != [] {
      ChainOfIdentities(filters[0](buf), filters[1..]);
    }
  }

  /** One `gaussian_blur(sigma)` filter per sigma, in order. */
  function Blurs(sigmas: seq<real>): seq<ImageFilter> {
    if sigmas == [] then [] else [GaussianBlur(sigmas[0])] + Blurs(sigmas[1..])
  }

  /** A chain made only of blurs gives back its input's pixels at its
      resolution; it returns its input unchanged when the input has no
      surplus bytes or the chain is empty. */
  lemma {:induction false} BlurChainIsTrim(buf: ImageBuffer, sigmas: seq<real>)
    ensures Chain(buf, Blurs(sigmas)) == if sigmas == [] then buf else Trim(buf)
    ensures buf.surplus == [] ==> Chain(buf, Blurs(sigmas)) == buf
    decreases |sigmas|
  {
    if sigmas != [] {
      BlurChainIsTrim(Trim(buf), sigmas[1..]);
    }
  }

  /** `rscam::Frame`: the resolution the camera reports and the raw bytes. */
  datatype Frame = Frame(resolution: (nat, nat), data: seq<Byte>)

  /** Whether the frame's bytes are enough for an RGB buffer of its
      resolution. */
  predicate FitsResolution(frame: Frame) {
    |frame.data| >= 3 * (frame.resolution.0 * frame.resolution.1)
  }

  /** `convert_frame`: None when the bytes are too few for a buffer of the
      frame's resolution, otherwise the chain's output container. With no
      filters the frame's bytes come back whole; with filters that keep
      width and height, at least the frame's pixel bytes come back. */
  function ConvertFrame(frame: Frame, filters: seq<ImageFilter>): (r: Option<seq<Byte>>)
    ensures r.None? <==> !FitsResolution(frame)
    ensures r.Some? && filters == [] ==> r.value == frame.data
    ensures r.Some? && (forall i :: 0 <= i < |filters| ==> PreservesDims(filters[i])) ==>
      |r.value| >= 3 * (frame.resolution.0 * frame.resolution.1)
  {
    match FromVec(frame.resolution.0, frame.resolution.1, frame.data)
    case None => None
    case Some(buf) => Some(IntoVec(Chain(buf, filters)))
  }

  /** Converting a frame through no filters, or through identity filters
      only, gives back the frame's own bytes. Blurs are not identities when
      the frame carries surplus bytes; `ConvertFrameThroughBlurs` covers
      chains of blurs. */
  lemma ConvertFrameThroughIdentities(frame: Frame, filters: seq<ImageFilter>)
    requires forall i :: 0 <= i < |filters| ==> IsIdentity(filters[i])
    ensures FitsResolution(frame) ==> ConvertFrame(frame, filters) == Some(frame.data)
  {
    if FitsResolution(frame) {
      var buf := FromVec(frame.resolution.0, frame.resolution.1, frame.data).value;
      ChainOfIdentities(buf, filters);
    }
  }

  /** Through a non-empty chain of blurs, a frame that fits comes back as
      its pixel bytes only: bytes past the resolution are dropped. */
  lemma ConvertFrameThroughBlurs(frame: Frame, sigmas: seq<real>)
    requires sigmas != []
    ensures FitsResolution(frame) ==>
      ConvertFrame(frame, Blurs(sigmas)) == Some(frame.data[..3 * (frame.resolution.0 * frame.resolution.1)])
  {
    if FitsResolution(frame) {
      var buf := FromVec(frame.resolution.0, frame.resolution.1, frame.data).value;
      BlurChainIsTrim(buf, sigmas);
      var n := 3 * (buf.width * buf.height);
      assert IntoVec(Trim(buf)) == IntoVec(buf)[..n];
    }
  }

  /** A 1-by-1 frame carrying one byte too many: with no filters all four
      bytes come back, through a blur only the pixel's three. */
  lemma ConvertFrameSurplusExample(sigma: real)
    ensures ConvertFrame(Frame((1, 1), [1, 2, 3, 4]), []) == Some([1, 2, 3, 4])
    ensures ConvertFrame(Frame((1, 1), [1, 2, 3, 4]), [GaussianBlur(sigma)]) == Some([1, 2, 3])
  {
    assert [sigma][1..] == [];
    assert Blurs([sigma]) == [GaussianBlur(sigma)];
    ConvertFrameThroughBlurs(Frame((1, 1), [1, 2, 3, 4]), [sigma]);
    assert [1, 2, 3, 4][..3] == [1, 2, 3];
  }

  /** The bytes `convert_frame` returns are the chain's output read back as
      a buffer of the chain's output resolution. */
  lemma ConvertFrameOutput(frame: Frame, filters: seq<ImageFilter>)
    requires FitsResolution(frame)
    ensures var buf := FromVec(frame.resolution.0, frame.resolution.1, frame.data).value;
      var out := Chain(buf, filters);
      ConvertFrame(frame, filters).Some? &&
      FromVec(out.width, out.height, ConvertFrame(frame, filters).value) == Some(out)
  {
    var buf := FromVec(frame.resolution.0, frame.resolution.1, frame.data).value;
    FromVecIntoVec(Chain(buf, filters));
  }
}
