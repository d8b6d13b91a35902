# ascii-cam pixel filters in Dafny

This project models the pixel-filter core of ascii-cam, a small Rust program. Only `run_from_file_to_file` folds an image through filters: it reads an RGB image from a file, folds it through a list of filters and saves the result. The webcam path (`run_on_cam`) writes each captured frame to disk unfiltered. `convert_frame`, which would run the filters on a frame, is defined but never called. The model covers three parts:

- **Pixel buffers** (module `Pixels`, `pixels.dfy`). An `ImageBuffer` is a width, a height and a row-major sequence of `Rgb` pixels with 8-bit channels. Its invariant is `|pixels| == width * height`. It also keeps any surplus container bytes past the last pixel: `from_vec` accepts a container longer than the resolution needs and keeps it whole, and `into_vec` returns it whole. The module also gives the few `image` crate operations the core calls: `from_fn`, `get_pixel`, `from_vec` and `into_vec`.
- **Filters** (module `Filters`, `filters.dfy`, for `src/filters.rs`). It has `color_dist`, the `ImageFilter` type and the filter returned by `gaussian_blur`. Despite its name, that filter rebuilds the buffer with `from_fn`, reading each pixel back from the same coordinates. The model proves that, for every `sigma`, it returns the same pixels at the same width and height. The only change is that surplus container bytes are dropped, so the filter is the identity on any buffer without them.
- **The chain** (module `Pipeline`, `pipeline.dfy`, for `src/main.rs`). `filters.iter().fold(buf, |b, f| f(b))` becomes `Chain`. `convert_frame` becomes `ConvertFrame`, which returns `None` when the frame has fewer bytes than its resolution needs.

`color_dist` subtracts channels as `u8`. A debug build panics when a channel of the first pixel is below the matching channel of the second; a release build wraps modulo 256. `ColorDist` models the release build. `SubtractsWithoutOverflow` says exactly when a debug build does not panic. The `f64` square root truncated by `as u32` is modelled as the integer square root (`ISqrt`). For every sum of squares these channels can produce (at most 3·255²), the two agree.

Some facts about the code shape the model:
- Despite its name, `gaussian_blur` returns a filter that copies pixels; no convolution happens.
- `color_dist` subtracts `u8` values directly, so it is not symmetric (see Findings).
- `main` (src/main.rs:109-113) builds its filter list from `filters::color_dist_lines` and `filters::down_sample`, but src/filters.rs, which is the whole `filters` module (`mod filters;`, src/main.rs:10), defines neither. As shown, that `main` does not compile.
- `ImageFilter` returns a buffer, not a `Result`, so no filter can return an error. A filter can still panic; see "## Left out".

## Model

| member | source | states |
|---|---|---|
| `Pixels.GetPixel` | src/filters.rs:23 | for x < width and y < height, pixel (x, y) is the one at row-major index y·width + x, whose R, G and B are the three container bytes from offset 3·(y·width + x) |
| `Pixels.FromFn` | src/filters.rs:25 | the built buffer has the requested width and height and no surplus bytes, and its pixel (x, y) is the generator's value at (x, y) |
| `Pixels.FromVec` | src/main.rs:14-20 | succeeds exactly when there are at least 3·width·height bytes; the buffer then has that resolution and `into_vec` gives back all the bytes, surplus included |
| `Pixels.IntoVec` | src/main.rs:23 | returns 3·width·height bytes plus the surplus; pixel i's R, G and B sit at indices 3i, 3i+1 and 3i+2 (row-major order), and the surplus follows the last pixel |
| `Pixels.FromVecIntoVec` | src/main.rs:14-23 | reading a buffer's container back at its own resolution gives the same buffer |
| `Filters.ISqrt` | src/filters.rs:9 | the result k satisfies k² ≤ n < (k+1)², which is the truncated square root |
| `Filters.IntSqrtIsLargest` | src/filters.rs:9 | a truncated square root k of n is at least every j with j² ≤ n, so it is the largest such j |
| `Filters.WrappingSub` | src/filters.rs:6-8 | `u8` subtraction gives a − b when a ≥ b, and a − b + 256 when it wraps |
| `Filters.ColorDist` | src/filters.rs:5-10 | the distance is the truncated square root of the sum of the squared `u8` differences; when no subtraction overflows, it is the truncated Euclidean distance |
| `Filters.ColorDistSelf` | src/filters.rs:5-9 | every pixel is at distance 0 from itself |
| `Filters.ColorDistAtMost441` | src/filters.rs:6-9 | every distance is at most 441, the truncated square root of 3·255² |
| `Filters.ColorDistZeroIff` | src/filters.rs:5-9 | the distance is 0 exactly when the two pixels are equal |
| `Filters.ColorDistNotSymmetric` | src/filters.rs:6-8 | from (1,0,0) to (0,0,0) the distance is 1; the other way round a debug build overflows and a release build gives 255 |
| `Filters.AbsColorDist` | src/filters.rs:5-10 | the intended distance, from absolute channel differences, is the truncated Euclidean distance for every pair of pixels |
| `Filters.AbsColorDistSymmetric` | src/filters.rs:5-10 | the intended distance is symmetric, and equals `color_dist` wherever `color_dist`'s subtractions do not overflow |
| `Filters.BlurFrame` | src/filters.rs:21-25 | the closure's output has the input's width and height and no surplus bytes, and each output pixel equals the input pixel at the same (x, y) |
| `Filters.BlurFrameIsTrim` | src/filters.rs:21-25 | the closure returns the input's pixels at its resolution without surplus bytes, so it returns a buffer without surplus unchanged |
| `Filters.GaussianBlur` | src/filters.rs:14-28 | for every sigma, the returned filter maps every buffer to the same pixels at the same resolution, without surplus bytes |
| `Filters.GaussianBlurIsIdentity` | src/filters.rs:21-25 | on a buffer without surplus bytes, the blur is the identity for every sigma |
| `Filters.GaussianBlurPreservesDims` | src/filters.rs:25 | the blur filter keeps every buffer's width and height |
| `Filters.GaussianBlurIdempotent` | src/filters.rs:21-25 | blurring twice, with any two sigmas, gives the same buffer as blurring once |
| `Pipeline.Chain` | src/main.rs:71 | when every filter in the list keeps width and height, the folded result has the input's width and height |
| `Pipeline.Stages` | src/main.rs:22 | the fold passes through one buffer per filter plus the input; the output of filter i is the input of filter i+1, and the last buffer is the chain's result |
| `Pipeline.ChainEmpty` | src/main.rs:71 | folding over no filters returns the input buffer |
| `Pipeline.ChainAppend` | src/main.rs:71 | chaining xs ++ ys equals chaining ys over the result of chaining xs |
| `Pipeline.ChainSnoc` | src/main.rs:71 | appending a filter to the list applies it to the previous chain's output |
| `Pipeline.ChainOfIdentities` | src/main.rs:71 | a chain whose filters are all identities returns its input |
| `Pipeline.BlurChainIsTrim` | src/main.rs:71 | a non-empty chain of only `gaussian_blur` filters returns its input without surplus bytes, so it returns an input without surplus unchanged |
| `Pipeline.ConvertFrame` | src/main.rs:13-24 | returns None exactly when the frame has fewer bytes than its resolution needs; with no filters it returns the frame's bytes; with filters that keep dimensions it returns at least the resolution's bytes |
| `Pipeline.ConvertFrameThroughIdentities` | src/main.rs:14-23 | through no filters or only identity filters, a frame with enough bytes comes back as its own bytes |
| `Pipeline.ConvertFrameThroughBlurs` | src/main.rs:14-23 | through a non-empty chain of blurs, a frame with enough bytes comes back as its first 3·width·height bytes |
| `Pipeline.ConvertFrameSurplusExample` | src/main.rs:14-23 | a 1×1 frame of bytes 1, 2, 3, 4 comes back whole with no filters, and as 1, 2, 3 through one blur |
| `Pipeline.ConvertFrameOutput` | src/main.rs:22-23 | for a frame with enough bytes, the returned bytes read back at the chain's output resolution give the chain's output buffer |

## Left out

- `gaiss_wt` and `ker_size` (src/filters.rs:15-20) are not modelled. They use `f64` `exp` and `PI`, and nothing reads their results, so they never change the output.
- ISqrt: the `f64` square root is not modelled as floating point. The model uses the integer square root instead. That the two agree for sums up to 3·255² rests on IEEE-754 `sqrt` being correctly rounded; it is not proved here.
- ColorDist: models the release build's wrapping subtraction. In a debug build the call panics whenever `SubtractsWithoutOverflow` is false. The model has no panic value; that predicate marks where one would occur.
- `color_dist_lines` and `down_sample` (called at src/main.rs:111-112) are not modelled, because src/filters.rs, the whole `filters` module, does not define them: the non-webcam `main` (src/main.rs:109-113) does not compile as shown. The filter list it builds is covered only through `Chain` over arbitrary filters.
- Chain: filters are modelled as total functions. A filter that panics, such as `color_dist` would in a debug build, and the fold stopping at that stage are not modelled.
- Webcam capture (`run_on_cam`, src/main.rs:27-60), frame files written to disk, `image::open`, `to_rgb` and `save` (src/main.rs:63-76) are not modelled: they are device and file I/O.
- Argument parsing and `println!` reporting are not modelled. This covers both `main` functions (src/main.rs:80-115) and the "Wrong dimensions!" message of `convert_frame` (src/main.rs:17); only its `None` result is modelled.
- FromVec: the `image` crate is not part of this model. `from_vec` is modelled by its contract: it rejects a container shorter than 3·width·height, accepts any longer one whole, and keeps the surplus bytes for `into_vec`.
- Width and height are `nat` rather than `u32`, so size limits and overflow in the crate's size computation are not modelled.
- ConvertFrame: `convert_frame` does not compile under the webcam feature. `ImageFilter` (src/filters.rs:12) takes its buffer by value, so `f(&b)` (src/main.rs:22) does not type-check, and neither does the slice of unsized closure types `&[filters::ImageFilter<…>]` (src/main.rs:13). `ConvertFrame` models the evidently intended call that passes the buffer by value, as `run_from_file_to_file` does at src/main.rs:71.
- GaussianBlur: `sigma` is any real. `f64` NaN and infinities are not modelled. The filter ignores sigma, so none of these values could change the result.
- ConvertFrame: "no filter runs when the bytes do not fit" is not observable in a model without effects. Only the `None` result is stated.

## Findings

| source | as written | input that shows it | evidently intended | confidence | as-written member | corrected member |
|---|---|---|---|---|---|---|
| src/filters.rs:6-8 | channel differences are `u8` subtractions `this.data[i] - other.data[i]` | `color_dist(Rgb[0,0,0], Rgb[1,0,0])`: panics in a debug build and gives 255 in a release build, while the reverse order gives 1 | absolute channel differences, giving a symmetric distance that never overflows (proved in `AbsColorDistSymmetric`) | high; not executed | `Filters.ColorDistNotSymmetric` | `Filters.AbsColorDist` |

`color_dist` has no caller in the modelled code, so no other member depends on either version.
