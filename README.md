# rs-bad-apple: renderer and frame pacing, modelled in Dafny

rs-bad-apple plays a directory of still frames as ASCII art in a terminal,
in time with an audio track played by an external player. This project
models and proves the two parts of `src/main.rs` that compute something.

- **The renderer `image_to_ascii`** (module `AsciiArt`, `ascii_art.dfy`)
  takes an already-decoded 8-bit luminance image and a terminal of `tw`
  columns and `th` rows. It uses one aspect-preserving scale,
  `max(W/tw, H/th)`. For every cell it picks the nearest source pixel and
  clamps it to the image. It compares that pixel's luminance strictly
  against a 2×2 ordered-dither threshold. It then emits either the first
  glyph (`' '`) or the last glyph (`'$'`) of a 70-glyph ramp. Each row ends
  with `'\n'`.
  - `ImageToAscii` is the source's nested row/column loop pushing onto a
    buffer.
  - It is proved equal to `Render`, a recursive definition of the frame.
  - Lemmas about `Render` give its exact shape and alphabet, the glyph at
    every index, and the black, white and checkerboard scenarios.
- **The playback loop in `main`** (module `Playback`, `playback.dfy`).
  - `SleepFor` is the pacing rule.
  - `Schedule` is the nominal time of a run of frames: measured frame times
    plus requested sleeps, a lower bound on the real time.
  - `PlayFrames` is the loop over the sorted frame list. It shows each frame
    once, in order, and aborts at the first frame that cannot be drawn,
    as the source's `unwrap` calls do.

Exact arithmetic replaces the source's `f32` arithmetic:

- The scale is the exact rational `max(W·th, H·tw) / (tw·th)`.
  `floor(k · scale)` is computed as a natural-number floor division
  (`FloorDiv`, proved equal to `/`). It is also proved equal to
  `max(k·W div tw, k·H div th)`.
- Threshold `w / 5.0 * 255.0` is the integer `w * 51`. In `f32` it comes
  out exactly 51, 153, 204 and 102 for weights 1, 3, 4 and 2.

**Two behaviours of the code worth stating:**

- The renderer is called with whatever size the terminal reports. When
  `tw = 0` or `th = 0` its loops are empty and the scale is never used, so
  `ImageToAscii` accepts every `tw, th`: zero columns give `th` newlines,
  zero rows give the empty string.
- The pacing subtracts nanosecond-precision `Duration`s, and the comment at
  `src/main.rs:94` calls 1 ms the minimal sleep. The model works in
  nanoseconds. The rule `max(33 − T, 1)` ms holds whenever the elapsed time
  `T` is a whole number of milliseconds (`SleepInWholeMillis`). The sleep
  drops below 1 ms exactly when the elapsed time is strictly between 32 and
  33 ms (`SleepBelowMinimum`), e.g. 0.5 ms after a 32.5 ms frame
  (`SubMillisecondSleep`). The sleep is never zero.

## Model

| member | source | states |
|---|---|---|
| `AsciiArt.ImageToAscii` | src/main.rs:34-60 | the nested loop's buffer ends equal to `Render(img, tw, th)`; no requirement on `tw`/`th` beyond what the source has |
| `AsciiArt.RenderLength` | src/main.rs:34-58 | the frame has exactly `th * (tw + 1)` characters |
| `AsciiArt.Render` | src/main.rs:34-60 | the frame `image_to_ascii` returns, defined as the rows of cell glyphs each followed by a newline; `ImageToAscii` is proved equal to it and `RenderLength`, `RenderShape`, `RenderAt` and `RenderAtIndex` state its length, layout and content |
| `AsciiArt.RenderShape` | src/main.rs:34-58 | the frame has `th*(tw+1)` characters; a character is `'\n'` exactly when its index is `tw` mod `tw+1`, and every other character is the ramp's first or last glyph |
| `AsciiArt.RenderAt` | src/main.rs:34-58 | offset `col` of row `row` holds the glyph of cell (col, row), and offset `tw` holds that row's newline |
| `AsciiArt.RenderAtIndex` | src/main.rs:34-58 | every flat index `k` of the frame splits as `k = row*(tw+1) + col` with `row < th` and `col <= tw`; the character there is the row's newline when `col = tw`, and otherwise the glyph of cell (col, row) |
| `AsciiArt.JoinAt` | src/main.rs:57 | joining rows of width w with a newline after each gives length `n*(w+1)` and puts each row's characters at its row offset |
| `AsciiArt.Cells` | src/main.rs:35-55 | the glyphs one row's column loop pushes; the first `n` of them are `n` characters long, and `CellsAt` gives each one |
| `AsciiArt.CellsAt` | src/main.rs:35-55 | the k-th glyph pushed in a row is the glyph of cell (k, row) |
| `AsciiArt.SampleX` | src/main.rs:36-42 | the source column is below the image width and is exactly `floor(col*scale)` unless that overshoots, in which case it is `width-1` |
| `AsciiArt.SampleY` | src/main.rs:37-42 | the same for the source row against the image height |
| `AsciiArt.NearestIsDiv` | src/main.rs:16-19 | nearest-neighbour coordinate is `k * max(W*th, H*tw) div (tw*th)`, i.e. `floor(k * max(W/tw, H/th))` exactly |
| `AsciiArt.FloorDivIsDiv` | src/main.rs:36-37 | the floor division used for sampling equals Euclidean division |
| `AsciiArt.Nearest` | src/main.rs:16-37 | the unclamped nearest-neighbour coordinate `floor(k * scale)`; `NearestIsDiv`, `NearestIsMaxOfAxes` and `NearestMonotone` state its value and its monotonicity |
| `AsciiArt.NearestIsMaxOfAxes` | src/main.rs:16-19 | `floor(k * max(W/tw, H/th)) == max(k*W div tw, k*H div th)` |
| `AsciiArt.NearestMonotone` | src/main.rs:36-37 | the unclamped sample coordinate is non-decreasing in the output coordinate |
| `AsciiArt.SampleXMonotone` | src/main.rs:36-39 | the clamped source column is non-decreasing in the output column |
| `AsciiArt.SampleYMonotone` | src/main.rs:37-40 | the clamped source row is non-decreasing in the output row |
| `AsciiArt.WidthDominantNeedsNoClamp` | src/main.rs:16-39 | when the width sets the scale, every column samples `col*W div tw < W`, so only the other axis is ever clamped |
| `AsciiArt.HeightDominantNeedsNoClamp` | src/main.rs:16-40 | when the height sets the scale, every row samples `row*H div th < H` |
| `AsciiArt.Threshold` | src/main.rs:29-45 | the threshold depends only on (row mod 2, col mod 2): 51, 153, 204, 102 for (even, even), (even, odd), (odd, even), (odd, odd) |
| `AsciiArt.GlyphIndex` | src/main.rs:47-51 | the index is the ramp's last exactly when luminance > threshold, and 0 exactly when it is not |
| `AsciiArt.Cell` | src/main.rs:47-53 | a cell's glyph is the ramp's first (`' '`) or last (`'$'`) glyph, never another |
| `AsciiArt.CellLuma` | src/main.rs:36-42 | the luminance read for cell (col, row): the clamped sample's pixel; `CellDecision` and `CellMonotoneInLuma` state how it decides the glyph |
| `AsciiArt.CellDecision` | src/main.rs:47-51 | a cell is `'$'` exactly when its sampled luminance is strictly above its threshold, and `' '` otherwise |
| `AsciiArt.CellMonotoneInLuma` | src/main.rs:47-51 | a brighter sample at the same cell never turns `'$'` into `' '` |
| `AsciiArt.BlackRendersBlank` | src/main.rs:47-57 | an all-0 image renders every non-newline character as `' '` |
| `AsciiArt.WhiteRendersSolid` | src/main.rs:47-57 | an all-255 image renders every non-newline character as `'$'` |
| `AsciiArt.CheckerboardExample` | src/main.rs:16-58 | a 4×4 image of 2×2 black/white blocks in a 2×2 terminal (scale 2) renders `" $\n$ \n"` |
| `Playback.SleepFor` | src/main.rs:87-95 | the sleep is never zero and the frame plus its sleep is at least 33 ms; exactly 33 ms when on time, exactly 1 ms of sleep after an overrun |
| `Playback.SleepInWholeMillis` | src/main.rs:87-95 | for a whole number of elapsed milliseconds the sleep is `max(33 - ms, 1)` ms |
| `Playback.SleepBelowMinimum` | src/main.rs:87-95 | the sleep is below the 1 ms overrun sleep if and only if the frame took strictly between 32 and 33 ms |
| `Playback.SubMillisecondSleep` | src/main.rs:91-92 | a frame of 32.5 ms sleeps 0.5 ms, below the 1 ms used after an overrun |
| `Playback.Schedule` | src/main.rs:79-95 | the nominal time of a run of frames: each frame's measured time plus the sleep it asks for (`SleepFor`), a lower bound on the real time; `ScheduleAtLeastTarget`, `ScheduleOnTime` and `ScheduleOverrun` state its bounds |
| `Playback.ScheduleAtLeastTarget` | src/main.rs:79-95 | the nominal time of n frames is at least `n * 33` ms; since real sleeps never undershoot, this bounds the real time from below too |
| `Playback.ScheduleOnTime` | src/main.rs:79-95 | if every frame keeps within 33 ms, the nominal time of n frames is exactly `n * 33` ms |
| `Playback.ScheduleOverrun` | src/main.rs:79-95 | if every frame overruns, the nominal total is the frames' own times plus 1 ms each; nothing is caught up |
| `Playback.PathsArePrefix` | src/main.rs:79 | shown frames that each carry the path at their position are exactly the first frames of the list, in order |
| `Playback.Drawable` | src/main.rs:81-83 | an iteration can draw exactly when the terminal size query and the frame decode both succeed; `PlayFrames` aborts at the first tick that is not drawable |
| `Playback.ShownFor` | src/main.rs:80-95 | what one iteration draws and sleeps: the `Render` of its image at that iteration's terminal size, then `SleepFor` of its elapsed time; `PlayFrames` proves each shown frame equal to it |
| `Playback.PlayFrames` | src/main.rs:79-96 | frames are shown in list order, each once, each as `Render` of its image at that iteration's terminal size followed by `SleepFor` of its time; all are shown exactly when all can be drawn, otherwise playback stops at the first that cannot |

## Left out

- Opening and decoding a frame file (`ImageReader::open/decode/to_luma8`): a foreign library. The renderer takes the decoded luminance grid. A failed decode is one case of `Tick.image == None`.
- Listing the frame directory and its `unwrap` panics, and `frames.sort()`, a library sort of paths: `PlayFrames` takes the already-sorted list.
- Converting a path to `&str` (`to_str().unwrap()`): paths are strings in the model.
- Spawning `cvlc` and waiting on it: process I/O.
- The terminal size query, the cursor/clear escape sequences and `println!`/`print!`: terminal I/O. The size of each iteration is an input, and a failed query is `Tick.size == None`. `Shown.art` is the frame text alone; the `'\n'` that `println!` writes after the clear sequence, before the frame, is not part of it.
- Decoded images with zero width or height: `Image.Valid` requires both sides to be at least 1. With `tw, th >= 1` the source would fail on such an image (`img.width() - 1` underflows in a debug build, `get_pixel` goes out of bounds in a release build); the model assumes the decoder never yields one.
- The clock and `sleep`: the elapsed time of each frame is an input. Only the sleep amount is computed.
- Playback.Schedule: the sum assumes every sleep lasts exactly what it asks for and that the untimed rest of each iteration (the branch, the sleep call, dropping the frame text, the next `Instant::now()`) takes no time. `std::thread::sleep` may oversleep, so `ScheduleOnTime` and `ScheduleOverrun` give the real time only as a lower bound, and `ScheduleAtLeastTarget` still bounds the real time from below.
- `f32` rounding: the scale and the thresholds are exact integers and rationals. When `i * scale` lies at or near an integer boundary, `f32` could round across it. Very large image sides (above 2^24) are not exactly representable in `f32`. The model does not capture either effect.
- The `String::with_capacity((term_width * term_height) as usize)` hint only reserves memory, so it is not modelled. Its `u16` product overflows on terminals of more than 65535 cells. This panics in a debug build and wraps harmlessly in a release build.
- Terminal sizes are unbounded naturals rather than `u16`. This makes no difference to the output.
