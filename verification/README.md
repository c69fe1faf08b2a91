# rumpus simulate: a Dafny model

This project models the `simulate` subcommand of the rumpus command-line tool
(`src/simulate.rs`). The subcommand renders a synthetic image of the sky's
angle of polarization as a camera would see it. A run has these steps:

- Read the parameters, or take the defaults: a 1024 by 1224 sensor with 6.9 µm
  pixels and an 8 mm lens, at 44.2187° N, 76.4747° W, on 2025-06-13 at
  16:26:47 UTC.
- Enumerate every sensor pixel in row-major order.
- Place each pixel on the sensor plane and trace it through the camera to a
  bearing.
- Ask the sky model for that bearing's angle of polarization. A pixel the sky
  model does not answer for is dropped.
- Assemble the rays into a ray image.
- Encode the image with one of two encoders:
  - a PNG raster, coloured with the `to_rgb` false-colour map (white where no
    ray was traced);
  - a plain-text `.dat` grid with one line per sensor row.
- The encoder is the `--format` given on the command line. Without one, the
  output file's extension (`png` or `dat`) decides.

Modules:

- `Common`: the `Option`/`Result` wrappers, bytes and `u16`, pixels, and the
  errors. Every `expect`/`unwrap` panic of the program is an error value
  here; `Error.IsPanic` tells these apart from the program's own `Err` results.
- `Colormap`: `to_rgb` with Rust's checked `u8` arithmetic written out.
- `OutputFormat`: choosing the encoder.
- `Layout`: row-major flattening and pixel enumeration.
- `Tracing`: locating, tracing and observing pixels.
- `RayImages`: the ray image and its assembly.
- `Encoders`: `write_image`, `write_dat`, and the `u16` index arithmetic of
  `write_dat`.
- `Simulation`: the parameters, `simulate` and `run`.

The sensor, the lens and camera, and the sky model are functions the caller
supplies: `atPixel`, `trace` and `sky`. The model proves what the program
does with their answers, whatever the answers are.

## Model

| member | source | states |
|---|---|---|
| Colormap.Quadruple | src/simulate.rs:236-237 | `checked_mul(4).unwrap_or(u8::MAX)` is four times the value below 64 and 255 from 64 on |
| Colormap.Excess | src/simulate.rs:234-235 | `checked_sub(t).unwrap_or(u8::MIN)` is 0 up to the threshold and the distance above it beyond it |
| Colormap.SumOrZero | src/simulate.rs:268-269 | `checked_add(127).unwrap_or(u8::MIN)` is the sum while it fits in a byte and 0 once it overflows |
| Colormap.Min3 | src/simulate.rs:244-246 | the minimum of the three candidates is at most each of them and equal to one of them |
| Colormap.Red | src/simulate.rs:231-246 | red as a closed-form piecewise ramp of the normalised value: 0 to 96, slope 4 to 160, 255 to 224, then falling by 4 per step |
| Colormap.Green | src/simulate.rs:248-263 | green as a piecewise ramp: 0 to 32, rising to 255 at 96, 255 to 160, falling to 0 at 224, 0 after |
| Colormap.Blue | src/simulate.rs:265-280 | blue is 255 to 96, then falls by 4 per step to 127 at 128, and is 0 from 129 on because the `checked_add` fallback is `u8::MIN` |
| Colormap.ColorOfNorm | src/simulate.rs:231-282 | normalised value 0 maps to pure blue (0, 0, 255) and 255 maps to (131, 0, 0) |
| Colormap.ChannelSteps | src/simulate.rs:231-280 | between neighbouring normalised values, red and green change by at most 4; blue does too except from 128 to 129, where it drops by 127 |
| Colormap.SaturatingCast | src/simulate.rs:229 | the `as u8` cast of a floored value keeps values in 0..=255 and clamps the rest to 0 or 255 |
| Colormap.Normalise | src/simulate.rs:228-229 | the lower end of the interval normalises to 0 and the upper end of a non-empty interval to 255 |
| Colormap.NormaliseBounds | src/simulate.rs:228-229 | the scaled value of an in-range input lies in [0, 255] |
| Colormap.NormaliseIsFloor | src/simulate.rs:228-229 | on a non-empty interval the normalised byte is exactly the floor of the scaled value, so the cast never clamps |
| Colormap.ToRgb | src/simulate.rs:223-226 | no colour exactly when the value is outside the closed interval |
| Colormap.ToRgbEndpoints | src/simulate.rs:223-283 | the interval's lower end is coloured pure blue and its upper end (131, 0, 0) |
| OutputFormat.Infer | src/simulate.rs:107-115 | an extension names PNG exactly when it is the text `png`, and DAT exactly when it is `dat` (case-sensitive) |
| OutputFormat.Choose | src/simulate.rs:106-116 | an explicit format always wins; otherwise the extension decides; there is no format exactly when neither is given |
| OutputFormat.Select | src/simulate.rs:106-126 | the run gets an encoder exactly when a format is explicit or the extension is `png` or `dat`; otherwise the error is "unsupported output format" |
| OutputFormat.OnlyExactExtensionsSelect | src/simulate.rs:112-114 | upper-case, other, empty, missing and non-Unicode extensions all yield "unsupported output format" |
| Layout.FlattenLength | src/simulate.rs:137-138 | a grid whose rows all have `width` cells flattens to rows × width cells |
| Layout.FlattenCell | src/simulate.rs:137-138 | flattening puts cell (r, c) at position r × width + c |
| Layout.FlattenIndex | src/simulate.rs:137-138 | every cell of a uniform grid is at its row-major position in the flattening |
| Layout.EnumeratePositions | src/simulate.rs:137-138 | the pixel enumeration has rows × cols entries, each on the sensor and at its own row-major index |
| Layout.EnumerateRowMajor | src/simulate.rs:137-138 | every sensor pixel is enumerated, at index row × cols + col, and no pixel is enumerated twice |
| Tracing.LocateAll | src/simulate.rs:137-140 | locating succeeds exactly when every pixel has a sensor point, keeping pixel order; otherwise the error names an enumerated pixel without a point |
| Tracing.Observe | src/simulate.rs:148-155 | tracing fails exactly when the point has no bearing; a ray is kept exactly when the sky model answers, and carries that angle and degree of polarization 0 |
| Tracing.TraceAll | src/simulate.rs:146-156 | tracing every pixel succeeds exactly when every point traces; the rays are exactly the observed ones, and there are no more of them than located pixels |
| Tracing.TraceAllDistinct | src/simulate.rs:146-156 | rays traced from distinct pixels belong to distinct pixels, each one of the traced pixels |
| RayImages.Blank | src/simulate.rs:158 | a fresh image of the stated size has every cell empty |
| RayImages.Place | src/simulate.rs:158 | placing a ray fails exactly when its pixel is off the grid or already taken; otherwise it fills that cell and no other |
| RayImages.Assemble | src/simulate.rs:158 | an assembled image has the sensor's shape with every ray in its own pixel's cell; assembly fails only on an off-grid or duplicate pixel |
| RayImages.AssembleCells | src/simulate.rs:158 | after assembly, a cell is taken exactly when some ray has its pixel, and it holds that ray |
| RayImages.AssembleSucceedsIff | src/simulate.rs:158 | assembly succeeds exactly when all rays are on the grid and no two share a pixel |
| RayImages.SharedPixelCollides | src/simulate.rs:158 | two rays for one pixel always make assembly fail |
| RayImages.Cells | src/simulate.rs:177-178 | the cells in `ray_pixels` order number rows × cols, with cell (r, c) at r × cols + c |
| Encoders.CellRgb | src/simulate.rs:179-183 | an empty cell is white; a ray's colour fails exactly when its angle is outside [-90, 90]; otherwise the three bytes of `to_rgb(aop, -90, 90)` |
| Encoders.RasterBytes | src/simulate.rs:177-184 | the buffer exists exactly when every cell has a colour; it holds three bytes per cell, and cell i's colour at bytes 3i to 3i+2 |
| Encoders.WriteImage | src/simulate.rs:169-196 | the raster succeeds exactly when every ray's angle is on [-90, 90]; it is cols wide and rows high, and holds each pixel's colour at its row-major position |
| Encoders.CellsColourable | src/simulate.rs:177-184 | all row-major cells are colourable exactly when every ray in the grid has an angle on [-90, 90] |
| Encoders.AopValues | src/simulate.rs:201-207 | the `aop_image` vector has one value per cell of the image, in row-major order: the cell's angle, or NaN for an empty cell |
| Encoders.WriteRow | src/simulate.rs:212-215 | reading the values from a row's first index on, one token per column, yields exactly that row's tokens |
| Encoders.WriteDat | src/simulate.rs:198-220 | reading the flattened values at index row × cols + col yields the grid written row by row: each row's tokens followed by one newline |
| Encoders.DatTextLines | src/simulate.rs:211-217 | when no token contains a line break, the text has exactly one line per sensor row |
| Encoders.MulU16 | src/simulate.rs:213 | `u16` multiplication is exact without overflow; on overflow a debug build panics; a release build always gives the product modulo 2^16 |
| Encoders.AddU16 | src/simulate.rs:213 | `u16` addition is exact without overflow; on overflow a debug build panics; a release build always gives the sum modulo 2^16 |
| Encoders.DatIndexU16 | src/simulate.rs:213 | the `u16` index is exact below 2^16; a debug build panics exactly when the true index reaches 2^16; a release build gives the true index modulo 2^16 |
| Encoders.DatIndexU16ExactIff | src/simulate.rs:211-214 | the `u16` index is right for every cell exactly when rows × cols is at most 2^16 |
| Simulation.Wgs84 | src/simulate.rs:71-79 | the observer position exists exactly when the latitude is on [-90, 90], keeping latitude and longitude; otherwise the latitude error |
| Simulation.Simulate | src/simulate.rs:129-159 | a simulated image has the configured number of rows and columns, with each ray in its own pixel's cell |
| Simulation.TracedRaysFitSensor | src/simulate.rs:146-158 | rays traced from the enumerated sensor are on the sensor, at most one per pixel, so the "no ray hits the same pixel" `expect` cannot fail |
| Simulation.SimulateNeverCollides | src/simulate.rs:129-159 | simulation only fails on a bad focal length, a pixel off the sensor, a bad latitude, or a point without a bearing; every failure but the bad latitude is a panic |
| Simulation.SimulateSucceedsIff | src/simulate.rs:129-159 | simulation succeeds exactly when the focal length is positive, the latitude is valid, and every sensor pixel has a point that traces to a bearing |
| Simulation.SimulateCells | src/simulate.rs:137-158 | every cell of the image equals that pixel's directly computed ray: the sky's angle with degree of polarization 0, or empty where the sky does not answer |
| Simulation.LatitudeCheckedBeforeTracing | src/simulate.rs:137-142 | with every pixel on the sensor, a bad latitude stops the run before tracing, whatever the camera would answer |
| Simulation.SimulateInRange | src/simulate.rs:146-158 | a sky model that answers within [-90, 90] gives an image the colour map accepts everywhere |
| Simulation.DefaultsAreValid | src/simulate.rs:37-52 | the default parameters pass the focal-length and latitude checks |
| Simulation.DefaultSensorOverflowsDatIndex | src/simulate.rs:42-43 | the default sensor has more than 2^16 cells; cell (53, 663) has the last index that fits; at cell (53, 664) a debug build panics and a release build reads cell (0, 0); at cell (54, 0), index 66096, a release build reads cell (0, 560) |
| Simulation.Run | src/simulate.rs:94-127 | simulation errors come first, then "unsupported output format"; once simulation succeeds, the DAT branch always succeeds with the grid's text, and the PNG branch succeeds exactly when every angle is on [-90, 90], yielding the raster of `write_image` (sensor dimensions, each pixel's colour); there are no collision errors |

## Left out

- Encoders.WriteDat: computes the index `row * cols + col` in unbounded
  integers, without the `u16` overflow of the program. It is the corrected
  definition of the Findings row; above 2^16 sensor cells a debug build of the
  program panics and a release build reads wrapped indices, which
  `Encoders.DatIndexU16` models.
- Simulation.Run: the DAT branch writes with the corrected `Encoders.WriteDat`,
  whose index cannot overflow. Above 2^16 sensor cells (the default sensor
  included) the program departs from it: a debug build panics at the first
  overflowing cell and a release build writes wrapped reads. The program's
  `u16` index is modelled separately by `Encoders.DatIndexU16` (see
  Findings).
- Floating point: angles, the scaled colour-map value and the parameters are
  exact reals. The IEEE-754 rounding of `(x - x_min) / width * 255.` is not
  modelled, except that a zero-width interval gives 0, as a NaN cast to `u8`
  does.
- Colormap.Normalise: states only the two endpoints and, through
  `NormaliseIsFloor`, the floor relation. It does not model `f64` rounding,
  so values that sit exactly on a byte boundary in real arithmetic may land
  one byte apart in the program.
- The `{:5}` formatting of an `f64` (including how NaN prints) is a `render`
  function the caller supplies. The grid text is proved in terms of it.
- The lens, image sensor, camera, orientation and sky model come from the
  `rumpus`, `sguaba` and `uom` crates, which are not part of this model.
  - They are the functions `atPixel`, `trace` and `sky`.
  - The pixel size, yaw, pitch, roll and time only reach the program
    through them. The sensor's row and column counts are used directly.
  - `Lens::from_focal_length` is modelled only as rejecting a non-positive
    focal length.
- `RayImage::from_rays_with_sensor` is not part of this model. It is modelled
  as placing each ray in the cell of its pixel: a `Ray` carries the pixel its
  sensor point came from, and the program's mapping back from sensor point to
  pixel is taken to be that pixel's inverse. The encoders read the image
  through `ray_pixels`, whose source is not part of this model either; it is
  assumed to yield the cells row by row, column 0 first within a row.
- Tracing runs in parallel (`par_iter`). When several pixels fail to trace,
  which one aborts the run is not fixed; the model reports the earliest.
- Reading and parsing the TOML parameter file (`parse_params`), creating and
  writing files, and `image::save_buffer` are I/O and are not modelled.
  - `Run` takes the parameters, or none for the defaults.
  - The PNG encoder's result is the raster handed to `save_buffer`.
  - The grid encoder's result is the text written to the file.
- `Path::extension` is an input: `OutputFormat.Extension` is what it and
  `OsStr::to_str` yield.
- Wgs84 normalisation of the longitude is done by `sguaba` and is not
  modelled; the longitude is passed through unchanged.
- The `try_into()` from `u16` to `usize` in `write_dat` cannot fail and is
  not modelled as a failure.
- The other subcommands (`src/cli.rs`, `src/main.rs`, `src/intensity.rs`) are
  not part of this model.
- The blue channel follows the code: from normalised value 129 on, the
  overflowing `checked_add(127)` falls back to `u8::MIN`, so blue is 0. Had
  the fallback been `u8::MAX`, blue would instead fall as 255 - 4·(x - 96) on
  129..159; everywhere else the two agree.

## Findings

| source | as written | input that shows it | evidently intended | confidence | as-written member | corrected member |
|---|---|---|---|---|---|---|
| src/simulate.rs:213 | `row * cols + col` is computed in `u16` | the default 1024 × 1224 sensor, cell (53, 664): true index 65536 = 2^16; a debug build panics there, a release build reads cell (0, 0) there and wrong cells after it, e.g. cell (0, 560) for cell (54, 0) | the index of every cell, computed in `usize` | high; not executed | Encoders.DatIndexU16 (with Simulation.DefaultSensorOverflowsDatIndex and Encoders.DatIndexU16ExactIff) | Encoders.WriteDat |
