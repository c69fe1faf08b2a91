/** The simulation run (src/simulate.rs, `Params`, `simulate` and `run`):
    configuration, tracing every sensor pixel into a ray image, and writing
    that image with the chosen encoder. The lens, sensor, camera and sky
    model are opaque functions supplied by the caller, already bound to the
    configured focal length, pixel size, physical sensor extent and
    orientation. */
module Simulation {
  import opened Common
  import opened Layout
  import opened Tracing
  import opened RayImages
  import opened Encoders
  import opened OutputFormat

  /** The simulation parameters. The time is kept as its text. */
  datatype Params = Params(
    pixelSizeUm: real,
    focalLengthMm: real,
    imageRows: U16,
    imageCols: U16,
    yawDeg: real,
    pitchDeg: real,
    rollDeg: real,
    latDeg: real,
    lonDeg: real,
    time: string)

  /** `Params::default()`. */
  function Defaults(): Params {
    Params(3.45 * 2.0, 8.0, 1024, 1224, 0.0, 0.0, 0.0, 44.2187, -76.4747, "2025-06-13T16:26:47+00:00")
  }

  /** The parameters a run uses: those read from the configuration file, or
      the defaults when none is given. */
  function ParamsOf(config: Option<Params>): Params {
    match config
    case Some(p) => p
    case None => Defaults()
  }

  /** An observer position on the WGS84 ellipsoid. */
  datatype Location = Location(latDeg: real, lonDeg: real, altitudeM: real)

  /** `Params::wgs84`: the observer position at altitude 0, refused when the
      latitude lies outside [-90, 90] degrees. */
  function Wgs84(p: Params): (r: Result<Location>)
    ensures r.Success? <==> -90.0 <= p.latDeg <= 90.0
    ensures r.Failure? ==> r.error == InvalidLatitude
    ensures r.Success? ==> r.value.latDeg == p.latDeg && r.value.lonDeg == p.lonDeg
  {
    if -90.0 <= p.latDeg <= 90.0 then Success(Location(p.latDeg, p.lonDeg, 0.0))
    else Failure(InvalidLatitude)
  }

  /** `SkyModel::from_wgs84_and_time`: the sky model bound to a place and a
      time, answering per bearing. */
  function SkyAt<B>(sky: (Location, string, B) -> Option<real>, loc: Location, time: string): B -> Option<real> {
    b => sky(loc, time, b)
  }

  /** `simulate`: the lens is built first (a non-positive focal length makes
      its `expect` fail), then every pixel is placed on the sensor in
      row-major order, then the observer position is checked, then every
      located pixel is traced and the rays are assembled into an image. */
  function Simulate<P, B>(
    p: Params,
    atPixel: Pixel -> Option<P>,
    trace: P -> Option<B>,
    sky: (Location, string, B) -> Option<real>): (r: Result<RayImage>)
    ensures r.Success? ==> WellFormed(r.value) && r.value.rows == p.imageRows && r.value.cols == p.imageCols
  {
    if p.focalLengthMm <= 0.0 then Failure(NonPositiveFocalLength)
    else
      match LocateAll(Enumerate(p.imageRows, p.imageCols), atPixel)
      case Failure(e) => Failure(e)
      case Success(locs) =>
        match Wgs84(p)
        case Failure(e) => Failure(e)
        case Success(loc) =>
          match TraceAll(locs, trace, SkyAt(sky, loc, p.time))
          case Failure(e) => Failure(e)
          case Success(rays) => Assemble(p.imageRows, p.imageCols, rays)
  }

  /** True when the pixel has a point on the sensor plane and that point
      traces to a bearing. */
  predicate Traceable<P, B>(q: Pixel, atPixel: Pixel -> Option<P>, trace: P -> Option<B>) {
    atPixel(q).Some? && trace(atPixel(q).value).Some?
  }

  /** The ray of one pixel, computed directly: the sky model's angle for the
      bearing the pixel sees, with degree of polarization 0, or nothing. */
  function PixelRay<P, B>(q: Pixel, atPixel: Pixel -> Option<P>, trace: P -> Option<B>, sky: B -> Option<real>): Option<Ray> {
    match atPixel(q)
    case None => None
    case Some(point) =>
      match trace(point)
      case None => None
      case Some(bearing) =>
        match sky(bearing)
        case None => None
        case Some(aop) => Some(Ray(q, aop, 0.0))
  }

  /** The rays traced from the enumerated sensor are at most one per pixel,
      all on the sensor and none sharing a pixel; so the `expect` on
      assembling them ("no ray hits the same pixel") never fails. */
  lemma TracedRaysFitSensor<P, B>(rows: U16, cols: U16, locs: seq<Located<P>>, trace: P -> Option<B>, sky: B -> Option<real>)
    requires LocatedPixels(locs) == Enumerate(rows, cols)
    requires TraceAll(locs, trace, sky).Success?
    ensures |TraceAll(locs, trace, sky).value| <= rows * cols
    ensures Distinct(RayPixels(TraceAll(locs, trace, sky).value))
    ensures forall ray :: ray in TraceAll(locs, trace, sky).value ==> InBounds(ray.pixel, rows, cols)
    ensures Assemble(rows, cols, TraceAll(locs, trace, sky).value).Success?
  {
    var rays := TraceAll(locs, trace, sky).value;
    EnumerateRowMajor(rows, cols);
    EnumeratePositions(rows, cols);
    TraceAllDistinct(locs, trace, sky);
    forall ray | ray in rays
      ensures InBounds(ray.pixel, rows, cols)
    {
      var k :| 0 <= k < |locs| && LocatedPixels(locs)[k] == ray.pixel;
    }
    AssembleSucceedsIff(rows, cols, rays);
  }

  /** The simulation never stops on a collision or an off-grid ray: the
      only ways it stops are a bad focal length, a pixel off the sensor, a
      bad latitude, or a pixel that does not trace to a bearing. Of these only
      the bad latitude is an error the program returns; the rest are panics. */
  lemma SimulateNeverCollides<P, B>(
    p: Params,
    atPixel: Pixel -> Option<P>,
    trace: P -> Option<B>,
    sky: (Location, string, B) -> Option<real>)
    ensures Simulate(p, atPixel, trace, sky).Failure? ==>
              Simulate(p, atPixel, trace, sky).error in
                {NonPositiveFocalLength, InvalidLatitude} ||
              Simulate(p, atPixel, trace, sky).error.PixelOffSensor? ||
              Simulate(p, atPixel, trace, sky).error.BearingUnavailable?
    ensures Simulate(p, atPixel, trace, sky).Failure? ==>
              (Simulate(p, atPixel, trace, sky).error.IsPanic() <==>
               Simulate(p, atPixel, trace, sky).error != InvalidLatitude)
  {
    var pixels := Enumerate(p.imageRows, p.imageCols);
    if p.focalLengthMm > 0.0 && LocateAll(pixels, atPixel).Success? && Wgs84(p).Success? {
      var locs := LocateAll(pixels, atPixel).value;
      var sk := SkyAt(sky, Wgs84(p).value, p.time);
      if TraceAll(locs, trace, sk).Success? {
        TracedRaysFitSensor(p.imageRows, p.imageCols, locs, trace, sk);
      }
    }
  }

  /** The simulation succeeds exactly when the focal length is positive, the
      latitude is valid and every pixel of the sensor traces to a bearing. */
  lemma SimulateSucceedsIff<P, B>(
    p: Params,
    atPixel: Pixel -> Option<P>,
    trace: P -> Option<B>,
    sky: (Location, string, B) -> Option<real>)
    ensures Simulate(p, atPixel, trace, sky).Success? <==>
              && p.focalLengthMm > 0.0
              && -90.0 <= p.latDeg <= 90.0
              && forall row, col :: 0 <= row < p.imageRows && 0 <= col < p.imageCols ==>
                   Traceable(Pixel(row, col), atPixel, trace)
  {
    var rows, cols := p.imageRows, p.imageCols;
    var pixels := Enumerate(rows, cols);
    SensorTraceable(rows, cols, atPixel, trace);
    if p.focalLengthMm > 0.0 && LocateAll(pixels, atPixel).Success? && Wgs84(p).Success? {
      var locs := LocateAll(pixels, atPixel).value;
      var sk := SkyAt(sky, Wgs84(p).value, p.time);
      if TraceAll(locs, trace, sk).Success? {
        TracedRaysFitSensor(rows, cols, locs, trace, sk);
      }
    }
  }

  /** Every pixel of the sensor is traceable exactly when locating the
      enumerated pixels succeeds and every located point traces. */
  lemma SensorTraceable<P, B>(rows: U16, cols: U16, atPixel: Pixel -> Option<P>, trace: P -> Option<B>)
    ensures (forall row, col :: 0 <= row < rows && 0 <= col < cols ==> Traceable(Pixel(row, col), atPixel, trace)) <==>
            && LocateAll(Enumerate(rows, cols), atPixel).Success?
            && forall i :: 0 <= i < |LocateAll(Enumerate(rows, cols), atPixel).value| ==>
                 trace(LocateAll(Enumerate(rows, cols), atPixel).value[i].point).Some?
  {
    var pixels := Enumerate(rows, cols);
    EnumerateRowMajor(rows, cols);
    EnumeratePositions(rows, cols);
    if forall row, col :: 0 <= row < rows && 0 <= col < cols ==> Traceable(Pixel(row, col), atPixel, trace) {
      forall i | 0 <= i < |pixels|
        ensures Traceable(pixels[i], atPixel, trace)
      {
        assert pixels[i] == Pixel(pixels[i].row, pixels[i].col);
      }
    }
    if LocateAll(pixels, atPixel).Success? {
      var locs := LocateAll(pixels, atPixel).value;
      if forall i :: 0 <= i < |locs| ==> trace(locs[i].point).Some? {
        forall row, col | 0 <= row < rows && 0 <= col < cols
          ensures Traceable(Pixel(row, col), atPixel, trace)
        {
          var k := Index(Pixel(row, col), cols);
          assert pixels[k] == Pixel(row, col);
          assert trace(locs[k].point).Some?;
        }
      }
    }
  }

  /** Every cell of the simulated image holds exactly the ray computed
      directly for its pixel: a ray with the sky model's angle and degree of
      polarization 0 where the sky model answers, nothing where it does not. */
  lemma SimulateCells<P, B>(
    p: Params,
    atPixel: Pixel -> Option<P>,
    trace: P -> Option<B>,
    sky: (Location, string, B) -> Option<real>)
    requires Simulate(p, atPixel, trace, sky).Success?
    ensures forall row, col :: 0 <= row < p.imageRows && 0 <= col < p.imageCols ==>
              Simulate(p, atPixel, trace, sky).value.grid[row][col] ==
              PixelRay(Pixel(row, col), atPixel, trace, SkyAt(sky, Location(p.latDeg, p.lonDeg, 0.0), p.time))
  {
    var rows, cols := p.imageRows, p.imageCols;
    var locs := LocateAll(Enumerate(rows, cols), atPixel).value;
    var sk := SkyAt(sky, Location(p.latDeg, p.lonDeg, 0.0), p.time);
    assert Wgs84(p) == Success(Location(p.latDeg, p.lonDeg, 0.0));
    var rays := TraceAll(locs, trace, sk).value;
    assert Simulate(p, atPixel, trace, sky) == Assemble(rows, cols, rays);
    forall row, col | 0 <= row < rows && 0 <= col < cols
      ensures Assemble(rows, cols, rays).value.grid[row][col] == PixelRay(Pixel(row, col), atPixel, trace, sk)
    {
      TracedCell(rows, cols, atPixel, trace, sk, Pixel(row, col));
    }
  }

  /** The cell of one pixel, once the whole sensor has been located, traced
      and assembled, is that pixel's directly computed ray. */
  lemma TracedCell<P, B>(rows: U16, cols: U16, atPixel: Pixel -> Option<P>, trace: P -> Option<B>, sk: B -> Option<real>, q: Pixel)
    requires LocateAll(Enumerate(rows, cols), atPixel).Success?
    requires TraceAll(LocateAll(Enumerate(rows, cols), atPixel).value, trace, sk).Success?
    requires InBounds(q, rows, cols)
    ensures var rays := TraceAll(LocateAll(Enumerate(rows, cols), atPixel).value, trace, sk).value;
            Assemble(rows, cols, rays).Success? &&
            Assemble(rows, cols, rays).value.grid[q.row][q.col] == PixelRay(q, atPixel, trace, sk)
  {
    var pixels := Enumerate(rows, cols);
    EnumerateRowMajor(rows, cols);
    var locs := LocateAll(pixels, atPixel).value;
    TracedRaysFitSensor(rows, cols, locs, trace, sk);
    var k := Index(q, cols);
    assert LocatedPixels(locs)[k] == q;
    assert atPixel(q) == Some(locs[k].point);
    AssembledObservation(rows, cols, locs, trace, sk, k);
  }

  /** After tracing located pixels without repeats and assembling the rays,
      the cell of each located pixel holds what observing that pixel gave. */
  lemma AssembledObservation<P, B>(rows: nat, cols: nat, locs: seq<Located<P>>, trace: P -> Option<B>, sk: B -> Option<real>, k: nat)
    requires Distinct(LocatedPixels(locs))
    requires TraceAll(locs, trace, sk).Success?
    requires Assemble(rows, cols, TraceAll(locs, trace, sk).value).Success?
    requires k < |locs| && InBounds(locs[k].pixel, rows, cols)
    ensures Assemble(rows, cols, TraceAll(locs, trace, sk).value).value.grid[locs[k].pixel.row][locs[k].pixel.col] ==
            Observe(locs[k], trace, sk).value
  {
    CellIsObservation(rows, cols, locs, trace, sk, k);
    ObservationIsCell(rows, cols, locs, trace, sk, k);
  }

  /** A taken cell holds the observation of the located pixel it belongs to. */
  lemma CellIsObservation<P, B>(rows: nat, cols: nat, locs: seq<Located<P>>, trace: P -> Option<B>, sk: B -> Option<real>, k: nat)
    requires Distinct(LocatedPixels(locs))
    requires TraceAll(locs, trace, sk).Success?
    requires Assemble(rows, cols, TraceAll(locs, trace, sk).value).Success?
    requires k < |locs| && InBounds(locs[k].pixel, rows, cols)
    ensures var cell := Assemble(rows, cols, TraceAll(locs, trace, sk).value).value.grid[locs[k].pixel.row][locs[k].pixel.col];
            cell.Some? ==> Observe(locs[k], trace, sk) == Success(cell)
  {
    var q := locs[k].pixel;
    var rays := TraceAll(locs, trace, sk).value;
    var img := Assemble(rows, cols, rays).value;
    TakenCell(rows, cols, rays, q);
    if img.grid[q.row][q.col].Some? {
      var j :| 0 <= j < |rays| && RayPixels(rays)[j] == q;
      CellOfRay(rows, cols, rays, j);
      var ray := rays[j];
      assert ray in rays;
      var i := TracedRayOrigin(locs, trace, sk, ray);
      assert LocatedPixels(locs)[i] == LocatedPixels(locs)[k];
    }
  }

  /** An observed ray lands in the cell of its located pixel. */
  lemma ObservationIsCell<P, B>(rows: nat, cols: nat, locs: seq<Located<P>>, trace: P -> Option<B>, sk: B -> Option<real>, k: nat)
    requires TraceAll(locs, trace, sk).Success?
    requires Assemble(rows, cols, TraceAll(locs, trace, sk).value).Success?
    requires k < |locs| && InBounds(locs[k].pixel, rows, cols)
    ensures Observe(locs[k], trace, sk).value.Some? ==>
              Assemble(rows, cols, TraceAll(locs, trace, sk).value).value.grid[locs[k].pixel.row][locs[k].pixel.col] ==
              Observe(locs[k], trace, sk).value
  {
    var rays := TraceAll(locs, trace, sk).value;
    if Observe(locs[k], trace, sk).value.Some? {
      var ray := Observe(locs[k], trace, sk).value.value;
      assert ray in rays;
      var j :| 0 <= j < |rays| && rays[j] == ray;
      CellOfRay(rows, cols, rays, j);
    }
  }

  /** A latitude outside [-90, 90] stops the run before any pixel is traced,
      whatever the camera and sky model would have answered. */
  lemma LatitudeCheckedBeforeTracing<P, B>(
    p: Params,
    atPixel: Pixel -> Option<P>,
    trace: P -> Option<B>,
    sky: (Location, string, B) -> Option<real>)
    requires p.focalLengthMm > 0.0 && !(-90.0 <= p.latDeg <= 90.0)
    requires forall row, col :: 0 <= row < p.imageRows && 0 <= col < p.imageCols ==> atPixel(Pixel(row, col)).Some?
    ensures Simulate(p, atPixel, trace, sky) == Failure(InvalidLatitude)
  {
    var pixels := Enumerate(p.imageRows, p.imageCols);
    EnumeratePositions(p.imageRows, p.imageCols);
    forall i | 0 <= i < |pixels|
      ensures atPixel(pixels[i]).Some?
    {
      assert pixels[i] == Pixel(pixels[i].row, pixels[i].col);
    }
  }

  /** The default configuration passes the focal-length and latitude checks. */
  lemma DefaultsAreValid()
    ensures Defaults().focalLengthMm > 0.0
    ensures Wgs84(Defaults()).Success?
  {
  }

  /** The default 1024 by 1224 sensor has more cells than a `u16` index can
      address. Cell (53, 663) has index 65535, the last that fits; at cell
      (53, 664) the addition overflows, so a debug build panics there and a
      release build reads cell (0, 0). From then on a release build keeps
      reading the wrong cell: at (54, 0), whose index is 66096, it reads
      cell (0, 560). */
  lemma DefaultSensorOverflowsDatIndex()
    ensures Defaults().imageRows * Defaults().imageCols > 0x1_0000
    ensures DatIndexU16(Debug, 53, 663, Defaults().imageCols) == Some(0xFFFF)
    ensures DatIndexU16(Debug, 53, 664, Defaults().imageCols).None?
    ensures DatIndexU16(Release, 53, 664, Defaults().imageCols) == Some(Index(Pixel(0, 0), Defaults().imageCols))
    ensures Index(Pixel(54, 0), Defaults().imageCols) == 66096
    ensures DatIndexU16(Release, 54, 0, Defaults().imageCols) == Some(Index(Pixel(0, 560), Defaults().imageCols))
  {
  }

  /** What a run leaves behind: a PNG raster or the text of a grid file. */
  datatype Artifact = PngFile(raster: Raster) | DatFile(text: string)

  /** True when the sky model only ever answers with angles on [-90, 90]. */
  ghost predicate SkyInRange<B(!new)>(sky: (Location, string, B) -> Option<real>) {
    forall loc, time, b :: sky(loc, time, b).Some? ==> -90.0 <= sky(loc, time, b).value <= 90.0
  }

  /** `run`: simulate with the configured (or default) parameters, then
      encode with the explicitly chosen format or the one the output
      extension names, or stop with "unsupported output format". */
  method Run<P, B(!new)>(
    config: Option<Params>,
    explicit: Option<Format>,
    ext: Extension,
    atPixel: Pixel -> Option<P>,
    trace: P -> Option<B>,
    sky: (Location, string, B) -> Option<real>,
    render: F64 -> string) returns (r: Result<Artifact>)
    ensures var s := Simulate(ParamsOf(config), atPixel, trace, sky);
            s.Failure? ==> r == Failure(s.error)
    ensures var s := Simulate(ParamsOf(config), atPixel, trace, sky);
            s.Success? && Choose(explicit, ext).None? ==> r == Failure(UnsupportedFormat)
    ensures r.Failure? ==> !r.error.DuplicatePixel? && !r.error.PixelOutOfBounds?
    ensures SkyInRange(sky) ==> r.Failure? ==> !r.error.AopOutOfRange?
    ensures var s := Simulate(ParamsOf(config), atPixel, trace, sky);
            r.Success? && r.value.PngFile? ==>
              && Choose(explicit, ext) == Some(Png)
              && s.Success?
              && r.value.raster.width == ParamsOf(config).imageCols
              && r.value.raster.height == ParamsOf(config).imageRows
              && |r.value.raster.rgb| == 3 * (ParamsOf(config).imageRows * ParamsOf(config).imageCols)
    ensures var s := Simulate(ParamsOf(config), atPixel, trace, sky);
            s.Success? && Choose(explicit, ext) == Some(Png) ==>
              && (r.Success? <==> AopsInRange(s.value))
              && (r.Success? ==> r == Success(PngFile(WriteImage(s.value).value)))
              && (r.Failure? ==> r == Failure(WriteImage(s.value).error))
    ensures var s := Simulate(ParamsOf(config), atPixel, trace, sky);
            s.Success? && Choose(explicit, ext) == Some(Dat) ==> r == Success(DatFile(DatText(s.value.grid, render)))
    ensures var s := Simulate(ParamsOf(config), atPixel, trace, sky);
            r.Success? && r.value.DatFile? ==>
              && Choose(explicit, ext) == Some(Dat)
              && s.Success?
              && r.value.text == DatText(s.value.grid, render)
  {
    var p := ParamsOf(config);
    SimulateNeverCollides(p, atPixel, trace, sky);
    var simulated := Simulate(p, atPixel, trace, sky);
    if simulated.Failure? {
      return Failure(simulated.error);
    }
    var img := simulated.value;
    match Choose(explicit, ext)
    case None =>
      r := Failure(UnsupportedFormat);
    case Some(Png) =>
      if SkyInRange(sky) {
        SimulateInRange(p, atPixel, trace, sky);
      }
      var written := WriteImage(img);
      if written.Failure? {
        r := Failure(written.error);
      } else {
        r := Success(PngFile(written.value));
      }
    case Some(Dat) =>
      var text := WriteDat(img, render);
      r := Success(DatFile(text));
  }

  /** A sky model that keeps to [-90, 90] yields an image every ray of which
      the colour map accepts. */
  lemma SimulateInRange<P, B(!new)>(
    p: Params,
    atPixel: Pixel -> Option<P>,
    trace: P -> Option<B>,
    sky: (Location, string, B) -> Option<real>)
    requires Simulate(p, atPixel, trace, sky).Success?
    requires SkyInRange(sky)
    ensures AopsInRange(Simulate(p, atPixel, trace, sky).value)
  {
    var img := Simulate(p, atPixel, trace, sky).value;
    var loc := Location(p.latDeg, p.lonDeg, 0.0);
    SimulateCells(p, atPixel, trace, sky);
    forall row, col | 0 <= row < img.rows && 0 <= col < img.cols && img.grid[row][col].Some?
      ensures -90.0 <= img.grid[row][col].value.aop <= 90.0
    {
      PixelRayInRange(Pixel(row, col), atPixel, trace, sky, loc, p.time);
    }
  }

  /** A directly computed ray carries an angle the sky model answered with. */
  lemma PixelRayInRange<P, B(!new)>(
    q: Pixel,
    atPixel: Pixel -> Option<P>,
    trace: P -> Option<B>,
    sky: (Location, string, B) -> Option<real>,
    loc: Location,
    time: string)
    requires SkyInRange(sky)
    ensures PixelRay(q, atPixel, trace, SkyAt(sky, loc, time)).Some? ==>
              -90.0 <= PixelRay(q, atPixel, trace, SkyAt(sky, loc, time)).value.aop <= 90.0
  {
    if PixelRay(q, atPixel, trace, SkyAt(sky, loc, time)).Some? {
      var b := trace(atPixel(q).value).value;
      assert sky(loc, time, b).Some?;
    }
  }
}
