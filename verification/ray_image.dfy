/** The ray image the simulation produces: a grid with one cell per sensor
    pixel, each holding the ray traced for that pixel or nothing. Assembly
    stands in for `RayImage::from_rays_with_sensor`, whose source is not part
    of this model: every ray goes to the cell of its own pixel, and a second
    ray for an occupied cell is a collision. */
module RayImages {
  import opened Common
  import opened Layout
  import opened Tracing

  /** A `rows` by `cols` grid of cells, row 0 first. */
  datatype RayImage = RayImage(rows: nat, cols: nat, grid: seq<seq<Option<Ray>>>)

  /** The grid has the stated shape and every ray sits in its own pixel's cell. */
  predicate WellFormed(img: RayImage) {
    && |img.grid| == img.rows
    && Uniform(img.grid, img.cols)
    && forall r, c :: 0 <= r < img.rows && 0 <= c < img.cols && img.grid[r][c].Some? ==>
         img.grid[r][c].value.pixel == Pixel(r, c)
  }

  /** An image with every cell empty. */
  function Blank(rows: nat, cols: nat): (img: RayImage)
    ensures WellFormed(img) && img.rows == rows && img.cols == cols
    ensures forall r, c :: 0 <= r < rows && 0 <= c < cols ==> img.grid[r][c].None?
  {
    RayImage(rows, cols, seq(rows, _ => seq(cols, _ => None)))
  }

  /** Puts one ray into the cell of its pixel. A pixel off the grid, or one
      whose cell is already taken, aborts the run. */
  function Place(img: RayImage, ray: Ray): (r: Result<RayImage>)
    requires WellFormed(img)
    ensures r.Failure? <==>
              !InBounds(ray.pixel, img.rows, img.cols) || img.grid[ray.pixel.row][ray.pixel.col].Some?
    ensures r.Failure? ==> r.error == PixelOutOfBounds(ray.pixel) || r.error == DuplicatePixel(ray.pixel)
    ensures r.Success? ==> WellFormed(r.value) && r.value.rows == img.rows && r.value.cols == img.cols
    ensures r.Success? ==> r.value.grid[ray.pixel.row][ray.pixel.col] == Some(ray)
    ensures r.Success? ==> forall i, j :: 0 <= i < img.rows && 0 <= j < img.cols && Pixel(i, j) != ray.pixel ==>
              r.value.grid[i][j] == img.grid[i][j]
  {
    var p := ray.pixel;
    if !InBounds(p, img.rows, img.cols) then Failure(PixelOutOfBounds(p))
    else if img.grid[p.row][p.col].Some? then Failure(DuplicatePixel(p))
    else Success(img.(grid := img.grid[p.row := img.grid[p.row][p.col := Some(ray)]]))
  }

  /** Places the rays one after another into a blank `rows` by `cols` image. */
  function Assemble(rows: nat, cols: nat, rays: seq<Ray>): (r: Result<RayImage>)
    ensures r.Success? ==> WellFormed(r.value) && r.value.rows == rows && r.value.cols == cols
    ensures r.Failure? ==> r.error.PixelOutOfBounds? || r.error.DuplicatePixel?
  {
    if |rays| == 0 then Success(Blank(rows, cols))
    else
      match Assemble(rows, cols, rays[..|rays| - 1])
      case Failure(e) => Failure(e)
      case Success(img) => Place(img, rays[|rays| - 1])
  }

  /** The cells of an assembled image are exactly the rays: a cell is taken
      when some ray has its pixel, and then it holds that ray. */
  lemma AssembleCells(rows: nat, cols: nat, rays: seq<Ray>)
    requires Assemble(rows, cols, rays).Success?
    ensures forall i :: 0 <= i < |rays| ==>
              && InBounds(rays[i].pixel, rows, cols)
              && Assemble(rows, cols, rays).value.grid[rays[i].pixel.row][rays[i].pixel.col] == Some(rays[i])
    ensures forall r, c :: 0 <= r < rows && 0 <= c < cols ==>
              (Assemble(rows, cols, rays).value.grid[r][c].Some? <==> Pixel(r, c) in RayPixels(rays))
  {
    AssembleHolds(rows, cols, rays);
    AssembleTaken(rows, cols, rays);
  }

  /** A cell of an assembled image is taken exactly when some ray has its
      pixel. */
  lemma {:induction false} AssembleTaken(rows: nat, cols: nat, rays: seq<Ray>)
    requires Assemble(rows, cols, rays).Success?
    ensures forall r, c :: 0 <= r < rows && 0 <= c < cols ==>
              (Assemble(rows, cols, rays).value.grid[r][c].Some? <==> Pixel(r, c) in RayPixels(rays))
  {
    if |rays| > 0 {
      var n := |rays| - 1;
      var front := rays[..n];
      var last := rays[n];
      AssembleTaken(rows, cols, front);
      var before := Assemble(rows, cols, front).value;
      var img := Assemble(rows, cols, rays).value;
      assert img == Place(before, last).value;
      assert RayPixels(rays) == RayPixels(front) + [last.pixel];
      forall r, c | 0 <= r < rows && 0 <= c < cols
        ensures img.grid[r][c].Some? <==> Pixel(r, c) in RayPixels(rays)
      {
        if Pixel(r, c) != last.pixel {
          assert img.grid[r][c] == before.grid[r][c];
        }
      }
    }
  }

  /** Every ray of an assembled image is on the grid, in its own pixel's cell. */
  lemma {:induction false} AssembleHolds(rows: nat, cols: nat, rays: seq<Ray>)
    requires Assemble(rows, cols, rays).Success?
    ensures forall i :: 0 <= i < |rays| ==>
              && InBounds(rays[i].pixel, rows, cols)
              && Assemble(rows, cols, rays).value.grid[rays[i].pixel.row][rays[i].pixel.col] == Some(rays[i])
  {
    if |rays| > 0 {
      var n := |rays| - 1;
      var front := rays[..n];
      var last := rays[n];
      AssembleHolds(rows, cols, front);
      AssembleTaken(rows, cols, front);
      var before := Assemble(rows, cols, front).value;
      var img := Assemble(rows, cols, rays).value;
      assert img == Place(before, last).value;
      assert last.pixel !in RayPixels(front);
      forall i | 0 <= i < n
        ensures InBounds(rays[i].pixel, rows, cols) && img.grid[rays[i].pixel.row][rays[i].pixel.col] == Some(rays[i])
      {
        assert rays[i] == front[i];
        assert RayPixels(front)[i] == rays[i].pixel;
      }
    }
  }

  /** One ray of an assembled image sits in the cell of its pixel. */
  lemma CellOfRay(rows: nat, cols: nat, rays: seq<Ray>, j: nat)
    requires Assemble(rows, cols, rays).Success? && j < |rays|
    ensures InBounds(rays[j].pixel, rows, cols)
    ensures Assemble(rows, cols, rays).value.grid[rays[j].pixel.row][rays[j].pixel.col] == Some(rays[j])
  {
    AssembleHolds(rows, cols, rays);
  }

  /** One cell of an assembled image is taken exactly when a ray has its pixel. */
  lemma TakenCell(rows: nat, cols: nat, rays: seq<Ray>, q: Pixel)
    requires Assemble(rows, cols, rays).Success? && InBounds(q, rows, cols)
    ensures Assemble(rows, cols, rays).value.grid[q.row][q.col].Some? <==> q in RayPixels(rays)
  {
    AssembleTaken(rows, cols, rays);
  }

  /** Assembly succeeds exactly when every ray is on the grid and no two rays
      share a pixel. */
  lemma {:induction false} AssembleSucceedsIff(rows: nat, cols: nat, rays: seq<Ray>)
    ensures Assemble(rows, cols, rays).Success? <==>
              (forall i :: 0 <= i < |rays| ==> InBounds(rays[i].pixel, rows, cols)) && Distinct(RayPixels(rays))
  {
    if |rays| > 0 {
      var n := |rays| - 1;
      var front := rays[..n];
      var last := rays[n];
      AssembleSucceedsIff(rows, cols, front);
      assert RayPixels(rays) == RayPixels(front) + [last.pixel];
      DistinctSnoc(RayPixels(front), last.pixel);
      assert forall i :: 0 <= i < n ==> front[i] == rays[i];
      if Assemble(rows, cols, front).Success? && InBounds(last.pixel, rows, cols) {
        TakenCell(rows, cols, front, last.pixel);
      }
    }
  }

  /** Two rays for the same pixel can never be assembled. */
  lemma SharedPixelCollides(rows: nat, cols: nat, rays: seq<Ray>, i: nat, j: nat)
    requires i < j < |rays| && rays[i].pixel == rays[j].pixel
    ensures Assemble(rows, cols, rays).Failure?
  {
    AssembleSucceedsIff(rows, cols, rays);
    assert RayPixels(rays)[i] == RayPixels(rays)[j];
  }

  /** The cells in the order the encoders read them: row 0 first, column 0
      first within a row (`ray_pixels`). */
  function Cells(img: RayImage): (cells: seq<Option<Ray>>)
    requires WellFormed(img)
    ensures |cells| == img.rows * img.cols
    ensures forall r, c :: 0 <= r < img.rows && 0 <= c < img.cols ==>
              Index(Pixel(r, c), img.cols) < |cells| && cells[Index(Pixel(r, c), img.cols)] == img.grid[r][c]
  {
    FlattenLength(img.grid, img.cols);
    CellsAt(img);
    Flatten(img.grid)
  }

  lemma CellsAt(img: RayImage)
    requires WellFormed(img)
    ensures forall r, c :: 0 <= r < img.rows && 0 <= c < img.cols ==>
              Index(Pixel(r, c), img.cols) < |Flatten(img.grid)| &&
              Flatten(img.grid)[Index(Pixel(r, c), img.cols)] == img.grid[r][c]
  {
    FlattenIndex(img.grid, img.cols);
    forall r, c | 0 <= r < img.rows && 0 <= c < img.cols
      ensures Index(Pixel(r, c), img.cols) < |Flatten(img.grid)| &&
              Flatten(img.grid)[Index(Pixel(r, c), img.cols)] == img.grid[r][c]
    {
      assert AtRowMajor(img.grid, img.cols, r, c);
    }
  }
}
