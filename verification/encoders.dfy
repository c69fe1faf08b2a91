/** The two encoders (src/simulate.rs, `write_image` and `write_dat`): a
    row-major RGB buffer, three bytes per cell, and a plain-text grid of
    angle-of-polarization tokens, one line per sensor row. */
module Encoders {
  import opened Common
  import opened Layout
  import opened Tracing
  import opened RayImages
  import Colormap

  // ---------------------------------------------------------------------------
  // Raster encoding

  /** The closure of the `flat_map` in `write_image`: white for an empty cell,
      the colour of the angle on [-90, 90] for a ray. An angle off that
      interval makes the `expect` fail. */
  function CellRgb(cell: Option<Ray>): (r: Result<seq<Byte>>)
    ensures cell.None? ==> r == Success([255, 255, 255])
    ensures r.Failure? <==> cell.Some? && (cell.value.aop < -90.0 || 90.0 < cell.value.aop)
    ensures r.Failure? ==> r.error == AopOutOfRange(cell.value.aop)
    ensures r.Success? ==> |r.value| == 3
    ensures cell.Some? && r.Success? ==>
              r.value == Colormap.ToRgb(cell.value.aop, -90.0, 90.0).value.Bytes()
  {
    match cell
    case None => Success([255, 255, 255])
    case Some(ray) =>
      match Colormap.ToRgb(ray.aop, -90.0, 90.0)
      case None => Failure(AopOutOfRange(ray.aop))
      case Some(color) => Success(color.Bytes())
  }

  /** The bytes of a run of cells, three per cell, in order; the first cell
      whose colour cannot be computed aborts the run. */
  function RasterBytes(cells: seq<Option<Ray>>): (r: Result<seq<Byte>>)
    ensures r.Success? <==> forall i :: 0 <= i < |cells| ==> CellRgb(cells[i]).Success?
    ensures r.Failure? ==> r.error.AopOutOfRange?
    ensures r.Success? ==> |r.value| == 3 * |cells|
    ensures r.Success? ==> forall i :: 0 <= i < |cells| ==> r.value[3 * i..3 * i + 3] == CellRgb(cells[i]).value
  {
    if |cells| == 0 then Success([])
    else
      match CellRgb(cells[0])
      case Failure(e) => Failure(e)
      case Success(head) =>
        match RasterBytes(cells[1..])
        case Failure(e) => Failure(e)
        case Success(tail) =>
          assert forall i :: 1 <= i < |cells| ==> cells[1..][i - 1] == cells[i];
          ConsSlices(head, tail);
          Success(head + tail)
  }

  /** Prepending a three-byte colour shifts every later colour by one slot. */
  lemma ConsSlices(head: seq<Byte>, tail: seq<Byte>)
    requires |head| == 3 && |tail| % 3 == 0
    ensures forall i :: 1 <= i <= |tail| / 3 ==>
              (head + tail)[3 * i..3 * i + 3] == tail[3 * (i - 1)..3 * (i - 1) + 3]
  {
  }

  /** What `image::save_buffer` is given: the width (columns), the height
      (rows) and the RGB buffer. */
  datatype Raster = Raster(width: nat, height: nat, rgb: seq<Byte>)

  /** Every ray of the image has an angle on [-90, 90]. */
  predicate AopsInRange(img: RayImage)
    requires WellFormed(img)
  {
    forall r, c :: 0 <= r < img.rows && 0 <= c < img.cols && img.grid[r][c].Some? ==>
      -90.0 <= img.grid[r][c].value.aop <= 90.0
  }

  /** `write_image` up to the file write: one colour per cell in row-major
      order, white where no ray was traced. */
  function WriteImage(img: RayImage): (r: Result<Raster>)
    requires WellFormed(img)
    ensures r.Success? <==> AopsInRange(img)
    ensures r.Failure? ==> r.error.AopOutOfRange?
    ensures r.Success? ==> r.value.width == img.cols && r.value.height == img.rows
    ensures r.Success? ==> |r.value.rgb| == 3 * (img.rows * img.cols)
    ensures r.Success? ==> forall row, col :: 0 <= row < img.rows && 0 <= col < img.cols ==>
              var i := Index(Pixel(row, col), img.cols);
              3 * i + 3 <= |r.value.rgb| && r.value.rgb[3 * i..3 * i + 3] == CellRgb(img.grid[row][col]).value
  {
    var cells := Cells(img);
    CellsColourable(img);
    match RasterBytes(cells)
    case Failure(e) => Failure(e)
    case Success(rgb) => Success(Raster(img.cols, img.rows, rgb))
  }

  /** The row-major cells are all colourable exactly when every ray of the
      image has an angle on [-90, 90]. */
  lemma CellsColourable(img: RayImage)
    requires WellFormed(img)
    ensures AopsInRange(img) <==> forall i :: 0 <= i < |Cells(img)| ==> CellRgb(Cells(img)[i]).Success?
  {
    var cells := Cells(img);
    if AopsInRange(img) {
      forall i | 0 <= i < |cells|
        ensures CellRgb(cells[i]).Success?
      {
        FlattenMember(img.grid, i);
        var r, c :| 0 <= r < |img.grid| && 0 <= c < |img.grid[r]| && Flatten(img.grid)[i] == img.grid[r][c];
        assert cells[i] == img.grid[r][c];
      }
    }
    if forall i :: 0 <= i < |cells| ==> CellRgb(cells[i]).Success? {
      forall r, c | 0 <= r < img.rows && 0 <= c < img.cols && img.grid[r][c].Some?
        ensures -90.0 <= img.grid[r][c].value.aop <= 90.0
      {
        assert CellRgb(cells[Index(Pixel(r, c), img.cols)]).Success?;
      }
    }
  }

  lemma {:induction false} FlattenMember<T>(g: seq<seq<T>>, i: nat)
    requires i < |Flatten(g)|
    ensures exists r, c :: 0 <= r < |g| && 0 <= c < |g[r]| && Flatten(g)[i] == g[r][c]
  {
    var n := |g| - 1;
    assert Flatten(g) == Flatten(g[..n]) + g[n];
    if i < |Flatten(g[..n])| {
      FlattenMember(g[..n], i);
      var r, c :| 0 <= r < n && 0 <= c < |g[..n][r]| && Flatten(g[..n])[i] == g[..n][r][c];
      assert g[..n][r] == g[r];
    } else {
      var c := i - |Flatten(g[..n])|;
      assert Flatten(g)[i] == g[n][c];
    }
  }

  // ---------------------------------------------------------------------------
  // Grid encoding

  /** An `f64` as far as the grid encoder is concerned: a number, or the NaN
      that stands for an empty cell. */
  datatype F64 = Finite(value: real) | NaN

  /** The closure of the `map` in `write_dat`. */
  function AopValue(cell: Option<Ray>): F64 {
    match cell
    case None => NaN
    case Some(ray) => Finite(ray.aop)
  }

  /** The tokens of one row, each rendered (by `{:5}` in the program; opaque
      here) and followed by one space. */
  function Tokens(cells: seq<Option<Ray>>, render: F64 -> string): string {
    if |cells| == 0 then ""
    else Tokens(cells[..|cells| - 1], render) + render(AopValue(cells[|cells| - 1])) + " "
  }

  /** The text of a grid, read row by row: each row's tokens, then a newline. */
  function DatText(grid: seq<seq<Option<Ray>>>, render: F64 -> string): string {
    if |grid| == 0 then ""
    else DatText(grid[..|grid| - 1], render) + Tokens(grid[|grid| - 1], render) + "\n"
  }

  /** `write_dat` up to the file writes: the angles of the image in row-major
      order (NaN for empty cells), then for every row and every column the
      value at index `row * cols + col`, computed here without overflow. The
      text is the grid's rows, one line each. */
  method WriteDat(img: RayImage, render: F64 -> string) returns (text: string)
    requires WellFormed(img)
    ensures text == DatText(img.grid, render)
  {
    var values := AopValues(img);
    var grid := img.grid;
    text := "";
    var row := 0;
    while row < img.rows
      invariant 0 <= row <= img.rows
      invariant text == DatText(grid[..row], render)
    {
      var start := RowStart(img, row);
      var tokens := WriteRow(values, start, grid[row], render);
      DatTextSnoc(grid, row, render);
      text := text + tokens + "\n";
      row := row + 1;
    }
    assert grid[..row] == grid;
  }

  /** `row * cols`, where row `row` of the image begins among the values. */
  function RowStart(img: RayImage, row: nat): (start: nat)
    requires WellFormed(img) && row < img.rows
    ensures start + |img.grid[row]| <= |AopValues(img)|
    ensures forall c :: 0 <= c < |img.grid[row]| ==> AopValues(img)[start + c] == AopValue(img.grid[row][c])
  {
    RowValues(img, row);
    row * img.cols
  }

  /** The `aop_image` vector of `write_dat`: the angle of every cell in
      row-major order, NaN for an empty one. */
  function AopValues(img: RayImage): (values: seq<F64>)
    requires WellFormed(img)
    ensures |values| == img.rows * img.cols
    ensures forall i :: 0 <= i < |values| ==> values[i] == AopValue(Cells(img)[i])
  {
    var cells := Cells(img);
    seq(|cells|, i requires 0 <= i < |cells| => AopValue(cells[i]))
  }

  /** Row `row` of the image occupies the values from index `row * cols` on. */
  lemma RowValues(img: RayImage, row: nat)
    requires WellFormed(img) && row < img.rows
    ensures |img.grid[row]| == img.cols
    ensures row * img.cols + img.cols <= |AopValues(img)|
    ensures forall c :: 0 <= c < img.cols ==> AopValues(img)[row * img.cols + c] == AopValue(img.grid[row][c])
  {
    MulMonotone(row + 1, img.rows, img.cols);
    assert row * img.cols + img.cols == (row + 1) * img.cols;
    forall c | 0 <= c < img.cols
      ensures AopValues(img)[row * img.cols + c] == AopValue(img.grid[row][c])
    {
      assert row * img.cols + c == Index(Pixel(row, c), img.cols);
    }
  }

  /** The inner loop of `write_dat`: the tokens of one row, read from the
      row-major values starting at the row's first index. */
  method WriteRow(values: seq<F64>, start: nat, line: seq<Option<Ray>>, render: F64 -> string) returns (tokens: string)
    requires start + |line| <= |values|
    requires forall c :: 0 <= c < |line| ==> values[start + c] == AopValue(line[c])
    ensures tokens == Tokens(line, render)
  {
    tokens := "";
    var col := 0;
    while col < |line|
      invariant 0 <= col <= |line|
      invariant tokens == Tokens(line[..col], render)
    {
      TokensSnoc(line, col, render);
      tokens := tokens + render(values[start + col]) + " ";
      col := col + 1;
    }
    assert line[..col] == line;
  }

  lemma TokensSnoc(cells: seq<Option<Ray>>, k: nat, render: F64 -> string)
    requires k < |cells|
    ensures Tokens(cells[..k + 1], render) == Tokens(cells[..k], render) + render(AopValue(cells[k])) + " "
  {
    assert cells[..k + 1][..k] == cells[..k];
  }

  lemma DatTextSnoc(grid: seq<seq<Option<Ray>>>, k: nat, render: F64 -> string)
    requires k < |grid|
    ensures DatText(grid[..k + 1], render) == DatText(grid[..k], render) + Tokens(grid[k], render) + "\n"
  {
    assert grid[..k + 1][..k] == grid[..k];
  }

  /** The number of line breaks in a text. */
  function Newlines(s: string): nat {
    if |s| == 0 then 0 else Newlines(s[..|s| - 1]) + (if s[|s| - 1] == '\n' then 1 else 0)
  }

  lemma {:induction false} NewlinesAppend(a: string, b: string)
    ensures Newlines(a + b) == Newlines(a) + Newlines(b)
    decreases |b|
  {
    if |b| > 0 {
      var n := |b| - 1;
      assert (a + b)[..|a + b| - 1] == a + b[..n];
      NewlinesAppend(a, b[..n]);
    } else {
      assert a + b == a;
    }
  }

  lemma {:induction false} TokensNewlines(cells: seq<Option<Ray>>, render: F64 -> string)
    requires forall v :: Newlines(render(v)) == 0
    ensures Newlines(Tokens(cells, render)) == 0
  {
    if |cells| > 0 {
      var n := |cells| - 1;
      TokensNewlines(cells[..n], render);
      NewlinesAppend(Tokens(cells[..n], render), render(AopValue(cells[n])));
      NewlinesAppend(Tokens(cells[..n], render) + render(AopValue(cells[n])), " ");
    }
  }

  /** When no rendered token contains a line break, the text has exactly one
      line per row of the grid. */
  lemma {:induction false} DatTextLines(grid: seq<seq<Option<Ray>>>, render: F64 -> string)
    requires forall v :: Newlines(render(v)) == 0
    ensures Newlines(DatText(grid, render)) == |grid|
  {
    if |grid| > 0 {
      var n := |grid| - 1;
      DatTextLines(grid[..n], render);
      TokensNewlines(grid[n], render);
      NewlinesAppend(DatText(grid[..n], render), Tokens(grid[n], render));
      NewlinesAppend(DatText(grid[..n], render) + Tokens(grid[n], render), "\n");
    }
  }

  // ---------------------------------------------------------------------------
  // The index as the program computes it

  /** Whether Rust's overflow checks are on: a debug build panics on an
      overflowing `u16` operation, a release build wraps around. */
  datatype Profile = Debug | Release

  /** `a * b` on `u16`. */
  function MulU16(profile: Profile, a: U16, b: U16): (r: Option<U16>)
    ensures a * b < 0x1_0000 ==> r == Some(a * b)
    ensures 0x1_0000 <= a * b ==> (r.None? <==> profile == Debug)
    ensures profile == Release ==> r == Some((a * b) % 0x1_0000)
  {
    if a * b < 0x1_0000 then Some(a * b)
    else if profile == Debug then None
    else Some((a * b) % 0x1_0000)
  }

  /** `a + b` on `u16`. */
  function AddU16(profile: Profile, a: U16, b: U16): (r: Option<U16>)
    ensures a + b < 0x1_0000 ==> r == Some(a + b)
    ensures 0x1_0000 <= a + b ==> (r.None? <==> profile == Debug)
    ensures profile == Release ==> r == Some((a + b) % 0x1_0000)
  {
    if a + b < 0x1_0000 then Some(a + b)
    else if profile == Debug then None
    else Some(a + b - 0x1_0000)
  }

  /** `row * cols + col` as `write_dat` evaluates it: in `u16`. `None` is the
      debug build's overflow panic; a release build yields the true index
      reduced modulo 2^16. */
  function DatIndexU16(profile: Profile, row: U16, col: U16, cols: U16): (r: Option<U16>)
    ensures row * cols + col < 0x1_0000 ==> r == Some(row * cols + col)
    ensures profile == Debug ==> (r.None? <==> 0x1_0000 <= row * cols + col)
    ensures profile == Release ==> r == Some((row * cols + col) % 0x1_0000)
  {
    WrapAdd(row * cols, col);
    match MulU16(profile, row, cols)
    case None => None
    case Some(m) => AddU16(profile, m, col)
  }

  /** Adding after reducing modulo 2^16, and reducing once more on
      overflow, is reducing the whole sum modulo 2^16. */
  lemma WrapAdd(p: nat, c: U16)
    ensures p < 0x1_0000 ==> p % 0x1_0000 == p
    ensures p % 0x1_0000 + c < 0x1_0000 ==> p % 0x1_0000 + c == (p + c) % 0x1_0000
    ensures 0x1_0000 <= p % 0x1_0000 + c ==> p % 0x1_0000 + c - 0x1_0000 == (p + c) % 0x1_0000
  {
    var q, r := p / 0x1_0000, p % 0x1_0000;
    assert p + c == q * 0x1_0000 + (r + c);
    if r + c < 0x1_0000 {
      assert (p + c) / 0x1_0000 == q;
    } else {
      assert p + c == (q + 1) * 0x1_0000 + (r + c - 0x1_0000);
      assert (p + c) / 0x1_0000 == q + 1;
    }
  }

  /** The `u16` index equals the true row-major index for every cell exactly
      when the sensor has at most 2^16 cells; otherwise the last cell
      already overflows. */
  lemma DatIndexU16ExactIff(profile: Profile, rows: U16, cols: U16)
    ensures (forall row: U16, col: U16 :: row < rows && col < cols ==>
               DatIndexU16(profile, row, col, cols) == Some(Index(Pixel(row, col), cols)))
            <==> rows * cols <= 0x1_0000
  {
    if rows * cols <= 0x1_0000 {
      forall row: U16, col: U16 | row < rows && col < cols
        ensures DatIndexU16(profile, row, col, cols) == Some(Index(Pixel(row, col), cols))
      {
        RowMajorBound(row, col, rows, cols);
      }
    } else {
      var row: U16, col: U16 := rows - 1, cols - 1;
      assert row * cols + col == rows * cols - 1;
      assert DatIndexU16(profile, row, col, cols) != Some(Index(Pixel(row, col), cols));
    }
  }
}
