/** Row-major layout of the sensor (src/simulate.rs, `simulate` and the
    encoders): flattening a grid row by row, and enumerating every pixel of a
    sensor in that order. */
module Layout {
  import opened Common

  /** True when every row of `g` holds exactly `width` cells. */
  predicate Uniform<T>(g: seq<seq<T>>, width: nat) {
    forall r :: 0 <= r < |g| ==> |g[r]| == width
  }

  /** The rows of `g` concatenated in order, row 0 first: the row-major walk
      that `flat_map` over rows performs. */
  function Flatten<T>(g: seq<seq<T>>): seq<T> {
    if |g| == 0 then [] else Flatten(g[..|g| - 1]) + g[|g| - 1]
  }

  /** Cell (r, c) of a grid `width` cells wide comes before cell (r, c + 1)
      and every cell of row r + 1, so it lies inside the first `rows` rows. */
  lemma RowMajorBound(r: nat, c: nat, rows: nat, width: nat)
    requires r < rows && c < width
    ensures r * width + c < rows * width
  {
    calc {
      r * width + c;
    < r * width + width;
    == (r + 1) * width;
    <= { MulMonotone(r + 1, rows, width); }
      rows * width;
    }
  }

  lemma MulMonotone(a: nat, b: nat, k: nat)
    requires a <= b
    ensures a * k <= b * k
  {
  }

  /** A uniform grid of `|g|` rows flattens to `|g| * width` cells. */
  lemma {:induction false} FlattenLength<T>(g: seq<seq<T>>, width: nat)
    requires Uniform(g, width)
    ensures |Flatten(g)| == |g| * width
  {
    if |g| > 0 {
      var n := |g| - 1;
      assert Uniform(g[..n], width);
      FlattenLength(g[..n], width);
      assert |Flatten(g)| == n * width + width;
    }
  }

  /** Flattening a uniform grid puts cell (r, c) at position `r * width + c`. */
  lemma {:induction false} FlattenCell<T>(g: seq<seq<T>>, width: nat, r: nat, c: nat)
    requires Uniform(g, width) && r < |g| && c < width
    ensures r * width + c < |Flatten(g)| && Flatten(g)[r * width + c] == g[r][c]
  {
    var n := |g| - 1;
    var front := g[..n];
    assert Uniform(front, width);
    FlattenLength(front, width);
    assert Flatten(g) == Flatten(front) + g[n];
    RowMajorBound(r, c, |g|, width);
    if r < n {
      FlattenCell(front, width, r, c);
      assert front[r] == g[r];
    } else {
      assert r * width + c - |Flatten(front)| == c;
    }
  }

  /** Cell (r, c) of `g` is found at position `r * width + c` of its
      flattening. */
  ghost predicate AtRowMajor<T>(g: seq<seq<T>>, width: nat, r: nat, c: nat)
    requires r < |g| && c < |g[r]|
  {
    r * width + c < |Flatten(g)| && Flatten(g)[r * width + c] == g[r][c]
  }

  /** All cells at once: the flattened grid is the row-major walk of `g`. */
  lemma FlattenIndex<T>(g: seq<seq<T>>, width: nat)
    requires Uniform(g, width)
    ensures forall r, c :: 0 <= r < |g| && 0 <= c < width ==> AtRowMajor(g, width, r, c)
  {
    forall r, c | 0 <= r < |g| && 0 <= c < width
      ensures AtRowMajor(g, width, r, c)
    {
      FlattenCell(g, width, r, c);
    }
  }

  /** The pixels of one sensor row, column 0 first. */
  function PixelRow(row: nat, cols: nat): seq<Pixel> {
    seq(cols, c requires 0 <= c => Pixel(row, c))
  }

  /** The pixels of the sensor, one row per entry. */
  function PixelGrid(rows: nat, cols: nat): seq<seq<Pixel>> {
    seq(rows, r requires 0 <= r => PixelRow(r, cols))
  }

  /** `(0..rows).flat_map(|row| (0..cols).map(move |col| (row, col)))`. */
  function Enumerate(rows: nat, cols: nat): seq<Pixel> {
    Flatten(PixelGrid(rows, cols))
  }

  /** Every enumerated pixel is on the sensor and sits at its own row-major
      index; hence the enumeration has exactly `rows * cols` entries. */
  lemma {:induction false} EnumeratePositions(rows: nat, cols: nat)
    ensures |Enumerate(rows, cols)| == rows * cols
    ensures forall i :: 0 <= i < |Enumerate(rows, cols)| ==>
              InBounds(Enumerate(rows, cols)[i], rows, cols) && Index(Enumerate(rows, cols)[i], cols) == i
  {
    if rows > 0 {
      var n := rows - 1;
      assert PixelGrid(rows, cols)[..n] == PixelGrid(n, cols);
      EnumeratePositions(n, cols);
      var e := Enumerate(rows, cols);
      assert e == Enumerate(n, cols) + PixelRow(n, cols);
      assert |e| == n * cols + cols == rows * cols;
      forall i | 0 <= i < |e|
        ensures InBounds(e[i], rows, cols) && Index(e[i], cols) == i
      {
        if i >= n * cols {
          assert e[i] == Pixel(n, i - n * cols);
        } else {
          assert e[i] == Enumerate(n, cols)[i];
        }
      }
    }
  }

  /** The enumeration visits every pixel of the sensor, each at its row-major
      index, and visits none twice. */
  lemma EnumerateRowMajor(rows: nat, cols: nat)
    ensures |Enumerate(rows, cols)| == rows * cols
    ensures forall p :: InBounds(p, rows, cols) ==>
              Index(p, cols) < |Enumerate(rows, cols)| && Enumerate(rows, cols)[Index(p, cols)] == p
    ensures Distinct(Enumerate(rows, cols))
  {
    EnumeratePositions(rows, cols);
    var g := PixelGrid(rows, cols);
    assert Uniform(g, cols);
    FlattenLength(g, cols);
    FlattenIndex(g, cols);
    forall p | InBounds(p, rows, cols)
      ensures Index(p, cols) < |Enumerate(rows, cols)| && Enumerate(rows, cols)[Index(p, cols)] == p
    {
      assert AtRowMajor(g, cols, p.row, p.col);
      assert g[p.row][p.col] == p;
    }
  }
}
