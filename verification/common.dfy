/** Shared vocabulary of the simulation model: optional values, fallible
    results, Rust's fixed-width unsigned integers, sensor pixels, and the ways
    a simulation run can stop. */
module Common {

  /** Rust's `Option`. */
  datatype Option<+T> = None | Some(value: T)

  /** A computation that either yields a value or stops with an `Error`. */
  datatype Result<+T> = Success(value: T) | Failure(error: Error)

  /** Rust's `u8`. */
  type Byte = x: int | 0 <= x < 0x100

  /** Rust's `u16`: the type of the sensor's row and column counts. */
  type U16 = x: int | 0 <= x < 0x1_0000

  const U8_MIN: Byte := 0
  const U8_MAX: Byte := 0xFF

  /** A sensor cell, addressed by row and column. */
  datatype Pixel = Pixel(row: nat, col: nat)

  /** True when the pixel lies on a sensor of `rows` by `cols` cells. */
  predicate InBounds(p: Pixel, rows: nat, cols: nat) {
    p.row < rows && p.col < cols
  }

  /** Position of a pixel in the row-major walk of a sensor `cols` cells wide. */
  function Index(p: Pixel, cols: nat): nat {
    p.row * cols + p.col
  }

  /** True when no element occurs twice. */
  predicate Distinct<T(==)>(s: seq<T>) {
    forall i, j :: 0 <= i < j < |s| ==> s[i] != s[j]
  }

  /** Dropping the head of a sequence without repeats leaves one without
      repeats, and the head occurs nowhere in the rest. */
  lemma DistinctTail<T>(s: seq<T>)
    requires Distinct(s) && |s| > 0
    ensures Distinct(s[1..]) && s[0] !in s[1..]
  {
    forall k | 0 <= k < |s| - 1
      ensures s[1..][k] == s[k + 1]
    {
    }
  }

  /** Putting a new element in front of a sequence without repeats keeps it
      without repeats. */
  lemma DistinctCons<T>(x: T, s: seq<T>)
    requires Distinct(s) && x !in s
    ensures Distinct([x] + s)
  {
    forall i, j | 0 <= i < j < |s| + 1
      ensures ([x] + s)[i] != ([x] + s)[j]
    {
      assert ([x] + s)[j] == s[j - 1];
      if i > 0 {
        assert ([x] + s)[i] == s[i - 1];
      }
    }
  }

  /** Appending an element keeps a sequence without repeats exactly when the
      sequence had none and did not hold the element. */
  lemma DistinctSnoc<T>(s: seq<T>, x: T)
    ensures Distinct(s + [x]) <==> Distinct(s) && x !in s
  {
    if Distinct(s + [x]) {
      forall i, j | 0 <= i < j < |s|
        ensures s[i] != s[j]
      {
        assert (s + [x])[i] == s[i] && (s + [x])[j] == s[j];
      }
      forall i | 0 <= i < |s|
        ensures s[i] != x
      {
        assert (s + [x])[i] == s[i] && (s + [x])[|s|] == x;
      }
    }
    if Distinct(s) && x !in s {
      forall i, j | 0 <= i < j < |s| + 1
        ensures (s + [x])[i] != (s + [x])[j]
      {
        assert (s + [x])[i] == s[i];
      }
    }
  }

  /** Why a run stops. The first two are errors the program reports and
      returns; every other kind is a panic (an `expect` or `unwrap` that
      fails), which aborts the process. */
  datatype Error =
    | InvalidLatitude
    | UnsupportedFormat
    | NonPositiveFocalLength
    | PixelOffSensor(pixel: Pixel)
    | BearingUnavailable(pixel: Pixel)
    | PixelOutOfBounds(pixel: Pixel)
    | DuplicatePixel(pixel: Pixel)
    | AopOutOfRange(aop: real)
  {
    predicate IsPanic() {
      !InvalidLatitude? && !UnsupportedFormat?
    }
  }
}
