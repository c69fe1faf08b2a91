/** Tracing (src/simulate.rs, `simulate`): every enumerated pixel is placed
    on the sensor plane, traced through the camera to a bearing, and handed to
    the sky model; pixels the sky model does not observe are dropped. The
    sensor, camera and sky model are opaque functions supplied by the caller. */
module Tracing {
  import opened Common

  /** One observation: the pixel it belongs to, its angle of polarization in
      degrees, and its degree of polarization (always 0, a placeholder). The
      program's ray records the sensor-plane point; this one records the
      pixel that point was computed from. */
  datatype Ray = Ray(pixel: Pixel, aop: real, dop: real)

  /** A pixel together with its point on the sensor plane. */
  datatype Located<P> = Located(pixel: Pixel, point: P)

  /** The pixels of a sequence of located points, in order. */
  function LocatedPixels<P>(locs: seq<Located<P>>): (ps: seq<Pixel>)
    ensures |ps| == |locs|
    ensures forall i :: 0 <= i < |locs| ==> ps[i] == locs[i].pixel
  {
    seq(|locs|, i requires 0 <= i < |locs| => locs[i].pixel)
  }

  /** The pixels of a sequence of rays, in order. */
  function RayPixels(rays: seq<Ray>): (ps: seq<Pixel>)
    ensures |ps| == |rays|
    ensures forall i :: 0 <= i < |rays| ==> ps[i] == rays[i].pixel
  {
    seq(|rays|, i requires 0 <= i < |rays| => rays[i].pixel)
  }

  /** `.map(|(row, col)| image_sensor.at_pixel(row, col).unwrap()).collect()`:
      the sensor-plane point of every pixel, in order; the first pixel the
      sensor has no point for aborts the run. */
  function LocateAll<P>(pixels: seq<Pixel>, atPixel: Pixel -> Option<P>): (r: Result<seq<Located<P>>>)
    ensures r.Success? <==> forall i :: 0 <= i < |pixels| ==> atPixel(pixels[i]).Some?
    ensures r.Failure? ==> r.error.PixelOffSensor? && r.error.pixel in pixels && atPixel(r.error.pixel).None?
    ensures r.Success? ==> LocatedPixels(r.value) == pixels
    ensures r.Success? ==> forall i :: 0 <= i < |pixels| ==> atPixel(pixels[i]) == Some(r.value[i].point)
  {
    if |pixels| == 0 then Success([])
    else
      match atPixel(pixels[0])
      case None => Failure(PixelOffSensor(pixels[0]))
      case Some(point) =>
        match LocateAll(pixels[1..], atPixel)
        case Failure(e) => Failure(e)
        case Success(rest) =>
          assert forall i :: 1 <= i < |pixels| ==> pixels[1..][i - 1] == pixels[i];
          Success([Located(pixels[0], point)] + rest)
  }

  /** The `filter_map` closure for one located pixel: trace it to a bearing
      (a point off the sensor plane aborts the run), ask the sky model, and
      emit a ray with degree of polarization 0 when it answers. */
  function Observe<P, B>(loc: Located<P>, trace: P -> Option<B>, sky: B -> Option<real>): (r: Result<Option<Ray>>)
    ensures r.Failure? <==> trace(loc.point).None?
    ensures r.Failure? ==> r.error == BearingUnavailable(loc.pixel)
    ensures r.Success? ==> (r.value.Some? <==> sky(trace(loc.point).value).Some?)
    ensures r.Success? && r.value.Some? ==>
              r.value.value.pixel == loc.pixel && r.value.value.dop == 0.0 &&
              sky(trace(loc.point).value) == Some(r.value.value.aop)
  {
    match trace(loc.point)
    case None => Failure(BearingUnavailable(loc.pixel))
    case Some(bearing) =>
      match sky(bearing)
      case None => Success(None)
      case Some(aop) => Success(Some(Ray(loc.pixel, aop, 0.0)))
  }

  /** The `par_iter().filter_map(..).collect()` over all located pixels. The
      collected rays keep the order of the pixels they come from; which of
      several failing pixels aborts first is not fixed by the program, and
      the model reports the earliest. */
  function TraceAll<P, B>(locs: seq<Located<P>>, trace: P -> Option<B>, sky: B -> Option<real>): (r: Result<seq<Ray>>)
    ensures r.Success? <==> forall i :: 0 <= i < |locs| ==> trace(locs[i].point).Some?
    ensures r.Failure? ==> r.error.BearingUnavailable?
    ensures r.Success? ==> |r.value| <= |locs|
    ensures r.Success? ==> forall ray :: ray in r.value <==>
              exists i :: 0 <= i < |locs| && Observe(locs[i], trace, sky) == Success(Some(ray))
  {
    if |locs| == 0 then Success([])
    else
      match Observe(locs[0], trace, sky)
      case Failure(e) => Failure(e)
      case Success(kept) =>
        match TraceAll(locs[1..], trace, sky)
        case Failure(e) => Failure(e)
        case Success(rest) =>
          assert forall i :: 1 <= i < |locs| ==> locs[1..][i - 1] == locs[i];
          match kept
          case None => Success(rest)
          case Some(ray) => Success([ray] + rest)
  }

  /** The position of the located pixel a traced ray was observed from. */
  lemma TracedRayOrigin<P, B>(locs: seq<Located<P>>, trace: P -> Option<B>, sky: B -> Option<real>, ray: Ray) returns (i: nat)
    requires TraceAll(locs, trace, sky).Success? && ray in TraceAll(locs, trace, sky).value
    ensures i < |locs| && Observe(locs[i], trace, sky) == Success(Some(ray))
  {
    i :| 0 <= i < |locs| && Observe(locs[i], trace, sky) == Success(Some(ray));
  }

  /** Every traced ray belongs to one of the traced pixels. */
  lemma TraceAllPixels<P, B>(locs: seq<Located<P>>, trace: P -> Option<B>, sky: B -> Option<real>)
    requires TraceAll(locs, trace, sky).Success?
    ensures forall ray :: ray in TraceAll(locs, trace, sky).value ==> ray.pixel in LocatedPixels(locs)
  {
    forall ray | ray in TraceAll(locs, trace, sky).value
      ensures ray.pixel in LocatedPixels(locs)
    {
      var i :| 0 <= i < |locs| && Observe(locs[i], trace, sky) == Success(Some(ray));
      assert LocatedPixels(locs)[i] == ray.pixel;
    }
  }

  /** Tracing distinct pixels yields rays for distinct pixels, each one of
      the pixels traced. */
  lemma {:induction false} TraceAllDistinct<P, B>(locs: seq<Located<P>>, trace: P -> Option<B>, sky: B -> Option<real>)
    requires TraceAll(locs, trace, sky).Success?
    requires Distinct(LocatedPixels(locs))
    ensures forall ray :: ray in TraceAll(locs, trace, sky).value ==> ray.pixel in LocatedPixels(locs)
    ensures Distinct(RayPixels(TraceAll(locs, trace, sky).value))
  {
    TraceAllPixels(locs, trace, sky);
    if |locs| > 0 {
      var rays := TraceAll(locs, trace, sky).value;
      var tail := locs[1..];
      assert LocatedPixels(tail) == LocatedPixels(locs)[1..];
      DistinctTail(LocatedPixels(locs));
      TraceAllDistinct(tail, trace, sky);
      var rest := TraceAll(tail, trace, sky).value;
      if Observe(locs[0], trace, sky).value.Some? {
        var ray := Observe(locs[0], trace, sky).value.value;
        assert rays == [ray] + rest;
        assert ray.pixel == LocatedPixels(locs)[0];
        PrependRay(ray, rest, LocatedPixels(tail));
      } else {
        assert rays == rest;
      }
    }
  }

  /** A ray whose pixel none of the other rays can have keeps the rays'
      pixels free of repeats when put in front. */
  lemma PrependRay(ray: Ray, rest: seq<Ray>, pixels: seq<Pixel>)
    requires Distinct(RayPixels(rest))
    requires forall r :: r in rest ==> r.pixel in pixels
    requires ray.pixel !in pixels
    ensures Distinct(RayPixels([ray] + rest))
  {
    assert ray.pixel !in RayPixels(rest) by {
      forall k | 0 <= k < |rest|
        ensures RayPixels(rest)[k] != ray.pixel
      {
        assert rest[k] in rest;
      }
    }
    assert RayPixels([ray] + rest) == [ray.pixel] + RayPixels(rest);
    DistinctCons(ray.pixel, RayPixels(rest));
  }
}
