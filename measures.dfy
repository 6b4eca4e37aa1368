/** The size measures of a fire and the static-source test built on them. */
module Measures {
  import opened Wrappers

  /** Density above which (in pixels per km2) and area below which (in km2)
      an active fire is taken for a static heat source. */
  const StaticDensity: real := 20.0
  const StaticArea: real := 20.0

  /** Fire area in km2: the hull area (given in m2) floored at the nominal
      pixel area, or, without a hull, pixel count times the pixel area. */
  function Farea(hullArea: Option<real>, nPixels: nat, areaVI: real): (r: real)
    ensures hullArea.Some? ==> r >= areaVI && r >= hullArea.value / 1000000.0
    ensures hullArea.Some? ==> r == areaVI || r == hullArea.value / 1000000.0
    ensures hullArea.None? ==> r == nPixels as real * areaVI
  {
    match hullArea
    case None => nPixels as real * areaVI
    case Some(a) =>
      var km2 := a / 1000000.0;
      if km2 > areaVI then km2 else areaVI
  }

  /** Pixel density in pixels per km2; zero when the area is not positive. */
  function Pixden(nPixels: nat, farea: real): real {
    if farea > 0.0 then nPixels as real / farea else 0.0
  }

  /** The density times the area gives back the pixel count whenever the
      area is positive; the density is never negative. */
  lemma PixdenSpec(nPixels: nat, farea: real)
    ensures farea > 0.0 ==> Pixden(nPixels, farea) * farea == nPixels as real
    ensures farea <= 0.0 ==> Pixden(nPixels, farea) == 0.0
    ensures Pixden(nPixels, farea) >= 0.0
  {
  }

  /** Dense and small: the signature of a static heat source. */
  predicate IsStatic(pixden: real, farea: real) {
    pixden > StaticDensity && farea < StaticArea
  }

  /** The static test with the density multiplied out: dense means more than
      `StaticDensity` pixels for each km2 of a positive area. */
  predicate DenseAndSmall(nPixels: nat, farea: real) {
    farea > 0.0 && nPixels as real > StaticDensity * farea && farea < StaticArea
  }

  /** Testing the computed density is the same as testing the multiplied-out form. */
  lemma StaticWithoutDivision(nPixels: nat, farea: real)
    ensures IsStatic(Pixden(nPixels, farea), farea) <==> DenseAndSmall(nPixels, farea)
  {
    PixdenSpec(nPixels, farea);
    if farea > 0.0 {
      var d := Pixden(nPixels, farea);
      assert d * farea == nPixels as real;
      if d > StaticDensity {
        assert d * farea > StaticDensity * farea;
      }
      if nPixels as real > StaticDensity * farea {
        assert d * farea > StaticDensity * farea;
        assert d > StaticDensity;
      }
    }
  }

  /** A fire with at least one pixel is never smaller than one nominal pixel. */
  lemma FareaFloor(hullArea: Option<real>, nPixels: nat, areaVI: real)
    requires nPixels >= 1 && areaVI >= 0.0
    ensures Farea(hullArea, nPixels, areaVI) >= areaVI
  {
    if hullArea.None? {
      assert nPixels as real * areaVI == areaVI + (nPixels - 1) as real * areaVI;
    }
  }

  /** A larger hull never gives a smaller fire area. */
  lemma FareaMonotone(a1: real, a2: real, nPixels: nat, areaVI: real)
    requires a1 <= a2
    ensures Farea(Some(a1), nPixels, areaVI) <= Farea(Some(a2), nPixels, areaVI)
  {
  }
}
