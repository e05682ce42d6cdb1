/** The synthetic absorption spectrum: a Lorentzian line per excited state,
    summed over the states at every wavelength of the 200..1100 nm grid,
    then normalised by its maximum. Arithmetic is over exact reals. */
module Spectrum {
  import opened Wrappers
  import opened ExcitedStates

  /** `HWHM`: half width at half maximum of every line, in nm. */
  const HWHM: real := 18.0
  /** `SCALER`: the factor applied to every oscillator strength. */
  const Scaler: real := 1.0
  /** `WAVE_START` and `WAVE_END`: the grid's first and last wavelength. */
  const WaveStart: int := 200
  const WaveEnd: int := 1100

  /** The line shape at distance `d` from the peak. */
  function LineShape(d: real, intensity: real): real
  {
    var x := d / HWHM;
    intensity * Scaler / (1.0 + x * x)
  }

  /** `lorentzian_pdf_intensity(wl, peak, intensity)`. */
  function Lorentzian(wl: int, peak: real, intensity: real): real
  {
    LineShape(wl as real - peak, intensity)
  }

  lemma QuotientBounds(a: real, b: real)
    requires a >= 0.0 && b >= 1.0
    ensures 0.0 <= a / b <= a
  {
    var q := a / b;
    assert q * b == a;
    if q > a {
      assert q * b > a * b;
      assert a * b >= a;
    }
  }

  lemma QuotientFalls(a: real, b: real, c: real)
    requires a > 0.0 && 1.0 <= b < c
    ensures a / c < a / b
  {
    var p, q := a / b, a / c;
    assert p * b == a && q * c == a;
    if q >= p {
      assert q * c >= p * c;
      assert p * c > p * b;
    }
  }

  /** At the peak the line reaches its height `intensity * SCALER`. */
  lemma LorentzianAtPeak(wl: int, intensity: real)
    ensures Lorentzian(wl, wl as real, intensity) == intensity * Scaler
  {
  }

  /** The line is symmetric about its peak. */
  lemma LineShapeSymmetric(d: real, intensity: real)
    ensures LineShape(-d, intensity) == LineShape(d, intensity)
  {
    assert (-d / HWHM) * (-d / HWHM) == (d / HWHM) * (d / HWHM);
  }

  /** Two wavelengths mirrored about the peak get the same value. */
  lemma LorentzianMirror(wl1: int, wl2: int, peak: real, intensity: real)
    requires wl1 as real - peak == peak - wl2 as real
    ensures Lorentzian(wl1, peak, intensity) == Lorentzian(wl2, peak, intensity)
  {
    LineShapeSymmetric(wl2 as real - peak, intensity);
  }

  /** A line of non-negative intensity lies between 0 and its height. */
  lemma LorentzianBounds(wl: int, peak: real, intensity: real)
    requires intensity >= 0.0
    ensures 0.0 <= Lorentzian(wl, peak, intensity) <= intensity * Scaler
  {
    var x := (wl as real - peak) / HWHM;
    QuotientBounds(intensity * Scaler, 1.0 + x * x);
  }

  /** HWHM away from the peak the line is at half its height. */
  lemma LorentzianHalfMaximum(wl: int, peak: real, intensity: real)
    requires wl as real - peak == HWHM || peak - wl as real == HWHM
    ensures Lorentzian(wl, peak, intensity) == intensity * Scaler / 2.0
  {
  }

  /** A line of positive intensity falls strictly with the distance from
      its peak. */
  lemma LineShapeFalls(d1: real, d2: real, intensity: real)
    requires intensity > 0.0 && 0.0 <= d1 < d2
    ensures LineShape(d2, intensity) < LineShape(d1, intensity)
  {
    var x1, x2 := d1 / HWHM, d2 / HWHM;
    assert 0.0 <= x1 < x2;
    var s1, s2 := x1 * x1, x2 * x2;
    assert 0.0 <= s1 <= x1 * x2;
    assert x1 * x2 < s2;
    QuotientFalls(intensity * Scaler, 1.0 + s1, 1.0 + s2);
  }

  function Min(a: nat, b: nat): nat
  {
    if a <= b then a else b
  }

  /** The `map` of line k over the two lists; like Python's `map` with two
      iterables it stops at the shorter one. */
  function Densities(wl: int, peaks: seq<real>, intensities: seq<real>): (ds: seq<real>)
    ensures |ds| == Min(|peaks|, |intensities|)
    ensures forall k :: 0 <= k < |ds| ==> ds[k] == Lorentzian(wl, peaks[k], intensities[k])
  {
    seq(Min(|peaks|, |intensities|), k requires 0 <= k < Min(|peaks|, |intensities|) =>
      Lorentzian(wl, peaks[k], intensities[k]))
  }

  /** Python's `sum`, adding from the left. */
  function Sum(xs: seq<real>): real
  {
    if xs == [] then 0.0 else Sum(xs[..|xs| - 1]) + xs[|xs| - 1]
  }

  /** `map_reduce_peaks(wl, peaks, intensities)`. */
  function MapReducePeaks(wl: int, peaks: seq<real>, intensities: seq<real>): real
  {
    Sum(Densities(wl, peaks, intensities))
  }

  lemma {:induction false} SumMonotone(xs: seq<real>, ys: seq<real>)
    requires |xs| == |ys|
    requires forall k :: 0 <= k < |xs| ==> xs[k] <= ys[k]
    ensures Sum(xs) <= Sum(ys)
  {
    if xs != [] {
      SumMonotone(xs[..|xs| - 1], ys[..|ys| - 1]);
    }
  }

  lemma {:induction false} SumNonNegative(xs: seq<real>)
    requires forall k :: 0 <= k < |xs| ==> xs[k] >= 0.0
    ensures Sum(xs) >= 0.0
  {
    if xs != [] {
      SumNonNegative(xs[..|xs| - 1]);
    }
  }

  lemma {:induction false} SumScale(c: real, xs: seq<real>, ys: seq<real>)
    requires |xs| == |ys| && forall k :: 0 <= k < |xs| ==> ys[k] == c * xs[k]
    ensures Sum(ys) == c * Sum(xs)
  {
    if xs != [] {
      SumScale(c, xs[..|xs| - 1], ys[..|ys| - 1]);
    }
  }

  /** A sum of non-negative terms is at least each of its terms. */
  lemma {:induction false} SumAtLeastTerm(xs: seq<real>, k: nat)
    requires forall j :: 0 <= j < |xs| ==> xs[j] >= 0.0
    requires k < |xs|
    ensures xs[k] <= Sum(xs)
  {
    var init := xs[..|xs| - 1];
    if k == |xs| - 1 {
      SumNonNegative(init);
    } else {
      SumAtLeastTerm(init, k);
    }
  }

  /** Without peaks (or without intensities) the spectrum is 0. */
  lemma MapReduceNoPeaks(wl: int, peaks: seq<real>, intensities: seq<real>)
    requires peaks == [] || intensities == []
    ensures MapReducePeaks(wl, peaks, intensities) == 0.0
  {
  }

  /** One more peak adds exactly its own line. */
  lemma MapReduceAddPeak(wl: int, peaks: seq<real>, intensities: seq<real>, p: real, f: real)
    requires |peaks| == |intensities|
    ensures MapReducePeaks(wl, peaks + [p], intensities + [f])
         == MapReducePeaks(wl, peaks, intensities) + Lorentzian(wl, p, f)
  {
    var ds := Densities(wl, peaks + [p], intensities + [f]);
    assert ds[..|ds| - 1] == Densities(wl, peaks, intensities);
  }

  /** With non-negative intensities the value at any wavelength lies between
      0 and SCALER times the sum of the intensities that have a peak. */
  lemma MapReduceBounds(wl: int, peaks: seq<real>, intensities: seq<real>)
    requires forall k :: 0 <= k < |intensities| ==> intensities[k] >= 0.0
    ensures 0.0 <= MapReducePeaks(wl, peaks, intensities)
                <= Scaler * Sum(intensities[..Min(|peaks|, |intensities|)])
  {
    var n := Min(|peaks|, |intensities|);
    var ds := Densities(wl, peaks, intensities);
    var heights := seq(n, k requires 0 <= k < n => Scaler * intensities[k]);
    forall k | 0 <= k < n
      ensures 0.0 <= ds[k] <= heights[k]
    {
      LorentzianBounds(wl, peaks[k], intensities[k]);
    }
    SumNonNegative(ds);
    SumMonotone(ds, heights);
    SumScale(Scaler, intensities[..n], heights);
  }

  /** With non-negative intensities every peak's line is at most the total. */
  lemma MapReduceAtLeastEachLine(wl: int, peaks: seq<real>, intensities: seq<real>, k: nat)
    requires forall j :: 0 <= j < |intensities| ==> intensities[j] >= 0.0
    requires k < |peaks| && k < |intensities|
    ensures Lorentzian(wl, peaks[k], intensities[k]) <= MapReducePeaks(wl, peaks, intensities)
  {
    var ds := Densities(wl, peaks, intensities);
    forall j | 0 <= j < |ds| ensures ds[j] >= 0.0 {
      LorentzianBounds(wl, peaks[j], intensities[j]);
    }
    SumAtLeastTerm(ds, k);
  }

  /** MapReduceBounds at every wavelength at once. */
  lemma MapReduceBoundsEverywhere(peaks: seq<real>, intensities: seq<real>)
    ensures (forall k :: 0 <= k < |intensities| ==> intensities[k] >= 0.0) ==>
              forall wl :: 0.0 <= MapReducePeaks(wl, peaks, intensities)
                              <= Scaler * Sum(intensities[..Min(|peaks|, |intensities|)])
  {
    if forall k :: 0 <= k < |intensities| ==> intensities[k] >= 0.0 {
      forall wl
        ensures 0.0 <= MapReducePeaks(wl, peaks, intensities)
                    <= Scaler * Sum(intensities[..Min(|peaks|, |intensities|)])
      {
        MapReduceBounds(wl, peaks, intensities);
      }
    }
  }

  /** `gen_spec(wls, peaks, intensities)`: the summed lines at every
      wavelength, in the grid's order. Without peaks the spectrum is flat
      zero; with non-negative intensities every value lies between 0 and
      SCALER times the summed intensities of the paired peaks. */
  function GenSpec(wls: seq<int>, peaks: seq<real>, intensities: seq<real>): (specs: seq<real>)
    ensures |specs| == |wls|
    ensures forall i :: 0 <= i < |wls| ==> specs[i] == MapReducePeaks(wls[i], peaks, intensities)
    ensures peaks == [] ==> forall i :: 0 <= i < |specs| ==> specs[i] == 0.0
    ensures (forall k :: 0 <= k < |intensities| ==> intensities[k] >= 0.0) ==>
              forall i :: 0 <= i < |specs| ==>
                0.0 <= specs[i] <= Scaler * Sum(intensities[..Min(|peaks|, |intensities|)])
  {
    MapReduceBoundsEverywhere(peaks, intensities);
    seq(|wls|, i requires 0 <= i < |wls| => MapReducePeaks(wls[i], peaks, intensities))
  }

  /** `list(range(WAVE_START, WAVE_END + 1))`: 901 wavelengths, increasing,
      exactly the integers from 200 to 1100. */
  function Grid(): (wls: seq<int>)
    ensures |wls| == 901
    ensures forall i :: 0 <= i < |wls| ==> wls[i] == WaveStart + i
    ensures forall i, j :: 0 <= i < j < |wls| ==> wls[i] < wls[j]
    ensures forall w :: w in wls <==> WaveStart <= w <= WaveEnd
  {
    var wls := seq(WaveEnd - WaveStart + 1, i requires 0 <= i <= WaveEnd - WaveStart => WaveStart + i);
    RangeCovers(WaveStart, wls);
    wls
  }

  /** A run of consecutive integers from `lo` holds every integer it spans. */
  lemma RangeCovers(lo: int, wls: seq<int>)
    requires forall i :: 0 <= i < |wls| ==> wls[i] == lo + i
    ensures forall w :: lo <= w < lo + |wls| ==> w in wls
  {
    forall w | lo <= w < lo + |wls|
      ensures w in wls
    {
      assert wls[w - lo] == w;
    }
  }

  /** `max(s)`. */
  function Max(s: seq<real>): (m: real)
    requires s != []
    ensures m in s
    ensures forall k :: 0 <= k < |s| ==> s[k] <= m
  {
    if |s| == 1 then s[0]
    else
      var m := Max(s[..|s| - 1]);
      assert forall k :: 0 <= k < |s| - 1 ==> s[..|s| - 1][k] == s[k];
      if s[|s| - 1] > m then s[|s| - 1] else m
  }

  datatype SpecError =
    | ZeroDivision   // the spectrum's maximum is 0
    | LogDomain      // `log10(1 - x)` with some spectrum value x >= 1

  /** Every value divided by `m`. */
  function DivideAll(s: seq<real>, m: real): (t: seq<real>)
    requires m != 0.0
    ensures |t| == |s|
  {
    seq(|s|, i requires 0 <= i < |s| => s[i] / m)
  }

  /** `get_T(specs)`: every value divided by the maximum. Over no values the
      maximum is never taken; a zero maximum raises ZeroDivisionError. */
  function GetT(specs: seq<real>): Result<seq<real>, SpecError>
  {
    if specs == [] then Ok([])
    else
      var m := Max(specs);
      if m == 0.0 then Err(ZeroDivision) else Ok(DivideAll(specs, m))
  }

  /** get_T fails exactly when there are values and their maximum is 0. */
  lemma GetTFails(specs: seq<real>)
    ensures GetT(specs).Err? <==> specs != [] && Max(specs) == 0.0
  {
  }

  lemma DivideBack(a: real, m: real)
    requires m != 0.0
    ensures (a / m) * m == a
  {
  }

  /** Every value multiplied by `m`. */
  function ScaleAll(t: seq<real>, m: real): (s: seq<real>)
    ensures |s| == |t|
  {
    seq(|t|, i requires 0 <= i < |t| => t[i] * m)
  }

  /** get_T keeps the length, and scaling back by the maximum restores
      the spectrum. */
  lemma {:induction false} GetTInverse(specs: seq<real>)
    requires specs != [] && GetT(specs).Ok?
    ensures |GetT(specs).value| == |specs|
    ensures ScaleAll(GetT(specs).value, Max(specs)) == specs
  {
    var m := Max(specs);
    var t := DivideAll(specs, m);
    assert GetT(specs).value == t;
    var back := ScaleAll(t, m);
    forall i | 0 <= i < |specs| ensures back[i] == specs[i] {
      DivideBack(specs[i], m);
    }
  }

  lemma QuotientAtMostOne(a: real, m: real)
    requires m > 0.0 && a <= m
    ensures a / m <= 1.0
    ensures a >= 0.0 ==> a / m >= 0.0
  {
    assert (a / m) * m == a;
  }

  /** Every maximal value maps to 1, and with a positive maximum no value
      exceeds 1; with non-negative values none falls below 0. */
  lemma {:induction false} GetTNormalises(specs: seq<real>)
    requires GetT(specs).Ok?
    ensures forall i :: 0 <= i < |specs| && specs[i] == Max(specs) ==> GetT(specs).value[i] == 1.0
    ensures specs != [] && Max(specs) > 0.0 ==>
              forall i :: 0 <= i < |specs| ==> GetT(specs).value[i] <= 1.0
    ensures specs != [] && Max(specs) > 0.0 && (forall i :: 0 <= i < |specs| ==> specs[i] >= 0.0) ==>
              forall i :: 0 <= i < |specs| ==> GetT(specs).value[i] >= 0.0
  {
    if specs != [] {
      var m := Max(specs);
      assert GetT(specs).value == DivideAll(specs, m);
      DivideByBound(specs, m);
    }
  }

  /** Dividing by a non-zero bound `m` of the values: values equal to `m`
      become 1, and for positive `m` the quotients stay at most 1 (and at
      least 0 for non-negative values). */
  lemma DivideByBound(s: seq<real>, m: real)
    requires m != 0.0
    requires forall k :: 0 <= k < |s| ==> s[k] <= m
    ensures forall i :: 0 <= i < |s| && s[i] == m ==> DivideAll(s, m)[i] == 1.0
    ensures m > 0.0 ==> forall i :: 0 <= i < |s| ==> DivideAll(s, m)[i] <= 1.0
    ensures m > 0.0 && (forall i :: 0 <= i < |s| ==> s[i] >= 0.0) ==>
              forall i :: 0 <= i < |s| ==> DivideAll(s, m)[i] >= 0.0
  {
    var t := DivideAll(s, m);
    forall i | 0 <= i < |s|
      ensures s[i] == m ==> t[i] == 1.0
      ensures m > 0.0 ==> t[i] <= 1.0
      ensures s[i] >= 0.0 && m > 0.0 ==> t[i] >= 0.0
    {
      assert t[i] == s[i] / m;
      if s[i] == m {
        DivideBack(1.0, m);
        assert m / m == 1.0;
      }
      if m > 0.0 {
        QuotientAtMostOne(s[i], m);
      }
    }
  }

  /** The columns of `gen_whole_set` the model computes; the `Absorbance`
      column's values are not modelled, only its failure. */
  datatype WholeSet = WholeSet(wavelengths: seq<int>, spectrum: seq<real>, transmittance: seq<real>)

  /** `list(df['wavelength(nm)'])`. */
  function Peaks(records: seq<Record>): (ps: seq<real>)
    ensures |ps| == |records|
    ensures forall i :: 0 <= i < |records| ==> ps[i] == records[i].wavelength
  {
    seq(|records|, i requires 0 <= i < |records| => records[i].wavelength)
  }

  /** `list(df['Oscilation_Strength'])`. */
  function Strengths(records: seq<Record>): (fs: seq<real>)
    ensures |fs| == |records|
    ensures forall i :: 0 <= i < |records| ==> fs[i] == records[i].strength
  {
    seq(|records|, i requires 0 <= i < |records| => records[i].strength)
  }

  /** Whether `get_abs` raises: `log10` of a value at most 0. */
  predicate AbsorbanceFails(specs: seq<real>)
  {
    exists i :: 0 <= i < |specs| && specs[i] >= 1.0
  }

  /** `gen_whole_set(df)`: the grid, the spectrum over it and its
      normalisation; get_T runs before get_abs, so a zero maximum is
      reported before the logarithm's domain error. */
  function GenWholeSet(records: seq<Record>): Result<WholeSet, SpecError>
  {
    var wls := Grid();
    var specs := GenSpec(wls, Peaks(records), Strengths(records));
    match GetT(specs)
    case Err(e) => Err(e)
    case Ok(t) => if AbsorbanceFails(specs) then Err(LogDomain) else Ok(WholeSet(wls, specs, t))
  }

  /** The result's columns: the 901 grid wavelengths, the spectrum at each
      and the spectrum over its maximum; and when each error occurs. */
  lemma GenWholeSetShape(records: seq<Record>)
    ensures var specs := GenSpec(Grid(), Peaks(records), Strengths(records));
            && (GenWholeSet(records) == Err(ZeroDivision) <==> Max(specs) == 0.0)
            && (GenWholeSet(records) == Err(LogDomain) <==> Max(specs) != 0.0 && AbsorbanceFails(specs))
            && (GenWholeSet(records).Ok? ==>
                  && GenWholeSet(records).value.wavelengths == Grid()
                  && GenWholeSet(records).value.spectrum == specs
                  && GetT(specs) == Ok(GenWholeSet(records).value.transmittance)
                  && |GenWholeSet(records).value.transmittance| == 901)
  {
  }

  /** Without excited states the spectrum is flat zero and get_T divides by
      zero. */
  lemma NoStatesNoSpectrum()
    ensures GenWholeSet([]) == Err(ZeroDivision)
  {
    var specs := GenSpec(Grid(), Peaks([]), Strengths([]));
    assert specs[0] == 0.0;
    assert Max(specs) == 0.0 by {
      assert Max(specs) in specs;
    }
  }

  /** A state of strength at least 1 whose wavelength is a grid point makes
      the raw spectrum reach 1 there, so `get_abs` fails (when every
      strength is non-negative). */
  lemma StrongLineBreaksAbsorbance(records: seq<Record>, k: nat)
    requires k < |records| && records[k].strength >= 1.0
    requires forall j :: 0 <= j < |records| ==> records[j].strength >= 0.0
    requires records[k].wavelength == records[k].wavelength.Floor as real
    requires WaveStart <= records[k].wavelength.Floor <= WaveEnd
    ensures GenWholeSet(records) == Err(LogDomain)
  {
    var wl := records[k].wavelength.Floor;
    var i := wl - WaveStart;
    var ps, fs := Peaks(records), Strengths(records);
    var specs := GenSpec(Grid(), ps, fs);
    assert Grid()[i] == wl;
    LorentzianAtPeak(wl, fs[k]);
    MapReduceAtLeastEachLine(wl, ps, fs, k);
    assert specs[i] >= 1.0;
    assert Max(specs) >= specs[i];
    GenWholeSetShape(records);
  }
}
