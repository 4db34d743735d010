/**
 * Fit orchestration: a `Fitter` holds the data of one fit, an optional
 * background model, the peak model and, after `Fit`, the result and the
 * lines of the individual peaks. `Fits` is the collection of the current
 * (temporary) fit and the stored ones.
 *
 * The least-squares fitters themselves are not part of this model: what
 * they compute is given by the `Numerics` value passed to the operations
 * that call them.
 */
module FitHandler {
  import opened Common

  type Point = (real, real)

  /** A named polyline; its colour is not modelled. */
  datatype Line = Line(name: string, points: seq<Point>)

  /** A background model and, once it has been fitted, its parameters. */
  datatype BackgroundFitter = BackgroundFitter(xData: seq<real>, yData: seq<real>, result: Option<seq<real>>)

  /** A multi-peak Gaussian fit: its input, its peak markers and, once fitted, one line per peak. */
  datatype GaussianFitter = GaussianFitter(
    xData: seq<real>, yData: seq<real>, peakMarkers: seq<real>,
    params: Option<seq<real>>, fitLines: Option<seq<seq<Point>>>)

  datatype LinearParams = LinearParams(slope: real, intercept: real)

  datatype LinearFitter = LinearFitter(xData: seq<real>, yData: seq<real>, params: Option<LinearParams>)

  /** The model to fit: Gaussians starting at the given peak positions, or a straight line. */
  datatype FitModel = Gaussian(initialPeaks: seq<real>) | Linear

  datatype FitResult = Gaussian(gaussian: GaussianFitter) | Linear(linear: LinearFitter)

  /**
   * The numeric routines that are not modelled: fitting a background,
   * evaluating it at given x values (which may fail), and the Gaussian and
   * linear least-squares fits, each taking a fitter and returning it fitted.
   */
  datatype Numerics = Numerics(
    fitBackground: BackgroundFitter -> BackgroundFitter,
    getBackground: (BackgroundFitter, seq<real>) -> Option<seq<real>>,
    multiGaussFit: GaussianFitter -> GaussianFitter,
    linearFit: LinearFitter -> LinearFitter)

  function Min(a: nat, b: nat): nat {
    if a < b then a else b
  }

  /** `ys.iter().zip(bs.iter()).map(|(y, b)| y - b).collect()`. */
  function Subtracted(ys: seq<real>, bs: seq<real>): (r: seq<real>)
    ensures |r| == Min(|ys|, |bs|)
    ensures forall i :: 0 <= i < |r| ==> r[i] == ys[i] - bs[i]
  {
    if ys == [] || bs == [] then [] else [ys[0] - bs[0]] + Subtracted(ys[1..], bs[1..])
  }

  /** Adding the background back to the subtracted data gives the data, as far as both reach. */
  lemma SubtractRestore(ys: seq<real>, bs: seq<real>)
    ensures var r := Subtracted(ys, bs);
      forall i :: 0 <= i < |r| ==> r[i] + bs[i] == ys[i]
  {
  }

  function DigitChar(d: nat): (c: char)
    requires d < 10
  {
    (d + '0' as int) as char
  }

  predicate IsDigits(s: string) {
    forall k :: 0 <= k < |s| ==> '0' <= s[k] <= '9'
  }

  /** The decimal rendering of `n`, as `format!("{}", n)` writes it. */
  function NatToString(n: nat): (s: string)
    ensures |s| >= 1 && IsDigits(s)
  {
    if n < 10 then [DigitChar(n)] else NatToString(n / 10) + [DigitChar(n % 10)]
  }

  /** The value of a string of decimal digits. */
  function DigitsValue(s: string): (n: nat)
    requires IsDigits(s)
  {
    if s == [] then 0 else DigitsValue(s[..|s| - 1]) * 10 + (s[|s| - 1] as int - '0' as int)
  }

  lemma {:induction false} NatToStringRoundTrip(n: nat)
    ensures DigitsValue(NatToString(n)) == n
  {
    if n >= 10 {
      NatToStringRoundTrip(n / 10);
      var s := NatToString(n);
      assert s[..|s| - 1] == NatToString(n / 10);
    }
  }

  function PeakName(i: nat): string {
    "Peak " + NatToString(i)
  }

  /** Different peaks get different line names. */
  lemma PeakNamesDistinct(i: nat, j: nat)
    ensures PeakName(i) == PeakName(j) <==> i == j
  {
    if PeakName(i) == PeakName(j) {
      assert NatToString(i) == PeakName(i)[5..];
      assert NatToString(j) == PeakName(j)[5..];
      NatToStringRoundTrip(i);
      NatToStringRoundTrip(j);
    }
  }

  /** One line per fitted peak, named after its position in the fit. */
  function PeakLines(fitLines: seq<seq<Point>>): (lines: seq<Line>)
    ensures |lines| == |fitLines|
    ensures forall i :: 0 <= i < |lines| ==> lines[i].name == PeakName(i) && lines[i].points == fitLines[i]
  {
    seq(|fitLines|, i requires 0 <= i < |fitLines| => Line(PeakName(i), fitLines[i]))
  }

  /** The lines a finished Gaussian fit contributes. */
  function LinesOf(fit: GaussianFitter): seq<Line> {
    if fit.fitLines.Some? then PeakLines(fit.fitLines.value) else []
  }

  class Fitter {
    var xData: seq<real>
    var yData: seq<real>
    var yErr: Option<seq<real>>
    var background: Option<BackgroundFitter>
    var model: FitModel
    var result: Option<FitResult>
    var deconvolutedLines: seq<Line>
    var convolutedLine: Line

    /** A fitter with no data and no result yet, for the given model and background. */
    constructor (model: FitModel, background: Option<BackgroundFitter>)
      ensures xData == [] && yData == [] && yErr == None
      ensures this.model == model && this.background == background
      ensures result == None && deconvolutedLines == []
      ensures convolutedLine == Line("Convoluted", [])
    {
      xData := [];
      yData := [];
      yErr := None;
      this.background := background;
      this.model := model;
      result := None;
      deconvolutedLines := [];
      convolutedLine := Line("Convoluted", []);
    }

    /**
     * The y data with the background removed: unchanged when there is no
     * background or it cannot be evaluated at the x data, otherwise the
     * point-wise difference over the common length.
     */
    function SubtractBackground(num: Numerics): (y: seq<real>)
      reads this
      ensures background.None? ==> y == yData
      ensures background.Some? && num.getBackground(background.value, xData).None? ==> y == yData
      ensures background.Some? && num.getBackground(background.value, xData).Some? ==>
        var bg := num.getBackground(background.value, xData).value;
        && |y| == Min(|yData|, |bg|)
        && forall i :: 0 <= i < |y| ==> y[i] == yData[i] - bg[i]
    {
      match background
      case None => yData
      case Some(bgFitter) =>
        match num.getBackground(bgFitter, xData)
        case Some(bg) => Subtracted(yData, bg)
        case None => yData
    }

    /**
     * The peak positions to show: those of a Gaussian result if there is
     * one, else the initial peaks of a Gaussian model, else none.
     */
    function GetPeakMarkers(): (markers: seq<real>)
      reads this
      ensures result.Some? && result.value.Gaussian? ==> markers == result.value.gaussian.peakMarkers
      ensures !(result.Some? && result.value.Gaussian?) && model.Gaussian? ==> markers == model.initialPeaks
      ensures !(result.Some? && result.value.Gaussian?) && model.Linear? ==> markers == []
    {
      if result.Some? && result.value.Gaussian? then result.value.gaussian.peakMarkers
      else if model.Gaussian? then model.initialPeaks
      else []
    }

    /**
     * Fits the background first when it has no result yet (an existing
     * background result is kept), then fits the model to the
     * background-subtracted data. The result's kind is the model's kind; a
     * Gaussian fit appends one line per peak to the lines already there.
     */
    method Fit(num: Numerics)
      modifies this`background, this`result, this`deconvolutedLines
      ensures old(background).Some? && old(background).value.result.None? ==>
        background == Some(num.fitBackground(old(background).value))
      ensures !(old(background).Some? && old(background).value.result.None?) ==> background == old(background)
      ensures result.Some? && (result.value.Gaussian? <==> model.Gaussian?)
      ensures model.Gaussian? ==>
        var fit := num.multiGaussFit(GaussianFitter(xData, SubtractBackground(num), model.initialPeaks, None, None));
        && result == Some(FitResult.Gaussian(fit))
        && deconvolutedLines == old(deconvolutedLines) + LinesOf(fit)
        && GetPeakMarkers() == fit.peakMarkers
      ensures model.Linear? ==>
        && result == Some(FitResult.Linear(num.linearFit(LinearFitter(xData, SubtractBackground(num), None))))
        && deconvolutedLines == old(deconvolutedLines)
    {
      if background.Some? {
        var bgFitter := background.value;
        if bgFitter.result.None? {
          background := Some(num.fitBackground(bgFitter));
        }
      }

      var yCorrected := SubtractBackground(num);

      match model {
        case Gaussian(peakMarkers) =>
          var fit := num.multiGaussFit(GaussianFitter(xData, yCorrected, peakMarkers, None, None));
          if fit.fitLines.Some? {
            var fitLines := fit.fitLines.value;
            var i := 0;
            while i < |fitLines|
              modifies this`deconvolutedLines
              invariant 0 <= i <= |fitLines|
              invariant deconvolutedLines == old(deconvolutedLines) + PeakLines(fitLines[..i])
            {
              deconvolutedLines := deconvolutedLines + [Line(PeakName(i), fitLines[i])];
              i := i + 1;
            }
            assert fitLines[..i] == fitLines;
          }
          result := Some(FitResult.Gaussian(fit));
        case Linear =>
          var fit := num.linearFit(LinearFitter(xData, yCorrected, None));
          result := Some(FitResult.Linear(fit));
      }
    }
  }

  /** `Vec::remove(index)`: the element at `index` goes, the others keep their order. */
  function RemoveAt<T>(s: seq<T>, index: nat): (r: seq<T>)
    requires index < |s|
    ensures |r| == |s| - 1
    ensures forall k :: 0 <= k < index ==> r[k] == s[k]
    ensures forall k :: index <= k < |r| ==> r[k] == s[k + 1]
    ensures multiset(r) + multiset{s[index]} == multiset(s)
  {
    assert s == s[..index] + [s[index]] + s[index + 1..];
    s[..index] + s[index + 1..]
  }

  class Fits {
    var tempFit: Option<Fitter>
    var tempBackgroundFit: Option<BackgroundFitter>
    var storedFits: seq<Fitter>

    constructor ()
      ensures tempFit == None && tempBackgroundFit == None && storedFits == []
    {
      tempFit := None;
      tempBackgroundFit := None;
      storedFits := [];
    }

    /**
     * Takes in a collection read from a file: its stored fits are appended
     * after the current ones, and its temporary fits replace the current
     * ones, even when it has none.
     */
    method MergeLoaded(loaded: Fits)
      requires loaded != this
      modifies this
      ensures storedFits == old(storedFits) + old(loaded.storedFits)
      ensures tempFit == old(loaded.tempFit) && tempBackgroundFit == old(loaded.tempBackgroundFit)
    {
      storedFits := storedFits + loaded.storedFits;
      tempFit := loaded.tempFit;
      tempBackgroundFit := loaded.tempBackgroundFit;
    }

    /** Drops the temporary fits; the stored ones stay. */
    method RemoveTempFits()
      modifies this`tempFit, this`tempBackgroundFit
      ensures tempFit == None && tempBackgroundFit == None
      ensures storedFits == old(storedFits)
    {
      tempFit := None;
      tempBackgroundFit := None;
    }

    /** Deletes the stored fit at `index`, as the remove button of its row does. */
    method RemoveStoredFit(index: nat)
      requires index < |storedFits|
      modifies this`storedFits
      ensures storedFits == RemoveAt(old(storedFits), index)
      ensures tempFit == old(tempFit) && tempBackgroundFit == old(tempBackgroundFit)
    {
      storedFits := RemoveAt(storedFits, index);
    }
  }
}
