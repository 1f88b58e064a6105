/**
 The whole of `predictDisease`, from the scaled bitmap's pixels to the
 chosen disease and its confidence, with every exception inside it turned
 into the single failure outcome.
 */
module Pipeline {
  import opened Numerics
  import opened Preprocess
  import opened Scores
  import opened Classifier

  /** The bytes `outputBuffer.get(rawBytes)` reads back after the run: the
      output buffer holds exactly one byte per label. */
  type ScoreBytes = s: seq<Int8> | |s| == 16 witness seq(16, i => 0)

  /** The loaded TFLite interpreter, seen only through what the pipeline asks
      of it: `run` maps the input buffer to the sixteen bytes of the output
      buffer, or throws (`None`), and `output` holds the output tensor's
      quantization parameters. */
  datatype Interpreter = Interpreter(run: seq<Int8> -> Option<ScoreBytes>, output: QuantParams)

  /** The interpreter's input contract: an input of 3 * 224 * 224 bytes runs
      without throwing. */
  ghost predicate Conforms(model: Interpreter) {
    forall input :: |input| == InputBytes ==> model.run(input).Some?
  }

  /** What `predictDisease` reports: a prediction, or "Prediction failed". */
  datatype Outcome = Predicted(prediction: Prediction) | PredictionFailed

  /** Dequantize, clamp into [0, 1], then softmax. */
  function NormalizedScores(raw: seq<Int8>, q: QuantParams, exp: real -> real): (r: seq<real>)
    requires ExpLike(exp)
    ensures |r| == |raw|
    ensures forall i :: 0 <= i < |r| ==> 0.0 < r[i] <= 1.0
    ensures |r| > 0 ==> Sum(r) == 1.0
    ensures MaxIndex(r) == MaxIndex(ClampAll(DequantizeAll(raw, q)))
  {
    var clamped := ClampAll(DequantizeAll(raw, q));
    SoftmaxKeepsSelection(clamped, exp);
    Softmax(clamped, exp)
  }

  /** `predictDisease` on the pixels `getPixels` delivers for the scaled
      bitmap. `model` is `None` when loading the model failed and the
      interpreter was never initialised. */
  function PredictDisease(pixels: seq<Int32>, model: Option<Interpreter>, exp: real -> real): (r: Outcome)
    requires |pixels| == InputPixels
    requires ExpLike(exp)
    ensures r.Predicted? <==> model.Some? && model.value.run(EncodeInput(pixels)).Some?
    ensures r.Predicted? ==>
      var raw := model.value.run(EncodeInput(pixels)).value;
      var k := MaxIndex(ClampAll(DequantizeAll(raw, model.value.output)));
      && k < |Diseases|
      && r.prediction.disease == Diseases[k]
      && r.prediction.confidence == NormalizedScores(raw, model.value.output, exp)[k]
      && 1.0 / 16.0 <= r.prediction.confidence <= 1.0
  {
    if model.None? then PredictionFailed
    else
      var input := EncodeInput(pixels);
      match model.value.run(input)
      case None => PredictionFailed
      case Some(raw) =>
        var probs := NormalizedScores(raw, model.value.output, exp);
        MaxAtLeastMean(probs);
        match Classify(probs)
        case None => PredictionFailed
        case Some(p) => Predicted(p)
  }

  /** A loaded interpreter that accepts the encoded input always yields a
      prediction. */
  lemma ConformingModelPredicts(pixels: seq<Int32>, model: Interpreter, exp: real -> real)
    requires |pixels| == InputPixels
    requires ExpLike(exp)
    requires Conforms(model)
    ensures PredictDisease(pixels, Some(model), exp).Predicted?
  {
    assert |EncodeInput(pixels)| == InputBytes;
  }

  /** Clamping into [0, 1] before the softmax caps every normalised score of
      a sixteen-label output at `exp(1) / (exp(1) + 15 * exp(0))`, whatever
      the interpreter returned. */
  lemma NormalizedScoresCapped(raw: seq<Int8>, q: QuantParams, exp: real -> real)
    requires ExpLike(exp) && |raw| == |Diseases|
    ensures exp(1.0) + 15.0 * exp(0.0) > 0.0
    ensures forall i :: 0 <= i < |raw| ==>
      NormalizedScores(raw, q, exp)[i] <= exp(1.0) / (exp(1.0) + 15.0 * exp(0.0))
  {
    ExpPositive(exp, 0.0);
    ExpPositive(exp, 1.0);
    var clamped := ClampAll(DequantizeAll(raw, q));
    SoftmaxOfUnitScoresBounded(clamped, exp, 15.0);
  }

  /** The confidence `predictDisease` reports is therefore capped as well. */
  lemma PredictedConfidenceCapped(pixels: seq<Int32>, model: Option<Interpreter>, exp: real -> real)
    requires |pixels| == InputPixels
    requires ExpLike(exp)
    ensures exp(1.0) + 15.0 * exp(0.0) > 0.0
    ensures PredictDisease(pixels, model, exp).Predicted? ==>
      PredictDisease(pixels, model, exp).prediction.confidence
        <= exp(1.0) / (exp(1.0) + 15.0 * exp(0.0))
  {
    ExpPositive(exp, 0.0);
    ExpPositive(exp, 1.0);
    if PredictDisease(pixels, model, exp).Predicted? {
      var raw := model.value.run(EncodeInput(pixels)).value;
      NormalizedScoresCapped(raw, model.value.output, exp);
      var probs := NormalizedScores(raw, model.value.output, exp);
      assert PredictDisease(pixels, model, exp).prediction == Classify(probs).value;
    }
  }

  /** All-zero output bytes with zero point 0 and scale 1/128 dequantize to
      zero scores, which clamping leaves alone. */
  lemma AllZeroOutputScoresZero(raw: seq<Int8>)
    requires forall i :: 0 <= i < |raw| ==> raw[i] == 0
    ensures var clamped := ClampAll(DequantizeAll(raw, QuantParams(1.0 / 128.0, 0)));
      forall i :: 0 <= i < |clamped| ==> clamped[i] == 0.0
  {
    var q := QuantParams(1.0 / 128.0, 0);
    var scores := DequantizeAll(raw, q);
    var clamped := ClampAll(scores);
    forall i | 0 <= i < |clamped|
      ensures clamped[i] == 0.0
    {
      var b := raw[i];
      assert b == 0;
      assert scores[i] == Dequantize(b, q) == 0.0;
    }
  }

  /** Softmax makes sixteen equal scores uniform. */
  lemma UniformOverSixteen(clamped: seq<real>, exp: real -> real)
    requires ExpLike(exp)
    requires |clamped| == 16 && forall i :: 0 <= i < |clamped| ==> clamped[i] == 0.0
    ensures forall i :: 0 <= i < 16 ==> Softmax(clamped, exp)[i] == 1.0 / 16.0
  {
    SoftmaxOfConstant(clamped, exp, 16.0);
    forall i | 0 <= i < 16
      ensures Softmax(clamped, exp)[i] == 1.0 / 16.0
    {
      OneSixteenth(Softmax(clamped, exp)[i]);
    }
  }

  /** All-zero output bytes give the uniform distribution over the sixteen
      labels. */
  lemma AllZeroOutputIsUniform(raw: seq<Int8>, exp: real -> real)
    requires ExpLike(exp)
    requires |raw| == 16 && forall i :: 0 <= i < |raw| ==> raw[i] == 0
    ensures var probs := NormalizedScores(raw, QuantParams(1.0 / 128.0, 0), exp);
      |probs| == 16 && forall i :: 0 <= i < |probs| ==> probs[i] == 1.0 / 16.0
  {
    var clamped := ClampAll(DequantizeAll(raw, QuantParams(1.0 / 128.0, 0)));
    AllZeroOutputScoresZero(raw);
    UniformOverSixteen(clamped, exp);
    assert NormalizedScores(raw, QuantParams(1.0 / 128.0, 0), exp) == Softmax(clamped, exp);
  }

  /** The all-zero output selects the first label, "Corn_Blight", through the
      lowest-index tie-break, with confidence 1/16. */
  lemma AllZeroOutputPicksFirstLabel(raw: seq<Int8>, exp: real -> real)
    requires ExpLike(exp)
    requires |raw| == |Diseases| && forall i :: 0 <= i < |raw| ==> raw[i] == 0
    ensures Classify(NormalizedScores(raw, QuantParams(1.0 / 128.0, 0), exp))
      == Some(Prediction("Corn_Blight", 1.0 / 16.0))
  {
    AllZeroOutputIsUniform(raw, exp);
    var probs := NormalizedScores(raw, QuantParams(1.0 / 128.0, 0), exp);
    ConstantSelectsFirst(probs);
    assert Classify(probs) == Some(Prediction(Diseases[0], probs[0]));
  }

  lemma OneSixteenth(x: real)
    requires 16.0 * x == 1.0
    ensures x == 1.0 / 16.0
  {
  }
}
