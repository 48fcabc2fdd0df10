/**
 * What the object detectors and the patch classifiers report about one
 * camera frame. The detectors and classifiers themselves are not modelled:
 * a frame is represented by their (deterministic) outputs, so both decision
 * rules (the web application's and the standalone script's) can be stated
 * over the same observation.
 */
module Observation {

  datatype Option<+T> = None | Some(value: T)

  /** Box heights the eye detector reports are never zero. */
  type Positive = n: int | n > 0 witness 1

  /**
   * One eye candidate found inside a face region: its box relative to the
   * top-left corner of the face, and what the eye-state classifier says
   * about its crop (None when cropping, resizing or predicting raised).
   */
  datatype Eye = Eye(ex: int, ey: int, ew: nat, eh: Positive, prob: Option<real>)

  /**
   * One detected face: its height, the yawn classifier's probability for
   * the face crop (None when that prediction raised), and the eye
   * candidates the eye detector found in the face region, in detector order.
   */
  datatype Face = Face(h: nat, yawn: Option<real>, eyes: seq<Eye>)

  /** A captured or uploaded frame, as seen through the face detector. */
  datatype Frame = Frame(faces: seq<Face>)

  /** A probability as the classifiers promise it: within [0, 1]. */
  predicate IsProbability(p: real)
  {
    0.0 <= p <= 1.0
  }

  predicate OptionalProbability(o: Option<real>)
  {
    o.Some? ==> IsProbability(o.value)
  }

  /** Every probability reported for a face lies within [0, 1]. */
  predicate ValidFace(f: Face)
  {
    OptionalProbability(f.yawn) &&
    forall j :: 0 <= j < |f.eyes| ==> OptionalProbability(f.eyes[j].prob)
  }

  predicate ValidFaces(faces: seq<Face>)
  {
    forall i :: 0 <= i < |faces| ==> ValidFace(faces[i])
  }
}
