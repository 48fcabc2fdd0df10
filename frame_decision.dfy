/**
 * The per-frame decision of the web application's detector (app.py,
 * `process_frame`): which eye candidates are believed, when a face signals
 * drowsiness, and which classifier readings make up the confidence. The
 * functions and predicates here are the reference definitions; the methods
 * are the loops of app.py, proved against them.
 */
module FrameDecision {
  import opened Observation

  // ---------------------------------------------------------------------
  // Eye-candidate filter (app.py:72-80)
  // ---------------------------------------------------------------------

  /**
   * An eye candidate is believed when its top edge lies within the upper
   * 40% of the face (`int(h * 0.4)`, truncated) and its width/height ratio
   * lies within [0.7, 1.8], written here without division.
   */
  predicate KeepEye(h: nat, e: Eye)
  {
    e.ey <= (4 * h) / 10 && 7 * e.eh <= 10 * e.ew <= 18 * e.eh
  }

  /** The candidates that pass `KeepEye`, in detector order. */
  function Filtered(h: nat, eyes: seq<Eye>): (believed: seq<Eye>)
    decreases |eyes|
  {
    if |eyes| == 0 then []
    else
      var last := eyes[|eyes| - 1];
      Filtered(h, eyes[..|eyes| - 1]) + (if KeepEye(h, last) then [last] else [])
  }

  /** The filtering loop of app.py:72-80. */
  method FilterEyes(h: nat, eyes: seq<Eye>) returns (filtered: seq<Eye>)
    ensures filtered == Filtered(h, eyes)
  {
    filtered := [];
    for i := 0 to |eyes|
      invariant filtered == Filtered(h, eyes[..i])
    {
      assert eyes[..i + 1][..i] == eyes[..i];
      var e := eyes[i];
      if e.ey > (4 * h) / 10 {
        continue;
      }
      // ew / eh < 0.7 or ew / eh > 1.8, for eh > 0
      if 10 * e.ew < 7 * e.eh || 10 * e.ew > 18 * e.eh {
        continue;
      }
      filtered := filtered + [e];
    }
    assert eyes[..|eyes|] == eyes;
  }

  /** The positions of the candidates that pass `KeepEye`, in detector order. */
  function KeptPositions(h: nat, eyes: seq<Eye>): (positions: seq<nat>)
    decreases |eyes|
  {
    if |eyes| == 0 then []
    else KeptPositions(h, eyes[..|eyes| - 1]) + (if KeepEye(h, eyes[|eyes| - 1]) then [|eyes| - 1] else [])
  }

  /** The filter result is the candidates at the kept positions, in that order. */
  lemma {:induction false} FilteredIsSelection(h: nat, eyes: seq<Eye>)
    ensures |KeptPositions(h, eyes)| == |Filtered(h, eyes)|
    ensures forall k :: 0 <= k < |KeptPositions(h, eyes)| ==>
      KeptPositions(h, eyes)[k] < |eyes| && Filtered(h, eyes)[k] == eyes[KeptPositions(h, eyes)[k]]
  {
    if |eyes| > 0 {
      var init := eyes[..|eyes| - 1];
      FilteredIsSelection(h, init);
      assert forall i :: 0 <= i < |init| ==> init[i] == eyes[i];
    }
  }

  /** The kept positions increase strictly, so the filter preserves detector order. */
  lemma {:induction false} KeptPositionsIncrease(h: nat, eyes: seq<Eye>)
    ensures forall k, l :: 0 <= k < l < |KeptPositions(h, eyes)| ==>
      KeptPositions(h, eyes)[k] < KeptPositions(h, eyes)[l]
  {
    if |eyes| > 0 {
      var init := eyes[..|eyes| - 1];
      KeptPositionsIncrease(h, init);
      FilteredIsSelection(h, init);
    }
  }

  /** Position `i` is kept iff candidate `i` passes `KeepEye`. */
  lemma {:induction false} KeptPositionsExact(h: nat, eyes: seq<Eye>)
    ensures forall i :: 0 <= i < |eyes| ==> (KeepEye(h, eyes[i]) <==> i in KeptPositions(h, eyes))
  {
    if |eyes| > 0 {
      var init := eyes[..|eyes| - 1];
      KeptPositionsExact(h, init);
      FilteredIsSelection(h, init);
      assert forall i :: 0 <= i < |init| ==> init[i] == eyes[i];
    }
  }

  /** A candidate survives the filter iff it was detected and passes `KeepEye`. */
  lemma {:induction false} FilteredMembership(h: nat, eyes: seq<Eye>, e: Eye)
    ensures e in Filtered(h, eyes) <==> e in eyes && KeepEye(h, e)
  {
    if |eyes| > 0 {
      var init := eyes[..|eyes| - 1];
      FilteredMembership(h, init, e);
      assert eyes == init + [eyes[|eyes| - 1]];
    }
  }

  /** When every candidate passes, the filter changes nothing. */
  lemma {:induction false} FilteredAllKept(h: nat, eyes: seq<Eye>)
    requires forall j :: 0 <= j < |eyes| ==> KeepEye(h, eyes[j])
    ensures Filtered(h, eyes) == eyes
  {
    if |eyes| > 0 {
      FilteredAllKept(h, eyes[..|eyes| - 1]);
    }
  }

  /**
   * Two candidate detections in a face 100 pixels high: offset 50% with ratio 1.0 is discarded, offset 10% with ratio 1.2
   * is kept.
   */
  lemma FilterExamples(p: Option<real>)
    ensures !KeepEye(100, Eye(30, 50, 20, 20, p))
    ensures KeepEye(100, Eye(30, 10, 24, 20, p))
  {
  }

  // ---------------------------------------------------------------------
  // Per-face signal and readings (app.py:55-100)
  // ---------------------------------------------------------------------

  /** The yawn classifier labels the face "Yawn". */
  predicate YawnSignal(yawn: Option<real>)
  {
    yawn.Some? && yawn.value > 0.5
  }

  /** The eye-state classifier labels the eye "Closed" (a failed prediction labels nothing). */
  predicate ClosedEye(e: Eye)
  {
    e.prob.Some? && !(e.prob.value > 0.5)
  }

  /** A face signals drowsy: yawning, a believed eye closed, or no believed eye at all. */
  predicate FaceDrowsy(f: Face)
  {
    var believed := Filtered(f.h, f.eyes);
    YawnSignal(f.yawn) ||
    (exists j :: 0 <= j < |believed| && ClosedEye(believed[j])) ||
    |believed| == 0
  }

  /**
   * The reading recorded for an eye: confidence in the label given, which
   * is the larger of the "open" and "closed" probabilities.
   */
  function EyeReading(p: real): (r: real)
    ensures r >= p && r >= 1.0 - p
    ensures r == p || r == 1.0 - p
  {
    if p > 0.5 then p else 1.0 - p
  }

  /** A successful yawn prediction records its raw probability; a failed one nothing. */
  function YawnReadings(yawn: Option<real>): (readings: seq<real>)
  {
    if yawn.Some? then [yawn.value] else []
  }

  /** The readings of the believed eyes whose prediction succeeded, in order. */
  function EyeReadings(believed: seq<Eye>): (readings: seq<real>)
    decreases |believed|
  {
    if |believed| == 0 then []
    else
      var last := believed[|believed| - 1];
      EyeReadings(believed[..|believed| - 1]) +
      (if last.prob.Some? then [EyeReading(last.prob.value)] else [])
  }

  function FaceReadings(f: Face): (readings: seq<real>)
  {
    YawnReadings(f.yawn) + EyeReadings(Filtered(f.h, f.eyes))
  }

  /** The body of the face loop of app.py:49-100, for one face. */
  method ScanFace(f: Face) returns (drowsy: bool, readings: seq<real>)
    ensures drowsy == FaceDrowsy(f)
    ensures readings == FaceReadings(f)
  {
    drowsy := false;
    readings := [];
    if f.yawn.Some? {
      var yawnProb := f.yawn.value;
      var isYawning := yawnProb > 0.5;
      readings := readings + [yawnProb];
      if isYawning {
        drowsy := true;
      }
    }
    var eyesDetected := false;
    var filtered := FilterEyes(f.h, f.eyes);
    for j := 0 to |filtered|
      invariant eyesDetected == (j > 0)
      invariant drowsy == (YawnSignal(f.yawn) || exists k :: 0 <= k < j && ClosedEye(filtered[k]))
      invariant readings == YawnReadings(f.yawn) + EyeReadings(filtered[..j])
    {
      assert filtered[..j + 1][..j] == filtered[..j];
      eyesDetected := true;
      if filtered[j].prob.Some? {
        var eyeProb := filtered[j].prob.value;
        var closed := !(eyeProb > 0.5);
        readings := readings + [if closed then 1.0 - eyeProb else eyeProb];
        if closed {
          drowsy := true;
        }
      }
    }
    assert filtered[..|filtered|] == filtered;
    if !eyesDetected {
      drowsy := true;
    }
  }

  /** A face with no believed eye signals drowsy whatever the yawn classifier says. */
  lemma NoBelievedEyesIsDrowsy(f: Face)
    requires forall j :: 0 <= j < |f.eyes| ==> !KeepEye(f.h, f.eyes[j])
    ensures FaceDrowsy(f)
  {
    var believed := Filtered(f.h, f.eyes);
    if believed != [] {
      FilteredMembership(f.h, f.eyes, believed[0]);
    }
  }

  /**
   * A believed eye whose prediction raised still counts as detected: when
   * there are believed eyes and none of them was classified, the face is
   * drowsy only through the yawn classifier, and only its reading is recorded.
   */
  lemma UnclassifiedEyesCountAsDetected(f: Face)
    requires Filtered(f.h, f.eyes) != []
    requires forall j :: 0 <= j < |f.eyes| ==> f.eyes[j].prob.None?
    ensures FaceDrowsy(f) <==> YawnSignal(f.yawn)
    ensures FaceReadings(f) == YawnReadings(f.yawn)
  {
    var believed := Filtered(f.h, f.eyes);
    forall k | 0 <= k < |believed|
      ensures believed[k].prob.None?
    {
      FilteredMembership(f.h, f.eyes, believed[k]);
    }
    NoEyeReadings(believed);
  }

  lemma {:induction false} NoEyeReadings(believed: seq<Eye>)
    requires forall k :: 0 <= k < |believed| ==> believed[k].prob.None?
    ensures EyeReadings(believed) == []
  {
    if |believed| > 0 {
      NoEyeReadings(believed[..|believed| - 1]);
    }
  }

  // ---------------------------------------------------------------------
  // Per-frame signal and confidence (app.py:49, 102-111)
  // ---------------------------------------------------------------------

  /** The frame signal, accumulated face by face as the flag of app.py is. */
  predicate FrameDrowsy(faces: seq<Face>)
    decreases |faces|
  {
    |faces| > 0 && (FrameDrowsy(faces[..|faces| - 1]) || FaceDrowsy(faces[|faces| - 1]))
  }

  /** A frame signals drowsy iff some face in it does. */
  lemma {:induction false} FrameDrowsyIffSomeFace(faces: seq<Face>)
    ensures FrameDrowsy(faces) <==> exists i :: 0 <= i < |faces| && FaceDrowsy(faces[i])
  {
    if |faces| > 0 {
      var init := faces[..|faces| - 1];
      FrameDrowsyIffSomeFace(init);
      assert forall i :: 0 <= i < |init| ==> init[i] == faces[i];
    }
  }

  /** All readings recorded while processing the frame, face by face. */
  function FrameReadings(faces: seq<Face>): (readings: seq<real>)
    decreases |faces|
  {
    if |faces| == 0 then []
    else FrameReadings(faces[..|faces| - 1]) + FaceReadings(faces[|faces| - 1])
  }

  /** The per-frame drowsy signals of a run of frames, oldest first. */
  function FrameSignals(frames: seq<Frame>): (signals: seq<bool>)
  {
    seq(|frames|, i requires 0 <= i < |frames| => FrameDrowsy(frames[i].faces))
  }

  lemma FrameSignalsSnoc(frames: seq<Frame>, frame: Frame)
    ensures FrameSignals(frames + [frame]) == FrameSignals(frames) + [FrameDrowsy(frame.faces)]
  {
  }

  function Sum(xs: seq<real>): (total: real)
    decreases |xs|
  {
    if |xs| == 0 then 0.0 else Sum(xs[..|xs| - 1]) + xs[|xs| - 1]
  }

  /** The arithmetic mean of a non-empty list of readings. */
  function Mean(xs: seq<real>): (mean: real)
    requires |xs| > 0
  {
    Sum(xs) / |xs| as real
  }

  /** The confidence of a frame: the mean of its readings, or 0.0 when there are none. */
  function Confidence(faces: seq<Face>): (confidence: real)
  {
    var readings := FrameReadings(faces);
    if |readings| == 0 then 0.0 else Mean(readings)
  }

  /** A frame without faces is clean and has confidence 0.0. */
  lemma NoFacesIsClean()
    ensures !FrameDrowsy([]) && Confidence([]) == 0.0
  {
  }

  /** Every eye reading is at least 0.5. */
  lemma {:induction false} EyeReadingsAtLeastHalf(believed: seq<Eye>)
    ensures forall k :: 0 <= k < |EyeReadings(believed)| ==> EyeReadings(believed)[k] >= 0.5
  {
    if |believed| > 0 {
      EyeReadingsAtLeastHalf(believed[..|believed| - 1]);
    }
  }

  /** Eye readings of classifier probabilities are probabilities. */
  lemma {:induction false} EyeReadingsAreProbabilities(believed: seq<Eye>)
    requires forall k :: 0 <= k < |believed| ==> OptionalProbability(believed[k].prob)
    ensures forall k :: 0 <= k < |EyeReadings(believed)| ==> IsProbability(EyeReadings(believed)[k])
  {
    if |believed| > 0 {
      EyeReadingsAreProbabilities(believed[..|believed| - 1]);
    }
  }

  /** Every reading of a frame is a probability when the classifiers' outputs are. */
  lemma {:induction false} FrameReadingsAreProbabilities(faces: seq<Face>)
    requires ValidFaces(faces)
    ensures forall k :: 0 <= k < |FrameReadings(faces)| ==> IsProbability(FrameReadings(faces)[k])
  {
    if |faces| > 0 {
      var f := faces[|faces| - 1];
      FrameReadingsAreProbabilities(faces[..|faces| - 1]);
      var believed := Filtered(f.h, f.eyes);
      forall k | 0 <= k < |believed|
        ensures OptionalProbability(believed[k].prob)
      {
        FilteredMembership(f.h, f.eyes, believed[k]);
      }
      EyeReadingsAreProbabilities(believed);
    }
  }

  /** A sum of values within [lo, hi] lies within [n * lo, n * hi]. */
  lemma {:induction false} SumBounds(xs: seq<real>, lo: real, hi: real)
    requires forall k :: 0 <= k < |xs| ==> lo <= xs[k] <= hi
    ensures |xs| as real * lo <= Sum(xs) <= |xs| as real * hi
  {
    if |xs| > 0 {
      SumBounds(xs[..|xs| - 1], lo, hi);
    }
  }

  /** The mean of values within [lo, hi] lies within [lo, hi]. */
  lemma MeanBounds(xs: seq<real>, lo: real, hi: real)
    requires |xs| > 0
    requires forall k :: 0 <= k < |xs| ==> lo <= xs[k] <= hi
    ensures lo <= Mean(xs) <= hi
  {
    SumBounds(xs, lo, hi);
    var n := |xs| as real;
    assert Mean(xs) * n == Sum(xs);
  }

  /** The confidence is a probability when the classifiers' outputs are. */
  lemma ConfidenceIsProbability(faces: seq<Face>)
    requires ValidFaces(faces)
    ensures IsProbability(Confidence(faces))
  {
    FrameReadingsAreProbabilities(faces);
    if |FrameReadings(faces)| > 0 {
      MeanBounds(FrameReadings(faces), 0.0, 1.0);
    }
  }

  /** Readings of a frame in which no yawn prediction succeeded are all eye readings. */
  lemma {:induction false} EyeOnlyReadingsAtLeastHalf(faces: seq<Face>)
    requires forall i :: 0 <= i < |faces| ==> faces[i].yawn.None?
    ensures forall k :: 0 <= k < |FrameReadings(faces)| ==> FrameReadings(faces)[k] >= 0.5
  {
    if |faces| > 0 {
      var f := faces[|faces| - 1];
      EyeOnlyReadingsAtLeastHalf(faces[..|faces| - 1]);
      EyeReadingsAtLeastHalf(Filtered(f.h, f.eyes));
    }
  }

  /**
   * When no yawn prediction succeeded but some eye was classified, the
   * confidence is at least 0.5 (and at most the largest reading).
   */
  lemma EyeOnlyConfidenceAtLeastHalf(faces: seq<Face>)
    requires forall i :: 0 <= i < |faces| ==> faces[i].yawn.None?
    requires ValidFaces(faces)
    requires FrameReadings(faces) != []
    ensures 0.5 <= Confidence(faces) <= 1.0
  {
    EyeOnlyReadingsAtLeastHalf(faces);
    FrameReadingsAreProbabilities(faces);
    MeanBounds(FrameReadings(faces), 0.5, 1.0);
  }
}
