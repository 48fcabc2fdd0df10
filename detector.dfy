/**
 * The web application's shared detector object (app.py, class
 * `DrowsinessDetector` and the global instance the route handlers use):
 * its session fields, the per-frame processing that updates the hysteresis
 * counter, the capture loop, and the start / stop / status / upload
 * handlers as sequential state transitions.
 */
module Detector {
  import opened Observation
  import opened Hysteresis
  import opened FrameDecision

  /** The values `drowsiness_status` takes. */
  datatype Status = Alert | Drowsy | Stopped

  /** The two replies of the start handler. */
  datatype StartReply = Started | AlreadyRunning

  /** What the status handler reports. */
  datatype StatusReport = StatusReport(isDetecting: bool, status: Status, confidence: real)

  /** The frames a capture source delivers before its first failed read. */
  function Delivered(captures: seq<Option<Frame>>): (frames: seq<Frame>)
    decreases |captures|
  {
    if |captures| == 0 || captures[0].None? then [] else [captures[0].value] + Delivered(captures[1..])
  }

  /**
   * The delivered frames are exactly the reads before the first failure:
   * each of them was read successfully, and the read that follows them, if
   * any, failed.
   */
  lemma {:induction false} DeliveredIsPrefixBeforeFailure(captures: seq<Option<Frame>>)
    ensures |Delivered(captures)| <= |captures|
    ensures forall i :: 0 <= i < |Delivered(captures)| ==> captures[i] == Some(Delivered(captures)[i])
    ensures |Delivered(captures)| < |captures| ==> captures[|Delivered(captures)|].None?
  {
    if |captures| > 0 && captures[0].Some? {
      DeliveredIsPrefixBeforeFailure(captures[1..]);
    }
  }

  /** Processing one more delivered frame is one more counter step. */
  lemma CountOneMore(start: nat, frames: seq<Frame>, p: nat)
    requires p < |frames|
    ensures CounterAfter(start, FrameSignals(frames[..p + 1])) ==
      NextCounter(CounterAfter(start, FrameSignals(frames[..p])), FrameDrowsy(frames[p].faces))
  {
    assert frames[..p + 1] == frames[..p] + [frames[p]];
    FrameSignalsSnoc(frames[..p], frames[p]);
    CounterAfterSnoc(start, FrameSignals(frames[..p]), FrameDrowsy(frames[p].faces));
  }

  class DrowsinessDetector {
    var isDetecting: bool
    var currentFrame: Option<Frame>
    var drowsinessStatus: Status
    var confidenceScore: real
    var drowsyCounter: nat
    const drowsyCounterThreshold: nat
    // Whether each of the four handles was loaded (app.py keeps None otherwise).
    const yawnModelLoaded: bool
    const eyeModelLoaded: bool
    const faceCascadeLoaded: bool
    const eyeCascadeLoaded: bool

    /**
     * The initial session state. Loading the models and cascades is I/O:
     * `modelsLoad` says whether it succeeded; on failure all four handles
     * are cleared together.
     */
    constructor (modelsLoad: bool)
      ensures !isDetecting && currentFrame == None && drowsinessStatus == Alert
      ensures confidenceScore == 0.0 && drowsyCounter == 0 && drowsyCounterThreshold == 20
      ensures yawnModelLoaded == modelsLoad && eyeModelLoaded == modelsLoad
      ensures faceCascadeLoaded == modelsLoad && eyeCascadeLoaded == modelsLoad
    {
      isDetecting := false;
      currentFrame := None;
      drowsinessStatus := Alert;
      confidenceScore := 0.0;
      drowsyCounter := 0;
      drowsyCounterThreshold := 20;
      yawnModelLoaded := modelsLoad;
      eyeModelLoaded := modelsLoad;
      faceCascadeLoaded := modelsLoad;
      eyeCascadeLoaded := modelsLoad;
    }

    /** None of the four handles is missing; otherwise the detector is in degraded mode. */
    predicate ModelsLoaded()
    {
      yawnModelLoaded && eyeModelLoaded && faceCascadeLoaded && eyeCascadeLoaded
    }

    /**
     * `process_frame`: in degraded mode, report a clean frame with
     * confidence 0.0 and leave the counter alone; otherwise advance the
     * counter by the frame's drowsy signal and report the debounced alert
     * and the mean of the readings.
     */
    method ProcessFrame(frame: Frame) returns (isDrowsy: bool, confidence: real)
      modifies this`drowsyCounter
      ensures !ModelsLoaded() ==> !isDrowsy && confidence == 0.0 && drowsyCounter == old(drowsyCounter)
      ensures ModelsLoaded() ==>
        drowsyCounter == (if FrameDrowsy(frame.faces) then old(drowsyCounter) + 1 else 0) &&
        confidence == Confidence(frame.faces)
      ensures isDrowsy == (ModelsLoaded() && AlertOn(drowsyCounter, drowsyCounterThreshold))
    {
      if !faceCascadeLoaded || !eyeCascadeLoaded || !yawnModelLoaded || !eyeModelLoaded {
        return false, 0.0;
      }
      var isCurrentlyDrowsy := false;
      var drowsyConfidences: seq<real> := [];
      var faces := frame.faces;
      for i := 0 to |faces|
        invariant drowsyCounter == old(drowsyCounter)
        invariant isCurrentlyDrowsy == FrameDrowsy(faces[..i])
        invariant drowsyConfidences == FrameReadings(faces[..i])
      {
        assert faces[..i + 1][..i] == faces[..i];
        var faceDrowsy, readings := ScanFace(faces[i]);
        if faceDrowsy {
          isCurrentlyDrowsy := true;
        }
        drowsyConfidences := drowsyConfidences + readings;
      }
      assert faces[..|faces|] == faces;
      if isCurrentlyDrowsy {
        drowsyCounter := drowsyCounter + 1;
      } else {
        drowsyCounter := 0;
      }
      isDrowsy := drowsyCounter > drowsyCounterThreshold;
      confidence := if |drowsyConfidences| > 0 then Mean(drowsyConfidences) else 0.0;
    }

    /**
     * `detect_from_webcam`: when the camera opens, process frames while
     * detection is on, publishing each result, until a read fails. A failed
     * read ends the loop but leaves `isDetecting` as it was; an unopened
     * camera returns before any frame. `processed` is the number of frames
     * processed.
     */
    method DetectFromWebcam(cameraOpened: bool, captures: seq<Option<Frame>>) returns (processed: nat)
      modifies this`drowsyCounter, this`drowsinessStatus, this`confidenceScore, this`currentFrame
      ensures processed == (if cameraOpened && isDetecting then |Delivered(captures)| else 0)
      ensures drowsyCounter ==
        if ModelsLoaded() then CounterAfter(old(drowsyCounter), FrameSignals(Delivered(captures)[..processed]))
        else old(drowsyCounter)
      ensures processed == 0 ==>
        drowsinessStatus == old(drowsinessStatus) && confidenceScore == old(confidenceScore) &&
        currentFrame == old(currentFrame)
      ensures processed > 0 ==>
        var last := Delivered(captures)[processed - 1];
        currentFrame == Some(last) &&
        confidenceScore == (if ModelsLoaded() then Confidence(last.faces) else 0.0) &&
        drowsinessStatus == (if ModelsLoaded() && AlertOn(drowsyCounter, drowsyCounterThreshold) then Drowsy else Alert)
    {
      processed := 0;
      if !cameraOpened {
        return;
      }
      ghost var delivered := Delivered(captures);
      DeliveredIsPrefixBeforeFailure(captures);
      while isDetecting && processed < |captures|
        invariant processed <= |delivered|
        invariant isDetecting || processed == 0
        invariant drowsyCounter ==
          if ModelsLoaded() then CounterAfter(old(drowsyCounter), FrameSignals(delivered[..processed]))
          else old(drowsyCounter)
        invariant processed == 0 ==>
          drowsinessStatus == old(drowsinessStatus) && confidenceScore == old(confidenceScore) &&
          currentFrame == old(currentFrame)
        invariant processed > 0 ==>
          currentFrame == Some(delivered[processed - 1]) &&
          confidenceScore == (if ModelsLoaded() then Confidence(delivered[processed - 1].faces) else 0.0) &&
          drowsinessStatus == (if ModelsLoaded() && AlertOn(drowsyCounter, drowsyCounterThreshold) then Drowsy else Alert)
        decreases |captures| - processed
      {
        var read := captures[processed];
        if read.None? {
          assert processed == |delivered|;
          break;
        }
        var frame := read.value;
        var isDrowsy, confidence := ProcessFrame(frame);
        drowsinessStatus := if isDrowsy then Drowsy else Alert;
        confidenceScore := confidence;
        currentFrame := Some(frame);
        assert frame == delivered[processed];
        CountOneMore(old(drowsyCounter), delivered, processed);
        processed := processed + 1;
      }
    }

    /**
     * The start handler: when idle, switch detection on (app.py then
     * launches the capture loop on a thread) and reply "started"; when
     * already detecting, reply "already_running" and change nothing.
     * Neither resets the counter.
     */
    method StartDetection() returns (reply: StartReply)
      modifies this`isDetecting
      ensures isDetecting
      ensures reply == (if old(isDetecting) then AlreadyRunning else Started)
    {
      if !isDetecting {
        isDetecting := true;
        return Started;
      }
      return AlreadyRunning;
    }

    /** The stop handler: unconditionally switch detection off and report "Stopped". */
    method StopDetection()
      modifies this`isDetecting, this`drowsinessStatus
      ensures !isDetecting && drowsinessStatus == Stopped
    {
      isDetecting := false;
      drowsinessStatus := Stopped;
    }

    /** The status handler (rounding of the confidence is not modelled). */
    method GetStatus() returns (report: StatusReport)
      ensures report == StatusReport(isDetecting, drowsinessStatus, confidenceScore)
    {
      report := StatusReport(isDetecting, drowsinessStatus, confidenceScore);
    }

    /**
     * The upload handler: the decoded image goes through the same detector,
     * so it advances the same counter as the live loop, and the reply's
     * status is "Drowsy" exactly when the returned flag is set. The session
     * fields other than the counter are untouched.
     */
    method UploadImage(frame: Frame) returns (isDrowsy: bool, confidence: real, status: Status)
      modifies this`drowsyCounter
      ensures !ModelsLoaded() ==> !isDrowsy && confidence == 0.0 && drowsyCounter == old(drowsyCounter)
      ensures ModelsLoaded() ==>
        drowsyCounter == (if FrameDrowsy(frame.faces) then old(drowsyCounter) + 1 else 0) &&
        confidence == Confidence(frame.faces)
      ensures isDrowsy == (ModelsLoaded() && AlertOn(drowsyCounter, drowsyCounterThreshold))
      ensures status == (if isDrowsy then Drowsy else Alert)
    {
      isDrowsy, confidence := ProcessFrame(frame);
      status := if isDrowsy then Drowsy else Alert;
    }
  }

  /** When every read succeeds, every frame is delivered. */
  lemma DeliveredAll(captures: seq<Option<Frame>>)
    requires forall i :: 0 <= i < |captures| ==> captures[i].Some?
    ensures |Delivered(captures)| == |captures|
    ensures forall i :: 0 <= i < |captures| ==> Delivered(captures)[i] == captures[i].value
  {
  }

  /** Replaying a drowsy frame with no failed read counts up once per read. */
  lemma RepeatedDrowsyFrameCountsUp(start: nat, frame: Frame, captures: seq<Option<Frame>>)
    requires FrameDrowsy(frame.faces)
    requires forall i :: 0 <= i < |captures| ==> captures[i] == Some(frame)
    ensures |Delivered(captures)| == |captures|
    ensures CounterAfter(start, FrameSignals(Delivered(captures)[..|captures|])) == start + |captures|
  {
    DeliveredAll(captures);
    AllDrowsyCountsUp(start, FrameSignals(Delivered(captures)[..|captures|]));
  }

  /**
   * A session driven through the handlers with a frame that signals drowsy
   * (for instance a face whose eye candidates are all rejected, by
   * `NoBelievedEyesIsDrowsy`): 20 live frames leave the status "Alert", the
   * 21st turns it "Drowsy"; after stopping, a single uploaded copy of the
   * frame is reported drowsy because it continues the live counter.
   */
  method SharedCounterScenario(frame: Frame)
    returns (after20: Status, after21: Status, stopped: Status, uploadAfterLive: bool)
    requires FrameDrowsy(frame.faces)
    ensures after20 == Alert && after21 == Drowsy && stopped == Stopped
    ensures uploadAfterLive
  {
    var d := new DrowsinessDetector(true);
    var reply := d.StartDetection();
    var live := seq(20, _ => Some(frame));
    RepeatedDrowsyFrameCountsUp(0, frame, live);
    var n := d.DetectFromWebcam(true, live);
    assert d.drowsyCounter == 20;
    after20 := d.drowsinessStatus;
    RepeatedDrowsyFrameCountsUp(20, frame, [Some(frame)]);
    n := d.DetectFromWebcam(true, [Some(frame)]);
    assert d.drowsyCounter == 21;
    after21 := d.drowsinessStatus;
    d.StopDetection();
    assert d.drowsyCounter == 21 && d.ModelsLoaded();
    stopped := d.drowsinessStatus;
    var confidence, status;
    uploadAfterLive, confidence, status := d.UploadImage(frame);
  }

  /** The same upload on a fresh detector is not reported drowsy: one drowsy frame is below the threshold. */
  method FreshUploadScenario(frame: Frame) returns (uploadFresh: bool)
    requires FrameDrowsy(frame.faces)
    ensures !uploadFresh
  {
    var d := new DrowsinessDetector(true);
    var confidence, status;
    uploadFresh, confidence, status := d.UploadImage(frame);
  }
}
