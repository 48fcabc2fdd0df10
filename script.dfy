/**
 * The standalone script (drowsiness.py): the same detectors and
 * classifiers, but every detected eye is believed, an eye whose
 * classification raises ends the program (there is no handler around it),
 * and the alert is a flag that stays set until a clean frame clears it.
 */
module Script {
  import opened Observation
  import opened Hysteresis
  import opened FrameDecision

  /** Consecutive drowsy frames needed before the alarm. */
  const DrowsyCounterThreshold: nat := 20

  /** One iteration's input: the captured frame and whether 'q' was pressed after showing it. */
  datatype Capture = Capture(frame: Frame, quitPressed: bool)

  /** Classifying some detected eye of the face raised: the script dies. */
  predicate FaceCrashes(f: Face)
  {
    exists j :: 0 <= j < |f.eyes| && f.eyes[j].prob.None?
  }

  predicate FrameCrashes(faces: seq<Face>)
  {
    exists i :: 0 <= i < |faces| && FaceCrashes(faces[i])
  }

  /** A face signals drowsy: yawning, some detected eye closed, or no eye detected. */
  predicate ScriptFaceDrowsy(f: Face)
  {
    YawnSignal(f.yawn) ||
    (exists j :: 0 <= j < |f.eyes| && ClosedEye(f.eyes[j])) ||
    |f.eyes| == 0
  }

  /** The frame signal, accumulated face by face. */
  predicate ScriptFrameDrowsy(faces: seq<Face>)
    decreases |faces|
  {
    |faces| > 0 && (ScriptFrameDrowsy(faces[..|faces| - 1]) || ScriptFaceDrowsy(faces[|faces| - 1]))
  }

  function ScriptSignals(frames: seq<Frame>): (signals: seq<bool>)
  {
    seq(|frames|, i requires 0 <= i < |frames| => ScriptFrameDrowsy(frames[i].faces))
  }

  /** The frames of the first `n` captures, all of which were read. */
  function Shown(captures: seq<Option<Capture>>, n: nat): (frames: seq<Frame>)
    requires n <= |captures|
    requires forall k :: 0 <= k < n ==> captures[k].Some?
  {
    seq(n, k requires 0 <= k < n => captures[k].value.frame)
  }

  /** Showing one more frame appends its signal. */
  lemma ShownSnoc(captures: seq<Option<Capture>>, n: nat)
    requires n < |captures|
    requires forall k :: 0 <= k <= n ==> captures[k].Some?
    ensures ScriptSignals(Shown(captures, n + 1)) ==
      ScriptSignals(Shown(captures, n)) + [ScriptFrameDrowsy(captures[n].value.frame.faces)]
  {
  }

  /** A frame signals drowsy iff some face in it does. */
  lemma {:induction false} ScriptFrameDrowsyIffSomeFace(faces: seq<Face>)
    ensures ScriptFrameDrowsy(faces) <==> exists i :: 0 <= i < |faces| && ScriptFaceDrowsy(faces[i])
  {
    if |faces| > 0 {
      var init := faces[..|faces| - 1];
      ScriptFrameDrowsyIffSomeFace(init);
      assert forall i :: 0 <= i < |init| ==> init[i] == faces[i];
    }
  }

  /**
   * The body of the face loop of drowsiness.py:50-106 for one face: either
   * an eye classification raises, or the face's drowsy signal.
   */
  method ScanFace(f: Face) returns (crashed: bool, drowsy: bool)
    ensures crashed == FaceCrashes(f)
    ensures !crashed ==> drowsy == ScriptFaceDrowsy(f)
  {
    drowsy := false;
    if f.yawn.Some? {
      var isYawning := f.yawn.value > 0.5;
      if isYawning {
        drowsy := true;
      }
    }
    var eyesDetected := false;
    for j := 0 to |f.eyes|
      invariant eyesDetected == (j > 0)
      invariant forall k :: 0 <= k < j ==> f.eyes[k].prob.Some?
      invariant drowsy == (YawnSignal(f.yawn) || exists k :: 0 <= k < j && ClosedEye(f.eyes[k]))
    {
      eyesDetected := true;
      if f.eyes[j].prob.None? {
        return true, drowsy;
      }
      var eyeProb := f.eyes[j].prob.value;
      var closed := !(eyeProb > 0.5);
      if closed {
        drowsy := true;
      }
    }
    if !eyesDetected {
      drowsy := true;
    }
    crashed := false;
  }

  /**
   * One pass of the main loop after a successful read (drowsiness.py:43-116):
   * a crash leaves the counter and the flag as they were; otherwise a
   * drowsy frame counts up and sets the flag once the counter exceeds the
   * threshold (keeping it set otherwise), and a clean frame resets the
   * counter and clears the flag.
   */
  method Step(counter: nat, isDrowsy: bool, frame: Frame) returns (crashed: bool, newCounter: nat, newIsDrowsy: bool)
    ensures crashed == FrameCrashes(frame.faces)
    ensures crashed ==> newCounter == counter && newIsDrowsy == isDrowsy
    ensures !crashed && ScriptFrameDrowsy(frame.faces) ==>
      newCounter == counter + 1 && newIsDrowsy == (isDrowsy || AlertOn(newCounter, DrowsyCounterThreshold))
    ensures !crashed && !ScriptFrameDrowsy(frame.faces) ==> newCounter == 0 && !newIsDrowsy
  {
    var faces := frame.faces;
    var isCurrentlyDrowsy := false;
    for i := 0 to |faces|
      invariant !FrameCrashes(faces[..i])
      invariant isCurrentlyDrowsy == ScriptFrameDrowsy(faces[..i])
    {
      assert faces[..i + 1][..i] == faces[..i];
      var faceCrashed, faceDrowsy := ScanFace(faces[i]);
      if faceCrashed {
        return true, counter, isDrowsy;
      }
      assert forall k :: 0 <= k < i ==> faces[..i + 1][k] == faces[..i][k];
      if faceDrowsy {
        isCurrentlyDrowsy := true;
      }
    }
    assert faces[..|faces|] == faces;
    crashed := false;
    newCounter, newIsDrowsy := counter, isDrowsy;
    if isCurrentlyDrowsy {
      newCounter := newCounter + 1;
    } else {
      newCounter := 0;
      newIsDrowsy := false;
    }
    if newCounter > DrowsyCounterThreshold {
      newIsDrowsy := true;
    }
  }

  /**
   * The main loop (drowsiness.py:33-126) over the captures a webcam
   * delivers, from a zero counter and a clear flag. It stops on a failed
   * read, on a crash, or after showing a frame on which 'q' was pressed;
   * `shown` counts the frames fully processed. After every frame the
   * sticky flag equals "counter exceeds the threshold", and the counter is
   * that of the shown frames' signals.
   */
  method RunScript(captures: seq<Option<Capture>>) returns (counter: nat, isDrowsy: bool, shown: nat, crashed: bool)
    ensures isDrowsy == AlertOn(counter, DrowsyCounterThreshold)
    ensures shown <= |captures|
    ensures forall k :: 0 <= k < shown ==> captures[k].Some? && !FrameCrashes(captures[k].value.frame.faces)
    ensures forall k :: 0 <= k < shown - 1 ==> !captures[k].value.quitPressed
    ensures counter == CounterAfter(0, ScriptSignals(Shown(captures, shown)))
    ensures crashed ==> shown < |captures| && captures[shown].Some? && FrameCrashes(captures[shown].value.frame.faces)
    ensures crashed ==> forall k :: 0 <= k < shown ==> !captures[k].value.quitPressed
    ensures !crashed && shown < |captures| ==>
      captures[shown].None? || (shown > 0 && captures[shown - 1].value.quitPressed)
  {
    counter, isDrowsy := 0, false;
    shown, crashed := 0, false;
    while shown < |captures|
      invariant shown <= |captures|
      invariant forall k :: 0 <= k < shown ==> captures[k].Some? && !FrameCrashes(captures[k].value.frame.faces)
      invariant forall k :: 0 <= k < shown ==> !captures[k].value.quitPressed
      invariant counter == CounterAfter(0, ScriptSignals(Shown(captures, shown)))
      invariant isDrowsy == AlertOn(counter, DrowsyCounterThreshold)
      invariant !crashed
    {
      var read := captures[shown];
      if read.None? {
        break;
      }
      var frame := read.value.frame;
      var stepCrashed;
      stepCrashed, counter, isDrowsy := Step(counter, isDrowsy, frame);
      if stepCrashed {
        crashed := true;
        break;
      }
      ShownSnoc(captures, shown);
      CounterAfterSnoc(0, ScriptSignals(Shown(captures, shown)), ScriptFrameDrowsy(frame.faces));
      shown := shown + 1;
      if read.value.quitPressed {
        break;
      }
    }
  }

  /**
   * A frame without faces is clean and cannot crash, so by `Step` it resets
   * the counter and clears the flag.
   */
  lemma NoFacesIsClean()
    ensures !ScriptFrameDrowsy([]) && !FrameCrashes([])
  {
  }
}
