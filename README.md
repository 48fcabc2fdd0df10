# Drowsiness detection: decision logic and detection session

This project models the two decision rules of the pomodoro drowsiness detector
in Dafny, and proves properties of them.

- The web application (`app.py`) owns one shared `DrowsinessDetector`. Its `process_frame`
  does four things. It filters the eye candidates of each detected face by position and
  aspect ratio. It derives a per-frame drowsy signal (yawning, a closed eye, or no believed
  eye). It advances a consecutive-drowsy-frames counter, which raises the alert once the
  counter exceeds 20. It reports the mean of the classifier readings as the confidence. The
  capture loop and the start, stop, status and upload handlers act on the same object.
- The standalone script (`drowsiness.py`) runs the same pipeline in a module-level loop. It
  does not filter eyes. There is no handler around eye classification, so a failure there
  ends the program. Its alert is a sticky flag.

The face and eye detectors and the two classifiers are deterministic functions of the
frame, so the model represents a frame by what they report (`Observation`):

- for each face, its height and the yawn probability, or `None` when that prediction
  raised;
- for each face, its eye candidates `(ex, ey, ew, eh)`, each with an eye probability or
  `None`.

`int(h * 0.4)` is written `(4 * h) / 10`. The test `0.7 <= ew / eh <= 1.8` is written
`7 * eh <= 10 * ew <= 18 * eh`. Probabilities and the confidence are reals.

Modules, following the program's structure:

- `Observation` (observation.dfy): detector and classifier outputs.
- `Hysteresis` (hysteresis.dfy): the counter shared by both programs.
- `FrameDecision` (frame_decision.dfy): the per-face and per-frame rules of `process_frame`.
- `Detector` (detector.dfy): the class `DrowsinessDetector` and the route handlers.
- `Script` (script.dfy): the main loop of `drowsiness.py`.
- `Variants` (variants.dfy): the two rules compared.

Three behaviours of the session, as the code has them:

- A failed read ends the capture loop and leaves `is_detecting` set (app.py:129-132).
- An unopened camera returns before any frame (app.py:125-128). By then the start handler
  has already set `is_detecting` and replied "started" (app.py:153-158), and the flag stays
  set.
- Uploads go through the one global detector that the live loop uses (app.py:141, 228), so
  they advance and read the same counter. `Detector.SharedCounterScenario` shows the
  coupling: a single uploaded image is reported drowsy after a live run, and
  `Detector.FreshUploadScenario` shows it is not on its own.

## Model

| member | source | states |
|---|---|---|
| `Hysteresis.AllDrowsyCountsUp` | app.py:103-104 | over a run of drowsy frames the counter rises by exactly one per frame |
| `Hysteresis.CounterIsTrailingRun` | app.py:103-106 | either every frame was drowsy and the counter is the start value plus the frame count, or the counter equals the length of the current run of drowsy frames and the frame before that run was clean |
| `Hysteresis.AlertIffLongDrowsyRun` | app.py:103-108 | starting from 0, `counter > threshold` holds iff the last `threshold + 1` frames were all drowsy |
| `Hysteresis.FirstAlertAfterThreshold` | app.py:103-108 | starting from 0 and over drowsy frames, the alert after `k` frames is on iff `k > threshold`, so with threshold 20 the first alert comes on the 21st frame |
| `Hysteresis.CleanFrameResets` | app.py:105-106 | a clean last frame leaves the counter at 0 and the alert off, whatever came before |
| `FrameDecision.FilterEyes` | app.py:72-80 | the filtering loop returns exactly the candidates that pass the position and aspect tests, in detector order |
| `FrameDecision.FilteredIsSelection` | app.py:72-80 | the filtered list holds, in order, the candidates at the kept positions, so it is a subsequence of the candidates |
| `FrameDecision.KeptPositionsIncrease` | app.py:72-80 | the kept positions increase strictly, so the filter keeps detector order |
| `FrameDecision.KeptPositionsExact` | app.py:74-80 | position `i` is kept iff candidate `i` passes `ey <= (4*h)/10` and `7*eh <= 10*ew <= 18*eh` |
| `FrameDecision.FilteredMembership` | app.py:73-80 | a candidate is in the filtered list iff it was detected and passes both tests |
| `FrameDecision.FilteredAllKept` | app.py:72-80 | when every candidate passes, the filter returns the candidates unchanged |
| `FrameDecision.FilterExamples` | app.py:74-79 | in a face 100 high, a candidate at offset 50% with ratio 1.0 is discarded and one at offset 10% with ratio 1.2 is kept |
| `FrameDecision.EyeReading` | app.py:90-91 | the recorded eye reading is the larger of `p` and `1 - p`, which is `p` for "Open" and `1 - p` for "Closed" |
| `FrameDecision.ScanFace` | app.py:55-100 | the loop body for one face returns the face's drowsy signal (yawn above 0.5, a believed eye at or below 0.5, or no believed eye) and its readings (the yawn probability if predicted, then one reading per classified believed eye) |
| `FrameDecision.NoBelievedEyesIsDrowsy` | app.py:98-99 | a face whose candidates are all rejected signals drowsy, whatever the yawn result |
| `FrameDecision.UnclassifiedEyesCountAsDetected` | app.py:81-96 | believed eyes whose classification raised still count as detected: the face is then drowsy iff it yawns, and only the yawn reading is recorded |
| `FrameDecision.FrameDrowsyIffSomeFace` | app.py:41-99 | the frame's flag is set iff some face signals drowsy |
| `FrameDecision.NoFacesIsClean` | app.py:103-111 | a frame without faces is clean and has confidence 0.0 |
| `FrameDecision.EyeReadingsAtLeastHalf` | app.py:89-91 | every eye reading is at least 0.5 |
| `FrameDecision.FrameReadingsAreProbabilities` | app.py:59-91 | when the classifiers return probabilities, every recorded reading lies in [0, 1] |
| `FrameDecision.MeanBounds` | app.py:111 | the mean of readings within [lo, hi] lies within [lo, hi] |
| `FrameDecision.ConfidenceIsProbability` | app.py:111 | the confidence (the mean of the readings, or 0.0 when there are none) lies in [0, 1] |
| `FrameDecision.EyeOnlyConfidenceAtLeastHalf` | app.py:62-111 | when no yawn prediction succeeded but some eye was classified, the confidence lies in [0.5, 1] |
| `Detector.DeliveredIsPrefixBeforeFailure` | app.py:129-132 | the frames the loop can process are exactly the successful reads before the first failed read |
| `Detector.DrowsinessDetector.constructor` | app.py:16-36 | initial state: not detecting, no frame, status "Alert", confidence 0.0, counter 0, threshold 20; the four handles are all loaded or all missing |
| `Detector.DrowsinessDetector.ProcessFrame` | app.py:38-116 | degraded mode (some handle missing) returns not drowsy with confidence 0.0 and leaves the counter alone; otherwise the counter becomes old+1 on a drowsy frame and 0 on a clean one, the returned flag is `counter > 20`, and the confidence is the mean of the readings or 0.0 |
| `Detector.DrowsinessDetector.DetectFromWebcam` | app.py:125-138 | with the camera open and detection on, it processes every frame up to the first failed read; the counter is then the fold of the frames' signals; status is "Drowsy" iff the last returned flag was set, else "Alert"; confidence and current frame are those of the last frame; `is_detecting` is never cleared; with the camera closed or detection off, nothing changes |
| `Detector.DrowsinessDetector.StartDetection` | app.py:150-159 | when idle it turns detection on and replies "started"; when already running it replies "already_running" and changes nothing; the counter is never touched |
| `Detector.DrowsinessDetector.StopDetection` | app.py:176-180 | detection is off and status "Stopped" whatever the prior state, so calling it twice is the same as once; the counter is untouched |
| `Detector.DrowsinessDetector.GetStatus` | app.py:183-189 | reports the detecting flag, the status and the confidence as they are |
| `Detector.DrowsinessDetector.UploadImage` | app.py:221-240 | an upload is a `process_frame` call on the shared detector, so it advances the shared counter; the reply status is "Drowsy" iff the returned flag is set |
| `Detector.SharedCounterScenario` | app.py:141-228 | for any frame that signals drowsy: 20 live frames leave "Alert" and the 21st gives "Drowsy"; after stop, one upload of that frame is reported drowsy, because it continues the live counter |
| `Detector.FreshUploadScenario` | app.py:221-228 | the same upload on a freshly constructed detector is not reported drowsy, since one drowsy frame is below the threshold |
| `Script.ScriptFrameDrowsyIffSomeFace` | drowsiness.py:48-106 | the script's frame flag is set iff some face signals drowsy |
| `Script.ScanFace` | drowsiness.py:50-106 | for one face, it crashes iff some detected eye's classification raises; otherwise the face is drowsy iff it yawns, some detected eye (unfiltered) is at or below 0.5, or no eye was detected; a failed yawn prediction never sets drowsy |
| `Script.Step` | drowsiness.py:43-116 | a crash leaves counter and flag unchanged; a drowsy frame gives counter+1 and sets the flag once the counter exceeds 20, otherwise keeping it; a clean frame gives counter 0 and clears the flag |
| `Script.RunScript` | drowsiness.py:33-126 | from counter 0 and flag clear, the loop stops at a failed read, a crash, or after a frame shown with 'q'; a crash happens only when no shown frame had 'q' pressed, and the crashing frame is the one after the shown ones; the flag equals `counter > 20` at the end; the counter is the fold of the shown frames' signals |
| `Script.NoFacesIsClean` | drowsiness.py:48-113 | a frame without faces is clean and cannot crash, so it resets the counter and clears the flag |
| `Variants.FaceRulesAgree` | drowsiness.py:79-105 | when the app's filter rejects no candidate, a face is drowsy under the app's rule iff under the script's |
| `Variants.FrameRulesAgree` | drowsiness.py:48-105 | the same holds for whole frames |
| `Variants.CountersAgree` | drowsiness.py:108-116 | over frames where nothing is filtered, both programs produce the same signals, so the app's returned flag equals the script's flag |
| `Variants.NostrilMakesOnlyTheAppDrowsy` | app.py:73-80 | an open "eye" low in the face makes the app drowsy (no believed eye) and leaves the script alert |
| `Variants.NostrilMakesOnlyTheScriptDrowsy` | app.py:73-80 | an open eye above a "closed" nostril makes the script drowsy and leaves the app alert |
| `Variants.FailedEyeEndsOnlyTheScript` | drowsiness.py:87-93 | an eye whose classification raises is absorbed by the app, but ends the script |

## Left out

- OpenCV and TensorFlow are inputs, not code: grayscale conversion, `detectMultiScale`, resizing, normalisation and `predict`. So are the drawing calls. The model does not capture that both programs classify crops of the already-annotated frame, because rectangles and labels are drawn before cropping.
- Annotated frames: `current_frame` holds the observed frame, not the annotated copy. JPEG and base64 encoding are left out, and so are the `video_feed` generator and the camera preview route.
- The Flask layer: routing, JSON message texts, the camera index, and the 400/500 replies of the upload handler. `static/js/script.js` (browser UI) is not part of this model.
- Threading: `StartDetection` only sets the flag; it does not start a thread. The capture loop is a separate call that runs to completion over a finite sequence of reads; when that sequence ends the loop stops, which stands for the end of what is observed. Races between handlers and the loop are not modelled, e.g. the status "Stopped" overwritten by a frame still in flight.
- `time.sleep`, `cap.release` and the camera itself are left out: whether the camera opened is a parameter.
- Floating point: the model uses exact reals for probabilities and `np.mean`, integer arithmetic for `int(h * 0.4)`, and exact 0.7 and 1.8; binary rounding is ignored.
- Zero-height eye boxes: the eye box height has a positive type, because the cascade never reports a zero-size box. Under numpy such a box would give `inf` or `NaN` and would not raise.
- Face `x`, `y`, `w` only position the crops and the drawings, so only the face height is kept.
- The script's I/O: model loading and its `exit()`, opening the webcam, `imshow`, `destroyAllWindows`. The `q` key is one input bit per capture.
- `Detector.DrowsinessDetector.GetStatus`: reports the confidence unrounded, because `round(..., 2)` at app.py:188 is float formatting for the reply.
- `Detector.DrowsinessDetector.UploadImage`: returns the confidence unrounded, because `round(confidence, 2)` at app.py:238 is float formatting for the reply.
