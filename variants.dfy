/**
 * The web application's decision rule against the standalone script's,
 * over the same detector and classifier outputs.
 */
module Variants {
  import opened Observation
  import opened Hysteresis
  import opened FrameDecision
  import opened Script

  /** Every eye candidate of the face passes the position and aspect filter. */
  predicate AllEyesBelieved(f: Face)
  {
    forall j :: 0 <= j < |f.eyes| ==> KeepEye(f.h, f.eyes[j])
  }

  /** When the filter rejects nothing, a face signals drowsy under one rule iff under the other. */
  lemma FaceRulesAgree(f: Face)
    requires AllEyesBelieved(f)
    ensures FaceDrowsy(f) <==> ScriptFaceDrowsy(f)
  {
    FilteredAllKept(f.h, f.eyes);
  }

  /** ... and so does a frame. */
  lemma {:induction false} FrameRulesAgree(faces: seq<Face>)
    requires forall i :: 0 <= i < |faces| ==> AllEyesBelieved(faces[i])
    ensures FrameDrowsy(faces) <==> ScriptFrameDrowsy(faces)
  {
    if |faces| > 0 {
      FrameRulesAgree(faces[..|faces| - 1]);
      FaceRulesAgree(faces[|faces| - 1]);
    }
  }

  /**
   * Over a run of frames in which the filter rejects nothing, both programs
   * count the same, so the web application's returned flag
   * (`counter > 20`) equals the script's sticky flag (which `RunScript`
   * proves equal to `counter > 20`).
   */
  lemma CountersAgree(frames: seq<Frame>)
    requires forall n, i :: 0 <= n < |frames| && 0 <= i < |frames[n].faces| ==> AllEyesBelieved(frames[n].faces[i])
    ensures FrameSignals(frames) == ScriptSignals(frames)
    ensures AlertOn(CounterAfter(0, FrameSignals(frames)), 20) <==>
            AlertOn(CounterAfter(0, ScriptSignals(frames)), DrowsyCounterThreshold)
  {
    forall n | 0 <= n < |frames|
      ensures FrameSignals(frames)[n] == ScriptSignals(frames)[n]
    {
      FrameRulesAgree(frames[n].faces);
    }
  }

  /**
   * The filter can make the web application drowsier: an open "eye" in the
   * lower part of the face (a nostril) is believed by the script, which
   * therefore sees an open eye, while the web application sees no eye.
   */
  lemma NostrilMakesOnlyTheAppDrowsy()
    ensures var f := Face(100, None, [Eye(30, 60, 20, 20, Some(0.9))]);
      FaceDrowsy(f) && !ScriptFaceDrowsy(f)
  {
  }

  /** In a face 100 high, an eye high up survives the filter and one in the lower half does not. */
  lemma {:induction false} LowCandidateIsFiltered(upper: Eye, lower: Eye)
    requires upper.ey == 10 && lower.ey == 60
    requires upper.ew == upper.eh == lower.ew == lower.eh
    ensures Filtered(100, [upper, lower]) == [upper]
  {
    assert KeepEye(100, upper) && !KeepEye(100, lower);
    assert [upper][..0] == [];
    assert Filtered(100, [upper]) == [upper];
    assert [upper, lower][..1] == [upper];
  }

  /**
   * The filter can also make it calmer: a "closed" nostril below an open
   * eye makes the script drowsy, while the web application believes only
   * the open eye.
   */
  lemma NostrilMakesOnlyTheScriptDrowsy()
    ensures var f := Face(100, None, [Eye(30, 10, 20, 20, Some(0.9)), Eye(30, 60, 20, 20, Some(0.1))]);
      !FaceDrowsy(f) && ScriptFaceDrowsy(f)
  {
    var open := Eye(30, 10, 20, 20, Some(0.9));
    var nostril := Eye(30, 60, 20, 20, Some(0.1));
    LowCandidateIsFiltered(open, nostril);
    assert !ClosedEye(open) && ClosedEye(nostril);
  }

  /**
   * An eye whose classification raises is absorbed by the web application
   * (the face still counts as having eyes) but ends the script.
   */
  lemma FailedEyeEndsOnlyTheScript()
    ensures var f := Face(100, None, [Eye(30, 10, 20, 20, None)]);
      !FaceDrowsy(f) && FaceCrashes(f)
  {
  }
}
