/**
 * SIDSApp reduced to its one piece of state, the result label, and its two
 * detection actions.
 */
module SidsApplication {
  import opened Imaging
  import opened Labels
  import opened StaticComparator
  import opened LiveDetector

  /**
   * Report k holds the movement count of the k-th and (k+1)-th frames of
   * `s`, and "no breathing" exactly when that count is below 500.
   */
  ghost predicate ReportsFollow<F>(reports: seq<LiveReport>, s: seq<F>, movement: (F, F) -> nat)
  {
    |reports| < |s| &&
    forall k :: 0 <= k < |reports| ==>
      reports[k].movement == movement(s[k], s[k + 1]) &&
      (reports[k].verdict == NoBreathing <==> reports[k].movement < MovementThreshold)
  }

  /** Appending the report of the next pair of frames keeps ReportsFollow. */
  lemma ReportsFollowExtend<F>(reports: seq<LiveReport>, s: seq<F>, movement: (F, F) -> nat)
    requires ReportsFollow(reports, s, movement) && |reports| + 1 < |s|
    ensures
      var m := movement(s[|reports|], s[|reports| + 1]);
      ReportsFollow(reports + [LiveReport(m, Assess(m))], s, movement)
  {
  }

  /**
   * The state after `|reports|` passes over `ticks`, whose frames are `s`:
   * every report follows its frames and the buffer holds the next two.
   */
  ghost predicate PassesDone<F>(ticks: seq<Tick<F>>, s: seq<F>, movement: (F, F) -> nat,
                                reports: seq<LiveReport>, frame1: F, frame2: F)
  {
    |s| == |ticks| + 2 && |reports| <= |ticks| &&
    (forall k :: 0 <= k < |ticks| ==> s[k + 2] == ticks[k].frame) &&
    frame1 == s[|reports|] && frame2 == s[|reports| + 1] &&
    ReportsFollow(reports, s, movement)
  }

  /** One pass reports on the buffered frames and slides in the frame it reads. */
  lemma PassStep<F>(ticks: seq<Tick<F>>, s: seq<F>, movement: (F, F) -> nat,
                    reports: seq<LiveReport>, frame1: F, frame2: F)
    requires PassesDone(ticks, s, movement, reports, frame1, frame2) && |reports| < |ticks|
    ensures
      var m := movement(frame1, frame2);
      PassesDone(ticks, s, movement, reports + [LiveReport(m, Assess(m))], frame2, ticks[|reports|].frame)
  {
    ReportsFollowExtend(reports, s, movement);
  }

  /** What the label shows after `reports`, starting from `before`. */
  function LastShown(before: Display, reports: seq<LiveReport>): Display
  {
    if |reports| == 0 then before
    else MovementResult(reports[|reports| - 1].movement, reports[|reports| - 1].verdict)
  }

  class SidsApp {
    /** What `result_label` currently shows. */
    var display: Display

    constructor ()
      ensures display == Placeholder
    {
      display := Placeholder;
    }

    /**
     * Compares two decoded images and shows the percentage and verdict; an
     * incompatible pair or a zero denominator leaves the label as it was.
     */
    method DetectFromImages(a: Image, b: Image) returns (r: Comparison)
      modifies this
      ensures r == Compare(a, b)
      ensures r.Measured? ==> display == ImageResult(r.percent, r.verdict)
      ensures !r.Measured? ==> display == old(display)
    {
      r := Compare(a, b);
      if r.Measured? {
        display := ImageResult(r.percent, r.verdict);
      }
    }

    /**
     * The live loop. `first` and `second` are the two reads made before it,
     * `ticks` what the capture and keyboard supply to each pass, and
     * `movement` the image-processing pipeline that turns two frames into a
     * count of changed pixels.
     *
     * Each pass k differences the k-th and (k+1)-th frames read, shows the
     * count and its verdict, and slides the buffer. The loop runs while the
     * capture is open and stops after the first pass whose key is 'q'.
     */
    method DetectFromWebcam<F>(first: F, second: F, ticks: seq<Tick<F>>, movement: (F, F) -> nat)
      returns (reports: seq<LiveReport>, exit: Exit, frame1: F, frame2: F)
      modifies this
      ensures StopsAt(ticks, |reports|, exit) && (|reports|, exit) == Run(ticks)
      ensures ReportsFollow(reports, Stream(first, second, ticks), movement)
      ensures frame1 == Stream(first, second, ticks)[|reports|]
      ensures frame2 == Stream(first, second, ticks)[|reports| + 1]
      ensures display == LastShown(old(display), reports)
    {
      ghost var s := Stream(first, second, ticks);
      var pair := new FramePair(first, second);
      reports := [];
      exit := TraceExhausted;
      var i := 0;
      while i < |ticks|
        invariant 0 <= i <= |ticks| && |reports| == i
        invariant RunsThrough(ticks, i)
        invariant PassesDone(ticks, s, movement, reports, pair.frame1, pair.frame2)
        invariant display == LastShown(old(display), reports)
        invariant exit == TraceExhausted
      {
        if !ticks[i].isOpen {
          StopsAtClosed(ticks, i);
          exit := CaptureClosed;
          break;
        }
        var m := movement(pair.frame1, pair.frame2);
        var verdict := Assess(m);
        display := MovementResult(m, verdict);
        PassStep(ticks, s, movement, reports, pair.frame1, pair.frame2);
        reports := reports + [LiveReport(m, verdict)];
        pair.Slide(ticks[i].frame);
        if IsQuit(ticks[i].key) {
          StopsAtQuit(ticks, i);
          exit := KeyQuit;
          i := i + 1;
          break;
        }
        i := i + 1;
      }
      if exit == TraceExhausted {
        StopsAtEnd(ticks);
      }
      StopsAtIsRun(ticks, |reports|, exit);
      frame1, frame2 := pair.frame1, pair.frame2;
    }
  }
}
