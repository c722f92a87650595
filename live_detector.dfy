/**
 * The pieces of SIDSApp.detect_from_webcam that are not camera or display
 * I/O: the movement threshold, the quit key test, the environment each loop
 * iteration observes, and the two-slot frame buffer that slides forward.
 */
module LiveDetector {
  import opened Labels

  /** Movement counts strictly below this classify as "no breathing". */
  const MovementThreshold: nat := 500

  /** ord('q') */
  const QuitKey: int := 113

  function Assess(movement: nat): Label
  {
    if movement < MovementThreshold then NoBreathing else Breathing
  }

  /**
   * `waitKey(10) & 0xFF == ord('q')`. Python's `&` on an unbounded integer
   * keeps the low byte of its two's-complement form, which is the Euclidean
   * remainder modulo 256 (so "no key", -1, gives 255).
   */
  predicate IsQuit(key: int)
  {
    key % 256 == QuitKey
  }

  /**
   * Only the low byte decides: "no key" (-1) never quits, 'q' does, and so
   * does 'q' reported with bits above the low byte set.
   */
  lemma QuitKeyLowByte()
    ensures !IsQuit(-1) && IsQuit(113) && IsQuit(113 + 256) && IsQuit(113 + 0x10_0000)
  {
  }

  /**
   * What the environment supplies to one pass of the loop: whether the
   * capture reports itself open before the pass, the frame the pass reads,
   * and the code waitKey returns at the end of the pass.
   */
  datatype Tick<F> = Tick(isOpen: bool, frame: F, key: int)

  /** Why the loop stopped. `TraceExhausted`: the finite observation ran out. */
  datatype Exit = KeyQuit | CaptureClosed | TraceExhausted

  /**
   * A session over `ticks` that ran `n` passes and then stopped for `exit`:
   * the capture was open before every pass, no pass but the last read 'q',
   * and the reason given is the one that ended it.
   */
  ghost predicate StopsAt<F>(ticks: seq<Tick<F>>, n: nat, exit: Exit)
  {
    n <= |ticks| &&
    (forall k :: 0 <= k < n ==> ticks[k].isOpen) &&
    (forall k :: 0 <= k < n - 1 ==> !IsQuit(ticks[k].key)) &&
    match exit
    case KeyQuit => n > 0 && IsQuit(ticks[n - 1].key)
    case CaptureClosed => n < |ticks| && !ticks[n].isOpen && (n > 0 ==> !IsQuit(ticks[n - 1].key))
    case TraceExhausted => n == |ticks| && (n > 0 ==> !IsQuit(ticks[n - 1].key))
  }

  /**
   * The loop's control flow as a recursive definition: how many passes run
   * over `ticks` and why the loop stops.
   */
  function Run<F>(ticks: seq<Tick<F>>): (nat, Exit)
  {
    if |ticks| == 0 then (0, TraceExhausted)
    else if !ticks[0].isOpen then (0, CaptureClosed)
    else if IsQuit(ticks[0].key) then (1, KeyQuit)
    else
      var (n, exit) := Run(ticks[1..]);
      (n + 1, exit)
  }

  /** Run stops where StopsAt says a session stops. */
  lemma {:induction false} RunStops<F>(ticks: seq<Tick<F>>)
    ensures StopsAt(ticks, Run(ticks).0, Run(ticks).1)
  {
    if |ticks| > 0 && ticks[0].isOpen && !IsQuit(ticks[0].key) {
      var rest := ticks[1..];
      RunStops(rest);
      var (n, exit) := Run(rest);
      assert forall k :: 0 <= k < n ==> rest[k] == ticks[k + 1];
    }
  }

  /** StopsAt admits one number of passes and one reason for any observation. */
  lemma StopsAtUnique<F>(ticks: seq<Tick<F>>, n1: nat, e1: Exit, n2: nat, e2: Exit)
    requires StopsAt(ticks, n1, e1) && StopsAt(ticks, n2, e2)
    ensures n1 == n2 && e1 == e2
  {
  }

  /** Any session that StopsAt describes is the one Run defines. */
  lemma StopsAtIsRun<F>(ticks: seq<Tick<F>>, n: nat, exit: Exit)
    requires StopsAt(ticks, n, exit)
    ensures (n, exit) == Run(ticks)
  {
    RunStops(ticks);
    StopsAtUnique(ticks, n, exit, Run(ticks).0, Run(ticks).1);
  }

  /** The first `i` passes all ran and none of them read 'q'. */
  ghost predicate RunsThrough<F>(ticks: seq<Tick<F>>, i: nat)
  {
    i <= |ticks| && forall k :: 0 <= k < i ==> ticks[k].isOpen && !IsQuit(ticks[k].key)
  }

  /** A closed capture before pass i ends the session after i passes. */
  lemma StopsAtClosed<F>(ticks: seq<Tick<F>>, i: nat)
    requires RunsThrough(ticks, i) && i < |ticks| && !ticks[i].isOpen
    ensures StopsAt(ticks, i, CaptureClosed)
  {
  }

  /** A 'q' read in pass i ends the session after i + 1 passes. */
  lemma StopsAtQuit<F>(ticks: seq<Tick<F>>, i: nat)
    requires RunsThrough(ticks, i) && i < |ticks| && ticks[i].isOpen && IsQuit(ticks[i].key)
    ensures StopsAt(ticks, i + 1, KeyQuit)
  {
  }

  /** Passing every tick ends the session with the observation exhausted. */
  lemma StopsAtEnd<F>(ticks: seq<Tick<F>>)
    requires RunsThrough(ticks, |ticks|)
    ensures StopsAt(ticks, |ticks|, TraceExhausted)
  {
  }

  /** What one iteration computes and shows. */
  datatype LiveReport = LiveReport(movement: nat, verdict: Label)

  /**
   * Every frame the session reads, in order: the two reads before the loop,
   * then one per pass.
   */
  function Stream<F>(first: F, second: F, ticks: seq<Tick<F>>): (s: seq<F>)
    ensures |s| == |ticks| + 2 && s[0] == first && s[1] == second
    ensures forall i :: 0 <= i < |ticks| ==> s[i + 2] == ticks[i].frame
  {
    [first, second] + seq(|ticks|, i requires 0 <= i < |ticks| => ticks[i].frame)
  }

  /** The frames being differenced: `frame1` is the older, `frame2` the newer. */
  class FramePair<F> {
    var frame1: F
    var frame2: F

    constructor (first: F, second: F)
      ensures frame1 == first && frame2 == second
    {
      frame1 := first;
      frame2 := second;
    }

    /** `frame1 = frame2; frame2 = <new read>` */
    method Slide(next: F)
      modifies this
      ensures frame1 == old(frame2) && frame2 == next
    {
      frame1 := frame2;
      frame2 := next;
    }
  }
}
