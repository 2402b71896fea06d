/** A model of the playback loop in `main` of rs-bad-apple: the sorted frame
    list is shown once each, in order; every frame re-reads the terminal
    size, is rendered and drawn, and is followed by a pacing sleep that aims
    at a fixed 33 ms frame interval. Times are in nanoseconds, the
    resolution of the durations the source compares. */
module Playback {

  import opened AsciiArt

  const NanosPerMilli: nat := 1_000_000

  /** The target frame interval, 33 ms. */
  const TargetFrame: nat := 33 * NanosPerMilli

  /** The sleep after a frame that overran the target, 1 ms. */
  const MinSleep: nat := 1 * NanosPerMilli

  // ---------------------------------------------------------------------
  // Pacing

  /** The sleep that follows a frame whose render and draw took `elapsed`:
      never zero, and never leaving the frame shorter than the target. */
  function SleepFor(elapsed: nat): (s: nat)
    ensures s > 0
    ensures elapsed + s >= TargetFrame
    ensures elapsed < TargetFrame ==> elapsed + s == TargetFrame
    ensures elapsed >= TargetFrame ==> s == MinSleep
  {
    if elapsed < TargetFrame then TargetFrame - elapsed else MinSleep
  }

  /** Measured in whole milliseconds, the sleep is max(33 - ms, 1) ms. */
  lemma SleepInWholeMillis(ms: nat)
    ensures SleepFor(ms * NanosPerMilli) == Max(33 - ms, 1) * NanosPerMilli
  {
    if ms < 33 {
      assert ms * NanosPerMilli < TargetFrame;
      assert TargetFrame - ms * NanosPerMilli == (33 - ms) * NanosPerMilli;
    } else {
      assert ms * NanosPerMilli >= TargetFrame;
    }
  }

  /** A frame of 32.5 ms sleeps 0.5 ms, less than the 1 ms after an overrun. */
  lemma SubMillisecondSleep()
    ensures SleepFor(32 * NanosPerMilli + NanosPerMilli / 2) == NanosPerMilli / 2 < MinSleep
  {
  }

  /** The sleep drops below 1 ms exactly for frames strictly between 32 and
      33 ms. */
  lemma SleepBelowMinimum(elapsed: nat)
    ensures SleepFor(elapsed) < MinSleep <==> TargetFrame - MinSleep < elapsed < TargetFrame
  {
  }

  /** The nominal time of a run of frames: each frame's measured time plus
      the sleep it asks for. Real sleeps may last longer, and the rest of an
      iteration is not timed, so the real time is at least this much. */
  function Schedule(elapsed: seq<nat>): nat {
    if elapsed == [] then 0
    else Schedule(elapsed[..|elapsed| - 1]) + elapsed[|elapsed| - 1] + SleepFor(elapsed[|elapsed| - 1])
  }

  /** The sum of a sequence of durations. */
  function Total(xs: seq<nat>): nat {
    if xs == [] then 0 else Total(xs[..|xs| - 1]) + xs[|xs| - 1]
  }

  /** Playback never runs faster than the target rate. */
  lemma {:induction false} ScheduleAtLeastTarget(elapsed: seq<nat>)
    ensures Schedule(elapsed) >= |elapsed| * TargetFrame
  {
    if elapsed != [] {
      var n := |elapsed|;
      ScheduleAtLeastTarget(elapsed[..n - 1]);
      assert n * TargetFrame == (n - 1) * TargetFrame + TargetFrame;
    }
  }

  /** When every frame keeps within the target, the nominal time is exactly
      the target rate. */
  lemma {:induction false} ScheduleOnTime(elapsed: seq<nat>)
    requires forall k :: 0 <= k < |elapsed| ==> elapsed[k] < TargetFrame
    ensures Schedule(elapsed) == |elapsed| * TargetFrame
  {
    if elapsed != [] {
      var n := |elapsed|;
      ScheduleOnTime(elapsed[..n - 1]);
      assert n * TargetFrame == (n - 1) * TargetFrame + TargetFrame;
    }
  }

  /** When every frame overruns the target, each adds to the nominal time
      exactly its own time and the minimal sleep: playback falls behind, with
      no catching up. */
  lemma {:induction false} ScheduleOverrun(elapsed: seq<nat>)
    requires forall k :: 0 <= k < |elapsed| ==> elapsed[k] >= TargetFrame
    ensures Schedule(elapsed) == Total(elapsed) + |elapsed| * MinSleep
  {
    if elapsed != [] {
      var n := |elapsed|;
      ScheduleOverrun(elapsed[..n - 1]);
      assert n * MinSleep == (n - 1) * MinSleep + MinSleep;
    }
  }

  // ---------------------------------------------------------------------
  // The frame loop

  datatype Option<T> = None | Some(value: T)

  /** What the environment supplies to one iteration of the frame loop: the
      decoded frame (None when it cannot be opened or decoded), the terminal
      size as (columns, rows) (None when the query fails), and the time from
      the start of the iteration to the end of the draw. */
  datatype Tick = Tick(image: Option<Image>, size: Option<(nat, nat)>, elapsed: nat)

  /** One displayed frame: its path, the frame text printed after the
      cursor-home and clear line, and the sleep that followed. */
  datatype Shown = Shown(path: string, art: string, sleep: nat)

  /** How the loop ended: after every frame, or aborted at a frame that could
      not be drawn. */
  datatype Outcome = Finished | Aborted(at: nat)

  /** Both `unwrap`s of an iteration succeed: the size query and the decode. */
  predicate Drawable(t: Tick) {
    t.image.Some? && t.size.Some? && t.image.value.Valid()
  }

  /** What showing `path` under `t` displays. */
  function ShownFor(path: string, t: Tick): Shown
    requires Drawable(t)
  {
    Shown(path, Render(t.image.value, t.size.value.0, t.size.value.1), SleepFor(t.elapsed))
  }

  function Paths(shown: seq<Shown>): (ps: seq<string>)
    ensures |ps| == |shown|
    ensures forall k :: 0 <= k < |shown| ==> ps[k] == shown[k].path
  {
    if shown == [] then [] else Paths(shown[..|shown| - 1]) + [shown[|shown| - 1].path]
  }

  /** Shown frames that each carry the path at their position are exactly a
      prefix of the frame list. */
  lemma PathsArePrefix(frames: seq<string>, shown: seq<Shown>)
    requires |shown| <= |frames|
    requires forall k :: 0 <= k < |shown| ==> shown[k].path == frames[k]
    ensures Paths(shown) == frames[..|shown|]
  {
  }

  /** The loop over the sorted frame list: every frame is shown once, in
      list order, until a frame cannot be drawn, which ends playback. */
  method PlayFrames(frames: seq<string>, ticks: seq<Tick>) returns (shown: seq<Shown>, outcome: Outcome)
    requires |ticks| == |frames|
    requires forall k :: 0 <= k < |ticks| && ticks[k].image.Some? ==> ticks[k].image.value.Valid()
    ensures outcome.Finished? <==> forall k :: 0 <= k < |ticks| ==> Drawable(ticks[k])
    ensures outcome.Aborted? ==> outcome.at < |frames| && !Drawable(ticks[outcome.at])
    ensures |shown| == if outcome.Finished? then |frames| else outcome.at
    ensures forall k :: 0 <= k < |shown| ==> Drawable(ticks[k]) && shown[k] == ShownFor(frames[k], ticks[k])
    ensures Paths(shown) == frames[..|shown|]
  {
    shown := [];
    var k := 0;
    while k < |frames|
      invariant k <= |frames|
      invariant |shown| == k
      invariant forall i :: 0 <= i < k ==> Drawable(ticks[i]) && shown[i] == ShownFor(frames[i], ticks[i])
    {
      var t := ticks[k];
      // the terminal size query and the frame decode both unwrap: either
      // failure ends the program before anything of this frame is drawn
      if t.size.None? || t.image.None? {
        PathsArePrefix(frames, shown);
        return shown, Aborted(k);
      }
      var (tw, th) := t.size.value;
      var art := ImageToAscii(t.image.value, tw, th);
      var pause := SleepFor(t.elapsed);
      shown := shown + [Shown(frames[k], art, pause)];
      k := k + 1;
    }
    PathsArePrefix(frames, shown);
    outcome := Finished;
  }
}
