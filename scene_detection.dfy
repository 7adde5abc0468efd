/**
  Scene detection: the scene value type, the conversion of a detector's
  boundary list into numbered scenes, and the adaptive search that bisects
  the detector threshold over [15, 50] to approach a target scene count.

  The content-change detector itself is outside the model: a `Video` carries
  the frame rate and the boundary list the detector yields for a threshold
  and a minimum scene length.
*/
module SceneDetection {
  import opened Wrappers

  /** A detected scene: its position in the list, its start and end in seconds and in frames. */
  datatype Scene = Scene(sceneId: nat, startTime: real, endTime: real, startFrame: int, endFrame: int)
  {
    /** Length of the scene in seconds. */
    function Duration(): (d: real)
      ensures startTime + d == endTime
    {
      endTime - startTime
    }

    /** The middle frame, by floor division of the sum of the end frames. */
    function MidFrame(): (m: int)
      ensures 2 * m <= startFrame + endFrame < 2 * m + 2
      ensures startFrame <= endFrame ==> startFrame <= m <= endFrame
    {
      (startFrame + endFrame) / 2
    }
  }

  /** One (start, end) pair reported by the detector, as seconds and as frame numbers. */
  datatype Boundary = Boundary(startSeconds: real, endSeconds: real, startFrameNumber: int, endFrameNumber: int)

  /**
    The video as the detector sees it: its frame rate, and the ordered scene
    boundaries found with a given threshold and minimum scene length.
  */
  datatype Video = Video(fps: real, detect: (real, int) -> seq<Boundary>)

  const DEFAULT_THRESHOLD: real := 27.0
  const DEFAULT_MIN_SCENE_LENGTH: int := 15

  /** One probe of the adaptive search. */
  datatype Iteration = Iteration(iteration: nat, threshold: real, scenes: nat, diff: nat)

  /**
    Detection metadata. Each detector fills in its own keys: the fixed
    detector the frame rate and the threshold used, the adaptive one the
    target, the final threshold and the probe trace.
  */
  datatype SceneMetadata = SceneMetadata(
    totalScenes: nat,
    fps: Option<real>,
    thresholdUsed: Option<real>,
    targetScenes: Option<int>,
    finalThreshold: Option<real>,
    iterations: Option<seq<Iteration>>)

  // ---------------------------------------------------------------------
  // Fixed-threshold detection
  // ---------------------------------------------------------------------

  function SceneAt(position: nat, b: Boundary): (scene: Scene)
  {
    Scene(position, b.startSeconds, b.endSeconds, b.startFrameNumber, b.endFrameNumber)
  }

  /** The scenes built from a boundary list: one per boundary, numbered by position. */
  function ToScenes(boundaries: seq<Boundary>): (scenes: seq<Scene>)
    ensures |scenes| == |boundaries|
    ensures forall k :: 0 <= k < |scenes| ==>
              scenes[k].sceneId == k
              && scenes[k].startTime == boundaries[k].startSeconds
              && scenes[k].endTime == boundaries[k].endSeconds
              && scenes[k].startFrame == boundaries[k].startFrameNumber
              && scenes[k].endFrame == boundaries[k].endFrameNumber
    decreases |boundaries|
  {
    if boundaries == [] then []
    else
      var n := |boundaries| - 1;
      ToScenes(boundaries[..n]) + [SceneAt(n, boundaries[n])]
  }

  /** The conversion loop: appends one scene per boundary, numbering them 0, 1, 2, ... */
  method ConvertScenes(boundaries: seq<Boundary>) returns (scenes: seq<Scene>)
    ensures scenes == ToScenes(boundaries)
  {
    scenes := [];
    for idx := 0 to |boundaries|
      invariant scenes == ToScenes(boundaries[..idx])
    {
      var b := boundaries[idx];
      scenes := scenes + [Scene(idx, b.startSeconds, b.endSeconds, b.startFrameNumber, b.endFrameNumber)];
      assert boundaries[..idx + 1][..idx] == boundaries[..idx];
    }
    assert boundaries[..|boundaries|] == boundaries;
  }

  /** Fixed-threshold detection: the converted scene list and its metadata. */
  method DetectScenes(video: Video, threshold: real, minSceneLength: int)
    returns (scenes: seq<Scene>, meta: SceneMetadata)
    ensures scenes == ToScenes(video.detect(threshold, minSceneLength))
    ensures meta == SceneMetadata(|scenes|, Some(video.fps), Some(threshold), None, None, None)
  {
    var sceneList := video.detect(threshold, minSceneLength);
    scenes := ConvertScenes(sceneList);
    meta := SceneMetadata(|scenes|, Some(video.fps), Some(threshold), None, None, None);
  }

  // ---------------------------------------------------------------------
  // Adaptive threshold search
  // ---------------------------------------------------------------------

  const SEARCH_LOW: real := 15.0
  const SEARCH_HIGH: real := 50.0
  const MAX_PROBES: nat := 7

  datatype Interval = Interval(low: real, high: real)

  function Abs(x: int): (a: nat)
  {
    if x < 0 then -x else x
  }

  function Midpoint(iv: Interval): (mid: real)
  {
    (iv.low + iv.high) / 2.0
  }

  /** After a probe: too few scenes lowers the upper bound to the probe, otherwise the lower bound rises to it. */
  function Narrow(iv: Interval, probe: Iteration, target: int): (next: Interval)
  {
    if probe.scenes < target then Interval(iv.low, probe.threshold) else Interval(probe.threshold, iv.high)
  }

  /** The search bounds after the probes of a trace, starting from [15, 50]. */
  function BoundsAfter(trace: seq<Iteration>, target: int): (iv: Interval)
    decreases |trace|
  {
    if trace == [] then Interval(SEARCH_LOW, SEARCH_HIGH)
    else Narrow(BoundsAfter(trace[..|trace| - 1], target), trace[|trace| - 1], target)
  }

  /**
    The probe that follows the probes in `before`: it is numbered by its
    position, probes the midpoint of the current bounds, and records the
    detector's scene count there and its distance to the target.
  */
  ghost predicate ProbeOk(video: Video, target: int, before: seq<Iteration>, probe: Iteration)
  {
    && probe.iteration == |before|
    && probe.threshold == Midpoint(BoundsAfter(before, target))
    && probe.scenes == |video.detect(probe.threshold, DEFAULT_MIN_SCENE_LENGTH)|
    && probe.diff == Abs(probe.scenes - target)
  }

  /** Every probe of the trace follows from the ones before it. */
  ghost predicate ProbesOk(video: Video, target: int, trace: seq<Iteration>)
    decreases |trace|
  {
    trace == []
    || (ProbesOk(video, target, trace[..|trace| - 1])
        && ProbeOk(video, target, trace[..|trace| - 1], trace[|trace| - 1]))
  }

  /**
    A complete search: one to seven well-formed probes; every probe but the
    last missed the tolerance, and the search stopped early only on a probe
    within it.
  */
  ghost predicate IsSearchTrace(video: Video, target: int, tolerance: int, trace: seq<Iteration>)
  {
    && 1 <= |trace| <= MAX_PROBES
    && ProbesOk(video, target, trace)
    && (forall k :: 0 <= k < |trace| - 1 ==> trace[k].diff > tolerance)
    && (|trace| < MAX_PROBES ==> trace[|trace| - 1].diff <= tolerance)
  }

  /** The earliest probe with the smallest diff: later probes replace the best only when strictly closer. */
  function BestIndex(trace: seq<Iteration>): (b: nat)
    requires trace != []
    ensures b < |trace|
    ensures forall k :: 0 <= k < |trace| ==> trace[b].diff <= trace[k].diff
    ensures forall k :: 0 <= k < b ==> trace[k].diff > trace[b].diff
    decreases |trace|
  {
    if |trace| == 1 then 0
    else
      var b := BestIndex(trace[..|trace| - 1]);
      if trace[|trace| - 1].diff < trace[b].diff then |trace| - 1 else b
  }

  /**
    The best-so-far variables of the search: unset before the first probe,
    afterwards the diff, threshold and scenes of the earliest closest probe.
  */
  ghost predicate BestSoFar(video: Video, trace: seq<Iteration>,
                            bestScenes: seq<Scene>, bestThreshold: real, bestDiff: Option<nat>)
  {
    if trace == [] then bestDiff.None?
    else
      var best := trace[BestIndex(trace)];
      bestDiff == Some(best.diff) && bestThreshold == best.threshold
      && bestScenes == ToScenes(video.detect(best.threshold, DEFAULT_MIN_SCENE_LENGTH))
  }

  /** The state of the search after the probes of trace, none of which was within the tolerance. */
  ghost predicate SearchInvariant(video: Video, target: int, tolerance: int, trace: seq<Iteration>,
                                  low: real, high: real,
                                  bestScenes: seq<Scene>, bestThreshold: real, bestDiff: Option<nat>)
  {
    && ProbesOk(video, target, trace)
    && (forall k :: 0 <= k < |trace| ==> trace[k].diff > tolerance)
    && Interval(low, high) == BoundsAfter(trace, target)
    && BestSoFar(video, trace, bestScenes, bestThreshold, bestDiff)
  }

  /** One probe at the midpoint of the bounds: the detector's scenes there and the trace entry. */
  method RunProbe(video: Video, target: int, iteration: nat, low: real, high: real)
    returns (probe: Iteration, probeScenes: seq<Scene>)
    ensures probeScenes == ToScenes(video.detect(probe.threshold, DEFAULT_MIN_SCENE_LENGTH))
    ensures probe == Iteration(iteration, (low + high) / 2.0, |probeScenes|, Abs(|probeScenes| - target))
  {
    var threshold := (low + high) / 2.0;
    var sceneList, _ := DetectScenes(video, threshold, DEFAULT_MIN_SCENE_LENGTH);
    probeScenes := sceneList;
    var sceneCount := |probeScenes|;
    var diff := Abs(sceneCount - target);
    probe := Iteration(iteration, threshold, sceneCount, diff);
  }

  /**
    Adaptive detection: up to seven probes at the midpoint of the current
    bounds, keeping the earliest probe with the smallest diff and stopping
    at the first probe within the tolerance.
  */
  method AdaptiveDetectScenes(video: Video, targetScenes: int, tolerance: int)
    returns (scenes: seq<Scene>, meta: SceneMetadata)
    ensures meta.iterations.Some? && IsSearchTrace(video, targetScenes, tolerance, meta.iterations.value)
    ensures var trace := meta.iterations.value;
            var best := trace[BestIndex(trace)];
            scenes == ToScenes(video.detect(best.threshold, DEFAULT_MIN_SCENE_LENGTH))
            && meta == SceneMetadata(|scenes|, None, None, Some(targetScenes), Some(best.threshold), Some(trace))
  {
    var low, high := SEARCH_LOW, SEARCH_HIGH;
    var bestScenes: seq<Scene> := [];
    var bestThreshold: real := 0.0;
    var bestDiff: Option<nat> := None;
    var trace: seq<Iteration> := [];
    var iteration: nat := 0;
    while iteration < MAX_PROBES
      invariant iteration <= MAX_PROBES && |trace| == iteration
      invariant SearchInvariant(video, targetScenes, tolerance, trace, low, high, bestScenes, bestThreshold, bestDiff)
    {
      var probe, probeScenes := RunProbe(video, targetScenes, iteration, low, high);
      ghost var before, low0, high0 := trace, low, high;
      ghost var scenes0, threshold0, diff0 := bestScenes, bestThreshold, bestDiff;
      trace := trace + [probe];
      if bestDiff.None? || probe.diff < bestDiff.value {
        bestDiff := Some(probe.diff);
        bestScenes, bestThreshold := probeScenes, probe.threshold;
      }
      if probe.diff <= tolerance {
        FinishConverged(video, targetScenes, tolerance, before, low0, high0, scenes0, threshold0, diff0,
                        probe, probeScenes);
        break;
      }
      if probe.scenes < targetScenes {
        high := probe.threshold;
      } else {
        low := probe.threshold;
      }
      SearchStep(video, targetScenes, tolerance, before, low0, high0, scenes0, threshold0, diff0,
                 probe, probeScenes);
      iteration := iteration + 1;
    }
    if |trace| == iteration {
      FinishExhausted(video, targetScenes, tolerance, trace, low, high, bestScenes, bestThreshold, bestDiff);
    }
    scenes := bestScenes;
    meta := SceneMetadata(|scenes|, None, None, Some(targetScenes), Some(bestThreshold), Some(trace));
  }

  /** The probe that the loop makes from the given bounds, with the detector's scenes at its threshold. */
  ghost predicate NextProbe(video: Video, target: int, before: seq<Iteration>, low: real, high: real,
                            probe: Iteration, probeScenes: seq<Scene>)
  {
    && probeScenes == ToScenes(video.detect(probe.threshold, DEFAULT_MIN_SCENE_LENGTH))
    && probe == Iteration(|before|, (low + high) / 2.0, |probeScenes|, Abs(|probeScenes| - target))
  }

  /** Appending the next probe keeps the trace well formed and records it as best when strictly closer. */
  lemma {:induction false} ExtendTrace(video: Video, target: int, before: seq<Iteration>, low: real, high: real,
                          bestScenes: seq<Scene>, bestThreshold: real, bestDiff: Option<nat>,
                          probe: Iteration, probeScenes: seq<Scene>)
    requires ProbesOk(video, target, before) && Interval(low, high) == BoundsAfter(before, target)
    requires BestSoFar(video, before, bestScenes, bestThreshold, bestDiff)
    requires NextProbe(video, target, before, low, high, probe, probeScenes)
    ensures var trace := before + [probe];
            && ProbesOk(video, target, trace)
            && trace[..|before|] == before && trace[|before|] == probe
            && (if bestDiff.None? || probe.diff < bestDiff.value
                then BestSoFar(video, trace, probeScenes, probe.threshold, Some(probe.diff))
                else BestSoFar(video, trace, bestScenes, bestThreshold, bestDiff))
  {
    var trace := before + [probe];
    assert trace[..|trace| - 1] == before;
    if before != [] {
      assert trace[BestIndex(before)] == before[BestIndex(before)];
    }
  }

  /** A probe outside the tolerance narrows the bounds toward the target and keeps the loop invariant. */
  lemma SearchStep(video: Video, target: int, tolerance: int, before: seq<Iteration>, low: real, high: real,
                   bestScenes: seq<Scene>, bestThreshold: real, bestDiff: Option<nat>,
                   probe: Iteration, probeScenes: seq<Scene>)
    requires SearchInvariant(video, target, tolerance, before, low, high, bestScenes, bestThreshold, bestDiff)
    requires NextProbe(video, target, before, low, high, probe, probeScenes)
    requires probe.diff > tolerance
    ensures var better := bestDiff.None? || probe.diff < bestDiff.value;
            SearchInvariant(video, target, tolerance, before + [probe],
                            if probe.scenes < target then low else probe.threshold,
                            if probe.scenes < target then probe.threshold else high,
                            if better then probeScenes else bestScenes,
                            if better then probe.threshold else bestThreshold,
                            if better then Some(probe.diff) else bestDiff)
  {
    ExtendTrace(video, target, before, low, high, bestScenes, bestThreshold, bestDiff, probe, probeScenes);
  }

  /** A probe within the tolerance ends the search with a complete trace whose best entry is that probe. */
  lemma FinishConverged(video: Video, target: int, tolerance: int, before: seq<Iteration>, low: real, high: real,
                        bestScenes: seq<Scene>, bestThreshold: real, bestDiff: Option<nat>,
                        probe: Iteration, probeScenes: seq<Scene>)
    requires |before| < MAX_PROBES
    requires SearchInvariant(video, target, tolerance, before, low, high, bestScenes, bestThreshold, bestDiff)
    requires NextProbe(video, target, before, low, high, probe, probeScenes)
    requires probe.diff <= tolerance
    ensures var trace := before + [probe];
            var better := bestDiff.None? || probe.diff < bestDiff.value;
            && IsSearchTrace(video, target, tolerance, trace)
            && (if better then probe.threshold else bestThreshold) == trace[BestIndex(trace)].threshold
            && (if better then probeScenes else bestScenes) ==
                 ToScenes(video.detect(trace[BestIndex(trace)].threshold, DEFAULT_MIN_SCENE_LENGTH))
  {
    ExtendTrace(video, target, before, low, high, bestScenes, bestThreshold, bestDiff, probe, probeScenes);
  }

  /** Seven probes outside the tolerance end the search with the earliest closest one. */
  lemma FinishExhausted(video: Video, target: int, tolerance: int, trace: seq<Iteration>, low: real, high: real,
                        bestScenes: seq<Scene>, bestThreshold: real, bestDiff: Option<nat>)
    requires |trace| == MAX_PROBES
    requires SearchInvariant(video, target, tolerance, trace, low, high, bestScenes, bestThreshold, bestDiff)
    ensures IsSearchTrace(video, target, tolerance, trace)
    ensures bestThreshold == trace[BestIndex(trace)].threshold
    ensures bestScenes == ToScenes(video.detect(bestThreshold, DEFAULT_MIN_SCENE_LENGTH))
  {
  }

  // ---------------------------------------------------------------------
  // Properties of the search
  // ---------------------------------------------------------------------

  /** Probe k of a well-formed trace is numbered k and probes the midpoint of the bounds it saw. */
  lemma {:induction false} ProbeAt(video: Video, target: int, trace: seq<Iteration>, k: nat)
    requires ProbesOk(video, target, trace) && k < |trace|
    ensures ProbesOk(video, target, trace[..k])
    ensures ProbeOk(video, target, trace[..k], trace[k])
    decreases |trace|
  {
    var n := |trace| - 1;
    if k < n {
      ProbeAt(video, target, trace[..n], k);
      assert trace[..n][..k] == trace[..k];
    }
  }

  /** The width of the bounds after k probes: 35 halved k times. */
  function Width(k: nat): (w: real)
    ensures w > 0.0
  {
    if k == 0 then SEARCH_HIGH - SEARCH_LOW else Width(k - 1) / 2.0
  }

  /** The bounds stay inside [15, 50], non-empty, and halve with every probe. */
  lemma {:induction false} BoundsShrink(video: Video, target: int, trace: seq<Iteration>)
    requires ProbesOk(video, target, trace)
    ensures var iv := BoundsAfter(trace, target);
            SEARCH_LOW <= iv.low < iv.high <= SEARCH_HIGH && iv.high - iv.low == Width(|trace|)
    decreases |trace|
  {
    if trace != [] {
      var n := |trace| - 1;
      BoundsShrink(video, target, trace[..n]);
    }
  }

  /** Every probed threshold lies strictly inside the bounds it saw, and so inside [15, 50]. */
  lemma ProbeInBounds(video: Video, target: int, trace: seq<Iteration>, k: nat)
    requires ProbesOk(video, target, trace) && k < |trace|
    ensures var iv := BoundsAfter(trace[..k], target);
            iv.low < trace[k].threshold < iv.high
            && SEARCH_LOW < trace[k].threshold < SEARCH_HIGH
  {
    ProbeAt(video, target, trace, k);
    BoundsShrink(video, target, trace[..k]);
  }

  /** The bounds after probe k are those before it, narrowed by the probe's scene count. */
  lemma NarrowingRule(video: Video, target: int, trace: seq<Iteration>, k: nat)
    requires ProbesOk(video, target, trace) && k < |trace|
    ensures var iv := BoundsAfter(trace[..k], target);
            var next := BoundsAfter(trace[..k + 1], target);
            (trace[k].scenes < target ==> next == Interval(iv.low, trace[k].threshold))
            && (trace[k].scenes >= target ==> next == Interval(trace[k].threshold, iv.high))
  {
    assert trace[..k + 1][..k] == trace[..k];
    assert trace[..k + 1][k] == trace[k];
  }

  /**
    A probe within the tolerance ends the search, and the result is that
    probe: it is strictly closer than every probe before it.
  */
  lemma ConvergedProbeIsResult(video: Video, target: int, tolerance: int, trace: seq<Iteration>, k: nat)
    requires IsSearchTrace(video, target, tolerance, trace)
    requires k < |trace| && trace[k].diff <= tolerance
    ensures k == |trace| - 1 && BestIndex(trace) == k
  {
  }

  /** Two complete searches over the same video and parameters are the same trace. */
  lemma {:induction false} SearchTracePrefixUnique(video: Video, target: int, t1: seq<Iteration>, t2: seq<Iteration>, n: nat)
    requires ProbesOk(video, target, t1) && ProbesOk(video, target, t2)
    requires n <= |t1| && n <= |t2|
    ensures t1[..n] == t2[..n]
    decreases n
  {
    if n > 0 {
      SearchTracePrefixUnique(video, target, t1, t2, n - 1);
      ProbeAt(video, target, t1, n - 1);
      ProbeAt(video, target, t2, n - 1);
      assert t1[..n] == t1[..n - 1] + [t1[n - 1]];
      assert t2[..n] == t2[..n - 1] + [t2[n - 1]];
    }
  }

  /** The search is a deterministic function of the video, the target and the tolerance. */
  lemma SearchTraceUnique(video: Video, target: int, tolerance: int, t1: seq<Iteration>, t2: seq<Iteration>)
    requires IsSearchTrace(video, target, tolerance, t1) && IsSearchTrace(video, target, tolerance, t2)
    ensures t1 == t2
  {
    var n := if |t1| < |t2| then |t1| else |t2|;
    SearchTracePrefixUnique(video, target, t1, t2, n);
    assert t1[n - 1] == t1[..n][n - 1] == t2[n - 1];
    assert |t1| == |t2| == n;
    assert t1[..n] == t1 && t2[..n] == t2;
  }
}
