/**
  The keyframe pipeline: scene detection, extraction of each scene's middle
  frame, the quality gate over the extracted frames, deduplication of the
  frames that passed, and the processing statistics.

  Reading a frame from the video is an injected function that may fail;
  the detector is the one carried by the video. File paths, the clock and
  the video's own duration are given values.
*/
module Pipeline {
  import opened Wrappers
  import opened QualityControl
  import opened SceneDetection

  /** A decoded frame, as the quality gate and the deduplicator see it. */
  datatype Frame = Frame(measurement: Measurement, phash: seq<char>)

  /** The pipeline's constructor arguments. */
  datatype PipelineConfig = PipelineConfig(
    sceneThreshold: real,
    blurThreshold: real,
    dedupHashDistance: int,
    adaptiveDetection: bool,
    targetScenes: int)

  const DEFAULT_PIPELINE_CONFIG := PipelineConfig(27.0, 100.0, 5, false, 40)

  /** The default pipeline detects at the fixed default threshold with the quality controller's own defaults. */
  lemma DefaultPipelineConfig()
    ensures !DEFAULT_PIPELINE_CONFIG.adaptiveDetection
    ensures DEFAULT_PIPELINE_CONFIG.sceneThreshold == DEFAULT_THRESHOLD
    ensures QualityConfig(DEFAULT_PIPELINE_CONFIG) == DEFAULT_CONFIG
  {
  }

  /** The adaptive detector is built with its default tolerance. */
  const ADAPTIVE_TOLERANCE: int := 5

  /** The quality controller: the given blur and dedup thresholds, the default fade thresholds. */
  function QualityConfig(config: PipelineConfig): (qc: Config)
    ensures qc.blurThreshold == config.blurThreshold && qc.dedupHashDistance == config.dedupHashDistance
    ensures qc.fadeBlackThreshold == 25.0 && qc.fadeWhiteThreshold == 230.0 && qc.fadeStdThreshold == 15.0
  {
    DEFAULT_CONFIG.(blurThreshold := config.blurThreshold, dedupHashDistance := config.dedupHashDistance)
  }

  /** A frame that was read, together with the scene it was read for. */
  datatype Extracted = Extracted(frame: Frame, scene: Scene)

  /** Scene ids that strictly increase along the list. */
  ghost predicate IdsIncreasing(xs: seq<Extracted>)
  {
    forall a, b :: 0 <= a < b < |xs| ==> xs[a].scene.sceneId < xs[b].scene.sceneId
  }

  ghost predicate SceneIdsIncreasing(scenes: seq<Scene>)
  {
    forall a, b :: 0 <= a < b < |scenes| ==> scenes[a].sceneId < scenes[b].sceneId
  }

  // ---------------------------------------------------------------------
  // Step 1: scene detection
  // ---------------------------------------------------------------------

  /** What the configured detector returns for the video. */
  ghost predicate Detected(config: PipelineConfig, video: Video, scenes: seq<Scene>, meta: SceneMetadata)
  {
    if config.adaptiveDetection then
      && meta.iterations.Some?
      && IsSearchTrace(video, config.targetScenes, ADAPTIVE_TOLERANCE, meta.iterations.value)
      && var trace := meta.iterations.value;
         var best := trace[BestIndex(trace)];
         scenes == ToScenes(video.detect(best.threshold, DEFAULT_MIN_SCENE_LENGTH))
         && meta == SceneMetadata(|scenes|, None, None, Some(config.targetScenes), Some(best.threshold), Some(trace))
    else
      && scenes == ToScenes(video.detect(config.sceneThreshold, DEFAULT_MIN_SCENE_LENGTH))
      && meta == SceneMetadata(|scenes|, Some(video.fps), Some(config.sceneThreshold), None, None, None)
  }

  /** Either detector numbers its scenes by position. */
  lemma DetectedIdsIncreasing(config: PipelineConfig, video: Video, scenes: seq<Scene>, meta: SceneMetadata)
    requires Detected(config, video, scenes, meta)
    ensures SceneIdsIncreasing(scenes)
  {
    forall a, b | 0 <= a < b < |scenes|
      ensures scenes[a].sceneId < scenes[b].sceneId
    {
    }
  }

  /** The threshold reported in the statistics: the fixed one, else the adaptive one, else the default. */
  function DetectionThreshold(meta: SceneMetadata): (t: real)
  {
    match meta.thresholdUsed
    case Some(t) => t
    case None =>
      match meta.finalThreshold
      case Some(t) => t
      case None => DEFAULT_THRESHOLD
  }

  /**
    The reported threshold is the configured one for fixed detection and the
    search's result for adaptive detection, which lies inside (15, 50).
  */
  lemma DetectedThreshold(config: PipelineConfig, video: Video, scenes: seq<Scene>, meta: SceneMetadata)
    requires Detected(config, video, scenes, meta)
    ensures !config.adaptiveDetection ==> DetectionThreshold(meta) == config.sceneThreshold
    ensures config.adaptiveDetection ==>
              meta.finalThreshold.Some? && DetectionThreshold(meta) == meta.finalThreshold.value
              && SEARCH_LOW < DetectionThreshold(meta) < SEARCH_HIGH
  {
    if config.adaptiveDetection {
      var trace := meta.iterations.value;
      ProbeInBounds(video, config.targetScenes, trace, BestIndex(trace));
    }
  }

  // ---------------------------------------------------------------------
  // Step 2: keyframe extraction
  // ---------------------------------------------------------------------

  /** The scenes whose middle frame can be read, each with that frame, in scene order. */
  function Extract(read: int -> Option<Frame>, scenes: seq<Scene>): (r: seq<Extracted>)
    ensures |r| <= |scenes|
    decreases |scenes|
  {
    if scenes == [] then []
    else
      var n := |scenes| - 1;
      var rest := Extract(read, scenes[..n]);
      match read(scenes[n].MidFrame())
      case Some(f) => rest + [Extracted(f, scenes[n])]
      case None => rest
  }

  /** Seeks to each scene's middle frame and keeps the scenes whose read succeeds. */
  method ExtractKeyframes(read: int -> Option<Frame>, scenes: seq<Scene>) returns (extracted: seq<Extracted>)
    ensures extracted == Extract(read, scenes)
  {
    extracted := [];
    for k := 0 to |scenes|
      invariant extracted == Extract(read, scenes[..k])
    {
      var scene := scenes[k];
      var frameNum := scene.MidFrame();
      var ret := read(frameNum);
      assert scenes[..k + 1][..k] == scenes[..k];
      if ret.Some? {
        extracted := extracted + [Extracted(ret.value, scene)];
      }
    }
    assert scenes[..|scenes|] == scenes;
  }

  /** Exactly the scenes whose read succeeds are kept, each with the frame that was read. */
  lemma {:induction false} ExtractMembers(read: int -> Option<Frame>, scenes: seq<Scene>)
    ensures forall x :: x in Extract(read, scenes) <==>
              x.scene in scenes && read(x.scene.MidFrame()) == Some(x.frame)
    decreases |scenes|
  {
    if scenes != [] {
      var n := |scenes| - 1;
      ExtractMembers(read, scenes[..n]);
      assert scenes == scenes[..n] + [scenes[n]];
    }
  }

  /** Extraction keeps the scenes in order: increasing scene ids stay increasing. */
  lemma {:induction false} ExtractOrdered(read: int -> Option<Frame>, scenes: seq<Scene>)
    requires SceneIdsIncreasing(scenes)
    ensures IdsIncreasing(Extract(read, scenes))
    decreases |scenes|
  {
    if scenes != [] {
      var n := |scenes| - 1;
      var rest := Extract(read, scenes[..n]);
      ExtractOrdered(read, scenes[..n]);
      ExtractMembers(read, scenes[..n]);
      if read(scenes[n].MidFrame()).Some? {
        var r := Extract(read, scenes);
        forall a, b | 0 <= a < b < |r|
          ensures r[a].scene.sceneId < r[b].scene.sceneId
        {
          if b == |rest| {
            assert rest[a] in rest;
            var j :| 0 <= j < n && scenes[j] == rest[a].scene;
          }
        }
      }
    }
  }

  // ---------------------------------------------------------------------
  // Step 3a: blur and transition filtering
  // ---------------------------------------------------------------------

  /** The gate applied to an extracted frame, labelled with its scene id. */
  function Evaluate(qc: Config, x: Extracted): (q: QualityMetrics)
  {
    EvaluateFrame(qc, x.frame.measurement, x.scene.sceneId)
  }

  /** The metrics list: one entry per extracted frame. */
  function MetricsOf(qc: Config, xs: seq<Extracted>): (ms: seq<QualityMetrics>)
    ensures |ms| == |xs|
    decreases |xs|
  {
    if xs == [] then [] else MetricsOf(qc, xs[..|xs| - 1]) + [Evaluate(qc, xs[|xs| - 1])]
  }

  /** The extracted frames that pass the gate, in their original order. */
  function PassedOf(qc: Config, xs: seq<Extracted>): (p: seq<Extracted>)
    ensures |p| <= |xs|
    decreases |xs|
  {
    if xs == [] then []
    else
      var n := |xs| - 1;
      PassedOf(qc, xs[..n]) + (if Evaluate(qc, xs[n]).passesQuality then [xs[n]] else [])
  }

  /** Frames rejected by the blur check. */
  function CountBlurRejected(ms: seq<QualityMetrics>): (count: nat)
    decreases |ms|
  {
    if ms == [] then 0
    else CountBlurRejected(ms[..|ms| - 1]) + (if !ms[|ms| - 1].isSharp then 1 else 0)
  }

  /** Sharp frames rejected by the fade check. */
  function CountTransitionRejected(ms: seq<QualityMetrics>): (count: nat)
    decreases |ms|
  {
    if ms == [] then 0
    else
      var m := ms[|ms| - 1];
      CountTransitionRejected(ms[..|ms| - 1]) + (if m.isSharp && m.isTransition then 1 else 0)
  }

  /**
    The gate loop: records every frame's metrics, counts a blurry frame as a
    blur rejection, a sharp fade as a transition rejection, and keeps the rest.
  */
  method QualityFilter(qc: Config, extracted: seq<Extracted>)
    returns (passed: seq<Extracted>, metrics: seq<QualityMetrics>, blurRejected: nat, transitionRejected: nat)
    ensures metrics == MetricsOf(qc, extracted)
    ensures passed == PassedOf(qc, extracted)
    ensures blurRejected == CountBlurRejected(metrics)
    ensures transitionRejected == CountTransitionRejected(metrics)
  {
    passed, metrics, blurRejected, transitionRejected := [], [], 0, 0;
    for k := 0 to |extracted|
      invariant metrics == MetricsOf(qc, extracted[..k])
      invariant passed == PassedOf(qc, extracted[..k])
      invariant blurRejected == CountBlurRejected(metrics)
      invariant transitionRejected == CountTransitionRejected(metrics)
    {
      var x := extracted[k];
      var m := Evaluate(qc, x);
      FilterStep(qc, extracted, k);
      CountsStep(metrics, m);
      metrics := metrics + [m];
      if !m.isSharp {
        blurRejected := blurRejected + 1;
        continue;
      }
      if m.isTransition {
        transitionRejected := transitionRejected + 1;
        continue;
      }
      passed := passed + [x];
    }
    assert extracted[..|extracted|] == extracted;
  }

  /** Handling frame k extends the metrics by its entry and the passed list by the frame if it passes. */
  lemma FilterStep(qc: Config, xs: seq<Extracted>, k: nat)
    requires k < |xs|
    ensures var m := Evaluate(qc, xs[k]);
            MetricsOf(qc, xs[..k + 1]) == MetricsOf(qc, xs[..k]) + [m]
            && PassedOf(qc, xs[..k + 1]) == PassedOf(qc, xs[..k]) + (if m.passesQuality then [xs[k]] else [])
  {
    assert xs[..k + 1][..k] == xs[..k];
  }

  /** A new metrics entry adds one to at most one of the two counters. */
  lemma CountsStep(ms: seq<QualityMetrics>, m: QualityMetrics)
    ensures CountBlurRejected(ms + [m]) == CountBlurRejected(ms) + (if !m.isSharp then 1 else 0)
    ensures CountTransitionRejected(ms + [m]) == CountTransitionRejected(ms) + (if m.isSharp && m.isTransition then 1 else 0)
  {
    assert (ms + [m])[..|ms|] == ms;
  }

  /** Metric k belongs to extracted frame k. */
  lemma {:induction false} MetricsOfAt(qc: Config, xs: seq<Extracted>, k: nat)
    requires k < |xs|
    ensures MetricsOf(qc, xs)[k] == Evaluate(qc, xs[k])
    decreases |xs|
  {
    if k < |xs| - 1 {
      MetricsOfAt(qc, xs[..|xs| - 1], k);
    }
  }

  /** Every extracted frame is counted exactly once: blur-rejected, transition-rejected or passed. */
  lemma {:induction false} PartitionCount(qc: Config, xs: seq<Extracted>)
    ensures var ms := MetricsOf(qc, xs);
            CountBlurRejected(ms) + CountTransitionRejected(ms) + |PassedOf(qc, xs)| == |xs|
    decreases |xs|
  {
    if xs != [] {
      var n := |xs| - 1;
      PartitionCount(qc, xs[..n]);
      var ms := MetricsOf(qc, xs);
      assert ms[..n] == MetricsOf(qc, xs[..n]);
    }
  }

  /** The passed list holds exactly the extracted frames that pass the gate. */
  lemma {:induction false} PassedMembers(qc: Config, xs: seq<Extracted>)
    ensures forall x :: x in PassedOf(qc, xs) <==> x in xs && Evaluate(qc, x).passesQuality
    decreases |xs|
  {
    if xs != [] {
      var n := |xs| - 1;
      PassedMembers(qc, xs[..n]);
      assert xs == xs[..n] + [xs[n]];
    }
  }

  /** Filtering keeps the order: increasing scene ids stay increasing. */
  lemma {:induction false} PassedOrdered(qc: Config, xs: seq<Extracted>)
    requires IdsIncreasing(xs)
    ensures IdsIncreasing(PassedOf(qc, xs))
    decreases |xs|
  {
    if xs != [] {
      var n := |xs| - 1;
      var rest := PassedOf(qc, xs[..n]);
      PassedOrdered(qc, xs[..n]);
      PassedMembers(qc, xs[..n]);
      if Evaluate(qc, xs[n]).passesQuality {
        var p := PassedOf(qc, xs);
        forall a, b | 0 <= a < b < |p|
          ensures p[a].scene.sceneId < p[b].scene.sceneId
        {
          if b == |rest| {
            assert rest[a] in rest;
            var j :| 0 <= j < n && xs[j] == rest[a];
          }
        }
      }
    }
  }

  /** A blurry frame is a blur rejection and not a transition rejection, fade or not. */
  lemma BlurWins(qc: Config, xs: seq<Extracted>, x: Extracted)
    requires !Evaluate(qc, x).isSharp
    ensures var before := MetricsOf(qc, xs);
            var after := MetricsOf(qc, xs + [x]);
            CountBlurRejected(after) == CountBlurRejected(before) + 1
            && CountTransitionRejected(after) == CountTransitionRejected(before)
            && PassedOf(qc, xs + [x]) == PassedOf(qc, xs)
  {
    var ys := xs + [x];
    assert ys[..|ys| - 1] == xs;
    var after := MetricsOf(qc, ys);
    assert after[..|after| - 1] == MetricsOf(qc, xs);
  }

  // ---------------------------------------------------------------------
  // Step 3b: deduplication
  // ---------------------------------------------------------------------

  function Hashes(xs: seq<Extracted>): (hs: seq<seq<char>>)
  {
    seq(|xs|, k requires 0 <= k < |xs| => xs[k].frame.phash)
  }

  function SceneIds(xs: seq<Extracted>): (ids: seq<int>)
  {
    seq(|xs|, k requires 0 <= k < |xs| => xs[k].scene.sceneId)
  }

  /** The frames left after deduplication, how many were removed and the duplicate records. */
  datatype DedupOutcome = DedupOutcome(final: seq<Extracted>, dedupRemoved: nat, duplicateInfo: seq<DuplicateRecord>)

  /** Deduplication runs only when more than one frame passed. */
  function DedupStage(qc: Config, passed: seq<Extracted>): (o: DedupOutcome)
  {
    if |passed| > 1 then
      var r := Dedup(Hashes(passed), SceneIds(passed), qc.dedupHashDistance);
      var final := Select(passed, r.kept);
      DedupOutcome(final, |passed| - |final|, r.duplicates)
    else
      DedupOutcome(passed, 0, [])
  }

  method DeduplicateStage(qc: Config, passed: seq<Extracted>)
    returns (final: seq<Extracted>, dedupRemoved: nat, duplicateInfo: seq<DuplicateRecord>)
    ensures DedupOutcome(final, dedupRemoved, duplicateInfo) == DedupStage(qc, passed)
  {
    if |passed| > 1 {
      var keptIndices;
      keptIndices, duplicateInfo := DeduplicateFrames(Hashes(passed), SceneIds(passed), qc.dedupHashDistance);
      final := Select(passed, keptIndices);
      dedupRemoved := |passed| - |final|;
    } else {
      final := passed;
      dedupRemoved := 0;
      duplicateInfo := [];
    }
  }

  /** Skipping deduplication for fewer than two frames gives what running it would. */
  lemma DedupGuardHarmless(qc: Config, passed: seq<Extracted>)
    requires |passed| <= 1
    ensures var r := Dedup(Hashes(passed), SceneIds(passed), qc.dedupHashDistance);
            DedupStage(qc, passed) == DedupOutcome(Select(passed, r.kept), |passed| - |r.kept|, r.duplicates)
  {
    var r := Dedup(Hashes(passed), SceneIds(passed), qc.dedupHashDistance);
    if |passed| == 1 {
      assert r.kept == [0];
    }
  }

  /**
    Deduplication removes frames and never adds any; one record per removed
    frame; the first frame survives; the survivors keep their order and are
    pairwise farther apart than the threshold.
  */
  lemma DedupStageFacts(qc: Config, passed: seq<Extracted>)
    ensures var o := DedupStage(qc, passed);
            |o.final| + o.dedupRemoved == |passed|
            && |o.duplicateInfo| == o.dedupRemoved
            && (passed != [] ==> o.final != [] && o.final[0] == passed[0])
            && (forall x :: x in o.final ==> x in passed)
            && (IdsIncreasing(passed) ==> IdsIncreasing(o.final))
            && (forall a, b :: 0 <= a < b < |o.final| ==>
                  HammingDistance(o.final[b].frame.phash, o.final[a].frame.phash) > qc.dedupHashDistance)
  {
    if |passed| > 1 {
      var hs := Hashes(passed);
      var r := Dedup(hs, SceneIds(passed), qc.dedupHashDistance);
      var final := Select(passed, r.kept);
      DedupOrdered(hs, SceneIds(passed), qc.dedupHashDistance);
      DedupSeparated(hs, SceneIds(passed), qc.dedupHashDistance);
      assert Separated(hs, r.kept, qc.dedupHashDistance);
      forall a, b | 0 <= a < b < |final|
        ensures HammingDistance(final[b].frame.phash, final[a].frame.phash) > qc.dedupHashDistance
      {
        assert final[b].frame.phash == hs[r.kept[b]];
        assert final[a].frame.phash == hs[r.kept[a]];
      }
      forall x | x in final
        ensures x in passed
      {
        var k :| 0 <= k < |final| && final[k] == x;
        assert passed[r.kept[k]] == x;
      }
      if IdsIncreasing(passed) {
        forall a, b | 0 <= a < b < |final|
          ensures final[a].scene.sceneId < final[b].scene.sceneId
        {
          assert r.kept[a] < r.kept[b];
        }
      }
    }
  }

  // ---------------------------------------------------------------------
  // Statistics
  // ---------------------------------------------------------------------

  /** The blur scores of the frames whose metrics say they passed, in order. */
  function PassingBlurScores(ms: seq<QualityMetrics>): (scores: seq<real>)
    ensures |scores| <= |ms|
    decreases |ms|
  {
    if ms == [] then []
    else
      var m := ms[|ms| - 1];
      PassingBlurScores(ms[..|ms| - 1]) + (if m.passesQuality then [m.laplacianVariance] else [])
  }

  /** The passing blur scores are the blur scores of the passed frames, one each, in order. */
  lemma {:induction false} PassingScoresOfPassed(qc: Config, xs: seq<Extracted>)
    ensures var scores := PassingBlurScores(MetricsOf(qc, xs));
            var passed := PassedOf(qc, xs);
            |scores| == |passed|
            && forall k :: 0 <= k < |scores| ==> scores[k] == passed[k].frame.measurement.blurScore
    decreases |xs|
  {
    if xs != [] {
      var n := |xs| - 1;
      PassingScoresOfPassed(qc, xs[..n]);
      var ms := MetricsOf(qc, xs);
      assert ms[..n] == MetricsOf(qc, xs[..n]);
    }
  }

  /** Every passing blur score meets the blur threshold. */
  lemma PassingScoresSharp(qc: Config, xs: seq<Extracted>)
    ensures forall s :: s in PassingBlurScores(MetricsOf(qc, xs)) ==> s >= qc.blurThreshold
  {
    var scores := PassingBlurScores(MetricsOf(qc, xs));
    var passed := PassedOf(qc, xs);
    PassingScoresOfPassed(qc, xs);
    PassedMembers(qc, xs);
    forall s | s in scores
      ensures s >= qc.blurThreshold
    {
      var k :| 0 <= k < |scores| && scores[k] == s;
      assert passed[k] in passed;
    }
  }

  function Sum(xs: seq<real>): (total: real)
    decreases |xs|
  {
    if xs == [] then 0.0 else Sum(xs[..|xs| - 1]) + xs[|xs| - 1]
  }

  function MinOf(xs: seq<real>): (m: real)
    requires xs != []
    ensures m in xs && forall k :: 0 <= k < |xs| ==> m <= xs[k]
    decreases |xs|
  {
    if |xs| == 1 then xs[0]
    else
      var m := MinOf(xs[..|xs| - 1]);
      if xs[|xs| - 1] < m then xs[|xs| - 1] else m
  }

  function MaxOf(xs: seq<real>): (m: real)
    requires xs != []
    ensures m in xs && forall k :: 0 <= k < |xs| ==> xs[k] <= m
    decreases |xs|
  {
    if |xs| == 1 then xs[0]
    else
      var m := MaxOf(xs[..|xs| - 1]);
      if xs[|xs| - 1] > m then xs[|xs| - 1] else m
  }

  function Mean(xs: seq<real>): (mean: real)
    requires xs != []
  {
    Sum(xs) / (|xs| as real)
  }

  lemma {:induction false} SumBounds(xs: seq<real>, lo: real, hi: real)
    requires forall k :: 0 <= k < |xs| ==> lo <= xs[k] <= hi
    ensures (|xs| as real) * lo <= Sum(xs) <= (|xs| as real) * hi
    decreases |xs|
  {
    if xs != [] {
      var n := |xs| - 1;
      SumBounds(xs[..n], lo, hi);
      assert (n as real) * lo + lo == (|xs| as real) * lo;
      assert (n as real) * hi + hi == (|xs| as real) * hi;
    }
  }

  /** The mean of a non-empty list lies between its minimum and its maximum. */
  lemma MeanBetween(xs: seq<real>)
    requires xs != []
    ensures MinOf(xs) <= Mean(xs) <= MaxOf(xs)
  {
    SumBounds(xs, MinOf(xs), MaxOf(xs));
    QuotientBetween(Sum(xs), |xs| as real, MinOf(xs), MaxOf(xs));
  }

  lemma QuotientBetween(s: real, n: real, lo: real, hi: real)
    requires n > 0.0 && n * lo <= s <= n * hi
    ensures lo <= s / n <= hi
  {
    var q := s / n;
    assert q * n == s;
  }

  function SumDurations(scenes: seq<Scene>): (total: real)
    decreases |scenes|
  {
    if scenes == [] then 0.0 else SumDurations(scenes[..|scenes| - 1]) + scenes[|scenes| - 1].Duration()
  }

  lemma {:induction false} SumDurationsBounds(scenes: seq<Scene>, lo: real, hi: real)
    requires forall k :: 0 <= k < |scenes| ==> lo <= scenes[k].Duration() <= hi
    ensures (|scenes| as real) * lo <= SumDurations(scenes) <= (|scenes| as real) * hi
    decreases |scenes|
  {
    if scenes != [] {
      var n := |scenes| - 1;
      SumDurationsBounds(scenes[..n], lo, hi);
      assert (n as real) * lo + lo == (|scenes| as real) * lo;
      assert (n as real) * hi + hi == (|scenes| as real) * hi;
    }
  }

  /** The average scene duration lies between any bounds on the durations of the scenes. */
  lemma AvgSceneDurationBetween(scenes: seq<Scene>, lo: real, hi: real)
    requires scenes != []
    requires forall k :: 0 <= k < |scenes| ==> lo <= scenes[k].Duration() <= hi
    ensures lo <= SumDurations(scenes) / (|scenes| as real) <= hi
  {
    SumDurationsBounds(scenes, lo, hi);
    QuotientBetween(SumDurations(scenes), |scenes| as real, lo, hi);
  }

  /** The statistics returned for a processed video. */
  datatype ProcessingStats = ProcessingStats(
    videoPath: string,
    videoDuration: real,
    processingTime: real,
    scenesDetected: nat,
    avgSceneDuration: real,
    detectionThreshold: real,
    framesExtracted: nat,
    framesBlurRejected: nat,
    framesTransitionRejected: nat,
    framesDedupRemoved: nat,
    framesFinal: nat,
    avgBlurScore: real,
    minBlurScore: real,
    maxBlurScore: real)

  /** A final keyframe as listed in the report: its scene, the scene's start time and duration. */
  datatype Keyframe = Keyframe(sceneId: nat, timestamp: real, duration: real)

  /** The content of the saved report, with the statistics the pipeline returns. */
  datatype Report = Report(
    videoId: string,
    stats: ProcessingStats,
    sceneMetadata: SceneMetadata,
    qualityMetrics: seq<QualityMetrics>,
    duplicateInfo: seq<DuplicateRecord>,
    finalKeyframes: seq<Keyframe>)

  function Keyframes(final: seq<Extracted>): (kf: seq<Keyframe>)
  {
    seq(|final|, k requires 0 <= k < |final| =>
      Keyframe(final[k].scene.sceneId, final[k].scene.startTime, final[k].scene.Duration()))
  }

  /** The report for detected scenes: extraction, filtering, deduplication and their statistics. */
  function ReportOf(config: PipelineConfig, read: int -> Option<Frame>, scenes: seq<Scene>, meta: SceneMetadata,
                    videoId: string, videoPath: string, videoDuration: real, processingTime: real): (rep: Report)
    requires scenes != []
  {
    var qc := QualityConfig(config);
    var extracted := Extract(read, scenes);
    var metrics := MetricsOf(qc, extracted);
    var passed := PassedOf(qc, extracted);
    var outcome := DedupStage(qc, passed);
    var scores := PassingBlurScores(metrics);
    var stats := ProcessingStats(
      videoPath, videoDuration, processingTime,
      |scenes|, SumDurations(scenes) / (|scenes| as real), DetectionThreshold(meta),
      |extracted|, CountBlurRejected(metrics), CountTransitionRejected(metrics),
      outcome.dedupRemoved, |outcome.final|,
      if scores == [] then 0.0 else Mean(scores),
      if scores == [] then 0.0 else MinOf(scores),
      if scores == [] then 0.0 else MaxOf(scores));
    Report(videoId, stats, meta, metrics, outcome.duplicateInfo, Keyframes(outcome.final))
  }

  // ---------------------------------------------------------------------
  // process_video
  // ---------------------------------------------------------------------

  /**
    Runs the configured detector, then, unless no scene was found, extracts,
    filters and deduplicates the keyframes and builds the report under the
    given video id. The scenes and metadata the detector returned are given
    back as ghost results. When no frame could be read the report is still
    returned; the summary's unguarded percentages (`SummaryPercentages`) would
    divide by zero there, and the model follows the guarded ones.
  */
  method ProcessVideo(config: PipelineConfig, video: Video, read: int -> Option<Frame>,
                      videoId: string, videoPath: string, videoDuration: real, processingTime: real)
    returns (result: Option<Report>, ghost scenes: seq<Scene>, ghost meta: SceneMetadata)
    ensures Detected(config, video, scenes, meta)
    ensures result.None? <==> scenes == []
    ensures result.Some? ==>
              result.value == ReportOf(config, read, scenes, meta, videoId, videoPath, videoDuration, processingTime)
  {
    var detectedScenes, sceneMetadata;
    if config.adaptiveDetection {
      detectedScenes, sceneMetadata := AdaptiveDetectScenes(video, config.targetScenes, ADAPTIVE_TOLERANCE);
    } else {
      detectedScenes, sceneMetadata := DetectScenes(video, config.sceneThreshold, DEFAULT_MIN_SCENE_LENGTH);
    }
    scenes, meta := detectedScenes, sceneMetadata;
    if detectedScenes == [] {
      return None, scenes, meta;
    }

    var qc := QualityConfig(config);
    var extracted := ExtractKeyframes(read, detectedScenes);
    var passed, metrics, blurRejected, transitionRejected := QualityFilter(qc, extracted);
    var final, dedupRemoved, duplicateInfo := DeduplicateStage(qc, passed);

    var blurScores := PassingBlurScores(metrics);
    var stats := ProcessingStats(
      videoPath, videoDuration, processingTime,
      |detectedScenes|, SumDurations(detectedScenes) / (|detectedScenes| as real),
      DetectionThreshold(sceneMetadata),
      |extracted|, blurRejected, transitionRejected, dedupRemoved, |final|,
      if blurScores == [] then 0.0 else Mean(blurScores),
      if blurScores == [] then 0.0 else MinOf(blurScores),
      if blurScores == [] then 0.0 else MaxOf(blurScores));
    result := Some(Report(videoId, stats, sceneMetadata, metrics, duplicateInfo, Keyframes(final)));
  }

  // ---------------------------------------------------------------------
  // Properties of the report
  // ---------------------------------------------------------------------

  /**
    One metrics entry per extracted frame; every extracted frame ends up
    blur-rejected, transition-rejected, removed as a duplicate or final, and
    final <= passed <= extracted <= detected.
  */
  lemma ReportCounts(config: PipelineConfig, read: int -> Option<Frame>, scenes: seq<Scene>, meta: SceneMetadata,
                     videoId: string, videoPath: string, videoDuration: real, processingTime: real)
    requires scenes != []
    ensures var rep := ReportOf(config, read, scenes, meta, videoId, videoPath, videoDuration, processingTime);
            var s := rep.stats;
            var passed := PassedOf(QualityConfig(config), Extract(read, scenes));
            |rep.qualityMetrics| == s.framesExtracted
            && s.framesBlurRejected + s.framesTransitionRejected + |passed| == s.framesExtracted
            && s.framesFinal + s.framesDedupRemoved == |passed|
            && s.framesFinal <= |passed| <= s.framesExtracted <= s.scenesDetected
            && |rep.finalKeyframes| == s.framesFinal
            && |rep.duplicateInfo| == s.framesDedupRemoved
  {
    var qc := QualityConfig(config);
    PartitionCount(qc, Extract(read, scenes));
    DedupStageFacts(qc, PassedOf(qc, Extract(read, scenes)));
  }

  /**
    The blur statistics describe the passing frames only: all zero when none
    passed, otherwise min <= avg <= max, with the minimum at the blur threshold or above.
  */
  lemma ReportBlurStats(config: PipelineConfig, read: int -> Option<Frame>, scenes: seq<Scene>, meta: SceneMetadata,
                        videoId: string, videoPath: string, videoDuration: real, processingTime: real)
    requires scenes != []
    ensures var s := ReportOf(config, read, scenes, meta, videoId, videoPath, videoDuration, processingTime).stats;
            var passed := PassedOf(QualityConfig(config), Extract(read, scenes));
            (passed == [] ==> s.avgBlurScore == 0.0 && s.minBlurScore == 0.0 && s.maxBlurScore == 0.0)
            && (passed != [] ==>
                  config.blurThreshold <= s.minBlurScore <= s.avgBlurScore <= s.maxBlurScore)
  {
    var qc := QualityConfig(config);
    var xs := Extract(read, scenes);
    var scores := PassingBlurScores(MetricsOf(qc, xs));
    PassingScoresOfPassed(qc, xs);
    if scores != [] {
      MeanBetween(scores);
      PassingScoresSharp(qc, xs);
    }
  }

  /** The final keyframes of the report are those of the deduplicated frames, in order. */
  lemma KeyframesOf(final: seq<Extracted>)
    ensures var kf := Keyframes(final);
            |kf| == |final|
            && (IdsIncreasing(final) ==> forall a, b :: 0 <= a < b < |kf| ==> kf[a].sceneId < kf[b].sceneId)
  {
  }

  /** For a processed video, the final keyframes are listed in scene order. */
  lemma ReportKeyframesOrdered(config: PipelineConfig, video: Video, read: int -> Option<Frame>,
                               scenes: seq<Scene>, meta: SceneMetadata,
                               videoId: string, videoPath: string, videoDuration: real, processingTime: real)
    requires Detected(config, video, scenes, meta) && scenes != []
    ensures var kf := ReportOf(config, read, scenes, meta, videoId, videoPath, videoDuration, processingTime).finalKeyframes;
            forall a, b :: 0 <= a < b < |kf| ==> kf[a].sceneId < kf[b].sceneId
  {
    var qc := QualityConfig(config);
    var xs := Extract(read, scenes);
    var passed := PassedOf(qc, xs);
    DetectedIdsIncreasing(config, video, scenes, meta);
    ExtractOrdered(read, scenes);
    PassedOrdered(qc, xs);
    DedupStageFacts(qc, passed);
    KeyframesOf(DedupStage(qc, passed).final);
  }

  /** Each final keyframe is for a scene whose middle frame was read and passed the gate. */
  lemma ReportKeyframesPassed(config: PipelineConfig, read: int -> Option<Frame>,
                              scenes: seq<Scene>, meta: SceneMetadata,
                              videoId: string, videoPath: string, videoDuration: real, processingTime: real)
    requires scenes != []
    ensures var kf := ReportOf(config, read, scenes, meta, videoId, videoPath, videoDuration, processingTime).finalKeyframes;
            forall k :: 0 <= k < |kf| ==>
              exists x :: x in Extract(read, scenes) && Evaluate(QualityConfig(config), x).passesQuality
                          && kf[k] == Keyframe(x.scene.sceneId, x.scene.startTime, x.scene.Duration())
  {
    var qc := QualityConfig(config);
    var xs := Extract(read, scenes);
    var passed := PassedOf(qc, xs);
    var final := DedupStage(qc, passed).final;
    DedupStageFacts(qc, passed);
    PassedMembers(qc, xs);
    var kf := Keyframes(final);
    forall k | 0 <= k < |kf|
      ensures exists x :: x in xs && Evaluate(qc, x).passesQuality
                          && kf[k] == Keyframe(x.scene.sceneId, x.scene.startTime, x.scene.Duration())
    {
      var x := final[k];
      assert x in final;
      assert x in passed;
    }
  }

  /** The reported average scene duration lies between any bounds on the detected scenes' durations. */
  lemma ReportSceneDuration(config: PipelineConfig, read: int -> Option<Frame>, scenes: seq<Scene>, meta: SceneMetadata,
                            videoId: string, videoPath: string, videoDuration: real, processingTime: real,
                            lo: real, hi: real)
    requires scenes != []
    requires forall k :: 0 <= k < |scenes| ==> lo <= scenes[k].Duration() <= hi
    ensures var s := ReportOf(config, read, scenes, meta, videoId, videoPath, videoDuration, processingTime).stats;
            s.scenesDetected == |scenes| && lo <= s.avgSceneDuration <= hi
  {
    AvgSceneDurationBetween(scenes, lo, hi);
  }

  // ---------------------------------------------------------------------
  // The printed summary's percentages
  // ---------------------------------------------------------------------

  /** The blur, transition and duplicate shares of the extracted frames, in percent. */
  datatype Percentages = Percentages(blur: real, transition: real, dedup: real)

  /**
    The percentages as the summary computes them: each divides by the number
    of extracted frames, so with no extracted frame the division raises and
    there is no value.
  */
  function SummaryPercentages(s: ProcessingStats): (p: Option<Percentages>)
    ensures p.None? <==> s.framesExtracted == 0
  {
    if s.framesExtracted == 0 then None
    else
      var n := s.framesExtracted as real;
      Some(Percentages((s.framesBlurRejected as real) / n * 100.0,
                       (s.framesTransitionRejected as real) / n * 100.0,
                       (s.framesDedupRemoved as real) / n * 100.0))
  }

  /** When every detected scene's middle-frame read fails, nothing is extracted. */
  lemma {:induction false} NothingReadNothingExtracted(read: int -> Option<Frame>, scenes: seq<Scene>)
    requires forall k :: 0 <= k < |scenes| ==> read(scenes[k].MidFrame()).None?
    ensures Extract(read, scenes) == []
    decreases |scenes|
  {
    if scenes != [] {
      var n := |scenes| - 1;
      assert forall k :: 0 <= k < n ==> scenes[..n][k] == scenes[k];
      NothingReadNothingExtracted(read, scenes[..n]);
    }
  }

  /**
    Scenes were detected but no middle frame could be read: the report is
    complete, yet the summary printed after it has no percentages, because
    they divide by zero.
  */
  lemma NoFrameReadRaises(config: PipelineConfig, read: int -> Option<Frame>, scenes: seq<Scene>, meta: SceneMetadata,
                          videoId: string, videoPath: string, videoDuration: real, processingTime: real)
    requires scenes != []
    requires forall k :: 0 <= k < |scenes| ==> read(scenes[k].MidFrame()).None?
    ensures var s := ReportOf(config, read, scenes, meta, videoId, videoPath, videoDuration, processingTime).stats;
            s.scenesDetected > 0 && s.framesExtracted == 0 && SummaryPercentages(s).None?
  {
    NothingReadNothingExtracted(read, scenes);
  }

  /** The case happens with real detector output: one detected scene and a video none of whose frames reads. */
  lemma NoFrameReadExample()
    ensures var video := Video(25.0, (threshold: real, minLength: int) => [Boundary(0.0, 2.0, 0, 50)]);
            var scenes := ToScenes(video.detect(DEFAULT_THRESHOLD, DEFAULT_MIN_SCENE_LENGTH));
            var meta := SceneMetadata(1, Some(25.0), Some(DEFAULT_THRESHOLD), None, None, None);
            var read := (frame: int) => None;
            Detected(DEFAULT_PIPELINE_CONFIG, video, scenes, meta)
            && scenes != []
            && SummaryPercentages(ReportOf(DEFAULT_PIPELINE_CONFIG, read, scenes, meta, "clip", "clip.mp4", 2.0, 1.0).stats).None?
  {
    var video := Video(25.0, (threshold: real, minLength: int) => [Boundary(0.0, 2.0, 0, 50)]);
    var scenes := ToScenes(video.detect(DEFAULT_THRESHOLD, DEFAULT_MIN_SCENE_LENGTH));
    var meta := SceneMetadata(1, Some(25.0), Some(DEFAULT_THRESHOLD), None, None, None);
    var read: int -> Option<Frame> := (frame: int) => None;
    assert |scenes| == 1;
    NoFrameReadRaises(DEFAULT_PIPELINE_CONFIG, read, scenes, meta, "clip", "clip.mp4", 2.0, 1.0);
  }

  /** A share in percent, taken as 0 of an empty whole. */
  function Percent(part: nat, whole: nat): (p: real)
    ensures whole == 0 ==> p == 0.0
    ensures 0 < whole ==> p * (whole as real) == (part as real) * 100.0
  {
    if whole == 0 then 0.0 else (part as real) / (whole as real) * 100.0
  }

  /** The percentages with the division guarded: always defined. */
  function GuardedSummaryPercentages(s: ProcessingStats): (p: Percentages)
  {
    Percentages(Percent(s.framesBlurRejected, s.framesExtracted),
                Percent(s.framesTransitionRejected, s.framesExtracted),
                Percent(s.framesDedupRemoved, s.framesExtracted))
  }

  lemma PercentBounded(part: nat, whole: nat)
    requires part <= whole
    ensures 0.0 <= Percent(part, whole) <= 100.0
  {
    if whole > 0 {
      QuotientBetween(part as real, whole as real, 0.0, 1.0);
    }
  }

  /**
    For every report, the guarded percentages lie in [0, 100], and they agree
    with the unguarded ones whenever a frame was extracted.
  */
  lemma GuardedSummaryBounded(config: PipelineConfig, read: int -> Option<Frame>, scenes: seq<Scene>, meta: SceneMetadata,
                              videoId: string, videoPath: string, videoDuration: real, processingTime: real)
    requires scenes != []
    ensures var s := ReportOf(config, read, scenes, meta, videoId, videoPath, videoDuration, processingTime).stats;
            var p := GuardedSummaryPercentages(s);
            0.0 <= p.blur <= 100.0 && 0.0 <= p.transition <= 100.0 && 0.0 <= p.dedup <= 100.0
            && (s.framesExtracted > 0 ==> SummaryPercentages(s) == Some(p))
  {
    var s := ReportOf(config, read, scenes, meta, videoId, videoPath, videoDuration, processingTime).stats;
    ReportCounts(config, read, scenes, meta, videoId, videoPath, videoDuration, processingTime);
    PercentBounded(s.framesBlurRejected, s.framesExtracted);
    PercentBounded(s.framesTransitionRejected, s.framesExtracted);
    PercentBounded(s.framesDedupRemoved, s.framesExtracted);
  }
}
