# Keyframe selector: a verified model of its decision logic

The keyframe selector splits a video into scenes and reads each scene's middle frame. It then drops blurry frames and fade transitions, removes near-duplicates by perceptual-hash distance, and reports statistics on what survived. This project models that decision logic in Dafny and proves what the code promises about it.

Modules:

- `Wrappers` (`wrappers.dfy`): the `Option` type. It stands for a read that may fail and for metadata keys that may be absent.
- `QualityControl` (`quality_control.dfy`):
  - the per-frame gate: the sharpness test, then the three fade tests, with the blur reason winning over the fade reason;
  - the character-level Hamming distance between hash strings;
  - the single-pass greedy deduplicator, written as the nested loop of the source and proved against a step-by-step specification function.
- `SceneDetection` (`scene_detection.dfy`):
  - `Scene`, with its duration and middle frame;
  - the conversion loop from detector boundaries to scenes numbered by position;
  - fixed-threshold detection;
  - the adaptive search: seven bisection probes over [15, 50] that keep the earliest closest probe and stop at the first probe within the tolerance.
- `Pipeline` (`pipeline.dfy`):
  - the extraction loop (one middle-frame read per scene);
  - the gate loop with its two rejection counters;
  - the guarded deduplication stage;
  - the processing statistics, and `process_video` up to the report's content.

External things are inputs:

- The scene detector is a function from a threshold and a minimum scene length to a list of boundaries, carried by `Video`.
- Reading a frame is a function from a frame number to an optional `Frame`.
- A frame is its three measured numbers (Laplacian variance, mean intensity, intensity standard deviation) and its perceptual-hash string.
- The video id, the video path, the video's duration and the processing time are given values.

One way the model differs from the code:

- `frames` and `valid_scenes` are built in lock-step and always zipped together. The model keeps them as one list of `Extracted(frame, scene)` pairs.

## Model

| member | source | states |
|---|---|---|
| QualityControl.IsFade | src/quality_control.py:81-93 | A near-uniform frame (std below half the std threshold) is a fade at any intensity. With a non-negative threshold, a std at or above it is never a fade. In between, it is a fade iff the mean is below the black threshold or above the white one. |
| QualityControl.EvaluateFrame | src/quality_control.py:102-127 | Sharp iff blur score >= threshold, so equality is sharp. The transition flag is the fade test. Passes iff sharp and not a fade. The reason is empty iff the frame passes. A blurry frame gets the blur reason even when it is also a fade. A sharp fade gets the fade reason. The measured numbers are copied through. |
| QualityControl.HammingDistance | src/quality_control.py:141-145 | The count of differing characters over the zipped length. It is at most the length of either string. |
| QualityControl.HammingSelf | src/quality_control.py:141-145 | The distance of a hash to itself is 0. |
| QualityControl.HammingSymmetric | src/quality_control.py:141-145 | The distance is symmetric. |
| QualityControl.HammingZeroIff | src/quality_control.py:141-145 | The distance is 0 iff the strings agree on their common prefix length. |
| QualityControl.HammingIgnoresTail | src/quality_control.py:145 | Characters past the shorter string's end never count. |
| QualityControl.FirstMatchSpec | src/quality_control.py:173-179 | The inner scan over the kept list, in insertion order, returns the first kept hash within the threshold; every kept hash before it is farther away. There is no match iff every kept hash is farther away. |
| QualityControl.ScanKept | src/quality_control.py:171-179 | The inner loop with its `break` finds exactly that first match. |
| QualityControl.DedupStep | src/quality_control.py:170-182 | One outer iteration adds exactly one index, to the kept list or as a duplicate. The kept indices stay below the next index. |
| QualityControl.Dedup | src/quality_control.py:158-186 | Empty input gives no kept indices and no duplicates. Otherwise kept + duplicates = n and every kept index is below n. |
| QualityControl.DeduplicateFrames | src/quality_control.py:147-186 | The nested loop (start with index 0 kept; test each later index against the kept list; record the first match or keep the index) returns exactly `Dedup`'s kept list and duplicate records. |
| QualityControl.DedupOrdered | src/quality_control.py:167-182 | On non-empty input, index 0 is kept first. The kept indices strictly increase. |
| QualityControl.DedupSeparated | src/quality_control.py:173-182 | Any two kept hashes are farther apart than the threshold. |
| QualityControl.DedupDuplicates | src/quality_control.py:173-182 | The duplicate records correspond one to one, in order, to the dropped indices. Each names the dropped frame's id, the id of the first kept frame within the threshold (an earlier index), and their distance. |
| QualityControl.DroppedIsNear | src/quality_control.py:173-182 | Every dropped index has an earlier kept index within the threshold, inclusive. |
| QualityControl.KeptIsFar | src/quality_control.py:173-182 | A kept index is farther than the threshold from every kept index before it. |
| QualityControl.DedupKeptCharacterization | src/quality_control.py:170-182 | Index i is kept iff every earlier kept hash is farther than the threshold. This is both directions of the greedy rule. |
| QualityControl.DedupIdempotent | src/quality_control.py:170-182 | Deduplicating the kept hashes again keeps all of them, in order, and records no duplicate. |
| SceneDetection.Scene.Duration | src/scene_detector.py:23-25 | start time + duration = end time. |
| SceneDetection.Scene.MidFrame | src/scene_detector.py:27-29 | The middle frame is the floor of half the sum of the end frames. It lies between them when start <= end. |
| SceneDetection.ToScenes | src/scene_detector.py:76-85 | One scene per boundary. Scene k has id k and the times and frame numbers of boundary k. |
| SceneDetection.ConvertScenes | src/scene_detector.py:76-85 | The conversion loop builds exactly `ToScenes` of the boundary list. |
| SceneDetection.DetectScenes | src/scene_detector.py:48-94 | The scenes are the converted boundaries at the given threshold and minimum length. The metadata holds the scene count, fps and the threshold used. |
| SceneDetection.RunProbe | src/scene_detector.py:119-131 | A probe is made at the midpoint of the bounds with the default minimum scene length. It records the scene count and its absolute distance to the target. |
| SceneDetection.BestIndex | src/scene_detector.py:135-137 | The best probe has the minimum diff of the trace. Every probe before it has a strictly larger diff, so the earliest minimum wins. |
| SceneDetection.AdaptiveDetectScenes | src/scene_detector.py:106-156 | The trace is a complete search: 1 to 7 probes numbered 0, 1, ..., each at the midpoint of the bounds left by the earlier probes. Every probe but the last missed the tolerance, and fewer than 7 probes means the last one was within it. The returned scenes are the detector's at the best probe's threshold. The metadata holds the scene count, the target, that threshold as the final threshold, and the trace. |
| SceneDetection.ExtendTrace | src/scene_detector.py:126-137 | Appending a probe keeps the trace well formed. The best-so-far values are replaced exactly when the new diff is strictly smaller, or when there is no best yet. |
| SceneDetection.SearchStep | src/scene_detector.py:118-146 | A probe outside the tolerance keeps the loop invariant with the bounds narrowed by that probe's count. |
| SceneDetection.FinishConverged | src/scene_detector.py:139-154 | A probe within the tolerance ends the search with a complete trace. The returned threshold and scenes are those of the trace's best probe. |
| SceneDetection.FinishExhausted | src/scene_detector.py:148-154 | After seven probes outside the tolerance, the result is the earliest closest probe. |
| SceneDetection.ProbeAt | src/scene_detector.py:118-131 | Probe k is numbered k and is made at the midpoint of the bounds after probes 0..k-1. |
| SceneDetection.BoundsShrink | src/scene_detector.py:110-146 | After any number of probes, 15 <= low < high <= 50, and the width is 35 halved once per probe. |
| SceneDetection.ProbeInBounds | src/scene_detector.py:119-146 | Every probed threshold lies strictly inside the bounds it saw, and so inside (15, 50). |
| SceneDetection.NarrowingRule | src/scene_detector.py:143-146 | A count below the target sets high to the probe's threshold. Otherwise low is set to it. |
| SceneDetection.ConvergedProbeIsResult | src/scene_detector.py:135-148 | A probe within the tolerance is the last one, and it is the returned best. |
| SceneDetection.SearchTracePrefixUnique | src/scene_detector.py:118-131 | Two well-formed traces agree on their common prefix. |
| SceneDetection.SearchTraceUnique | src/scene_detector.py:106-156 | Two complete searches over the same video, target and tolerance give the same trace. |
| Pipeline.QualityConfig | src/pipeline.py:85-88 | The quality controller gets the configured blur threshold and dedup distance and keeps the default fade thresholds 25, 230 and 15. |
| Pipeline.DefaultPipelineConfig | src/pipeline.py:58-88 | With the constructor's defaults, detection is fixed at threshold 27 and the quality controller has all its own defaults. |
| Pipeline.DetectedIdsIncreasing | src/pipeline.py:80-83 | Both configured detectors return scenes with strictly increasing ids. |
| Pipeline.DetectedThreshold | src/pipeline.py:200 | The reported threshold is the configured one for fixed detection. For adaptive detection it is the final threshold, which lies in (15, 50). |
| Pipeline.ExtractKeyframes | src/pipeline.py:265-276 | The loop returns exactly `Extract`: each scene whose middle-frame read succeeds, paired with the frame read, in scene order. At most one entry per scene. |
| Pipeline.ExtractMembers | src/pipeline.py:265-276 | An entry is extracted iff its scene was detected and reading that scene's middle frame returns its frame. |
| Pipeline.ExtractOrdered | src/pipeline.py:265-276 | Extraction keeps the scene order. |
| Pipeline.QualityFilter | src/pipeline.py:137-158 | The gate loop produces one metrics entry per extracted frame, in order, and the frames that pass, in order. The blur counter counts non-sharp frames. The transition counter counts sharp fades. |
| Pipeline.FilterStep | src/pipeline.py:143-158 | Handling a frame appends its metrics entry, and appends the frame to the passed list iff it passes. |
| Pipeline.CountsStep | src/pipeline.py:147-155 | A new entry increments the blur counter iff it is not sharp, and the transition counter iff it is sharp and a fade. |
| Pipeline.MetricsOfAt | src/pipeline.py:143-145 | Metrics entry k is the evaluation of extracted frame k under its scene id. |
| Pipeline.PartitionCount | src/pipeline.py:143-158 | blur-rejected + transition-rejected + passed = extracted. |
| Pipeline.PassedMembers | src/pipeline.py:147-158 | The passed list holds exactly the extracted frames whose metrics pass. |
| Pipeline.PassedOrdered | src/pipeline.py:143-158 | The passed list keeps the scene order. |
| Pipeline.BlurWins | src/pipeline.py:147-150 | A blurry frame counts once as a blur rejection, never as a transition rejection, and is not passed, whether or not it is a fade. |
| Pipeline.DeduplicateStage | src/pipeline.py:165-178 | Deduplication runs only for more than one passed frame. Then the final list is the passed list at the kept indices, the removed count is passed - final, and the duplicate records are the deduplicator's. Otherwise final = passed, removed = 0 and there are no records. |
| Pipeline.DedupGuardHarmless | src/pipeline.py:165-178 | For fewer than two passed frames, skipping deduplication gives what running it would. |
| Pipeline.DedupStageFacts | src/pipeline.py:165-178 | final + removed = passed. There is one record per removed frame. The first passed frame survives. Survivors are passed frames in the same order, pairwise farther apart than the threshold. |
| Pipeline.PassingScoresOfPassed | src/pipeline.py:192 | The blur scores in the statistics are those of the passed frames, one each, in order. |
| Pipeline.PassingScoresSharp | src/pipeline.py:192 | Every such blur score is at least the blur threshold. |
| Pipeline.MinOf | src/pipeline.py:207 | The minimum is an element and at most every element. |
| Pipeline.MaxOf | src/pipeline.py:208 | The maximum is an element and at least every element. |
| Pipeline.MeanBetween | src/pipeline.py:206-208 | For a non-empty list, min <= mean <= max. |
| Pipeline.AvgSceneDurationBetween | src/pipeline.py:199 | The average scene duration (sum of durations over the scene count) lies between any lower and upper bound on the individual durations. |
| Pipeline.ReportSceneDuration | src/pipeline.py:198-199 | The statistics count every detected scene, and their average scene duration lies between any bounds on the detected scenes' durations. |
| Pipeline.ProcessVideo | src/pipeline.py:120-213 | The scenes come from the configured detector (fixed, or adaptive with tolerance 5). No scene gives `None`. Otherwise it returns the report `ReportOf` computes from those scenes: the video id, statistics, metadata, metrics, duplicate records and final keyframes. This includes the case where scenes were found but no middle frame could be read. There the code writes the report and then raises in the printed summary (src/pipeline.py:236, 310-312), so it returns no statistics; the model returns `Some(report)` (see Findings). |
| Pipeline.ReportCounts | src/pipeline.py:130-205 | One metrics entry per extracted frame. blur + transition + passed = extracted. final + dedup-removed = passed. final <= passed <= extracted <= detected. One keyframe per final frame and one record per removed frame. |
| Pipeline.ReportBlurStats | src/pipeline.py:192-208 | With no passed frame, the blur average, minimum and maximum are 0. Otherwise blur threshold <= min <= avg <= max. |
| Pipeline.ReportKeyframesOrdered | src/pipeline.py:171-226 | The final keyframes are listed with strictly increasing scene ids. |
| Pipeline.ReportKeyframesPassed | src/pipeline.py:218-226 | Each final keyframe names a read frame that passed the gate, with its scene's start time as timestamp and the scene's duration. |
| Pipeline.SummaryPercentages | src/pipeline.py:307-313 | The summary's blur, transition and duplicate percentages of the extracted frames exist exactly when at least one frame was extracted; with none, the unguarded division raises. |
| Pipeline.NothingReadNothingExtracted | src/pipeline.py:265-276 | When every scene's middle-frame read fails, no frame is extracted. |
| Pipeline.NoFrameReadRaises | src/pipeline.py:229-236 | With scenes detected and every read failing, the report's statistics count the scenes but no extracted frame, and the summary's percentages do not exist (the call raises after the report was written). |
| Pipeline.NoFrameReadExample | src/pipeline.py:120-130 | A single detected scene of a video none of whose frames reads is real detector output that reaches that case. |
| Pipeline.Percent | src/pipeline.py:310-312 | A percentage taken as 0 of an empty whole; otherwise percentage times whole equals part times 100. |
| Pipeline.PercentBounded | src/pipeline.py:310-312 | A part no larger than its whole is between 0 and 100 percent. |
| Pipeline.GuardedSummaryBounded | src/pipeline.py:307-313 | For every report, the guarded percentages lie in [0, 100] and equal the unguarded ones whenever a frame was extracted. |

## Left out

- Pixel numerics: grey conversion, the Laplacian and its variance, and the mean and standard deviation. These are floating-point library calls whose results are the three inputs of a `Measurement`.
- The perceptual hash and the image conversion before it. Each frame carries its hash string as a given value.
- The scene-boundary detector's internals (opening the video, the scene manager, the content detector). The detector is the injected `Video.detect`.
- Video seeking and reading, and reading the video's duration. A read is the injected `read` function; the duration is a parameter.
- Saving keyframe images, their file names and paths, creating directories, and writing the JSON report. The model computes the report's content but no file. Keyframes carry no path.
- The clock: the processing time is a parameter. Logging and the printed summary are left out; of the summary, only its percentages are modelled (`SummaryPercentages`).
- Pipeline.ProcessVideo: when scenes are found but no middle frame is read, the code writes the report and then raises `ZeroDivisionError` in the printed summary, so `process_video` returns no statistics. The model returns `Some(report)` there, following the guarded percentages; the as-written behaviour is stated by `NoFrameReadRaises`.
- The visualiser and the command-line entry point. They render, parse arguments and wire components, and hold no selection logic.
- The default for a missing `video_id` (the stem of the video path). `ProcessVideo` takes the id as a parameter and writes it into the report's `videoId`; the directory and report file names built from it are left out with the rest of the file output.
- Floating point: scores, thresholds, times and averages are exact reals. Rounding of the threshold midpoints and of the averages is not modelled.
- Rejection reasons and duplicate messages are formatted strings in the code. The model uses a `Reason` datatype and `DuplicateRecord` triples (duplicate id, kept id, distance), which carry the same values.
- Convergence of the adaptive search when some threshold gives a count within the tolerance. This depends on the detector's count falling as the threshold rises, which the code assumes but does not check. The model proves the bisection's bounds, the narrowing rule and the result selection for any detector.
- The adaptive search's diff is the absolute distance on unbounded integers, and `inf` as the initial best diff is modelled by `None`.

## Findings

| source | as written | input that shows it | evidently intended | confidence | as-written member | corrected member |
|---|---|---|---|---|---|---|
| src/pipeline.py:310-312 | The summary divides the blur, transition and duplicate counts by `frames_extracted` without a guard; it runs after the report is written (src/pipeline.py:229-236). | A video with at least one detected scene whose middle frames all fail to read: `frames_extracted` is 0, so `process_video` raises instead of returning its statistics. | Percentages taken as 0 when no frame was extracted, so the call returns the statistics of the report it wrote. | not executed | Pipeline.NoFrameReadRaises | Pipeline.GuardedSummaryBounded |
