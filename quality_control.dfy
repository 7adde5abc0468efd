/**
  The per-frame quality gate (blur and fade rejection) and the greedy
  near-duplicate filter over perceptual-hash strings.

  The pixel statistics (Laplacian variance, grey-level mean and standard
  deviation) and the perceptual hash are taken as given values.
*/
module QualityControl {
  import opened Wrappers

  /** The thresholds a quality controller is built with. */
  datatype Config = Config(
    blurThreshold: real,
    fadeBlackThreshold: real,
    fadeWhiteThreshold: real,
    fadeStdThreshold: real,
    dedupHashDistance: int)

  /** The constructor's default arguments. */
  const DEFAULT_CONFIG := Config(100.0, 25.0, 230.0, 15.0, 5)

  /** The three numbers measured on a frame's grey-level image. */
  datatype Measurement = Measurement(blurScore: real, avgIntensity: real, intensityStd: real)

  /** Why a frame was rejected; NoReason is the empty reason of a passing frame. */
  datatype Reason =
    | NoReason
    | BlurReason(score: real, threshold: real)
    | FadeReason(intensity: real, std: real)

  datatype QualityMetrics = QualityMetrics(
    frameId: int,
    laplacianVariance: real,
    avgIntensity: real,
    intensityStd: real,
    isSharp: bool,
    isTransition: bool,
    passesQuality: bool,
    rejectionReason: Reason)

  // ---------------------------------------------------------------------
  // Quality gate
  // ---------------------------------------------------------------------

  /**
    The decision part of the fade check: fade to black, fade to white, or a
    near-uniform frame, tried in that order.
  */
  function IsFade(qc: Config, avgIntensity: real, intensityStd: real): (fade: bool)
    // a near-uniform frame is a fade whatever its brightness
    ensures intensityStd < qc.fadeStdThreshold / 2.0 ==> fade
    // with a non-negative threshold, enough spread is never a fade
    ensures qc.fadeStdThreshold >= 0.0 && intensityStd >= qc.fadeStdThreshold ==> !fade
    // in between, only the brightness decides
    ensures qc.fadeStdThreshold / 2.0 <= intensityStd < qc.fadeStdThreshold ==>
              (fade <==> avgIntensity < qc.fadeBlackThreshold || avgIntensity > qc.fadeWhiteThreshold)
  {
    if avgIntensity < qc.fadeBlackThreshold && intensityStd < qc.fadeStdThreshold then true
    else if avgIntensity > qc.fadeWhiteThreshold && intensityStd < qc.fadeStdThreshold then true
    else if intensityStd < qc.fadeStdThreshold / 2.0 then true
    else false
  }

  /** Evaluates one frame; the blur check is reported in preference to the fade check. */
  function EvaluateFrame(qc: Config, m: Measurement, frameId: int): (q: QualityMetrics)
    ensures q.frameId == frameId && q.laplacianVariance == m.blurScore
    ensures q.avgIntensity == m.avgIntensity && q.intensityStd == m.intensityStd
    // sharpness has an inclusive lower bound
    ensures q.isSharp <==> m.blurScore >= qc.blurThreshold
    ensures q.isTransition == IsFade(qc, m.avgIntensity, m.intensityStd)
    ensures q.passesQuality <==> q.isSharp && !q.isTransition
    // the reason is empty exactly for passing frames
    ensures q.rejectionReason.NoReason? <==> q.passesQuality
    // blur wins over fade
    ensures !q.isSharp ==> q.rejectionReason == BlurReason(m.blurScore, qc.blurThreshold)
    ensures q.isSharp && q.isTransition ==>
              q.rejectionReason == FadeReason(m.avgIntensity, m.intensityStd)
  {
    var isSharp := m.blurScore >= qc.blurThreshold;
    var isFade := IsFade(qc, m.avgIntensity, m.intensityStd);
    var passes := isSharp && !isFade;
    var reason :=
      if !isSharp then BlurReason(m.blurScore, qc.blurThreshold)
      else if isFade then FadeReason(m.avgIntensity, m.intensityStd)
      else NoReason;
    QualityMetrics(frameId, m.blurScore, m.avgIntensity, m.intensityStd, isSharp, isFade, passes, reason)
  }

  // ---------------------------------------------------------------------
  // Hash distance
  // ---------------------------------------------------------------------

  function Min(a: int, b: int): (m: int) { if a <= b then a else b }

  /**
    The number of positions at which two hash strings hold different
    characters, over the length of the shorter one (the strings are zipped).
    Characters are compared, not the bits they encode.
  */
  function HammingDistance(h1: seq<char>, h2: seq<char>): (d: nat)
    ensures d <= |h1| && d <= |h2|
  {
    if |h1| == 0 || |h2| == 0 then 0
    else (if h1[0] != h2[0] then 1 else 0) + HammingDistance(h1[1..], h2[1..])
  }

  lemma {:induction false} HammingSelf(h: seq<char>)
    ensures HammingDistance(h, h) == 0
  {
    if |h| > 0 {
      HammingSelf(h[1..]);
    }
  }

  lemma {:induction false} HammingSymmetric(h1: seq<char>, h2: seq<char>)
    ensures HammingDistance(h1, h2) == HammingDistance(h2, h1)
  {
    if |h1| > 0 && |h2| > 0 {
      HammingSymmetric(h1[1..], h2[1..]);
    }
  }

  /** The distance is zero exactly when the strings agree on their common length. */
  lemma {:induction false} HammingZeroIff(h1: seq<char>, h2: seq<char>)
    ensures HammingDistance(h1, h2) == 0 <==>
              forall i :: 0 <= i < Min(|h1|, |h2|) ==> h1[i] == h2[i]
  {
    if |h1| > 0 && |h2| > 0 {
      HammingZeroIff(h1[1..], h2[1..]);
      assert forall i :: 1 <= i < Min(|h1|, |h2|) ==> h1[i] == h1[1..][i - 1] && h2[i] == h2[1..][i - 1];
    }
  }

  /** Characters beyond the shorter string's length never count. */
  lemma {:induction false} HammingIgnoresTail(h1: seq<char>, h2: seq<char>)
    ensures HammingDistance(h1, h2) ==
              HammingDistance(h1[..Min(|h1|, |h2|)], h2[..Min(|h1|, |h2|)])
  {
    var m := Min(|h1|, |h2|);
    if m > 0 {
      HammingIgnoresTail(h1[1..], h2[1..]);
      assert h1[..m][1..] == h1[1..][..m - 1];
      assert h2[..m][1..] == h2[1..][..m - 1];
    }
  }

  // ---------------------------------------------------------------------
  // Greedy deduplication
  // ---------------------------------------------------------------------

  /** The record of one eliminated frame: its id, the id it duplicates, their distance. */
  datatype DuplicateRecord = DuplicateRecord(duplicateId: int, keptId: int, distance: nat)

  datatype DedupResult = DedupResult(kept: seq<nat>, duplicates: seq<DuplicateRecord>)

  ghost predicate IndicesBelow(idx: seq<nat>, n: nat)
  {
    forall k :: 0 <= k < |idx| ==> idx[k] < n
  }

  ghost predicate StrictlyIncreasing(idx: seq<nat>)
  {
    forall a, b :: 0 <= a < b < |idx| ==> idx[a] < idx[b]
  }

  /** The elements of xs at the given positions, in the order of the positions. */
  function Select<T>(xs: seq<T>, idx: seq<nat>): (r: seq<T>)
    requires IndicesBelow(idx, |xs|)
    ensures |r| == |idx|
    ensures forall k :: 0 <= k < |idx| ==> r[k] == xs[idx[k]]
  {
    seq(|idx|, k requires 0 <= k < |idx| => xs[idx[k]])
  }

  /**
    The position, in the kept list, of the first kept hash within the
    threshold of hash i, scanning the kept list in insertion order.
  */
  function FirstMatch(hashes: seq<seq<char>>, i: nat, kept: seq<nat>, threshold: int): (r: Option<nat>)
    requires i < |hashes| && IndicesBelow(kept, |hashes|)
    ensures r.Some? ==> r.value < |kept|
  {
    if kept == [] then None
    else if HammingDistance(hashes[i], hashes[kept[0]]) <= threshold then Some(0)
    else match FirstMatch(hashes, i, kept[1..], threshold)
      case None => None
      case Some(k) => Some(k + 1)
  }

  /**
    The first match is within the threshold and every kept hash before it is
    farther away; there is no match exactly when every kept hash is farther away.
  */
  lemma {:induction false} FirstMatchSpec(hashes: seq<seq<char>>, i: nat, kept: seq<nat>, threshold: int)
    requires i < |hashes| && IndicesBelow(kept, |hashes|)
    ensures var r := FirstMatch(hashes, i, kept, threshold);
            (r.Some? ==> HammingDistance(hashes[i], hashes[kept[r.value]]) <= threshold
                         && forall k :: 0 <= k < r.value ==>
                              HammingDistance(hashes[i], hashes[kept[k]]) > threshold)
            && (r.None? <==> forall k :: 0 <= k < |kept| ==>
                               HammingDistance(hashes[i], hashes[kept[k]]) > threshold)
  {
    if kept != [] && HammingDistance(hashes[i], hashes[kept[0]]) > threshold {
      FirstMatchSpec(hashes, i, kept[1..], threshold);
      assert forall k :: 1 <= k < |kept| ==> kept[k] == kept[1..][k - 1];
    }
  }

  /** The kept list and duplicate records after the outer loop has handled indices 1 .. n-1. */
  function DedupPrefix(hashes: seq<seq<char>>, ids: seq<int>, threshold: int, n: nat): (r: DedupResult)
    requires |ids| == |hashes| && 1 <= n <= |hashes|
    ensures |r.kept| + |r.duplicates| == n
    ensures IndicesBelow(r.kept, n)
    decreases n
  {
    if n == 1 then DedupResult([0], [])
    else DedupStep(hashes, ids, threshold, DedupPrefix(hashes, ids, threshold, n - 1), n - 1)
  }

  /**
    One pass of the outer loop: index i becomes a duplicate of the first kept
    index within the threshold, or is kept when there is none.
  */
  function DedupStep(hashes: seq<seq<char>>, ids: seq<int>, threshold: int, prev: DedupResult, i: nat): (r: DedupResult)
    requires |ids| == |hashes| && i < |hashes| && IndicesBelow(prev.kept, i)
    ensures |r.kept| + |r.duplicates| == |prev.kept| + |prev.duplicates| + 1
    ensures IndicesBelow(r.kept, i + 1)
  {
    match FirstMatch(hashes, i, prev.kept, threshold)
    case Some(k) =>
      var j := prev.kept[k];
      DedupResult(prev.kept, prev.duplicates + [DuplicateRecord(ids[i], ids[j], HammingDistance(hashes[i], hashes[j]))])
    case None =>
      DedupResult(prev.kept + [i], prev.duplicates)
  }

  /** What deduplication returns for the given hashes and frame ids. */
  function Dedup(hashes: seq<seq<char>>, ids: seq<int>, threshold: int): (r: DedupResult)
    requires |ids| == |hashes|
    ensures hashes == [] ==> r.kept == [] && r.duplicates == []
    ensures |r.kept| + |r.duplicates| == |hashes|
    ensures IndicesBelow(r.kept, |hashes|)
  {
    if |hashes| == 0 then DedupResult([], []) else DedupPrefix(hashes, ids, threshold, |hashes|)
  }

  /** The position in kept of the first kept hash within the threshold of hash i. */
  method ScanKept(hashes: seq<seq<char>>, i: nat, kept: seq<nat>, threshold: int) returns (found: Option<nat>)
    requires i < |hashes| && IndicesBelow(kept, |hashes|)
    ensures found == FirstMatch(hashes, i, kept, threshold)
  {
    var k := 0;
    while k < |kept|
      invariant 0 <= k <= |kept|
      invariant forall k' :: 0 <= k' < k ==> HammingDistance(hashes[i], hashes[kept[k']]) > threshold
    {
      var distance := HammingDistance(hashes[i], hashes[kept[k]]);
      if distance <= threshold {
        FirstMatchSpec(hashes, i, kept, threshold);
        return Some(k);
      }
      k := k + 1;
    }
    FirstMatchSpec(hashes, i, kept, threshold);
    return None;
  }

  /**
    Greedy single-pass deduplication: index 0 is kept; each later index is
    compared with the kept indices in insertion order and is a duplicate of
    the first one within the threshold, otherwise it is kept.
  */
  method DeduplicateFrames(hashes: seq<seq<char>>, frameIds: seq<int>, threshold: int)
    returns (keptIndices: seq<nat>, duplicates: seq<DuplicateRecord>)
    requires |frameIds| == |hashes|
    ensures DedupResult(keptIndices, duplicates) == Dedup(hashes, frameIds, threshold)
  {
    if |hashes| == 0 {
      return [], [];
    }
    keptIndices := [0];
    duplicates := [];
    for i := 1 to |hashes|
      invariant DedupResult(keptIndices, duplicates) == DedupPrefix(hashes, frameIds, threshold, i)
    {
      ghost var before := DedupResult(keptIndices, duplicates);
      var found := ScanKept(hashes, i, keptIndices, threshold);
      match found {
        case Some(k) =>
          var keptIdx := keptIndices[k];
          var distance := HammingDistance(hashes[i], hashes[keptIdx]);
          duplicates := duplicates + [DuplicateRecord(frameIds[i], frameIds[keptIdx], distance)];
        case None =>
          keptIndices := keptIndices + [i];
      }
      assert DedupResult(keptIndices, duplicates) == DedupStep(hashes, frameIds, threshold, before, i);
    }
  }

  // Ordering of the kept indices

  lemma StepOrdered(hashes: seq<seq<char>>, ids: seq<int>, threshold: int, prev: DedupResult, i: nat)
    requires |ids| == |hashes| && i < |hashes| && IndicesBelow(prev.kept, i)
    requires |prev.kept| >= 1 && prev.kept[0] == 0 && StrictlyIncreasing(prev.kept)
    ensures var kept := DedupStep(hashes, ids, threshold, prev, i).kept;
            |kept| >= 1 && kept[0] == 0 && StrictlyIncreasing(kept)
  {
    if FirstMatch(hashes, i, prev.kept, threshold).None? {
      var kept := prev.kept + [i];
      assert DedupStep(hashes, ids, threshold, prev, i).kept == kept;
      forall a, b | 0 <= a < b < |kept|
        ensures kept[a] < kept[b]
      {
        assert kept[a] == prev.kept[a];
        if b < |prev.kept| {
          assert kept[b] == prev.kept[b];
        }
      }
    }
  }

  lemma {:induction false} DedupPrefixOrdered(hashes: seq<seq<char>>, ids: seq<int>, threshold: int, n: nat)
    requires |ids| == |hashes| && 1 <= n <= |hashes|
    ensures var kept := DedupPrefix(hashes, ids, threshold, n).kept;
            |kept| >= 1 && kept[0] == 0 && StrictlyIncreasing(kept)
    decreases n
  {
    if n > 1 {
      DedupPrefixOrdered(hashes, ids, threshold, n - 1);
      StepOrdered(hashes, ids, threshold, DedupPrefix(hashes, ids, threshold, n - 1), n - 1);
    }
  }

  /**
    The first frame is always kept, and the kept indices are strictly
    increasing, so they are an in-order selection of the input.
  */
  lemma DedupOrdered(hashes: seq<seq<char>>, ids: seq<int>, threshold: int)
    requires |ids| == |hashes|
    ensures var kept := Dedup(hashes, ids, threshold).kept;
            (hashes != [] ==> |kept| >= 1 && kept[0] == 0) && StrictlyIncreasing(kept)
  {
    if |hashes| > 0 {
      DedupPrefixOrdered(hashes, ids, threshold, |hashes|);
    }
  }

  // Separation of the kept hashes

  /** Each hash is farther than the threshold from every earlier one. */
  ghost predicate Separated(hashes: seq<seq<char>>, kept: seq<nat>, threshold: int)
    requires IndicesBelow(kept, |hashes|)
  {
    forall a, b :: 0 <= a < b < |kept| ==>
      HammingDistance(hashes[kept[b]], hashes[kept[a]]) > threshold
  }

  lemma StepSeparated(hashes: seq<seq<char>>, ids: seq<int>, threshold: int, prev: DedupResult, i: nat)
    requires |ids| == |hashes| && i < |hashes| && IndicesBelow(prev.kept, i)
    requires Separated(hashes, prev.kept, threshold)
    ensures Separated(hashes, DedupStep(hashes, ids, threshold, prev, i).kept, threshold)
  {
    if FirstMatch(hashes, i, prev.kept, threshold).None? {
      FirstMatchSpec(hashes, i, prev.kept, threshold);
      var kept := prev.kept + [i];
      assert DedupStep(hashes, ids, threshold, prev, i).kept == kept;
      forall a, b | 0 <= a < b < |kept|
        ensures HammingDistance(hashes[kept[b]], hashes[kept[a]]) > threshold
      {
        assert kept[a] == prev.kept[a];
        if b < |prev.kept| {
          assert kept[b] == prev.kept[b];
        } else {
          assert kept[b] == i;
        }
      }
    }
  }

  lemma {:induction false} DedupPrefixSeparated(hashes: seq<seq<char>>, ids: seq<int>, threshold: int, n: nat)
    requires |ids| == |hashes| && 1 <= n <= |hashes|
    ensures Separated(hashes, DedupPrefix(hashes, ids, threshold, n).kept, threshold)
    decreases n
  {
    if n > 1 {
      DedupPrefixSeparated(hashes, ids, threshold, n - 1);
      StepSeparated(hashes, ids, threshold, DedupPrefix(hashes, ids, threshold, n - 1), n - 1);
    }
  }

  /** Kept hashes are pairwise farther apart than the threshold. */
  lemma DedupSeparated(hashes: seq<seq<char>>, ids: seq<int>, threshold: int)
    requires |ids| == |hashes|
    ensures Separated(hashes, Dedup(hashes, ids, threshold).kept, threshold)
  {
    if |hashes| > 0 {
      DedupPrefixSeparated(hashes, ids, threshold, |hashes|);
    }
  }

  // The duplicate records

  /** The indices below n that are not in kept, in increasing order. */
  function Dropped(kept: seq<nat>, n: nat): (dropped: seq<nat>)
    decreases n
  {
    if n == 0 then [] else Dropped(kept, n - 1) + (if n - 1 in kept then [] else [n - 1])
  }

  lemma {:induction false} DroppedMembers(kept: seq<nat>, n: nat, x: nat)
    ensures x in Dropped(kept, n) <==> x < n && x !in kept
    decreases n
  {
    if n > 0 {
      DroppedMembers(kept, n - 1, x);
    }
  }

  /** Keeping a later index does not change which earlier indices were dropped. */
  lemma {:induction false} DroppedAppend(kept: seq<nat>, x: nat, n: nat)
    requires n <= x
    ensures Dropped(kept + [x], n) == Dropped(kept, n)
    decreases n
  {
    if n > 0 {
      DroppedAppend(kept, x, n - 1);
      assert (n - 1 in kept + [x]) == (n - 1 in kept);
    }
  }

  /**
    rec records index i as a duplicate of the first kept index, in kept
    order, whose hash lies within the threshold of hash i; that index
    precedes i.
  */
  ghost predicate RecordsFirstMatch(hashes: seq<seq<char>>, ids: seq<int>, threshold: int,
                                    kept: seq<nat>, i: nat, rec: DuplicateRecord)
  {
    && |ids| == |hashes| && i < |hashes| && IndicesBelow(kept, |hashes|)
    && match FirstMatch(hashes, i, kept, threshold)
       case None => false
       case Some(k) =>
         kept[k] < i && rec == DuplicateRecord(ids[i], ids[kept[k]], HammingDistance(hashes[i], hashes[kept[k]]))
  }

  /** Appending to the kept list does not change an existing first match. */
  lemma {:induction false} FirstMatchExtend(hashes: seq<seq<char>>, i: nat, kept: seq<nat>, x: nat, threshold: int)
    requires i < |hashes| && x < |hashes| && IndicesBelow(kept, |hashes|)
    requires FirstMatch(hashes, i, kept, threshold).Some?
    ensures FirstMatch(hashes, i, kept + [x], threshold) == FirstMatch(hashes, i, kept, threshold)
  {
    var kept' := kept + [x];
    assert kept'[0] == kept[0];
    if HammingDistance(hashes[i], hashes[kept[0]]) > threshold {
      FirstMatchExtend(hashes, i, kept[1..], x, threshold);
      assert kept'[1..] == kept[1..] + [x];
    }
  }

  lemma RecordsFirstMatchExtend(hashes: seq<seq<char>>, ids: seq<int>, threshold: int,
                                kept: seq<nat>, x: nat, i: nat, rec: DuplicateRecord)
    requires |ids| == |hashes| && i < |hashes| && x < |hashes| && IndicesBelow(kept, |hashes|)
    requires RecordsFirstMatch(hashes, ids, threshold, kept, i, rec)
    ensures RecordsFirstMatch(hashes, ids, threshold, kept + [x], i, rec)
  {
    FirstMatchExtend(hashes, i, kept, x, threshold);
    var k := FirstMatch(hashes, i, kept, threshold).value;
    assert (kept + [x])[k] == kept[k];
  }

  /** Each duplicate record belongs, in order, to the matching dropped index. */
  ghost predicate RecordsDropped(hashes: seq<seq<char>>, ids: seq<int>, threshold: int,
                                 kept: seq<nat>, dropped: seq<nat>, duplicates: seq<DuplicateRecord>)
    decreases |dropped|
  {
    |dropped| == |duplicates|
    && (|dropped| > 0 ==>
          RecordsDropped(hashes, ids, threshold, kept, dropped[..|dropped| - 1], duplicates[..|dropped| - 1])
          && RecordsFirstMatch(hashes, ids, threshold, kept, dropped[|dropped| - 1], duplicates[|dropped| - 1]))
  }

  lemma {:induction false} RecordsDroppedAt(hashes: seq<seq<char>>, ids: seq<int>, threshold: int,
                           kept: seq<nat>, dropped: seq<nat>, duplicates: seq<DuplicateRecord>, m: nat)
    requires |ids| == |hashes|
    requires RecordsDropped(hashes, ids, threshold, kept, dropped, duplicates) && m < |dropped|
    ensures RecordsFirstMatch(hashes, ids, threshold, kept, dropped[m], duplicates[m])
    decreases |dropped|
  {
    var n := |dropped|;
    if m < n - 1 {
      RecordsDroppedAt(hashes, ids, threshold, kept, dropped[..n - 1], duplicates[..n - 1], m);
      assert dropped[..n - 1][m] == dropped[m] && duplicates[..n - 1][m] == duplicates[m];
    }
  }

  lemma RecordsDroppedMatched(hashes: seq<seq<char>>, ids: seq<int>, threshold: int,
                              kept: seq<nat>, dropped: seq<nat>, duplicates: seq<DuplicateRecord>,
                              i: nat, rec: DuplicateRecord)
    requires |ids| == |hashes| && i < |hashes|
    requires RecordsDropped(hashes, ids, threshold, kept, dropped, duplicates)
    requires RecordsFirstMatch(hashes, ids, threshold, kept, i, rec)
    ensures RecordsDropped(hashes, ids, threshold, kept, dropped + [i], duplicates + [rec])
  {
    assert (dropped + [i])[..|dropped|] == dropped;
    assert (duplicates + [rec])[..|dropped|] == duplicates;
  }

  lemma {:induction false} RecordsDroppedKept(hashes: seq<seq<char>>, ids: seq<int>, threshold: int,
                           kept: seq<nat>, dropped: seq<nat>, duplicates: seq<DuplicateRecord>, i: nat)
    requires |ids| == |hashes| && i < |hashes|
    requires RecordsDropped(hashes, ids, threshold, kept, dropped, duplicates)
    ensures RecordsDropped(hashes, ids, threshold, kept + [i], dropped, duplicates)
    decreases |dropped|
  {
    var n := |dropped|;
    if n > 0 {
      RecordsDroppedKept(hashes, ids, threshold, kept, dropped[..n - 1], duplicates[..n - 1], i);
      RecordsFirstMatchExtend(hashes, ids, threshold, kept, i, dropped[n - 1], duplicates[n - 1]);
    }
  }

  lemma StepRecords(hashes: seq<seq<char>>, ids: seq<int>, threshold: int, prev: DedupResult, n: nat, r: DedupResult)
    requires |ids| == |hashes| && 1 <= n <= |hashes| && IndicesBelow(prev.kept, n - 1)
    requires r == DedupStep(hashes, ids, threshold, prev, n - 1)
    requires RecordsDropped(hashes, ids, threshold, prev.kept, Dropped(prev.kept, n - 1), prev.duplicates)
    ensures RecordsDropped(hashes, ids, threshold, r.kept, Dropped(r.kept, n), r.duplicates)
  {
    var i := n - 1;
    var dropped := Dropped(prev.kept, i);
    assert i !in prev.kept;
    match FirstMatch(hashes, i, prev.kept, threshold)
    case Some(k) =>
      var j := prev.kept[k];
      var rec := DuplicateRecord(ids[i], ids[j], HammingDistance(hashes[i], hashes[j]));
      assert r == DedupResult(prev.kept, prev.duplicates + [rec]);
      assert Dropped(r.kept, i + 1) == dropped + [i];
      assert RecordsFirstMatch(hashes, ids, threshold, prev.kept, i, rec);
      RecordsDroppedMatched(hashes, ids, threshold, prev.kept, dropped, prev.duplicates, i, rec);
    case None =>
      assert r == DedupResult(prev.kept + [i], prev.duplicates);
      assert Dropped(r.kept, i + 1) == dropped by {
        DroppedAppend(prev.kept, i, i);
        assert i in r.kept;
      }
      RecordsDroppedKept(hashes, ids, threshold, prev.kept, dropped, prev.duplicates, i);
  }

  lemma DedupFirstRecords(hashes: seq<seq<char>>, ids: seq<int>, threshold: int, n: nat)
    requires |ids| == |hashes| && n == 1 <= |hashes|
    ensures var r := DedupPrefix(hashes, ids, threshold, n);
            RecordsDropped(hashes, ids, threshold, r.kept, Dropped(r.kept, n), r.duplicates)
  {
    var r := DedupPrefix(hashes, ids, threshold, n);
    assert r.kept == [0];
    assert Dropped(r.kept, 1) == [];
  }

  lemma {:induction false} DedupPrefixDuplicates(hashes: seq<seq<char>>, ids: seq<int>, threshold: int, n: nat)
    requires |ids| == |hashes| && 1 <= n <= |hashes|
    ensures var r := DedupPrefix(hashes, ids, threshold, n);
            RecordsDropped(hashes, ids, threshold, r.kept, Dropped(r.kept, n), r.duplicates)
    decreases n
  {
    if n == 1 {
      DedupFirstRecords(hashes, ids, threshold, n);
    } else {
      var prev := DedupPrefix(hashes, ids, threshold, n - 1);
      DedupPrefixDuplicates(hashes, ids, threshold, n - 1);
      StepRecords(hashes, ids, threshold, prev, n, DedupPrefix(hashes, ids, threshold, n));
    }
  }

  /**
    The duplicate records correspond, in order, to the indices that were not
    kept, and each names the first kept index within the threshold.
  */
  lemma DedupDuplicates(hashes: seq<seq<char>>, ids: seq<int>, threshold: int)
    requires |ids| == |hashes|
    ensures var r := Dedup(hashes, ids, threshold);
            RecordsDropped(hashes, ids, threshold, r.kept, Dropped(r.kept, |hashes|), r.duplicates)
  {
    if |hashes| > 0 {
      DedupPrefixDuplicates(hashes, ids, threshold, |hashes|);
    }
  }

  // The greedy rule, stated on the final result

  /** A kept index is farther than the threshold from every kept index before it. */
  lemma KeptIsFar(hashes: seq<seq<char>>, ids: seq<int>, threshold: int, b: nat, k: nat)
    requires |ids| == |hashes|
    requires var kept := Dedup(hashes, ids, threshold).kept;
             b < |kept| && k < |kept| && kept[k] < kept[b]
    ensures var kept := Dedup(hashes, ids, threshold).kept;
            HammingDistance(hashes[kept[b]], hashes[kept[k]]) > threshold
  {
    var kept := Dedup(hashes, ids, threshold).kept;
    DedupOrdered(hashes, ids, threshold);
    DedupSeparated(hashes, ids, threshold);
    assert k < b;
  }

  /** A dropped index lies within the threshold of an earlier kept index. */
  lemma DroppedIsNear(hashes: seq<seq<char>>, ids: seq<int>, threshold: int, i: nat)
    requires |ids| == |hashes| && i < |hashes|
    requires i !in Dedup(hashes, ids, threshold).kept
    ensures var kept := Dedup(hashes, ids, threshold).kept;
            exists k :: 0 <= k < |kept| && kept[k] < i &&
              HammingDistance(hashes[i], hashes[kept[k]]) <= threshold
  {
    var r := Dedup(hashes, ids, threshold);
    DedupDuplicates(hashes, ids, threshold);
    var dropped := Dropped(r.kept, |hashes|);
    DroppedMembers(r.kept, |hashes|, i);
    var m :| 0 <= m < |dropped| && dropped[m] == i;
    RecordsDroppedAt(hashes, ids, threshold, r.kept, dropped, r.duplicates, m);
    FirstMatchSpec(hashes, i, r.kept, threshold);
    var k := FirstMatch(hashes, i, r.kept, threshold).value;
    assert r.kept[k] < i;
  }

  /**
    The greedy rule: a later index is kept exactly when every kept index
    before it is farther away than the threshold.
  */
  lemma DedupKeptCharacterization(hashes: seq<seq<char>>, ids: seq<int>, threshold: int, i: nat)
    requires |ids| == |hashes| && i < |hashes|
    ensures var kept := Dedup(hashes, ids, threshold).kept;
            i in kept <==>
              forall k :: 0 <= k < |kept| && kept[k] < i ==>
                HammingDistance(hashes[i], hashes[kept[k]]) > threshold
  {
    var kept := Dedup(hashes, ids, threshold).kept;
    if i in kept {
      var b :| 0 <= b < |kept| && kept[b] == i;
      forall k | 0 <= k < |kept| && kept[k] < i
        ensures HammingDistance(hashes[i], hashes[kept[k]]) > threshold
      {
        KeptIsFar(hashes, ids, threshold, b, k);
      }
    } else {
      DroppedIsNear(hashes, ids, threshold, i);
    }
  }

  // Idempotence

  /** The indices 0 .. n-1 in order. */
  function Range(n: nat): (r: seq<nat>)
    ensures |r| == n && forall k :: 0 <= k < n ==> r[k] == k
  {
    if n == 0 then [] else Range(n - 1) + [n - 1]
  }

  /** Every hash is farther than the threshold from every earlier hash. */
  ghost predicate AllSeparated(hashes: seq<seq<char>>, threshold: int)
  {
    forall a, b :: 0 <= a < b < |hashes| ==> HammingDistance(hashes[b], hashes[a]) > threshold
  }

  lemma StepKeepsSeparated(hashes: seq<seq<char>>, ids: seq<int>, threshold: int, i: nat)
    requires |ids| == |hashes| && i < |hashes|
    requires AllSeparated(hashes, threshold)
    ensures DedupStep(hashes, ids, threshold, DedupResult(Range(i), []), i) == DedupResult(Range(i + 1), [])
  {
    var prev := Range(i);
    forall k | 0 <= k < |prev|
      ensures HammingDistance(hashes[i], hashes[prev[k]]) > threshold
    {
      assert prev[k] == k;
    }
    FirstMatchSpec(hashes, i, prev, threshold);
    assert FirstMatch(hashes, i, prev, threshold).None?;
  }

  lemma {:induction false} DedupPrefixKeepsSeparated(hashes: seq<seq<char>>, ids: seq<int>, threshold: int, n: nat)
    requires |ids| == |hashes| && 1 <= n <= |hashes|
    requires AllSeparated(hashes, threshold)
    ensures DedupPrefix(hashes, ids, threshold, n) == DedupResult(Range(n), [])
    decreases n
  {
    if n > 1 {
      DedupPrefixKeepsSeparated(hashes, ids, threshold, n - 1);
      StepKeepsSeparated(hashes, ids, threshold, n - 1);
    } else {
      assert Range(1) == [0];
    }
  }

  /** Deduplicating the kept hashes again keeps every one of them and drops nothing. */
  lemma DedupIdempotent(hashes: seq<seq<char>>, ids: seq<int>, threshold: int)
    requires |ids| == |hashes|
    ensures var r := Dedup(hashes, ids, threshold);
            var again := Dedup(Select(hashes, r.kept), Select(ids, r.kept), threshold);
            again.kept == Range(|r.kept|) && again.duplicates == []
            && Select(Select(hashes, r.kept), again.kept) == Select(hashes, r.kept)
  {
    var r := Dedup(hashes, ids, threshold);
    var h2 := Select(hashes, r.kept);
    var ids2 := Select(ids, r.kept);
    DedupSeparated(hashes, ids, threshold);
    assert AllSeparated(h2, threshold) by {
      forall a, b | 0 <= a < b < |h2|
        ensures HammingDistance(h2[b], h2[a]) > threshold
      {
        assert h2[b] == hashes[r.kept[b]] && h2[a] == hashes[r.kept[a]];
      }
    }
    if |h2| > 0 {
      DedupPrefixKeepsSeparated(h2, ids2, threshold, |h2|);
    }
  }
}
