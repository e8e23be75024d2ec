/**
 Reverse speech-end detection over per-frame voice-activity flags.

 Frame `k` is the rolling energy window covering samples `k .. k + frameLength - 1`;
 `above[k]` says whether its energy exceeds the threshold. The detector looks for the
 last stretch of at least `minFrames` consecutive above-threshold frames and reports
 the sample just past that stretch's last window.
 */
module SpeechEnd {
  import opened Wrappers

  /** Frames `a..b` (both inclusive) are a non-empty stretch of above-threshold frames. */
  predicate IsRun(above: seq<bool>, a: int, b: int)
  {
    0 <= a <= b < |above| && forall k :: a <= k <= b ==> above[k]
  }

  /** A stretch long enough to count as sustained speech rather than a noise spike. */
  predicate IsSustained(above: seq<bool>, a: int, b: int, minFrames: int)
  {
    IsRun(above, a, b) && b - a + 1 >= minFrames
  }

  /** A stretch that cannot be extended on either side. */
  predicate IsMaximalRun(above: seq<bool>, a: int, b: int)
  {
    IsRun(above, a, b) && (a == 0 || !above[a - 1]) && (b == |above| - 1 || !above[b + 1])
  }

  /** A maximal stretch that is long enough. */
  predicate IsQualifyingRun(above: seq<bool>, a: int, b: int, minFrames: int)
  {
    IsMaximalRun(above, a, b) && b - a + 1 >= minFrames
  }

  ghost predicate HasSustainedRun(above: seq<bool>, minFrames: int)
  {
    exists a, b :: IsSustained(above, a, b, minFrames)
  }

  ghost predicate HasQualifyingRun(above: seq<bool>, minFrames: int)
  {
    exists a, b :: IsQualifyingRun(above, a, b, minFrames)
  }

  /** `a..b` is the rightmost maximal stretch of at least `minFrames` frames. */
  ghost predicate IsLastQualifyingRun(above: seq<bool>, a: int, b: int, minFrames: int)
  {
    IsQualifyingRun(above, a, b, minFrames) &&
    forall a', b' :: IsQualifyingRun(above, a', b', minFrames) ==> b' <= b
  }

  /** Frame `b` ends the rightmost qualifying run. */
  ghost predicate EndsLastQualifyingRun(above: seq<bool>, b: int, minFrames: int)
  {
    exists a :: IsLastQualifyingRun(above, a, b, minFrames)
  }

  /** The functional meaning of the detector's answer: `None` exactly when there is no
      sustained stretch, otherwise the sample just past the rightmost qualifying run. */
  ghost predicate IsSpeechEnd(above: seq<bool>, frameLength: int, minFrames: int, r: Option<int>)
  {
    (r.None? <==> !HasSustainedRun(above, minFrames)) &&
    (r.Some? ==> EndsLastQualifyingRun(above, r.value - frameLength, minFrames))
  }

  /** First frame of the maximal stretch through the above-threshold frame `k`. */
  function RunStartAt(above: seq<bool>, k: int): (s: int)
    requires 0 <= k < |above| && above[k]
    ensures IsRun(above, s, k) && (s == 0 || !above[s - 1])
    decreases k
  {
    if k == 0 || !above[k - 1] then k else RunStartAt(above, k - 1)
  }

  /** Last frame of the maximal stretch through the above-threshold frame `k`. */
  function RunEndAt(above: seq<bool>, k: int): (e: int)
    requires 0 <= k < |above| && above[k]
    ensures IsRun(above, k, e) && (e == |above| - 1 || !above[e + 1])
    decreases |above| - k
  {
    if k == |above| - 1 || !above[k + 1] then k else RunEndAt(above, k + 1)
  }

  /** Every sustained stretch lies inside a qualifying maximal run. */
  lemma SustainedInsideQualifying(above: seq<bool>, a: int, b: int, minFrames: int)
    requires IsSustained(above, a, b, minFrames)
    ensures var s, e := RunStartAt(above, a), RunEndAt(above, b);
      s <= a && b <= e && IsQualifyingRun(above, s, e, minFrames)
  {
  }

  /** "Some stretch of at least `minFrames` frames exists" and "some maximal run of at
      least `minFrames` frames exists" are the same condition. */
  lemma SustainedIffQualifying(above: seq<bool>, minFrames: int)
    ensures HasSustainedRun(above, minFrames) <==> HasQualifyingRun(above, minFrames)
  {
    if HasSustainedRun(above, minFrames) {
      var a, b :| IsSustained(above, a, b, minFrames);
      SustainedInsideQualifying(above, a, b, minFrames);
      var s, e := RunStartAt(above, a), RunEndAt(above, b);
      assert IsQualifyingRun(above, s, e, minFrames);
    }
    if HasQualifyingRun(above, minFrames) {
      var a, b :| IsQualifyingRun(above, a, b, minFrames);
      assert IsSustained(above, a, b, minFrames);
    }
  }

  /** A maximal run is the rightmost qualifying one exactly when no sustained stretch,
      maximal or not, ends after it. */
  lemma LastQualifyingIffNoLaterSustained(above: seq<bool>, a: int, b: int, minFrames: int)
    requires IsQualifyingRun(above, a, b, minFrames)
    ensures IsLastQualifyingRun(above, a, b, minFrames) <==>
      forall a', b' :: IsSustained(above, a', b', minFrames) ==> b' <= b
  {
    if IsLastQualifyingRun(above, a, b, minFrames) {
      forall a', b' | IsSustained(above, a', b', minFrames)
        ensures b' <= b
      {
        SustainedInsideQualifying(above, a', b', minFrames);
      }
    } else if forall a', b' :: IsSustained(above, a', b', minFrames) ==> b' <= b {
      forall a', b' | IsQualifyingRun(above, a', b', minFrames)
        ensures b' <= b
      {
        assert IsSustained(above, a', b', minFrames);
      }
    }
  }

  /** A too-short run whose left neighbour is below threshold blocks every sustained
      stretch from ending inside it. */
  lemma ShortRunBlocks(above: seq<bool>, s: int, e: int, minFrames: int)
    requires IsRun(above, s, e) && (s == 0 || !above[s - 1])
    requires e - s + 1 < minFrames
    ensures forall a, b :: IsSustained(above, a, b, minFrames) && b <= e ==> b < s
  {
  }

  /**
   Scans backward from the last frame. A below-threshold frame is skipped; an
   above-threshold frame is the end of a run whose start is found by walking further
   back. A long enough run ends the search; a shorter one (a noise spike) is skipped
   as a whole.
   */
  method DetectSpeechEnd(above: seq<bool>, frameLength: int, minFrames: int) returns (r: Option<int>)
    ensures IsSpeechEnd(above, frameLength, minFrames, r)
    ensures |above| < minFrames ==> r == None
    ensures r == None <==> !HasSustainedRun(above, minFrames)
    ensures r.Some? ==> frameLength <= r.value < |above| + frameLength
    ensures r.Some? ==> EndsLastQualifyingRun(above, r.value - frameLength, minFrames)
    ensures r.Some? ==> forall a, b :: IsSustained(above, a, b, minFrames) ==> b <= r.value - frameLength
  {
    var n := |above|;
    if n < minFrames {
      return None;
    }
    var i := n - 1;
    while i >= 0
      invariant -1 <= i < n
      invariant 0 <= i < n - 1 && above[i] ==> !above[i + 1]
      invariant forall a, b :: IsSustained(above, a, b, minFrames) ==> b <= i
      decreases i + 1
    {
      if !above[i] {
        i := i - 1;
        continue;
      }
      var runEnd := i;
      var runStart := i;
      while runStart > 0 && above[runStart - 1]
        invariant IsRun(above, runStart, runEnd)
      {
        runStart := runStart - 1;
      }
      var runLength := runEnd - runStart + 1;
      if runLength >= minFrames {
        assert IsSustained(above, runStart, runEnd, minFrames);
        LastQualifyingIffNoLaterSustained(above, runStart, runEnd, minFrames);
        return Some(runEnd + frameLength);
      }
      ShortRunBlocks(above, runStart, runEnd, minFrames);
      i := runStart - 1;
    }
    return None;
  }

  /** The functional meaning pins the answer down: at most one result satisfies it. */
  lemma SpeechEndIsDetermined(above: seq<bool>, frameLength: int, minFrames: int, r1: Option<int>, r2: Option<int>)
    requires IsSpeechEnd(above, frameLength, minFrames, r1)
    requires IsSpeechEnd(above, frameLength, minFrames, r2)
    ensures r1 == r2
  {
  }

  /** A four-frame utterance followed by a one-frame noise spike: the spike is skipped
      and speech ends one window past the utterance's last frame. */
  lemma {:induction false} NoiseSpikeIsSkipped(r: Option<int>)
    requires IsSpeechEnd([true, true, true, true, false, true, false], 10, 4, r)
    ensures r == Some(13)
  {
    var above := [true, true, true, true, false, true, false];
    assert IsSustained(above, 0, 3, 4);
    assert IsQualifyingRun(above, 0, 3, 4);
    forall a', b' | IsQualifyingRun(above, a', b', 4)
      ensures b' <= 3
    {
      assert above[a'] && above[b'];
    }
    assert IsLastQualifyingRun(above, 0, 3, 4);
    SpeechEndIsDetermined(above, 10, 4, r, Some(13));
  }
}
