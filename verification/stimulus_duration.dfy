/**
 The per-stimulus measurement: detect where speech content ends and, when the detector
 finds no sustained speech, fall back to the full duration of the recording and log
 "no speech detected". All positions are in samples.
 */
module StimulusDuration {
  import opened Wrappers
  import opened SpeechEnd

  /** Minimum number of consecutive above-threshold frames that count as speech. */
  const MinFrames: int := 4

  /** What is recorded for one stimulus: where its content ends, and whether the
      "no speech detected" warning was logged for it. */
  datatype Measurement = Measurement(contentEnd: int, noSpeech: bool)

  /** The fallback rule: no detected end means the whole recording is content. */
  function WithFallback(detected: Option<int>, totalSamples: int): Measurement
  {
    match detected
    case None => Measurement(totalSamples, true)
    case Some(end) => Measurement(end, false)
  }

  /** Trailing samples cut off after the content end (padding and trailing silence). */
  function Trimmed(m: Measurement, totalSamples: int): int
  {
    totalSamples - m.contentEnd
  }

  /**
   Measures one stimulus of `totalSamples` samples whose rolling energy windows of
   `frameLength` samples are classified by `above`. When the frames are the windows of a
   valid-mode convolution (`|above| == totalSamples - frameLength + 1`), the content end
   never lies beyond the recording, so the trimmed amount is never negative.
   */
  method MeasureStimulus(above: seq<bool>, frameLength: int, totalSamples: int) returns (m: Measurement)
    ensures m.noSpeech <==> !HasSustainedRun(above, MinFrames)
    ensures m.noSpeech ==> m.contentEnd == totalSamples && Trimmed(m, totalSamples) == 0
    ensures !m.noSpeech ==> EndsLastQualifyingRun(above, m.contentEnd - frameLength, MinFrames)
    ensures !m.noSpeech ==> m.contentEnd >= frameLength + MinFrames - 1
    ensures |above| == totalSamples - frameLength + 1 ==> Trimmed(m, totalSamples) >= 0
  {
    var detected := DetectSpeechEnd(above, frameLength, MinFrames);
    m := WithFallback(detected, totalSamples);
  }
}
