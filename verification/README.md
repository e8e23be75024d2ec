# Reverse speech-end detection for stimulus recordings

The build step `build/analyze_stimuli.py` measures how long the speech in each stimulus
recording really lasts, so that the scoring app can place its reference marker at the
end of speech instead of at the end of the file with its padding and trailing silence.
It slides an energy window of `frame_length` samples over the recording and marks
each frame as above or below an energy threshold. Then it searches backward from the
last frame for the last stretch of at least `min_frames` consecutive above-threshold
frames. Speech ends one window past that stretch's last frame. If there is no such
stretch, the recording's full duration is used and "no speech detected" is logged.

This project models that search and that fallback in Dafny:

- `wrappers.dfy`: `Option`, standing for the source's value-or-`None` return.
- `speech_end.dfy` (module `SpeechEnd`): the detector `DetectSpeechEnd` as a backward
  `while` loop over a `seq<bool>` of above-threshold flags. It is proved against a
  functional definition. `IsRun` is a non-empty stretch of above-threshold frames.
  `IsSustained` is a stretch of at least `minFrames` frames. `IsMaximalRun` is a
  stretch that cannot be extended. `IsLastQualifyingRun` is the rightmost maximal
  stretch of at least `minFrames` frames. `IsSpeechEnd` is the answer's meaning:
  `None` exactly when no sustained stretch exists, otherwise the end of the rightmost
  qualifying run plus `frameLength`.
- `stimulus_duration.dfy` (module `StimulusDuration`): the per-recording measurement
  in `main`. It runs the detector with `MIN_FRAMES = 4`, falls back to the full
  length, and bounds the trimmed amount.

Positions are integer samples. The source turns the detected sample into milliseconds
by dividing by the sample rate. It divides the total length the same way, so for a
positive sample rate "content end ≤ total" and "trimmed ≥ 0" mean the same thing in
either unit. `minFrames` and `frameLength` are unbounded integers, like Python's. A
stretch is non-empty by definition, so a `minFrames` of zero or less means "any
above-threshold frame". That matches the code, which only returns after finding an
above-threshold frame.

## Model

| member | source | states |
|---|---|---|
| SpeechEnd.DetectSpeechEnd | build/analyze_stimuli.py:85-120 | The result meets `IsSpeechEnd`. Fewer frames than `min_frames` gives `None`. The result is `None` exactly when no stretch of ≥ `min_frames` above-threshold frames exists. A returned sample minus `frame_length` is a frame index in range and the end of the rightmost maximal run of ≥ `min_frames` frames, which is maximal on both sides. No sustained stretch ends after it. The loop terminates because the cursor strictly decreases. |
| SpeechEnd.RunStartAt | build/analyze_stimuli.py:107-110 | The backward walk from an above-threshold frame stops at a frame such that everything from it up to the starting frame is above threshold, and it is frame 0 or its left neighbour is below threshold. |
| SpeechEnd.ShortRunBlocks | build/analyze_stimuli.py:111-118 | Skipping a run shorter than `min_frames`, whose left neighbour is below threshold, loses nothing: no sustained stretch ends inside it. |
| SpeechEnd.SustainedInsideQualifying | build/analyze_stimuli.py:91-92 | Every stretch of ≥ `min_frames` consecutive above-threshold frames lies inside a maximal run that is at least as long. |
| SpeechEnd.SustainedIffQualifying | build/analyze_stimuli.py:98-120 | Some stretch of ≥ `min_frames` above-threshold frames exists if and only if some maximal run of ≥ `min_frames` frames exists. The scan's maximal-run view and the "consecutive frames" view therefore agree. |
| SpeechEnd.LastQualifyingIffNoLaterSustained | build/analyze_stimuli.py:100-118 | A qualifying maximal run is the rightmost one if and only if no sustained stretch, maximal or not, ends after it. |
| SpeechEnd.SpeechEndIsDetermined | build/analyze_stimuli.py:85-120 | At most one answer satisfies `IsSpeechEnd`, so the functional definition fixes the detector's result completely. |
| SpeechEnd.NoiseSpikeIsSkipped | build/analyze_stimuli.py:111-118 | For the flags `T T T T F T F` with `min_frames = 4` and `frame_length = 10`, the one-frame spike at frame 5 is skipped and the answer is sample 13. |
| StimulusDuration.MeasureStimulus | build/analyze_stimuli.py:157-168 | "No speech detected" is logged exactly when no sustained stretch exists. In that case the content end is the full length and nothing is trimmed. Otherwise the content end is the end of the last qualifying run plus `frame_length`, which is at least `frame_length + MIN_FRAMES - 1`. With valid-mode framing (`frames = samples - frame_length + 1`), the trimmed amount is never negative. |

## Left out

- Decoding the MP3 and probing its sample rate through `ffmpeg`/`ffprobe` (lines 50-73): external processes and I/O.
- `rolling_energy_db` (lines 76-82): numpy convolution, `log10` and float32 arithmetic. Its output appears only as the `above` flags. The frame count it yields is a parameter. `MeasureStimulus` claims the trimmed-amount bound only for valid-mode framing, where there is one frame per full window. numpy's `convolve` swaps its operands when the signal is shorter than one window, giving `frame_length - samples + 1` frames. The bound is not claimed for such sub-window recordings.
- The comparison `energy_db > threshold_db` (line 98) on floats: the model takes its boolean outcome per frame. The threshold of -40 dB and the 10 ms frame size are therefore not constants of the model.
- The conversion of samples to milliseconds and the rounding to one decimal (lines 115, 155, 167): floating point. Results stay in integer samples.
- `strip_accents` (lines 42-47) and the `voice_word` key built from it: they depend on Unicode NFD decomposition and the character-category database.
- Directory walking, per-file exception handling, JSON output, timestamps and console printing in `main` (lines 123-202).
