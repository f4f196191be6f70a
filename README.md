# Voice-to-Text widget, modelled in Dafny

`voice.js` drives a small browser widget. It streams speech recognition results into a
text box and makes a container glow and tilt in time with the microphone's volume. This
project models the three parts of the script that hold logic:

- **the transcript accumulator** (the recognizer's `onresult` handler). Each new final
  result appends its text and a space to a persistent `finalTranscript`. Non-final results
  form an interim text that is rebuilt for every batch. The output box shows
  `finalTranscript` followed by the interim text.
- **the per-frame feedback mapping** (`animateBySound`). The volume is the mean of the
  analyser's 128 byte bins. The confidence bar is `min(volume * 1.5, 100)` percent. Both
  glow classes are on exactly when the volume exceeds 35.
- **the session state**: the `micAllowed` flag, the status line, the output box and the
  visual element properties. They change through the start button, the microphone request's
  success or denial, `stopAudioListener`, animation frames, and the recognizer's `end` and
  `error` events.

Files:

- `transcript.dfy` (module `Transcript`): result batches; the functions `Finals` and
  `Interims`, which specify what a batch adds; and lemmas about them. These include an
  independent select-then-join reading, the irrelevance of results below `resultIndex`,
  and the fact that over a whole session each final text is counted exactly once.
- `feedback.dfy` (module `Feedback`): `Volume`, `Confidence` and `Glow` over exact reals,
  with their bounds and the silent and loud cases.
- `widget.dfy` (module `Widget`): the class `Widget`. Its fields mirror the script's
  module-level variables and the element properties the handlers write. It has one method
  per handler. Every method keeps the invariant `Valid()`:
  - the output box begins with the final transcript;
  - the glow classes agree with each other;
  - the transform, bar and glow either are neutral or all come from one frame's volume;
  - the bar stays within 0..100.

Three points about what the script does:

- `stopAudioListener` itself does not write the status line. Only the `end` handler sets it
  to "Stopped" before tearing down (voice.js:113-116). So `StopAudioListener` promises the
  neutral visual state, and `OnEnd` promises that state plus the "Stopped" status.
- The code has a single glow threshold, on the volume (voice.js:78), and never sets the
  bar's colour.
- A late microphone grant after an `end` event raises `micAllowed` again. The code has no
  guard against this, and the model has none either: `StartAudioListener(Granted(_))`
  succeeds in any valid state.

## Model

| member | source | states |
|---|---|---|
| `Widget.Widget.OnResult` | voice.js:102-110 | the final transcript becomes the old one followed by `Finals(results, resultIndex)`; the output box becomes the new final transcript followed by that batch's `Interims` alone (nothing of the old interim text survives); the output still begins with the final transcript |
| `Transcript.Finals` | voice.js:104-106 | the text a batch appends to the final transcript is exactly its final results from `resultIndex` on, each once, in index order, each followed by one space |
| `Transcript.Interims` | voice.js:103-107 | a batch's interim text is exactly its non-final results from `resultIndex` on, run together in index order |
| `Transcript.EarlierResultsIgnored` | voice.js:104 | results with index below `resultIndex` affect neither the final text added nor the interim text shown |
| `Transcript.NoFinalsNoChange` | voice.js:106 | a batch with no final result at or after `resultIndex` leaves the final transcript unchanged |
| `Transcript.StepKeepsAllFinals` | voice.js:104-106 | when the recognizer redelivers earlier results unchanged and restarts at the first still-interim index, the transcript goes on equalling all final texts of the current result list |
| `Transcript.StreamCountsEachFinalOnce` | voice.js:102-110 | over a whole session started from the empty transcript, the final transcript is every final text of the latest result list, each exactly once, in order, each followed by a space |
| `Feedback.Sum` | voice.js:67 | the `reduce` sum of n byte bins lies in 0..255n |
| `Feedback.Volume` | voice.js:65-67 | the mean of a non-empty byte sample lies in [0, 255] |
| `Feedback.Confidence` | voice.js:74 | the confidence is `min(volume * 1.5, 100)`: at most 100, non-negative for a non-negative volume, 100 exactly when `volume * 1.5 >= 100` |
| `Feedback.FeedbackBounds` | voice.js:66-75 | for every sample, the volume is in [0, 255] and the bar percentage in [0, 100] |
| `Feedback.Glow` | voice.js:74-84 | the single glow test `volume > 35` is the same as a bar above 52.5% |
| `Feedback.ConstantSampleVolume` | voice.js:66-67 | a sample whose every bin holds c has volume c |
| `Feedback.SilentSample` | voice.js:66-84 | all bins zero give volume 0, confidence 0 and no glow |
| `Feedback.LoudSample` | voice.js:66-84 | a sample averaging 80 gives volume 80, a full bar (min(120, 100)) and glow |
| `Feedback.FeedbackMonotone` | voice.js:74-84 | a louder frame never gives a lower bar and never turns glow off |
| `Widget.Widget.constructor` | voice.js:23-27 | the state at load: empty transcript, microphone off, neutral visuals |
| `Widget.Widget.StartClick` | voice.js:90-92 | starting empties the final transcript and the output box before any result is handled; everything else is unchanged |
| `Widget.Widget.StartAudioListener` | voice.js:29-48 | granted: `micAllowed` is set, the status is "Listening..." and the first frame's visuals are shown; setup throws after the grant: the flag stays set, the status is "Microphone permission denied" and the visuals are unchanged (no frame runs); denied: the status is "Microphone permission denied" and the flag and all visuals are unchanged (no frame runs); the transcript is untouched in every case |
| `Widget.Widget.StopAudioListener` | voice.js:50-59 | from every valid state: `micAllowed` false, transform "none", bar 0%, neither glow class; the transcript and status are unchanged |
| `Widget.Widget.Frame` | voice.js:62-87 | without the microphone nothing changes (the early return); otherwise the transform is lift volume/12 px and tilt volume/25 deg, the bar is the confidence, and both glow classes equal `volume > 35` |
| `Widget.Widget.OnEnd` | voice.js:113-116 | the status is "Stopped" and the visual state is neutral, from every valid state; the transcript and output are unchanged |
| `Widget.Widget.OnError` | voice.js:118-120 | the status becomes "Error: " followed by the code; nothing else changes (only the status is in its modifies clause), so the microphone flag, the transcript and the visuals are kept |

## Left out

- Locating `SpeechRecognition` under its vendor prefix and the `alert` when it is missing
  (voice.js:1-6), and configuring the recognizer (voice.js:9-12). These are browser APIs.
- Looking up DOM elements and wiring the buttons (voice.js:15-21). The elements' relevant
  properties are plain fields of `Widget`.
- The stop button (voice.js:97-99). It only calls the recognizer's `stop()`, a foreign
  call. The teardown it leads to arrives as the `end` event, which is `OnEnd`.
- `recognition.start()` in the start button (voice.js:93). It is a foreign call. On a
  recognizer that is already running it throws. The click handler then ends after clearing
  the transcript, and no microphone request follows. The model does not capture that path:
  it treats every `StartClick` as possibly followed by `StartAudioListener`.
- `getUserMedia`, `AudioContext`, the analyser and media-source setup, and
  `audioCtx.close()` (voice.js:31-41, 52). These are asynchronous I/O and foreign audio
  calls. The outcome is the `MicAccess` argument of `StartAudioListener`: a grant with the
  analyser's first sample, a grant whose audio setup then throws (`SetupFailed`), or a denial.
- `requestAnimationFrame` and `cancelAnimationFrame` (voice.js:53, 86), which belong to the
  browser's event loop. One frame is one call of `Frame`, and the loop's end is the early
  return when `micAllowed` is false.
- The formatting of the transform string and of the bar width (voice.js:70-71, 75). The
  model keeps the numbers as reals: the lift `volume / 12`, the tilt `volume / 25` and the
  width percentage. "none" and "0%" are `NoTransform` and `0.0`.
- IEEE floating point. The mean and the clamp use exact reals.
- The page's initial markup. It is not in the script, so `Widget.Widget.constructor`
  assumes empty text and neutral styles.
- Audio contexts that a second start leaves open. Resources are not modelled.
