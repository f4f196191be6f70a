/** The voice widget's page state and the event handlers that change it.  The fields are
    the script's module-level variables (the final transcript and the microphone flag) and
    the element properties the handlers write: the output box's value, the status line's
    text, the container's transform and `neon` class, the background's `voice-react` class
    and the confidence bar's width. */
module Widget {
  import opened Transcript
  import opened Feedback

  /** The container's CSS transform: "none", or a lift of `rise` pixels and a tilt of
      `tilt` degrees about the horizontal axis. */
  datatype Transform = NoTransform | Lifted(rise: real, tilt: real)

  /** How the awaited part of one start resolves: the microphone is granted and the audio
      setup succeeds, with the analyser's first sample; the microphone is granted but the
      audio setup after it throws; or the microphone is refused. */
  datatype MicAccess = Granted(sample: seq<Byte>) | SetupFailed | Denied

  const ListeningStatus := "Listening..."
  const DeniedStatus := "Microphone permission denied"
  const StoppedStatus := "Stopped"
  const ErrorPrefix := "Error: "

  class Widget {
    var finalTranscript: string
    var output: string
    var status: string
    var micAllowed: bool
    var transform: Transform
    var barWidth: real
    var neon: bool
    var voiceReact: bool

    /** The visuals show either nothing ("none", an empty bar, no glow) or one frame of some
        volume: its lift and tilt, its confidence as the bar, and glow exactly above the
        threshold, on both elements alike. */
    ghost predicate Coherent()
      reads this
    {
      neon == voiceReact &&
      match transform
      case NoTransform => barWidth == 0.0 && !neon
      case Lifted(rise, tilt) =>
        var volume := rise * 12.0;
        0.0 <= volume <= 255.0 && tilt == volume / 25.0 &&
        barWidth == Confidence(volume) && neon == Glow(volume)
    }

    /** The invariant every handler keeps: the output box starts with the final transcript,
        the visuals are coherent, and the bar is a percentage (the last conjunct already
        follows from Coherent through Confidence's bounds; it is repeated for the reader). */
    ghost predicate Valid()
      reads this
    {
      finalTranscript <= output && Coherent() && 0.0 <= barWidth <= 100.0
    }

    /** The visual state after a teardown. */
    ghost predicate Neutral()
      reads this
    {
      !micAllowed && transform == NoTransform && barWidth == 0.0 && !neon && !voiceReact
    }

    /** The page as loaded: nothing transcribed, no microphone, no effects. */
    constructor ()
      ensures Valid() && Neutral()
      ensures finalTranscript == "" && output == "" && status == ""
    {
      finalTranscript, output, status := "", "", "";
      micAllowed := false;
      transform, barWidth, neon, voiceReact := NoTransform, 0.0, false, false;
    }

    /** The start button's synchronous part: clear the transcript and the output box.  The
        recognizer's start that follows is a foreign call; when it returns normally, the
        awaited microphone request after it is StartAudioListener. */
    method StartClick()
      requires Valid()
      modifies this`finalTranscript, this`output
      ensures Valid()
      ensures finalTranscript == "" && output == ""
    {
      finalTranscript := "";
      output := "";
    }

    /** The outcome of the microphone request and audio setup, which one `catch` guards.
        Granted: the flag goes up, the status says listening and the first frame runs.
        SetupFailed: the flag was already raised when the setup threw, so it stays up, the
        catch writes the denial status, and no frame runs.  Denied: only the status changes. */
    method StartAudioListener(access: MicAccess)
      requires Valid()
      requires access.Granted? ==> |access.sample| == BinCount
      modifies this
      ensures Valid()
      ensures finalTranscript == old(finalTranscript) && output == old(output)
      ensures access.Denied? ==>
        status == DeniedStatus && micAllowed == old(micAllowed) &&
        transform == old(transform) && barWidth == old(barWidth) &&
        neon == old(neon) && voiceReact == old(voiceReact)
      ensures access.SetupFailed? ==>
        status == DeniedStatus && micAllowed &&
        transform == old(transform) && barWidth == old(barWidth) &&
        neon == old(neon) && voiceReact == old(voiceReact)
      ensures access.Granted? ==>
        var volume := Volume(access.sample);
        status == ListeningStatus && micAllowed &&
        transform == Lifted(volume / 12.0, volume / 25.0) &&
        barWidth == Confidence(volume) && neon == Glow(volume) && voiceReact == Glow(volume)
    {
      match access
      case Granted(sample) =>
        micAllowed := true;
        status := ListeningStatus;
        Frame(sample);
      case SetupFailed =>
        micAllowed := true;
        status := DeniedStatus;
      case Denied =>
        status := DeniedStatus;
    }

    /** Tear down the audio side: the flag goes down and every visual returns to neutral.
        Closing the audio context and cancelling the pending frame are foreign calls. */
    method StopAudioListener()
      requires Valid()
      modifies this`micAllowed, this`transform, this`barWidth, this`neon, this`voiceReact
      ensures Valid() && Neutral()
    {
      micAllowed := false;
      neon := false;
      voiceReact := false;
      transform := NoTransform;
      barWidth := 0.0;
    }

    /** One animation frame with the analyser's current sample.  Without the microphone the
        frame returns at once and changes nothing. */
    method Frame(sample: seq<Byte>)
      requires Valid()
      requires |sample| == BinCount
      modifies this`transform, this`barWidth, this`neon, this`voiceReact
      ensures Valid()
      ensures !micAllowed ==>
        transform == old(transform) && barWidth == old(barWidth) &&
        neon == old(neon) && voiceReact == old(voiceReact)
      ensures micAllowed ==>
        var volume := Volume(sample);
        transform == Lifted(volume / 12.0, volume / 25.0) &&
        barWidth == Confidence(volume) && neon == Glow(volume) && voiceReact == Glow(volume)
    {
      if !micAllowed {
        return;
      }
      var volume := Volume(sample);
      transform := Lifted(volume / 12.0, volume / 25.0);
      var confidence := Confidence(volume);
      barWidth := confidence;
      if volume > GlowThreshold {
        neon := true;
        voiceReact := true;
      } else {
        neon := false;
        voiceReact := false;
      }
    }

    /** A result event: each new final result extends the final transcript by its text and
        a space; the new non-final texts form this batch's interim text, built afresh; the
        output box shows the final transcript followed by that interim text. */
    method OnResult(results: seq<SpeechResult>, resultIndex: nat)
      requires Valid()
      modifies this`finalTranscript, this`output
      ensures Valid()
      ensures finalTranscript == old(finalTranscript) + Finals(results, resultIndex)
      ensures output == finalTranscript + Interims(results, resultIndex)
    {
      var interim := "";
      var i := resultIndex;
      while i < |results|
        invariant resultIndex <= i
        invariant i > |results| ==> i == resultIndex
        invariant i <= |results| ==>
          finalTranscript == old(finalTranscript) + Gather(results, resultIndex, i, FinalPiece) &&
          interim == Gather(results, resultIndex, i, InterimPiece)
        invariant i > |results| ==> finalTranscript == old(finalTranscript) && interim == ""
        decreases |results| - i
      {
        var text := results[i].transcript;
        if results[i].isFinal {
          finalTranscript := finalTranscript + text + " ";
        } else {
          interim := interim + text;
        }
        i := i + 1;
      }
      FinalsAndInterimsByGather(results, resultIndex);
      output := finalTranscript + interim;
    }

    /** The recognizer ended, on request or by itself: the status says stopped and the
        audio side is torn down. */
    method OnEnd()
      requires Valid()
      modifies this
      ensures Valid() && Neutral()
      ensures status == StoppedStatus
      ensures finalTranscript == old(finalTranscript) && output == old(output)
    {
      status := StoppedStatus;
      StopAudioListener();
    }

    /** A recognizer error: only the status line changes, to the prefix and the code. */
    method OnError(code: string)
      requires Valid()
      modifies this`status
      ensures Valid()
      ensures status == ErrorPrefix + code
    {
      status := ErrorPrefix + code;
    }
  }
}
