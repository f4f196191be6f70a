/** The per-frame sound feedback: how one analyser sample becomes a volume, a confidence
    percentage and a glow decision.  Exact reals stand for the browser's floating point. */
module Feedback {

  /** One frequency-bin amplitude as the analyser's byte buffer holds it. */
  type Byte = x: int | 0 <= x < 256

  /** The analyser's transform size and the number of bins it reports, half of it. */
  const FftSize: nat := 256
  const BinCount: nat := FftSize / 2

  /** Glow is on when the volume, not the confidence, exceeds this. */
  const GlowThreshold: real := 35.0

  /** The sum of a sample's bins, as the `reduce` with `+` folds them; n bytes sum to at
      most 255 n. */
  function Sum(s: seq<Byte>): (total: int)
    ensures 0 <= total <= 255 * |s|
  {
    if s == [] then 0 else s[0] + Sum(s[1..])
  }

  lemma {:induction false} SumConstant(s: seq<Byte>, c: Byte)
    requires forall i :: 0 <= i < |s| ==> s[i] == c
    ensures Sum(s) == c * |s|
  {
    if s != [] {
      SumConstant(s[1..], c);
    }
  }

  /** The mean amplitude of a non-empty sample; it stays within the byte range. */
  function Volume(s: seq<Byte>): (v: real)
    requires |s| > 0
    ensures 0.0 <= v <= 255.0
  {
    MeanBounds(Sum(s), |s|);
    (Sum(s) as real) / (|s| as real)
  }

  lemma MeanBounds(total: int, n: nat)
    requires n > 0 && 0 <= total <= 255 * n
    ensures 0.0 <= (total as real) / (n as real) <= 255.0
  {
    assert (total as real) <= 255.0 * (n as real);
  }

  /** A total of c per bin averages to c. */
  lemma MeanOfMultiple(total: int, n: nat, c: int)
    requires n > 0 && total == c * n
    ensures (total as real) / (n as real) == c as real
  {
    assert (total as real) == (c as real) * (n as real);
  }

  /** The bar percentage: one and a half times the volume, capped at 100. */
  function Confidence(volume: real): (c: real)
    ensures c <= 100.0
    ensures 0.0 <= volume ==> 0.0 <= c
    ensures c == 100.0 <==> volume * 1.5 >= 100.0
    ensures c < 100.0 ==> c == volume * 1.5
  {
    if volume * 1.5 < 100.0 then volume * 1.5 else 100.0
  }

  /** Whether the neon and voice-react classes are switched on for this volume.  The single
      threshold, seen through the bar: glowing is the same as a bar past 52.5%. */
  predicate Glow(volume: real)
    ensures Glow(volume) <==> Confidence(volume) > 52.5
  {
    volume > GlowThreshold
  }

  // ---------------------------------------------------------------------------
  // Facts about the derived feedback

  /** For any sample, volume and confidence lie in their ranges. */
  lemma FeedbackBounds(s: seq<Byte>)
    requires |s| > 0
    ensures 0.0 <= Volume(s) <= 255.0
    ensures 0.0 <= Confidence(Volume(s)) <= 100.0
  {
  }

  /** A sample whose every bin holds the same amplitude has that amplitude as its volume. */
  lemma ConstantSampleVolume(s: seq<Byte>, c: Byte)
    requires |s| > 0
    requires forall i :: 0 <= i < |s| ==> s[i] == c
    ensures Volume(s) == c as real
  {
    SumConstant(s, c);
    MeanOfMultiple(Sum(s), |s|, c);
  }

  /** Silence: all bins zero give volume 0, an empty bar and no glow. */
  lemma SilentSample(s: seq<Byte>)
    requires |s| > 0
    requires forall i :: 0 <= i < |s| ==> s[i] == 0
    ensures Volume(s) == 0.0 && Confidence(Volume(s)) == 0.0 && !Glow(Volume(s))
  {
    ConstantSampleVolume(s, 0);
  }

  /** A sample averaging 80 fills the bar (min(120, 100)) and glows. */
  lemma LoudSample(s: seq<Byte>)
    requires |s| > 0
    requires Sum(s) == 80 * |s|
    ensures Volume(s) == 80.0 && Confidence(Volume(s)) == 100.0 && Glow(Volume(s))
  {
    MeanOfMultiple(Sum(s), |s|, 80);
  }

  /** Louder samples never give a lower bar, and never switch glow off. */
  lemma FeedbackMonotone(quiet: real, loud: real)
    requires quiet <= loud
    ensures Confidence(quiet) <= Confidence(loud)
    ensures Glow(quiet) ==> Glow(loud)
  {
  }
}
