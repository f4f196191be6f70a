/** The transcript side of the widget: the results a speech recognizer delivers in one
    `result` event, and what the `onresult` handler makes of them.  The handler itself,
    which changes the widget's state, is `Widget.Widget.OnResult`; this module holds the
    functions that specify it and the lemmas about them. */
module Transcript {

  /** One entry of a result batch: the best alternative's text and whether the recognizer
      will revise it again. */
  datatype SpeechResult = SpeechResult(transcript: string, isFinal: bool)

  /** What one result adds to the persistent final transcript: its text and a space if it
      is final, nothing otherwise. */
  function FinalPiece(r: SpeechResult): string {
    if r.isFinal then r.transcript + " " else ""
  }

  /** What one result adds to the batch's interim text: its text if it is not final. */
  function InterimPiece(r: SpeechResult): string {
    if r.isFinal then "" else r.transcript
  }

  /** The pieces of rs[lo], ..., rs[hi - 1] concatenated in index order; empty when
      hi <= lo.  This is the value a left-to-right loop builds up after visiting [lo, hi). */
  function Gather(rs: seq<SpeechResult>, lo: nat, hi: nat, piece: SpeechResult -> string): string
    requires hi <= |rs|
    decreases hi
  {
    if hi <= lo then "" else Gather(rs, lo, hi - 1, piece) + piece(rs[hi - 1])
  }

  /** Text appended to the final transcript by a batch whose new results start at `from`:
      exactly the final results from `from` on, each once, in index order and each followed
      by one space. */
  function Finals(rs: seq<SpeechResult>, from: nat): (added: string)
    ensures added == JoinSpaced(Select(Drop(rs, from), true))
  {
    if from <= |rs| then
      assert rs[from..|rs|] == Drop(rs, from);
      GatherSelectsFinals(rs, from, |rs|);
      Gather(rs, from, |rs|, FinalPiece)
    else
      assert Drop(rs, from) == [];
      Gather(rs, from, |rs|, FinalPiece)
  }

  /** The interim text of a batch whose new results start at `from`: exactly the non-final
      results from `from` on, run together in index order. */
  function Interims(rs: seq<SpeechResult>, from: nat): (interim: string)
    ensures interim == Join(Select(Drop(rs, from), false))
  {
    if from <= |rs| then
      assert rs[from..|rs|] == Drop(rs, from);
      GatherSelectsInterims(rs, from, |rs|);
      Gather(rs, from, |rs|, InterimPiece)
    else
      assert Drop(rs, from) == [];
      Gather(rs, from, |rs|, InterimPiece)
  }

  /** Both texts are what a left-to-right pass over [from, |rs|) builds up. */
  lemma FinalsAndInterimsByGather(rs: seq<SpeechResult>, from: nat)
    ensures Finals(rs, from) == Gather(rs, from, |rs|, FinalPiece)
    ensures Interims(rs, from) == Gather(rs, from, |rs|, InterimPiece)
  {
  }

  // ---------------------------------------------------------------------------
  // Structural facts about Gather

  /** Gathering over [lo, hi) is gathering over [lo, mid) followed by [mid, hi). */
  lemma {:induction false} GatherSplit(rs: seq<SpeechResult>, lo: nat, mid: nat, hi: nat, piece: SpeechResult -> string)
    requires lo <= mid <= hi <= |rs|
    ensures Gather(rs, lo, hi, piece) == Gather(rs, lo, mid, piece) + Gather(rs, mid, hi, piece)
  {
    if hi == mid {
      assert Gather(rs, mid, hi, piece) == "";
    } else {
      GatherSplit(rs, lo, mid, hi - 1, piece);
    }
  }

  /** Only the entries inside [lo, hi) matter: two batches that agree there gather alike. */
  lemma {:induction false} GatherAgree(a: seq<SpeechResult>, b: seq<SpeechResult>, lo: nat, hi: nat, piece: SpeechResult -> string)
    requires hi <= |a| && hi <= |b|
    requires forall i :: lo <= i < hi ==> a[i] == b[i]
    ensures Gather(a, lo, hi, piece) == Gather(b, lo, hi, piece)
  {
    if lo < hi {
      GatherAgree(a, b, lo, hi - 1, piece);
    }
  }

  /** A range none of whose entries contributes anything gathers to the empty string. */
  lemma {:induction false} GatherSilent(rs: seq<SpeechResult>, lo: nat, hi: nat, piece: SpeechResult -> string)
    requires hi <= |rs|
    requires forall i :: lo <= i < hi ==> piece(rs[i]) == ""
    ensures Gather(rs, lo, hi, piece) == ""
  {
    if lo < hi {
      GatherSilent(rs, lo, hi - 1, piece);
    }
  }

  // ---------------------------------------------------------------------------
  // An independent reading: select the results of one kind, then join their texts

  /** The results of rs whose `isFinal` flag equals `final`, in their original order. */
  function Select(rs: seq<SpeechResult>, final: bool): (sel: seq<SpeechResult>)
    ensures |sel| <= |rs|
    ensures forall i :: 0 <= i < |sel| ==> sel[i].isFinal == final
  {
    if rs == [] then []
    else (if rs[0].isFinal == final then [rs[0]] else []) + Select(rs[1..], final)
  }

  /** Each text followed by one space, in order. */
  function JoinSpaced(rs: seq<SpeechResult>): string {
    if rs == [] then "" else rs[0].transcript + " " + JoinSpaced(rs[1..])
  }

  /** The texts run together, in order. */
  function Join(rs: seq<SpeechResult>): string {
    if rs == [] then "" else rs[0].transcript + Join(rs[1..])
  }

  /** The results from index `from` on, or none when `from` is past the end. */
  function Drop(rs: seq<SpeechResult>, from: nat): seq<SpeechResult> {
    if from <= |rs| then rs[from..] else []
  }

  lemma {:induction false} SelectAppend(a: seq<SpeechResult>, b: seq<SpeechResult>, final: bool)
    ensures Select(a + b, final) == Select(a, final) + Select(b, final)
  {
    if a == [] {
      assert a + b == b;
    } else {
      assert (a + b)[1..] == a[1..] + b;
      SelectAppend(a[1..], b, final);
    }
  }

  lemma {:induction false} JoinSpacedAppend(a: seq<SpeechResult>, b: seq<SpeechResult>)
    ensures JoinSpaced(a + b) == JoinSpaced(a) + JoinSpaced(b)
  {
    if a == [] {
      assert a + b == b;
    } else {
      assert (a + b)[1..] == a[1..] + b;
      JoinSpacedAppend(a[1..], b);
    }
  }

  lemma {:induction false} JoinAppend(a: seq<SpeechResult>, b: seq<SpeechResult>)
    ensures Join(a + b) == Join(a) + Join(b)
  {
    if a == [] {
      assert a + b == b;
    } else {
      assert (a + b)[1..] == a[1..] + b;
      JoinAppend(a[1..], b);
    }
  }

  lemma SelectOne(r: SpeechResult)
    ensures JoinSpaced(Select([r], true)) == FinalPiece(r)
    ensures Join(Select([r], false)) == InterimPiece(r)
  {
    assert [r][1..] == [];
    assert Select([r][1..], true) == [] && Select([r][1..], false) == [];
  }

  /** Appending one result to a range adds its piece to the selected-and-joined text. */
  lemma SelectSnoc(front: seq<SpeechResult>, r: SpeechResult)
    ensures JoinSpaced(Select(front + [r], true)) == JoinSpaced(Select(front, true)) + FinalPiece(r)
    ensures Join(Select(front + [r], false)) == Join(Select(front, false)) + InterimPiece(r)
  {
    SelectAppend(front, [r], true);
    SelectAppend(front, [r], false);
    JoinSpacedAppend(Select(front, true), Select([r], true));
    JoinAppend(Select(front, false), Select([r], false));
    SelectOne(r);
  }

  lemma {:induction false} GatherSelectsFinals(rs: seq<SpeechResult>, lo: nat, hi: nat)
    requires lo <= hi <= |rs|
    ensures Gather(rs, lo, hi, FinalPiece) == JoinSpaced(Select(rs[lo..hi], true))
  {
    if lo == hi {
      assert rs[lo..hi] == [];
    } else {
      GatherSelectsFinals(rs, lo, hi - 1);
      assert rs[lo..hi] == rs[lo..hi - 1] + [rs[hi - 1]];
      SelectSnoc(rs[lo..hi - 1], rs[hi - 1]);
    }
  }

  lemma {:induction false} GatherSelectsInterims(rs: seq<SpeechResult>, lo: nat, hi: nat)
    requires lo <= hi <= |rs|
    ensures Gather(rs, lo, hi, InterimPiece) == Join(Select(rs[lo..hi], false))
  {
    if lo == hi {
      assert rs[lo..hi] == [];
    } else {
      GatherSelectsInterims(rs, lo, hi - 1);
      assert rs[lo..hi] == rs[lo..hi - 1] + [rs[hi - 1]];
      SelectSnoc(rs[lo..hi - 1], rs[hi - 1]);
    }
  }

  /** Results below `from` have no effect: two batches of the same length that agree from
      `from` on add the same final text and show the same interim text. */
  lemma EarlierResultsIgnored(a: seq<SpeechResult>, b: seq<SpeechResult>, from: nat)
    requires |a| == |b|
    requires forall i :: from <= i < |a| ==> a[i] == b[i]
    ensures Finals(a, from) == Finals(b, from)
    ensures Interims(a, from) == Interims(b, from)
  {
    GatherAgree(a, b, from, |a|, FinalPiece);
    GatherAgree(a, b, from, |a|, InterimPiece);
  }

  /** A batch without final results from `from` on leaves the final transcript as it is. */
  lemma NoFinalsNoChange(rs: seq<SpeechResult>, from: nat)
    requires forall i :: from <= i < |rs| ==> !rs[i].isFinal
    ensures Finals(rs, from) == ""
  {
    GatherSilent(rs, from, |rs|, FinalPiece);
  }

  // ---------------------------------------------------------------------------
  // A whole session: a stream of batches as the recognizer redelivers them

  /** One `result` event: the session's result list and the first index that changed. */
  datatype Batch = Batch(results: seq<SpeechResult>, resultIndex: nat)

  /** The final transcript after a session start (which empties it) and then the given
      batches, each adding Finals(results, resultIndex). */
  function Replay(batches: seq<Batch>): string {
    if batches == [] then ""
    else
      var last := batches[|batches| - 1];
      Replay(batches[..|batches| - 1]) + Finals(last.results, last.resultIndex)
  }

  /** `next` follows a batch with results `prev` as the recognizer delivers it: the results
      before next.resultIndex are redelivered unchanged, and every result of `prev` from that
      index on was still interim (a result is counted once, when it turns final). */
  predicate Continues(prev: seq<SpeechResult>, next: Batch) {
    next.resultIndex <= |prev| && next.resultIndex <= |next.results| &&
    (forall i :: 0 <= i < next.resultIndex ==> next.results[i] == prev[i]) &&
    (forall i :: next.resultIndex <= i < |prev| ==> !prev[i].isFinal)
  }

  /** A session's events: the first starts at index 0 and each continues its predecessor. */
  predicate IsStream(batches: seq<Batch>) {
    |batches| > 0 && batches[0].resultIndex == 0 &&
    forall j :: 0 < j < |batches| ==> Continues(batches[j - 1].results, batches[j])
  }

  /** Processing one more batch of a stream keeps the transcript equal to all final texts
      of the current result list. */
  lemma StepKeepsAllFinals(prev: seq<SpeechResult>, next: Batch)
    requires Continues(prev, next)
    ensures Finals(prev, 0) + Finals(next.results, next.resultIndex) == Finals(next.results, 0)
  {
    var k := next.resultIndex;
    GatherSplit(prev, 0, k, |prev|, FinalPiece);
    GatherSilent(prev, k, |prev|, FinalPiece);
    GatherAgree(prev, next.results, 0, k, FinalPiece);
    GatherSplit(next.results, 0, k, |next.results|, FinalPiece);
  }

  /** Over a whole stream, the final transcript is every final text of the latest result
      list, each exactly once, in order. */
  lemma {:induction false} StreamCountsEachFinalOnce(batches: seq<Batch>)
    requires IsStream(batches)
    ensures Replay(batches) == Finals(batches[|batches| - 1].results, 0)
    ensures Replay(batches) == JoinSpaced(Select(batches[|batches| - 1].results, true))
  {
    var n := |batches|;
    var last := batches[n - 1];
    if n == 1 {
      assert batches[..0] == [];
    } else {
      var init := batches[..n - 1];
      assert IsStream(init) by {
        forall j | 0 < j < |init| ensures Continues(init[j - 1].results, init[j]) {
          assert init[j] == batches[j] && init[j - 1] == batches[j - 1];
        }
      }
      StreamCountsEachFinalOnce(init);
      assert init[|init| - 1] == batches[n - 2];
      StepKeepsAllFinals(batches[n - 2].results, last);
    }
    assert Drop(last.results, 0) == last.results;
  }
}
