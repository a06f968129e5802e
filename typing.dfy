/** The typing view: the text-change handler with its three transitions
    (reset, rejection, acceptance), the mismatch count it relies on, the
    progress percentage handed to the progress bar, and the view's own copy
    of the highlighting. */
module Typing {
  import opened Js
  import opened TypingContext
  import HighlightedText
  import ProgressBar

  /** The error counter's ceiling: once reached, the input may not grow. */
  const ErrorCeiling := 2

  // ---------------------------------------------------------------------
  // Mismatch count

  /** Input position `i` disagrees with the target; a position past the end
      of the target always disagrees (`_static[i]` is `undefined` there). */
  predicate MismatchAt(target: string, input: string, i: nat)
    requires i < |input|
  {
    i >= |target| || input[i] != target[i]
  }

  /** The number of input positions that disagree with the target. */
  function MismatchCount(target: string, input: string): (n: nat)
    ensures n <= |input|
  {
    if input == [] then 0
    else
      MismatchCount(target, input[..|input| - 1])
      + (if MismatchAt(target, input, |input| - 1) then 1 else 0)
  }

  /** The counting loop of the handler. */
  method CountMismatches(target: string, input: string) returns (n: nat)
    ensures n == MismatchCount(target, input)
  {
    n := 0;
    var i := 0;
    while i < |input|
      invariant i <= |input|
      invariant n == MismatchCount(target, input[..i])
    {
      assert input[..i + 1][..i] == input[..i];
      if i >= |target| || input[i] != target[i] {
        n := n + 1;
      }
      i := i + 1;
    }
    assert input[..|input|] == input;
  }

  /** No position disagrees exactly when the input is a prefix of the
      target. */
  lemma {:induction false} MismatchFreeIffPrefix(target: string, input: string)
    ensures MismatchCount(target, input) == 0 <==> |input| <= |target| && input == target[..|input|]
  {
    if input != [] {
      var front := input[..|input| - 1];
      MismatchFreeIffPrefix(target, front);
      if |input| <= |target| && input == target[..|input|] {
        assert front == target[..|front|];
      }
    }
  }

  /** Every character typed past the end of the target is a mismatch. */
  lemma {:induction false} MismatchCountCoversOverflow(target: string, input: string)
    ensures MismatchCount(target, input) >= |input| - |target|
  {
    if input != [] {
      MismatchCountCoversOverflow(target, input[..|input| - 1]);
    }
  }

  // ---------------------------------------------------------------------
  // The text-change handler

  /** What `handleInputChange` does with one change of the text box. */
  datatype Transition = Reset | Reject | Accept

  predicate EndsWithNewline(s: string)
  {
    |s| > 0 && s[|s| - 1] == '\n'
  }

  /** Which transition a change to `newInput` takes. */
  function Classify(s: SessionState, newInput: string): Transition
  {
    if EndsWithNewline(newInput) && |s.userInput| >= |s.target| then Reset
    else if s.incorrectCount >= ErrorCeiling && |newInput| > |s.userInput| then Reject
    else Accept
  }

  /** The saturating update of the error counter. */
  function NextIncorrectCount(prev: int, mismatches: nat): int
  {
    if mismatches > 0 then Min(prev + mismatches, ErrorCeiling) else 0
  }

  /** The state after an accepted change at clock reading `now`. */
  function Accepted(s: SessionState, newInput: string, now: int): SessionState
  {
    s.(userInput := newInput,
       startTime := if StartTimeSet(s.startTime) then s.startTime else Some(now),
       incorrectCount := NextIncorrectCount(s.incorrectCount, MismatchCount(s.target, newInput)))
  }

  /** The handler on the session state, as the code is written; `now` is the
      clock reading an accepted change takes and `r` the draw a reset takes. */
  function Step(s: SessionState, sentences: seq<string>, newInput: string, now: int, r: Draw): SessionState
    requires |sentences| > 0
  {
    match Classify(s, newInput)
    case Reset => AfterSetSentence(s, sentences, r)
    case Reject => s
    case Accept => Accepted(s, newInput, now)
  }

  /** `handleInputChange`, acting on the provider's state, with the corrected
      `setSentence`. */
  method HandleInputChange(session: Session, newInput: string, now: int, r: Draw) returns (t: Transition)
    requires session.Valid()
    modifies session
    ensures session.Valid()
    ensures t == Classify(old(session.State()), newInput)
    ensures session.State() == StepCorrected(old(session.State()), session.sentences, newInput, now, r)
  {
    if EndsWithNewline(newInput) {
      if |session.userInput| >= |session.target| {
        session.SetSentence(r);
        return Reset;
      }
    }
    if session.incorrectCount >= ErrorCeiling && |newInput| > |session.userInput| {
      return Reject;
    }
    if !StartTimeSet(session.startTime) {
      session.startTime := Some(now);
    }
    var currentIncorrectCount := CountMismatches(session.target, newInput);
    if currentIncorrectCount > 0 {
      session.incorrectCount := Min(session.incorrectCount + currentIncorrectCount, ErrorCeiling);
    } else {
      session.incorrectCount := 0;
    }
    session.userInput := newInput;
    return Accept;
  }

  /** A newline once the input is as long as the target only replaces the
      sentence: the newline is not stored and the start time, the error
      counter and the speed are untouched. */
  lemma NewlineAtEndOnlyResets(s: SessionState, sentences: seq<string>, newInput: string, now: int, r: Draw)
    requires |sentences| > 0
    requires EndsWithNewline(newInput) && |s.userInput| >= |s.target|
    ensures Classify(s, newInput) == Reset
    ensures Step(s, sentences, newInput, now, r) ==
      s.(target := sentences[ChooseIndex(|sentences|, r)], userInput := "")
  {
  }

  /** A newline while the input is shorter than the target is an ordinary
      character: it is rejected or stored like any other. */
  lemma NewlineBeforeEndIsOrdinary(s: SessionState, sentences: seq<string>, newInput: string, now: int, r: Draw)
    requires |sentences| > 0
    requires EndsWithNewline(newInput) && |s.userInput| < |s.target|
    ensures Classify(s, newInput) != Reset
    ensures Classify(s, newInput) == Accept ==> Step(s, sentences, newInput, now, r).userInput == newInput
  {
  }

  /** At the ceiling, a change that lengthens the input (and is not a reset)
      leaves the whole state unchanged. */
  lemma GrowthAtCeilingRejected(s: SessionState, sentences: seq<string>, newInput: string, now: int, r: Draw)
    requires |sentences| > 0
    requires !(EndsWithNewline(newInput) && |s.userInput| >= |s.target|)
    requires s.incorrectCount >= ErrorCeiling && |newInput| > |s.userInput|
    ensures Classify(s, newInput) == Reject
    ensures Step(s, sentences, newInput, now, r) == s
  {
  }

  /** Deletions and same-length edits are accepted whatever the counter. */
  lemma NonGrowingChangeAccepted(s: SessionState, newInput: string)
    requires !(EndsWithNewline(newInput) && |s.userInput| >= |s.target|)
    requires |newInput| <= |s.userInput|
    ensures Classify(s, newInput) == Accept
  {
  }

  /** The start time is taken on the first accepted change and never
      overwritten once set. */
  lemma StartTimeSetOnce(s: SessionState, sentences: seq<string>, newInput: string, now: int, r: Draw)
    requires |sentences| > 0
    ensures var s' := Step(s, sentences, newInput, now, r);
      && (StartTimeSet(s.startTime) ==> s'.startTime == s.startTime)
      && (!StartTimeSet(s.startTime) && Classify(s, newInput) == Accept ==> s'.startTime == Some(now))
      && (Classify(s, newInput) != Accept ==> s'.startTime == s.startTime)
  {
  }

  /** An accepted change stores the input verbatim, keeps the target, and
      sets the counter to min(previous + mismatches, 2) when there are
      mismatches and to 0 otherwise. */
  lemma AcceptedChangeCounts(s: SessionState, sentences: seq<string>, newInput: string, now: int, r: Draw)
    requires |sentences| > 0
    requires Classify(s, newInput) == Accept
    ensures var s' := Step(s, sentences, newInput, now, r);
      var m := MismatchCount(s.target, newInput);
      && s'.userInput == newInput
      && s'.target == s.target
      && s'.typingSpeedPerSecond == s.typingSpeedPerSecond
      && (m > 0 ==> s'.incorrectCount == Min(s.incorrectCount + m, ErrorCeiling))
      && (m == 0 ==> s'.incorrectCount == 0)
  {
  }

  /** The error counter stays within [0, 2]. */
  lemma IncorrectCountStaysInRange(s: SessionState, sentences: seq<string>, newInput: string, now: int, r: Draw)
    requires |sentences| > 0
    requires 0 <= s.incorrectCount <= ErrorCeiling
    ensures 0 <= Step(s, sentences, newInput, now, r).incorrectCount <= ErrorCeiling
  {
  }

  /** Target "cat", typed as "c", "ca", "cax": the counter reads 0, 0, 1. */
  lemma CatExample(now: int, r: Draw)
    ensures var s0 := SessionState("cat", "", None, 0, 0.0);
      var s1 := Step(s0, ["cat"], "c", now, r);
      var s2 := Step(s1, ["cat"], "ca", now, r);
      var s3 := Step(s2, ["cat"], "cax", now, r);
      s1.incorrectCount == 0 && s2.incorrectCount == 0 && s3.incorrectCount == 1 &&
      s3.userInput == "cax" && s3.startTime == Some(now)
  {
    assert MismatchCount("cat", "c") == 0 by {
      assert "c"[..0] == [];
    }
    assert MismatchCount("cat", "ca") == 0 by {
      assert "ca"[..1] == "c";
      assert "c"[..0] == [];
    }
    assert MismatchCount("cat", "cax") == 1 by {
      assert "cax"[..2] == "ca";
      assert "ca"[..1] == "c";
      assert "c"[..0] == [];
    }
  }

  /** The error counter survives a reset: after "x", "xb" on target "ab" the
      counter is at its ceiling, the newline resets the sentence with the
      counter still at 2, and from then on every non-empty change is
      rejected, so the new sentence can never be typed. */
  lemma ResetKeepsSessionBlocked(now: int, r: Draw, next: string)
    requires |next| > 0
    ensures var s0 := SessionState("ab", "", None, 0, 0.0);
      var s1 := Step(s0, ["ab"], "x", now, r);
      var s2 := Step(s1, ["ab"], "xb", now, r);
      var s3 := Step(s2, ["ab"], "xb\n", now, r);
      && s2.incorrectCount == 2
      && Classify(s2, "xb\n") == Reset
      && s3 == SessionState("ab", "", Some(now), 2, 0.0)
      && Classify(s3, next) == Reject
      && Step(s3, ["ab"], next, now, r) == s3
  {
    assert MismatchCount("ab", "x") == 1 by {
      assert "x"[..0] == [];
    }
    assert MismatchCount("ab", "xb") == 1 by {
      assert "xb"[..1] == "x";
      assert "x"[..0] == [];
    }
  }

  /** The handler with the corrected `setSentence`, which clears the error
      counter on reset. */
  function StepCorrected(s: SessionState, sentences: seq<string>, newInput: string, now: int, r: Draw): SessionState
    requires |sentences| > 0
  {
    match Classify(s, newInput)
    case Reset => AfterSetSentenceCorrected(s, sentences, r)
    case Reject => s
    case Accept => Accepted(s, newInput, now)
  }

  /** The correction touches the reset only: every other change is handled
      exactly as written. */
  lemma CorrectedAgreesOffReset(s: SessionState, sentences: seq<string>, newInput: string, now: int, r: Draw)
    requires |sentences| > 0
    ensures Classify(s, newInput) != Reset ==>
      StepCorrected(s, sentences, newInput, now, r) == Step(s, sentences, newInput, now, r)
    ensures Classify(s, newInput) == Reset ==>
      StepCorrected(s, sentences, newInput, now, r) ==
        Step(s, sentences, newInput, now, r).(target := sentences[ChooseIndexUniform(|sentences|, r)],
                                                incorrectCount := 0)
  {
  }

  /** With the corrected reset, the new sentence can always be started:
      typing its first character is accepted, stored, and counts no
      error. */
  lemma CorrectedResetUnblocks(s: SessionState, sentences: seq<string>, newInput: string, now: int, r: Draw, later: int)
    requires |sentences| > 0
    requires Classify(s, newInput) == Reset
    ensures var s' := StepCorrected(s, sentences, newInput, now, r);
      s'.incorrectCount == 0 && s'.userInput == "" &&
      (|s'.target| > 0 ==>
         var first := s'.target[..1];
         Classify(s', first) == Accept &&
         StepCorrected(s', sentences, first, later, r).userInput == first &&
         StepCorrected(s', sentences, first, later, r).incorrectCount == 0)
  {
    var s' := StepCorrected(s, sentences, newInput, now, r);
    if |s'.target| > 0 {
      MismatchFreeIffPrefix(s'.target, s'.target[..1]);
    }
  }

  // ---------------------------------------------------------------------
  // Progress

  /** `Math.max(Math.ceil((userInput.length / _static.length) * 100), 0)`
      on exact reals; `None` stands for the NaN or Infinity that an empty
      target gives. */
  function Progress(inputLen: nat, targetLen: nat): (p: Option<int>)
    ensures p.None? <==> targetLen == 0
  {
    if targetLen == 0 then None
    else Some(Max(Ceil((inputLen as real / targetLen as real) * 100.0), 0))
  }

  /** The progress is the least integer not below 100 * inputLen /
      targetLen; in particular it is never negative. */
  lemma ProgressIsCeiling(inputLen: nat, targetLen: nat)
    requires targetLen > 0
    ensures var p := Progress(inputLen, targetLen).value;
      p >= 0 && (p - 1) * targetLen < inputLen * 100 <= p * targetLen
  {
    var t, len := targetLen as real, inputLen as real;
    var x := (len / t) * 100.0;
    var c := Ceil(x);
    assert len / t >= 0.0;
    TimesT(len, t);
    ScaleLt(c as real - 1.0, x, t, len * 100.0);
    ScaleLe(x, c as real, t, len * 100.0);
    CastMul(c - 1, targetLen);
    CastMul(c, targetLen);
    CastMul(inputLen, 100);
    assert (c - 1) as real == c as real - 1.0;
    assert ((c - 1) * targetLen) as real < (inputLen * 100) as real <= (c * targetLen) as real;
  }

  /** Progress never decreases as the input grows. */
  lemma ProgressMonotone(len1: nat, len2: nat, targetLen: nat)
    requires targetLen > 0 && len1 <= len2
    ensures Progress(len1, targetLen).value <= Progress(len2, targetLen).value
  {
    ProgressIsCeiling(len1, targetLen);
    ProgressIsCeiling(len2, targetLen);
    var p1, p2 := Progress(len1, targetLen).value, Progress(len2, targetLen).value;
    CancelLt(p1 - 1, p2, targetLen);
  }

  /** A complete input shows 100. */
  lemma ProgressFullAtTargetLength(targetLen: nat)
    requires targetLen > 0
    ensures Progress(targetLen, targetLen) == Some(100)
  {
    ProgressIsCeiling(targetLen, targetLen);
    var p := Progress(targetLen, targetLen).value;
    CancelLt(p - 1, 100, targetLen);
    CancelLe(100, p, targetLen);
  }

  /** Progress is not capped: an input longer than the target shows more
      than 100. */
  lemma ProgressUncapped(inputLen: nat, targetLen: nat)
    requires 0 < targetLen < inputLen
    ensures Progress(inputLen, targetLen).value > 100
  {
    ProgressIsCeiling(inputLen, targetLen);
    var p := Progress(inputLen, targetLen).value;
    assert 100 * targetLen < inputLen * 100;
    CancelLt(100, p, targetLen);
  }

  /** The progress handed to the bar (whose maximum is the default 100)
      fills no segment on an empty input and every segment on a complete
      one. */
  lemma ProgressBarEnds(targetLen: nat)
    requires targetLen > 0
    ensures Progress(0, targetLen) == Some(0)
    ensures forall i :: 0 <= i < ProgressBar.Segments ==>
      !ProgressBar.Bar(Progress(0, targetLen).value, ProgressBar.DefaultMax)[i].filled &&
      ProgressBar.Bar(Progress(targetLen, targetLen).value, ProgressBar.DefaultMax)[i].filled
  {
    ProgressFullAtTargetLength(targetLen);
    ProgressIsCeiling(0, targetLen);
    var p := Progress(0, targetLen).value;
    CancelLe(p, 0, targetLen);
    ProgressBar.BarEnds(ProgressBar.DefaultMax);
  }

  // Arithmetic steps for the progress lemmas.

  lemma TimesT(len: real, t: real)
    requires t > 0.0
    ensures ((len / t) * 100.0) * t == len * 100.0
  {
    assert (len / t) * t == len;
    assert ((len / t) * 100.0) * t == ((len / t) * t) * 100.0;
  }

  lemma ScaleLt(x: real, y: real, t: real, yt: real)
    requires t > 0.0 && x < y && y * t == yt
    ensures x * t < yt
  {
  }

  lemma ScaleLe(x: real, y: real, t: real, xt: real)
    requires t > 0.0 && x <= y && x * t == xt
    ensures xt <= y * t
  {
  }

  lemma CastMul(a: int, b: int)
    ensures (a * b) as real == a as real * b as real
  {
  }

  lemma CancelLt(a: int, b: int, t: int)
    requires t > 0 && a * t < b * t
    ensures a < b
  {
    ProgressBar.MulMonotone(b, a, t);
  }

  lemma CancelLe(a: int, b: int, t: int)
    requires t > 0 && a * t <= b * t
    ensures a <= b
  {
    ProgressBar.MulMonotone(b + 1, a, t);
  }

  // ---------------------------------------------------------------------
  // The view's own copy of the highlighting

  /** `renderHighlightedText`, from target character `index` on. */
  function RenderFrom(target: string, input: string, index: nat): seq<HighlightedText.Mark>
    requires index <= |target|
    decreases |target| - index
  {
    if index == |target| then []
    else
      var mark :=
        if index < |input| then
          if target[index] == input[index] then HighlightedText.Correct else HighlightedText.Incorrect
        else HighlightedText.Pending;
      [mark] + RenderFrom(target, input, index + 1)
  }

  function RenderHighlightedText(target: string, input: string): seq<HighlightedText.Mark>
  {
    RenderFrom(target, input, 0)
  }

  /** The view's copy of the highlighting gives the same marks as the
      highlighting component. */
  lemma RenderMatchesHighlight(target: string, input: string)
    ensures RenderHighlightedText(target, input) == HighlightedText.Highlight(target, input)
  {
    RenderFromIsSuffix(target, input, 0);
  }

  lemma {:induction false} RenderFromIsSuffix(target: string, input: string, index: nat)
    requires index <= |target|
    ensures RenderFrom(target, input, index) == HighlightedText.Highlight(target, input)[index..]
    decreases |target| - index
  {
    if index < |target| {
      RenderFromIsSuffix(target, input, index + 1);
    }
  }

  /** The number of red marks. */
  function CountIncorrect(marks: seq<HighlightedText.Mark>): nat
  {
    if marks == [] then 0
    else CountIncorrect(marks[..|marks| - 1]) + (if marks[|marks| - 1] == HighlightedText.Incorrect then 1 else 0)
  }

  /** While the input is no longer than the target, the red marks are exactly
      the mismatches the handler counts. */
  lemma IncorrectMarksAreMismatches(target: string, input: string)
    requires |input| <= |target|
    ensures CountIncorrect(HighlightedText.Highlight(target, input)) == MismatchCount(target, input)
  {
    var marks := HighlightedText.Highlight(target, input);
    PendingTailCountsNothing(marks, |input|);
    MarkPrefixCounts(target, input, |input|);
    assert input[..|input|] == input;
  }

  lemma {:induction false} PendingTailCountsNothing(marks: seq<HighlightedText.Mark>, k: nat)
    requires k <= |marks|
    requires forall i :: k <= i < |marks| ==> marks[i] == HighlightedText.Pending
    ensures CountIncorrect(marks) == CountIncorrect(marks[..k])
  {
    if |marks| > k {
      var front := marks[..|marks| - 1];
      assert front[..k] == marks[..k];
      PendingTailCountsNothing(front, k);
    } else {
      assert marks[..k] == marks;
    }
  }

  lemma {:induction false} MarkPrefixCounts(target: string, input: string, k: nat)
    requires k <= |input| <= |target|
    ensures CountIncorrect(HighlightedText.Highlight(target, input)[..k]) == MismatchCount(target, input[..k])
  {
    var marks := HighlightedText.Highlight(target, input);
    if k > 0 {
      MarkPrefixCounts(target, input, k - 1);
      assert marks[..k][..k - 1] == marks[..k - 1];
      assert input[..k][..k - 1] == input[..k - 1];
    }
  }
}
