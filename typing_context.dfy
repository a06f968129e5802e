/** The typing session the context provider holds: the target sentence, the
    user's input, the start time, the error counter and the typing speed,
    with the sentence choice, `setSentence` and the speed formula of the
    one-second interval. */
module TypingContext {
  import opened Js

  /** The five pieces of React state the provider exposes. */
  datatype SessionState = SessionState(
    target: string,               // `_static`, the sentence to type
    userInput: string,
    startTime: Option<int>,       // a `Date.now()` reading in milliseconds
    incorrectCount: int,
    typingSpeedPerSecond: real)

  /** JavaScript truthiness of `startTime`: both `null` and `0` are falsy. */
  predicate StartTimeSet(t: Option<int>)
  {
    t.Some? && t.value != 0
  }

  /** The sentence index `Math.ceil(r * (n - 1))` for a draw `r` of
      `Math.random()` and `n` sentences. */
  function ChooseIndex(n: nat, r: Draw): (idx: nat)
    requires n > 0
    ensures idx < n
  {
    var x := r * (n - 1) as real;
    DrawScale(r, (n - 1) as real);
    Ceil(x)
  }

  /** Index 0 is chosen only when the draw is exactly 0, so with two or more
      sentences the first one is, in effect, never chosen: each other index
      takes an interval of draws of length 1 / (n - 1). */
  lemma ChooseIndexZeroOnlyAtZero(n: nat, r: Draw)
    requires n >= 2
    ensures ChooseIndex(n, r) == 0 <==> r == 0.0
  {
    if r > 0.0 {
      assert r * (n - 1) as real >= r * 1.0;
    }
  }

  /** A uniform choice over all `n` sentences, `Math.floor(r * n)`. */
  function ChooseIndexUniform(n: nat, r: Draw): (idx: nat)
    requires n > 0
    ensures idx < n
  {
    var x := r * n as real;
    DrawScale(r, n as real);
    Floor(x)
  }

  /** Under the uniform choice, index `i` is taken by exactly the draws in
      [i / n, (i + 1) / n): every sentence has the same share. */
  lemma ChooseIndexUniformPreimage(n: nat, r: Draw, i: nat)
    requires i < n
    ensures ChooseIndexUniform(n, r) == i <==> i as real <= r * n as real < (i + 1) as real
  {
  }

  /** `setSentence`: a new target chosen by the draw `r`, and an empty
      input. */
  function AfterSetSentence(s: SessionState, sentences: seq<string>, r: Draw): SessionState
    requires |sentences| > 0
  {
    s.(target := sentences[ChooseIndex(|sentences|, r)], userInput := "")
  }

  /** `setSentence` replaces the target by a sentence of the list and clears
      the input; the start time, the error counter and the speed are
      untouched. */
  lemma SetSentenceReplacesTargetOnly(s: SessionState, sentences: seq<string>, r: Draw)
    requires |sentences| > 0
    ensures var s' := AfterSetSentence(s, sentences, r);
      && s'.target in sentences
      && s'.userInput == ""
      && s'.startTime == s.startTime
      && s'.incorrectCount == s.incorrectCount
      && s'.typingSpeedPerSecond == s.typingSpeedPerSecond
  {
  }

  /** `setSentence` as it evidently should be: a uniform choice of the next
      sentence, and a cleared error counter, so that a fresh sentence starts
      with a fresh error budget. */
  function AfterSetSentenceCorrected(s: SessionState, sentences: seq<string>, r: Draw): (s': SessionState)
    requires |sentences| > 0
    ensures s'.target in sentences && s'.userInput == "" && s'.incorrectCount == 0
    ensures s'.startTime == s.startTime && s'.typingSpeedPerSecond == s.typingSpeedPerSecond
  {
    s.(target := sentences[ChooseIndexUniform(|sentences|, r)], userInput := "", incorrectCount := 0)
  }

  /** One firing of the one-second interval at clock reading `now`: the
      speed is recomputed only when a start time is set and the elapsed
      seconds are positive. */
  function SpeedAfterTick(s: SessionState, now: int): (speed: real)
    ensures StartTimeSet(s.startTime) && now > s.startTime.value ==>
      speed >= 0.0 &&
      speed * ((now - s.startTime.value) as real / 1000.0) == |s.userInput| as real
    ensures !(StartTimeSet(s.startTime) && now > s.startTime.value) ==>
      speed == s.typingSpeedPerSecond
  {
    if StartTimeSet(s.startTime) then
      var timeTakenInSeconds := (now - s.startTime.value) as real / 1000.0;
      if timeTakenInSeconds > 0.0 then |s.userInput| as real / timeTakenInSeconds
      else s.typingSpeedPerSecond
    else s.typingSpeedPerSecond
  }

  /** The provider's state, updated in place by its setters; its sentence
      choice and `setSentence` are the corrected ones. */
  class Session {
    /** The practice sentences (an external list). */
    const sentences: seq<string>
    var target: string
    var userInput: string
    var startTime: Option<int>
    var incorrectCount: int
    var typingSpeedPerSecond: real

    function State(): SessionState
      reads this
    {
      SessionState(target, userInput, startTime, incorrectCount, typingSpeedPerSecond)
    }

    /** The target is one of the sentences and the error counter stays
        within its ceiling of 2. */
    ghost predicate Valid()
      reads this
    {
      |sentences| > 0 && target in sentences && 0 <= incorrectCount <= 2
    }

    /** The provider's initial state, with a draw `r` for the first
        sentence. */
    constructor (sentences: seq<string>, r: Draw)
      requires |sentences| > 0
      ensures Valid() && this.sentences == sentences
      ensures target == sentences[ChooseIndexUniform(|sentences|, r)]
      ensures userInput == "" && startTime == None
      ensures incorrectCount == 0 && typingSpeedPerSecond == 0.0
    {
      this.sentences := sentences;
      target := sentences[ChooseIndexUniform(|sentences|, r)];
      userInput := "";
      startTime := None;
      incorrectCount := 0;
      typingSpeedPerSecond := 0.0;
    }

    method SetSentence(r: Draw)
      requires Valid()
      modifies this`target, this`userInput, this`incorrectCount
      ensures Valid()
      ensures State() == AfterSetSentenceCorrected(old(State()), sentences, r)
    {
      var idx := ChooseIndexUniform(|sentences|, r);
      target := sentences[idx];
      userInput := "";
      incorrectCount := 0;
    }

    /** The interval callback, fired at clock reading `now`. */
    method Tick(now: int)
      modifies this`typingSpeedPerSecond
      ensures State() == old(State()).(typingSpeedPerSecond := SpeedAfterTick(old(State()), now))
    {
      if StartTimeSet(startTime) {
        var timeTakenInSeconds := (now - startTime.value) as real / 1000.0;
        if timeTakenInSeconds > 0.0 {
          typingSpeedPerSecond := |userInput| as real / timeTakenInSeconds;
        }
      }
    }
  }
}
