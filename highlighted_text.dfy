/** The highlighting of the target sentence against the user's input: one
    mark per target character, green where the typed character agrees,
    red where it does not, plain where nothing has been typed yet. */
module HighlightedText {

  /** "text-green-500", "text-red-500", or no colour. */
  datatype Mark = Correct | Incorrect | Pending

  /** The mark of target character `index`. */
  function MarkAt(target: string, input: string, index: nat): Mark
    requires index < |target|
  {
    if index < |input| then
      if target[index] == input[index] then Correct else Incorrect
    else Pending
  }

  /** `_static.split("").map(...)`: the marks of the whole target. */
  function Highlight(target: string, input: string): (marks: seq<Mark>)
    ensures |marks| == |target|
    ensures forall i :: 0 <= i < |target| ==>
      (marks[i] == Correct <==> i < |input| && input[i] == target[i]) &&
      (marks[i] == Incorrect <==> i < |input| && input[i] != target[i]) &&
      (marks[i] == Pending <==> i >= |input|)
  {
    seq(|target|, i requires 0 <= i < |target| => MarkAt(target, input, i))
  }

  /** With nothing typed, every character is pending. */
  lemma EmptyInputAllPending(target: string)
    ensures forall i :: 0 <= i < |target| ==> Highlight(target, "")[i] == Pending
  {
  }

  /** Every character is marked correct exactly when the input starts with
      the whole target; in particular when the input equals the target. */
  lemma AllCorrectIffTargetTyped(target: string, input: string)
    ensures (forall i :: 0 <= i < |target| ==> Highlight(target, input)[i] == Correct) <==>
      |target| <= |input| && input[..|target|] == target
  {
    var marks := Highlight(target, input);
    if |target| > |input| {
      assert marks[|input|] != Correct;
    } else if input[..|target|] != target {
      var k :| 0 <= k < |target| && input[..|target|][k] != target[k];
      assert marks[k] != Correct;
    }
  }
}
