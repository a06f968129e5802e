/** The segmented progress bar: 20 segments, of which a prefix is shown
    filled (transparent over the gradient) according to `value / max`, with
    rounded end segments and skewed interior ones. */
module ProgressBar {

  const Segments := 20
  const DefaultValue := 90
  const DefaultMax := 100

  /** `Math.floor((value / max) * segments)`, the number of filled
      segments: the greatest integer f with f * max <= value * 20. */
  function FilledSegments(value: int, max: int): (f: int)
    requires max > 0
    ensures f * max <= value * Segments < (f + 1) * max
  {
    (value * Segments) / max
  }

  /** The classes of one segment that the value decides. */
  datatype Segment = Segment(
    filled: bool,        // "bg-transparent" rather than "bg-black"
    roundedLeft: bool,   // "rounded-l-full"
    roundedRight: bool,  // "rounded-r-full"
    skewed: bool)        // "skew-x-[20deg]"

  function SegmentAt(i: nat, filledSegments: int): Segment
  {
    Segment(i < filledSegments, i == 0, i == Segments - 1, !(i == 0 || i == Segments - 1))
  }

  /** `Array.from({ length: segments }).map(...)`. */
  function Bar(value: int, max: int): (bar: seq<Segment>)
    requires max > 0
    ensures |bar| == Segments
    ensures forall i :: 0 <= i < Segments ==> (bar[i].filled <==> i < FilledSegments(value, max))
  {
    var f := FilledSegments(value, max);
    seq(Segments, i requires 0 <= i < Segments => SegmentAt(i, f))
  }

  /** The filled segments form a prefix of the bar. */
  lemma FilledFormPrefix(value: int, max: int, i: nat, j: nat)
    requires max > 0
    requires i <= j < Segments
    ensures Bar(value, max)[j].filled ==> Bar(value, max)[i].filled
  {
  }

  /** The number of filled segments never decreases as the value grows. */
  lemma FilledSegmentsMonotone(v1: int, v2: int, max: int)
    requires max > 0 && v1 <= v2
    ensures FilledSegments(v1, max) <= FilledSegments(v2, max)
  {
    var f1, f2 := FilledSegments(v1, max), FilledSegments(v2, max);
    assert f1 * max < (f2 + 1) * max;
    MulMonotone(f2 + 1, f1, max);
  }

  /** A segment filled at some value stays filled at every larger value. */
  lemma BarMonotone(v1: int, v2: int, max: int, i: nat)
    requires max > 0 && v1 <= v2 && i < Segments
    ensures Bar(v1, max)[i].filled ==> Bar(v2, max)[i].filled
  {
    FilledSegmentsMonotone(v1, v2, max);
  }

  /** Value 0 shows an empty bar, value = max a full one. */
  lemma BarEnds(max: int)
    requires max > 0
    ensures FilledSegments(0, max) == 0
    ensures FilledSegments(max, max) == Segments
    ensures forall i :: 0 <= i < Segments ==> !Bar(0, max)[i].filled && Bar(max, max)[i].filled
  {
    var f0, f1 := FilledSegments(0, max), FilledSegments(max, max);
    MulMonotone(1, f0, max);
    MulMonotone(f0 + 1, 0, max);
    MulMonotone(Segments + 1, f1, max);
    MulMonotone(f1 + 1, Segments, max);
  }

  /** With the default maximum of 100 the count is floor(value / 5); the
      defaults (value 90) fill 18 segments. */
  lemma DefaultMaxIsFifth(value: int)
    ensures FilledSegments(value, DefaultMax) == value / 5
    ensures FilledSegments(DefaultValue, DefaultMax) == 18
  {
  }

  /** Only the first segment is rounded on the left, only the last on the
      right, and exactly the interior segments are skewed. */
  lemma SegmentShapes(value: int, max: int, i: nat)
    requires max > 0 && i < Segments
    ensures Bar(value, max)[i].roundedLeft <==> i == 0
    ensures Bar(value, max)[i].roundedRight <==> i == Segments - 1
    ensures Bar(value, max)[i].skewed <==> 0 < i < Segments - 1
  {
  }

  lemma MulMonotone(a: int, b: int, t: int)
    requires t > 0
    ensures a <= b ==> a * t <= b * t
  {
  }
}
