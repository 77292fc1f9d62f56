/** The channel interpolator: a linear fade of one colour channel. */
module Interpolate {

  /** The value of one channel `progress` seconds into a fade of `duration` seconds
      from `from` to `to`: the range is cut into equal per-second steps and `progress`
      of them are added to `from`. The division is unguarded, so the duration must not
      be zero; there is no clamping, so a progress outside 0..duration extrapolates. */
  function StepColor(from: real, to: real, duration: real, progress: real): (r: real)
    requires duration != 0.0
    ensures progress == 0.0 ==> r == from
    ensures progress == duration ==> r == to
    ensures from == to ==> r == from
  {
    var range := to - from;
    var singleStep := range / duration;
    var currentStep := singleStep * progress;
    from + currentStep
  }

  function Min(a: real, b: real): (lo: real) { if a <= b then a else b }

  function Max(a: real, b: real): (hi: real) { if a <= b then b else a }

  /** Within a fade the value never leaves the interval spanned by its endpoints. */
  lemma StepColorBetween(from: real, to: real, duration: real, progress: real)
    requires 0.0 < duration && 0.0 <= progress <= duration
    ensures Min(from, to) <= StepColor(from, to, duration, progress) <= Max(from, to)
  {
    var f := progress / duration;
    assert 0.0 <= f <= 1.0;
    assert StepColor(from, to, duration, progress) == from + (to - from) * f;
  }

  /** The value moves monotonically towards `to` as the progress grows. */
  lemma StepColorMonotone(from: real, to: real, duration: real, p1: real, p2: real)
    requires 0.0 < duration && p1 <= p2
    ensures from <= to ==> StepColor(from, to, duration, p1) <= StepColor(from, to, duration, p2)
    ensures to <= from ==> StepColor(from, to, duration, p2) <= StepColor(from, to, duration, p1)
  {
    var step := (to - from) / duration;
    if from <= to {
      MulNonNegative(step, p2 - p1);
    } else {
      MulNonNegative(-step, p2 - p1);
    }
    assert StepColor(from, to, duration, p2) - StepColor(from, to, duration, p1) == step * (p2 - p1);
  }

  lemma MulNonNegative(a: real, b: real)
    requires 0.0 <= a && 0.0 <= b
    ensures 0.0 <= a * b
  {
  }

  /** Endpoints inside an interval (the 0..255 of a channel, say) keep the whole fade inside it. */
  lemma StepColorInRange(from: real, to: real, duration: real, progress: real, lo: real, hi: real)
    requires 0.0 < duration && 0.0 <= progress <= duration
    requires lo <= from <= hi && lo <= to <= hi
    ensures lo <= StepColor(from, to, duration, progress) <= hi
  {
    StepColorBetween(from, to, duration, progress);
  }
}
