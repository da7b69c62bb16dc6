/** `select_thumbnail_frames`: the times at which thumbnails are grabbed, evenly
    spaced inside the video. */
module Thumbnails {

  /** Python's default number of thumbnails. */
  const DefaultCount: int := 3

  /** `count` times splitting `duration` into `count + 1` equal gaps, or the
      single time 0.0 when the duration or the count is not positive. */
  function SelectThumbnailFrames(duration: real, count: int): (r: seq<real>)
    ensures duration <= 0.0 || count <= 0 ==> r == [0.0]
    ensures duration > 0.0 && count > 0 ==> |r| == count
  {
    if duration <= 0.0 || count <= 0 then [0.0]
    else
      var step := duration / (count + 1) as real;
      seq(count, i requires 0 <= i < count => step * (i + 1) as real)
  }

  /** The gap between consecutive thumbnails. */
  function Step(duration: real, count: nat): real {
    duration / (count + 1) as real
  }

  lemma ScaleLess(step: real, a: real, b: real)
    requires step > 0.0 && a < b
    ensures step * a < step * b
  {
    assert step * b - step * a == step * (b - a);
  }

  lemma StepPositive(duration: real, count: nat)
    requires duration > 0.0
    ensures Step(duration, count) > 0.0
    ensures Step(duration, count) * (count + 1) as real == duration
  {
  }

  /** The i-th time is the fraction (i + 1) / (count + 1) of the duration. */
  lemma FrameFraction(duration: real, count: int, i: int)
    requires duration > 0.0 && count > 0 && 0 <= i < count
    ensures SelectThumbnailFrames(duration, count)[i] * (count + 1) as real == duration * (i + 1) as real
  {
    var step := Step(duration, count);
    StepPositive(duration, count);
    assert SelectThumbnailFrames(duration, count)[i] == step * (i + 1) as real;
    assert step * (i + 1) as real * (count + 1) as real == step * (count + 1) as real * (i + 1) as real;
  }

  /** The times strictly increase. */
  lemma FramesIncrease(duration: real, count: int, i: int, j: int)
    requires duration > 0.0 && count > 0 && 0 <= i < j < count
    ensures SelectThumbnailFrames(duration, count)[i] < SelectThumbnailFrames(duration, count)[j]
  {
    StepPositive(duration, count);
    ScaleLess(Step(duration, count), (i + 1) as real, (j + 1) as real);
  }

  /** Every time lies strictly inside the video. */
  lemma FramesInside(duration: real, count: int, i: int)
    requires duration > 0.0 && count > 0 && 0 <= i < count
    ensures 0.0 < SelectThumbnailFrames(duration, count)[i] < duration
  {
    var step := Step(duration, count);
    StepPositive(duration, count);
    ScaleLess(step, 0.0, (i + 1) as real);
    ScaleLess(step, (i + 1) as real, (count + 1) as real);
  }

  /** The gap between the last time and the end of the video equals the
      first time, for any number of thumbnails. */
  lemma FramesEndGap(duration: real, count: int)
    requires duration > 0.0 && count > 0
    ensures var r := SelectThumbnailFrames(duration, count);
      duration - r[count - 1] == r[0]
  {
    var step := Step(duration, count);
    StepPositive(duration, count);
    var r := SelectThumbnailFrames(duration, count);
    assert duration - r[count - 1] == step * ((count + 1) as real - count as real);
  }

  /** The gaps are all equal to the first time, which is also the gap between
      the last time and the end of the video. */
  lemma FramesEvenlySpaced(duration: real, count: int, i: int)
    requires duration > 0.0 && count > 0 && 0 <= i < count - 1
    ensures var r := SelectThumbnailFrames(duration, count);
      r[i + 1] - r[i] == r[0] && duration - r[count - 1] == r[0]
  {
    var step := Step(duration, count);
    StepPositive(duration, count);
    var r := SelectThumbnailFrames(duration, count);
    assert r[i + 1] - r[i] == step * ((i + 2) as real - (i + 1) as real);
    assert duration - r[count - 1] == step * ((count + 1) as real - count as real);
  }

  /** The times are placed symmetrically about the middle of the video. */
  lemma FramesSymmetric(duration: real, count: int, i: int)
    requires duration > 0.0 && count > 0 && 0 <= i < count
    ensures var r := SelectThumbnailFrames(duration, count);
      r[i] + r[count - 1 - i] == duration
  {
    var step := Step(duration, count);
    StepPositive(duration, count);
    var r := SelectThumbnailFrames(duration, count);
    assert r[i] + r[count - 1 - i] == step * ((i + 1) as real + (count - i) as real);
  }

  /** With the default count, a 100-second video gets thumbnails at its
      quarter points. */
  lemma DefaultFramesExample()
    ensures SelectThumbnailFrames(100.0, DefaultCount) == [25.0, 50.0, 75.0]
  {
  }
}
