/**
 The frame sampler: which frame positions of a video are read, and which of
 the reads yield frames. The capture itself is abstract: it reports whether
 it opened, a frame count and, per position, whether a frame decodes there.
 */
module Sampling {
  import opened Seqs

  /**
   What the sampler makes of the capture's frame rate. `ZeroFps` is a reported
   rate of exactly 0 (the capture reports 0 or nothing); `Ratio(rounded)` is any
   other rate, carrying `int(round(video_fps / sample_fps))`, which is computed
   from floating-point values outside this model.
   */
  datatype RateReading = ZeroFps | Ratio(rounded: int)

  /** An opened or unopenable capture, its reported frame count, and which positions decode. */
  datatype Video = Video(isOpened: bool, frameCount: int, decodes: int -> bool)

  /** A decoded still image, known here by the frame position it was read from. */
  datatype Frame = Frame(index: int)

  /** Outcome of sampling: the decoded frames, or the error raised for a capture that did not open. */
  datatype Sampled = Frames(frames: seq<Frame>) | CannotOpen

  /**
   Distance between consecutive sampled positions. Without a frame rate the
   video is split into `maxFrames` equal strides (`max(1, total // maxFrames)`);
   otherwise the rounded rate ratio is used, raised to 1 when it is not positive.
   */
  function Step(rate: RateReading, totalFrames: int, maxFrames: int): (step: int)
    requires maxFrames >= 1
    ensures step >= 1
    ensures rate.Ratio? && rate.rounded >= 1 ==> step == rate.rounded
    ensures rate.Ratio? && rate.rounded < 1 ==> step == 1
    ensures rate.ZeroFps? && totalFrames < maxFrames ==> step == 1
    ensures rate.ZeroFps? && totalFrames >= maxFrames ==>
      step * maxFrames <= totalFrames < (step + 1) * maxFrames
  {
    match rate
    case ZeroFps => Max(1, totalFrames / maxFrames)
    case Ratio(rounded) => if rounded <= 0 then 1 else rounded
  }

  /** Python's `range(start, stop, step)` for a positive step. */
  function Range(start: int, stop: int, step: int): (r: seq<int>)
    requires step >= 1
    ensures forall k :: 0 <= k < |r| ==> r[k] == start + k * step
    ensures |r| == 0 <==> stop <= start
    ensures |r| > 0 ==> start + (|r| - 1) * step < stop <= start + |r| * step
    decreases stop - start
  {
    if stop <= start then []
    else
      var rest := Range(start + step, stop, step);
      assert forall k :: 1 <= k <= |rest| ==> start + step + (k - 1) * step == start + k * step by {
        forall k | 1 <= k <= |rest| ensures start + step + (k - 1) * step == start + k * step {
          assert (k - 1) * step + step == k * step;
        }
      }
      assert |rest| * step + step == (|rest| + 1) * step;
      [start] + rest
  }

  /**
   `list(range(0, totalFrames, step))[:maxFrames]`: the positions
   `0, step, 2*step, ...` below the frame count, at most `maxFrames` of them,
   and every such position unless the cap is reached.
   */
  function SelectIndices(rate: RateReading, totalFrames: int, maxFrames: int): (r: seq<int>)
    requires maxFrames >= 1
    ensures |r| <= maxFrames
    ensures forall k :: 0 <= k < |r| ==> r[k] == k * Step(rate, totalFrames, maxFrames)
    ensures forall k :: 0 <= k < |r| ==> 0 <= r[k] < totalFrames
    ensures forall k :: 0 <= k < maxFrames && k * Step(rate, totalFrames, maxFrames) < totalFrames ==> k < |r|
    ensures totalFrames <= 0 ==> r == []
  {
    var step := Step(rate, totalFrames, maxFrames);
    var all := Range(0, totalFrames, step);
    assert forall k :: 0 <= k < |all| ==> 0 <= all[k] by {
      forall k | 0 <= k < |all| ensures 0 <= all[k] {
        MulMonotone(0, k, step);
      }
    }
    assert forall k :: |all| <= k ==> totalFrames <= k * step by {
      forall k | |all| <= k ensures totalFrames <= k * step {
        MulMonotone(|all|, k, step);
      }
    }
    assert forall k :: 0 <= k < |all| ==> all[k] < totalFrames by {
      forall k | 0 <= k < |all| ensures all[k] < totalFrames {
        MulMonotone(k, |all| - 1, step);
      }
    }
    Take(all, maxFrames)
  }

  /** Multiplying by a positive factor keeps the order of two integers, strictly when they differ. */
  lemma MulMonotone(a: int, b: int, c: int)
    requires a <= b && c >= 1
    ensures a * c <= b * c
    ensures a < b ==> a * c < b * c
  {
    assert b * c - a * c == (b - a) * c;
  }

  /** The selected positions are strictly increasing. */
  lemma SelectedIncreasing(rate: RateReading, totalFrames: int, maxFrames: int)
    requires maxFrames >= 1
    ensures StrictlyIncreasing(SelectIndices(rate, totalFrames, maxFrames))
  {
    var r := SelectIndices(rate, totalFrames, maxFrames);
    var step := Step(rate, totalFrames, maxFrames);
    forall i, j | 0 <= i < j < |r| ensures r[i] < r[j] {
      MulMonotone(i, j, step);
    }
  }

  /**
   Without a frame rate and with a non-negative frame count, exactly
   `min(maxFrames, totalFrames)` positions are selected.
   */
  lemma UniformSelectionCount(totalFrames: int, maxFrames: int)
    requires maxFrames >= 1 && totalFrames >= 0
    ensures |SelectIndices(ZeroFps, totalFrames, maxFrames)| == Min(maxFrames, totalFrames)
  {
    var r := SelectIndices(ZeroFps, totalFrames, maxFrames);
    var step := Step(ZeroFps, totalFrames, maxFrames);
    if totalFrames < maxFrames {
      assert step == 1;
      assert totalFrames - 1 < totalFrames;
    } else {
      assert (maxFrames - 1) * step < totalFrames by {
        MulMonotone(maxFrames - 1, maxFrames, step);
        assert maxFrames * step == step * maxFrames;
      }
    }
  }

  /**
   The loop over the selected positions: each position is read, and a frame
   is kept only when it decodes; failures are skipped without a placeholder.
   */
  method ReadFrames(idxs: seq<int>, decodes: int -> bool) returns (frames: seq<Frame>)
    ensures |frames| == |Filter(idxs, decodes)|
    ensures forall k :: 0 <= k < |frames| ==> frames[k] == Frame(Filter(idxs, decodes)[k])
    ensures (forall k :: 0 <= k < |idxs| ==> !decodes(idxs[k])) ==> frames == []
  {
    frames := [];
    var i := 0;
    while i < |idxs|
      invariant 0 <= i <= |idxs|
      invariant |frames| == |Filter(idxs[..i], decodes)|
      invariant forall k :: 0 <= k < |frames| ==> frames[k] == Frame(Filter(idxs[..i], decodes)[k])
    {
      var idx := idxs[i];
      FilterSnoc(idxs[..i], idx, decodes);
      assert idxs[..i + 1] == idxs[..i] + [idx];
      if decodes(idx) {
        frames := frames + [Frame(idx)];
      }
      i := i + 1;
    }
    assert idxs[..i] == idxs;
    if forall k :: 0 <= k < |idxs| ==> !decodes(idxs[k]) {
      FilterNone(idxs, decodes);
    }
  }

  /**
   `sample_frames` without the floating-point duration: an unopenable capture
   is an error; otherwise the frames are exactly the selected positions that
   decode, in increasing position order, never more than were selected.
   */
  method SampleFrames(video: Video, rate: RateReading, maxFrames: int) returns (result: Sampled)
    requires maxFrames >= 1
    ensures result.CannotOpen? <==> !video.isOpened
    ensures result.Frames? ==> |result.frames| <= |SelectIndices(rate, video.frameCount, maxFrames)| <= maxFrames
    ensures result.Frames? ==> forall i :: Frame(i) in result.frames <==>
      i in SelectIndices(rate, video.frameCount, maxFrames) && video.decodes(i)
    ensures result.Frames? ==> forall a, b :: 0 <= a < b < |result.frames| ==>
      result.frames[a].index < result.frames[b].index
    ensures result.Frames? ==> forall k :: 0 <= k < |result.frames| ==>
      0 <= result.frames[k].index < video.frameCount
  {
    if !video.isOpened {
      return CannotOpen;
    }
    var idxs := SelectIndices(rate, video.frameCount, maxFrames);
    var frames := ReadFrames(idxs, video.decodes);
    var kept := Filter(idxs, video.decodes);
    SelectedIncreasing(rate, video.frameCount, maxFrames);
    FilterIncreasing(idxs, video.decodes);
    forall i ensures Frame(i) in frames <==> i in kept {
      if Frame(i) in frames {
        var k :| 0 <= k < |frames| && frames[k] == Frame(i);
        assert kept[k] == i;
      }
      if i in kept {
        var k :| 0 <= k < |kept| && kept[k] == i;
        assert frames[k] == Frame(i);
      }
    }
    forall k | 0 <= k < |frames| ensures 0 <= frames[k].index < video.frameCount {
      assert kept[k] in idxs;
    }
    return Frames(frames);
  }
}
