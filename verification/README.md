# Video caption sampling and aggregation, modelled in Dafny

The tool samples still frames from a video, captions each frame with an
image-captioning model, and collapses the per-frame captions into one
caption. This project models the two pieces of that pipeline that are plain
logic and proves properties about them:

- **The caption aggregator** (`aggregate_captions`). An empty list gives the
  empty string. Otherwise the most common caption wins outright when it
  occurs at least `max(2, len // 3)` times. Ties go to the caption seen first.
  Failing that, the answer is the `" / "`-join of the first five distinct
  captions, in order of first appearance.
- **The frame-index selection of the sampler** (`sample_frames`). The step
  between positions comes from the frame rate, or from an even split when the
  reported rate is 0. The positions are `range(0, total, step)[:max_frames]`.
  A position is kept only when a frame decodes there.

Files:

- `seqs.dfy` (module `Seqs`): counting (`Counter`), first occurrence,
  order-preserving de-duplication (`dict.fromkeys`), slicing (`xs[:n]`) and
  filtering, with their characterising lemmas.
- `aggregate.dfy` (module `Captions`): the threshold, `most_common(1)`,
  `str.join`, the aggregator, and the worked examples.
- `sampling.dfy` (module `Sampling`): the step, Python's `range`, the index
  selection, the decode loop and the sampler as a whole.

`Counter.most_common(1)` takes `max` over the counter's entries. The counter
lists distinct captions in order of first appearance, and `max` keeps the
earlier entry on a tie. `Captions.ArgMaxFrom` is that scan.
`Captions.IsMostCommon` is the independent description: the caption has the
highest count, and every caption seen before it is strictly rarer.
`Captions.MostCommonUnique` shows that this description fixes the caption.

The capture is an abstract `Sampling.Video`. It records whether the capture
opened, its frame count, and a per-position "decodes" predicate. The rate is a
`Sampling.RateReading`: either `ZeroFps`, or `Ratio(rounded)`, which carries
the already-rounded integer `round(video_fps / sample_fps)`.

Two details of the rate handling matter for the model:

- Only a reported frame rate of exactly 0 falls back to even spacing
  (app_video_caption.py:22). Any other rate, negative ones included, goes
  through the rounded-ratio branch (line 27).
- In that branch the sign of `round(video_fps / sample_fps)` decides whether
  the clamp to 1 at lines 28-29 applies: it applies exactly when the rounded
  ratio is not positive (`RateReading.Ratio` with a non-positive `rounded`).
  A negative frame rate with a positive sampling rate, or the reverse, is
  always clamped. Two rates of the same sign give a positive ratio, which is
  clamped only when it rounds to 0 (a ratio of at most 0.5, since `round`
  sends 0.5 to 0). A sampling rate of 0 raises `ZeroDivisionError` there.

## Model

| member | source | states |
|---|---|---|
| `Seqs.Count` | app_video_caption.py:58 | the count of a caption never exceeds the list length, and it is positive exactly when the caption occurs |
| `Seqs.CountIsMultiplicity` | app_video_caption.py:58 | the count of a caption equals its multiplicity in the multiset of captions, which is what the counter stores |
| `Seqs.Dedup` | app_video_caption.py:64 | the de-duplicated list has no repeats, holds exactly the values of the input, and lists them in order of first appearance |
| `Seqs.FirstAppearanceOrderUnique` | app_video_caption.py:64 | two repeat-free lists with the same values, both in order of first appearance, are equal, so that description fixes the de-duplicated list |
| `Seqs.DedupLength` | app_video_caption.py:64 | the de-duplicated list has one entry per distinct value of the input |
| `Seqs.Take` | app_video_caption.py:65 | the slice `xs[:n]` has `min(n, len)` elements, and they are the leading elements of `xs` |
| `Seqs.Filter` | app_video_caption.py:32-40 | filtering never lengthens the list, and it keeps exactly the values that satisfy the predicate |
| `Seqs.FilterIncreasing` | app_video_caption.py:32-40 | filtering a strictly increasing list leaves it strictly increasing |
| `Captions.Threshold` | app_video_caption.py:61 | the majority threshold is 2 for fewer than 6 captions, and from 6 captions on it is the integer part of a third of the count |
| `Captions.ArgMaxFrom` | app_video_caption.py:59 | the scan used by `max` returns a position whose count is the highest, and every earlier position has a strictly lower count |
| `Captions.MostCommon` | app_video_caption.py:58-59 | `most_common(1)` on a non-empty list returns a caption of the list with the highest count, and every caption seen earlier is strictly rarer |
| `Captions.MostCommonUnique` | app_video_caption.py:58-59 | any caption meeting that description is the one `most_common(1)` returns, so the tie-break is first appearance |
| `Captions.Join` | app_video_caption.py:65 | joining no parts gives the empty string; otherwise the length is the parts' total length plus one separator between each pair of neighbours |
| `Captions.JoinSegments` | app_video_caption.py:65 | the joined string is part 0, then the separator, then part 1, and so on: each part and each separator sits at its computed offset |
| `Captions.Aggregate` | app_video_caption.py:54-62 | an empty list gives ""; a most common caption whose count reaches `max(2, len // 3)` is returned unchanged |
| `Captions.AggregateFallback` | app_video_caption.py:63-66 | when no caption reaches the threshold, the result is the " / "-join of the first five entries of the first-appearance listing of the distinct captions, and that listing has one entry per distinct caption |
| `Captions.AggregateAllDistinct` | app_video_caption.py:61-65 | when no caption repeats, the result is the " / "-join of the first `min(5, len)` captions in input order |
| `Captions.AggregateSingle` | app_video_caption.py:61-65 | a one-caption list returns that caption |
| `Captions.ExampleMajority` | app_video_caption.py:58-62 | three "cat on a mat" out of four captions give "cat on a mat" |
| `Captions.ExampleFallback` | app_video_caption.py:63-66 | the distinct captions "a", "b", "c" give "a / b / c" |
| `Captions.ExampleLaterWinner` | app_video_caption.py:58-62 | in x, x, y, y, y, z, w the threshold is 2, and y wins because it is more frequent than the earlier x |
| `Sampling.Step` | app_video_caption.py:22-29 | the step is at least 1; a positive rounded ratio is used as is and a non-positive one becomes 1; at a rate of 0 it is the largest stride that fits `max_frames` times into the frame count, or 1 when none does |
| `Sampling.Range` | app_video_caption.py:25 | `range(start, stop, step)` is `start, start+step, ...`, empty when `stop <= start`, and otherwise ends at the last value below `stop` |
| `Sampling.SelectIndices` | app_video_caption.py:22-30 | the selected positions are `0, step, 2*step, ...`, all inside `[0, total)`, at most `max_frames` of them, none when `total <= 0`, and no multiple of the step below the total is skipped unless the cap is reached |
| `Sampling.SelectedIncreasing` | app_video_caption.py:25-30 | the selected positions are strictly increasing |
| `Sampling.UniformSelectionCount` | app_video_caption.py:22-25 | at a frame rate of 0, with a non-negative frame count, exactly `min(max_frames, total)` positions are selected |
| `Sampling.ReadFrames` | app_video_caption.py:32-40 | the decode loop returns one frame per selected position that decodes, in order, with nothing for a failed read; it returns nothing when every read fails |
| `Sampling.SampleFrames` | app_video_caption.py:14-43 | an unopenable capture is an error; otherwise the frames are exactly the selected positions that decode, in increasing position order, all inside the frame count, and no more than the selected positions, which are at most `max_frames` |

## Left out

- Video decoding: opening, seeking and reading the capture, the BGR to RGB conversion and the PIL image (app_video_caption.py:14-16, 33-42). This is foreign I/O. The model keeps only whether the capture opened, its frame count and a per-position decode-success predicate. A frame is known only by its position.
- The duration `total_frames / video_fps` (app_video_caption.py:19). It is floating-point and does not affect which frames are chosen.
- `round(video_fps / sample_fps)` (app_video_caption.py:27). It uses floating-point division and banker's rounding. The model takes its integer value as the input `RateReading.Ratio(rounded)`. `round` raises `OverflowError` when the ratio is infinite (a tiny sampling rate) and `ValueError` when it is NaN (a backend reporting a NaN frame rate, which passes the checks at lines 17 and 22); `RateReading` has no value for either, so these errors are outside the model. The conversion of the frame count to an integer (line 18) is likewise an input.
- `sample_fps == 0` raises `ZeroDivisionError` at line 27. The model does not represent that error, because the rounded ratio arrives already computed.
- `Sampling.Step`, `Sampling.SelectIndices`, `Sampling.SampleFrames`: `max_frames >= 1` is required. A value of 0 raises `ZeroDivisionError` at line 24 in the zero-rate branch, but with a non-zero frame rate it is accepted and line 30 selects no positions, so no frames are returned; the model excludes that case as well. A negative value gives Python's negative-slice semantics at lines 25 and 30, which the model does not cover.
- `generate_captions_for_frames` (app_video_caption.py:45-52). It calls a pretrained image-captioning model once per frame. It has no logic of its own beyond an order-preserving map.
- `main` (app_video_caption.py:68-109). It covers argument parsing, device selection, model loading, printing, directory creation, and writing the `frame_NN` image and text files.
