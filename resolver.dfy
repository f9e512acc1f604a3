/** The size resolver of makeicon: `save_image` (which resizes only when the
    requested dimensions differ) and `resize_and_save_image` (exact match
    first, otherwise resize the last input or fail). The image that would be
    PNG-encoded and written is returned instead of being written. */
module Resolver {
  import opened Common

  /** Why a requested size cannot be produced. `NoMatchingSize` is the
      `ERROR` that aborts the run; `NoInputImages` is the out-of-range
      exception of `input_images.at(size() - 1)` on an empty list. */
  datatype ResolveError = NoMatchingSize(size: int) | NoInputImages

  /** An input that can be used unmodified for `size`. */
  predicate IsExact(image: Raster, size: int)
  {
    image.width == size && image.height == size
  }

  /** The first input of edge length `size`, in list order (the search loop
      of `resize_and_save_image`, and `std::find_if` in the Win32 path). */
  function FirstExact(images: seq<Raster>, size: int): (r: Option<nat>)
    ensures r.Some? ==> r.value < |images| && IsExact(images[r.value], size)
    ensures r.Some? ==> forall j :: 0 <= j < r.value ==> !IsExact(images[j], size)
    ensures r.None? <==> forall j :: 0 <= j < |images| ==> !IsExact(images[j], size)
  {
    if |images| == 0 then None
    else if IsExact(images[0], size) then Some(0)
    else match FirstExact(images[1..], size)
      case None => None
      case Some(j) => Some(j + 1)
  }

  /** `resize_image`: a new image of the given dimensions whose bytes come
      from the resampler. */
  function ResizeImage(image: Raster, width: int, height: int, resample: Resampler): (r: Raster)
    ensures r.width == width && r.height == height
  {
    Raster(width, height, resample(image.pixels, image.width, image.height, CHANNELS, width, height))
  }

  /** The image `save_image(image, name, resizeWidth, resizeHeight)` writes:
      a non-positive requested dimension means "keep the image's own", and
      the image is resized only when the resulting dimensions differ. */
  function SaveImage(image: Raster, resizeWidth: int, resizeHeight: int, resample: Resampler): (r: Raster)
    ensures r.width == (if resizeWidth > 0 then resizeWidth else image.width)
    ensures r.height == (if resizeHeight > 0 then resizeHeight else image.height)
    ensures r.width == image.width && r.height == image.height ==> r == image
  {
    var outputWidth := if resizeWidth > 0 then resizeWidth else image.width;
    var outputHeight := if resizeHeight > 0 then resizeHeight else image.height;
    if outputWidth != image.width || outputHeight != image.height then
      ResizeImage(image, outputWidth, outputHeight, resample)
    else
      image
  }

  /** `resize_and_save_image`: the first exact match is written unmodified;
      with none, the run fails unless resizing is allowed, in which case the
      last input (last in file-name order) is resized to size x size, or kept
      as it is when the size is not positive. */
  function Resolve(images: seq<Raster>, size: int, allowResize: bool, resample: Resampler)
    : (r: Result<Raster, ResolveError>)
    ensures FirstExact(images, size).Some? ==>
      r == Ok(images[FirstExact(images, size).value])
    ensures FirstExact(images, size).None? && !allowResize ==> r == Err(NoMatchingSize(size))
    ensures FirstExact(images, size).None? && allowResize && |images| == 0 ==> r == Err(NoInputImages)
    ensures FirstExact(images, size).None? && allowResize && |images| > 0 && size > 0 ==>
      r == Ok(ResizeImage(images[|images| - 1], size, size, resample))
    ensures FirstExact(images, size).None? && allowResize && |images| > 0 && size <= 0 ==>
      r == Ok(images[|images| - 1])
  {
    match FirstExact(images, size)
    case Some(k) => Ok(SaveImage(images[k], 0, 0, resample))
    case None =>
      if !allowResize then Err(NoMatchingSize(size))
      else if |images| == 0 then Err(NoInputImages)
      else Ok(SaveImage(images[|images| - 1], size, size, resample))
  }

  /** Every image the resolver produces for a valid size is square with
      exactly that edge length. */
  lemma ResolvedHasRequestedSize(images: seq<Raster>, size: int, allowResize: bool, resample: Resampler)
    requires size > 0 && Resolve(images, size, allowResize, resample).Ok?
    ensures Resolve(images, size, allowResize, resample).value.width == size
    ensures Resolve(images, size, allowResize, resample).value.height == size
  {
  }

  /** The resolver fails for a valid size exactly when no input matches and
      resizing is off (for a non-empty input list). */
  lemma ResolveFailsIff(images: seq<Raster>, size: int, allowResize: bool, resample: Resampler)
    requires |images| > 0
    ensures Resolve(images, size, allowResize, resample).Err? <==>
      !allowResize && forall j :: 0 <= j < |images| ==> !IsExact(images[j], size)
  {
  }

  /** An exact match makes the resize flag irrelevant. */
  lemma ExactMatchIgnoresFlag(images: seq<Raster>, size: int, resample: Resampler)
    requires exists j :: 0 <= j < |images| && IsExact(images[j], size)
    ensures Resolve(images, size, true, resample) == Resolve(images, size, false, resample)
    ensures Resolve(images, size, true, resample).Ok?
  {
  }

  // ---- A run of `resize_and_save_image` calls ----

  /** One `resize_and_save_image` call: the file to write and the size. */
  datatype Job = Job(fileName: string, size: int)

  /** What a sequence of calls leaves behind: the files written, in order,
      and the error that aborted the run, if one did. */
  datatype Outcome = Outcome(written: seq<(string, Raster)>, failure: Option<ResolveError>)

  /** One more call after `o`: nothing happens once the run has aborted. */
  function Step(o: Outcome, job: Job, images: seq<Raster>, allowResize: bool, resample: Resampler)
    : (r: Outcome)
    ensures o.failure.Some? ==> r == o
    ensures o.failure.None? && Resolve(images, job.size, allowResize, resample).Ok? ==>
      r == Outcome(o.written + [(job.fileName, Resolve(images, job.size, allowResize, resample).value)], None)
    ensures o.failure.None? && Resolve(images, job.size, allowResize, resample).Err? ==>
      r == Outcome(o.written, Some(Resolve(images, job.size, allowResize, resample).error))
  {
    if o.failure.Some? then o
    else match Resolve(images, job.size, allowResize, resample)
      case Ok(image) => Outcome(o.written + [(job.fileName, image)], None)
      case Err(e) => Outcome(o.written, Some(e))
  }

  /** The calls one after the other, from a run where nothing has been
      written yet. */
  function SaveAll(jobs: seq<Job>, images: seq<Raster>, allowResize: bool, resample: Resampler): Outcome
  {
    if jobs == [] then Outcome([], None)
    else Step(SaveAll(jobs[..|jobs| - 1], images, allowResize, resample), jobs[|jobs| - 1],
              images, allowResize, resample)
  }

  lemma SaveAllStep(jobs: seq<Job>, i: int, images: seq<Raster>, allowResize: bool, resample: Resampler)
    requires 0 <= i < |jobs|
    ensures SaveAll(jobs[..i + 1], images, allowResize, resample)
         == Step(SaveAll(jobs[..i], images, allowResize, resample), jobs[i], images, allowResize, resample)
  {
    assert jobs[..i + 1][..i] == jobs[..i];
  }

  /** Once a call has failed, later calls change nothing. */
  lemma {:induction false} FailureSticks(jobs: seq<Job>, i: int, images: seq<Raster>, allowResize: bool, resample: Resampler)
    requires 0 <= i <= |jobs| && SaveAll(jobs[..i], images, allowResize, resample).failure.Some?
    ensures SaveAll(jobs, images, allowResize, resample) == SaveAll(jobs[..i], images, allowResize, resample)
    decreases |jobs| - i
  {
    if i < |jobs| {
      SaveAllStep(jobs, i, images, allowResize, resample);
      FailureSticks(jobs, i + 1, images, allowResize, resample);
    } else {
      assert jobs[..i] == jobs;
    }
  }

  /** File k of a run is job k's file holding job k's resolved image, and
      the run aborts at the first job that cannot be resolved: everything
      before it is written, nothing after it. */
  lemma {:induction false} SaveAllOutcome(jobs: seq<Job>, images: seq<Raster>, allowResize: bool, resample: Resampler)
    ensures var o := SaveAll(jobs, images, allowResize, resample);
      |o.written| <= |jobs| &&
      (forall k :: 0 <= k < |o.written| ==>
         Resolve(images, jobs[k].size, allowResize, resample).Ok? &&
         o.written[k] == (jobs[k].fileName, Resolve(images, jobs[k].size, allowResize, resample).value)) &&
      (o.failure.None? ==> |o.written| == |jobs|) &&
      (o.failure.Some? ==>
         (|o.written| < |jobs| &&
          Resolve(images, jobs[|o.written|].size, allowResize, resample) == Err(o.failure.value)))
  {
    if jobs != [] {
      var n := |jobs| - 1;
      var init := jobs[..n];
      SaveAllOutcome(init, images, allowResize, resample);
      var o := SaveAll(init, images, allowResize, resample);
      assert SaveAll(jobs, images, allowResize, resample) == Step(o, jobs[n], images, allowResize, resample);
      assert forall k :: 0 <= k < n ==> init[k] == jobs[k];
    }
  }

  /** A run completes exactly when every job can be resolved. */
  lemma SaveAllCompletesIff(jobs: seq<Job>, images: seq<Raster>, allowResize: bool, resample: Resampler)
    ensures SaveAll(jobs, images, allowResize, resample).failure.None? <==>
      forall k :: 0 <= k < |jobs| ==> Resolve(images, jobs[k].size, allowResize, resample).Ok?
  {
    SaveAllOutcome(jobs, images, allowResize, resample);
  }
}
