/** The Android back end, `make_icon_android`: five launcher icons, one per
    screen density, derived from the first requested size and written as
    `<output>/mipmap-<density>/ic_launcher.png`. */
module Android {
  import opened Common
  import opened Resolver

  /** The density directories, from the largest density to the smallest. */
  const DIRECTORIES: seq<string> :=
    ["mipmap-xxxhdpi/", "mipmap-xxhdpi/", "mipmap-xhdpi/", "mipmap-hdpi/", "mipmap-mdpi/"]

  const LAUNCHER_NAME: string := "ic_launcher.png"

  /** The five edge lengths derived from the base size s with integer
      division: s, s/2 + s/4, s/2, s/4 + s/8 and s/4 (the 4x, 3x, 2x, 1.5x
      and 1x densities relative to mdpi). */
  function DensitySizes(s: int): (r: seq<int>)
    requires s >= 0
    ensures |r| == |DIRECTORIES|
  {
    [s, s / 2 + s / 4, s / 2, s / 4 + s / 8, s / 4]
  }

  /** The five calls of the loop, in directory order. */
  function AndroidJobs(output: string, s: int): (r: seq<Job>)
    requires s >= 0
    ensures |r| == |DIRECTORIES|
  {
    seq(|DIRECTORIES|, i requires 0 <= i < |DIRECTORIES| =>
      Job(output + "/" + DIRECTORIES[i] + LAUNCHER_NAME, DensitySizes(s)[i]))
  }

  /** `make_icon_android`: the density loop, each iteration resolving and
      saving one icon; an unresolvable size aborts the run, leaving the
      icons already written. */
  method MakeIconAndroid(images: seq<Raster>, s: int, output: string, allowResize: bool, resample: Resampler)
    returns (outcome: Outcome)
    requires s >= 0
    ensures outcome == SaveAll(AndroidJobs(output, s), images, allowResize, resample)
  {
    var sizes := DensitySizes(s);
    var jobs := AndroidJobs(output, s);
    var written: seq<(string, Raster)> := [];
    var failure: Option<ResolveError> := None;
    var i := 0;
    while i < 5 && failure.None?
      invariant 0 <= i <= 5
      invariant Outcome(written, failure) == SaveAll(jobs[..i], images, allowResize, resample)
    {
      var directory := output + "/" + DIRECTORIES[i];
      SaveAllStep(jobs, i, images, allowResize, resample);
      match Resolve(images, sizes[i], allowResize, resample) {
        case Ok(image) => written := written + [(directory + LAUNCHER_NAME, image)];
        case Err(e) => failure := Some(e);
      }
      i := i + 1;
    }
    if failure.Some? {
      FailureSticks(jobs, i, images, allowResize, resample);
    } else {
      assert jobs[..i] == jobs;
    }
    outcome := Outcome(written, failure);
  }

  /** The sizes never grow from one density to the next, and none exceeds
      the base size or drops below zero. */
  lemma DensitySizesNonIncreasing(s: int)
    requires s >= 0
    ensures forall i, j :: 0 <= i <= j < 5 ==> DensitySizes(s)[i] >= DensitySizes(s)[j] >= 0
  {
  }

  /** Each derived size is its density's fraction of the base size, rounded
      down by at most the divisions' truncation: 3/4, 1/2, 3/8 and 1/4. */
  lemma DensityRatios(s: int)
    requires s >= 0
    ensures var r := DensitySizes(s);
      r[0] == s &&
      3 * s - 8 < 4 * r[1] <= 3 * s &&
      s - 2 < 2 * r[2] <= s &&
      3 * s - 16 < 8 * r[3] <= 3 * s &&
      s - 4 < 4 * r[4] <= s
  {
  }

  /** The documented example: a base of 192 gives 192, 144, 96, 72, 48. */
  lemma Base192()
    ensures DensitySizes(192) == [192, 144, 96, 72, 48]
  {
  }

  /** A completed run writes the five icons in directory order, xxxhdpi
      first, each square at its density's size. */
  lemma AndroidFiles(images: seq<Raster>, s: int, output: string, allowResize: bool, resample: Resampler)
    requires s >= 4
    requires SaveAll(AndroidJobs(output, s), images, allowResize, resample).failure.None?
    ensures var o := SaveAll(AndroidJobs(output, s), images, allowResize, resample);
      |o.written| == 5 &&
      forall i :: 0 <= i < 5 ==>
        o.written[i].0 == output + "/" + DIRECTORIES[i] + LAUNCHER_NAME &&
        o.written[i].1.width == DensitySizes(s)[i] && o.written[i].1.height == DensitySizes(s)[i]
  {
    var jobs := AndroidJobs(output, s);
    SaveAllOutcome(jobs, images, allowResize, resample);
    DensitySizesNonIncreasing(s);
    forall i | 0 <= i < 5
      ensures SaveAll(jobs, images, allowResize, resample).written[i].1.width == DensitySizes(s)[i]
      ensures SaveAll(jobs, images, allowResize, resample).written[i].1.height == DensitySizes(s)[i]
    {
      ResolvedHasRequestedSize(images, jobs[i].size, allowResize, resample);
    }
  }

  /** A base below 4 makes the mdpi size 0, and `save_image` then keeps the
      chosen image's own dimensions: with resizing on and no empty input,
      the mdpi icon is the last input, unresized. */
  lemma TinyBaseKeepsLastImage(images: seq<Raster>, s: int, resample: Resampler)
    requires 0 <= s < 4 && |images| > 0
    requires forall j :: 0 <= j < |images| ==> !IsExact(images[j], 0)
    ensures DensitySizes(s)[4] == 0
    ensures Resolve(images, DensitySizes(s)[4], true, resample) == Ok(images[|images| - 1])
  {
  }
}
