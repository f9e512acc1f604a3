/** The Windows back end, `make_icon_win32`: one PNG per requested size, an
    ICONDIR header, one ICONDIRENTRY per PNG with running offsets, then the
    PNG payloads in the same order. The file's bytes are returned instead of
    being written. */
module Win32 {
  import opened Common
  import opened Resolver
  import opened Ico

  /** The foreign PNG encoder (stb's `stbi_write_png_to_mem`). */
  type Encoder = Raster -> seq<U8>

  /** `PngImage`: the dimensions of the source image and its encoded bytes
      (`data_size` is the length of `data`). */
  datatype PngImage = PngImage(width: int, height: int, data: seq<U8>)

  function Png(image: Raster, encode: Encoder): PngImage
  {
    PngImage(image.width, image.height, encode(image))
  }

  /** The image chosen for one size: the first exact match, otherwise the
      last input resized to size x size. Unlike `Resolver.Resolve`, the
      resize flag is not consulted. */
  function Select(images: seq<Raster>, size: int, resample: Resampler): (r: Raster)
    requires |images| > 0
    ensures r.width == size && r.height == size
    ensures FirstExact(images, size).Some? ==> r == images[FirstExact(images, size).value]
    ensures FirstExact(images, size).None? ==> r == ResizeImage(images[|images| - 1], size, size, resample)
  {
    match FirstExact(images, size)
    case Some(k) => images[k]
    case None => ResizeImage(images[|images| - 1], size, size, resample)
  }

  /** `output_images`: one PNG per requested size, in request order. */
  function OutputImages(images: seq<Raster>, sizes: seq<int>, resample: Resampler, encode: Encoder)
    : (r: seq<PngImage>)
    requires |images| > 0
    ensures |r| == |sizes|
    ensures forall k :: 0 <= k < |sizes| ==> r[k].width == sizes[k] && r[k].height == sizes[k]
  {
    seq(|sizes|, k requires 0 <= k < |sizes| => Png(Select(images, sizes[k], resample), encode))
  }

  /** The sum of the directory's `size` fields over `pngs` (each payload
      length cast to `u32`). */
  function SumSizes(pngs: seq<PngImage>): nat
  {
    if pngs == [] then 0 else SumSizes(pngs[..|pngs| - 1]) + ToU32(|pngs[|pngs| - 1].data|)
  }

  /** The payload bytes, one PNG after the other. */
  function Payloads(pngs: seq<PngImage>): seq<U8>
  {
    if pngs == [] then [] else Payloads(pngs[..|pngs| - 1]) + pngs[|pngs| - 1].data
  }

  /** The running `offset` before entry k: header plus directory, plus the
      sizes of the earlier entries. */
  function OffsetOf(pngs: seq<PngImage>, k: int): nat
    requires 0 <= k <= |pngs|
  {
    ICON_DIR_SIZE + ICON_DIR_ENTRY_SIZE * |pngs| + SumSizes(pngs[..k])
  }

  /** The directory entry written for one PNG at the given running offset. */
  function Entry(png: PngImage, offset: int): IconDirEntry
  {
    IconDirEntry(ToU8(png.width), ToU8(png.height), 0, 0, 0, 32, ToU32(|png.data|), ToU32(offset))
  }

  function Directory(pngs: seq<PngImage>): (r: seq<IconDirEntry>)
    ensures |r| == |pngs|
  {
    seq(|pngs|, k requires 0 <= k < |pngs| => Entry(pngs[k], OffsetOf(pngs, k)))
  }

  function Header(n: int): IconDir
  {
    IconDir(0, IMAGE_TYPE_ICO, ToU16(n))
  }

  /** The whole file: header, directory, payloads. */
  function IcoFile(pngs: seq<PngImage>): seq<U8>
  {
    EncodeDir(Header(|pngs|)) + EncodeEntries(Directory(pngs)) + Payloads(pngs)
  }

  lemma SumSizesStep(pngs: seq<PngImage>, i: int)
    requires 0 <= i < |pngs|
    ensures SumSizes(pngs[..i + 1]) == SumSizes(pngs[..i]) + ToU32(|pngs[i].data|)
  {
    assert pngs[..i + 1][..i] == pngs[..i];
  }

  /** The first loop of `make_icon_win32`: one PNG per requested size. */
  method EncodeImages(images: seq<Raster>, sizes: seq<int>, resample: Resampler, encode: Encoder)
    returns (outputs: seq<PngImage>)
    requires |images| > 0
    ensures outputs == OutputImages(images, sizes, resample, encode)
  {
    outputs := [];
    for i := 0 to |sizes|
      invariant |outputs| == i
      invariant forall k :: 0 <= k < i ==> outputs[k] == Png(Select(images, sizes[k], resample), encode)
    {
      var chosen: Raster;
      match FirstExact(images, sizes[i]) {
        case Some(k) => chosen := images[k];
        case None => chosen := ResizeImage(images[|images| - 1], sizes[i], sizes[i], resample);
      }
      outputs := outputs + [Png(chosen, encode)];
    }
  }

  /** The directory loop: one entry per PNG, the running offset advanced by
      each entry's `size`. */
  method BuildDirectory(outputs: seq<PngImage>) returns (directory: seq<IconDirEntry>)
    ensures directory == Directory(outputs)
  {
    var offset := ICON_DIR_SIZE + ICON_DIR_ENTRY_SIZE * |outputs|;
    directory := [];
    for i := 0 to |outputs|
      invariant |directory| == i
      invariant forall k :: 0 <= k < i ==> directory[k] == Directory(outputs)[k]
      invariant offset == OffsetOf(outputs, i)
    {
      var entry := Entry(outputs[i], offset);
      directory := directory + [entry];
      SumSizesStep(outputs, i);
      offset := offset + entry.size;
    }
  }

  /** The writes to the output stream: header, every entry, every payload. */
  method Serialise(header: IconDir, directory: seq<IconDirEntry>, outputs: seq<PngImage>)
    returns (file: seq<U8>)
    ensures file == EncodeDir(header) + EncodeEntries(directory) + Payloads(outputs)
  {
    file := EncodeDir(header);
    for i := 0 to |directory|
      invariant file == EncodeDir(header) + EncodeEntries(directory[..i])
    {
      assert directory[..i + 1][..i] == directory[..i];
      file := file + EncodeEntry(directory[i]);
    }
    assert directory[..|directory|] == directory;
    var prefix := file;
    for i := 0 to |outputs|
      invariant file == prefix + Payloads(outputs[..i])
    {
      assert outputs[..i + 1][..i] == outputs[..i];
      file := file + outputs[i].data;
    }
    assert outputs[..|outputs|] == outputs;
  }

  /** `make_icon_win32`: the PNGs, the header, the directory, and the byte
      stream written to the output file. */
  method MakeIconWin32(images: seq<Raster>, sizes: seq<int>, resample: Resampler, encode: Encoder)
    returns (file: seq<U8>)
    requires |images| > 0
    ensures file == IcoFile(OutputImages(images, sizes, resample, encode))
  {
    var outputs := EncodeImages(images, sizes, resample, encode);
    var header := IconDir(0, IMAGE_TYPE_ICO, ToU16(|sizes|));
    var directory := BuildDirectory(outputs);
    file := Serialise(header, directory, outputs);
  }

  // ---- The chosen images ----

  /** With resizing allowed, the Win32 choice is the resolver's. */
  lemma SelectIsResolveWithResize(images: seq<Raster>, size: int, resample: Resampler)
    requires |images| > 0 && size > 0
    ensures Resolve(images, size, true, resample) == Ok(Select(images, size, resample))
  {
  }

  /** Without an exact match the Win32 path still resizes, where the resolver
      with resizing off fails. */
  lemma SelectIgnoresResizeFlag(images: seq<Raster>, size: int, resample: Resampler)
    requires |images| > 0 && size > 0
    requires forall j :: 0 <= j < |images| ==> !IsExact(images[j], size)
    ensures Resolve(images, size, false, resample) == Err(NoMatchingSize(size))
    ensures Select(images, size, resample) == ResizeImage(images[|images| - 1], size, size, resample)
  {
  }

  // ---- Lengths and offsets ----

  /** While no payload is 4 GiB or larger, the `u32` sizes add up to the
      payload length. */
  lemma {:induction false} SumSizesIsLength(pngs: seq<PngImage>)
    requires forall k :: 0 <= k < |pngs| ==> |pngs[k].data| < 0x1_0000_0000
    ensures SumSizes(pngs) == |Payloads(pngs)|
  {
    if pngs != [] {
      SumSizesIsLength(pngs[..|pngs| - 1]);
    }
  }

  /** The file is header, directory and every payload, nothing more. */
  lemma FileLength(pngs: seq<PngImage>)
    ensures |IcoFile(pngs)| == ICON_DIR_SIZE + ICON_DIR_ENTRY_SIZE * |pngs| + |Payloads(pngs)|
  {
  }

  /** Payload k sits right after the payloads before it. */
  lemma {:induction false} PayloadBytes(pngs: seq<PngImage>, k: int)
    requires 0 <= k < |pngs|
    ensures |Payloads(pngs[..k])| + |pngs[k].data| <= |Payloads(pngs)|
    ensures Payloads(pngs)[|Payloads(pngs[..k])| .. |Payloads(pngs[..k])| + |pngs[k].data|] == pngs[k].data
  {
    var n := |pngs| - 1;
    var init := pngs[..n];
    assert Payloads(pngs) == Payloads(init) + pngs[n].data;
    if k < n {
      PayloadBytes(init, k);
      assert init[..k] == pngs[..k];
      assert init[k] == pngs[k];
    } else {
      assert pngs[..k] == init;
    }
  }

  /** A file whose every offset fits in `u32` without wrapping. */
  predicate SmallFile(pngs: seq<PngImage>)
  {
    ICON_DIR_SIZE + ICON_DIR_ENTRY_SIZE * |pngs| + |Payloads(pngs)| < 0x1_0000_0000
  }

  /** In a small file every payload is shorter than 4 GiB, and the offset
      before entry k is the byte where payload k starts. */
  lemma SmallOffsets(pngs: seq<PngImage>, k: int)
    requires SmallFile(pngs) && 0 <= k <= |pngs|
    ensures forall j :: 0 <= j < |pngs| ==> |pngs[j].data| < 0x1_0000_0000
    ensures OffsetOf(pngs, k) == ICON_DIR_SIZE + ICON_DIR_ENTRY_SIZE * |pngs| + |Payloads(pngs[..k])|
    ensures OffsetOf(pngs, k) <= ICON_DIR_SIZE + ICON_DIR_ENTRY_SIZE * |pngs| + |Payloads(pngs)|
  {
    forall j | 0 <= j < |pngs| ensures |pngs[j].data| < 0x1_0000_0000 {
      PayloadBytes(pngs, j);
    }
    SumSizesIsLength(pngs[..k]);
    if k < |pngs| {
      PayloadBytes(pngs, k);
    } else {
      assert pngs[..k] == pngs;
    }
  }

  /** The first entry points just past the directory. */
  lemma FirstOffset(pngs: seq<PngImage>)
    requires |pngs| > 0 && SmallFile(pngs)
    ensures Directory(pngs)[0].offset == ICON_DIR_SIZE + ICON_DIR_ENTRY_SIZE * |pngs|
  {
    SmallOffsets(pngs, 0);
  }

  /** Each further entry points at the previous offset plus the previous
      entry's size. */
  lemma NextOffset(pngs: seq<PngImage>, k: int)
    requires SmallFile(pngs) && 0 < k < |pngs|
    ensures Directory(pngs)[k].offset == Directory(pngs)[k - 1].offset + Directory(pngs)[k - 1].size
  {
    SmallOffsets(pngs, k);
    SmallOffsets(pngs, k - 1);
    SumSizesStep(pngs, k - 1);
  }

  /** Payloads never overlap: an earlier entry's bytes end at or before a
      later entry's offset, and offsets strictly increase past non-empty
      payloads. */
  lemma OffsetsOrdered(pngs: seq<PngImage>, i: int, j: int)
    requires SmallFile(pngs) && 0 <= i < j < |pngs|
    ensures Directory(pngs)[i].offset + Directory(pngs)[i].size <= Directory(pngs)[j].offset
    ensures |pngs[i].data| > 0 ==> Directory(pngs)[i].offset < Directory(pngs)[j].offset
  {
    SmallOffsets(pngs, i);
    SmallOffsets(pngs, i + 1);
    SmallOffsets(pngs, j);
    SumSizesStep(pngs, i);
    PrefixSumMonotone(pngs, i + 1, j);
  }

  lemma {:induction false} PrefixSumMonotone(pngs: seq<PngImage>, i: int, j: int)
    requires 0 <= i <= j <= |pngs|
    ensures SumSizes(pngs[..i]) <= SumSizes(pngs[..j])
    decreases j - i
  {
    if i < j {
      SumSizesStep(pngs, j - 1);
      PrefixSumMonotone(pngs, i, j - 1);
    }
  }

  /** Each directory entry locates its own PNG inside the file. */
  lemma PayloadAt(pngs: seq<PngImage>, k: int)
    requires SmallFile(pngs) && 0 <= k < |pngs|
    ensures Payload(IcoFile(pngs), Directory(pngs)[k]) == Some(pngs[k].data)
  {
    SmallOffsets(pngs, k);
    PayloadBytes(pngs, k);
    var head := EncodeDir(Header(|pngs|)) + EncodeEntries(Directory(pngs));
    var start := |Payloads(pngs[..k])|;
    var len := |pngs[k].data|;
    assert IcoFile(pngs) == head + Payloads(pngs);
    assert IcoFile(pngs)[|head| + start .. |head| + start + len] == Payloads(pngs)[start .. start + len];
  }

  /** Reading the file back: the header announces |pngs| images of type ICO,
      the directory is the one written, and every entry's bytes are its PNG. */
  lemma ReadBack(pngs: seq<PngImage>)
    requires SmallFile(pngs) && |pngs| < 0x1_0000
    ensures var parsed := ParseDirectory(IcoFile(pngs));
      parsed.Some? &&
      parsed.value.0 == IconDir(0, IMAGE_TYPE_ICO, |pngs|) &&
      parsed.value.1 == Directory(pngs) &&
      forall k :: 0 <= k < |pngs| ==> Payload(IcoFile(pngs), parsed.value.1[k]) == Some(pngs[k].data)
  {
    ParseSerialised(Header(|pngs|), Directory(pngs), Payloads(pngs));
    forall k | 0 <= k < |pngs| ensures Payload(IcoFile(pngs), Directory(pngs)[k]) == Some(pngs[k].data) {
      PayloadAt(pngs, k);
    }
  }

  /** Entry k of the icon for `sizes` describes the PNG for sizes[k]: its
      edge length cast to `u8` (256 becomes 0), no palette, no reserved bits,
      no colour planes, 32 bits per pixel, and the PNG's length. */
  lemma EntryForSize(images: seq<Raster>, sizes: seq<int>, resample: Resampler, encode: Encoder, k: int)
    requires |images| > 0 && 0 <= k < |sizes|
    ensures var pngs := OutputImages(images, sizes, resample, encode);
      var e := Directory(pngs)[k];
      e.width == ToU8(sizes[k]) && e.height == ToU8(sizes[k]) &&
      e.numColors == 0 && e.reserved == 0 && e.colorPlanes == 0 && e.bpp == 32 &&
      e.size == ToU32(|encode(Select(images, sizes[k], resample))|)
  {
  }

  /** The sizes of the usual invocation `-sizes:256,128,64,32`: the 256 entry
      stores width and height 0, and the first PNG starts at byte 70. */
  lemma StandardSizes(images: seq<Raster>, resample: Resampler, encode: Encoder)
    requires |images| > 0
    requires SmallFile(OutputImages(images, [256, 128, 64, 32], resample, encode))
    ensures var d := Directory(OutputImages(images, [256, 128, 64, 32], resample, encode));
      d[0].width == 0 && d[0].height == 0 && d[1].width == 128 && d[2].width == 64 &&
      d[3].width == 32 && d[0].offset == 70
  {
    FirstOffset(OutputImages(images, [256, 128, 64, 32], resample, encode));
  }
}
