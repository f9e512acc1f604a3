/** Shared vocabulary of the makeicon model: the source's fixed-width integer
    typedefs, the decoded image record, and the error wrappers that stand for
    the process-aborting `ERROR` macro. */
module Common {

  /** The unsigned typedefs `u8`, `u16` and `u32` of makeicon.cpp. */
  type U8 = x: int | 0 <= x < 0x100
  type U16 = x: int | 0 <= x < 0x1_0000
  type U32 = x: int | 0 <= x < 0x1_0000_0000

  /** Every image is loaded with four channels (RGBA). */
  const CHANNELS: int := 4

  datatype Option<T> = None | Some(value: T)

  /** An operation that either yields a value or stops the run with an error. */
  datatype Result<T, E> = Ok(value: T) | Err(error: E)

  /** A C++ cast of an unsigned quantity to `u8`: keep the low 8 bits. */
  function ToU8(x: int): (r: U8)
    ensures 0 <= x < 0x100 ==> r == x
    ensures x == 0x100 ==> r == 0
  {
    x % 0x100
  }

  /** A C++ cast to `u16`: keep the low 16 bits. */
  function ToU16(x: int): (r: U16)
    ensures 0 <= x < 0x1_0000 ==> r == x
  {
    x % 0x1_0000
  }

  /** A C++ cast to `u32`: keep the low 32 bits. */
  function ToU32(x: int): (r: U32)
    ensures 0 <= x < 0x1_0000_0000 ==> r == x
  {
    x % 0x1_0000_0000
  }

  /** The `Image` record after decoding: width, height and the RGBA bytes
      (`bpp` is always `CHANNELS`). */
  datatype Raster = Raster(width: int, height: int, pixels: seq<U8>)

  /** The foreign resampler (stb's sRGB resize): it maps source bytes with
      their dimensions and bytes per pixel to a buffer of the requested
      dimensions. Its arguments are (source, source width, source height,
      bytes per pixel, target width, target height). */
  type Resampler = (seq<U8>, int, int, int, int, int) -> seq<U8>

  /** A resampler that fills exactly the buffer it is given, as
      `stbir_resize_uint8_srgb` writes `w * h * bpp` bytes. */
  ghost predicate FillsTarget(resample: Resampler)
  {
    forall src, sw, sh, bpp, dw, dh ::
      0 <= dw && 0 <= dh && 0 <= bpp ==>
        |resample(src, sw, sh, bpp, dw, dh)| == dw * dh * bpp
  }
}
