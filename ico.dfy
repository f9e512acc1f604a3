/** The Windows ICO container as makeicon writes it (the ICONDIR header and
    ICONDIRENTRY records of the ICO file format): packed records, every
    multi-byte field little-endian. A serialiser for the header and the
    directory, and a parser that reads them back. */
module Ico {
  import opened Common

  /** `sizeof(IconDir)` and `sizeof(IconDirEntry)` with `#pragma pack(1)`. */
  const ICON_DIR_SIZE: int := 6
  const ICON_DIR_ENTRY_SIZE: int := 16

  /** `ImageType_Ico`. */
  const IMAGE_TYPE_ICO: int := 1

  datatype IconDir = IconDir(reserved: U16, imageType: U16, numImages: U16)

  datatype IconDirEntry = IconDirEntry(
    width: U8, height: U8, numColors: U8, reserved: U8,
    colorPlanes: U16, bpp: U16, size: U32, offset: U32)

  function Read16(b: seq<U8>, at: int): U16
    requires 0 <= at && at + 2 <= |b|
  {
    b[at] as int + 0x100 * b[at + 1] as int
  }

  function Read32(b: seq<U8>, at: int): U32
    requires 0 <= at && at + 4 <= |b|
  {
    b[at] as int + 0x100 * b[at + 1] as int + 0x1_0000 * b[at + 2] as int + 0x100_0000 * b[at + 3] as int
  }

  function Le16(v: U16): (r: seq<U8>)
    ensures |r| == 2 && Read16(r, 0) == v
  {
    [v % 0x100, v / 0x100]
  }

  function Le32(v: U32): (r: seq<U8>)
    ensures |r| == 4 && Read32(r, 0) == v
  {
    var lo, hi := Le16(v % 0x1_0000), Le16(v / 0x1_0000);
    assert Read32(lo + hi, 0) == Read16(lo, 0) + 0x1_0000 * Read16(hi, 0);
    lo + hi
  }

  /** The six header bytes. */
  function EncodeDir(d: IconDir): (r: seq<U8>)
    ensures |r| == ICON_DIR_SIZE
  {
    Le16(d.reserved) + Le16(d.imageType) + Le16(d.numImages)
  }

  /** The sixteen bytes of one directory entry. */
  function EncodeEntry(e: IconDirEntry): (r: seq<U8>)
    ensures |r| == ICON_DIR_ENTRY_SIZE
  {
    [e.width, e.height, e.numColors, e.reserved]
      + Le16(e.colorPlanes) + Le16(e.bpp) + Le32(e.size) + Le32(e.offset)
  }

  function DecodeDir(b: seq<U8>, at: int): IconDir
    requires 0 <= at && at + ICON_DIR_SIZE <= |b|
  {
    IconDir(Read16(b, at), Read16(b, at + 2), Read16(b, at + 4))
  }

  function DecodeEntry(b: seq<U8>, at: int): IconDirEntry
    requires 0 <= at && at + ICON_DIR_ENTRY_SIZE <= |b|
  {
    IconDirEntry(b[at], b[at + 1], b[at + 2], b[at + 3],
                 Read16(b, at + 4), Read16(b, at + 6), Read32(b, at + 8), Read32(b, at + 12))
  }

  /** The directory records one after the other, in order. */
  function EncodeEntries(es: seq<IconDirEntry>): (r: seq<U8>)
    ensures |r| == ICON_DIR_ENTRY_SIZE * |es|
  {
    if es == [] then [] else EncodeEntries(es[..|es| - 1]) + EncodeEntry(es[|es| - 1])
  }

  /** Reading back the header from its bytes, wherever they sit. */
  lemma DecodeEncodedDir(d: IconDir, b: seq<U8>, at: int)
    requires 0 <= at && at + ICON_DIR_SIZE <= |b| && b[at..at + ICON_DIR_SIZE] == EncodeDir(d)
    ensures DecodeDir(b, at) == d
  {
    var e := EncodeDir(d);
    assert b[at] == e[0] && b[at + 1] == e[1] && b[at + 2] == e[2];
    assert b[at + 3] == e[3] && b[at + 4] == e[4] && b[at + 5] == e[5];
    assert Read16(b, at) == Read16(Le16(d.reserved), 0);
  }

  /** Reading back a directory entry from its bytes, wherever they sit. */
  lemma DecodeEncodedEntry(e: IconDirEntry, b: seq<U8>, at: int)
    requires 0 <= at && at + ICON_DIR_ENTRY_SIZE <= |b| && b[at..at + ICON_DIR_ENTRY_SIZE] == EncodeEntry(e)
    ensures DecodeEntry(b, at) == e
  {
    var c := EncodeEntry(e);
    forall j | 0 <= j < ICON_DIR_ENTRY_SIZE ensures b[at + j] == c[j] {
      assert b[at..at + ICON_DIR_ENTRY_SIZE][j] == b[at + j];
    }
    assert Read16(b, at + 4) == Read16(Le16(e.colorPlanes), 0);
    assert Read16(b, at + 6) == Read16(Le16(e.bpp), 0);
    assert Read32(b, at + 8) == Read32(Le32(e.size), 0);
    assert Read32(b, at + 12) == Read32(Le32(e.offset), 0);
  }

  /** Record k of the encoded directory occupies bytes [16k, 16k + 16). */
  lemma {:induction false} EntryBytes(es: seq<IconDirEntry>, k: int)
    requires 0 <= k < |es|
    ensures EncodeEntries(es)[ICON_DIR_ENTRY_SIZE * k .. ICON_DIR_ENTRY_SIZE * k + ICON_DIR_ENTRY_SIZE]
         == EncodeEntry(es[k])
  {
    var n := |es| - 1;
    var init := es[..n];
    var pre := EncodeEntries(init);
    var last := EncodeEntry(es[n]);
    var lo := ICON_DIR_ENTRY_SIZE * k;
    assert EncodeEntries(es) == pre + last;
    if k < n {
      EntryBytes(init, k);
      SliceOfFront(pre, last, lo, lo + ICON_DIR_ENTRY_SIZE);
      assert es[k] == init[k];
    } else {
      SliceOfBack(pre, last);
    }
  }

  lemma SliceOfFront(x: seq<U8>, y: seq<U8>, lo: int, hi: int)
    requires 0 <= lo <= hi <= |x|
    ensures (x + y)[lo..hi] == x[lo..hi]
  {
  }

  lemma SliceOfBack(x: seq<U8>, y: seq<U8>)
    ensures (x + y)[|x|..|x| + |y|] == y
  {
  }

  /** The parser: the header, then as many 16-byte records as the header
      announces; None when the bytes are too short. */
  function ParseDirectory(b: seq<U8>): (r: Option<(IconDir, seq<IconDirEntry>)>)
    ensures r.Some? ==> |r.value.1| == r.value.0.numImages
  {
    if |b| < ICON_DIR_SIZE then None
    else
      var d := DecodeDir(b, 0);
      if |b| < ICON_DIR_SIZE + ICON_DIR_ENTRY_SIZE * d.numImages then None
      else Some((d, seq(d.numImages, k requires 0 <= k < d.numImages =>
                   DecodeEntry(b, ICON_DIR_SIZE + ICON_DIR_ENTRY_SIZE * k))))
  }

  /** The bytes an entry points at, when they lie inside the file. */
  function Payload(b: seq<U8>, e: IconDirEntry): (r: Option<seq<U8>>)
    ensures r.Some? ==> |r.value| == e.size
  {
    if e.offset + e.size <= |b| then Some(b[e.offset .. e.offset + e.size]) else None
  }

  /** Record k of a serialised directory decodes to entry k. */
  lemma DecodeSerialisedEntry(d: IconDir, es: seq<IconDirEntry>, rest: seq<U8>, k: int)
    requires 0 <= k < |es|
    ensures var b := EncodeDir(d) + EncodeEntries(es) + rest;
      ICON_DIR_SIZE + ICON_DIR_ENTRY_SIZE * k + ICON_DIR_ENTRY_SIZE <= |b| &&
      DecodeEntry(b, ICON_DIR_SIZE + ICON_DIR_ENTRY_SIZE * k) == es[k]
  {
    var b := EncodeDir(d) + EncodeEntries(es) + rest;
    var at := ICON_DIR_SIZE + ICON_DIR_ENTRY_SIZE * k;
    EntryBytes(es, k);
    assert b[at .. at + ICON_DIR_ENTRY_SIZE]
        == EncodeEntries(es)[ICON_DIR_ENTRY_SIZE * k .. ICON_DIR_ENTRY_SIZE * k + ICON_DIR_ENTRY_SIZE];
    DecodeEncodedEntry(es[k], b, at);
  }

  /** The parser yields (d, es) once header and records decode to them. */
  lemma ParseFromParts(b: seq<U8>, d: IconDir, es: seq<IconDirEntry>)
    requires |b| >= ICON_DIR_SIZE + ICON_DIR_ENTRY_SIZE * |es| && d.numImages == |es|
    requires DecodeDir(b, 0) == d
    requires forall k :: 0 <= k < |es| ==> DecodeEntry(b, ICON_DIR_SIZE + ICON_DIR_ENTRY_SIZE * k) == es[k]
    ensures ParseDirectory(b) == Some((d, es))
  {
    var r := ParseDirectory(b);
    assert r.Some? && r.value.0 == d;
    assert r.value.1 == es;
  }

  /** Round trip: parsing a serialised header and directory, followed by any
      payload bytes, gives back that header and directory. */
  lemma ParseSerialised(d: IconDir, es: seq<IconDirEntry>, rest: seq<U8>)
    requires d.numImages == |es|
    ensures ParseDirectory(EncodeDir(d) + EncodeEntries(es) + rest) == Some((d, es))
  {
    var b := EncodeDir(d) + EncodeEntries(es) + rest;
    assert b[0..ICON_DIR_SIZE] == EncodeDir(d);
    DecodeEncodedDir(d, b, 0);
    forall k | 0 <= k < |es| ensures DecodeEntry(b, ICON_DIR_SIZE + ICON_DIR_ENTRY_SIZE * k) == es[k] {
      DecodeSerialisedEntry(d, es, rest, k);
    }
    ParseFromParts(b, d, es);
  }
}
