# makeicon, modelled in Dafny

makeicon is a command-line tool that turns one or more square PNG images
into application icons:

- a Windows `.ico` container;
- the five Android `mipmap-*/ic_launcher.png` launcher images;
- the images named in a macOS or iOS asset catalogue's `Contents.json`.

This project models the deterministic core of `makeicon.cpp` and proves
properties of it. The modules are:

- `Common`: the `u8`/`u16`/`u32` typedefs and their casts, the decoded
  image record, `Option`/`Result`, and the resampler parameter.
- `Pixels`: row-major RGBA index arithmetic.
- `Transform`: the in-place image transforms on an `array<U8>`.
  - `apply_radius` and `add_corner_radius` are the corner-radius mask.
  - `add_border` zero-fills the canvas and copies the resized artwork in row by row.
  - `modify_image` runs the radius before the padding.
  - Each method is proved against a function of the old buffer.
- `Resolver`: `save_image` and `resize_and_save_image`.
  - The first exact match wins.
  - Otherwise the run fails, or the last input is resized when resizing is allowed.
  - A run of such calls aborts at the first failure.
- `Ico`: the ICONDIR header and ICONDIRENTRY records of the ICO format, a
  little-endian encoder for them, and a parser that reads them back.
- `Win32`: `make_icon_win32`.
  - One PNG per requested size, skipping the resize flag.
  - The directory loop with its running `offset`.
  - The bytes written to the output file.
- `Android`: `make_icon_android`. It derives the five density sizes and
  runs the per-directory loop.
- `Text`: the `std::string` operations the Apple scanner relies on.
  - `find`;
  - `substr` with a wrapped count;
  - `std::getline` line splitting;
  - the cut at the first NUL.
- `Apple`: `make_icon_apple`.
  - The `getline` loop runs over `Contents.json` with its three accumulators (`filename`, `scale`, `size`).
  - Each icon is saved as soon as all three are known.
  - The run ends with the descriptor copy.
  - A descriptor made of well-formed image objects writes exactly one file per object (`Apple.DescriptorFiles`).
- `Args`: `tokenize_string`, `format_argument`, and the 1..256 range check on the requested sizes.

Foreign code becomes a function parameter. This covers the stb resize
(`Resampler`), the PNG encoder (`Encoder`) and `std::stof` (`NumberParser`,
where `None` means it throws). The process-aborting `ERROR` macro becomes
an error value: `Result.Err`, an `Outcome` failure or an `AppleError`.
Where the calling code produces a byte stream or writes files, the model
returns the bytes, or the list of (file name, image) pairs, in write
order.

Where the design description and the code differ, the model follows the code:

- The Apple target size is `(s32)(size * scale)`, truncated toward zero (makeicon.cpp:834), not rounded.
- The resize fallback takes the last input in file-name order (makeicon.cpp:299 after the sort at line 600), not the input of largest area.
- The Win32 path resizes even when resizing is off (makeicon.cpp:649-662). `Win32.SelectIgnoresResizeFlag` states the divergence.
- `add_corner_radius` squares an inset derived from the width alone (makeicon.cpp:221-222) and places the right and bottom centres on the first column or row of their rectangle. The mask is therefore not mirror-symmetric: `Transform.MaskNotMirrorSymmetric` shows a pixel that is cut while its mirror image is kept.

## Model

| member | source | states |
|---|---|---|
| Common.ToU8 | makeicon.cpp:677-678 | the `u8` cast keeps values below 256 and turns 256 into 0 |
| Common.ToU16 | makeicon.cpp:669 | the `u16` cast keeps any count below 65536 |
| Common.ToU32 | makeicon.cpp:683-684 | the `u32` cast keeps any length or offset below 2^32 |
| Transform.Distance2 | makeicon.cpp:206 | the squared distance to the centre, with the `u32` differences, products and sum taken modulo 2^32 |
| Transform.Clipped | makeicon.cpp:205-212 | one `apply_radius` call zeroes a pixel iff it lies in the scanned box [sx,ex) x [sy,ey) and its wrapped squared distance exceeds r2 |
| Transform.RadiusPass | makeicon.cpp:198-215 | one pass keeps the buffer length |
| Transform.ApplyRadius | makeicon.cpp:198-215 | after the nested loops, every byte of a pixel in [sx,ex) x [sy,ey) whose wrapped `u32` squared distance to the centre exceeds r2 is zero, and every other byte is unchanged |
| Transform.ClearPixel | makeicon.cpp:209-212 | the `memset` zeroes the bpp bytes of pixel (x,y) and leaves every other byte unchanged |
| Transform.CornerMasked | makeicon.cpp:217-233 | a pixel is cut iff one of the four `apply_radius` calls cuts it, with centres (left,top), (left,h-top), (w-left,top), (w-left,h-top) and squared radius left*left |
| Transform.CornerMask | makeicon.cpp:217-233 | the definition of the masked buffer; its contract keeps the buffer length, and the per-byte fact (0 in a cut pixel, kept elsewhere) is proved by `CornerMaskAt` |
| Transform.CornerMaskIsFourPasses | makeicon.cpp:230-233 | the four calls of `add_corner_radius`, in order, give the corner mask |
| Transform.AddCornerRadius | makeicon.cpp:217-234 | the buffer after the call is the corner mask of the old buffer, with squared radius left*left |
| Transform.CornerMaskAt | makeicon.cpp:205-212 | channel k of pixel (x,y) is 0 when the pixel is masked, else its old value |
| Transform.CornerMaskChangesOnlyMasked | makeicon.cpp:209-212 | any byte the mask changes becomes 0 and belongs to a masked pixel |
| Transform.MaskedOnlyInCorners | makeicon.cpp:230-233 | masked pixels lie inside the image, in the four corner rectangles |
| Transform.ZeroRadiusKeepsImage | makeicon.cpp:224-233 | with a zero inset, nothing changes |
| Transform.CornerMaskIdempotent | makeicon.cpp:217-234 | masking twice equals masking once |
| Transform.MaskedIffOutsideArc | makeicon.cpp:205-212 | while squared distances fit in `u32`, a pixel is masked iff it is in a corner rectangle and strictly farther than `left` from that corner's centre |
| Transform.FullRoundingIsDisc | makeicon.cpp:219-233 | on a 2n x 2n image with insets n (radius 0.5), a pixel is cut iff it lies strictly outside the disc of radius n around the grid point (n,n) |
| Transform.TopLeftCornerPixelCut | makeicon.cpp:230 | with positive insets, pixel (0,0) is always cut |
| Transform.MaskNotMirrorSymmetric | makeicon.cpp:224-233 | for a 4x4 image at radius 0.5, pixel (1,0) is cut while its mirror (2,0) is kept |
| Transform.Bordered | makeicon.cpp:185-194 | the padded canvas keeps the canvas size w*h*bpp |
| Transform.CopyBlock | makeicon.cpp:191 | `memcpy` sets the n bytes at dst to inner[src..src+n] and leaves every other byte unchanged |
| Transform.CopyRow | makeicon.cpp:189-194 | one iteration of the copy loop extends the finished rows by row ph + y |
| Transform.AddBorder | makeicon.cpp:170-196 | after zero-filling and the row-by-row copy, the canvas is the padded image of the resized inner buffer |
| Transform.BorderedAt | makeicon.cpp:185-194 | inside the box [pw,pw+iw) x [ph,ph+ih), channel k of (x,y) is inner pixel (x-pw,y-ph); outside it the byte is 0, alpha included |
| Transform.Modified | makeicon.cpp:236-247 | radius then padding keeps the buffer length |
| Transform.ModifyImage | makeicon.cpp:236-247 | the buffer is masked when a radius is given, then padded from the resample of the masked buffer when a padding is given |
| Resolver.IsExact | makeicon.cpp:281 | an input can be used unmodified iff its width and height both equal the requested size |
| Resolver.FirstExact | makeicon.cpp:280-288 | gives the first input with width == height == size, or none exactly when no input has that size |
| Resolver.ResizeImage | makeicon.cpp:152-168 | the resized image has the requested dimensions |
| Resolver.SaveImage | makeicon.cpp:249-274 | a non-positive request keeps the image's own dimension; an image whose dimensions already match is kept unmodified |
| Resolver.Resolve | makeicon.cpp:276-302 | gives the first exact match unmodified. Otherwise: `NoMatchingSize` when resizing is off, `NoInputImages` on an empty list, or the last input resized to size x size when size > 0, else kept as it is |
| Resolver.ResolvedHasRequestedSize | makeicon.cpp:251-252 | every resolved image for a positive size is size x size |
| Resolver.ResolveFailsIff | makeicon.cpp:289-295 | with inputs present, resolution fails iff resizing is off and no input matches |
| Resolver.ExactMatchIgnoresFlag | makeicon.cpp:280-288 | with an exact match, the resize flag makes no difference and resolution succeeds |
| Resolver.Step | makeicon.cpp:276-302 | the definition of one call: after an abort nothing changes; otherwise the resolved file is appended or the error recorded (its meaning over a run is stated by `FailureSticks`, `SaveAllOutcome` and `SaveAllCompletesIff`) |
| Resolver.SaveAll | makeicon.cpp:276-302 | a run of `resize_and_save_image` calls, one per job in order, where the first `ERROR` ends the run |
| Resolver.FailureSticks | makeicon.cpp:33-41 | once a call has aborted the run, later calls change nothing |
| Resolver.SaveAllOutcome | makeicon.cpp:276-302 | file k of a run is job k's name with job k's resolved image; a failed run stops exactly at its first unresolvable job |
| Resolver.SaveAllCompletesIff | makeicon.cpp:276-302 | a run completes iff every job resolves |
| Ico.Le16 | makeicon.cpp:697 | the 2 little-endian bytes read back as the value |
| Ico.Le32 | makeicon.cpp:700 | the 4 little-endian bytes read back as the value |
| Ico.EncodeDir | makeicon.cpp:619-625 | the packed header is 6 bytes |
| Ico.EncodeEntry | makeicon.cpp:628-640 | the packed directory record is 16 bytes |
| Ico.EncodeEntries | makeicon.cpp:698-701 | the directory takes 16 bytes per record |
| Ico.DecodeEncodedDir | makeicon.cpp:619-625 | the header decodes back from its bytes wherever they sit |
| Ico.DecodeEncodedEntry | makeicon.cpp:628-640 | a directory record decodes back from its bytes wherever they sit |
| Ico.EntryBytes | makeicon.cpp:698-701 | record k of the directory occupies bytes [16k, 16k+16) |
| Ico.ParseDirectory | makeicon.cpp:620-639 | a parsed directory has as many records as the header announces |
| Ico.Payload | makeicon.cpp:637-638 | the bytes an entry points at are `size` long |
| Ico.DecodeSerialisedEntry | makeicon.cpp:697-701 | record k of a serialised file decodes to entry k |
| Ico.ParseFromParts | makeicon.cpp:620-639 | the parser yields (header, records) once each part decodes to them |
| Ico.ParseSerialised | makeicon.cpp:697-701 | round trip: parsing header + records + any payload bytes gives back the header and the records |
| Win32.Png | makeicon.cpp:126-136 | a `PngImage` keeps the image's width and height and holds the encoder's bytes for it |
| Win32.Select | makeicon.cpp:649-662 | the chosen image is size x size: the first exact match, else the last input resized |
| Win32.OutputImages | makeicon.cpp:646-663 | one PNG per requested size, in request order, each with that size's edge length |
| Win32.SumSizes | makeicon.cpp:683-686 | the running total of the entries' `u32` sizes |
| Win32.Payloads | makeicon.cpp:702-705 | the PNG bytes, one image after the other, in request order |
| Win32.OffsetOf | makeicon.cpp:672-686 | the `offset` before entry k: 6 + 16n plus the sizes of the earlier entries |
| Win32.Entry | makeicon.cpp:676-685 | an entry holds the `u8` width and height, 0 colours, 0 reserved, 0 planes, 32 bpp, the `u32` size and the `u32` offset |
| Win32.Header | makeicon.cpp:666-669 | the header is reserved 0, type 1 (icon) and the `u16` image count |
| Win32.IcoFile | makeicon.cpp:697-705 | the file is the header, then every entry, then every payload |
| Win32.Directory | makeicon.cpp:674-687 | one directory entry per PNG |
| Win32.SumSizesStep | makeicon.cpp:686 | the running size sum grows by each entry's `u32` size |
| Win32.EncodeImages | makeicon.cpp:646-663 | the first loop yields exactly the output images |
| Win32.BuildDirectory | makeicon.cpp:671-687 | the directory loop, with its running offset, yields entry k at offset 6 + 16n + the sum of the earlier sizes |
| Win32.Serialise | makeicon.cpp:697-705 | the stream is header, then every record, then every payload, in order |
| Win32.MakeIconWin32 | makeicon.cpp:642-714 | the file written is the ICO file of the output images |
| Win32.SelectIsResolveWithResize | makeicon.cpp:649-662 | with resizing allowed, the Win32 choice equals the resolver's |
| Win32.SelectIgnoresResizeFlag | makeicon.cpp:655-662 | with no exact match, Win32 still resizes where the resolver with resizing off fails |
| Win32.SumSizesIsLength | makeicon.cpp:683-686 | while every payload is under 4 GiB, the sizes add up to the payload length |
| Win32.FileLength | makeicon.cpp:697-705 | the file length is 6 + 16n + the payload length |
| Win32.PayloadBytes | makeicon.cpp:702-705 | payload k sits right after the earlier payloads |
| Win32.SmallOffsets | makeicon.cpp:672-686 | in a file under 4 GiB, the offset before entry k is where payload k starts |
| Win32.FirstOffset | makeicon.cpp:672 | the first entry's offset is 6 + 16n |
| Win32.NextOffset | makeicon.cpp:686 | each next offset is the previous offset plus the previous size |
| Win32.OffsetsOrdered | makeicon.cpp:672-686 | payloads never overlap, and offsets strictly increase past non-empty payloads |
| Win32.PrefixSumMonotone | makeicon.cpp:686 | the running offset never decreases |
| Win32.PayloadAt | makeicon.cpp:684-705 | each entry's offset and size locate exactly its own PNG inside the file |
| Win32.ReadBack | makeicon.cpp:666-705 | parsing the file gives the header (0, type 1, n images) and the directory written, and every entry's bytes are its PNG |
| Win32.EntryForSize | makeicon.cpp:676-685 | entry k has width = height = sizes[k] cast to `u8`, 0 colours, 0 reserved, 0 planes, 32 bpp and the PNG's length |
| Win32.StandardSizes | makeicon.cpp:672-684 | for sizes 256,128,64,32, the 256 entry stores 0, the others their size, and the first PNG starts at byte 70 |
| Android.DensitySizes | makeicon.cpp:724-729 | five sizes, one per density directory |
| Android.AndroidJobs | makeicon.cpp:747-754 | five calls, one per directory |
| Android.MakeIconAndroid | makeicon.cpp:720-758 | the loop writes what the five calls, in directory order, write, stopping at the first abort |
| Android.DensitySizesNonIncreasing | makeicon.cpp:724-729 | the five sizes never grow and never drop below 0 |
| Android.DensityRatios | makeicon.cpp:724-729 | the sizes are the base size and 3/4, 1/2, 3/8, 1/4 of it, rounded down by the integer divisions |
| Android.Base192 | makeicon.cpp:724-729 | base 192 gives 192, 144, 96, 72, 48 |
| Android.AndroidFiles | makeicon.cpp:731-754 | for a base of at least 4, a completed run writes five files, xxxhdpi first, each square at its density's size |
| Android.TinyBaseKeepsLastImage | makeicon.cpp:249-264 | a base below 4 makes the mdpi size 0, and that icon is then the last input, unresized |
| Text.FindFrom | makeicon.cpp:807 | the first occurrence at or after `from`, or none when there is no occurrence |
| Text.Find | makeicon.cpp:805 | the first occurrence of the pattern, or none iff it does not occur |
| Text.FindCharFrom | makeicon.cpp:824 | the first index of the character at or after `from`, or none |
| Text.Substr | makeicon.cpp:810 | `substr` with a negative (wrapped) or too-long count runs to the end; otherwise it has exactly `count` characters |
| Text.Lines | makeicon.cpp:803 | no line holds a newline |
| Text.LinesRoundTrip | makeicon.cpp:803 | putting the newlines back gives the text, plus a final newline when it lacked one |
| Text.CString | makeicon.cpp:783-789 | the stream sees the longest NUL-free prefix of the buffer |
| Apple.Trunc | makeicon.cpp:834 | the `(s32)` cast truncates toward zero |
| Apple.TargetSize | makeicon.cpp:834 | the edge length asked for is `(s32)(size * scale)`, the product truncated toward zero |
| Apple.ValueStart | makeicon.cpp:805 | the value start lies within any line of length at least 2 |
| Apple.ValueEnd | makeicon.cpp:809 | the end index is -1 or more |
| Apple.ValueStartAfterSeparator | makeicon.cpp:805 | the value starts three characters past the first `: "`, or at 2 when there is none (`npos + 3` wraps) |
| Apple.ValueEndAtTerminator | makeicon.cpp:809-819 | the value ends at the first terminator, or at -1 (the `s32` of `npos`) |
| Apple.ValueStartInside | makeicon.cpp:805-820 | a line holding a keyword is long enough for the start index |
| Apple.ValueText | makeicon.cpp:810-820 | the value runs from its start to the terminator, or to the end of the line when the terminator is missing or comes first |
| Apple.Extract | makeicon.cpp:807-821 | keywords are tested in the order filename, scale, size, and only the first present one sets its field. A `filename` line sets the file name to the text between `: "` and `",`. A number line sets its field to the conversion of the text up to the `x`, and a failed conversion aborts with exactly that text |
| Apple.Complete | makeicon.cpp:832 | an icon is due iff the file name is non-empty and scale and size are both nonzero |
| Apple.Settle | makeicon.cpp:823-839 | the rest of an iteration never aborts |
| Apple.ScanLine | makeicon.cpp:803-840 | a line aborts iff its number does not convert |
| Apple.Advance | makeicon.cpp:803-840 | one more line of the scan: an emission is appended, and nothing changes once a number has failed to convert |
| Apple.ScanFrom | makeicon.cpp:803-840 | the `getline` loop continued line by line from a given accumulator state |
| Apple.ScanLines | makeicon.cpp:800-840 | the whole loop, starting from empty accumulators |
| Apple.AppleJobs | makeicon.cpp:834 | one `resize_and_save_image` call per emitted icon |
| Apple.ContentsCopy | makeicon.cpp:845-847 | the descriptor is copied to `<output>/Contents.json` iff it is not already that file |
| Apple.AppleOutcome | makeicon.cpp:764-850 | the run: scan the descriptor, save the emitted icons in order, stop at the first failure, then copy the descriptor |
| Apple.ScanFailureSticks | makeicon.cpp:815-820 | after a conversion failure, no later line is scanned |
| Apple.EmittedPrefix | makeicon.cpp:803-840 | emissions follow line order: scanning more lines only appends |
| Apple.EmitsIff | makeicon.cpp:823-834 | a line emits iff, after extraction, it holds no `}` and all three fields are set; the icon has the truncated size*scale |
| Apple.Resets | makeicon.cpp:823-838 | the accumulators are empty after every emission and every `}` line |
| Apple.KeepsIncomplete | makeicon.cpp:823-832 | a line that neither emits nor holds `}` keeps what it extracted |
| Apple.EmittedNamed | makeicon.cpp:832 | every emitted icon has a non-empty file name |
| Apple.EmissionsBounded | makeicon.cpp:803-840 | there are never more icons than lines |
| Apple.ScanFromAppend | makeicon.cpp:803-840 | scanning two runs of lines is scanning the second from where the first stopped |
| Apple.PlainLinesKeep | makeicon.cpp:807-839 | lines with no keyword and no `}` leave incomplete accumulators as they are |
| Apple.AdvanceName | makeicon.cpp:807-811 | a `filename` line without `}` sets the file name to the text between `: "` and `",` |
| Apple.AdvanceScale | makeicon.cpp:812-816 | a `scale` line without `}` sets the scale to the converted text up to the `x` |
| Apple.AdvanceSize | makeicon.cpp:817-838 | a `size` line without `}` that completes the fields emits (file name, truncated size*scale) and empties the accumulators |
| Apple.AdvanceClosing | makeicon.cpp:824-829 | a `}` line with no keyword leaves empty accumulators empty |
| Apple.ObjectScan | makeicon.cpp:803-840 | from empty accumulators, a well-formed image object (file name, scale, size lines, then `}`) emits exactly its own icon and leaves the accumulators empty |
| Apple.EmitsObjectsSnoc | makeicon.cpp:803-840 | one more object adds its icon after those of the earlier objects |
| Apple.DescriptorEmits | makeicon.cpp:803-840 | a descriptor of N well-formed objects emits exactly N icons, the k-th named by object k's quoted file name with its truncated size*scale |
| Apple.SaveStep | makeicon.cpp:834 | saving one more icon is one more step of the run |
| Apple.ResolveFailureFinal | makeicon.cpp:289-295 | a failed save fixes the run's result: the files so far and the resolver's error |
| Apple.ScanAdvance | makeicon.cpp:803-840 | a line whose number converts extends the scan by its settled fields and its emission |
| Apple.NumberFailureFinal | makeicon.cpp:815-820 | a number that fails to convert ends the run with the files written so far and that conversion error |
| Apple.ExtractField | makeicon.cpp:805-821 | the keyword tests of one iteration compute the extraction |
| Apple.SettleFields | makeicon.cpp:823-839 | the reset and the emit-and-reset of one iteration compute the settlement |
| Apple.MakeIconApple | makeicon.cpp:764-850 | the `getline` loop with its accumulators and immediate saves gives the run: scan, save in line order, stop at the first failure, then copy the descriptor |
| Apple.AppleFiles | makeicon.cpp:832-847 | a completed run writes one file per emission at `<output>/<filename>` with the resolved image, then copies the descriptor unless it is the copy |
| Apple.AppleCompletesIff | makeicon.cpp:289-295 | when every number converts, the run completes iff every emitted size resolves |
| Apple.DescriptorFiles | makeicon.cpp:803-847 | for N well-formed objects, the run completes iff each size resolves, and then writes exactly N files `<output>/<filename>`, in object order, each the resolved image, then copies the descriptor |
| Apple.NoContentsFails | makeicon.cpp:766-769 | without a descriptor, the run fails before writing anything |
| Args.TokensFrom | makeicon.cpp:313-327 | the tokens `tokenize_string` pushes when it scans from position `prev` |
| Args.FindFirstOf | makeicon.cpp:318 | the first delimiter at or after `from`, or none |
| Args.TokenizeString | makeicon.cpp:313-327 | the earlier tokens are kept as a prefix, followed by the tokens of the string |
| Args.StripAppend | makeicon.cpp:313-327 | removing delimiters distributes over concatenation |
| Args.StripKeeps | makeicon.cpp:313-327 | a delimiter-free string loses nothing |
| Args.ConcatAppend | makeicon.cpp:313-327 | concatenation distributes over list append |
| Args.TokensWellFormed | makeicon.cpp:320-325 | no token is empty and none holds a delimiter |
| Args.TokensConcat | makeicon.cpp:313-327 | the tokens together are the string with every delimiter removed |
| Args.FindShiftSome | makeicon.cpp:318 | a search past a prefix finds, shifted, the delimiter it finds in the suffix |
| Args.FindShiftNone | makeicon.cpp:318 | a search past a prefix fails when it fails in the suffix |
| Args.TokensAtDelimiter | makeicon.cpp:318-322 | one loop iteration: the non-empty token before the delimiter, then the tokens after it |
| Args.TokensAtEnd | makeicon.cpp:323-326 | past the last delimiter, the rest of the string is the last token unless it is empty |
| Args.TokensShift | makeicon.cpp:318-326 | tokenising past a prefix gives the suffix's tokens |
| Args.JoinTokens | makeicon.cpp:313-327 | tokenising non-empty, delimiter-free items joined by a delimiter gives the items back |
| Args.FindFirstOfFirst | makeicon.cpp:318 | the search from 0 finds the first delimiter |
| Args.FormatArgument | makeicon.cpp:339-359 | no parameter is empty |
| Args.FormatRoundTrip | makeicon.cpp:339-359 | `-name:p1,p2,...` gives back the name and the parameters |
| Args.FormatNameOnly | makeicon.cpp:350-353 | `-name` gives the name with no parameters |
| Args.ExtraColonDropped | makeicon.cpp:353-356 | only the second `:` token is split: `-input:a:b` has the single parameter `a` |
| Args.JoinHasNoColon | makeicon.cpp:339-359 | joining colon-free items with another character gives a colon-free string |
| Args.JoinNonEmpty | makeicon.cpp:339-359 | a join whose first item is non-empty is non-empty |
| Args.ValidSize | makeicon.cpp:591-597 | a requested size is accepted iff it lies in 1..256 |
| Args.SizeErrorOf | makeicon.cpp:593-596 | above 256 is reported as above the maximum, otherwise below the minimum, with the offending size |
| Args.CheckSizes | makeicon.cpp:591-597 | passes iff every size is in 1..256; otherwise it reports the first offending size |

## Left out

- The stb calls (`stbir_resize_uint8_srgb`, `stbi_write_png_to_mem`, `stbi_write_png`, `stbi_load`) are foreign code. Resized pixels and PNG bytes come from the `Resampler` and `Encoder` parameters. The only fact assumed about the resampler is that it fills the requested buffer (`FillsTarget`).
- Loading the inputs and the warnings about non-square or duplicate sizes (makeicon.cpp:365-403) are file I/O and diagnostics. The model starts from the decoded images in their sorted order.
- `main`'s dispatch is command-line plumbing and is not modelled (makeicon.cpp:438-604). This covers `.txt` and directory input expansion, `.json` detection, `std::stoi`, platform selection, help and version printing, and the checks for missing options. `format_argument`, `tokenize_string` and the range check are modelled.
- The float fractions of `-radius` and `-padding` (clamp to 0.5, product with the dimension, truncation) are not computed. `Transform.ModifyImage` takes the truncated insets and frame as integer parameters, whose bounds encode the clamp.
- Transform.AddCornerRadius: `s32` overflow of left*left is not modelled; the method requires left*left < 2^31.
- Apple.Trunc: `f32` arithmetic is modelled as exact reals, so float rounding of size*scale is not captured.
- Apple.Extract: `std::stof` also accepts `nan`, `inf` and `infinity`, but `NumberParser` yields an exact real, so those values are not modelled. A NaN scale or size passes the nonzero test at makeicon.cpp:832.
- Apple.TargetSize: the `(s32)` cast of a NaN, an infinity or a product outside the `s32` range is undefined behaviour in C++. The model truncates the exact product instead and does not flag those cases.
- File-system effects are not modelled: `create_directory`, `ofstream` writes, `fopen`/`fread`, and the `Contents.json` copy. The model returns the bytes or the (file name, image) pairs that would be written. The copy is returned as its destination.
- The failure of opening an output or contents file is not modelled (makeicon.cpp:691-694, 772-773). Neither is a failed `malloc` in `resize_image`, `add_border` or the contents buffer.
- `save_image`'s `false` result is ignored by its callers and never arises in the model.
- Win32.MakeIconWin32: `input_images.back()` on an empty list is undefined behaviour in C++, so the method requires a non-empty input list.
- Android.MakeIconAndroid: `options.sizes[0]` needs a first size; the base size is a parameter, required non-negative (the range check ensures 1..256).
- Win32.ReadBack: the round trip is stated only for files under 4 GiB with fewer than 65536 images, where the `u32` offsets and the `u16` count do not wrap. The `size_t` accumulation of `offset` itself is exact, and only its `u32` cast wraps.
- Win32.PayloadAt, Win32.OffsetsOrdered, Win32.NextOffset and Win32.FirstOffset are likewise stated only for files under 4 GiB (`SmallFile`).
- Host endianness is not modelled: the packed structs are written in the little-endian layout of the ICO format.
- Apple.MakeIconApple: the loop interleaves scanning and saving. The model states the run as "scan all lines, then save the emitted icons in order". A save error is reported before a later conversion error, and the two descriptions agree, which the loop invariant records.
