/** The macOS / iOS back end, `make_icon_apple`: a line-by-line scan of an
    asset catalogue's `Contents.json` that collects a file name, a scale and
    a point size per image object, and writes one icon of edge length
    (int)(size * scale) whenever all three are known. */
module Apple {
  import opened Common
  import opened Resolver
  import opened Text

  /** The three accumulators `filename`, `scale` and `size` (the two
      numbers modelled as exact reals). */
  datatype Fields = Fields(fileName: string, scale: real, size: real)

  const NO_FIELDS: Fields := Fields("", 0.0, 0.0)

  /** All three fields are set: a name, and two nonzero numbers. */
  predicate Complete(f: Fields)
  {
    f.fileName != [] && f.scale != 0.0 && f.size != 0.0
  }

  /** An icon the scan asks for: its file name and its edge length. */
  datatype Emission = Emission(fileName: string, size: int)

  /** The conversion of `std::stof` (None: it throws). */
  type NumberParser = string -> Option<real>

  /** The `(s32)` cast of a float: truncation toward zero. */
  function Trunc(x: real): (r: int)
    ensures x >= 0.0 ==> 0 <= r && r as real <= x < r as real + 1.0
    ensures x < 0.0 ==> r <= 0 && r as real - 1.0 < x <= r as real
  {
    if x >= 0.0 then x.Floor else -((-x).Floor)
  }

  /** The edge length asked for, `(s32)(size * scale)`. */
  function TargetSize(size: real, scale: real): int
  {
    Trunc(size * scale)
  }

  /** Where a value starts: three characters past the first `: "`; when
      there is none, `npos + 3` wraps around to 2. */
  function ValueStart(line: string): (r: nat)
    ensures |line| >= 2 ==> r <= |line|
  {
    match Find(line, ": \"")
    case Some(p) => p + 3
    case None => 2
  }

  /** Where a value ends: the first occurrence of `terminator`, or -1 (the
      `s32` cast of `npos`) when there is none. */
  function ValueEnd(line: string, terminator: string): (r: int)
    ensures -1 <= r
  {
    match Find(line, terminator)
    case Some(p) => p
    case None => -1
  }

  /** The value starts right after the first `: "` of the line, or at index
      2 when the line has none. */
  lemma ValueStartAfterSeparator(line: string)
    ensures Contains(line, ": \"") ==>
      ValueStart(line) >= 3 && OccursAt(line, ": \"", ValueStart(line) - 3) &&
      forall j :: 0 <= j < ValueStart(line) - 3 ==> !OccursAt(line, ": \"", j)
    ensures !Contains(line, ": \"") ==> ValueStart(line) == 2
  {
  }

  /** The value ends at the first occurrence of the terminator, or at -1
      when the line has none. */
  lemma ValueEndAtTerminator(line: string, terminator: string)
    ensures Contains(line, terminator) ==>
      OccursAt(line, terminator, ValueEnd(line, terminator)) &&
      forall j :: 0 <= j < ValueEnd(line, terminator) ==> !OccursAt(line, terminator, j)
    ensures !Contains(line, terminator) ==> ValueEnd(line, terminator) == -1
  {
  }

  /** A line holding `key` is long enough for the value to start inside it. */
  lemma ValueStartInside(line: string, key: string)
    requires |key| >= 2 && Contains(line, key)
    ensures |line| >= 2
  {
  }

  /** The value text of a line: from its start up to the terminator, or to
      the end of the line when the terminator is missing or comes first. */
  function ValueText(line: string, terminator: string): (r: string)
    requires |line| >= 2
    ensures |r| <= |line| - ValueStart(line) && r == line[ValueStart(line)..ValueStart(line) + |r|]
    ensures ValueStart(line) <= ValueEnd(line, terminator) <= |line| ==>
      r == line[ValueStart(line)..ValueEnd(line, terminator)]
    ensures ValueEnd(line, terminator) < ValueStart(line) ==> r == line[ValueStart(line)..]
  {
    var start := ValueStart(line);
    Substr(line, start, ValueEnd(line, terminator) - start)
  }

  /** The result of extracting a field from one line. */
  datatype Extracted = Extracted(fields: Fields) | BadNumber(text: string)

  /** The keyword tests, in the order `filename`, `scale`, `size`: the first
      keyword the line holds sets its field and no other; a number that
      does not convert aborts. */
  function Extract(f: Fields, line: string, parse: NumberParser): (r: Extracted)
    ensures Contains(line, "filename") ==>
      |line| >= 2 && r == Extracted(f.(fileName := ValueText(line, "\",")))
    ensures !Contains(line, "filename") && Contains(line, "scale") && r.Extracted? ==>
      r.fields.fileName == f.fileName && r.fields.size == f.size &&
      parse(ValueText(line, "x")) == Some(r.fields.scale)
    ensures !Contains(line, "filename") && !Contains(line, "scale") && Contains(line, "size") && r.Extracted? ==>
      r.fields.fileName == f.fileName && r.fields.scale == f.scale &&
      parse(ValueText(line, "x")) == Some(r.fields.size)
    ensures !Contains(line, "filename") && !Contains(line, "scale") && !Contains(line, "size") ==>
      r == Extracted(f)
    ensures r.BadNumber? ==>
      (!Contains(line, "filename") && parse(r.text) == None &&
       (Contains(line, "scale") || Contains(line, "size")) &&
       |line| >= 2 && r.text == ValueText(line, "x"))
  {
    if Contains(line, "filename") then
      ValueStartInside(line, "filename");
      Extracted(f.(fileName := ValueText(line, "\",")))
    else if Contains(line, "scale") then
      ValueStartInside(line, "scale");
      var text := ValueText(line, "x");
      match parse(text)
      case None => BadNumber(text)
      case Some(v) => Extracted(f.(scale := v))
    else if Contains(line, "size") then
      ValueStartInside(line, "size");
      var text := ValueText(line, "x");
      match parse(text)
      case None => BadNumber(text)
      case Some(v) => Extracted(f.(size := v))
    else
      Extracted(f)
  }

  /** What one line does to the scan. */
  datatype LineResult = Next(fields: Fields, emission: Option<Emission>) | Abort(text: string)

  /** The end of one iteration, once the field is extracted: reset on a
      `}` line, then emit and reset once all three fields are known. */
  function Settle(g: Fields, line: string): (r: LineResult)
    ensures r.Next?
  {
    var kept := if FindCharFrom(line, '}', 0).Some? then NO_FIELDS else g;
    if Complete(kept) then Next(NO_FIELDS, Some(Emission(kept.fileName, TargetSize(kept.size, kept.scale))))
    else Next(kept, None)
  }

  /** One iteration of the `getline` loop. */
  function ScanLine(f: Fields, line: string, parse: NumberParser): (r: LineResult)
    ensures r.Abort? <==> Extract(f, line, parse).BadNumber?
  {
    match Extract(f, line, parse)
    case BadNumber(text) => Abort(text)
    case Extracted(g) => Settle(g, line)
  }

  /** The state after a run of lines: the accumulators, the icons asked for
      so far, and the text that failed to convert, if one did. */
  datatype Scanned = Scanned(fields: Fields, emitted: seq<Emission>, failure: Option<string>)

  /** The scan before the first line: empty accumulators, nothing asked for. */
  const START: Scanned := Scanned(NO_FIELDS, [], None)

  /** One more line of the scan; nothing is looked at once a number has
      failed to convert. */
  function Advance(s: Scanned, line: string, parse: NumberParser): (r: Scanned)
    ensures s.failure.Some? ==> r == s
    ensures |s.emitted| <= |r.emitted| <= |s.emitted| + 1 && r.emitted[..|s.emitted|] == s.emitted
  {
    if s.failure.Some? then s
    else match ScanLine(s.fields, line, parse)
      case Abort(text) => Scanned(s.fields, s.emitted, Some(text))
      case Next(g, e) => Scanned(g, s.emitted + (if e.Some? then [e.value] else []), None)
  }

  /** The scan of `lines` continued from state `s`. */
  function ScanFrom(s: Scanned, lines: seq<string>, parse: NumberParser): Scanned
  {
    if lines == [] then s
    else Advance(ScanFrom(s, lines[..|lines| - 1], parse), lines[|lines| - 1], parse)
  }

  /** The scan of a whole descriptor. */
  function ScanLines(lines: seq<string>, parse: NumberParser): Scanned
  {
    ScanFrom(START, lines, parse)
  }

  /** The `resize_and_save_image` calls for the emitted icons. */
  function AppleJobs(output: string, emitted: seq<Emission>): (r: seq<Job>)
    ensures |r| == |emitted|
  {
    seq(|emitted|, k requires 0 <= k < |emitted| => Job(output + "/" + emitted[k].fileName, emitted[k].size))
  }

  /** Why `make_icon_apple` stops. */
  datatype AppleError = NoContentsFile | NumberError(text: string) | NotResolved(error: ResolveError)

  /** What a run leaves behind: the icons written, in order, the error that
      aborted it, and where `Contents.json` was copied, if it was. */
  datatype AppleRun = AppleRun(written: seq<(string, Raster)>, failure: Option<AppleError>,
                               contentsCopy: Option<string>)

  /** The copy of the descriptor into the output directory, skipped when the
      descriptor already is that file. */
  function ContentsCopy(contents: string, output: string): (r: Option<string>)
    ensures r.Some? <==> contents != output + "/Contents.json"
    ensures r.Some? ==> r.value == output + "/Contents.json"
  {
    var destination := output + "/Contents.json";
    if contents != destination then Some(destination) else None
  }

  /** The run as a whole: scan the descriptor's lines, write the icons it
      asks for in order, and stop at the first icon that cannot be resolved
      or the first number that does not convert, whichever line comes first. */
  function AppleOutcome(images: seq<Raster>, contents: string, text: string, output: string,
                        allowResize: bool, resample: Resampler, parse: NumberParser): AppleRun
  {
    if contents == [] then AppleRun([], Some(NoContentsFile), None)
    else
      var scan := ScanLines(Lines(CString(text)), parse);
      var saved := SaveAll(AppleJobs(output, scan.emitted), images, allowResize, resample);
      if saved.failure.Some? then AppleRun(saved.written, Some(NotResolved(saved.failure.value)), None)
      else if scan.failure.Some? then AppleRun(saved.written, Some(NumberError(scan.failure.value)), None)
      else AppleRun(saved.written, None, ContentsCopy(contents, output))
  }

  // ---- Lemmas about the scan ----

  lemma ScanLinesStep(lines: seq<string>, i: int, parse: NumberParser)
    requires 0 <= i < |lines|
    ensures var s := ScanLines(lines[..i], parse);
      ScanLines(lines[..i + 1], parse) ==
        if s.failure.Some? then s
        else match ScanLine(s.fields, lines[i], parse)
          case Abort(text) => Scanned(s.fields, s.emitted, Some(text))
          case Next(g, e) => Scanned(g, s.emitted + (if e.Some? then [e.value] else []), None)
  {
    assert lines[..i + 1][..i] == lines[..i];
  }

  /** Once a number has failed to convert, no later line is looked at. */
  lemma {:induction false} ScanFailureSticks(lines: seq<string>, i: int, parse: NumberParser)
    requires 0 <= i <= |lines| && ScanLines(lines[..i], parse).failure.Some?
    ensures ScanLines(lines, parse) == ScanLines(lines[..i], parse)
    decreases |lines| - i
  {
    if i < |lines| {
      ScanLinesStep(lines, i, parse);
      ScanFailureSticks(lines, i + 1, parse);
    } else {
      assert lines[..i] == lines;
    }
  }

  /** Emissions follow line order: scanning more lines only appends. */
  lemma {:induction false} EmittedPrefix(lines: seq<string>, i: int, parse: NumberParser)
    requires 0 <= i <= |lines|
    ensures var p := ScanLines(lines[..i], parse).emitted;
      |p| <= |ScanLines(lines, parse).emitted| && ScanLines(lines, parse).emitted[..|p|] == p
    decreases |lines| - i
  {
    if i < |lines| {
      ScanLinesStep(lines, i, parse);
      EmittedPrefix(lines, i + 1, parse);
      var p := ScanLines(lines[..i], parse).emitted;
      var q := ScanLines(lines[..i + 1], parse).emitted;
      assert q[..|p|] == p;
      var w := ScanLines(lines, parse).emitted;
      assert w[..|q|] == q;
      assert w[..|p|] == q[..|p|];
    } else {
      assert lines[..i] == lines;
    }
  }

  /** A line emits an icon exactly when, after its field is extracted, it
      holds no `}` and all three fields are set; the icon is the file name
      with the truncated product of size and scale. */
  lemma EmitsIff(g: Fields, line: string)
    ensures Settle(g, line).emission.Some? <==> FindCharFrom(line, '}', 0).None? && Complete(g)
    ensures Settle(g, line).emission.Some? ==>
      Settle(g, line).emission.value == Emission(g.fileName, TargetSize(g.size, g.scale))
  {
  }

  /** The accumulators are empty after every emission and after every line
      holding `}`. */
  lemma Resets(g: Fields, line: string)
    requires Settle(g, line).emission.Some? || FindCharFrom(line, '}', 0).Some?
    ensures Settle(g, line).fields == NO_FIELDS
  {
  }

  /** A line that neither emits nor holds `}` keeps what it extracted. */
  lemma KeepsIncomplete(g: Fields, line: string)
    requires FindCharFrom(line, '}', 0).None? && !Complete(g)
    ensures Settle(g, line) == Next(g, None)
  {
  }

  /** Every emitted icon has a file name. */
  lemma {:induction false} EmittedNamed(lines: seq<string>, parse: NumberParser)
    ensures forall k :: 0 <= k < |ScanLines(lines, parse).emitted| ==>
      ScanLines(lines, parse).emitted[k].fileName != []
  {
    if lines != [] {
      EmittedNamed(lines[..|lines| - 1], parse);
      assert ScanLines(lines, parse) == Advance(ScanLines(lines[..|lines| - 1], parse), lines[|lines| - 1], parse);
    }
  }

  /** Each emission needs its own line, so there are never more icons than
      lines. */
  lemma {:induction false} EmissionsBounded(lines: seq<string>, parse: NumberParser)
    ensures |ScanLines(lines, parse).emitted| <= |lines|
  {
    if lines != [] {
      EmissionsBounded(lines[..|lines| - 1], parse);
    }
  }

  // ---- Well-formed descriptors ----

  /** A line the scan passes over: no keyword and no `}`. */
  predicate Plain(line: string)
  {
    !Contains(line, "filename") && !Contains(line, "scale") && !Contains(line, "size") &&
    FindCharFrom(line, '}', 0).None?
  }

  predicate AllPlain(lines: seq<string>)
  {
    forall k :: 0 <= k < |lines| ==> Plain(lines[k])
  }

  /** One image object of the descriptor, line by line, in the key order of
      an asset catalogue: lines before the file name (the opening `{`), the
      file name, other keys (`idiom`), the scale, other keys, the size, and
      the closing line. */
  datatype ImageObject = ImageObject(opening: seq<string>, nameLine: string, afterName: seq<string>,
                                     scaleLine: string, afterScale: seq<string>, sizeLine: string,
                                     closing: string)

  function ObjectLines(o: ImageObject): (r: seq<string>)
    ensures |r| == |o.opening| + |o.afterName| + |o.afterScale| + 4
  {
    o.opening + [o.nameLine] + o.afterName + [o.scaleLine] + o.afterScale + [o.sizeLine] + [o.closing]
  }

  /** A line whose value converts to a nonzero number. */
  predicate NumberLine(line: string, parse: NumberParser)
  {
    |line| >= 2 && parse(ValueText(line, "x")).Some? && parse(ValueText(line, "x")).value != 0.0
  }

  /** The line of the file name: it is not empty, and the line holds no `}`. */
  predicate NameLine(line: string)
  {
    Contains(line, "filename") && FindCharFrom(line, '}', 0).None? &&
    |line| >= 2 && ValueText(line, "\",") != []
  }

  predicate ScaleLine(line: string, parse: NumberParser)
  {
    !Contains(line, "filename") && Contains(line, "scale") &&
    FindCharFrom(line, '}', 0).None? && NumberLine(line, parse)
  }

  predicate SizeLine(line: string, parse: NumberParser)
  {
    !Contains(line, "filename") && !Contains(line, "scale") && Contains(line, "size") &&
    FindCharFrom(line, '}', 0).None? && NumberLine(line, parse)
  }

  /** The closing line holds `}` and no keyword. */
  predicate ClosingLine(line: string)
  {
    !Contains(line, "filename") && !Contains(line, "scale") && !Contains(line, "size") &&
    FindCharFrom(line, '}', 0).Some?
  }

  /** A well-formed object: every other line is plain, the file name is not
      empty, both numbers convert to nonzero values, none of the three key
      lines holds `}`, and the closing line holds `}` and no keyword. */
  predicate WellFormed(o: ImageObject, parse: NumberParser)
  {
    AllPlain(o.opening) && AllPlain(o.afterName) && AllPlain(o.afterScale) &&
    NameLine(o.nameLine) && ScaleLine(o.scaleLine, parse) && SizeLine(o.sizeLine, parse) &&
    ClosingLine(o.closing)
  }

  /** The three values of an object can be read: both numbers convert. */
  predicate Readable(o: ImageObject, parse: NumberParser)
  {
    |o.nameLine| >= 2 && NumberLine(o.scaleLine, parse) && NumberLine(o.sizeLine, parse)
  }

  /** The icon a well-formed object asks for: its quoted file name, at the
      truncated product of its size and scale. */
  function ObjectEmission(o: ImageObject, parse: NumberParser): Emission
    requires Readable(o, parse)
  {
    var scale := parse(ValueText(o.scaleLine, "x")).value;
    var size := parse(ValueText(o.sizeLine, "x")).value;
    Emission(ValueText(o.nameLine, "\","), TargetSize(size, scale))
  }

  /** A descriptor made of objects, one after the other. */
  function DescriptorLines(objects: seq<ImageObject>): seq<string>
  {
    if objects == [] then [] else DescriptorLines(objects[..|objects| - 1]) + ObjectLines(objects[|objects| - 1])
  }

  lemma ScanFromStep(s: Scanned, lines: seq<string>, parse: NumberParser)
    requires lines != []
    ensures ScanFrom(s, lines, parse) == Advance(ScanFrom(s, lines[..|lines| - 1], parse), lines[|lines| - 1], parse)
  {
  }

  /** Scanning two runs of lines is scanning the second from where the first
      stopped. */
  lemma {:induction false} ScanFromAppend(s: Scanned, a: seq<string>, b: seq<string>, parse: NumberParser)
    ensures ScanFrom(s, a + b, parse) == ScanFrom(ScanFrom(s, a, parse), b, parse)
    decreases |b|
  {
    if b == [] {
      assert a + b == a;
    } else {
      var b' := b[..|b| - 1];
      assert (a + b)[..|a + b| - 1] == a + b';
      assert (a + b)[|a + b| - 1] == b[|b| - 1];
      ScanFromAppend(s, a, b', parse);
      ScanFromStep(s, a + b, parse);
      ScanFromStep(ScanFrom(s, a, parse), b, parse);
    }
  }

  /** A single line, scanned from state s, is one step of the scan. */
  lemma ScanOne(s: Scanned, line: string, parse: NumberParser)
    ensures ScanFrom(s, [line], parse) == Advance(s, line, parse)
  {
    assert [line][..0] == [];
  }

  /** A plain line leaves an incomplete state as it is. */
  lemma AdvancePlain(f: Fields, emitted: seq<Emission>, line: string, parse: NumberParser)
    requires !Complete(f) && Plain(line)
    ensures Advance(Scanned(f, emitted, None), line, parse) == Scanned(f, emitted, None)
  {
    assert Extract(f, line, parse) == Extracted(f);
    KeepsIncomplete(f, line);
  }

  /** A run of plain lines leaves an incomplete state as it is. */
  lemma {:induction false} PlainLinesKeep(f: Fields, emitted: seq<Emission>, lines: seq<string>, parse: NumberParser)
    requires !Complete(f) && AllPlain(lines)
    ensures ScanFrom(Scanned(f, emitted, None), lines, parse) == Scanned(f, emitted, None)
  {
    if lines != [] {
      PlainLinesKeep(f, emitted, lines[..|lines| - 1], parse);
      ScanFromStep(Scanned(f, emitted, None), lines, parse);
      AdvancePlain(f, emitted, lines[|lines| - 1], parse);
    }
  }

  /** The file name line sets the file name. */
  lemma AdvanceName(emitted: seq<Emission>, line: string, parse: NumberParser)
    requires NameLine(line)
    ensures Advance(Scanned(NO_FIELDS, emitted, None), line, parse)
         == Scanned(Fields(ValueText(line, "\","), 0.0, 0.0), emitted, None)
  {
    var g := Fields(ValueText(line, "\","), 0.0, 0.0);
    assert Extract(NO_FIELDS, line, parse) == Extracted(g);
    KeepsIncomplete(g, line);
  }

  /** The scale line sets the scale. */
  lemma AdvanceScale(name: string, emitted: seq<Emission>, line: string, parse: NumberParser)
    requires ScaleLine(line, parse)
    ensures Advance(Scanned(Fields(name, 0.0, 0.0), emitted, None), line, parse)
         == Scanned(Fields(name, parse(ValueText(line, "x")).value, 0.0), emitted, None)
  {
    var g := Fields(name, parse(ValueText(line, "x")).value, 0.0);
    assert Extract(Fields(name, 0.0, 0.0), line, parse) == Extracted(g);
    KeepsIncomplete(g, line);
  }

  /** The size line completes the fields: the icon is asked for and the
      accumulators are emptied. */
  lemma AdvanceSize(name: string, scale: real, size: real, emitted: seq<Emission>, line: string,
                    parse: NumberParser)
    requires name != [] && scale != 0.0 && SizeLine(line, parse) && parse(ValueText(line, "x")) == Some(size)
    ensures Advance(Scanned(Fields(name, scale, 0.0), emitted, None), line, parse)
         == Scanned(NO_FIELDS, emitted + [Emission(name, TargetSize(size, scale))], None)
  {
    var g := Fields(name, scale, size);
    assert Extract(Fields(name, scale, 0.0), line, parse) == Extracted(g);
    EmitsIff(g, line);
    Resets(g, line);
  }

  /** The closing line keeps the empty accumulators empty. */
  lemma AdvanceClosing(emitted: seq<Emission>, line: string, parse: NumberParser)
    requires ClosingLine(line)
    ensures Advance(Scanned(NO_FIELDS, emitted, None), line, parse) == Scanned(NO_FIELDS, emitted, None)
  {
    assert Extract(NO_FIELDS, line, parse) == Extracted(NO_FIELDS);
    Resets(NO_FIELDS, line);
  }

  /** One more line after a run of lines. */
  lemma ScanSnoc(s: Scanned, lines: seq<string>, line: string, parse: NumberParser)
    ensures ScanFrom(s, lines + [line], parse) == Advance(ScanFrom(s, lines, parse), line, parse)
  {
    assert (lines + [line])[..|lines|] == lines;
  }

  /** Plain lines after a run leave its incomplete state as it is. */
  lemma ScanGap(s: Scanned, lines: seq<string>, gap: seq<string>, f: Fields, emitted: seq<Emission>,
                parse: NumberParser)
    requires ScanFrom(s, lines, parse) == Scanned(f, emitted, None)
    requires !Complete(f) && AllPlain(gap)
    ensures ScanFrom(s, lines + gap, parse) == Scanned(f, emitted, None)
  {
    ScanFromAppend(s, lines, gap, parse);
    PlainLinesKeep(f, emitted, gap, parse);
  }

  /** The lines up to the file name, from empty accumulators. */
  lemma NamePart(s0: Scanned, opening: seq<string>, nameLine: string, parse: NumberParser)
    requires s0.fields == NO_FIELDS && s0.failure.None? && AllPlain(opening) && NameLine(nameLine)
    ensures ScanFrom(s0, opening + [nameLine], parse)
         == Scanned(Fields(ValueText(nameLine, "\","), 0.0, 0.0), s0.emitted, None)
  {
    PlainLinesKeep(NO_FIELDS, s0.emitted, opening, parse);
    ScanSnoc(s0, opening, nameLine, parse);
    AdvanceName(s0.emitted, nameLine, parse);
  }

  /** The lines after the file name, up to the scale. */
  lemma ScalePart(s0: Scanned, p: seq<string>, name: string, gap: seq<string>, scaleLine: string,
                  parse: NumberParser)
    requires ScanFrom(s0, p, parse) == Scanned(Fields(name, 0.0, 0.0), s0.emitted, None)
    requires AllPlain(gap) && ScaleLine(scaleLine, parse)
    ensures ScanFrom(s0, p + gap + [scaleLine], parse)
         == Scanned(Fields(name, parse(ValueText(scaleLine, "x")).value, 0.0), s0.emitted, None)
  {
    ScanGap(s0, p, gap, Fields(name, 0.0, 0.0), s0.emitted, parse);
    ScanSnoc(s0, p + gap, scaleLine, parse);
    AdvanceScale(name, s0.emitted, scaleLine, parse);
  }

  /** The lines after the scale, up to the size, which asks for the icon. */
  lemma SizePart(s0: Scanned, p: seq<string>, name: string, scale: real, gap: seq<string>, sizeLine: string,
                 size: real, parse: NumberParser)
    requires name != [] && scale != 0.0
    requires ScanFrom(s0, p, parse) == Scanned(Fields(name, scale, 0.0), s0.emitted, None)
    requires AllPlain(gap) && SizeLine(sizeLine, parse) && parse(ValueText(sizeLine, "x")) == Some(size)
    ensures ScanFrom(s0, p + gap + [sizeLine], parse)
         == Scanned(NO_FIELDS, s0.emitted + [Emission(name, TargetSize(size, scale))], None)
  {
    ScanGap(s0, p, gap, Fields(name, scale, 0.0), s0.emitted, parse);
    ScanSnoc(s0, p + gap, sizeLine, parse);
    AdvanceSize(name, scale, size, s0.emitted, sizeLine, parse);
  }

  /** Between objects the accumulators are empty, and a well-formed object
      asks for exactly its own icon. */
  lemma ObjectScan(o: ImageObject, emitted: seq<Emission>, parse: NumberParser)
    requires WellFormed(o, parse)
    ensures ScanFrom(Scanned(NO_FIELDS, emitted, None), ObjectLines(o), parse)
         == Scanned(NO_FIELDS, emitted + [ObjectEmission(o, parse)], None)
  {
    var name := ValueText(o.nameLine, "\",");
    var scale := parse(ValueText(o.scaleLine, "x")).value;
    var size := parse(ValueText(o.sizeLine, "x")).value;
    var s0 := Scanned(NO_FIELDS, emitted, None);
    var p2 := o.opening + [o.nameLine];
    var p4 := p2 + o.afterName + [o.scaleLine];
    var p6 := p4 + o.afterScale + [o.sizeLine];
    NamePart(s0, o.opening, o.nameLine, parse);
    ScalePart(s0, p2, name, o.afterName, o.scaleLine, parse);
    SizePart(s0, p4, name, scale, o.afterScale, o.sizeLine, size, parse);
    ScanSnoc(s0, p6, o.closing, parse);
    AdvanceClosing(emitted + [ObjectEmission(o, parse)], o.closing, parse);
    assert ObjectLines(o) == p6 + [o.closing];
  }

  /** Every object of the list is well formed. */
  predicate AllWellFormed(objects: seq<ImageObject>, parse: NumberParser)
  {
    forall k :: 0 <= k < |objects| ==> WellFormed(objects[k], parse)
  }

  predicate AllReadable(objects: seq<ImageObject>, parse: NumberParser)
  {
    forall k :: 0 <= k < |objects| ==> Readable(objects[k], parse)
  }

  /** The icons `emitted` are those of `objects`, one each, in order. */
  predicate EmitsObjects(emitted: seq<Emission>, objects: seq<ImageObject>, parse: NumberParser)
    requires AllReadable(objects, parse)
  {
    |emitted| == |objects| && forall k :: 0 <= k < |objects| ==> emitted[k] == ObjectEmission(objects[k], parse)
  }

  lemma EmitsObjectsSnoc(emitted: seq<Emission>, objects: seq<ImageObject>, parse: NumberParser)
    requires objects != [] && AllReadable(objects, parse)
    requires AllReadable(objects[..|objects| - 1], parse)
    requires EmitsObjects(emitted, objects[..|objects| - 1], parse)
    ensures EmitsObjects(emitted + [ObjectEmission(objects[|objects| - 1], parse)], objects, parse)
  {
    var front := objects[..|objects| - 1];
    var all := emitted + [ObjectEmission(objects[|objects| - 1], parse)];
    forall k | 0 <= k < |objects|
      ensures all[k] == ObjectEmission(objects[k], parse)
    {
      if k < |front| {
        assert front[k] == objects[k];
        assert all[k] == emitted[k];
      }
    }
  }

  /** A descriptor of N well-formed objects asks for exactly N icons, in
      object order, each named and sized by its own object, and leaves the
      accumulators empty. */
  lemma {:induction false} DescriptorEmits(objects: seq<ImageObject>, parse: NumberParser)
    requires AllWellFormed(objects, parse)
    ensures AllReadable(objects, parse)
    ensures var s := ScanLines(DescriptorLines(objects), parse);
      s.fields == NO_FIELDS && s.failure.None? && EmitsObjects(s.emitted, objects, parse)
  {
    if objects != [] {
      var front := objects[..|objects| - 1];
      var o := objects[|objects| - 1];
      assert AllWellFormed(front, parse);
      DescriptorEmits(front, parse);
      var before := ScanLines(DescriptorLines(front), parse);
      ScanFromAppend(START, DescriptorLines(front), ObjectLines(o), parse);
      ObjectScan(o, before.emitted, parse);
      EmitsObjectsSnoc(before.emitted, objects, parse);
    }
  }

  // ---- The loop ----

  /** Saving one more emitted icon is one more step of the run. */
  lemma SaveStep(output: string, emitted: seq<Emission>, e: Emission,
                 images: seq<Raster>, allowResize: bool, resample: Resampler)
    ensures SaveAll(AppleJobs(output, emitted + [e]), images, allowResize, resample)
         == Step(SaveAll(AppleJobs(output, emitted), images, allowResize, resample),
                 Job(output + "/" + e.fileName, e.size), images, allowResize, resample)
  {
    var jobs := AppleJobs(output, emitted + [e]);
    assert jobs == AppleJobs(output, emitted) + [Job(output + "/" + e.fileName, e.size)];
    assert jobs[..|jobs| - 1] == AppleJobs(output, emitted);
  }

  /** After a failed save at line i, the run's result is fixed. */
  lemma ResolveFailureFinal(images: seq<Raster>, contents: string, text: string, output: string,
                            allowResize: bool, resample: Resampler, parse: NumberParser, i: int)
    requires contents != [] && 0 <= i <= |Lines(CString(text))|
    requires ScanLines(Lines(CString(text))[..i], parse).failure.None?
    requires SaveAll(AppleJobs(output, ScanLines(Lines(CString(text))[..i], parse).emitted),
                     images, allowResize, resample).failure.Some?
    ensures var saved := SaveAll(AppleJobs(output, ScanLines(Lines(CString(text))[..i], parse).emitted),
                                 images, allowResize, resample);
      AppleOutcome(images, contents, text, output, allowResize, resample, parse)
        == AppleRun(saved.written, Some(NotResolved(saved.failure.value)), None)
  {
    var lines := Lines(CString(text));
    var p := ScanLines(lines[..i], parse).emitted;
    var w := ScanLines(lines, parse).emitted;
    EmittedPrefix(lines, i, parse);
    var jobs := AppleJobs(output, w);
    assert jobs[..|p|] == AppleJobs(output, p);
    FailureSticks(jobs, |p|, images, allowResize, resample);
  }

  /** A line whose number converts extends the scan by what it settles to. */
  lemma ScanAdvance(lines: seq<string>, i: int, parse: NumberParser, f: Fields, emitted: seq<Emission>,
                    g: Fields, next: Fields, emission: Option<Emission>)
    requires 0 <= i < |lines|
    requires ScanLines(lines[..i], parse) == Scanned(f, emitted, None)
    requires Extract(f, lines[i], parse) == Extracted(g)
    requires Settle(g, lines[i]) == Next(next, emission)
    ensures ScanLines(lines[..i + 1], parse)
         == Scanned(next, emitted + (if emission.Some? then [emission.value] else []), None)
  {
    ScanLinesStep(lines, i, parse);
  }

  /** A number that fails to convert at line i fixes the run's result: the
      files written so far and the conversion error. */
  lemma NumberFailureFinal(images: seq<Raster>, contents: string, text: string, output: string,
                           allowResize: bool, resample: Resampler, parse: NumberParser,
                           i: int, f: Fields, emitted: seq<Emission>, written: seq<(string, Raster)>,
                           bad: string)
    requires contents != [] && 0 <= i < |Lines(CString(text))|
    requires ScanLines(Lines(CString(text))[..i], parse) == Scanned(f, emitted, None)
    requires SaveAll(AppleJobs(output, emitted), images, allowResize, resample) == Outcome(written, None)
    requires Extract(f, Lines(CString(text))[i], parse) == BadNumber(bad)
    ensures AppleOutcome(images, contents, text, output, allowResize, resample, parse)
         == AppleRun(written, Some(NumberError(bad)), None)
  {
    var lines := Lines(CString(text));
    ScanLinesStep(lines, i, parse);
    assert ScanLines(lines[..i + 1], parse) == Scanned(f, emitted, Some(bad));
    ScanFailureSticks(lines, i + 1, parse);
  }

  /** The keyword tests of one line: at most one field is set; `bad` is the
      text `std::stof` throws on. */
  method ExtractField(fileName: string, scale: real, size: real, line: string, parse: NumberParser)
    returns (fileName': string, scale': real, size': real, bad: Option<string>)
    ensures bad.Some? ==> Extract(Fields(fileName, scale, size), line, parse) == BadNumber(bad.value)
    ensures bad.None? ==>
      Extract(Fields(fileName, scale, size), line, parse) == Extracted(Fields(fileName', scale', size'))
  {
    fileName', scale', size', bad := fileName, scale, size, None;
    if Contains(line, "filename") {
      ValueStartInside(line, "filename");
      fileName' := ValueText(line, "\",");
    } else if Contains(line, "scale") {
      ValueStartInside(line, "scale");
      var value := ValueText(line, "x");
      match parse(value) {
        case None => bad := Some(value);
        case Some(v) => scale' := v;
      }
    } else if Contains(line, "size") {
      ValueStartInside(line, "size");
      var value := ValueText(line, "x");
      match parse(value) {
        case None => bad := Some(value);
        case Some(v) => size' := v;
      }
    }
  }

  /** The rest of the iteration before the save: reset on `}`, then hand out
      the icon and reset once all three fields are known. */
  method SettleFields(fileName: string, scale: real, size: real, line: string)
    returns (fileName': string, scale': real, size': real, emission: Option<Emission>)
    ensures Settle(Fields(fileName, scale, size), line) == Next(Fields(fileName', scale', size'), emission)
  {
    ghost var g := Fields(fileName, scale, size);
    fileName', scale', size', emission := fileName, scale, size, None;
    if FindCharFrom(line, '}', 0).Some? {
      fileName' := "";
      size' := 0.0;
      scale' := 0.0;
    }
    EmitsIff(g, line);
    if fileName' != [] && scale' != 0.0 && size' != 0.0 {
      emission := Some(Emission(fileName', TargetSize(size', scale')));
      Resets(g, line);
      assert fileName' == g.fileName && size' == g.size && scale' == g.scale;
      fileName' := "";
      scale' := 0.0;
      size' := 0.0;
    } else if FindCharFrom(line, '}', 0).Some? {
      Resets(g, line);
    } else {
      KeepsIncomplete(g, line);
    }
  }

  /** `make_icon_apple`: the `getline` loop over the descriptor with its three
      accumulators, saving each icon as soon as it is complete, and the final
      copy of the descriptor. */
  method MakeIconApple(images: seq<Raster>, contents: string, text: string, output: string,
                       allowResize: bool, resample: Resampler, parse: NumberParser)
    returns (run: AppleRun)
    ensures run == AppleOutcome(images, contents, text, output, allowResize, resample, parse)
  {
    if contents == [] {
      return AppleRun([], Some(NoContentsFile), None);
    }
    var lines := Lines(CString(text));
    var fileName: string := "";
    var scale: real := 0.0;
    var size: real := 0.0;
    var written: seq<(string, Raster)> := [];
    var failure: Option<AppleError> := None;
    ghost var emitted: seq<Emission> := [];
    var i := 0;
    while i < |lines| && failure.None?
      invariant 0 <= i <= |lines|
      invariant failure.None? ==>
        ScanLines(lines[..i], parse) == Scanned(Fields(fileName, scale, size), emitted, None) &&
        SaveAll(AppleJobs(output, emitted), images, allowResize, resample) == Outcome(written, None)
      invariant failure.Some? ==>
        AppleOutcome(images, contents, text, output, allowResize, resample, parse) == AppleRun(written, failure, None)
    {
      ghost var f := Fields(fileName, scale, size);
      var bad;
      fileName, scale, size, bad := ExtractField(fileName, scale, size, lines[i], parse);
      var emission: Option<Emission> := None;
      if bad.None? {
        ghost var g := Fields(fileName, scale, size);
        fileName, scale, size, emission := SettleFields(fileName, scale, size, lines[i]);
        ScanAdvance(lines, i, parse, f, emitted, g, Fields(fileName, scale, size), emission);
      }
      if bad.Some? {
        failure := Some(NumberError(bad.value));
        NumberFailureFinal(images, contents, text, output, allowResize, resample, parse,
                           i, f, emitted, written, bad.value);
      } else if emission.Some? {
        var e := emission.value;
        SaveStep(output, emitted, e, images, allowResize, resample);
        emitted := emitted + [e];
        match Resolve(images, e.size, allowResize, resample) {
          case Ok(image) => written := written + [(output + "/" + e.fileName, image)];
          case Err(err) =>
            failure := Some(NotResolved(err));
            ResolveFailureFinal(images, contents, text, output, allowResize, resample, parse, i + 1);
        }
      }
      i := i + 1;
    }
    var copy: Option<string> := None;
    if failure.None? {
      assert lines[..i] == lines;
      copy := ContentsCopy(contents, output);
    }
    run := AppleRun(written, failure, copy);
  }

  // ---- The run as a whole ----

  /** A run that completes writes one icon per emission, in line order, at
      `<output>/<filename>`, each the resolver's image for the truncated
      size, and then copies the descriptor unless it already is the copy. */
  lemma AppleFiles(images: seq<Raster>, contents: string, text: string, output: string,
                   allowResize: bool, resample: Resampler, parse: NumberParser)
    requires AppleOutcome(images, contents, text, output, allowResize, resample, parse).failure.None?
    ensures var run := AppleOutcome(images, contents, text, output, allowResize, resample, parse);
      var emitted := ScanLines(Lines(CString(text)), parse).emitted;
      |run.written| == |emitted| &&
      (forall k :: 0 <= k < |emitted| ==>
         Resolve(images, emitted[k].size, allowResize, resample).Ok? &&
         run.written[k] == (output + "/" + emitted[k].fileName,
                            Resolve(images, emitted[k].size, allowResize, resample).value)) &&
      (run.contentsCopy.Some? <==> contents != output + "/Contents.json")
  {
    var emitted := ScanLines(Lines(CString(text)), parse).emitted;
    var jobs := AppleJobs(output, emitted);
    SaveAllOutcome(jobs, images, allowResize, resample);
    assert forall k :: 0 <= k < |emitted| ==> jobs[k] == Job(output + "/" + emitted[k].fileName, emitted[k].size);
  }

  /** With a descriptor whose numbers all convert, the run completes iff
      every emitted icon's size resolves. */
  lemma AppleCompletesIff(images: seq<Raster>, contents: string, text: string, output: string,
                          allowResize: bool, resample: Resampler, parse: NumberParser)
    requires contents != [] && ScanLines(Lines(CString(text)), parse).failure.None?
    ensures var emitted := ScanLines(Lines(CString(text)), parse).emitted;
      AppleOutcome(images, contents, text, output, allowResize, resample, parse).failure.None? <==>
        forall k :: 0 <= k < |emitted| ==> Resolve(images, emitted[k].size, allowResize, resample).Ok?
  {
    var emitted := ScanLines(Lines(CString(text)), parse).emitted;
    var jobs := AppleJobs(output, emitted);
    SaveAllCompletesIff(jobs, images, allowResize, resample);
    assert forall k :: 0 <= k < |emitted| ==> jobs[k].size == emitted[k].size;
  }

  /** A descriptor of N well-formed image objects: the run completes iff
      every object's size resolves, and then it writes exactly N files, the
      k-th at `<output>/<filename of object k>` holding the resolver's image
      for that object's truncated size * scale, and copies the descriptor. */
  lemma DescriptorFiles(images: seq<Raster>, contents: string, text: string, output: string,
                        allowResize: bool, resample: Resampler, parse: NumberParser,
                        objects: seq<ImageObject>)
    requires contents != [] && AllWellFormed(objects, parse)
    requires Lines(CString(text)) == DescriptorLines(objects)
    ensures AllReadable(objects, parse)
    ensures var run := AppleOutcome(images, contents, text, output, allowResize, resample, parse);
      (run.failure.None? <==>
         forall k :: 0 <= k < |objects| ==>
           Resolve(images, ObjectEmission(objects[k], parse).size, allowResize, resample).Ok?) &&
      (run.failure.None? ==>
         |run.written| == |objects| &&
         (forall k :: 0 <= k < |objects| ==>
            var e := ObjectEmission(objects[k], parse);
            run.written[k] == (output + "/" + e.fileName, Resolve(images, e.size, allowResize, resample).value)) &&
         (run.contentsCopy.Some? <==> contents != output + "/Contents.json"))
  {
    DescriptorEmits(objects, parse);
    AppleCompletesIff(images, contents, text, output, allowResize, resample, parse);
    if AppleOutcome(images, contents, text, output, allowResize, resample, parse).failure.None? {
      AppleFiles(images, contents, text, output, allowResize, resample, parse);
    }
  }

  /** Without a descriptor there is nothing to scan: the run fails first. */
  lemma NoContentsFails(images: seq<Raster>, text: string, output: string,
                        allowResize: bool, resample: Resampler, parse: NumberParser)
    ensures AppleOutcome(images, [], text, output, allowResize, resample, parse)
      == AppleRun([], Some(NoContentsFile), None)
  {
  }
}
