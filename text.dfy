/** The `std::string` operations the scanners rely on, over `seq<char>`:
    `find` of a substring or a character, `substr` with a count that may
    have wrapped, the line splitting of `std::getline`, and the cut at the
    first NUL that building a stream from a C string makes. */
module Text {
  import opened Common

  /** Pattern p occurs in s starting at index j. */
  predicate OccursAt(s: string, p: string, j: int)
  {
    0 <= j && j + |p| <= |s| && s[j..j + |p|] == p
  }

  /** The first occurrence of p at or after `from`. */
  function FindFrom(s: string, p: string, from: nat): (r: Option<nat>)
    ensures r.Some? ==> from <= r.value && OccursAt(s, p, r.value)
    ensures r.Some? ==> forall j :: from <= j < r.value ==> !OccursAt(s, p, j)
    ensures r.None? ==> forall j :: from <= j ==> !OccursAt(s, p, j)
    decreases |s| - from
  {
    if from + |p| > |s| then None
    else if s[from..from + |p|] == p then Some(from)
    else FindFrom(s, p, from + 1)
  }

  /** `s.find(p)`; `None` stands for `npos`. */
  function Find(s: string, p: string): (r: Option<nat>)
    ensures r.Some? ==> OccursAt(s, p, r.value) && forall j :: 0 <= j < r.value ==> !OccursAt(s, p, j)
    ensures r.None? <==> forall j :: 0 <= j ==> !OccursAt(s, p, j)
  {
    FindFrom(s, p, 0)
  }

  /** `s.find(p) != -1`: the comparison with -1 converts it to `npos`. */
  predicate Contains(s: string, p: string)
  {
    Find(s, p).Some?
  }

  /** `s.find(c, from)` for a single character. */
  function FindCharFrom(s: string, c: char, from: nat): (r: Option<nat>)
    ensures r.Some? ==> from <= r.value < |s| && s[r.value] == c
    ensures r.Some? ==> forall j :: from <= j < r.value ==> s[j] != c
    ensures r.None? ==> forall j :: from <= j < |s| ==> s[j] != c
    decreases |s| - from
  {
    if from >= |s| then None
    else if s[from] == c then Some(from)
    else FindCharFrom(s, c, from + 1)
  }

  /** `s.substr(start, count)` where `count` was computed as a signed
      difference and passed as `size_t`: a negative count wraps to a huge
      one, so the substring runs to the end; so does any count past it. */
  function Substr(s: string, start: int, count: int): (r: string)
    requires 0 <= start <= |s|
    ensures |r| <= |s| - start && r == s[start..start + |r|]
    ensures 0 <= count <= |s| - start ==> |r| == count
    ensures (count < 0 || count > |s| - start) ==> |r| == |s| - start
  {
    if count < 0 || start + count > |s| then s[start..] else s[start..start + count]
  }

  /** The lines `std::getline(stream, line, '\n')` returns one by one: every
      newline ends a line, and text after the last newline forms a final
      line only when it is not empty. */
  function Lines(text: string): (r: seq<string>)
    ensures forall k, j :: 0 <= k < |r| && 0 <= j < |r[k]| ==> r[k][j] != '\n'
    decreases |text|
  {
    if text == [] then []
    else match FindCharFrom(text, '\n', 0)
      case None => [text]
      case Some(p) => [text[..p]] + Lines(text[p + 1..])
  }

  /** Every line with its newline put back. */
  function JoinLines(lines: seq<string>): string
  {
    if lines == [] then [] else lines[0] + "\n" + JoinLines(lines[1..])
  }

  /** Splitting loses nothing: putting the newlines back gives the text,
      plus a final newline when the text did not end with one. */
  lemma {:induction false} LinesRoundTrip(text: string)
    ensures JoinLines(Lines(text)) == if text == [] || text[|text| - 1] == '\n' then text else text + "\n"
    decreases |text|
  {
    if text != [] {
      match FindCharFrom(text, '\n', 0)
      case None =>
        assert Lines(text) == [text];
      case Some(p) =>
        var rest := text[p + 1..];
        var ls := Lines(rest);
        LinesRoundTrip(rest);
        assert Lines(text) == [text[..p]] + ls;
        assert ([text[..p]] + ls)[1..] == ls;
        assert JoinLines(Lines(text)) == text[..p] + "\n" + JoinLines(ls);
        assert text == text[..p] + "\n" + rest;
        if rest != [] {
          assert rest[|rest| - 1] == text[|text| - 1];
        }
    }
  }

  /** The text a stream built from a NUL-terminated buffer sees: everything
      before the first NUL character. */
  function CString(text: string): (r: string)
    ensures |r| <= |text| && r == text[..|r|]
    ensures forall j :: 0 <= j < |r| ==> r[j] != '\0'
    ensures |r| < |text| ==> text[|r|] == '\0'
  {
    match FindCharFrom(text, '\0', 0)
    case None => text
    case Some(p) => text[..p]
  }
}
