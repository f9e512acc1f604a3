/** Command-line handling: `tokenize_string`, `format_argument`, and the
    range check every requested icon size must pass. */
module Args {
  import opened Common

  /** `str.find_first_of(delims, from)`: the first index at or after `from`
      holding any of the delimiter characters (`None` is `npos`). */
  function FindFirstOf(s: string, delims: string, from: nat): (r: Option<nat>)
    ensures r.Some? ==> from <= r.value < |s| && s[r.value] in delims
    ensures r.Some? ==> forall j :: from <= j < r.value ==> s[j] !in delims
    ensures r.None? ==> forall j :: from <= j < |s| ==> s[j] !in delims
    decreases |s| - from
  {
    if from >= |s| then None
    else if s[from] in delims then Some(from)
    else FindFirstOf(s, delims, from + 1)
  }

  /** The tokens `tokenize_string` appends when it resumes at `prev`: every
      maximal run of non-delimiter characters, in order. */
  function TokensFrom(s: string, delims: string, prev: nat): seq<string>
    decreases |s| - prev
  {
    match FindFirstOf(s, delims, prev)
    case Some(pos) => (if pos > prev then [s[prev..pos]] else []) + TokensFrom(s, delims, pos + 1)
    case None => if prev < |s| then [s[prev..]] else []
  }

  /** `tokenize_string`: appends the tokens of `str` to `tokens`, which is
      kept as it was in front of them. */
  method TokenizeString(str: string, delims: string, tokens: seq<string>) returns (tokens': seq<string>)
    ensures tokens' == tokens + TokensFrom(str, delims, 0)
  {
    tokens' := tokens;
    var prev := 0;
    var pos := FindFirstOf(str, delims, prev);
    while pos.Some?
      invariant prev <= |str|
      invariant pos == FindFirstOf(str, delims, prev)
      invariant tokens + TokensFrom(str, delims, 0) == tokens' + TokensFrom(str, delims, prev)
      decreases |str| - prev
    {
      var p := pos.value;
      if p > prev {
        tokens' := tokens' + [str[prev..p]];
      }
      prev := p + 1;
      pos := FindFirstOf(str, delims, prev);
    }
    if prev < |str| {
      tokens' := tokens' + [str[prev..]];
    }
  }

  /** `str` with every delimiter character removed. */
  function Strip(s: string, delims: string): string
  {
    if s == [] then [] else (if s[0] in delims then [] else [s[0]]) + Strip(s[1..], delims)
  }

  /** Concatenation of a list of strings. */
  function Concat(ts: seq<string>): string
  {
    if ts == [] then [] else ts[0] + Concat(ts[1..])
  }

  lemma {:induction false} StripAppend(a: string, b: string, delims: string)
    ensures Strip(a + b, delims) == Strip(a, delims) + Strip(b, delims)
    decreases |a|
  {
    if a != [] {
      assert (a + b)[1..] == a[1..] + b;
      StripAppend(a[1..], b, delims);
    } else {
      assert a + b == b;
    }
  }

  lemma {:induction false} StripKeeps(a: string, delims: string)
    requires forall j :: 0 <= j < |a| ==> a[j] !in delims
    ensures Strip(a, delims) == a
    decreases |a|
  {
    if a != [] {
      StripKeeps(a[1..], delims);
      assert a == [a[0]] + a[1..];
    }
  }

  lemma ConcatAppend(ts: seq<string>, us: seq<string>)
    ensures Concat(ts + us) == Concat(ts) + Concat(us)
    decreases |ts|
  {
    if ts != [] {
      assert (ts + us)[1..] == ts[1..] + us;
      ConcatAppend(ts[1..], us);
    } else {
      assert ts + us == us;
    }
  }

  /** No token is empty and none holds a delimiter. */
  lemma {:induction false} TokensWellFormed(s: string, delims: string, prev: nat)
    ensures forall k :: 0 <= k < |TokensFrom(s, delims, prev)| ==> |TokensFrom(s, delims, prev)[k]| > 0
    ensures forall k, j :: 0 <= k < |TokensFrom(s, delims, prev)| && 0 <= j < |TokensFrom(s, delims, prev)[k]| ==>
      TokensFrom(s, delims, prev)[k][j] !in delims
    decreases |s| - prev
  {
    match FindFirstOf(s, delims, prev)
    case Some(pos) =>
      TokensWellFormed(s, delims, pos + 1);
      var ts := TokensFrom(s, delims, pos + 1);
      if pos > prev {
        assert TokensFrom(s, delims, prev) == [s[prev..pos]] + ts;
      } else {
        assert TokensFrom(s, delims, prev) == ts;
      }
    case None =>
  }

  /** Removing delimiters from a stretch that runs up to a delimiter keeps
      the stretch and drops that delimiter. */
  lemma StripAtDelimiter(s: string, delims: string, prev: int, pos: int)
    requires 0 <= prev <= pos < |s| && s[pos] in delims
    requires forall j :: prev <= j < pos ==> s[j] !in delims
    ensures Strip(s[prev..], delims) == s[prev..pos] + Strip(s[pos + 1..], delims)
  {
    assert s[prev..] == s[prev..pos] + [s[pos]] + s[pos + 1..];
    StripAppend(s[prev..pos] + [s[pos]], s[pos + 1..], delims);
    StripAppend(s[prev..pos], [s[pos]], delims);
    StripKeeps(s[prev..pos], delims);
    assert Strip([s[pos]], delims) == [];
  }

  /** The tokens, put together, are the text with the delimiters removed:
      nothing but delimiters is lost, and the order is kept. */
  lemma {:induction false} TokensConcat(s: string, delims: string, prev: nat)
    requires prev <= |s|
    ensures Concat(TokensFrom(s, delims, prev)) == Strip(s[prev..], delims)
    decreases |s| - prev
  {
    match FindFirstOf(s, delims, prev)
    case Some(pos) =>
      TokensConcat(s, delims, pos + 1);
      var rest := TokensFrom(s, delims, pos + 1);
      StripAtDelimiter(s, delims, prev, pos);
      if pos > prev {
        ConcatAppend([s[prev..pos]], rest);
        assert Concat([s[prev..pos]]) == s[prev..pos] + Concat([]);
        assert TokensFrom(s, delims, prev) == [s[prev..pos]] + rest;
      } else {
        assert TokensFrom(s, delims, prev) == rest;
      }
    case None =>
      StripKeeps(s[prev..], delims);
  }

  // ---- Joining and splitting ----

  /** The items separated by `c`. */
  function Join(ts: seq<string>, c: char): string
  {
    if |ts| == 0 then [] else if |ts| == 1 then ts[0] else ts[0] + [c] + Join(ts[1..], c)
  }

  /** A search that starts past a prefix finds what it finds in the suffix. */
  lemma {:induction false} FindShiftSome(a: string, b: string, delims: string, p: nat, q: nat)
    requires FindFirstOf(b, delims, p) == Some(q)
    ensures FindFirstOf(a + b, delims, |a| + p) == Some(|a| + q)
    decreases |b| - p
  {
    assert (a + b)[|a| + p] == b[p];
    if b[p] !in delims {
      FindShiftSome(a, b, delims, p + 1, q);
    }
  }

  /** A search that starts past a prefix fails when it fails in the suffix. */
  lemma {:induction false} FindShiftNone(a: string, b: string, delims: string, p: nat)
    requires FindFirstOf(b, delims, p) == None
    ensures FindFirstOf(a + b, delims, |a| + p) == None
    decreases |b| - p
  {
    if p < |b| {
      assert (a + b)[|a| + p] == b[p];
      FindShiftNone(a, b, delims, p + 1);
    }
  }

  /** Tokenising past a prefix gives the tokens of what follows it. */
  lemma {:induction false} TokensShift(a: string, b: string, delims: string, p: nat)
    ensures TokensFrom(a + b, delims, |a| + p) == TokensFrom(b, delims, p)
    decreases |b| - p
  {
    match FindFirstOf(b, delims, p)
    case Some(q) =>
      TokensShift(a, b, delims, q + 1);
      TokensShiftStep(a, b, delims, p, q);
    case None =>
      TokensShiftEnd(a, b, delims, p);
  }

  /** The inductive step of TokensShift: the token before the next
      delimiter is the same slice in both strings. */
  lemma TokensShiftStep(a: string, b: string, delims: string, p: nat, q: nat)
    requires FindFirstOf(b, delims, p) == Some(q)
    requires TokensFrom(a + b, delims, |a| + q + 1) == TokensFrom(b, delims, q + 1)
    ensures TokensFrom(a + b, delims, |a| + p) == TokensFrom(b, delims, p)
  {
    FindShiftSome(a, b, delims, p, q);
    TokensAtDelimiter(a + b, delims, |a| + p, |a| + q);
    TokensAtDelimiter(b, delims, p, q);
    if q > p {
      SliceShift(a, b, p, q);
    }
  }

  /** The base case of TokensShift: no delimiter is left. */
  lemma TokensShiftEnd(a: string, b: string, delims: string, p: nat)
    requires FindFirstOf(b, delims, p) == None
    ensures TokensFrom(a + b, delims, |a| + p) == TokensFrom(b, delims, p)
  {
    FindShiftNone(a, b, delims, p);
    TokensAtEnd(a + b, delims, |a| + p);
    TokensAtEnd(b, delims, p);
    if p < |b| {
      SliceShift(a, b, p, |b|);
      assert (a + b)[|a| + p..] == (a + b)[|a| + p..|a| + |b|];
      assert b[p..] == b[p..|b|];
    }
  }

  /** One step of the tokenizer: the token before the next delimiter, if
      it is not empty, then the tokens after it. */
  lemma TokensAtDelimiter(s: string, delims: string, prev: nat, pos: nat)
    requires FindFirstOf(s, delims, prev) == Some(pos)
    ensures TokensFrom(s, delims, prev)
         == (if pos > prev then [s[prev..pos]] else []) + TokensFrom(s, delims, pos + 1)
  {
  }

  /** The tokenizer past the last delimiter: the rest, if it is not empty. */
  lemma TokensAtEnd(s: string, delims: string, prev: nat)
    requires FindFirstOf(s, delims, prev) == None
    ensures TokensFrom(s, delims, prev) == if prev < |s| then [s[prev..]] else []
  {
  }

  lemma SliceShift(a: string, b: string, i: int, j: int)
    requires 0 <= i <= j <= |b|
    ensures (a + b)[|a| + i..|a| + j] == b[i..j]
  {
  }

  /** Tokenising joined items gives the items back, when none is empty and
      none holds a delimiter, and the separator is one. */
  lemma {:induction false} JoinTokens(ts: seq<string>, c: char, delims: string)
    requires c in delims
    requires forall k :: 0 <= k < |ts| ==> |ts[k]| > 0
    requires forall k, j :: 0 <= k < |ts| && 0 <= j < |ts[k]| ==> ts[k][j] !in delims
    ensures TokensFrom(Join(ts, c), delims, 0) == ts
    decreases |ts|
  {
    if |ts| == 1 {
      assert FindFirstOf(ts[0], delims, 0).None?;
    } else if |ts| > 1 {
      var head := ts[0];
      var rest := Join(ts[1..], c);
      var s := head + [c] + rest;
      assert FindFirstOf(s, delims, 0) == Some(|head|) by {
        assert forall j :: 0 <= j < |head| ==> s[j] == head[j];
        assert s[|head|] == c;
        FindFirstOfFirst(s, delims, |head|);
      }
      assert s[0..|head|] == head;
      assert s == (head + [c]) + rest;
      TokensShift(head + [c], rest, delims, 0);
      JoinTokens(ts[1..], c, delims);
      assert TokensFrom(s, delims, 0) == [head] + ts[1..];
    }
  }

  /** The first delimiter is found where the first one is. */
  lemma FindFirstOfFirst(s: string, delims: string, q: nat)
    requires q < |s| && s[q] in delims
    requires forall j :: 0 <= j < q ==> s[j] !in delims
    ensures FindFirstOf(s, delims, 0) == Some(q)
  {
  }

  // ---- format_argument ----

  /** An option: its name and its optional parameters. */
  datatype Argument = Argument(name: string, params: seq<string>)

  /** `format_argument`: drop the leading `-`, split on `:`, take the first
      token as the name and split the second on `,` into the parameters;
      tokens after the second are ignored. */
  function FormatArgument(arg: string): (r: Argument)
    ensures forall k :: 0 <= k < |r.params| ==> |r.params[k]| > 0
  {
    var tokens := TokensFrom(if arg == [] then arg else arg[1..], ":", 0);
    if tokens == [] then Argument("", [])
    else if |tokens| == 1 then Argument(tokens[0], [])
    else
      TokensWellFormed(tokens[1], ",", 0);
      Argument(tokens[0], TokensFrom(tokens[1], ",", 0))
  }

  /** `-name:p1,p2,...` gives back the name and the parameters. */
  lemma FormatRoundTrip(name: string, params: seq<string>)
    requires |name| > 0 && forall j :: 0 <= j < |name| ==> name[j] != ':'
    requires |params| > 0
    requires forall k :: 0 <= k < |params| ==> |params[k]| > 0
    requires forall k, j :: 0 <= k < |params| && 0 <= j < |params[k]| ==> params[k][j] != ',' && params[k][j] != ':'
    ensures FormatArgument("-" + name + ":" + Join(params, ',')) == Argument(name, params)
  {
    var joined := Join(params, ',');
    JoinTokens(params, ',', ",");
    JoinHasNoColon(params, ',');
    assert |joined| > 0 by { JoinNonEmpty(params, ','); }
    JoinTokens([name, joined], ':', ":");
    assert Join([name, joined], ':') == name + ":" + joined;
    assert ("-" + name + ":" + joined)[1..] == name + ":" + joined;
  }

  /** `-name` alone gives the name and no parameters. */
  lemma FormatNameOnly(name: string)
    requires |name| > 0 && forall j :: 0 <= j < |name| ==> name[j] != ':'
    ensures FormatArgument("-" + name) == Argument(name, [])
  {
    JoinTokens([name], ':', ":");
    assert ("-" + name)[1..] == name;
  }

  /** A second `:` cuts the parameters short: `-input:a:b` has the single
      parameter `a`. */
  lemma ExtraColonDropped()
    ensures FormatArgument("-input:a:b") == Argument("input", ["a"])
  {
    JoinTokens(["input", "a", "b"], ':', ":");
    assert Join(["input", "a", "b"], ':') == "input:a:b";
    assert "-input:a:b"[1..] == "input:a:b";
    JoinTokens(["a"], ',', ",");
  }

  lemma {:induction false} JoinHasNoColon(ts: seq<string>, c: char)
    requires c != ':'
    requires forall k, j :: 0 <= k < |ts| && 0 <= j < |ts[k]| ==> ts[k][j] != ':'
    ensures forall j :: 0 <= j < |Join(ts, c)| ==> Join(ts, c)[j] != ':'
    decreases |ts|
  {
    if |ts| > 1 {
      JoinHasNoColon(ts[1..], c);
      var s := Join(ts, c);
      assert s == ts[0] + [c] + Join(ts[1..], c);
      forall j | 0 <= j < |s| ensures s[j] != ':' {
        if j < |ts[0]| {
          assert s[j] == ts[0][j];
        } else if j > |ts[0]| {
          assert s[j] == Join(ts[1..], c)[j - |ts[0]| - 1];
        }
      }
    }
  }

  lemma JoinNonEmpty(ts: seq<string>, c: char)
    requires |ts| > 0 && |ts[0]| > 0
    ensures |Join(ts, c)| > 0
  {
  }

  // ---- The size range check ----

  /** Why a requested icon size is refused. */
  datatype SizeError = AboveMaximum(size: int) | BelowMinimum(size: int)

  /** An edge length an ICO entry can describe: 1 to 256 pixels. */
  predicate ValidSize(size: int)
  {
    1 <= size <= 256
  }

  /** The error for one refused size: the maximum is tested first. */
  function SizeErrorOf(size: int): (r: SizeError)
    requires !ValidSize(size)
    ensures r.AboveMaximum? <==> size > 256
    ensures r.size == size
  {
    if size > 256 then AboveMaximum(size) else BelowMinimum(size)
  }

  /** The check of the requested sizes: the run stops at the first size out
      of range, and passes exactly when every size is in range. */
  method CheckSizes(sizes: seq<int>) returns (r: Option<SizeError>)
    ensures r.None? <==> forall k :: 0 <= k < |sizes| ==> ValidSize(sizes[k])
    ensures r.Some? ==>
      exists k :: 0 <= k < |sizes| && !ValidSize(sizes[k]) &&
        (forall j :: 0 <= j < k ==> ValidSize(sizes[j])) && r.value == SizeErrorOf(sizes[k])
  {
    for i := 0 to |sizes|
      invariant forall j :: 0 <= j < i ==> ValidSize(sizes[j])
    {
      if sizes[i] > 256 {
        return Some(AboveMaximum(sizes[i]));
      }
      if sizes[i] <= 0 {
        return Some(BelowMinimum(sizes[i]));
      }
    }
    return None;
  }
}
