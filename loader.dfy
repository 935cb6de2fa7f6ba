/** The line filter of `read_globs_v1_from_file` and
    `read_globs_v2_from_file`: the file's lines are given as a sequence
    (None when the file could not be opened). */
module Loader {
  import opened Text
  import opened Globs

  /** Which of the two registry line formats a file uses. */
  datatype Format = V1 | V2

  /** The per-line parser of each format. */
  function Parser(format: Format): string -> Option<Glob>
  {
    match format
    case V1 => FromV1String
    case V2 => FromV2String
  }

  /** Blank lines and comment lines are not even parsed. */
  predicate IsSkipped(line: string)
  {
    line == [] || line[0] == '#'
  }

  /** What one line contributes: its entry, if it is not skipped and
      parses. */
  function LineEntries(parse: string -> Option<Glob>, line: string): seq<Glob>
  {
    if IsSkipped(line) then []
    else match parse(line)
      case Some(g) => [g]
      case None => []
  }

  /** The entries a whole file yields, in line order. */
  function LoadLines(parse: string -> Option<Glob>, lines: seq<string>): (r: seq<Glob>)
    ensures |r| <= |lines|
  {
    if lines == [] then []
    else LoadLines(parse, lines[..|lines| - 1]) + LineEntries(parse, lines[|lines| - 1])
  }

  /** The loader loop: skip blank and comment lines, parse the rest,
      keep what parses and go on past what does not. */
  method ReadGlobsFromLines(format: Format, source: Option<seq<string>>) returns (r: Option<seq<Glob>>)
    ensures source.None? ==> r.None?
    ensures source.Some? ==> r == Some(LoadLines(Parser(format), source.value))
  {
    if source.None? {
      return None;
    }
    var lines := source.value;
    var parse := Parser(format);
    var res: seq<Glob> := [];
    var i := 0;
    while i < |lines|
      invariant 0 <= i <= |lines|
      invariant res == LoadLines(parse, lines[..i])
    {
      var line := lines[i];
      LoadLinesPrefix(parse, lines, i);
      if line == [] || line[0] == '#' {
        i := i + 1;
        continue;
      }
      var parsed := parse(line);
      match parsed {
        case Some(v) =>
          res := res + [v];
        case None =>
      }
      i := i + 1;
    }
    assert lines[..|lines|] == lines;
    return Some(res);
  }

  /** Loading one more line of a file's prefix. */
  lemma LoadLinesPrefix(parse: string -> Option<Glob>, lines: seq<string>, i: int)
    requires 0 <= i < |lines|
    ensures LoadLines(parse, lines[..i + 1]) == LoadLines(parse, lines[..i]) + LineEntries(parse, lines[i])
  {
    var upTo := lines[..i + 1];
    assert upTo[..i] == lines[..i] && upTo[i] == lines[i];
  }

  /** Loading two pieces of a file loads the whole file. */
  lemma {:induction false} LoadLinesAppend(parse: string -> Option<Glob>, a: seq<string>, b: seq<string>)
    ensures LoadLines(parse, a + b) == LoadLines(parse, a) + LoadLines(parse, b)
  {
    if b != [] {
      var ab := a + b;
      assert ab[..|ab| - 1] == a + b[..|b| - 1];
      assert ab[|ab| - 1] == b[|b| - 1];
      LoadLinesAppend(parse, a, b[..|b| - 1]);
    } else {
      assert a + b == a;
    }
  }

  /** A blank, comment or malformed line is dropped and the lines after it
      are still loaded. */
  lemma SkippedLine(parse: string -> Option<Glob>, before: seq<string>, line: string, after: seq<string>)
    requires IsSkipped(line) || parse(line).None?
    ensures LoadLines(parse, before + [line] + after) == LoadLines(parse, before) + LoadLines(parse, after)
  {
    var withLine := before + [line];
    assert withLine[..|withLine| - 1] == before && withLine[|withLine| - 1] == line;
    assert LoadLines(parse, withLine) == LoadLines(parse, before) + LineEntries(parse, line);
    LoadLinesAppend(parse, withLine, after);
  }

  /** A line that is neither blank nor a comment and parses contributes its
      entry in place. */
  lemma KeptLine(parse: string -> Option<Glob>, before: seq<string>, line: string, after: seq<string>)
    requires !IsSkipped(line) && parse(line).Some?
    ensures LoadLines(parse, before + [line] + after)
            == LoadLines(parse, before) + [parse(line).value] + LoadLines(parse, after)
  {
    var withLine := before + [line];
    assert withLine[..|withLine| - 1] == before && withLine[|withLine| - 1] == line;
    assert LoadLines(parse, withLine) == LoadLines(parse, before) + LineEntries(parse, line);
    LoadLinesAppend(parse, withLine, after);
  }

  /** An entry is loaded exactly when some line that is not skipped parses
      to it. */
  lemma {:induction false} LoadLinesMembers(parse: string -> Option<Glob>, lines: seq<string>, g: Glob)
    ensures g in LoadLines(parse, lines)
            <==> exists k :: 0 <= k < |lines| && !IsSkipped(lines[k]) && parse(lines[k]) == Some(g)
  {
    if lines != [] {
      var init := lines[..|lines| - 1];
      LoadLinesMembers(parse, init, g);
      assert forall k :: 0 <= k < |init| ==> init[k] == lines[k];
    }
  }

  /** Every loaded entry is well formed; v1 entries carry the default
      weight and are case-insensitive, v2 entries have a non-negative
      weight. */
  lemma LoadedWellFormed(format: Format, lines: seq<string>, g: Glob)
    requires g in LoadLines(Parser(format), lines)
    ensures WellFormed(g)
    ensures format == V1 ==> g.weight == DEFAULT_WEIGHT && !g.caseSensitive
    ensures format == V2 ==> g.weight >= 0
  {
    LoadLinesMembers(Parser(format), lines, g);
    var k :| 0 <= k < |lines| && !IsSkipped(lines[k]) && Parser(format)(lines[k]) == Some(g);
    ParsedWellFormed(lines[k]);
  }
}
