/** One registry entry (`Glob` in src/glob.rs): a classified pattern with
    the MIME type it stands for, a weight and a case-sensitivity flag; its
    constructors, the two line parsers, the match predicate and the
    weight ordering. */
module Globs {
  import opened Text
  import opened GlobPatterns

  /** The external glob engine's `Pattern::matches`, applied to a Full
      pattern's text and a file name. */
  type FullMatcher = (string, string) -> bool

  datatype Glob = Glob(glob: GlobType, weight: Int32, caseSensitive: bool, mimeType: string)

  /** The weight of entries from the v1 format and of `Glob::simple`. */
  const DEFAULT_WEIGHT: Int32 := 50

  /** Both fields an entry needs are present. */
  predicate WellFormed(g: Glob)
  {
    g.mimeType != [] && PatternText(g.glob) != []
  }

  // ---------------------------------------------------------------------
  // Ordering
  // ---------------------------------------------------------------------

  datatype Ordering = Less | Equal | Greater

  /** `Ord::cmp` (and `partial_cmp`): entries are ordered by weight and by
      nothing else. */
  function Cmp(a: Glob, b: Glob): (r: Ordering)
    ensures r == Less <==> a.weight < b.weight
    ensures r == Equal <==> a.weight == b.weight
    ensures r == Greater <==> a.weight > b.weight
  {
    if a.weight < b.weight then Less
    else if a.weight == b.weight then Equal
    else Greater
  }

  /** The ordering is a total preorder: reflexive, with converse results
      when the operands are swapped, and transitive. */
  lemma CmpTotalPreorder(a: Glob, b: Glob, c: Glob)
    ensures Cmp(a, a) == Equal
    ensures Cmp(a, b) == Less <==> Cmp(b, a) == Greater
    ensures Cmp(a, b) != Greater && Cmp(b, c) != Greater ==> Cmp(a, c) != Greater
  {
  }

  /** The ordering does not agree with equality: distinct entries of equal
      weight compare as Equal. */
  lemma CmpCoarserThanEquality()
    ensures var a := NewGlob("text/x-csrc", "*.c", 50, false);
            var b := NewGlob("text/x-chdr", "*.h", 50, false);
            a != b && Cmp(a, b) == Equal
  {
    var a := NewGlob("text/x-csrc", "*.c", 50, false);
    var b := NewGlob("text/x-chdr", "*.h", 50, false);
    assert a.mimeType[8] != b.mimeType[8];
  }

  // ---------------------------------------------------------------------
  // Constructors
  // ---------------------------------------------------------------------

  /** `Glob::new`: the pattern is classified once; the pattern text stays
      recoverable from the stored shape. */
  function NewGlob(mimeType: string, glob: string, weight: Int32, cs: bool): (r: Glob)
    ensures r.mimeType == mimeType && r.weight == weight && r.caseSensitive == cs
    ensures PatternText(r.glob) == glob
  {
    Glob(Classify(glob), weight, cs, mimeType)
  }

  /** `Glob::simple`: the default weight, case-insensitive. */
  function SimpleGlob(mimeType: string, glob: string): (r: Glob)
    ensures r == NewGlob(mimeType, glob, DEFAULT_WEIGHT, false)
  {
    Glob(Classify(glob), 50, false, mimeType)
  }

  /** `Glob::with_weight`: the given weight, case-insensitive. */
  function WithWeight(mimeType: string, glob: string, weight: Int32): (r: Glob)
    ensures r == NewGlob(mimeType, glob, weight, false)
  {
    Glob(Classify(glob), weight, false, mimeType)
  }

  // ---------------------------------------------------------------------
  // Line parsers
  // ---------------------------------------------------------------------

  /** `Glob::from_v1_string`: `type:glob`. Accepted exactly when the line
      has two `:`-separated fields and neither is empty; the entry then
      gets the default weight and is case-insensitive. */
  function FromV1String(s: string): (r: Option<Glob>)
    ensures r.Some? <==> (var f := Split(s, ':'); |f| == 2 && f[0] != [] && f[1] != [])
    ensures r.Some? ==>
              var f := Split(s, ':');
              r.value == NewGlob(f[0], f[1], DEFAULT_WEIGHT, false)
  {
    if s == [] || ':' !in s then None
    else
      // at least two chunks, so neither `chunks.next()` can come back empty
      var chunks := Split(s, ':');
      var mimeType := chunks[0];
      var glob := chunks[1];
      if mimeType == [] || glob == [] then None
      else if |chunks| != 2 then None
      else Some(Glob(Classify(glob), DEFAULT_WEIGHT, false, mimeType))
  }

  /** The conditions under which a v2 line is accepted, over its fields. */
  predicate V2Fields(f: seq<string>)
  {
    && 3 <= |f| <= 4
    && ParseI32(f[0]).Some? && ParseI32(f[0]).value >= 0
    && f[1] != [] && f[2] != []
    && (|f| == 4 ==> f[3] == "cs")
  }

  /** `Glob::from_v2_string`: `weight:type:glob[:cs]`. Accepted exactly when
      the weight parses as a non-negative `i32`, type and glob are
      non-empty, an optional fourth field is `cs` and there is no fifth;
      the fourth field alone decides case-sensitivity. */
  function FromV2String(s: string): (r: Option<Glob>)
    ensures r.Some? <==> V2Fields(Split(s, ':'))
    ensures r.Some? ==>
              var f := Split(s, ':');
              r.value == NewGlob(f[1], f[2], ParseI32(f[0]).value, |f| == 4)
  {
    if s == [] || ':' !in s then None
    else
      var chunks := Split(s, ':');
      // an unparsable weight becomes -1 and is rejected with the negative ones
      var weight: int := match ParseI32(chunks[0]) case Some(w) => w case None => -1;
      if weight < 0 then None
      else
        var mimeType := chunks[1];
        if |chunks| < 3 then None
        else
          var glob := chunks[2];
          if mimeType == [] || glob == [] then None
          else if |chunks| >= 4 && chunks[3] != "cs" then None
          else if |chunks| > 4 then None
          else Some(Glob(Classify(glob), weight, |chunks| == 4, mimeType))
  }

  /** Every parsed entry is well formed; v1 entries carry the defaults and
      v2 entries a non-negative weight. */
  lemma ParsedWellFormed(s: string)
    ensures FromV1String(s).Some? ==>
              var g := FromV1String(s).value;
              WellFormed(g) && g.weight == DEFAULT_WEIGHT && !g.caseSensitive
    ensures FromV2String(s).Some? ==>
              WellFormed(FromV2String(s).value) && FromV2String(s).value.weight >= 0
  {
  }

  /** A line without `:` is rejected by both parsers. */
  lemma RejectsWithoutColon(s: string)
    requires ':' !in s
    ensures FromV1String(s) == None && FromV2String(s) == None
  {
  }

  /** A line of two colon-free fields, one of them empty, is rejected by
      both parsers. */
  lemma {:induction false} RejectsEmptyField(a: string, b: string)
    requires ':' !in a && ':' !in b && (a == [] || b == [])
    ensures FromV1String(a + [':'] + b) == None && FromV2String(a + [':'] + b) == None
  {
    SplitFirst(a, ':', b);
    SplitWhole(b, ':');
  }

  /** A v1 line with a third field is rejected, whatever the fields hold. */
  lemma {:induction false} V1RejectsThirdField(a: string, b: string, c: string)
    requires ':' !in a && ':' !in b
    ensures FromV1String(a + [':'] + (b + [':'] + c)) == None
  {
    SplitFirst(a, ':', b + [':'] + c);
    SplitFirst(b, ':', c);
  }

  /** A v2 line with a fourth field other than `cs`, or with a fifth field,
      is rejected, whatever the other fields hold. */
  lemma {:induction false} V2RejectsExtraField(a: string, b: string, c: string, d: string)
    requires ':' !in a && ':' !in b && ':' !in c
    requires ':' in d || d != "cs"
    ensures FromV2String(a + [':'] + (b + [':'] + (c + [':'] + d))) == None
  {
    SplitFirst(a, ':', b + [':'] + (c + [':'] + d));
    SplitFirst(b, ':', c + [':'] + d);
    SplitFirst(c, ':', d);
    if ':' !in d {
      SplitWhole(d, ':');
    }
  }

  /** The accepted v1 line of the `glob_v1_string` test, and the two lines
      without a colon. */
  lemma V1Accepted()
    ensures FromV1String("text/rust:*.rs") == Some(SimpleGlob("text/rust", "*.rs"))
    ensures FromV1String("text/rust:*.rs") == Some(NewGlob("text/rust", "*.rs", 50, false))
  {
    var g := NewGlob("text/rust", "*.rs", 50, false);
    NewGlobSerializable("text/rust", "*.rs", 50, false);
    V1RoundTrip(g);
    assert ToV1String(g) == "text/rust:*.rs";
  }

  /** The v1 lines of the `glob_v1_string` test with no separator. */
  lemma V1RejectedShort()
    ensures FromV1String("") == None && FromV1String("foo") == None
  {
    RejectsWithoutColon("");
    RejectsWithoutColon("foo");
  }

  /** The v1 lines of the `glob_v1_string` test with an empty field. */
  lemma V1RejectedEmptyField()
    ensures FromV1String("foo:") == None && FromV1String(":bar") == None && FromV1String(":") == None
  {
    RejectsEmptyField("foo", "");
    assert "foo" + [':'] + "" == "foo:";
    RejectsEmptyField("", "bar");
    assert "" + [':'] + "bar" == ":bar";
    RejectsEmptyField("", "");
    assert "" + [':'] + "" == ":";
  }

  /** The v1 line of the `glob_v1_string` test with a third field. */
  lemma V1RejectedThirdField()
    ensures FromV1String("foo:bar:baz") == None
  {
    V1RejectsThirdField("foo", "bar", "baz");
    assert "foo:bar:baz" == "foo" + [':'] + ("bar" + [':'] + "baz");
  }

  /** A v2 line with a non-negative weight, non-empty colon-free type and
      pattern and, optionally, a `cs` field is accepted, whatever spelling
      the weight has (leading zeros, a `+`, even `-0`). */
  lemma {:induction false} V2Accepts(d: string, mimeType: string, glob: string, cs: bool)
    requires ':' !in d && ':' !in mimeType && ':' !in glob && mimeType != [] && glob != []
    requires ParseI32(d).Some? && ParseI32(d).value >= 0
    ensures FromV2String(d + ":" + (mimeType + ":" + (if cs then glob + ":" + "cs" else glob)))
            == Some(NewGlob(mimeType, glob, ParseI32(d).value, cs))
  {
    var tail := if cs then glob + ":" + "cs" else glob;
    var tailFields: seq<string> := if cs then [glob, "cs"] else [glob];
    assert Split(tail, ':') == tailFields by {
      if cs {
        SplitFirst(glob, ':', "cs");
        SplitWhole("cs", ':');
      } else {
        SplitWhole(glob, ':');
      }
    }
    SplitFirst(mimeType, ':', tail);
    SplitFirst(d, ':', mimeType + ":" + tail);
    var f := Split(d + ":" + (mimeType + ":" + tail), ':');
    assert f == [d, mimeType] + tailFields;
    assert V2Fields(f);
  }

  /** The accepted v2 line of the `glob_v2_string` test without a flag,
      `80:text/rust:*.rs`, written field by field. */
  lemma V2AcceptedWeight()
    ensures FromV2String("80" + ":" + ("text/rust" + ":" + "*.rs")) == Some(WithWeight("text/rust", "*.rs", 80))
    ensures FromV2String("80" + ":" + ("text/rust" + ":" + "*.rs")) == Some(NewGlob("text/rust", "*.rs", 80, false))
  {
    ParsePrintedI32(80);
    assert NatToDecimal(80) == "80";
    V2Accepts("80", "text/rust", "*.rs", false);
  }

  /** The accepted v2 line of the `glob_v2_string` test with the `cs` flag,
      `50:text/x-c++src:*.C:cs`, written field by field. */
  lemma V2AcceptedCaseSensitive()
    ensures FromV2String("50" + ":" + ("text/x-c++src" + ":" + ("*.C" + ":" + "cs")))
            == Some(NewGlob("text/x-c++src", "*.C", 50, true))
  {
    ParsePrintedI32(50);
    assert NatToDecimal(50) == "50";
    V2Accepts("50", "text/x-c++src", "*.C", true);
  }

  /** The rejected v2 lines of the `glob_v2_string` test with fewer than
      three fields. */
  lemma V2RejectedShort()
    ensures FromV2String("") == None && FromV2String("foo") == None
  {
    RejectsWithoutColon("");
    RejectsWithoutColon("foo");
  }

  /** The v2 lines of the `glob_v2_string` test with two fields, one of them
      empty. */
  lemma V2RejectedEmptyField()
    ensures FromV2String("foo:") == None && FromV2String(":bar") == None && FromV2String(":") == None
  {
    RejectsEmptyField("foo", "");
    assert "foo" + [':'] + "" == "foo:";
    RejectsEmptyField("", "bar");
    assert "" + [':'] + "bar" == ":bar";
    RejectsEmptyField("", "");
    assert "" + [':'] + "" == ":";
  }

  /** The rejected v2 line of the `glob_v2_string` test with three fields. */
  lemma V2RejectedThreeFields()
    ensures FromV2String("foo:bar:baz") == None
  {
    assert ParseI32("foo") == None by {
      assert !IsDigit("foo"[0]);
    }
    assert "foo:bar:baz" == "foo" + [':'] + "bar:baz";
    SplitFirst("foo", ':', "bar:baz");
  }

  /** The rejected v2 line of the `glob_v2_string` test with four fields,
      `foo:bar:baz:blah`. */
  lemma V2RejectedFourFields()
    ensures FromV2String("foo" + ":" + ("bar" + ":" + ("baz" + ":" + "blah"))) == None
  {
    assert "blah" != "cs" by {
      assert |"blah"| != |"cs"|;
    }
    V2RejectsExtraField("foo", "bar", "baz", "blah");
  }

  // ---------------------------------------------------------------------
  // Serialization and round trips
  // ---------------------------------------------------------------------

  /** Decimal spelling of a weight, with a minus sign when negative. */
  function WeightText(w: Int32): string
  {
    if w >= 0 then NatToDecimal(w) else ['-'] + NatToDecimal(-(w as int))
  }

  /** The v1 line for an entry: `type:glob`. */
  function ToV1String(g: Glob): string
  {
    g.mimeType + [':'] + PatternText(g.glob)
  }

  /** The v2 line for an entry: `weight:type:glob`, plus `:cs` when the
      entry is case-sensitive. */
  function ToV2String(g: Glob): string
  {
    var text := PatternText(g.glob);
    WeightText(g.weight) + ":" + (g.mimeType + ":" + (if g.caseSensitive then text + ":" + "cs" else text))
  }

  /** An entry a registry line can describe: non-empty fields without `:`
      and a shape that is the classification of its own text. */
  predicate Serializable(g: Glob)
  {
    && WellFormed(g)
    && ':' !in g.mimeType && ':' !in PatternText(g.glob)
    && g.glob == Classify(PatternText(g.glob))
  }

  /** Any entry built by `Glob::new` from colon-free, non-empty fields can
      be written out. */
  lemma NewGlobSerializable(mimeType: string, glob: string, weight: Int32, cs: bool)
    requires mimeType != [] && glob != []
    requires ':' !in mimeType && ':' !in glob
    ensures Serializable(NewGlob(mimeType, glob, weight, cs))
  {
  }

  /** Writing a default-weight, case-insensitive entry as a v1 line and
      reading it back gives the same entry. */
  lemma {:induction false} V1RoundTrip(g: Glob)
    requires Serializable(g) && g.weight == DEFAULT_WEIGHT && !g.caseSensitive
    ensures FromV1String(ToV1String(g)) == Some(g)
  {
    var text := PatternText(g.glob);
    SplitFirst(g.mimeType, ':', text);
    SplitWhole(text, ':');
  }

  /** Conversely, an accepted v1 line is exactly the line its entry writes
      out. */
  lemma {:induction false} V1Canonical(s: string)
    requires FromV1String(s).Some?
    ensures Serializable(FromV1String(s).value)
    ensures ToV1String(FromV1String(s).value) == s
  {
    var f := Split(s, ':');
    assert Join(f, ':') == f[0] + [':'] + Join(f[1..], ':');
    assert f[1..] == [f[1]];
  }

  /** Writing an entry of non-negative weight as a v2 line and reading it
      back gives the same entry. */
  lemma V2RoundTrip(g: Glob)
    requires Serializable(g) && g.weight >= 0
    ensures FromV2String(ToV2String(g)) == Some(g)
  {
    var w := WeightText(g.weight);
    ParsePrintedI32(g.weight);
    assert ':' !in w by {
      forall k | 0 <= k < |w| ensures w[k] != ':' {
        assert IsDigit(w[k]);
      }
    }
    V2Accepts(w, g.mimeType, PatternText(g.glob), g.caseSensitive);
  }

  // ---------------------------------------------------------------------
  // Matching
  // ---------------------------------------------------------------------

  /** `Glob::compare`: does this entry match the file name? A literal is
      compared case-insensitively whatever the flag says; a suffix is
      compared as stored, and, for a case-insensitive entry, also against
      the lower-cased file name (the suffix itself is never lower-cased);
      a Full pattern goes to the glob engine, flag ignored. */
  function Compare(g: Glob, fileName: string, fullMatch: FullMatcher): (r: bool)
    ensures g.glob.Literal? && g.glob.text == fileName ==> r
    ensures g.glob.Simple? && EndsWith(fileName, g.glob.suffix) ==> r
    ensures g.glob.Simple? && g.caseSensitive ==> (r <==> EndsWith(fileName, g.glob.suffix))
    ensures g.glob.Full? ==> (r <==> fullMatch(g.glob.pattern, fileName))
  {
    match g.glob
    case Literal(s) => FoldEq(s, fileName)
    case Simple(s) => EndsWith(fileName, s) || (!g.caseSensitive && EndsWith(LowerStr(fileName), s))
    case Full(p) => fullMatch(p, fileName)
  }

  /** An entry built from a metacharacter-free pattern matches exactly the
      names equal to the pattern up to case, whatever its flag. */
  lemma LiteralMatch(mimeType: string, glob: string, weight: Int32, cs: bool, name: string, fm: FullMatcher)
    requires forall k :: 0 <= k < |glob| ==> !IsMeta(glob[k])
    ensures Compare(NewGlob(mimeType, glob, weight, cs), name, fm) <==> FoldEq(glob, name)
  {
    ClassifyLiteral(glob);
  }

  /** An entry built from `*` + a metacharacter-free suffix matches a name
      that ends with the suffix, and, when case-insensitive, also a name
      whose lower-cased form ends with it. */
  lemma SimpleMatch(mimeType: string, suffix: string, weight: Int32, cs: bool, name: string, fm: FullMatcher)
    requires forall k :: 0 <= k < |suffix| ==> !IsMeta(suffix[k])
    ensures Compare(NewGlob(mimeType, ['*'] + suffix, weight, cs), name, fm)
            <==> EndsWith(name, suffix) || (!cs && EndsWith(LowerStr(name), suffix))
  {
    var glob := ['*'] + suffix;
    forall k | 1 <= k < |glob| ensures !IsMeta(glob[k]) {
      assert glob[k] == suffix[k - 1];
    }
    ClassifySimple(glob);
    assert glob[1..] == suffix;
  }

  /** An entry whose pattern needs the glob engine matches exactly what the
      engine says, whatever its flag. */
  lemma FullMatch(mimeType: string, glob: string, weight: Int32, cs: bool, name: string, fm: FullMatcher)
    requires NeedsFull(glob)
    ensures Compare(NewGlob(mimeType, glob, weight, cs), name, fm) == fm(glob, name)
  {
  }

  /** Turning case-sensitivity off never loses a match, and it changes
      nothing for Literal and Full entries. */
  lemma CaseFlagEffect(g: Glob, name: string, fm: FullMatcher)
    ensures Compare(g.(caseSensitive := true), name, fm) ==> Compare(g.(caseSensitive := false), name, fm)
    ensures !g.glob.Simple? ==>
              Compare(g.(caseSensitive := true), name, fm) == Compare(g.(caseSensitive := false), name, fm)
  {
  }

  /** Because the stored suffix is never lower-cased, a suffix holding an
      upper-case letter only matches names that end with it exactly: the
      case-insensitive flag then has no effect. */
  lemma UpperSuffixIgnoresCaseFlag(g: Glob, name: string, fm: FullMatcher, k: nat)
    requires g.glob.Simple? && k < |g.glob.suffix| && IsAsciiUpper(g.glob.suffix[k])
    ensures Compare(g, name, fm) <==> EndsWith(name, g.glob.suffix)
  {
    var s := g.glob.suffix;
    var lower := LowerStr(name);
    if |s| <= |lower| {
      var i := |name| - |s| + k;
      assert lower[|lower| - |s|..][k] == lower[i];
      assert !IsAsciiUpper(lower[i]);
      assert lower[|lower| - |s|..] != s;
    }
  }

  /** A case-insensitive entry with an all-lower-case suffix matches exactly
      the names whose lower-cased form ends with that suffix. */
  lemma LowerSuffixMatchesAnyCase(g: Glob, name: string, fm: FullMatcher)
    requires g.glob.Simple? && !g.caseSensitive && LowerStr(g.glob.suffix) == g.glob.suffix
    ensures Compare(g, name, fm) <==> EndsWith(LowerStr(name), g.glob.suffix)
  {
    var s := g.glob.suffix;
    var lower := LowerStr(name);
    if EndsWith(name, s) {
      var start := |name| - |s|;
      forall k | 0 <= k < |s| ensures lower[start..][k] == s[k] {
        assert name[start..][k] == s[k];
        assert lower[start + k] == AsciiLower(name[start + k]);
        assert LowerStr(s)[k] == AsciiLower(s[k]);
      }
    }
  }

  /** The `compare` test's verdicts for Literal and Simple entries, and
      the consequence of the unlowered suffix: a case-insensitive `*.C`
      does not match `foo.c`. */
  lemma CompareExamples(fm: FullMatcher)
    ensures Compare(NewGlob("text/x-copying", "copying", 50, false), "COPYING", fm)
    ensures Compare(NewGlob("text/x-csrc", "*.c", 50, false), "foo.c", fm)
    ensures Compare(NewGlob("text/x-csrc", "*.c", 50, false), "FOO.C", fm)
    ensures Compare(NewGlob("text/x-c++src", "*.C", 50, true), "foo.C", fm)
    ensures !Compare(NewGlob("text/x-c++src", "*.C", 50, true), "foo.c", fm)
    ensures !Compare(NewGlob("text/x-c++src", "*.C", 50, true), "foo.h", fm)
    ensures !Compare(NewGlob("text/x-c++src", "*.C", 50, false), "foo.c", fm)
  {
    ClassifyLiteral("copying");
    ClassifySimple("*.c");
    ClassifySimple("*.C");
    assert LowerStr("COPYING") == "copying";
    assert LowerStr("FOO.C") == "foo.c";
    assert LowerStr("foo.c") == "foo.c";
    assert LowerStr("foo.h") == "foo.h";
    assert "*.c"[1..] == ".c" && "*.C"[1..] == ".C";
    assert "foo.c"[3..] == ".c" && "foo.C"[3..] == ".C";
  }
}
