# Glob registry of xdg-mime, in Dafny

This project models the glob-matching core of the `xdg-mime` crate
(`src/glob.rs`): the part of the shared-MIME-info algorithm that maps a file
name to MIME types through a registry of glob patterns. Each registry entry
(`Glob`) pairs a pattern with a MIME type, a priority weight and a
case-sensitivity flag. The model covers:

- classification of a pattern as a literal name, a `*`-suffix or a full glob
  (`determine_type`), as a specification function and as the source's
  scanning loop;
- the entry constructors, the weight-only ordering (`Ord for Glob`) and the
  two line formats `type:glob` (v1) and `weight:type:glob[:cs]` (v2);
- the per-entry match predicate (`Glob::compare`);
- the loader loop shared by `read_globs_v1_from_file` and
  `read_globs_v2_from_file`, over the file's lines;
- the registry `GlobMap` as a class whose entry list is a field, with
  `add_glob`, `add_globs` and the lookup, which filters, stably sorts by
  weight and returns the MIME types.

Modules, one per file: `Text` in `text.dfy` (string helpers standing in
for `str::split`, `str::ends_with`, case folding and `i32::from_str`),
`GlobPatterns` in `glob_type.dfy`, `Globs` in `glob.dfy`, `Loader` in
`loader.dfy` and `GlobMaps` in `glob_map.dfy`.

Modelling choices:

- Strings are `seq<char>`. Every character the code inspects by byte (`:`,
  `#`, `*`, `\`, `[`, `?`) is ASCII, so scanning characters is the same as
  scanning bytes.
- The glob engine (`glob::Pattern`) is a parameter: `FullMatcher` takes the
  pattern text and the file name. A Full entry stores its pattern text.
- `UniCase` equality and `str::to_lowercase` are modelled as ASCII
  lower-casing (`LowerStr`, `FoldEq`).
- `Vec::sort` is the standard library's stable sort; the model sorts with a
  stable insertion sort (`SortByWeight`) and proves that a weight-sorted
  arrangement with the same equal-weight order is unique
  (`SortedByWeightUnique`), so any stable sort gives the same result.
- A file is given to the loader as `Option<seq<string>>`: `None` when it
  cannot be opened, else its lines.
- To state round trips for the line parsers, the model adds writers
  (`ToV1String`, `ToV2String`) that the crate does not have.

Consequences of the code worth knowing, which the model states as proved
properties:

- The lookup result is in ascending weight order, highest weight last,
  because `matching_globs.sort()` sorts by `Ord`, which compares weights
  ascending (src/glob.rs:67-71, 315). Consumers of shared-MIME-info usually
  expect the highest weight first. `LookupIsStableSort` and `AddHeaviest`
  state the code's order.
- A case-insensitive `*`-suffix entry lower-cases only the file name, never
  the stored suffix (src/glob.rs:221-225). So a case-insensitive `*.C`
  matches `foo.C` but not `foo.c`. See `UpperSuffixIgnoresCaseFlag` and the
  last verdict of `CompareExamples`.
- The v2 weight field is parsed as an `i32` (src/glob.rs:162), so `+80`,
  `080` and `-0` are accepted, not just unsigned decimal digits
  (`ParseI32Examples`).

## Model

| member | source | states |
|---|---|---|
| Text.Split | src/glob.rs:123 | `str::split`: at least one field; a single field exactly when the separator is absent; no field holds the separator; joining the fields gives the input back |
| Text.SplitFirst | src/glob.rs:123-133 | a separator-free prefix followed by the separator is split off as the first field |
| Text.SplitWhole | src/glob.rs:123-142 | a string without the separator is one field |
| Text.LowerStr | src/glob.rs:222 | lower-casing keeps the length and lower-cases each character |
| Text.FoldEqLower | src/glob.rs:211-214 | case-insensitive equality is reflexive and ignores lower-casing (lower-casing is idempotent) |
| Text.NatToDecimal | src/glob.rs:162 | the printed decimal form is non-empty, all digits, has no leading zero and has the printed value |
| Text.ParseI32 | src/glob.rs:162 | `i32` parsing: a negative result only with a leading `-`; without a sign the text is all digits and the result is its decimal value |
| Text.ParseI32Examples | src/glob.rs:162 | `80`, `+80` and `080` parse to 80, `-0` parses to 0, and a bare `+` or `-` is rejected |
| Text.ParsePrintedI32 | src/glob.rs:162 | parsing the printed form of any non-negative `i32` gives it back |
| GlobPatterns.Classify | src/glob.rs:30-47 | classification loses nothing: the pattern text of the shape is the input pattern |
| GlobPatterns.DetermineType | src/glob.rs:30-47 | the scanning loop returns exactly `Classify(glob)`: Full on the first metacharacter other than a leading `*`, else Simple after a leading `*`, else Literal |
| GlobPatterns.ClassifyLiteral | src/glob.rs:44-46 | a pattern without metacharacters (the empty one too) is a Literal of itself |
| GlobPatterns.ClassifySimple | src/glob.rs:35-36 | `*` followed by metacharacter-free text is Simple with the text after the `*` |
| GlobPatterns.ClassifyFull | src/glob.rs:37-38 | a `\`, `[` or `?` anywhere, or a `*` past the first position, makes the pattern Full |
| GlobPatterns.ClassifyExamples | src/glob.rs:343-357 | `Makefile` is Literal, `*.gif` is Simple `.gif`, `x*.[ch]` is Full |
| Globs.Cmp | src/glob.rs:67-77 | the ordering is Less, Equal or Greater exactly as the weights compare |
| Globs.CmpTotalPreorder | src/glob.rs:67-71 | the ordering is reflexive, antisymmetric in its results and transitive |
| Globs.CmpCoarserThanEquality | src/glob.rs:49-71 | two different entries of equal weight compare Equal: the order does not agree with `Eq` |
| Globs.NewGlob | src/glob.rs:104-114 | `Glob::new` keeps type, weight and flag, and the pattern text is the given pattern |
| Globs.SimpleGlob | src/glob.rs:80-90 | `Glob::simple` is `Glob::new` with weight 50, case-insensitive |
| Globs.WithWeight | src/glob.rs:92-102 | `Glob::with_weight` is `Glob::new` with the given weight, case-insensitive |
| Globs.FromV1String | src/glob.rs:116-150 | a v1 line is accepted exactly when it splits into two non-empty fields; the entry is then `Glob::new(field 0, field 1, 50, false)` |
| Globs.FromV2String | src/glob.rs:152-206 | a v2 line is accepted exactly when it has 3 or 4 fields, the first parses as a non-negative `i32`, type and pattern are non-empty and a fourth field is `cs`; the entry has that weight and is case-sensitive exactly when the fourth field is present |
| Globs.ParsedWellFormed | src/glob.rs:116-206 | every parsed entry has a non-empty type and pattern; v1 entries have weight 50 and are case-insensitive; v2 weights are non-negative |
| Globs.RejectsWithoutColon | src/glob.rs:119-121 | a line without `:` (the empty line too) is rejected by both parsers |
| Globs.RejectsEmptyField | src/glob.rs:135-137 | a line of two fields, one empty, is rejected by both parsers |
| Globs.V1RejectsThirdField | src/glob.rs:139-142 | a v1 line with a third field is rejected whatever the fields hold |
| Globs.V2RejectsExtraField | src/glob.rs:184-198 | a v2 line whose fourth field is not `cs`, or that has a fifth field, is rejected |
| Globs.V2Accepts | src/glob.rs:152-206 | a v2 line with a parsable non-negative weight, non-empty colon-free type and pattern and an optional `cs` gives `Glob::new` with those values |
| Globs.V1Accepted | src/glob.rs:361-370 | `text/rust:*.rs` gives `Glob::simple("text/rust", "*.rs")`, which is `Glob::new("text/rust", "*.rs", 50, false)` |
| Globs.V1RejectedShort | src/glob.rs:371-372 | the empty line and `foo` give nothing in v1 |
| Globs.V1RejectedEmptyField | src/glob.rs:373-375 | `foo:`, `:bar` and `:` give nothing in v1 |
| Globs.V1RejectedThirdField | src/glob.rs:376 | `foo:bar:baz` gives nothing in v1 |
| Globs.V2AcceptedWeight | src/glob.rs:381-388 | `80:text/rust:*.rs` gives `Glob::with_weight("text/rust", "*.rs", 80)` |
| Globs.V2AcceptedCaseSensitive | src/glob.rs:389-392 | `50:text/x-c++src:*.C:cs` gives `Glob::new("text/x-c++src", "*.C", 50, true)` |
| Globs.V2RejectedShort | src/glob.rs:394-395 | the empty line and `foo` give nothing in v2 |
| Globs.V2RejectedEmptyField | src/glob.rs:396-398 | `foo:`, `:bar` and `:` give nothing in v2 |
| Globs.V2RejectedThreeFields | src/glob.rs:399 | `foo:bar:baz` gives nothing in v2 (the weight does not parse) |
| Globs.V2RejectedFourFields | src/glob.rs:400 | `foo:bar:baz:blah` gives nothing in v2 |
| Globs.NewGlobSerializable | src/glob.rs:104-114 | an entry built from non-empty, colon-free type and pattern can be written as a line |
| Globs.V1RoundTrip | src/glob.rs:116-150 | reading back the v1 line of a writable weight-50 case-insensitive entry gives the entry |
| Globs.V1Canonical | src/glob.rs:116-150 | an accepted v1 line is exactly the line its entry writes |
| Globs.V2RoundTrip | src/glob.rs:152-206 | reading back the v2 line of a writable entry with non-negative weight gives the entry, flag included |
| Globs.Compare | src/glob.rs:208-234 | a literal entry matches its own text; a suffix entry matches every name ending with the suffix, and a case-sensitive one nothing else; a Full entry gives exactly the engine's verdict |
| Globs.LiteralMatch | src/glob.rs:210-215 | a literal entry matches exactly the names equal to it up to case, whatever its flag |
| Globs.SimpleMatch | src/glob.rs:216-227 | a `*`-suffix entry matches when the name ends with the suffix, or, when case-insensitive, when the lower-cased name does; nothing else |
| Globs.FullMatch | src/glob.rs:228-230 | a Full entry matches exactly what the glob engine says, whatever its flag |
| Globs.CaseFlagEffect | src/glob.rs:216-230 | turning case sensitivity off never loses a match, and changes nothing for Literal and Full entries |
| Globs.UpperSuffixIgnoresCaseFlag | src/glob.rs:216-226 | a suffix with an upper-case letter matches only names ending with it exactly, even when case-insensitive |
| Globs.LowerSuffixMatchesAnyCase | src/glob.rs:216-226 | a case-insensitive all-lower-case suffix matches exactly the names whose lower-cased form ends with it |
| Globs.CompareExamples | src/glob.rs:404-419 | `copying` matches `COPYING`; `*.c` matches `foo.c` and `FOO.C`; case-sensitive `*.C` matches `foo.C` only; case-insensitive `*.C` does not match `foo.c` |
| Loader.LoadLines | src/glob.rs:243-258 | a file yields at most one entry per line |
| Loader.ReadGlobsFromLines | src/glob.rs:237-283 | the loader loop gives nothing for a missing file, else exactly `LoadLines` of its lines with the format's parser |
| Loader.LoadLinesAppend | src/glob.rs:245-256 | loading two pieces of a file one after the other gives the entries of the whole file |
| Loader.SkippedLine | src/glob.rs:248-255 | an empty, `#` or malformed line contributes nothing and loading goes on past it |
| Loader.KeptLine | src/glob.rs:252-253 | a line that parses contributes its entry in place |
| Loader.LoadLinesMembers | src/glob.rs:245-256 | an entry is loaded exactly when some non-skipped line parses to it |
| Loader.LoadedWellFormed | src/glob.rs:237-283 | every loaded entry is well formed; v1 entries have the defaults, v2 weights are non-negative |
| GlobMaps.Insert | src/glob.rs:315 | insertion adds one entry; the last entry has the heavier of the old last weight and the new weight |
| GlobMaps.InsertSorted | src/glob.rs:315 | insertion keeps a sequence sorted by weight |
| GlobMaps.InsertPermutes | src/glob.rs:315 | insertion adds exactly the new entry to the multiset |
| GlobMaps.InsertOfWeight | src/glob.rs:315 | the inserted entry comes after every entry of its own weight |
| GlobMaps.SortByWeight | src/glob.rs:315 | the sort keeps the length |
| GlobMaps.SortByWeightSorted | src/glob.rs:315 | the sort's result is in ascending weight order |
| GlobMaps.SortByWeightPermutes | src/glob.rs:315 | the sort's result is a permutation of its input |
| GlobMaps.SortByWeightStable | src/glob.rs:315 | for every weight, the entries of that weight keep their relative order |
| GlobMaps.SortedByWeightUnique | src/glob.rs:67-71 | two weight-sorted sequences with the same entries of each weight, in the same order, are equal: every stable sort by `Ord` gives one result |
| GlobMaps.SortAppendHeaviest | src/glob.rs:315 | an entry at least as heavy as all others sorts to the end |
| GlobMaps.MatchingGlobs | src/glob.rs:305-309 | the filtered entries are registry entries that match the name, no more than the registry holds |
| GlobMaps.MatchingGlobsMembers | src/glob.rs:305-309 | an entry is kept by the filter exactly when it is in the registry and matches the name |
| GlobMaps.MatchingSnoc | src/glob.rs:305-309 | filtering a registry with one more entry adds that entry exactly when it matches |
| GlobMaps.MimeTypes | src/glob.rs:317-320 | the result holds each sorted entry's MIME type, in order |
| GlobMaps.MatchingGlobsEmpty | src/glob.rs:305-313 | the filter is empty exactly when no entry matches |
| GlobMaps.Lookup | src/glob.rs:302-323 | a result, when there is one, holds one MIME type per matching entry, duplicates kept; its order and its absence are pinned by `LookupIsStableSort` and `LookupNone` |
| GlobMaps.LookupNone | src/glob.rs:311-313 | lookup gives no result exactly when no entry matches, and never gives an empty list |
| GlobMaps.LookupIsStableSort | src/glob.rs:302-323 | the lookup result is the MIME types of any ascending-weight arrangement of the matches that keeps registry order among equal weights |
| GlobMaps.AddNonMatching | src/glob.rs:294-323 | adding an entry that does not match leaves every lookup unchanged |
| GlobMaps.AddHeaviest | src/glob.rs:294-323 | adding a matching entry at least as heavy as the earlier matches appends its MIME type at the end of the result |
| GlobMaps.GlobMap.constructor | src/glob.rs:290-292 | a new registry is empty |
| GlobMaps.GlobMap.AddGlob | src/glob.rs:294-296 | the entry is appended and nothing else changes |
| GlobMaps.GlobMap.AddGlobs | src/glob.rs:298-300 | the entries are appended in order |
| GlobMaps.GlobMap.LookupMimeTypeForFileName | src/glob.rs:302-323 | the two loops compute exactly `Lookup` of the registry: no result when nothing matches, else the stably weight-sorted MIME types |

## Left out

- Opening the file and reading lines (`File::open`, `BufReader::lines`) is
  I/O; the loader receives the lines, or `None` for a file that cannot be
  opened. The panic of `line.unwrap()` on any read error (an I/O error or a
  line that is not valid UTF-8) is not modelled.
- `Pattern::new(...).unwrap()` in `determine_type` panics on a malformed Full
  pattern; the model keeps the pattern text and does not model that panic.
- The glob engine (`Pattern::matches`) is foreign code; Full patterns are
  matched by the `FullMatcher` parameter.
- Globs.CompareExamples: the `compare` test's Full-pattern verdicts for
  `*.anim[1-9j]` depend on the glob engine, so they are not stated;
  `FullMatch` states that Full entries give exactly the engine's verdict.
- `UniCase` and `str::to_lowercase` fold full Unicode; the model folds ASCII
  letters only.
- The `fmt::Debug` implementations are output formatting and are not
  modelled.
- GlobMaps.GlobMap.LookupMimeTypeForFileName: `Vec::sort` sorts the matches
  in place; the model gives them to a value-level stable sort, with
  `SortedByWeightUnique` showing that every stable sort by weight gives the
  same result.
- `Clone` of entries and strings has no observable effect and is not
  modelled.
