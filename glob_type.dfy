/** Classification of a glob pattern into one of three shapes, decided once
    when an entry is built (`GlobType` and `determine_type` in
    src/glob.rs). */
module GlobPatterns {

  /** A classified pattern. `Simple(s)` stands for the pattern `*` + `s`;
      `Full(p)` keeps the whole pattern text `p`, which only the external
      glob engine interprets. */
  datatype GlobType = Literal(text: string) | Simple(suffix: string) | Full(pattern: string)

  /** The characters that need the glob engine. */
  predicate IsMeta(c: char)
  {
    c == '\\' || c == '[' || c == '*' || c == '?'
  }

  /** Position `k` of `glob` holds a metacharacter that is not the one
      leading `*` a suffix pattern may start with. */
  predicate ForcesFull(glob: string, k: int)
    requires 0 <= k < |glob|
  {
    IsMeta(glob[k]) && !(k == 0 && glob[k] == '*')
  }

  predicate NeedsFull(glob: string)
  {
    exists k :: 0 <= k < |glob| && ForcesFull(glob, k)
  }

  /** The pattern text a shape stands for. */
  function PatternText(t: GlobType): string
  {
    match t
    case Literal(s) => s
    case Simple(s) => ['*'] + s
    case Full(p) => p
  }

  /** The shape of a pattern, stated declaratively: Full as soon as some
      position forces it, otherwise Simple when the pattern starts with
      `*`, otherwise Literal. No information is lost: the shape gives back
      the pattern it was made from. */
  function Classify(glob: string): (r: GlobType)
    ensures PatternText(r) == glob
  {
    if NeedsFull(glob) then Full(glob)
    else if |glob| > 0 && glob[0] == '*' then
      assert glob == ['*'] + glob[1..];
      Simple(glob[1..])
    else Literal(glob)
  }

  /** `determine_type`: one left-to-right scan that remembers a leading
      `*` and gives up on the first metacharacter elsewhere. */
  method DetermineType(glob: string) returns (t: GlobType)
    ensures t == Classify(glob)
  {
    var maybeSimple := false;
    var idx := 0;
    while idx < |glob|
      invariant 0 <= idx <= |glob|
      invariant maybeSimple <==> idx > 0 && glob[0] == '*'
      invariant forall k :: 0 <= k < idx ==> !ForcesFull(glob, k)
    {
      var ch := glob[idx];
      if idx == 0 && ch == '*' {
        maybeSimple := true;
      } else if ch == '\\' || ch == '[' || ch == '*' || ch == '?' {
        assert ForcesFull(glob, idx);
        return Full(glob);
      }
      idx := idx + 1;
    }
    if maybeSimple {
      t := Simple(glob[1..]);
    } else {
      t := Literal(glob);
    }
  }

  /** A pattern without any metacharacter is a literal, kept unchanged;
      the empty pattern is the empty literal. */
  lemma ClassifyLiteral(glob: string)
    requires forall k :: 0 <= k < |glob| ==> !IsMeta(glob[k])
    ensures Classify(glob) == Literal(glob)
  {
  }

  /** `*` followed by metacharacter-free text is a suffix pattern; `*`
      alone is the empty suffix. */
  lemma ClassifySimple(glob: string)
    requires |glob| >= 1 && glob[0] == '*'
    requires forall k :: 1 <= k < |glob| ==> !IsMeta(glob[k])
    ensures Classify(glob) == Simple(glob[1..])
  {
  }

  /** A `\`, `[` or `?` anywhere, or a `*` after the first position, makes
      the pattern Full. */
  lemma ClassifyFull(glob: string, k: nat)
    requires k < |glob|
    requires glob[k] in {'\\', '[', '?'} || (glob[k] == '*' && k >= 1)
    ensures Classify(glob) == Full(glob)
  {
    assert ForcesFull(glob, k);
  }

  /** The classifications pinned down by the `glob_type` test. */
  lemma ClassifyExamples()
    ensures Classify("Makefile") == Literal("Makefile")
    ensures Classify("*.gif") == Simple(".gif")
    ensures Classify("x*.[ch]") == Full("x*.[ch]")
  {
    ClassifyLiteral("Makefile");
    ClassifySimple("*.gif");
    ClassifyFull("x*.[ch]", 1);
  }
}
