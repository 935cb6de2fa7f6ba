/** The registry (`GlobMap` in src/glob.rs): an append-only list of entries
    and the lookup that filters it by file name, sorts the matches by
    weight and returns their MIME types. */
module GlobMaps {
  import opened Text
  import opened Globs

  // ---------------------------------------------------------------------
  // Stable sorting by weight (`Vec::sort` under `Ord for Glob`)
  // ---------------------------------------------------------------------

  predicate SortedByWeight(s: seq<Glob>)
  {
    forall i, j :: 0 <= i < j < |s| ==> s[i].weight <= s[j].weight
  }

  /** The entries of `s` with weight `w`, in their order in `s`. Two
      arrangements of the same entries that agree on this for every weight
      order equal-weight entries alike. */
  function OfWeight(s: seq<Glob>, w: int): (r: seq<Glob>)
    ensures |r| <= |s|
    ensures forall k :: 0 <= k < |r| ==> r[k].weight == w
  {
    if s == [] then []
    else (if s[0].weight == w then [s[0]] else []) + OfWeight(s[1..], w)
  }

  /** A weight-sorted sequence holds no entry lighter than its first. */
  lemma {:induction false} OfWeightBelowFirst(s: seq<Glob>, w: int)
    requires SortedByWeight(s) && s != [] && w < s[0].weight
    ensures OfWeight(s, w) == []
  {
    if |s| > 1 {
      OfWeightBelowFirst(s[1..], w);
    } else {
      assert s[1..] == [];
    }
  }

  /** The first entry of a sequence is among the entries of its weight. */
  lemma OfWeightFirst(s: seq<Glob>)
    ensures s != [] ==> OfWeight(s, s[0].weight) != []
  {
  }

  lemma {:induction false} OfWeightAppend(a: seq<Glob>, b: seq<Glob>, w: int)
    ensures OfWeight(a + b, w) == OfWeight(a, w) + OfWeight(b, w)
  {
    if a == [] {
      assert a + b == b;
    } else {
      assert (a + b)[0] == a[0] && (a + b)[1..] == a[1..] + b;
      OfWeightAppend(a[1..], b, w);
    }
  }

  /** The entries of one weight after appending one entry. */
  lemma OfWeightSnoc(s: seq<Glob>, x: Glob, w: int)
    ensures OfWeight(s + [x], w) == OfWeight(s, w) + (if x.weight == w then [x] else [])
  {
    OfWeightAppend(s, [x], w);
    assert [x][1..] == [];
  }

  /** The weight of the heavier of the last entry of `sorted` and `g`. */
  function TopWeight(sorted: seq<Glob>, g: Glob): int
  {
    if sorted == [] || sorted[|sorted| - 1].weight <= g.weight then g.weight
    else sorted[|sorted| - 1].weight
  }

  /** Appending an entry at least as heavy as the last keeps the order. */
  lemma SortedSnoc(s: seq<Glob>, g: Glob)
    requires SortedByWeight(s)
    requires s != [] ==> s[|s| - 1].weight <= g.weight
    ensures SortedByWeight(s + [g])
  {
    var t := s + [g];
    forall i, j | 0 <= i < j < |t| ensures t[i].weight <= t[j].weight {
      if j == |s| && i < |s| - 1 {
        assert s[i].weight <= s[|s| - 1].weight;
      }
    }
  }

  /** Insert `g` into a sequence after the longest tail of entries heavier
      than it; on a weight-sorted sequence that is after every entry whose
      weight does not exceed its own. */
  function Insert(sorted: seq<Glob>, g: Glob): (r: seq<Glob>)
    ensures |r| == |sorted| + 1
    ensures r[|r| - 1].weight == TopWeight(sorted, g)
  {
    if sorted == [] || sorted[|sorted| - 1].weight <= g.weight then sorted + [g]
    else Insert(sorted[..|sorted| - 1], g) + [sorted[|sorted| - 1]]
  }

  /** Insertion keeps a sequence sorted by weight. */
  lemma {:induction false} InsertSorted(sorted: seq<Glob>, g: Glob)
    requires SortedByWeight(sorted)
    ensures SortedByWeight(Insert(sorted, g))
  {
    if sorted == [] || sorted[|sorted| - 1].weight <= g.weight {
      SortedSnoc(sorted, g);
    } else {
      var init := sorted[..|sorted| - 1];
      var last := sorted[|sorted| - 1];
      assert SortedByWeight(init);
      InsertSorted(init, g);
      assert init != [] ==> init[|init| - 1] == sorted[|sorted| - 2];
      SortedSnoc(Insert(init, g), last);
    }
  }

  /** Insertion adds exactly `g`: nothing is lost or duplicated. */
  lemma {:induction false} InsertPermutes(sorted: seq<Glob>, g: Glob)
    ensures multiset(Insert(sorted, g)) == multiset(sorted) + multiset{g}
  {
    if !(sorted == [] || sorted[|sorted| - 1].weight <= g.weight) {
      var init := sorted[..|sorted| - 1];
      var last := sorted[|sorted| - 1];
      InsertPermutes(init, g);
      assert sorted == init + [last];
    }
  }

  /** A stable sort by ascending weight: insertion sort, one entry at a
      time from the front. */
  function SortByWeight(s: seq<Glob>): (r: seq<Glob>)
    ensures |r| == |s|
  {
    if s == [] then [] else Insert(SortByWeight(s[..|s| - 1]), s[|s| - 1])
  }

  /** The sort yields a sequence sorted by ascending weight. */
  lemma {:induction false} SortByWeightSorted(s: seq<Glob>)
    ensures SortedByWeight(SortByWeight(s))
  {
    if s != [] {
      SortByWeightSorted(s[..|s| - 1]);
      InsertSorted(SortByWeight(s[..|s| - 1]), s[|s| - 1]);
    }
  }

  /** The sort is a permutation of its input. */
  lemma {:induction false} SortByWeightPermutes(s: seq<Glob>)
    ensures multiset(SortByWeight(s)) == multiset(s)
  {
    if s != [] {
      var init := s[..|s| - 1];
      SortByWeightPermutes(init);
      InsertPermutes(SortByWeight(init), s[|s| - 1]);
      assert s == init + [s[|s| - 1]];
    }
  }

  /** Inserting `g` puts it after every entry of its own weight. */
  lemma {:induction false} InsertOfWeight(sorted: seq<Glob>, g: Glob, w: int)
    ensures OfWeight(Insert(sorted, g), w) == OfWeight(sorted, w) + (if g.weight == w then [g] else [])
  {
    if sorted == [] || sorted[|sorted| - 1].weight <= g.weight {
      OfWeightSnoc(sorted, g, w);
    } else {
      var init := sorted[..|sorted| - 1];
      var last := sorted[|sorted| - 1];
      assert sorted == init + [last];
      assert Insert(sorted, g) == Insert(init, g) + [last];
      InsertOfWeight(init, g, w);
      OfWeightSnoc(Insert(init, g), last, w);
      OfWeightSnoc(init, last, w);
      if g.weight == w {
        assert last.weight != w;
      }
    }
  }

  /** The sort is stable: for every weight, the entries of that weight keep
      their relative order. */
  lemma {:induction false} SortByWeightStable(s: seq<Glob>, w: int)
    ensures OfWeight(SortByWeight(s), w) == OfWeight(s, w)
  {
    if s != [] {
      var init := s[..|s| - 1];
      var last := s[|s| - 1];
      assert s == init + [last];
      SortByWeightStable(init, w);
      InsertOfWeight(SortByWeight(init), last, w);
      OfWeightAppend(init, [last], w);
    }
  }

  /** There is only one stable sort by weight: two weight-sorted sequences
      that agree on the entries of every weight are equal. Any stable
      sorting algorithm therefore gives the result of `SortByWeight`. */
  lemma {:induction false} SortedByWeightUnique(a: seq<Glob>, b: seq<Glob>)
    requires SortedByWeight(a) && SortedByWeight(b)
    requires forall w :: OfWeight(a, w) == OfWeight(b, w)
    ensures a == b
  {
    if a == [] || b == [] {
      if a != [] || b != [] {
        OfWeightFirst(if a != [] then a else b);
        assert false;
      }
    } else {
      var wa, wb := a[0].weight, b[0].weight;
      assert OfWeight(a, wa) != [] && OfWeight(b, wb) != [];
      if wa < wb {
        OfWeightBelowFirst(b, wa);
      } else if wb < wa {
        OfWeightBelowFirst(a, wb);
      }
      assert OfWeight(a, wa)[0] == a[0] && OfWeight(b, wa)[0] == b[0];
      assert a[0] == b[0];
      forall w ensures OfWeight(a[1..], w) == OfWeight(b[1..], w) {
        var n := if wa == w then 1 else 0;
        assert OfWeight(a[1..], w) == OfWeight(a, w)[n..];
        assert OfWeight(b[1..], w) == OfWeight(b, w)[n..];
      }
      SortedByWeightUnique(a[1..], b[1..]);
      assert a == [a[0]] + a[1..] && b == [b[0]] + b[1..];
    }
  }

  // ---------------------------------------------------------------------
  // Lookup
  // ---------------------------------------------------------------------

  /** The entries that match the file name, in registry order. */
  function MatchingGlobs(globs: seq<Glob>, fileName: string, fullMatch: FullMatcher): (r: seq<Glob>)
    ensures |r| <= |globs|
    ensures forall k :: 0 <= k < |r| ==> r[k] in globs && Compare(r[k], fileName, fullMatch)
  {
    if globs == [] then []
    else
      var init := globs[..|globs| - 1];
      var last := globs[|globs| - 1];
      MatchingGlobs(init, fileName, fullMatch) + (if Compare(last, fileName, fullMatch) then [last] else [])
  }

  function MimeTypes(s: seq<Glob>): (r: seq<string>)
    ensures |r| == |s| && forall k :: 0 <= k < |s| ==> r[k] == s[k].mimeType
  {
    seq(|s|, k requires 0 <= k < |s| => s[k].mimeType)
  }

  /** `lookup_mime_type_for_file_name`, as a value: no result when nothing
      matches, otherwise the MIME types of the matches after a stable sort
      by ascending weight. */
  function Lookup(globs: seq<Glob>, fileName: string, fullMatch: FullMatcher): (r: Option<seq<string>>)
    ensures r.Some? ==> |r.value| == |MatchingGlobs(globs, fileName, fullMatch)|
  {
    var matching := MatchingGlobs(globs, fileName, fullMatch);
    if |matching| == 0 then None else Some(MimeTypes(SortByWeight(matching)))
  }

  /** Nothing matches exactly when no stored entry matches. */
  lemma {:induction false} MatchingGlobsEmpty(globs: seq<Glob>, fileName: string, fullMatch: FullMatcher)
    ensures MatchingGlobs(globs, fileName, fullMatch) == []
            <==> forall k :: 0 <= k < |globs| ==> !Compare(globs[k], fileName, fullMatch)
  {
    if globs != [] {
      var init := globs[..|globs| - 1];
      MatchingGlobsEmpty(init, fileName, fullMatch);
      assert forall k :: 0 <= k < |init| ==> init[k] == globs[k];
    }
  }

  /** An entry is kept by the filter exactly when it is stored and
      matches. */
  lemma {:induction false} MatchingGlobsMembers(globs: seq<Glob>, fileName: string, fullMatch: FullMatcher, g: Glob)
    ensures g in MatchingGlobs(globs, fileName, fullMatch) <==> g in globs && Compare(g, fileName, fullMatch)
  {
    if globs != [] {
      var init := globs[..|globs| - 1];
      MatchingGlobsMembers(init, fileName, fullMatch, g);
      assert globs == init + [globs[|globs| - 1]];
    }
  }

  /** Lookup gives no result exactly when no stored entry matches; it never
      gives an empty list. */
  lemma LookupNone(globs: seq<Glob>, fileName: string, fullMatch: FullMatcher)
    ensures Lookup(globs, fileName, fullMatch).None?
            <==> forall k :: 0 <= k < |globs| ==> !Compare(globs[k], fileName, fullMatch)
    ensures Lookup(globs, fileName, fullMatch).Some? ==> Lookup(globs, fileName, fullMatch).value != []
  {
    MatchingGlobsEmpty(globs, fileName, fullMatch);
  }

  /** The lookup result is the MIME types of any arrangement of the matches
      that is sorted by ascending weight and keeps registry order among
      equal weights: every match appears, duplicates included, the highest
      weight last. */
  lemma LookupIsStableSort(globs: seq<Glob>, fileName: string, fullMatch: FullMatcher, s: seq<Glob>)
    requires SortedByWeight(s)
    requires forall w :: OfWeight(s, w) == OfWeight(MatchingGlobs(globs, fileName, fullMatch), w)
    ensures Lookup(globs, fileName, fullMatch) == if s == [] then None else Some(MimeTypes(s))
  {
    var matching := MatchingGlobs(globs, fileName, fullMatch);
    forall w ensures OfWeight(SortByWeight(matching), w) == OfWeight(s, w) {
      SortByWeightStable(matching, w);
    }
    SortByWeightSorted(matching);
    SortedByWeightUnique(SortByWeight(matching), s);
  }

  /** Filtering a registry with one more entry at its end. */
  lemma MatchingSnoc(globs: seq<Glob>, g: Glob, fileName: string, fullMatch: FullMatcher)
    ensures MatchingGlobs(globs + [g], fileName, fullMatch)
            == MatchingGlobs(globs, fileName, fullMatch) + (if Compare(g, fileName, fullMatch) then [g] else [])
  {
    var all := globs + [g];
    assert all[..|all| - 1] == globs && all[|all| - 1] == g;
  }

  /** Filtering one more entry of a registry's prefix. */
  lemma MatchingPrefix(globs: seq<Glob>, i: int, fileName: string, fullMatch: FullMatcher)
    requires 0 <= i < |globs|
    ensures MatchingGlobs(globs[..i + 1], fileName, fullMatch)
            == MatchingGlobs(globs[..i], fileName, fullMatch)
               + (if Compare(globs[i], fileName, fullMatch) then [globs[i]] else [])
  {
    assert globs[..i + 1] == globs[..i] + [globs[i]];
    MatchingSnoc(globs[..i], globs[i], fileName, fullMatch);
  }

  /** Adding an entry that does not match leaves the lookup unchanged. */
  lemma AddNonMatching(globs: seq<Glob>, g: Glob, fileName: string, fullMatch: FullMatcher)
    requires !Compare(g, fileName, fullMatch)
    ensures Lookup(globs + [g], fileName, fullMatch) == Lookup(globs, fileName, fullMatch)
  {
    MatchingSnoc(globs, g, fileName, fullMatch);
    var matching := MatchingGlobs(globs, fileName, fullMatch);
    assert matching + [] == matching;
  }

  /** Sorting does not raise the weight of the last entry above every
      weight present. */
  lemma {:induction false} SortedLastBound(s: seq<Glob>, bound: int)
    requires s != []
    requires forall k :: 0 <= k < |s| ==> s[k].weight <= bound
    ensures SortByWeight(s)[|s| - 1].weight <= bound
  {
    var init := s[..|s| - 1];
    if init != [] {
      SortedLastBound(init, bound);
    }
  }

  /** Sorting a sequence with one more entry inserts that entry into the
      sorted rest. */
  lemma SortSnoc(s: seq<Glob>, g: Glob)
    ensures SortByWeight(s + [g]) == Insert(SortByWeight(s), g)
  {
    var t := s + [g];
    assert t[..|t| - 1] == s && t[|t| - 1] == g;
  }

  /** An entry at least as heavy as everything before it sorts to the end. */
  lemma SortAppendHeaviest(s: seq<Glob>, g: Glob)
    requires forall k :: 0 <= k < |s| ==> s[k].weight <= g.weight
    ensures SortByWeight(s + [g]) == SortByWeight(s) + [g]
  {
    SortSnoc(s, g);
    var sorted := SortByWeight(s);
    if s != [] {
      SortedLastBound(s, g.weight);
    }
    assert Insert(sorted, g) == sorted + [g];
  }

  /** Adding a matching entry at least as heavy as every earlier match puts
      its MIME type at the end of the result, after the earlier matches of
      equal weight. */
  lemma AddHeaviest(globs: seq<Glob>, g: Glob, fileName: string, fullMatch: FullMatcher)
    requires Compare(g, fileName, fullMatch)
    requires forall k :: 0 <= k < |globs| && Compare(globs[k], fileName, fullMatch) ==> globs[k].weight <= g.weight
    ensures Lookup(globs, fileName, fullMatch).None? ==> Lookup(globs + [g], fileName, fullMatch) == Some([g.mimeType])
    ensures Lookup(globs, fileName, fullMatch).Some?
            ==> Lookup(globs + [g], fileName, fullMatch) == Some(Lookup(globs, fileName, fullMatch).value + [g.mimeType])
  {
    var matching := MatchingGlobs(globs, fileName, fullMatch);
    var sorted := SortByWeight(matching);
    MatchingSnoc(globs, g, fileName, fullMatch);
    assert SortByWeight(matching + [g]) == sorted + [g] by {
      forall k | 0 <= k < |matching| ensures matching[k].weight <= g.weight {
        var j :| 0 <= j < |globs| && globs[j] == matching[k];
      }
      SortAppendHeaviest(matching, g);
    }
    assert MimeTypes(sorted + [g]) == MimeTypes(sorted) + [g.mimeType];
    if matching == [] {
      assert MimeTypes(sorted) + [g.mimeType] == [g.mimeType];
    }
  }

  // ---------------------------------------------------------------------
  // The registry object
  // ---------------------------------------------------------------------

  class GlobMap {
    var globs: seq<Glob>

    /** `GlobMap::new`: an empty registry. */
    constructor ()
      ensures globs == []
    {
      globs := [];
    }

    /** `add_glob`: append one entry. */
    method AddGlob(glob: Glob)
      modifies this
      ensures globs == old(globs) + [glob]
    {
      globs := globs + [glob];
    }

    /** `add_globs`: append entries, in order. */
    method AddGlobs(newGlobs: seq<Glob>)
      modifies this
      ensures globs == old(globs) + newGlobs
    {
      globs := globs + newGlobs;
    }

    /** `lookup_mime_type_for_file_name`: collect the matching entries in a
        loop, give no result when there are none, sort the rest by weight
        and collect their MIME types in a second loop. */
    method LookupMimeTypeForFileName(fileName: string, fullMatch: FullMatcher) returns (r: Option<seq<string>>)
      ensures r == Lookup(globs, fileName, fullMatch)
    {
      var all := globs;
      var matchingGlobs: seq<Glob> := [];
      var i := 0;
      while i < |all|
        invariant 0 <= i <= |all|
        invariant matchingGlobs == MatchingGlobs(all[..i], fileName, fullMatch)
      {
        var glob := all[i];
        var isMatch := Compare(glob, fileName, fullMatch);
        MatchingPrefix(all, i, fileName, fullMatch);
        if isMatch {
          matchingGlobs := matchingGlobs + [glob];
        }
        i := i + 1;
      }
      assert all[..|all|] == all;
      if |matchingGlobs| == 0 {
        return None;
      }
      matchingGlobs := SortByWeight(matchingGlobs);
      var res: seq<string> := [];
      var j := 0;
      while j < |matchingGlobs|
        invariant 0 <= j <= |matchingGlobs|
        invariant |res| == j
        invariant forall k :: 0 <= k < j ==> res[k] == matchingGlobs[k].mimeType
      {
        res := res + [matchingGlobs[j].mimeType];
        j := j + 1;
      }
      assert res == MimeTypes(matchingGlobs);
      return Some(res);
    }
  }
}
