/**
 * Where the browser viewer and the table generator meet: both read the same
 * registry, so they should accept the same entries, put the kinds in the same
 * order and group by the same key. The description tidying is where they part.
 *
 * Every statement here holds in the model's shared approximation of the two
 * runtimes: one whitespace class for JavaScript's `\s`/`trim` and Ruby's
 * `\s`/`strip`, and ordinal order for both `localeCompare` and `<=>`. The real
 * runtimes differ outside it (a no-break space, accented letters).
 */
module Agreement {
  import opened Seqs
  import opened Sorting
  import opened Text
  import opened Registry
  import GlyphsJs
  import GlyphTable

  /** In the shared whitespace approximation, the viewer shows an entry exactly when the generator keeps it. */
  lemma ValidityAgrees(e: RawEntry)
    ensures GlyphsJs.IsValid(e) <==> GlyphTable.Acceptable(e)
  {
    GlyphsJs.IsValidSpec(e);
    if e.Mapping? {
      GlyphTable.MissingInOrder(e.fields);
      if GlyphTable.Missing(e.fields) != [] {
        assert GlyphTable.Missing(e.fields)[0] in GlyphTable.Missing(e.fields);
      }
    }
  }

  /** With both string orders taken as ordinal, the two scripts arrange a set of kinds identically: known kinds first in their fixed order, then the rest. */
  lemma KindOrderAgrees(keys: seq<string>)
    requires Distinct(keys)
    ensures GlyphsJs.SortKinds(keys) == GlyphTable.OrderedKinds(keys)
  {
    var a, b := GlyphsJs.SortKinds(keys), GlyphTable.OrderedKinds(keys);
    SameMembersPermutation(a, b);
    KindLeIsTotalOrder();
    SortedUnique(a, b, KindLe);
  }

  /** In the shared whitespace approximation, a valid entry lands in the viewer section and the generator table of the same kind. */
  lemma GroupKeyAgrees(f: Fields)
    requires GlyphsJs.IsValid(Mapping(f))
    ensures GlyphsJs.GroupKey(GlyphsJs.Normalise(f)) == GlyphTable.KindKey(f)
  {
    GlyphsJs.NormaliseSpec(f);
  }

  /**
   * In the shared whitespace approximation, the two tidy functions give the
   * same text exactly when no cut is needed: past 140 characters the viewer
   * ends with one ellipsis character, the generator with three dots.
   */
  lemma TidyAgreesIffShort(desc: string)
    ensures GlyphsJs.TidyDescription(desc) == GlyphTable.TidyDescription(desc)
      <==> |Trim(Collapse(desc))| <= DescriptionMax
  {
    if |Trim(Collapse(desc))| > DescriptionMax {
      TidyDiffersWhenCut(desc);
    }
  }

  lemma TidyDiffersWhenCut(desc: string)
    requires |Trim(Collapse(desc))| > DescriptionMax
    ensures GlyphsJs.TidyDescription(desc) != GlyphTable.TidyDescription(desc)
  {
    var js, rb := GlyphsJs.TidyDescription(desc), GlyphTable.TidyDescription(desc);
    assert js[|js| - 1] == GlyphsJs.Ellipsis;
    assert rb[|rb| - 1] == '.' by {
      assert rb[|rb| - 3..] == "...";
      assert rb[|rb| - 1] == rb[|rb| - 3..][2];
    }
    LastDiffers(js, rb);
  }

  lemma LastDiffers(a: string, b: string)
    requires a != [] && b != [] && a[|a| - 1] != b[|b| - 1]
    ensures a != b
  {
  }
}
