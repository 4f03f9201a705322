/**
 * The browser viewer (docs/glyphs.js): lenient validation, normalisation,
 * grouping by kind and the rows of one table per kind. The DOM is abstracted
 * to an ordered list of sections, each a kind and its rows.
 */
module GlyphsJs {
  import opened Seqs
  import opened Sorting
  import opened Text
  import opened Grouping
  import opened Registry

  /** U+2026, the single-character ellipsis the viewer appends. */
  const Ellipsis: char := '\U{2026}'
  const NoEntriesMessage: string := "No valid glyph entries found in glyphs.yml."
  const KindLabel: string := "glyphs"
  const RepoText: string := "repo"

  /** `shortenAddress`: long `0x` addresses become the first 8 and last 6 characters around an ellipsis. */
  function ShortenAddress(addr: string): (r: string)
    ensures !StartsWith(Trim(addr), "0x") || |Trim(addr)| <= 12 ==> r == Trim(addr)
    ensures StartsWith(Trim(addr), "0x") && |Trim(addr)| > 12 ==>
      && |r| == 15
      && r[..8] == Trim(addr)[..8]
      && r[8] == Ellipsis
      && r[9..] == Trim(addr)[|Trim(addr)| - 6..]
  {
    var s := Trim(addr);
    if !StartsWith(s, "0x") || |s| <= 12 then s else s[..8] + [Ellipsis] + s[|s| - 6..]
  }

  /** Shortening an address that is already short changes nothing. */
  lemma ShortenAddressIdempotent(addr: string)
    ensures ShortenAddress(ShortenAddress(addr)) == ShortenAddress(addr)
  {
    var s := Trim(addr);
    var r := ShortenAddress(addr);
    if StartsWith(s, "0x") && |s| > 12 {
      assert r[0] == s[0] && r[|r| - 1] == s[|s| - 1];
      assert Trimmed(r);
      assert r[..2] == s[..2];
      assert r == r[..8] + [Ellipsis] + r[|r| - 6..];
    }
    TrimTrimmed(r);
  }

  /** `tidyDescription`: collapse whitespace, trim, and cut to 139 characters plus an ellipsis past 140. */
  function TidyDescription(desc: string): (r: string)
    ensures |r| <= DescriptionMax
    ensures Collapsed(r) && Trimmed(r)
    ensures |Trim(Collapse(desc))| <= DescriptionMax ==> r == Trim(Collapse(desc))
    ensures |Trim(Collapse(desc))| > DescriptionMax ==>
      |r| == DescriptionMax && r[..DescriptionMax - 1] == Trim(Collapse(desc))[..DescriptionMax - 1] && r[DescriptionMax - 1] == Ellipsis
  {
    var clean := Trim(Collapse(desc));
    CollapsedTrim(Collapse(desc));
    if |clean| <= DescriptionMax then clean
    else
      var kept := clean[..DescriptionMax - 1];
      CollapsedSlice(clean, 0, DescriptionMax - 1);
      CollapsedSnoc(kept, Ellipsis);
      assert (kept + [Ellipsis])[..DescriptionMax - 1] == kept;
      assert kept[0] == clean[0];
      kept + [Ellipsis]
  }

  /** A tidied description is its own tidy form. */
  lemma TidyDescriptionIdempotent(desc: string)
    ensures TidyDescription(TidyDescription(desc)) == TidyDescription(desc)
  {
    var r := TidyDescription(desc);
    CollapseCollapsed(r);
    TrimTrimmed(r);
  }

  /** Tidying only rewrites whitespace: the other characters survive, in order, up to the cut. */
  lemma TidyDescriptionKeepsText(desc: string)
    ensures |Trim(Collapse(desc))| <= DescriptionMax ==> Squeeze(TidyDescription(desc)) == Squeeze(desc)
    ensures |Trim(Collapse(desc))| > DescriptionMax ==>
      Squeeze(TidyDescription(desc)[..DescriptionMax - 1]) <= Squeeze(desc)
  {
    var clean := Trim(Collapse(desc));
    SqueezeTrim(Collapse(desc));
    SqueezeCollapse(desc);
    if |clean| > DescriptionMax {
      SqueezePrefix(clean, DescriptionMax - 1);
    }
  }

  /** The checks `isValid` applies to the six required keys, as `every` walks them. */
  predicate AllPresent(keys: seq<string>, f: Fields) {
    keys == [] || (!FieldMissing(f, keys[0]) && AllPresent(keys[1..], f))
  }

  /** `isValid`: a non-null object whose six required keys are all present and non-blank. */
  predicate IsValid(entry: RawEntry) {
    match entry
    case Mapping(f) => AllPresent(RequiredKeys, f)
    case _ => false
  }

  /** An entry is valid exactly when it is a mapping and none of the required keys is absent, null or blank. */
  lemma IsValidSpec(entry: RawEntry)
    ensures IsValid(entry) <==> entry.Mapping? && forall k :: k in RequiredKeys ==> !FieldMissing(entry.fields, k)
  {
    if entry.Mapping? {
      AllPresentSound(RequiredKeys, entry.fields);
    }
  }

  lemma {:induction false} AllPresentSound(keys: seq<string>, f: Fields)
    ensures AllPresent(keys, f) <==> forall k :: k in keys ==> !FieldMissing(f, k)
  {
    if keys != [] {
      AllPresentSound(keys[1..], f);
      assert forall k :: k in keys <==> k == keys[0] || k in keys[1..];
    }
  }

  /** A normalised record, as `normalise` returns it. */
  datatype Glyph = Glyph(name: string, kind: string, contract: string, network: string, repo: string, description: string)

  /** JavaScript falsiness of a YAML scalar: `(desc || "")` replaces these by the empty string. */
  predicate JsFalsy(v: Value) {
    || v.Null?
    || v == Bool(false)
    || v == Str("")
    || (v.Num? && (v.literal == "0" || v.literal == "NaN"))
  }

  /** What a normalised record guarantees. The description may be empty: see `Normalise`. */
  ghost predicate WellFormed(g: Glyph) {
    && g.name != [] && Trimmed(g.name)
    && g.kind != [] && Trimmed(g.kind) && HasNoUpper(g.kind)
    && g.contract != [] && Trimmed(g.contract)
    && g.network != [] && Trimmed(g.network)
    && g.repo != [] && Trimmed(g.repo)
    && Trimmed(g.description) && Collapsed(g.description) && |g.description| <= DescriptionMax
  }

  /** `normalise`, applied to valid entries only: trim every field, lower-case the kind, tidy the description. */
  function Normalise(f: Fields): Glyph
    requires IsValid(Mapping(f))
  {
    var d := Field(f, "description");
    Glyph(
      Trim(Display(Field(f, "name"))),
      Lower(Trim(Display(Field(f, "kind")))),
      Trim(Display(Field(f, "contract"))),
      Trim(Display(Field(f, "network"))),
      Trim(Display(Field(f, "repo"))),
      TidyDescription(if JsFalsy(d) then "" else Display(d)))
  }

  /**
   * What `normalise` makes of a valid entry: every field is trimmed and
   * non-empty and the kind is lower case, except that a falsy description
   * (`false`, `0`, `NaN`) passes validation as text yet tidies to "".
   */
  lemma NormaliseSpec(f: Fields)
    requires IsValid(Mapping(f))
    ensures WellFormed(Normalise(f))
    ensures Normalise(f).description != [] <==> !JsFalsy(Field(f, "description"))
    ensures Normalise(f).kind == Lower(Normalise(f).kind)
  {
    RequiredPresent(f);
    LowerProperties(Trim(Display(Field(f, "kind"))));
    DescriptionPresence(Field(f, "description"));
  }

  /** The six required keys of a valid entry, one by one. */
  lemma RequiredPresent(f: Fields)
    requires IsValid(Mapping(f))
    ensures Trim(Display(Field(f, "name"))) != []
    ensures Trim(Display(Field(f, "kind"))) != []
    ensures Trim(Display(Field(f, "contract"))) != []
    ensures Trim(Display(Field(f, "network"))) != []
    ensures Trim(Display(Field(f, "repo"))) != []
    ensures !Field(f, "description").Null? && Trim(Display(Field(f, "description"))) != []
  {
    IsValidSpec(Mapping(f));
    assert RequiredKeys[0] in RequiredKeys && RequiredKeys[1] in RequiredKeys && RequiredKeys[2] in RequiredKeys;
    assert RequiredKeys[3] in RequiredKeys && RequiredKeys[4] in RequiredKeys && RequiredKeys[5] in RequiredKeys;
  }

  lemma DescriptionPresence(d: Value)
    requires !d.Null? && Trim(Display(d)) != []
    ensures TidyDescription(if JsFalsy(d) then "" else Display(d)) != [] <==> !JsFalsy(d)
  {
    if !JsFalsy(d) {
      TidyNonBlank(Display(d));
    }
  }

  lemma TidyNonBlank(s: string)
    requires Trim(s) != []
    ensures TidyDescription(s) != []
  {
    var t := Trim(s);
    SqueezeTrim(s);
    assert !IsSpace(t[0]);
    assert Squeeze(t) != [] by {
      assert t == [t[0]] + t[1..];
      SqueezeAppend([t[0]], t[1..]);
    }
    TidyDescriptionKeepsText(s);
  }

  /** A glyph written back as raw string fields. */
  function AsFields(g: Glyph): Fields {
    map["name" := Str(g.name), "kind" := Str(g.kind), "contract" := Str(g.contract),
        "network" := Str(g.network), "repo" := Str(g.repo), "description" := Str(g.description)]
  }

  /** Normalising is a projection: a normalised record with a description normalises to itself. */
  lemma NormaliseFixpoint(g: Glyph)
    requires WellFormed(g) && g.description != [] && g.kind == Lower(g.kind)
    ensures IsValid(Mapping(AsFields(g)))
    ensures Normalise(AsFields(g)) == g
  {
    AsFieldsValid(g);
    AsFieldsLookup(g);
    NormaliseStrings(AsFields(g), g);
    TrimTrimmed(g.name);
    TrimTrimmed(g.kind);
    TrimTrimmed(g.contract);
    TrimTrimmed(g.network);
    TrimTrimmed(g.repo);
    TidyFixpoint(g.description);
  }

  lemma AsFieldsLookup(g: Glyph)
    ensures Field(AsFields(g), "name") == Str(g.name)
    ensures Field(AsFields(g), "kind") == Str(g.kind)
    ensures Field(AsFields(g), "contract") == Str(g.contract)
    ensures Field(AsFields(g), "network") == Str(g.network)
    ensures Field(AsFields(g), "repo") == Str(g.repo)
    ensures Field(AsFields(g), "description") == Str(g.description)
  {
  }

  /** Normalising an entry whose fields are all strings. */
  lemma NormaliseStrings(f: Fields, g: Glyph)
    requires IsValid(Mapping(f))
    requires Field(f, "name") == Str(g.name) && Field(f, "kind") == Str(g.kind)
    requires Field(f, "contract") == Str(g.contract) && Field(f, "network") == Str(g.network)
    requires Field(f, "repo") == Str(g.repo) && Field(f, "description") == Str(g.description)
    requires g.description != []
    ensures Normalise(f) == Glyph(Trim(g.name), Lower(Trim(g.kind)), Trim(g.contract),
      Trim(g.network), Trim(g.repo), TidyDescription(g.description))
  {
  }

  /** Writing a well-formed record back gives a valid entry. */
  lemma AsFieldsValid(g: Glyph)
    requires WellFormed(g) && g.description != []
    ensures IsValid(Mapping(AsFields(g)))
  {
    var f := AsFields(g);
    TrimTrimmed(g.name);
    TrimTrimmed(g.kind);
    TrimTrimmed(g.contract);
    TrimTrimmed(g.network);
    TrimTrimmed(g.repo);
    TrimTrimmed(g.description);
    AsFieldsLookup(g);
    assert forall k :: k in RequiredKeys ==> !FieldMissing(f, k);
    IsValidSpec(Mapping(f));
  }

  /** A collapsed, trimmed description within the limit tidies to itself. */
  lemma TidyFixpoint(desc: string)
    requires Collapsed(desc) && Trimmed(desc) && |desc| <= DescriptionMax
    ensures TidyDescription(desc) == desc
  {
    CollapseCollapsed(desc);
    TrimTrimmed(desc);
  }

  function NormaliseEntry(e: RawEntry): Glyph
    requires IsValid(e)
  {
    Normalise(e.fields)
  }

  /** The first loop of `renderGlyphs`: skip invalid entries, normalise the rest, in order. */
  function ValidGlyphs(entries: seq<RawEntry>): (r: seq<Glyph>)
    ensures |r| <= |entries|
  {
    if entries == [] then []
    else
      var rest := ValidGlyphs(entries[1..]);
      if IsValid(entries[0]) then [NormaliseEntry(entries[0])] + rest else rest
  }

  /** Every record the loop keeps is a normal form, with a lower-case kind. */
  lemma {:induction false} ValidGlyphsWellFormed(entries: seq<RawEntry>)
    ensures forall g :: g in ValidGlyphs(entries) ==> WellFormed(g) && g.kind == Lower(g.kind)
  {
    if entries != [] {
      var rest := ValidGlyphs(entries[1..]);
      ValidGlyphsWellFormed(entries[1..]);
      if IsValid(entries[0]) {
        var h := NormaliseEntry(entries[0]);
        NormaliseSpec(entries[0].fields);
        assert ValidGlyphs(entries) == [h] + rest;
        var normal := g => WellFormed(g) && g.kind == Lower(g.kind);
        AllCons(h, rest, normal);
      }
    }
  }

  /** `out` holds, position by position, the normal form of each entry of `kept`, and all of them are valid. */
  predicate NormalForms(kept: seq<RawEntry>, out: seq<Glyph>) {
    && |kept| == |out|
    && forall k :: 0 <= k < |kept| ==> IsValid(kept[k]) && out[k] == NormaliseEntry(kept[k])
  }

  lemma NormalFormsCons(e: RawEntry, kept: seq<RawEntry>, out: seq<Glyph>)
    requires IsValid(e) && NormalForms(kept, out)
    ensures NormalForms([e] + kept, [NormaliseEntry(e)] + out)
  {
    var normalises := (x: RawEntry, g: Glyph) => IsValid(x) && g == NormaliseEntry(x);
    PairwiseCons(e, NormaliseEntry(e), kept, out, normalises);
  }

  /** The loop keeps exactly the valid entries, in order, each normalised. */
  lemma {:induction false} ValidGlyphsFilter(entries: seq<RawEntry>)
    ensures NormalForms(Filter(entries, IsValid), ValidGlyphs(entries))
  {
    if entries != [] {
      var e, vs, fs := entries[0], ValidGlyphs(entries[1..]), Filter(entries[1..], IsValid);
      ValidGlyphsFilter(entries[1..]);
      if IsValid(e) {
        assert Filter(entries, IsValid) == [e] + fs;
        assert ValidGlyphs(entries) == [NormaliseEntry(e)] + vs;
        NormalFormsCons(e, fs, vs);
      } else {
        assert Filter(entries, IsValid) == fs;
        assert ValidGlyphs(entries) == vs;
      }
    }
  }

  /** The loop keeps exactly the valid entries, so it ends empty exactly when none is valid. */
  lemma ValidGlyphsKeeps(entries: seq<RawEntry>)
    ensures |ValidGlyphs(entries)| == |Filter(entries, IsValid)|
    ensures forall k :: 0 <= k < |Filter(entries, IsValid)| ==>
      IsValid(Filter(entries, IsValid)[k]) && ValidGlyphs(entries)[k] == NormaliseEntry(Filter(entries, IsValid)[k])
    ensures ValidGlyphs(entries) == [] <==> forall i :: 0 <= i < |entries| ==> !IsValid(entries[i])
    ensures forall i :: 0 <= i < |entries| && IsValid(entries[i]) ==> NormaliseEntry(entries[i]) in ValidGlyphs(entries)
  {
    ValidGlyphsFilter(entries);
    ValidGlyphsEmpty(entries);
    ValidGlyphsHolds(entries);
  }

  lemma ValidGlyphsEmpty(entries: seq<RawEntry>)
    ensures ValidGlyphs(entries) == [] <==> forall i :: 0 <= i < |entries| ==> !IsValid(entries[i])
  {
    var kept := Filter(entries, IsValid);
    ValidGlyphsFilter(entries);
    FilterMembers(entries, IsValid);
    if kept != [] {
      assert kept[0] in kept;
    }
  }

  lemma ValidGlyphsHolds(entries: seq<RawEntry>)
    ensures forall i :: 0 <= i < |entries| && IsValid(entries[i]) ==> NormaliseEntry(entries[i]) in ValidGlyphs(entries)
  {
    forall i | 0 <= i < |entries| && IsValid(entries[i])
      ensures NormaliseEntry(entries[i]) in ValidGlyphs(entries)
    {
      var e, kept, out := entries[i], Filter(entries, IsValid), ValidGlyphs(entries);
      assert e in kept by {
        assert e in entries;
        FilterMembers(entries, IsValid);
      }
      var k := IndexOf(kept, e);
      assert out[k] == NormaliseEntry(e) by {
        ValidGlyphsFilter(entries);
      }
    }
  }

  /** `g.kind || "other"`: the grouping key, falling back for an empty kind. */
  function GroupKey(g: Glyph): string {
    if g.kind == "" then "other" else g.kind
  }

  /** `localeCompare`, approximated ordinally. */
  function StrCompare(a: string, b: string): int {
    if a == b then 0 else if StrLe(a, b) then -1 else 1
  }

  /** The comparator `renderGlyphs` sorts the kinds with. */
  function KindCompare(a: string, b: string): int {
    var ia := IndexOf(KindOrder, a);
    var ib := IndexOf(KindOrder, b);
    if ia == -1 && ib == -1 then StrCompare(a, b)
    else if ia == -1 then 1
    else if ib == -1 then -1
    else ia - ib
  }

  predicate KindComesFirst(a: string, b: string) {
    KindCompare(a, b) <= 0
  }

  /** The comparator puts kinds in the display order: listed kinds by priority, the rest ordinally. */
  lemma KindCompareOrder(a: string, b: string)
    ensures KindComesFirst(a, b) <==> KindLe(a, b)
  {
    if StrLe(a, b) && StrLe(b, a) {
      StrLeAntisymmetric(a, b);
    }
    if a == b {
      assert StrLe(a, a) by {
        StrLeTotal(a, a);
      }
    }
  }

  lemma KindComesFirstIsTotalOrder()
    ensures IsTotalPreorder(KindComesFirst) && IsAntisymmetric(KindComesFirst)
  {
    KindLeIsTotalOrder();
    forall a, b
      ensures KindComesFirst(a, b) <==> KindLe(a, b)
    {
      KindCompareOrder(a, b);
    }
    forall a, b, c
      ensures TransitiveAt(KindComesFirst, a, b, c)
    {
      assert TransitiveAt(KindLe, a, b, c);
    }
  }

  /** `sortedKinds`: the group keys in display order. */
  function SortKinds(keys: seq<string>): (r: seq<string>)
    requires Distinct(keys)
    ensures Distinct(r)
    ensures forall k :: k in r <==> k in keys
    ensures SortedBy(r, KindLe)
  {
    KindComesFirstIsTotalOrder();
    var r := Sort(keys, KindComesFirst);
    PermutationDistinct(r, keys);
    assert forall k :: k in r <==> k in multiset(keys);
    forall i, j | 0 <= i < j < |r|
      ensures KindLe(r[i], r[j])
    {
      KindCompareOrder(r[i], r[j]);
    }
    r
  }

  /** Members of a group compare by lower-cased name. */
  predicate NameLe(a: Glyph, b: Glyph) {
    StrLe(Lower(a.name), Lower(b.name))
  }

  lemma NameLeIsTotalPreorder()
    ensures IsTotalPreorder(NameLe)
  {
    forall a: Glyph, b: Glyph
      ensures NameLe(a, b) || NameLe(b, a)
    {
      StrLeTotal(Lower(a.name), Lower(b.name));
    }
    forall a: Glyph, b: Glyph, c: Glyph
      ensures TransitiveAt(NameLe, a, b, c)
    {
      if NameLe(a, b) && NameLe(b, c) {
        StrLeTransitive(Lower(a.name), Lower(b.name), Lower(c.name));
      }
    }
  }

  /** `groups.get(kind).sort(...)`: one kind's records ordered by lower-cased name. */
  function Members(valid: seq<Glyph>, kind: string): (ms: seq<Glyph>)
    ensures SortedBy(ms, NameLe)
    ensures forall g :: multiset(ms)[g] == if GroupKey(g) == kind then multiset(valid)[g] else 0
  {
    NameLeIsTotalPreorder();
    Sort(Group(valid, GroupKey, kind), NameLe)
  }

  /** A link whose visible text is fixed, opened in a new browsing context. */
  datatype Link = Link(href: string, text: string)

  /** One table row: name, network, shortened contract (as code), repository link, description. */
  datatype Row = Row(name: string, network: string, contract: string, repo: Link, description: string)

  /** One `<section>`: a heading with the kind and a label, and the table body. */
  datatype Section = Section(kind: string, caption: string, rows: seq<Row>)

  /** What the container shows: the error paragraph, or the sections in order. */
  datatype View = ErrorNotice(message: string) | Tables(sections: seq<Section>)

  function RowOf(g: Glyph): (r: Row)
    ensures r.name == g.name && r.network == g.network && r.description == g.description
    ensures r.repo == Link(g.repo, RepoText)
    ensures r.contract == ShortenAddress(g.contract)
  {
    Row(g.name, g.network, ShortenAddress(g.contract), Link(g.repo, RepoText), g.description)
  }

  function Sections(valid: seq<Glyph>, kinds: seq<string>): (ss: seq<Section>)
    ensures |ss| == |kinds|
    ensures forall i :: 0 <= i < |ss| ==> ss[i].kind == kinds[i] && ss[i].caption == KindLabel
    ensures forall i :: 0 <= i < |ss| ==> ss[i].rows == Map(RowOf, Members(valid, kinds[i]))
  {
    Map(k => SectionOf(valid, k), kinds)
  }

  /** One kind's section: its label and its records as rows. */
  function SectionOf(valid: seq<Glyph>, kind: string): Section {
    Section(kind, KindLabel, Map(RowOf, Members(valid, kind)))
  }

  function KindsOf(ss: seq<Section>): seq<string> {
    Map((s: Section) => s.kind, ss)
  }

  function AllRows(ss: seq<Section>): seq<Row> {
    if ss == [] then [] else ss[0].rows + AllRows(ss[1..])
  }

  function AllMembers(valid: seq<Glyph>, kinds: seq<string>): seq<Glyph> {
    if kinds == [] then [] else Members(valid, kinds[0]) + AllMembers(valid, kinds[1..])
  }

  lemma {:induction false} AllRowsOfSections(valid: seq<Glyph>, kinds: seq<string>)
    ensures AllRows(Sections(valid, kinds)) == Map(RowOf, AllMembers(valid, kinds))
  {
    if kinds != [] {
      AllRowsOfSections(valid, kinds[1..]);
      assert Sections(valid, kinds)[1..] == Sections(valid, kinds[1..]);
      MapAppend(RowOf, Members(valid, kinds[0]), AllMembers(valid, kinds[1..]));
    }
  }

  lemma {:induction false} AllMembersCollect(valid: seq<Glyph>, kinds: seq<string>)
    ensures multiset(AllMembers(valid, kinds)) == multiset(Collect(valid, GroupKey, kinds))
  {
    if kinds != [] {
      AllMembersCollect(valid, kinds[1..]);
      var ms, gs := Members(valid, kinds[0]), Group(valid, GroupKey, kinds[0]);
      assert forall g :: multiset(ms)[g] == multiset(gs)[g];
      assert multiset(ms) == multiset(gs);
    }
  }

  /** Normalised kinds are never empty, so the `"other"` fallback never applies. */
  lemma GroupKeyIsKind(valid: seq<Glyph>)
    requires forall g :: g in valid ==> WellFormed(g)
    ensures forall g :: g in valid ==> GroupKey(g) == g.kind
  {
  }

  /** The kinds of the valid records, in display order. */
  function ValidKinds(valid: seq<Glyph>): (ks: seq<string>)
    requires forall g :: g in valid ==> WellFormed(g)
    ensures Distinct(ks) && SortedBy(ks, KindLe)
    ensures forall k :: k in ks <==> exists g :: g in valid && g.kind == k
  {
    var keys := Keys(valid, GroupKey);
    GroupKeyIsKind(valid);
    forall k
      ensures k in keys <==> exists g :: g in valid && g.kind == k
    {
      if k in keys {
        var i :| 0 <= i < |valid| && GroupKey(valid[i]) == k;
        assert valid[i] in valid;
      }
      if exists g :: g in valid && g.kind == k {
        var g :| g in valid && g.kind == k;
        var i :| 0 <= i < |valid| && valid[i] == g;
      }
    }
    SortKinds(keys)
  }

  lemma {:induction false} KindsOfSections(valid: seq<Glyph>, kinds: seq<string>)
    ensures KindsOf(Sections(valid, kinds)) == kinds
  {
    var ss := Sections(valid, kinds);
    assert forall i :: 0 <= i < |kinds| ==> KindsOf(ss)[i] == ss[i].kind;
  }

  /** The sections hold every valid record exactly once, as a row. */
  lemma RowsPermutation(valid: seq<Glyph>)
    requires forall g :: g in valid ==> WellFormed(g)
    ensures multiset(AllRows(Sections(valid, ValidKinds(valid)))) == multiset(Map(RowOf, valid))
  {
    var kinds := ValidKinds(valid);
    var keys := Keys(valid, GroupKey);
    GroupKeyIsKind(valid);
    assert forall i :: 0 <= i < |valid| ==> GroupKey(valid[i]) in kinds by {
      forall i | 0 <= i < |valid|
        ensures GroupKey(valid[i]) in kinds
      {
        assert valid[i] in valid;
      }
    }
    AllRowsOfSections(valid, kinds);
    AllMembersCollect(valid, kinds);
    CollectPartition(valid, GroupKey, kinds);
    MapPermutation(RowOf, AllMembers(valid, kinds), valid);
  }

  /**
   * `renderGlyphs` without the DOM: the error notice when nothing is valid,
   * otherwise one section per kind in display order.
   */
  function RenderGlyphs(entries: seq<RawEntry>): (v: View)
    ensures v.ErrorNotice? <==> forall i :: 0 <= i < |entries| ==> !IsValid(entries[i])
    ensures v.ErrorNotice? ==> v.message == NoEntriesMessage
    ensures v.Tables? ==>
      && Distinct(KindsOf(v.sections))
      && SortedBy(KindsOf(v.sections), KindLe)
      && (forall k :: k in KindsOf(v.sections) <==> exists g :: g in ValidGlyphs(entries) && g.kind == k)
    ensures v.Tables? ==> forall i :: 0 <= i < |v.sections| ==> v.sections[i].caption == KindLabel
    ensures v.Tables? ==> multiset(AllRows(v.sections)) == multiset(Map(RowOf, ValidGlyphs(entries)))
  {
    var valid := ValidGlyphs(entries);
    ValidGlyphsKeeps(entries);
    ValidGlyphsWellFormed(entries);
    if |valid| == 0 then ErrorNotice(NoEntriesMessage)
    else
      var kinds := ValidKinds(valid);
      KindsOfSections(valid, kinds);
      RowsPermutation(valid);
      Tables(Sections(valid, kinds))
  }

  /** Each section lists exactly that kind's valid records, sorted by lower-cased name. */
  lemma SectionContents(entries: seq<RawEntry>, i: nat)
    requires RenderGlyphs(entries).Tables? && i < |RenderGlyphs(entries).sections|
    ensures var s := RenderGlyphs(entries).sections[i];
      var ms := Members(ValidGlyphs(entries), s.kind);
      && s.rows == Map(RowOf, ms)
      && SortedBy(ms, NameLe)
      && forall g: Glyph :: multiset(ms)[g] == if g.kind == s.kind then multiset(ValidGlyphs(entries))[g] else 0
  {
    var valid := ValidGlyphs(entries);
    ValidGlyphsWellFormed(entries);
    var kinds := ValidKinds(valid);
    var s := RenderGlyphs(entries).sections[i];
    assert s == Sections(valid, kinds)[i];
    MembersOfKind(valid, s.kind);
  }

  /** Among normalised records the grouping key is the kind itself. */
  lemma MembersOfKind(valid: seq<Glyph>, kind: string)
    requires forall g :: g in valid ==> WellFormed(g)
    ensures forall g: Glyph :: multiset(Members(valid, kind))[g] == if g.kind == kind then multiset(valid)[g] else 0
  {
    forall g: Glyph
      ensures multiset(Members(valid, kind))[g] == if g.kind == kind then multiset(valid)[g] else 0
    {
      if g !in valid {
        assert multiset(valid)[g] == 0;
      }
    }
  }
}
