/**
 * The README generator (scripts/gen_glyph_table.rb): strict loading of the
 * parsed registry, the Markdown tables, and splicing them between the two
 * marker comments of the README text.
 */
module GlyphTable {
  import opened Base
  import opened Seqs
  import opened Sorting
  import opened Text
  import opened Grouping
  import opened Registry

  const StartMarker: string := "<!-- GLYPH_TABLE_START -->"
  const EndMarker: string := "<!-- GLYPH_TABLE_END -->"
  const Header: string := "| name | network | contract | repo | description |"
  const Separator: string := "| ---- | ------- | -------- | ---- | ----------- |"
  /** The first line of the exception for bad entries, and what starts each later line. */
  const InvalidHeading: string := "Invalid glyph entries:"
  const BulletBreak: string := "\n- "

  /*
   * Loading
   */

  /** What the YAML loader returned: a sequence of entries, or anything else. */
  datatype YamlRoot = SequenceRoot(entries: seq<RawEntry>) | OtherRoot

  /** One collected problem. Positions are 1-based, as the messages print them. */
  datatype EntryError = NotAMapping(position: nat) | MissingKeys(caption: string, keys: seq<string>)

  /** The two ways loading aborts. */
  datatype LoadError = RootNotSequence | InvalidEntries(errors: seq<EntryError>)

  /** The keys of `keys` that `f` lacks, in the order of `keys`. */
  function MissingFrom(keys: seq<string>, f: Fields): seq<string> {
    if keys == [] then []
    else (if FieldMissing(f, keys[0]) then [keys[0]] else []) + MissingFrom(keys[1..], f)
  }

  lemma {:induction false} MissingFromSpec(keys: seq<string>, f: Fields)
    requires Distinct(keys)
    ensures forall k :: k in MissingFrom(keys, f) <==> k in keys && FieldMissing(f, k)
    ensures forall i, j :: 0 <= i < j < |MissingFrom(keys, f)| ==>
      IndexOf(keys, MissingFrom(keys, f)[i]) < IndexOf(keys, MissingFrom(keys, f)[j])
  {
    if keys != [] {
      assert Distinct(keys[1..]);
      MissingFromSpec(keys[1..], f);
      var rest := MissingFrom(keys[1..], f);
      assert forall k :: k in rest ==> k != keys[0] && IndexOf(keys, k) == IndexOf(keys[1..], k) + 1;
      assert forall k :: k in keys <==> k == keys[0] || k in keys[1..];
    }
  }

  lemma RequiredKeysDistinct()
    ensures Distinct(RequiredKeys)
  {
  }

  /** `REQUIRED_KEYS.select { ... }`: the required keys that are absent, nil or blank. */
  function Missing(f: Fields): seq<string> {
    MissingFrom(RequiredKeys, f)
  }

  /**
   * A key is reported exactly when it is required and missing; each is listed
   * once, in the order `REQUIRED_KEYS` declares them.
   */
  lemma MissingInOrder(f: Fields)
    ensures forall k :: k in Missing(f) <==> k in RequiredKeys && FieldMissing(f, k)
    ensures Distinct(Missing(f))
    ensures forall i, j :: 0 <= i < j < |Missing(f)| ==> IndexOf(RequiredKeys, Missing(f)[i]) < IndexOf(RequiredKeys, Missing(f)[j])
  {
    RequiredKeysDistinct();
    MissingFromSpec(RequiredKeys, f);
  }

  /** `entry["name"] || "entry N"`: the name as printed, unless it is nil or false. */
  function Caption(f: Fields, position: nat): string {
    var name := Field(f, "name");
    if name.Null? || name == Bool(false) then "entry " + NatToString(position) else Display(name)
  }

  /** The fallback caption names the entry's position, which can be read back from it. */
  lemma CaptionNamesPosition(f: Fields, position: nat)
    requires Field(f, "name").Null? || Field(f, "name") == Bool(false)
    ensures var c := Caption(f, position);
      |c| > 6 && c[..6] == "entry " && IsDigits(c[6..]) && ParseNat(c[6..]) == position
  {
    var c := Caption(f, position);
    assert c[6..] == NatToString(position);
    ParseNatToString(position);
  }

  /** A name that is neither nil nor false labels the error verbatim, even when blank. */
  lemma CaptionUsesName(f: Fields, position: nat)
    requires !Field(f, "name").Null? && Field(f, "name") != Bool(false)
    ensures Caption(f, position) == Display(Field(f, "name"))
  {
  }

  /** The problem, if any, with the entry at 1-based `position`; `nil` entries have none. */
  function Problem(e: RawEntry, position: nat): (p: Option<EntryError>)
    ensures p.None? <==> e.Nil? || (e.Mapping? && Missing(e.fields) == [])
    ensures e.NotMapping? ==> p == Some(NotAMapping(position))
    ensures e.Mapping? && p.Some? ==>
      p.value.MissingKeys? && p.value.keys == Missing(e.fields) && p.value.caption == Caption(e.fields, position)
  {
    match e
    case Nil => None
    case NotMapping => Some(NotAMapping(position))
    case Mapping(f) =>
      var missing := Missing(f);
      if missing == [] then None else Some(MissingKeys(Caption(f, position), missing))
  }

  /** An entry `load_glyphs` keeps. */
  predicate Acceptable(e: RawEntry) {
    e.Mapping? && Missing(e.fields) == []
  }

  /** The problem of each entry, at its 1-based position. */
  function Reports(entries: seq<RawEntry>): (ps: seq<Option<EntryError>>)
    ensures |ps| == |entries|
    ensures forall i :: 0 <= i < |entries| ==> ps[i] == Problem(entries[i], i + 1)
  {
    seq(|entries|, i requires 0 <= i < |entries| => Problem(entries[i], i + 1))
  }

  /** The errors collected over `entries`, in entry order. */
  function Problems(entries: seq<RawEntry>): (r: seq<EntryError>)
    ensures |r| <= |entries|
    ensures r == [] <==> forall i :: 0 <= i < |entries| ==> Problem(entries[i], i + 1).None?
    ensures forall i :: 0 <= i < |entries| && Problem(entries[i], i + 1).Some? ==> Problem(entries[i], i + 1).value in r
    ensures forall e :: e in r ==> exists i :: 0 <= i < |entries| && Problem(entries[i], i + 1) == Some(e)
  {
    Somes(Reports(entries))
  }

  /** Looking at one more entry appends its problem, if it has one. */
  lemma ProblemsStep(entries: seq<RawEntry>, n: nat)
    requires n < |entries|
    ensures Problems(entries[..n + 1]) == Problems(entries[..n]) + OptionToSeq(Problem(entries[n], n + 1))
  {
    var before, after := Reports(entries[..n]), Reports(entries[..n + 1]);
    assert after == before + [Problem(entries[n], n + 1)];
    SomesSnoc(before, Problem(entries[n], n + 1));
  }

  /** The fields of a mapping entry. */
  function FieldsOf(e: RawEntry): Fields {
    if e.Mapping? then e.fields else map[]
  }

  predicate IsMapping(e: RawEntry) {
    e.Mapping?
  }

  /** The entries kept, as their fields, in entry order. */
  function Accepted(entries: seq<RawEntry>): seq<Fields> {
    Map(FieldsOf, Filter(entries, Acceptable))
  }

  /** Exactly the complete mappings are kept. */
  lemma AcceptedMembers(entries: seq<RawEntry>)
    ensures forall f :: f in Accepted(entries) ==> Missing(f) == []
    ensures forall e :: e in entries && Acceptable(e) ==> e.fields in Accepted(entries)
  {
    var kept := Filter(entries, Acceptable);
    FilterMembers(entries, Acceptable);
    forall f | f in Accepted(entries)
      ensures Missing(f) == []
    {
      var i :| 0 <= i < |kept| && FieldsOf(kept[i]) == f;
      assert kept[i] in kept;
    }
    forall e | e in entries && Acceptable(e)
      ensures e.fields in Accepted(entries)
    {
      assert e in kept;
      var i :| 0 <= i < |kept| && kept[i] == e;
      assert Accepted(entries)[i] == e.fields;
    }
  }

  /** Acceptance keeps the original order: the kept entries of `a + b` are those of `a`, then those of `b`. */
  lemma AcceptedAppend(a: seq<RawEntry>, b: seq<RawEntry>)
    ensures Accepted(a + b) == Accepted(a) + Accepted(b)
  {
    FilterAppend(a, b, Acceptable);
    MapAppend(FieldsOf, Filter(a, Acceptable), Filter(b, Acceptable));
  }

  /** The mappings among `entries`, as their fields, in order. */
  function Mappings(entries: seq<RawEntry>): seq<Fields> {
    Map(FieldsOf, Filter(entries, IsMapping))
  }

  /** When nothing is reported, every mapping is kept, in order, and only `nil` entries are dropped. */
  lemma AcceptedAll(entries: seq<RawEntry>)
    requires forall e :: e in entries ==> e.Nil? || Acceptable(e)
    ensures Accepted(entries) == Mappings(entries)
  {
    forall i | 0 <= i < |entries|
      ensures Acceptable(entries[i]) == IsMapping(entries[i])
    {
      assert entries[i] in entries;
    }
    FilterSame(entries, Acceptable, IsMapping);
  }

  /** The exception text of an entry problem. */
  function EntryMessage(e: EntryError): string {
    match e
    case NotAMapping(position) => "Entry " + NatToString(position) + " is not a mapping"
    case MissingKeys(caption, keys) => caption + ": missing required keys: " + Join(keys, ", ")
  }

  /** The exception text `load_glyphs` raises with. */
  function LoadMessage(e: LoadError): string {
    match e
    case RootNotSequence => "Top-level YAML must be a sequence"
    case InvalidEntries(errors) => InvalidHeading + BulletBreak + Join(Map(EntryMessage, errors), BulletBreak)
  }

  /** A non-mapping's message names its position, which reads back as that number. */
  lemma EntryMessagePosition(position: nat)
    ensures var m := EntryMessage(NotAMapping(position));
      && |m| > 23 && m[..6] == "Entry " && m[|m| - 17..] == " is not a mapping"
      && IsDigits(m[6..|m| - 17]) && ParseNat(m[6..|m| - 17]) == position
  {
    var d := NatToString(position);
    var m := EntryMessage(NotAMapping(position));
    assert m == "Entry " + d + " is not a mapping";
    assert m[6..|m| - 17] == d;
    ParseNatToString(position);
  }

  /** One bullet line per reported problem, in entry order. */
  function Bullets(ps: seq<Option<EntryError>>): string {
    Prefixed(ps, EntryMessage, BulletBreak)
  }

  /** `sep` before `f` of each present value, in order. */
  function Prefixed<T>(ps: seq<Option<T>>, f: T -> string, sep: string): string {
    if ps == [] then ""
    else Prefixed(ps[..|ps| - 1], f, sep) + (if ps[|ps| - 1].Some? then sep + f(ps[|ps| - 1].value) else "")
  }

  lemma {:induction false} PrefixedNone<T>(ps: seq<Option<T>>, f: T -> string, sep: string)
    requires Somes(ps) == []
    ensures Prefixed(ps, f, sep) == ""
  {
    if ps != [] {
      var init := ps[..|ps| - 1];
      assert Somes(ps) == Somes(init) + OptionToSeq(ps[|ps| - 1]);
      PrefixedNone(init, f, sep);
    }
  }

  /** Joining the present values' texts with `sep`, after one leading `sep`, puts `sep` before each. */
  lemma {:induction false} PrefixedJoin<T>(ps: seq<Option<T>>, f: T -> string, sep: string)
    requires Somes(ps) != []
    ensures sep + Join(Map(f, Somes(ps)), sep) == Prefixed(ps, f, sep)
  {
    var init, last := ps[..|ps| - 1], ps[|ps| - 1];
    var a := Somes(init);
    assert Somes(ps) == a + OptionToSeq(last);
    if last.None? {
      PrefixedJoin(init, f, sep);
      assert Somes(ps) == a;
      assert Prefixed(ps, f, sep) == Prefixed(init, f, sep) + "";
      assert Prefixed(ps, f, sep) == Prefixed(init, f, sep);
    } else if a == [] {
      var v := last.value;
      PrefixedNone(init, f, sep);
      assert Somes(ps) == [v];
      assert Map(f, [v]) == [f(v)];
      assert Prefixed(ps, f, sep) == "" + (sep + f(v));
      assert Join(Map(f, Somes(ps)), sep) == f(v);
    } else {
      var v := last.value;
      assert Somes(ps) == a + [v];
      PrefixedJoin(init, f, sep);
      JoinMapSnoc(a, v, f, sep);
      assert Prefixed(ps, f, sep) == Prefixed(init, f, sep) + (sep + f(v));
    }
  }

  /** Joining one more text adds `sep` and that text at the end. */
  lemma JoinMapSnoc<T>(a: seq<T>, v: T, f: T -> string, sep: string)
    requires a != []
    ensures sep + Join(Map(f, a + [v]), sep) == (sep + Join(Map(f, a), sep)) + (sep + f(v))
  {
    MapAppend(f, a, [v]);
    assert Map(f, [v]) == [f(v)];
    JoinAppend(Map(f, a), [f(v)], sep);
  }

  /** The exception `load_glyphs` raises lists, after its first line, one bullet per bad entry, in entry order. */
  lemma LoadMessageLists(entries: seq<RawEntry>)
    requires Problems(entries) != []
    ensures LoadMessage(InvalidEntries(Problems(entries))) == InvalidHeading + Bullets(Reports(entries))
  {
    LoadMessageOf(Reports(entries));
  }

  lemma LoadMessageOf(ps: seq<Option<EntryError>>)
    requires Somes(ps) != []
    ensures LoadMessage(InvalidEntries(Somes(ps))) == InvalidHeading + Bullets(ps)
  {
    var body := Join(Map(EntryMessage, Somes(ps)), BulletBreak);
    PrefixedJoin(ps, EntryMessage, BulletBreak);
    assert LoadMessage(InvalidEntries(Somes(ps))) == InvalidHeading + (BulletBreak + body);
  }

  /** The errors and the kept entries `load_glyphs` has collected so far. */
  datatype Collected = Collected(errors: seq<EntryError>, glyphs: seq<Fields>)

  /** One pass of the `each_with_index` block: the entry's problem is appended, or, if it has none and is a mapping, its fields. */
  function Visit(c: Collected, e: RawEntry, position: nat): (r: Collected)
    ensures r.errors == c.errors + OptionToSeq(Problem(e, position))
    ensures r.glyphs == c.glyphs + if Acceptable(e) then [e.fields] else []
  {
    match e
    case Nil => c
    case NotMapping => Collected(c.errors + [NotAMapping(position)], c.glyphs)
    case Mapping(f) =>
      var missing := Missing(f);
      if missing != [] then Collected(c.errors + [MissingKeys(Caption(f, position), missing)], c.glyphs)
      else Collected(c.errors, c.glyphs + [f])
  }

  /**
   * `load_glyphs` after parsing: walk the entries with 1-based positions,
   * skip `nil`, collect one error per bad entry, and abort if any error was
   * collected; otherwise return the kept entries.
   */
  method LoadGlyphs(root: YamlRoot) returns (r: Result<seq<Fields>, LoadError>)
    ensures root.OtherRoot? ==> r == Failure(RootNotSequence)
    ensures root.SequenceRoot? ==>
      (r.Failure? <==> exists i :: 0 <= i < |root.entries| && Problem(root.entries[i], i + 1).Some?)
    ensures root.SequenceRoot? && r.Failure? ==> r.error == InvalidEntries(Problems(root.entries))
    ensures r.Success? ==> root.SequenceRoot? && r.value == Mappings(root.entries)
  {
    if root.OtherRoot? {
      return Failure(RootNotSequence);
    }
    var entries := root.entries;
    var state := Collected([], []);
    var idx := 0;
    while idx < |entries|
      invariant 0 <= idx <= |entries|
      invariant state == Collected(Problems(entries[..idx]), Accepted(entries[..idx]))
    {
      LoadStep(entries, idx);
      state := Visit(state, entries[idx], idx + 1);
      idx := idx + 1;
    }
    assert entries[..idx] == entries;
    if state.errors != [] {
      return Failure(InvalidEntries(state.errors));
    }
    NoProblemsKeepsMappings(entries);
    return Success(state.glyphs);
  }

  /** What one more entry adds to the collected errors and to the kept entries: exactly one `Visit`. */
  lemma LoadStep(entries: seq<RawEntry>, n: nat)
    requires n < |entries|
    ensures Visit(Collected(Problems(entries[..n]), Accepted(entries[..n])), entries[n], n + 1)
      == Collected(Problems(entries[..n + 1]), Accepted(entries[..n + 1]))
    ensures var e, errors, kept := entries[n], Problems(entries[..n + 1]), Accepted(entries[..n + 1]);
      && (e.Nil? ==> errors == Problems(entries[..n]) && kept == Accepted(entries[..n]))
      && (e.NotMapping? ==> errors == Problems(entries[..n]) + [NotAMapping(n + 1)] && kept == Accepted(entries[..n]))
      && (e.Mapping? && Missing(e.fields) != [] ==>
            errors == Problems(entries[..n]) + [MissingKeys(Caption(e.fields, n + 1), Missing(e.fields))]
            && kept == Accepted(entries[..n]))
      && (e.Mapping? && Missing(e.fields) == [] ==>
            errors == Problems(entries[..n]) && kept == Accepted(entries[..n]) + [e.fields])
  {
    AcceptedStep(entries, n);
    ProblemsStep(entries, n);
  }

  /** Looking at one more entry appends its fields when it is kept. */
  lemma AcceptedStep(entries: seq<RawEntry>, n: nat)
    requires n < |entries|
    ensures Accepted(entries[..n + 1]) == Accepted(entries[..n]) + if Acceptable(entries[n]) then [entries[n].fields] else []
  {
    var e := entries[n];
    assert entries[..n + 1] == entries[..n] + [e];
    AcceptedAppend(entries[..n], [e]);
    var one := if Acceptable(e) then [e] else [];
    assert Filter([e], Acceptable) == one + Filter([e][1..], Acceptable);
    assert [e][1..] == [];
    assert Map(FieldsOf, one) == if Acceptable(e) then [e.fields] else [];
  }

  /** With no problem reported, the kept entries are all the mappings. */
  lemma NoProblemsKeepsMappings(entries: seq<RawEntry>)
    requires Problems(entries) == []
    ensures Accepted(entries) == Mappings(entries)
  {
    forall e | e in entries
      ensures e.Nil? || Acceptable(e)
    {
      var i :| 0 <= i < |entries| && entries[i] == e;
      assert Problem(entries[i], i + 1).None?;
    }
    AcceptedAll(entries);
  }

  /*
   * Cell formatting
   */

  /** The inside of `short_contract`'s backticks: up to 13 characters kept, else the first 6, `...`, the last 5. */
  function Abbreviate(value: string): (r: string)
    ensures |r| <= 14 && |r| <= |value|
    ensures |value| <= 13 ==> r == value
    ensures |value| > 13 ==>
      |r| == 14 && r[..6] == value[..6] && r[6..9] == "..." && r[9..] == value[|value| - 5..]
  {
    if |value| <= 13 then value else value[..6] + "..." + value[|value| - 5..]
  }

  /** `short_contract`: the stripped address, abbreviated, as inline code. */
  function ShortContract(addr: Value): (r: string)
    ensures 2 <= |r| <= 16 && r[0] == '`' && r[|r| - 1] == '`'
  {
    "`" + Abbreviate(Trim(Display(addr))) + "`"
  }

  /** Abbreviating keeps both ends of a stripped value, so its output is stripped too. */
  lemma AbbreviateTrimmed(value: string)
    requires Trimmed(value)
    ensures Trimmed(Abbreviate(value))
  {
    var r := Abbreviate(value);
    if |value| > 13 {
      assert r[0] == r[..6][0] == value[0];
      assert r[|r| - 1] == r[9..][4] == value[|value| - 1];
    }
  }

  /** Feeding the inside of a contract cell back through `short_contract` gives the same cell. */
  lemma ShortContractIdempotent(addr: Value)
    ensures ShortContract(Str(Abbreviate(Trim(Display(addr))))) == ShortContract(addr)
  {
    var value := Trim(Display(addr));
    var inner := Abbreviate(value);
    AbbreviateTrimmed(value);
    TrimTrimmed(inner);
    AbbreviateIdempotent(value);
  }

  lemma AbbreviateIdempotent(value: string)
    ensures Abbreviate(Abbreviate(value)) == Abbreviate(value)
  {
    var inner := Abbreviate(value);
    if |value| > 13 {
      assert inner == inner[..6] + "..." + inner[9..];
    }
  }

  /** Gluing two collapsed strings keeps them collapsed unless two whitespace characters meet. */
  lemma CollapsedAppend(a: string, b: string)
    requires Collapsed(a) && Collapsed(b)
    requires a == [] || b == [] || !IsSpace(a[|a| - 1]) || !IsSpace(b[0])
    ensures Collapsed(a + b)
  {
    var s := a + b;
    forall i, j | 0 <= i < j < |s| && j == i + 1
      ensures !IsSpace(s[i]) || !IsSpace(s[j])
    {
      if j < |a| {
        assert s[i] == a[i] && s[j] == a[j];
      } else if i >= |a| {
        assert s[i] == b[i - |a|] && s[j] == b[j - |a|];
      }
    }
  }

  /** `rstrip` of a collapsed string removes at most one character. */
  lemma TrimEndCollapsed(t: string)
    requires Collapsed(t)
    ensures |TrimEnd(t)| >= |t| - 1
    ensures |t| > 0 ==> (|TrimEnd(t)| == |t| - 1 <==> IsSpace(t[|t| - 1]))
  {
    var n := |t|;
    if n >= 2 && IsSpace(t[n - 1]) {
      assert !IsSpace(t[n - 2]);
      assert SkipSpaceBack(t, 0, n - 1) == n - 1;
    }
  }

  /** The cut `tidy_description` makes past the limit: 137 characters, right-stripped, then `...`. */
  function Truncate(clean: string): string
    requires |clean| > DescriptionMax
  {
    TrimEnd(clean[..DescriptionMax - 3]) + "..."
  }

  /** Cutting a tidy string stays tidy and loses one more character to `rstrip` exactly when the 137th is a space. */
  lemma TruncateTidy(clean: string)
    requires Collapsed(clean) && Trimmed(clean) && |clean| > DescriptionMax
    ensures var r := Truncate(clean);
      && DescriptionMax - 1 <= |r| <= DescriptionMax
      && Collapsed(r) && Trimmed(r)
      && r[|r| - 3..] == "..."
      && r[..|r| - 3] == clean[..|r| - 3]
      && (|r| == DescriptionMax - 1 <==> IsSpace(clean[DescriptionMax - 4]))
  {
    var t := clean[..DescriptionMax - 3];
    CollapsedSlice(clean, 0, DescriptionMax - 3);
    TrimEndCollapsed(t);
    var kept := TrimEnd(t);
    CollapsedSlice(t, 0, |kept|);
    CollapsedAppend(kept, "...");
    var r := kept + "...";
    assert r[..|r| - 3] == kept;
    assert r[|r| - 3..] == "...";
  }

  /** `tidy_description`: collapse whitespace, strip, and past 140 characters keep 137, right-stripped, plus `...`. */
  function TidyDescription(desc: string): (r: string)
    ensures |r| <= DescriptionMax
    ensures Collapsed(r) && Trimmed(r)
    ensures |Trim(Collapse(desc))| <= DescriptionMax ==> r == Trim(Collapse(desc))
    ensures |Trim(Collapse(desc))| > DescriptionMax ==>
      && DescriptionMax - 1 <= |r|
      && r[|r| - 3..] == "..."
      && r[..|r| - 3] == Trim(Collapse(desc))[..|r| - 3]
      && (|r| == DescriptionMax - 1 <==> IsSpace(Trim(Collapse(desc))[DescriptionMax - 4]))
  {
    var clean := Trim(Collapse(desc));
    CollapsedTrim(Collapse(desc));
    if |clean| <= DescriptionMax then clean
    else
      TruncateTidy(clean);
      Truncate(clean)
  }

  /** A tidied description is its own tidy form. */
  lemma TidyDescriptionIdempotent(desc: string)
    ensures TidyDescription(TidyDescription(desc)) == TidyDescription(desc)
  {
    var r := TidyDescription(desc);
    CollapseCollapsed(r);
    TrimTrimmed(r);
  }

  /** `escape_pipes`: a backslash before every `|`. */
  function EscapePipes(text: string): (r: string)
    ensures |r| >= |text|
    ensures r == text <==> '|' !in text
  {
    if text == [] then []
    else (if text[0] == '|' then "\\|" else [text[0]]) + EscapePipes(text[1..])
  }

  /** Drops the backslash of every `\|` pair, reading left to right. */
  function UnescapePipes(s: string): string {
    if s == [] then []
    else if |s| >= 2 && s[0] == '\\' && s[1] == '|' then "|" + UnescapePipes(s[2..])
    else [s[0]] + UnescapePipes(s[1..])
  }

  lemma {:induction false} EscapeNoLeadingPipe(text: string)
    ensures EscapePipes(text) == [] || EscapePipes(text)[0] != '|'
  {
  }

  /** Escaping only inserts backslashes: removing them gives the text back. */
  lemma {:induction false} EscapeRoundTrip(text: string)
    ensures UnescapePipes(EscapePipes(text)) == text
  {
    if text != [] {
      EscapeRoundTrip(text[1..]);
      EscapeNoLeadingPipe(text[1..]);
      var rest := EscapePipes(text[1..]);
      if text[0] == '|' {
        assert EscapePipes(text) == "\\|" + rest;
        assert ("\\|" + rest)[2..] == rest;
      } else {
        assert EscapePipes(text) == [text[0]] + rest;
        assert ([text[0]] + rest)[1..] == rest;
      }
      assert text == [text[0]] + text[1..];
    }
  }

  /**
   * Column delimiters of a Markdown table row: `|` characters not preceded by
   * a backslash. `escaped` says whether the character before `s` was one.
   */
  function Delimiters(s: string, escaped: bool): nat {
    if s == [] then 0
    else (if s[0] == '|' && !escaped then 1 else 0) + Delimiters(s[1..], s[0] == '\\')
  }

  /** Whether the character after `s` is escaped, given whether `s` was. */
  function EscapesNext(s: string, escaped: bool): bool {
    if s == [] then escaped else s[|s| - 1] == '\\'
  }

  lemma {:induction false} DelimitersAppend(a: string, b: string, escaped: bool)
    ensures Delimiters(a + b, escaped) == Delimiters(a, escaped) + Delimiters(b, EscapesNext(a, escaped))
  {
    if a == [] {
      assert a + b == b;
    } else {
      DelimitersAppend(a[1..], b, a[0] == '\\');
      assert (a + b)[1..] == a[1..] + b;
      if |a| > 1 {
        assert a[1..][|a| - 2] == a[|a| - 1];
      }
    }
  }

  /** An escaped text contributes no delimiter, wherever it stands. */
  lemma {:induction false} EscapedHasNoDelimiters(text: string, escaped: bool)
    ensures Delimiters(EscapePipes(text), escaped) == 0
  {
    if text != [] {
      EscapedHasNoDelimiters(text[1..], text[0] == '\\');
      EscapedHasNoDelimiters(text[1..], false);
      var rest := EscapePipes(text[1..]);
      if text[0] == '|' {
        assert EscapePipes(text) == "\\|" + rest;
        DelimitersAppend("\\|", rest, escaped);
      } else {
        assert EscapePipes(text) == [text[0]] + rest;
        DelimitersAppend([text[0]], rest, escaped);
      }
    }
  }

  /** `| a | b | ... |` without its leading `|`: each cell as ` cell |`. */
  function Cells(cells: seq<string>): string {
    if cells == [] then [] else " " + cells[0] + " |" + Cells(cells[1..])
  }

  /** A row has one delimiter per cell plus the opening one, and whatever the raw cells add. */
  lemma {:induction false} CellsDelimiters(cells: seq<string>, escaped: bool)
    ensures Delimiters(Cells(cells), escaped) == |cells| + SumDelimiters(cells)
  {
    if cells != [] {
      var c := cells[0];
      CellsDelimiters(cells[1..], false);
      assert Cells(cells) == " " + (c + (" |" + Cells(cells[1..])));
      DelimitersAppend(" ", c + (" |" + Cells(cells[1..])), escaped);
      DelimitersAppend(c, " |" + Cells(cells[1..]), false);
      DelimitersAppend(" |", Cells(cells[1..]), EscapesNext(c, false));
    }
  }

  function SumDelimiters(cells: seq<string>): nat {
    if cells == [] then 0 else Delimiters(cells[0], false) + SumDelimiters(cells[1..])
  }

  /** `[repo](url)`. */
  function RepoLink(url: string): string {
    "[repo](" + url + ")"
  }

  /** The five cells of a glyph's row; only the description is escaped. */
  function RowCells(g: Fields): (cells: seq<string>)
    ensures |cells| == 5
  {
    [ Display(Field(g, "name")),
      Display(Field(g, "network")),
      ShortContract(Field(g, "contract")),
      RepoLink(Display(Field(g, "repo"))),
      EscapePipes(TidyDescription(Display(Field(g, "description")))) ]
  }

  /** The interpolated row line `| name | network | contract | repo | description |`. */
  function RowLine(g: Fields): string {
    Row(RowCells(g))
  }

  function Row(c: seq<string>): string
    requires |c| == 5
  {
    "| " + c[0] + " | " + c[1] + " | " + c[2] + " | " + c[3] + " | " + c[4] + " |"
  }

  /** Five cells lay out as `|` followed by ` cell |` for each cell. */
  lemma CellsLayout(c: seq<string>)
    requires |c| == 5
    ensures Row(c) == "|" + Cells(c)
  {
    assert c[1..][1..][1..][1..][1..] == [];
    assert Cells(c[4..]) == " " + c[4] + " |";
    assert Cells(c[3..]) == " " + c[3] + " |" + Cells(c[4..]);
    assert Cells(c[2..]) == " " + c[2] + " |" + Cells(c[3..]);
    assert Cells(c[1..]) == " " + c[1] + " |" + Cells(c[2..]);
  }

  /**
   * A row has the header's six column delimiters exactly when the cells that
   * are not escaped (name, network, contract and repository link) hold no
   * unescaped `|`.
   */
  lemma RowLineDelimiters(g: Fields)
    ensures var c := RowCells(g);
      Delimiters(RowLine(g), false) ==
        6 + Delimiters(c[0], false) + Delimiters(c[1], false) + Delimiters(c[2], false) + Delimiters(c[3], false)
  {
    var c := RowCells(g);
    EscapedHasNoDelimiters(TidyDescription(Display(Field(g, "description"))), false);
    FiveCellDelimiters(c);
  }

  /**
   * A row starts with the raw name cell and ends with the escaped description cell, which holds
   * no column delimiter and unescapes to the tidy description.
   */
  lemma RowLineEnds(g: Fields)
    ensures var name := Display(Field(g, "name"));
      var d := TidyDescription(Display(Field(g, "description")));
      var cell := EscapePipes(d);
      && RowLine(g) == "| " + name + MiddleCells(RowCells(g)) + cell + " |"
      && Delimiters(cell, false) == 0 && UnescapePipes(cell) == d
  {
    var d := TidyDescription(Display(Field(g, "description")));
    assert RowLine(g) == "| " + Display(Field(g, "name")) + MiddleCells(RowCells(g)) + EscapePipes(d) + " |" by {
      RowEnds(RowCells(g));
    }
    EscapedHasNoDelimiters(d, false);
    EscapeRoundTrip(d);
  }

  /** What lies between the first and the last cell of a row. */
  function MiddleCells(c: seq<string>): string
    requires |c| == 5
  {
    " | " + c[1] + " | " + c[2] + " | " + c[3] + " | "
  }

  /** Five cells lay out as the first after the opening `| `, the middle ones, and the last before the closing ` |`. */
  lemma RowEnds(c: seq<string>)
    requires |c| == 5
    ensures Row(c) == "| " + c[0] + MiddleCells(c) + c[4] + " |"
  {
  }

  lemma FiveCellDelimiters(c: seq<string>)
    requires |c| == 5 && Delimiters(c[4], false) == 0
    ensures Delimiters(Row(c), false) ==
      6 + Delimiters(c[0], false) + Delimiters(c[1], false) + Delimiters(c[2], false) + Delimiters(c[3], false)
  {
    CellsLayout(c);
    DelimitersAppend("|", Cells(c), false);
    CellsDelimiters(c, false);
    assert SumDelimiters(c[4..]) == Delimiters(c[4], false) by {
      assert c[4..][1..] == [];
    }
    assert SumDelimiters(c[3..]) == Delimiters(c[3], false) + SumDelimiters(c[4..]);
    assert SumDelimiters(c[2..]) == Delimiters(c[2], false) + SumDelimiters(c[3..]);
    assert SumDelimiters(c[1..]) == Delimiters(c[1], false) + SumDelimiters(c[2..]);
  }

  /*
   * Kind order
   */

  /** `order & keys`: the members of `order` that occur in `keys`, in the order of `order`. */
  function Intersect(order: seq<string>, keys: seq<string>): seq<string> {
    Filter(order, k => k in keys)
  }

  /** `KIND_ORDER & keys`: the listed kinds that occur, each once, in priority order. */
  lemma IntersectSpec(keys: seq<string>)
    ensures forall k :: k in Intersect(KindOrder, keys) <==> k in KindOrder && k in keys
    ensures Distinct(Intersect(KindOrder, keys))
    ensures SortedBy(Intersect(KindOrder, keys), KindLe)
  {
    var p := k => k in keys;
    FilterMembers(KindOrder, p);
    KindOrderDistinct();
    FilterDistinct(KindOrder, p);
    KindOrderSorted();
    FilterSorted(KindOrder, p, KindLe);
  }

  /** `keys - KIND_ORDER`: the unlisted kinds, in their order of appearance. */
  function Unlisted(keys: seq<string>): (r: seq<string>)
    ensures forall k :: multiset(r)[k] == if k !in KindOrder then multiset(keys)[k] else 0
  {
    FilterCounts(keys, k => k !in KindOrder);
    Filter(keys, k => k !in KindOrder)
  }

  /** `ordered_kinds`: the listed kinds that occur, in priority order, then the others sorted. */
  function OrderedKinds(keys: seq<string>): (r: seq<string>)
    requires Distinct(keys)
    ensures Distinct(r)
    ensures forall k :: k in r <==> k in keys
    ensures SortedBy(r, KindLe)
  {
    var known := Intersect(KindOrder, keys);
    var unknown := Unlisted(keys);
    StrLeIsTotalOrder();
    var sorted := Sort(unknown, StrLe);
    OrderedKindsSpec(keys, known, unknown, sorted);
    known + sorted
  }

  lemma OrderedKindsSpec(keys: seq<string>, known: seq<string>, unknown: seq<string>, sorted: seq<string>)
    requires Distinct(keys)
    requires known == Intersect(KindOrder, keys) && unknown == Unlisted(keys)
    requires SortedBy(sorted, StrLe) && multiset(sorted) == multiset(unknown)
    ensures Distinct(known + sorted)
    ensures forall k :: k in known + sorted <==> k in keys
    ensures SortedBy(known + sorted, KindLe)
  {
    IntersectSpec(keys);
    DistinctCounts(keys);
    CountsDistinct(unknown);
    PermutationDistinct(sorted, unknown);
    assert forall k :: k in sorted <==> k in keys && k !in KindOrder by {
      forall k
        ensures k in sorted <==> k in keys && k !in KindOrder
      {
        assert k in sorted <==> k in multiset(sorted);
        assert k in unknown <==> k in multiset(unknown);
        assert k in keys <==> k in multiset(keys);
      }
    }
    DistinctAppend(known, sorted);
    assert SortedBy(sorted, KindLe) by {
      forall i, j | 0 <= i < j < |sorted|
        ensures KindLe(sorted[i], sorted[j])
      {
        assert Rank(sorted[i]) == Rank(sorted[j]);
      }
    }
    forall x, y | x in known && y in sorted
      ensures KindLe(x, y)
    {
      assert Rank(x) < |KindOrder| == Rank(y);
    }
    SortedAppend(known, sorted, KindLe);
  }

  /*
   * Tables
   */

  /** `g["kind"].to_s.strip.downcase`: the grouping key. */
  function KindKey(g: Fields): string {
    Lower(Trim(Display(Field(g, "kind"))))
  }

  /** `g["name"].downcase`: the sort key, the raw name lower-cased (a string name is assumed). */
  function NameKey(g: Fields): string {
    Lower(Display(Field(g, "name")))
  }

  predicate NameLe(a: Fields, b: Fields) {
    StrLe(NameKey(a), NameKey(b))
  }

  lemma NameLeIsTotalPreorder()
    ensures IsTotalPreorder(NameLe)
  {
    forall a: Fields, b: Fields
      ensures NameLe(a, b) || NameLe(b, a)
    {
      StrLeTotal(NameKey(a), NameKey(b));
    }
    forall a: Fields, b: Fields, c: Fields
      ensures TransitiveAt(NameLe, a, b, c)
    {
      if NameLe(a, b) && NameLe(b, c) {
        StrLeTransitive(NameKey(a), NameKey(b), NameKey(c));
      }
    }
  }

  /** One kind's heading and its members in row order. */
  datatype Block = Block(kind: string, members: seq<Fields>)

  /** The lines of one block, before `join("\n")`. */
  function BlockLines(b: Block): (lines: seq<string>)
    ensures |lines| == |b.members| + 5
  {
    ["### " + b.kind, "", Header, Separator] + Map(RowLine, b.members) + [""]
  }

  function BlockText(b: Block): string {
    Join(BlockLines(b), "\n")
  }

  /**
   * A block's text is its heading, a blank line, the header and separator lines and one line per
   * row, each ended by a line break; so it always ends with one.
   */
  lemma BlockTextShape(b: Block)
    ensures var head := "### " + b.kind + "\n\n" + Header + "\n" + Separator + "\n";
      var rows := Map(RowLine, b.members);
      BlockText(b) == head + if rows == [] then "" else Join(rows, "\n") + "\n"
    ensures BlockText(b)[|BlockText(b)| - 1] == '\n'
  {
    var rows := Map(RowLine, b.members);
    var top := ["### " + b.kind, "", Header, Separator];
    var head := "### " + b.kind + "\n\n" + Header + "\n" + Separator;
    assert BlockText(b) == Join(top + rows + [""], "\n");
    assert Join(top, "\n") == head by {
      HeadingLines(b.kind);
    }
    LinesEndBlank(top, rows, "\n");
  }

  lemma HeadingLines(kind: string)
    ensures Join(["### " + kind, "", Header, Separator], "\n") == "### " + kind + "\n\n" + Header + "\n" + Separator
  {
    var top := ["### " + kind, "", Header, Separator];
    assert Join(top[3..], "\n") == Separator;
    assert Join(top[2..], "\n") == Header + "\n" + Separator;
    assert Join(top[1..], "\n") == "" + "\n" + (Header + "\n" + Separator);
  }

  /** Lines ending in an empty one join to text where every line, the last real one included, ends with `sep`. */
  lemma LinesEndBlank<T>(top: seq<seq<T>>, rows: seq<seq<T>>, sep: seq<T>)
    requires top != []
    ensures Join(top + rows + [[]], sep) == Join(top, sep) + sep + if rows == [] then [] else Join(rows, sep) + sep
  {
    if rows == [] {
      assert top + rows + [[]] == top + [[]];
      JoinAppend(top, [[]], sep);
    } else {
      assert top + rows + [[]] == top + (rows + [[]]);
      JoinAppend(top, rows + [[]], sep);
      JoinAppend(rows, [[]], sep);
    }
  }

  /** `entries.sort_by { |g| g["name"].downcase }` for one kind's entries. */
  function SortedGroup(glyphs: seq<Fields>, kind: string): (ms: seq<Fields>)
    ensures SortedBy(ms, NameLe)
    ensures forall g :: multiset(ms)[g] == if KindKey(g) == kind then multiset(glyphs)[g] else 0
  {
    NameLeIsTotalPreorder();
    Sort(Group(glyphs, KindKey, kind), NameLe)
  }

  /** `kind_order.map`: one candidate block per kind, before empty ones are dropped. */
  function Candidates(glyphs: seq<Fields>, kinds: seq<string>): (bs: seq<Block>)
    ensures |bs| == |kinds|
    ensures forall i :: 0 <= i < |kinds| ==> bs[i] == Block(kinds[i], SortedGroup(glyphs, kinds[i]))
  {
    Map((k: string) => Block(k, SortedGroup(glyphs, k)), kinds)
  }

  /** `next if entries.nil? || entries.empty?` followed by `compact`. */
  function Compact(bs: seq<Block>): (r: seq<Block>)
    ensures forall b :: b in r ==> b in bs && b.members != []
  {
    if bs == [] then [] else (if bs[0].members == [] then [] else [bs[0]]) + Compact(bs[1..])
  }

  /** The blocks `render_tables` emits, in order. */
  function TableBlocks(glyphs: seq<Fields>): seq<Block> {
    Compact(Candidates(glyphs, OrderedKinds(Keys(glyphs, KindKey))))
  }

  /** `downcase` is undefined on a name YAML read as a number or boolean: the script dies. */
  datatype RenderError = NameNotText

  /** Every kept entry's name is a string, so the sort key can be computed. */
  predicate NamesAreText(glyphs: seq<Fields>) {
    forall g :: g in glyphs ==> Field(g, "name").Str?
  }

  /** `render_tables`: the blocks joined by newlines, or the failure of `downcase`. */
  function RenderTables(glyphs: seq<Fields>): (r: Result<string, RenderError>)
    ensures r.Failure? <==> exists g :: g in glyphs && !Field(g, "name").Str?
    ensures r.Success? ==> r.value == Join(Map(BlockText, TableBlocks(glyphs)), "\n")
  {
    if !NamesAreText(glyphs) then Failure(NameNotText)
    else Success(Join(Map(BlockText, TableBlocks(glyphs)), "\n"))
  }

  function KindsOf(bs: seq<Block>): seq<string> {
    Map((b: Block) => b.kind, bs)
  }

  /** The members of the blocks, one block after the other. */
  function AllMembers(bs: seq<Block>): seq<Fields> {
    if bs == [] then [] else bs[0].members + AllMembers(bs[1..])
  }

  /** Dropping empty blocks changes nothing when there are none. */
  lemma {:induction false} CompactKeepsAll(bs: seq<Block>)
    requires forall i :: 0 <= i < |bs| ==> bs[i].members != []
    ensures Compact(bs) == bs
  {
    if bs != [] {
      CompactKeepsAll(bs[1..]);
    }
  }

  /** Dropping empty blocks drops no member. */
  lemma {:induction false} CompactMembers(bs: seq<Block>)
    ensures AllMembers(Compact(bs)) == AllMembers(bs)
  {
    if bs != [] {
      CompactMembers(bs[1..]);
      var rest := Compact(bs[1..]);
      if bs[0].members != [] {
        assert Compact(bs) == [bs[0]] + rest;
        assert ([bs[0]] + rest)[1..] == rest;
      } else {
        assert Compact(bs) == rest;
        assert AllMembers(bs) == [] + AllMembers(bs[1..]);
      }
    }
  }

  /** `render_tables` emits one block per kind, in `ordered_kinds` order: every kind has entries. */
  lemma TableBlocksKinds(glyphs: seq<Fields>)
    ensures KindsOf(TableBlocks(glyphs)) == OrderedKinds(Keys(glyphs, KindKey))
  {
    var keys := Keys(glyphs, KindKey);
    var kinds := OrderedKinds(keys);
    var bs := Candidates(glyphs, kinds);
    forall i | 0 <= i < |bs|
      ensures bs[i].members != []
    {
      GroupOfKeyNonEmpty(glyphs, KindKey, kinds[i]);
      var gs := Group(glyphs, KindKey, kinds[i]);
      assert gs[0] in multiset(gs);
      assert gs[0] in multiset(bs[i].members);
    }
    CompactKeepsAll(bs);
    assert KindsOf(bs) == kinds;
  }

  /** Each block holds exactly the entries of its kind, sorted by lower-cased name. */
  lemma TableBlocksMembers(glyphs: seq<Fields>)
    ensures forall b :: b in TableBlocks(glyphs) ==>
      && SortedBy(b.members, NameLe)
      && forall g :: multiset(b.members)[g] == if KindKey(g) == b.kind then multiset(glyphs)[g] else 0
  {
    var kinds := OrderedKinds(Keys(glyphs, KindKey));
    var bs := Candidates(glyphs, kinds);
    forall b | b in TableBlocks(glyphs)
      ensures b == Block(b.kind, SortedGroup(glyphs, b.kind))
    {
      assert b in bs;
    }
  }

  lemma {:induction false} CandidatesCollect(glyphs: seq<Fields>, kinds: seq<string>)
    ensures multiset(AllMembers(Candidates(glyphs, kinds))) == multiset(Collect(glyphs, KindKey, kinds))
  {
    if kinds != [] {
      CandidatesCollect(glyphs, kinds[1..]);
      var bs := Candidates(glyphs, kinds);
      assert bs[1..] == Candidates(glyphs, kinds[1..]);
      var ms, gs := SortedGroup(glyphs, kinds[0]), Group(glyphs, KindKey, kinds[0]);
      assert multiset(ms) == multiset(gs) by {
        assert forall g :: multiset(ms)[g] == multiset(gs)[g];
      }
    }
  }

  /** Every kept entry appears in exactly one block, once: the blocks partition the entries. */
  lemma TableBlocksPartition(glyphs: seq<Fields>)
    ensures multiset(AllMembers(TableBlocks(glyphs))) == multiset(glyphs)
  {
    var kinds := OrderedKinds(Keys(glyphs, KindKey));
    CompactMembers(Candidates(glyphs, kinds));
    CandidatesCollect(glyphs, kinds);
    CollectPartition(glyphs, KindKey, kinds);
  }

  /** The rendered text is the blocks' lines, one after the other, joined by newlines. */
  lemma RenderedLines(glyphs: seq<Fields>)
    requires NamesAreText(glyphs)
    ensures RenderTables(glyphs).value == Join(Concat(Map(BlockLines, TableBlocks(glyphs))), "\n")
  {
    var bs := TableBlocks(glyphs);
    var groups := Map(BlockLines, bs);
    JoinConcat(groups, "\n");
    var f := (g: seq<string>) => Join(g, "\n");
    assert Map(f, groups) == Map(BlockText, bs);
  }

  /**
   * What `render_tables` produces: it fails exactly when some name is not text; otherwise its
   * lines are, kind by kind in `ordered_kinds` order, a heading, the table header and the rows
   * of exactly that kind's entries sorted by lower-cased name, and every entry appears once.
   */
  lemma RenderTablesSpec(glyphs: seq<Fields>)
    ensures RenderTables(glyphs).Failure? <==> exists g :: g in glyphs && !Field(g, "name").Str?
    ensures RenderTables(glyphs).Success? ==> var bs := TableBlocks(glyphs);
      && RenderTables(glyphs).value == Join(Concat(Map(BlockLines, bs)), "\n")
      && KindsOf(bs) == OrderedKinds(Keys(glyphs, KindKey))
      && (forall b :: b in bs ==>
        && BlockLines(b) == ["### " + b.kind, "", Header, Separator] + Map(RowLine, b.members) + [""]
        && SortedBy(b.members, NameLe)
        && forall g :: multiset(b.members)[g] == if KindKey(g) == b.kind then multiset(glyphs)[g] else 0)
      && multiset(AllMembers(bs)) == multiset(glyphs)
  {
    if NamesAreText(glyphs) {
      RenderedLines(glyphs);
      TableBlocksKinds(glyphs);
      TableBlocksMembers(glyphs);
      TableBlocksPartition(glyphs);
    }
  }

  /*
   * Splicing into the README
   */

  /** The text that replaces a marked span: the markers around the block, with the script's line breaks. */
  function Wrap(start: string, end: string, block: string): string {
    start + Padded(block) + end
  }

  /** The block with the blank line before it and the line break after it. */
  function Padded(block: string): string {
    "\n\n" + block + "\n"
  }

  /** The text that replaces the README's marked span. */
  function Replacement(block: string): string {
    Wrap(StartMarker, EndMarker, block)
  }

  datatype ReplaceError = MarkersMissing

  /**
   * `replace_table` for any pair of markers: abort unless both occur;
   * otherwise replace the first start marker and the nearest end marker
   * after it, with everything between them. When no end marker follows the
   * first start marker, `sub` finds no match and the content comes back
   * unchanged.
   */
  function Splice(content: string, start: string, end: string, block: string): (r: Result<string, ReplaceError>)
    ensures r.Failure? <==> !Contains(content, start) || !Contains(content, end)
  {
    if !Contains(content, start) || !Contains(content, end) then Failure(MarkersMissing)
    else
      FindContains(content, start);
      var i := Find(content, start, 0).value;
      match Find(content, end, i + |start|)
      case None => Success(content)
      case Some(j) => Success(content[..i] + Wrap(start, end, block) + content[j + |end|..])
  }

  /** `replace_table` with the README's markers. */
  function ReplaceTable(content: string, block: string): (r: Result<string, ReplaceError>)
    ensures r.Failure? <==> !Contains(content, StartMarker) || !Contains(content, EndMarker)
  {
    Splice(content, StartMarker, EndMarker, block)
  }

  /**
   * When an end marker follows the first start marker, the text before that
   * start marker and after the nearest such end marker is kept verbatim, and
   * the span between becomes the wrapped block.
   */
  lemma SpliceParts(content: string, start: string, end: string, block: string)
    requires start != [] && Contains(content, start) && Contains(content, end)
    ensures var i := Find(content, start, 0).value;
      var r := Splice(content, start, end, block).value;
      var w := Wrap(start, end, block);
      match Find(content, end, i + |start|)
      case None => r == content
      case Some(j) =>
        && !Contains(content[..i + |start| - 1], start)
        && r[..i] == content[..i]
        && r[i..i + |w|] == w
        && r[i + |w|..] == content[j + |end|..]
  {
    FindContains(content, start);
    var i := Find(content, start, 0).value;
    var pre := content[..i + |start| - 1];
    forall k | 0 <= k && k + |start| <= |pre|
      ensures !OccursAt(pre, start, k)
    {
      assert pre[k..k + |start|] == content[k..k + |start|];
      assert !OccursAt(content, start, k);
    }
  }

  lemma ReplaceTableSplices(content: string, block: string)
    requires Contains(content, StartMarker) && Contains(content, EndMarker)
    ensures var i := Find(content, StartMarker, 0).value;
      var r := ReplaceTable(content, block).value;
      var w := Replacement(block);
      match Find(content, EndMarker, i + |StartMarker|)
      case None => r == content
      case Some(j) =>
        && !Contains(content[..i + |StartMarker| - 1], StartMarker)
        && r[..i] == content[..i]
        && r[i..i + |w|] == w
        && r[i + |w|..] == content[j + |EndMarker|..]
  {
    SpliceParts(content, StartMarker, EndMarker, block);
  }

  /** A marker opens with `<` and holds no other `<`, so two occurrences cannot overlap. */
  predicate MarkerLike(m: string) {
    m != [] && m[0] == '<' && forall d :: 0 < d < |m| ==> m[d] != '<'
  }

  predicate LineFree(m: string) {
    forall d :: 0 <= d < |m| ==> m[d] != '\n'
  }

  lemma MarkerShapes()
    ensures MarkerLike(StartMarker) && MarkerLike(EndMarker) && LineFree(EndMarker)
  {
  }

  /** Before a first start marker that is still in place, a splice cannot create an earlier one. */
  lemma FirstStartKept(content: string, t: string, start: string, i: nat)
    requires MarkerLike(start)
    requires Find(content, start, 0) == Some(i)
    requires i + |start| <= |t| && t[..i] == content[..i] && t[i..i + |start|] == start
    ensures Find(t, start, 0) == Some(i)
  {
    var n := |start|;
    forall m | 0 <= m < i && m + n <= |t|
      ensures !OccursAt(t, start, m)
    {
      if m + n <= i {
        assert t[m..m + n] == content[m..m + n] by {
          forall k | m <= k < m + n
            ensures t[k] == content[k]
          {
            assert t[k] == t[..i][k];
          }
        }
        assert !OccursAt(content, start, m);
      } else {
        assert t[i] == t[i..i + n][0] == '<';
        assert t[m..m + n][i - m] == t[i];
        assert start[i - m] != '<';
      }
    }
    assert OccursAt(t, start, i);
    FindIs(t, start, 0, i);
  }

  /** After the start marker, the first end marker is the one the wrapped block ends with. */
  lemma FirstEndIsOwn(t: string, lo: nat, end: string, block: string)
    requires MarkerLike(end) && LineFree(end) && !Contains(block, end)
    requires var mid := Padded(block);
      lo + |mid| + |end| <= |t| && t[lo..lo + |mid|] == mid
      && t[lo + |mid|..lo + |mid| + |end|] == end
    ensures Find(t, end, lo) == Some(lo + |Padded(block)|)
  {
    var mid := Padded(block);
    var n := |end|;
    var q := lo + |mid|;
    forall m | lo <= m < q && m + n <= |t|
      ensures !OccursAt(t, end, m)
    {
      var w := t[m..m + n];
      if m < lo + 2 {
        assert w[0] == t[m] == mid[m - lo] == '\n';
      } else if m + n <= lo + 2 + |block| {
        var b := m - lo - 2;
        assert w == block[b..b + n] by {
          forall d | 0 <= d < n
            ensures w[d] == block[b + d]
          {
            assert w[d] == t[m + d] == mid[m + d - lo];
          }
        }
        assert !OccursAt(block, end, b);
      } else {
        var p := lo + 2 + |block|;
        assert w[p - m] == t[p] == mid[p - lo] == '\n';
      }
    }
    assert t[q..q + n] == end;
    FindIs(t, end, lo, q);
  }

  /** Where the two searches land determines the splice. */
  lemma SpliceAt(t: string, start: string, end: string, block: string, i: nat, j: nat)
    requires Find(t, start, 0) == Some(i)
    requires Find(t, end, i + |start|) == Some(j)
    ensures Splice(t, start, end, block) == Success(t[..i] + Wrap(start, end, block) + t[j + |end|..])
  {
    assert Contains(t, start) by {
      assert OccursAt(t, start, i);
    }
    assert Contains(t, end) by {
      assert OccursAt(t, end, j);
    }
    assert Find(t, start, 0).value == i;
  }

  /** Where the padded block and the end marker sit in a text holding the wrapped block. */
  lemma WrapPieces(pre: string, start: string, end: string, block: string, suffix: string)
    ensures var t, lo, mid := pre + Wrap(start, end, block) + suffix, |pre| + |start|, Padded(block);
      && lo + |mid| + |end| <= |t|
      && t[lo..lo + |mid|] == mid && t[lo + |mid|..lo + |mid| + |end|] == end
  {
    SlicePieces(pre, start, Padded(block), end, suffix);
  }

  /** The first end marker after the start marker of a wrapped block closes that block. */
  lemma WrapEndFound(pre: string, start: string, end: string, block: string, suffix: string)
    requires MarkerLike(end) && LineFree(end) && !Contains(block, end)
    ensures Find(pre + Wrap(start, end, block) + suffix, end, |pre| + |start|) == Some(|pre| + |start| + |Padded(block)|)
  {
    WrapPieces(pre, start, end, block, suffix);
    FirstEndIsOwn(pre + Wrap(start, end, block) + suffix, |pre| + |start|, end, block);
  }

  /** In a text holding the wrapped block, the end marker found after the start marker is the block's own. */
  lemma EndAfterWrap(pre: string, start: string, end: string, block: string, suffix: string)
    requires MarkerLike(end) && LineFree(end) && !Contains(block, end)
    ensures var t := pre + Wrap(start, end, block) + suffix;
      var n := |pre| + |Wrap(start, end, block)|;
      && Find(t, end, |pre| + |start|) == Some(n - |end|)
      && t[..|pre|] == pre && t[n..] == suffix
  {
    WrapEndFound(pre, start, end, block, suffix);
    SlicePieces(pre, start, Padded(block), end, suffix);
  }

  /** A text already holding the wrapped block right after its first start marker splices back to itself. */
  lemma SplicedAgain(pre: string, start: string, end: string, block: string, suffix: string)
    requires MarkerLike(end) && LineFree(end) && !Contains(block, end)
    requires Find(pre + Wrap(start, end, block) + suffix, start, 0) == Some(|pre|)
    ensures var t := pre + Wrap(start, end, block) + suffix;
      Splice(t, start, end, block) == Success(t)
  {
    var t := pre + Wrap(start, end, block) + suffix;
    EndAfterWrap(pre, start, end, block, suffix);
    SpliceAt(t, start, end, block, |pre|, |pre| + |Wrap(start, end, block)| - |end|);
  }

  /** Splicing again with the same block changes nothing, provided the block holds no end marker. */
  lemma SpliceIdempotent(content: string, start: string, end: string, block: string)
    requires MarkerLike(start) && MarkerLike(end) && LineFree(end)
    requires Splice(content, start, end, block).Success?
    requires !Contains(block, end)
    ensures Splice(Splice(content, start, end, block).value, start, end, block) == Splice(content, start, end, block)
  {
    FindContains(content, start);
    var i := Find(content, start, 0).value;
    match Find(content, end, i + |start|)
    case None =>
    case Some(j) =>
      var pre, suffix := content[..i], content[j + |end|..];
      var t := pre + Wrap(start, end, block) + suffix;
      assert Splice(content, start, end, block) == Success(t) by {
        SpliceAt(content, start, end, block, i, j);
      }
      assert Find(t, start, 0) == Some(|pre|) by {
        SlicePieces(pre, start, Padded(block), end, suffix);
        FirstStartKept(content, t, start, i);
      }
      SplicedAgain(pre, start, end, block, suffix);
  }

  /** Regenerating the README with the same table leaves it unchanged. */
  lemma ReplaceTableIdempotent(content: string, block: string)
    requires ReplaceTable(content, block).Success?
    requires !Contains(block, EndMarker)
    ensures ReplaceTable(ReplaceTable(content, block).value, block) == ReplaceTable(content, block)
  {
    MarkerShapes();
    SpliceIdempotent(content, StartMarker, EndMarker, block);
  }
}
