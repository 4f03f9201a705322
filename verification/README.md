# Glyph registry pipeline, in Dafny

The glyph registry is a YAML list of on-chain "glyphs". Each entry has a
name, kind, contract address, network, repository and description. Two
scripts read that list:

- `docs/glyphs.js` is the browser viewer. It drops entries missing a
  required key, normalises the rest, groups them by kind and renders one
  HTML table per kind.
- `scripts/gen_glyph_table.rb` is the README generator. It rejects the whole
  file if any entry is malformed, renders one Markdown table per kind, and
  splices the tables between two marker comments in the README.

The project models both scripts as pure functions over an abstract YAML
value (`Registry.Value`, `Registry.RawEntry`) and proves what each promises.
It also proves where the two agree and where they deliberately differ.

Modules, in dependency order:

- `Base`: `Option` and `Result`.
- `Seqs`: sequence helpers.
- `Sorting`: ordinal string order, insertion sort, uniqueness of a sorted arrangement.
- `Text`: `trim`/`strip`, whitespace collapsing, ASCII lower-casing, substring search, decimal rendering.
- `Grouping`: `group_by` and a `Map` keyed in first-seen order.
- `Registry`: the raw input and the constants both scripts declare.
- `GlyphsJs`: the viewer.
- `GlyphTable`: the generator.
- `Agreement`: lemmas relating the two.

Two modelling choices matter when reading the contracts:

- The DOM becomes a `GlyphsJs.View`: either the error notice, or a list of sections. Each section is a kind and its rows.
- Raising in Ruby becomes a `Failure` of a `Result`. Loading, rendering and replacing each have their own error datatype.

Behaviour that follows the code where a plain description of the scripts
would say otherwise:

- The generator escapes pipes in the description cell only. The name, network and repository are printed raw, so a `|` in them adds a column. `GlyphTable.RowLineDelimiters` states exactly how many column delimiters a row has.
- `sort_by { |g| g["name"].downcase }` raises when a kept entry's name is not a string (for instance a number), and `GlyphTable.RenderTables` fails exactly then. The sort key is the raw name, lower-cased but not trimmed.
- `shortenAddress` turns a 13- or 14-character `0x` string into a 15-character one. The result is longer than the input, and the model keeps this.
- The viewer's `(desc || "")` sends a falsy description (`false`, `0`, `NaN`) to the empty string. Such an entry passes validation, because the check looks at the printed form. So a valid entry can have an empty description, which `GlyphsJs.NormaliseSpec` states.
- In the generator, when an end marker exists only before the first start marker, `sub` finds no match and the README comes back unchanged. No error is raised.

## Model

| member | source | states |
|---|---|---|
| GlyphsJs.ShortenAddress | docs/glyphs.js:8-12 | Result is the trimmed input unless it starts with `0x` and is longer than 12 characters; then it is exactly the first 8 characters, an ellipsis and the last 6 |
| GlyphsJs.ShortenAddressIdempotent | docs/glyphs.js:8-12 | Shortening an already shortened address changes nothing |
| GlyphsJs.TidyDescription | docs/glyphs.js:14-18 | At most 140 characters, no whitespace runs, no edge whitespace; equal to the collapsed trimmed text when that fits, else its first 139 characters and an ellipsis |
| GlyphsJs.TidyDescriptionIdempotent | docs/glyphs.js:14-18 | Tidying a tidied description changes nothing |
| GlyphsJs.TidyDescriptionKeepsText | docs/glyphs.js:14-18 | Apart from whitespace, the tidy text is the original text, or a prefix of it when cut |
| GlyphsJs.IsValidSpec | docs/glyphs.js:20-26 | An entry is valid iff it is a mapping and none of the six required keys is absent, null or blank |
| GlyphsJs.AllPresentSound | docs/glyphs.js:22-25 | The `every` walk over the keys succeeds iff each key is present |
| GlyphsJs.NormaliseSpec | docs/glyphs.js:28-37 | A valid entry becomes a record whose first five fields are trimmed and non-empty, whose kind is lower case, and whose description is tidy; that description is empty iff the raw one is JavaScript-falsy |
| GlyphsJs.NormaliseFixpoint | docs/glyphs.js:28-37 | A normalised record with a non-empty description, fed back as an entry, is valid and normalises to itself |
| GlyphsJs.ValidGlyphsKeeps | docs/glyphs.js:40-47 | The loop's result is, position by position, the normal form of each valid entry in entry order, with nothing else; so it is empty iff no entry is valid |
| GlyphsJs.ValidGlyphsWellFormed | docs/glyphs.js:40-47 | Every record the loop keeps is well formed, with a lower-case kind |
| GlyphsJs.KindCompareOrder | docs/glyphs.js:61-68 | The kind comparator puts `a` first iff `a` ranks before `b` by the fixed kind list, unlisted kinds last and ordered among themselves |
| GlyphsJs.KindComesFirstIsTotalOrder | docs/glyphs.js:61-68 | The kind comparator is a total, transitive, antisymmetric order |
| GlyphsJs.SortKinds | docs/glyphs.js:61-68 | The sorted kinds are the distinct input kinds, each once, in kind order |
| GlyphsJs.ValidKinds | docs/glyphs.js:54-68 | The section kinds are exactly the kinds of the valid records, each once, in kind order |
| GlyphsJs.Members | docs/glyphs.js:72-75 | A kind's list holds exactly the records with that grouping key, with multiplicity, sorted by lower-cased name |
| GlyphsJs.RowOf | docs/glyphs.js:102-111 | A row carries the name, network and description as they are, the contract shortened, and a link to the repository labelled "repo" |
| GlyphsJs.RenderGlyphs | docs/glyphs.js:39-118 | Error notice iff no entry is valid; otherwise the sections have distinct kinds in kind order, exactly the kinds of valid records, and together list each valid record's row exactly once |
| GlyphsJs.SectionContents | docs/glyphs.js:72-113 | Each section's rows are the rows of that kind's records, sorted by lower-cased name, each with its multiplicity |
| GlyphsJs.RowsPermutation | docs/glyphs.js:54-113 | The rows of all sections are a permutation of the rows of all valid records |
| GlyphTable.MissingInOrder | scripts/gen_glyph_table.rb:28 | A key is reported missing iff it is required and absent, nil or blank; each once, in declaration order |
| GlyphTable.CaptionNamesPosition | scripts/gen_glyph_table.rb:30 | With a nil or false name the message names the entry by its 1-based position, which reads back as that number |
| GlyphTable.CaptionUsesName | scripts/gen_glyph_table.rb:30 | Otherwise the message names the entry by its name |
| GlyphTable.Problem | scripts/gen_glyph_table.rb:22-33 | No problem iff the entry is nil or a complete mapping; a non-mapping reports its position; an incomplete mapping reports its caption and missing keys |
| GlyphTable.Problems | scripts/gen_glyph_table.rb:21-36 | The collected errors are empty iff no entry has a problem, and hold exactly the entries' problems |
| GlyphTable.AcceptedMembers | scripts/gen_glyph_table.rb:35 | Every kept entry is complete, and every complete mapping is kept |
| GlyphTable.NoProblemsKeepsMappings | scripts/gen_glyph_table.rb:21-36 | When no entry has a problem, the kept entries are exactly the mappings, in order |
| GlyphTable.AcceptedAppend | scripts/gen_glyph_table.rb:21-36 | Keeping works entry by entry, so order is preserved across concatenation |
| GlyphTable.Visit | scripts/gen_glyph_table.rb:21-33 | One pass of the entry loop appends the entry's problem, if it has one, to the errors, and the entry's fields to the kept entries exactly when it is a complete mapping |
| GlyphTable.LoadStep | scripts/gen_glyph_table.rb:21-33 | After a prefix of the entries, one more pass gives the problems and kept entries of the longer prefix: nil adds nothing, a non-mapping its position, an incomplete mapping its caption and keys, a complete one its fields |
| GlyphTable.EntryMessagePosition | scripts/gen_glyph_table.rb:24 | A non-mapping's message is `Entry <n> is not a mapping`, and the number in it reads back as the entry's position |
| GlyphTable.LoadMessageLists | scripts/gen_glyph_table.rb:31-38 | When some entry has a problem, the raised message is its first line followed by one `- ` bullet line per bad entry, in entry order |
| GlyphTable.LoadGlyphs | scripts/gen_glyph_table.rb:14-40 | A non-sequence root fails; otherwise loading fails iff some entry has a problem, reporting all problems in order, and success returns every mapping in order |
| GlyphTable.Abbreviate | scripts/gen_glyph_table.rb:48-53 | Values of at most 13 characters are kept; longer ones become exactly the first 6, "..." and the last 5 |
| GlyphTable.ShortContract | scripts/gen_glyph_table.rb:48-53 | The contract cell is wrapped in backticks and is 2 to 16 characters long |
| GlyphTable.ShortContractIdempotent | scripts/gen_glyph_table.rb:48-53 | Abbreviating an abbreviated contract gives the same cell |
| GlyphTable.TidyDescription | scripts/gen_glyph_table.rb:55-60 | At most 140 characters, collapsed and trimmed; equal to the collapsed stripped text when it fits, else a prefix of it followed by "...", 139 characters long exactly when the 137th character of the clean text is a space (which `rstrip` drops) and 140 otherwise |
| GlyphTable.TruncateTidy | scripts/gen_glyph_table.rb:59 | Cutting to 137 characters and `rstrip` keeps the text tidy and loses one more character exactly when the 137th is a space |
| GlyphTable.TidyDescriptionIdempotent | scripts/gen_glyph_table.rb:55-60 | Tidying a tidied description changes nothing |
| GlyphTable.EscapePipes | scripts/gen_glyph_table.rb:62-64 | Escaping never shortens, and changes the text iff it holds a pipe |
| GlyphTable.EscapeRoundTrip | scripts/gen_glyph_table.rb:62-64 | Unescaping the escaped text gives the text back |
| GlyphTable.EscapedHasNoDelimiters | scripts/gen_glyph_table.rb:62-64 | Escaped text holds no unescaped pipe |
| GlyphTable.RowLineEnds | scripts/gen_glyph_table.rb:80-85 | A row is the opening bar, the raw name, the middle cells, then the escaped description cell and the closing bar; that cell holds no column delimiter and unescapes to the tidy description |
| GlyphTable.BlockTextShape | scripts/gen_glyph_table.rb:74-88 | A block's text is its heading, a blank line, the header and separator and one line per row, every line ended by a line break |
| GlyphTable.RowLineDelimiters | scripts/gen_glyph_table.rb:80-85 | A data row has 6 column delimiters plus any unescaped pipes in the raw name, network, contract and repository cells; the description adds none |
| GlyphTable.OrderedKinds | scripts/gen_glyph_table.rb:42-46 | The ordered kinds are the grouped kinds, each once, listed kinds first in list order, then the rest alphabetically |
| GlyphTable.OrderedKindsSpec | scripts/gen_glyph_table.rb:42-46 | The known kinds followed by any sorted arrangement of the unknown kinds are distinct, complete and in kind order |
| GlyphTable.IntersectSpec | scripts/gen_glyph_table.rb:43 | `KIND_ORDER & keys` holds exactly the listed kinds that are present, each once, in priority order |
| GlyphTable.Unlisted | scripts/gen_glyph_table.rb:44 | `keys - KIND_ORDER` keeps exactly the unlisted keys, with multiplicity |
| GlyphTable.NameLeIsTotalPreorder | scripts/gen_glyph_table.rb:80 | Ordering by lower-cased name is total and transitive |
| GlyphTable.RenderTablesSpec | scripts/gen_glyph_table.rb:66-92 | Fails iff some entry's name is not a string; otherwise the output's lines are, for each grouped kind in `ordered_kinds` order, a heading, the table header and one row per entry of exactly that kind, sorted by lower-cased name, with every entry in exactly one block |
| GlyphTable.TableBlocksKinds | scripts/gen_glyph_table.rb:66-72 | The blocks appear in the order `ordered_kinds` gives for the grouped kinds |
| GlyphTable.TableBlocksMembers | scripts/gen_glyph_table.rb:71-85 | Each block lists exactly its kind's entries, with multiplicity, sorted by lower-cased name |
| GlyphTable.TableBlocksPartition | scripts/gen_glyph_table.rb:66-92 | All blocks together list every entry exactly once |
| GlyphTable.CompactMembers | scripts/gen_glyph_table.rb:72-89 | Dropping empty groups loses no entry |
| GlyphTable.RenderedLines | scripts/gen_glyph_table.rb:74-91 | The output is all blocks' lines joined by single newlines, so the trailing blank line of each block separates it from the next |
| GlyphTable.ReplaceTable | scripts/gen_glyph_table.rb:94-100 | Fails iff either marker is absent |
| GlyphTable.ReplaceTableSplices | scripts/gen_glyph_table.rb:94-100 | Text before the first start marker and after the nearest end marker following it is kept, and the replacement goes between; with no such end marker the text is unchanged |
| GlyphTable.ReplaceTableIdempotent | scripts/gen_glyph_table.rb:94-100 | When the block holds no end marker, splicing the same block again changes nothing |
| GlyphTable.SpliceParts | scripts/gen_glyph_table.rb:94-100 | For any pair of markers, the same splice shape as `ReplaceTableSplices` |
| GlyphTable.SpliceIdempotent | scripts/gen_glyph_table.rb:94-100 | For any markers that start with `<`, hold no other `<` and (the end marker) no line break, re-splicing a block free of the end marker changes nothing |
| GlyphTable.FirstEndIsOwn | scripts/gen_glyph_table.rb:99 | The lazy `.*?` stops at the end marker the replacement itself ends with, since the padded block holds none |
| GlyphTable.FirstStartKept | scripts/gen_glyph_table.rb:99 | After a splice the first start marker stays the first: nothing before it changed, and no occurrence can overlap it |
| Agreement.ValidityAgrees | docs/glyphs.js:20-26 | In the model's shared whitespace class, the viewer shows an entry iff the generator keeps it (also scripts/gen_glyph_table.rb:28) |
| Agreement.KindOrderAgrees | docs/glyphs.js:61-68 | With both string orders taken as ordinal, the two scripts order any set of distinct kinds identically (also scripts/gen_glyph_table.rb:42-46) |
| Agreement.GroupKeyAgrees | docs/glyphs.js:31 | In the model's shared whitespace class, a valid entry is grouped under the same kind by both scripts (also scripts/gen_glyph_table.rb:67) |
| Agreement.TidyAgreesIffShort | docs/glyphs.js:14-18 | In the model's shared whitespace class, the two tidy functions agree iff the collapsed text fits in 140 characters (also scripts/gen_glyph_table.rb:55-60) |

## Left out

- Network fetch, YAML parsing, file reads and writes, console logging, the `puts` summary and the top-level script lines (scripts/gen_glyph_table.rb:102-109, `loadGlyphs` in docs/glyphs.js:124-140): I/O. The model starts from the parsed YAML value, so the viewer's check that the root is a sequence is left out with the fetch; the generator's check is `GlyphTable.LoadGlyphs`.
- DOM construction: the `<section>`, heading, label, table header and `innerHTML` strings become `GlyphsJs.View` values. Field values are interpolated into HTML unescaped in the source; the model neither adds nor reasons about HTML escaping.
- YAML values are scalars (`Null`, string, boolean, number printed as its literal). Nested mappings or lists as field values, and how each runtime prints them, are not modelled. Both runtimes are assumed to print a scalar the same way.
- `localeCompare` and Ruby's `String#<=>` are both modelled as ordinal code-point order. Locale collation is not modelled.
- `toLowerCase`/`downcase` are modelled as ASCII lower-casing.
- Whitespace is space and tab through carriage return for `\s`, `trim` and `strip`. Unicode spaces and Ruby's stripping of NUL are not modelled.
- String lengths count characters, not UTF-16 code units, so an astral character counts once where JavaScript counts two.
- GlyphsJs.Members: proves the sorted list is a permutation of the kind's records ordered by name, but not which of two equal-name records comes first. Sort stability is left out.
- GlyphTable.TableBlocksMembers: proves the same, and likewise leaves out which of two equal-name entries comes first.
- GlyphTable.ReplaceTable: the replacement string of `sub` is taken literally. Ruby would read `\\`, `\0` to `\9` and `\&` in it as back-references, so a table block with a backslash sequence of that kind is not modelled.
- `console.warn` for skipped entries: logging, left out.
- Agreement.ValidityAgrees: holds only in the shared whitespace class. JavaScript's `trim` removes a no-break space (U+00A0) and Ruby's `strip` does not, so an entry whose name is a single no-break space is hidden by the viewer yet kept by the generator.
- Agreement.GroupKeyAgrees: holds only in the shared whitespace class. A kind padded with no-break spaces is trimmed by the viewer but not by the generator, so the two group it under different keys.
- Agreement.KindOrderAgrees: holds only with both orders ordinal. `localeCompare` puts "éclat" before "fx", while Ruby's `<=>` compares code points and puts "fx" first.
- Agreement.TidyAgreesIffShort: holds only in the shared whitespace class. JavaScript's `\s` matches a no-break space, so "a\u00A0b" becomes "a b" in the viewer; Ruby's `\s` is ASCII-only and keeps it, so the two differ even below 140 characters.
