# osm-gettext in Dafny

osm-gettext moves the human-readable tags of an OpenStreetMap dump through a
gettext translation catalog and back:

- `osm2po.rb` visits every tagged node, way and relation. A translator made
  of rules chooses the tag keys to translate. For each matched key that
  has a value on the element, it builds one catalog block, and each block
  replaces the one before it, so only the block of the last such key is
  printed:
  - `#.` comment lines with all of the element's tags;
  - a `#: type:id:key` reference;
  - the value as `msgid`;
  - the existing `key:lang` value, or the empty string, as `msgstr`.

  Values are first XML-unnormalised (`unnormalize`: line ends, numeric
  character references, the default named entities, `&amp;` last) and then
  escaped for the catalog (`gettext_escape!`).
- `po2osm.rb` scrapes the translated catalog line by line (`POParser#parse`)
  and unescapes the message texts. `PO2OSM#merge` then groups the
  translated entries by element type and id. It writes each one into the
  document: it updates the `value` of the element's existing `key:lang`
  tag, or appends a new `tag` with `k` and `v`. It marks every changed
  element `action=modify`.

The model has one module per concern:

| module | file | form |
|---|---|---|
| `Wrappers` | `wrappers.dfy` | `Option` and `Result` for nil and raised exceptions |
| `Text` | `text.dfy` | character classes, literal `gsub` as `ReplaceAll` |
| `PoEscape` | `po_escape.dfy` | `gettext_escape!` and `unescape` as functions |
| `XmlRefs` | `xml_refs.dfy` | the reference scanner, `entity`, and `unnormalize` as a method with its two loops |
| `XmlTexts` | `xml_texts.dfy` | texts of plain runs and any number of named references, decoded by `unnormalize` |
| `Rules` | `rules.dfy` | `Translator.new` and `Translator#match` as methods over rule values |
| `Extract` | `extract.dfy` | `Translator#xgettext` and the element callbacks as methods |
| `PoParse` | `po_parse.dfy` | `POParser#parse` as a method over the lines |
| `RoundTrip` | `round_trip.dfy` | the catalog written by `xgettext` read back by `parse` |
| `Merge` | `merge.dfy` | `PO2OSM#merge`, with the top-level elements as a class updated in place |

Every method is proved equal to a specification function, and the
properties are lemmas about those functions. An error that the Ruby code
raises is a `Failure`:
- `nil[...]`, `nil.empty?`, and `unescape(nil)` on a message line with
  nothing after its keyword;
- a character reference above 0x7FFFFFFF in `pack('U')`.

Where the code and its own description disagree, the model follows the
code:
- `gettext_escape!` does not escape the backslash, so text holding a
  backslash followed by `n`, `t`, `r` or `"` does not survive the round
  trip (`PoEscape.BackslashBreaksRoundTrip`).
- `merge` creates new tags with the attribute `v` but compares and updates
  the attribute `value` on tags it finds. Merging the same catalog twice
  therefore modifies again an element that received a new tag the first
  time (`Merge.SecondMergeModifies`).
- The element-name test is an unanchored regular expression, so a name
  such as `waypoint` passes it and then makes the index lookup fail
  (`Merge.MergeFails`).
- `xgettext` reassigns its result for every key that has a value, so only
  the block of the last such key is written (`Extract.ExportKeepsLast`).

## Model

| member | source | states |
|---|---|---|
| PoEscape.EscapeCharwise | osm2po.rb:31-38 | the four successive replacements equal replacing each `"`, TAB, CR, LF by its two-character escape, character by character |
| PoEscape.EscapeSafe | osm2po.rb:31-38 | escaped text holds no TAB, CR or LF and every `"` in it is preceded by a backslash |
| PoEscape.Escape | osm2po.rb:31-38 | text without any of `"`, TAB, CR or LF is left unchanged |
| PoEscape.Unescape | po2osm.rb:58-64 | text without a backslash is left unchanged |
| PoEscape.UnescapeEscape | po2osm.rb:58-64 | for text without a backslash, unescaping the escaped text gives the text back |
| PoEscape.BackslashBreaksRoundTrip | po2osm.rb:58-64 | a backslash followed by `n` passes escaping unchanged and is unescaped to LF, so the round trip fails on it |
| XmlRefs.NormalizeNewlines | osm2po.rb:118 | the result has no CR, every character is LF or one of the input's, and text without CR is unchanged |
| XmlRefs.NewlinesAsReplacements | osm2po.rb:118 | line-end normalisation equals replacing every CRLF by LF and then every remaining CR by LF, in order |
| XmlRefs.Entity | osm2po.rb:104-112 | `entity` gives a value exactly for `gt`, `lt`, `quot` and `apos`, and that value is one character that is neither `&` nor CR |
| XmlRefs.Unnormalize | osm2po.rb:116-146 | the method with its two loops over the reference names computes `UnnormalizeSpec` |
| XmlRefs.NoReference | osm2po.rb:119-120 | when no position of the normalised text starts a reference, the result is the normalised text |
| XmlRefs.LoneAmpersand | osm2po.rb:119-120 | an `&` followed by the end of the text or by a character that no reference starts with (as in `Marks & Spencer`), between text without `&` or CR, is kept as it is |
| XmlRefs.PlainText | osm2po.rb:119-120 | text without `&` takes the fast path and is only line-end normalised; text without `&` and CR is returned unchanged |
| XmlRefs.EntityValuesAreFixed | osm2po.rb:104-112 | the recursive `unnormalize` inside `entity` returns each of the four default values unchanged |
| XmlRefs.DecimalReference | osm2po.rb:121-125 | `&#` digits `;` between text without `&` or CR decodes to the character with that decimal code point, or to the packing error |
| XmlRefs.HexReference | osm2po.rb:121-125 | `&#x` hex digits `;` between text without `&` or CR decodes to the character with that hexadecimal code point (either case), or to the packing error |
| XmlRefs.NamedReference | osm2po.rb:126-143 | a named reference between text without `&` or CR gives: `&` for `amp`; its character for an unfiltered `gt`, `lt`, `quot` or `apos`; itself for every other name |
| XmlRefs.AmpDecodedLast | osm2po.rb:143 | `&amp;` followed by text without `&` or CR becomes `&` followed by that text, so the `&` it yields starts no new reference |
| XmlRefs.NumericThenAmp | osm2po.rb:121-143 | a decimal reference and a later `&amp;`, between texts without `&` or CR, become the character and `&`, each decoded exactly once |
| XmlRefs.CafeExample | osm2po.rb:116-146 | `Caf&#233; &amp; Bar` decodes to `Café & Bar` |
| XmlRefs.AmpLtExample | osm2po.rb:143 | `&amp;lt;` decodes to `&lt;`, not to `<` |
| XmlTexts.NamedReferences | osm2po.rb:116-146 | a text of plain runs (no `&`, no CR) and any number of named references, repeats included, decodes each reference on its own and in place: `&amp;` to `&`, an unfiltered `gt`, `lt`, `quot` or `apos` to its character, every other name to itself |
| XmlTexts.TwoNamedReferences | osm2po.rb:116-146 | two named references between plain runs each decode as they would alone, whether or not their names are the same |
| XmlTexts.QuotExample | osm2po.rb:116-146 | `&quot;hi&quot;` decodes to `"hi"` |
| XmlTexts.FilterExample | osm2po.rb:126-143 | with `lt` filtered, `&lt;b&gt;` decodes to `&lt;b>` |
| Rules.NewTranslator | osm2po.rb:46-57 | rules keep their order, type and condition; a scalar `tags` entry becomes a one-element list and a list is kept |
| Rules.Eval | osm2po.rb:50 | a has-tag condition holds exactly when the element carries that key; a tag-equals condition holds only when the element carries that exact tag |
| Rules.Lookup | osm2po.rb:74 | a tag value is found exactly when some tag has that key, and the value found belongs to such a tag |
| Rules.Match | osm2po.rb:60-66 | the method's loop computes `Matched`: the tag lists of the qualifying rules, concatenated in rule order |
| Rules.MatchedAppend | osm2po.rb:62-64 | matching over two rule lists is the concatenation of matching over each |
| Rules.MatchedTypeGate | osm2po.rb:63 | a rule whose type is neither `any` nor the element's type contributes nothing |
| Rules.MatchedMembership | osm2po.rb:63 | a key is matched exactly when some qualifying rule lists it |
| Rules.TwoRulesExample | osm2po.rb:60-66 | a way with `highway` matches `name` once under a way rule and a `shop` rule |
| Extract.EmitBlock | osm2po.rb:75-87 | the loop over the element's tags builds the block: blank line, comment lines, reference, msgid, msgstr |
| Extract.Xgettext | osm2po.rb:68-90 | the loop over the matched keys computes `ExportFrom` over `Matched` |
| Extract.Visit | osm2po.rb:154-170 | an untagged element is declined and prints nothing; a tagged one prints its export |
| Extract.LastValued | osm2po.rb:73-74 | a matched key that has a value and after which no matched key has one; none exactly when no key has a value |
| Extract.ExportKeepsLast | osm2po.rb:73-88 | a successful export is the block of the last key with a value, or the initial text when there is none |
| Extract.ExportFails | osm2po.rb:82-86 | the export fails exactly when decoding fails for some key with a value, even one whose block is later replaced |
| Extract.ExportUnvalued | osm2po.rb:74 | keys without values are skipped |
| Extract.ExportEmpty | osm2po.rb:71-89 | the export is empty exactly when no matched key has a value |
| Extract.UntaggedExportsNothing | osm2po.rb:154-158 | the export of an untagged element is empty anyway |
| PoParse.IndexOf | po2osm.rb:28 | the first position of a character, or the length when it is absent |
| PoParse.Chomp | po2osm.rb:29 | the result is the line with at most one line end (LF, CR or CRLF) cut off, and it is cut exactly when the line ends in LF or CR; a trailing CRLF is cut whole, as one line end |
| PoParse.Lines | po2osm.rb:28-29 | the chomped lines hold no LF, and there are none exactly for the empty input |
| PoParse.LinesLine | po2osm.rb:28-29 | a line without LF, its LF and the rest split into that line chomped, followed by the lines of the rest |
| PoParse.LinesLast | po2osm.rb:28-29 | a non-empty last line without LF is one line, chomped |
| PoParse.LinesCRLF | po2osm.rb:28-29 | a line without LF ended by CRLF is one line with the whole CRLF cut off, followed by the lines of the rest |
| PoParse.Parse | po2osm.rb:25-55 | the method's loop over the chomped lines computes `ParseFrom` from the nil entry |
| PoParse.ParseCount | po2osm.rb:30-33 | a successful parse has one entry per blank line |
| PoParse.EntryRun | po2osm.rb:28-52 | a blank line followed by a run without blank lines commits the entry that run builds from an empty one, after the entries before it, or fails as building fails |
| PoParse.TrailingBlank | po2osm.rb:30-52 | input whose last line is blank ends in an entry with no field set |
| PoParse.ParseIgnoresOthers | po2osm.rb:36-50 | lines that are blank or start `#: `, `msgid ` or `msgstr ` are the only ones that count |
| PoParse.EarlyFieldFails | po2osm.rb:27 | a reference or message line before the first blank line makes the parse fail |
| PoParse.SplitReference | po2osm.rb:38 | a reference splits into type, id and tag at its first two colons only |
| RoundTrip.LinesJoin | po2osm.rb:28-29 | splitting joined one-line texts into chomped lines gives them back |
| RoundTrip.BlockRoundTrip | osm2po.rb:75-87 | a block read back is one entry with the element's type, id and key and the decoded value and translation, when no text has a line break, the id no colon and the decoded text no backslash |
| RoundTrip.XgettextRoundTrip | osm2po.rb:68-90 | the parsed export is one entry for the last valued matched key, or no entry at all; only the written key's decoded texts must be free of backslashes |
| Merge.BuildIndex | po2osm.rb:81-88 | the method's loop computes the index fold `IndexFrom` |
| Merge.IndexGroups | po2osm.rb:82-88 | the index keeps the three types and files each translated entry under its type and id, in catalog order |
| Merge.IndexFails | po2osm.rb:83-86 | the index build fails exactly when an entry has no msgstr, or has a translation and an unknown type |
| Merge.FindTag | po2osm.rb:102-110 | the position of the first `tag` child whose `k` is the key, or the number of children |
| Merge.MergeEntry | po2osm.rb:101-118 | the search loop with `break` and the update after it compute `MergeTag`, and leave the element's attributes alone |
| Merge.MergeElement | po2osm.rb:99-120 | the loop over an element's entries computes `MergeEntries` |
| Merge.MergeTagEffect | po2osm.rb:101-118 | one entry sets `value` on the first tag for its key or appends a new tag; it is a change unless that tag already had this value; nothing else changes |
| Merge.TagsPresent | po2osm.rb:100-120 | afterwards every entry's key has a tag child |
| Merge.ModifiedIff | po2osm.rb:99-120 | an element whose entries are all settled stays exactly as it was; otherwise it is marked `action=modify` |
| Merge.SecondMergeModifies | po2osm.rb:104-116 | a tag added with `v` is changed again by the same entry, which adds `value` beside `v` |
| Merge.VisitElement | po2osm.rb:96-98 | one step of the walk on an element, in place |
| Merge.Walk | po2osm.rb:94-122 | the loop over the top-level elements computes `WalkFrom` and updates each element in place |
| Merge.MergeDocument | po2osm.rb:78-125 | the whole merge computes `MergeSpec` and the elements end in the state it returns |
| Merge.MentionsUnanchored | po2osm.rb:96 | the name test accepts `node`, `way`, `relation` and any name containing one of them, such as `waypoint`, and rejects `bounds` and `tag` |
| Merge.WalkFails | po2osm.rb:96-98 | the walk fails exactly when an element's name mentions a type without being one |
| Merge.MergeResult | po2osm.rb:78-125 | each mentioned element is one of the three types and is merged with exactly its own translated entries in catalog order; every other element is unchanged |
| Merge.MergeFails | po2osm.rb:96-98 | with a readable catalog, the merge fails exactly when an element's name mentions a type without being one |

## Left out

- Rule conditions: `Translator.new` loads rules from YAML and `eval`s each
  `match` text as Ruby. The model replaces that text with a small predicate
  language (`Rules.Pred`: has tag, tag equals, type is, and, or, not).
- The OSM stream parser, the callback registration, `print`, `STDERR`,
  `ARGV` and file handling are not modelled. `Extract.Visit` returns the
  text that would be printed.
- REXML parsing and `doc.to_s` are not modelled. The document is the root
  element's name plus its top-level elements, and `Merge.MergeDocument`
  returns their final state in place of the serialised text. Children are
  values with a name and attributes; text nodes are not part of the model.
- Caller-supplied entity tables and filters: `xgettext` always passes nil.
  The model fixes the table to the four defaults and keeps the filter as a
  parameter.
- Characters are Unicode scalar values, not UTF-8 bytes.
- Tags are a sequence of key and value pairs, so a record may repeat a key;
  `Rules.Lookup` then takes the first. The Ruby element holds its tags in a
  hash with one value per key, and no lemma depends on keys being unique.
- XmlRefs.NumericThenAmp: requires the decoded character to differ from `&`,
  because `&#38;` followed by `amp;` becomes `&amp;` after the numeric pass
  and is then decoded a second time by the final `&amp;` pass.
- XmlRefs.DecimalReference, XmlRefs.HexReference: a code point that Ruby
  packs but a Dafny `char` cannot hold (a surrogate, or 0x110000 to
  0x7FFFFFFF) yields `Unrepresentable` instead of Ruby's byte sequence.
- General regular expressions are not modelled. Each pattern the code uses
  is a hand-written scanner. `\w`, `\d` and `\s` are taken as their ASCII
  classes.
- `gettext_escape!` mutates a fresh clone that nothing else sees, so it is a
  pure function.
