# DONUT in Dafny

DONUT is a small search engine for a bibliography of papers. It reads a
BibTeX file and turns each entry into a record: title, authors, keywords,
links, year and DOI. It indexes those records in a document store, answers
searches sorted newest first, and counts the tags of every stored document.
It then nests the tags into a hierarchy for display. The sibling program
`dat` uses a smaller variant of the same BibTeX pipeline.

This project models that core and proves what each step promises.

- `results.dfy` (module `Results`): `Option`, `Result`, and two list
  comprehensions. `MapResult` stops at the first exception. `Collect` keeps
  only the items that produce a value.
- `seqs.dfy` (module `Seqs`): a filtering comprehension and the positions it
  keeps, plus an element-wise map and its permutation property.
- `text.dfy` (module `Text`): the Python string built-ins the source relies
  on. These are `strip`, `split(sep)`, `split(sep, 1)`, `split()`, `join`,
  `replace`, `count`, `isalpha`, `lower` and `str(int)`.
- `order.dfy` (module `Order`): Python's order on strings and on tuples of
  strings, and `sorted(set(...))` as a strictly increasing sequence.
- `donut_bibtex.dfy` (module `DonutBibtex`): `donut/parse_bibtex.py`. This
  covers `fix_raw_latex`, `format_title`, `format_year`, `format_authors`,
  `format_metadata`, `format_keywords`, `format_doi`, `process_entry` and
  `get_entries`.
- `dat_bibtex.dfy` (module `DatBibtex`): `dat/parse_bibtex.py`. This covers
  `initialise`, `format_authors`, `process_entry` and `get_entries`. Its
  `fix_raw_latex` and `format_title` have the same text as donut's, so the
  model uses `DonutBibtex.LatexFixed` and `DonutBibtex.FormatTitle` for both.
- `hierarchy.dfy` (module `Hierarchy`): `flat_tags_to_hierarchy` in
  `donut/utils.py`. It adds the level markers `L+` and `L-`.
- `database.dfy` (module `Index`): `donut/database.py`, over a document
  store. The store is the class `Index.Database`. It has a map from document
  number to stored entry, a map from identifier term to document number, and
  the last document number. This mirrors the parts of a Xapian database that
  the source relies on. Its invariant keeps the documents numbered 1 to the
  last without gaps, and every document reachable through exactly one term,
  the `"Q" + id` of its own entry.

The loops in the source become methods proved against specification
functions:

- the author loops: `FormatAuthors`;
- the keyword loops: `FormatKeywords`, `AddCodedKeywords` and
  `AddTokenKeywords`;
- the metadata loop: `FormatMetadata`;
- the replace chain: `FixRawLatex`;
- the level loop: `FlattenKeywords` and `FlatTagsToHierarchy`;
- the indexing loop: `IndexDocuments`, one pass at a time by `IndexEntry`;
- the loop that builds the matches of a search: `Search`;
- the tag counter: `GetTags`, `TallyDocuments` and `CountKeywords`.

The expression-only code is modelled by functions: `format_doi`,
`format_year` and `get_entries`. `process_entry` builds one dictionary
literal, so each module has both a function `ProcessedEntry` and a method
`ProcessEntry`. The method evaluates the fields in the literal's order and
is proved equal to the function. The store's operations are methods of the
class.

Where the code differs from a plain reading of its documentation, the model
follows the code:

- `search` sorts on the `year` field as a string, newest first. It is not a
  numeric sort.
- `format_doi` removes both resolver prefixes wherever they occur, not only
  at the start.
- donut's `format_authors` puts two spaces between first and last name when
  there is no middle name. dat's version puts one.
- A flavour keyword keeps its original case. Only the membership test
  lower-cases it.
- `get_document` on a missing number raises in the source. The model
  returns `None`. `get_random_document` on an empty store also raises in the
  source (`randint(1, 0)`), and the model returns `None` there too.

## Model

| member | source | states |
|---|---|---|
| DonutBibtex.FixRawLatex | donut/parse_bibtex.py:27-48 | the replace chain computes `LatexFixed`: the four raw commands are deleted in order, then backticks become quotes and tildes become `&nbsp;` |
| DonutBibtex.LatexFixedClean | donut/parse_bibtex.py:43-46 | no backtick and no tilde survive `fix_raw_latex` |
| DonutBibtex.LatexFixedPlain | donut/parse_bibtex.py:38-46 | a field with no raw command, backtick or tilde comes back unchanged |
| DonutBibtex.WithoutNoCommands | donut/parse_bibtex.py:38-39 | deleting commands that do not occur leaves the field unchanged |
| DonutBibtex.FormatTitle | donut/parse_bibtex.py:51-57 | the formatted title, title-cased and then fixed, has no backtick or tilde |
| DonutBibtex.FormatYear | donut/parse_bibtex.py:60-69 | the `year` field verbatim when present; otherwise an error exactly when the date (default "") does not parse, and else the parsed year as a decimal numeral without leading zeros that reads back as that year, which `DecimalCanonical` makes `str(year)` |
| DonutBibtex.FormatDoiPlain | donut/parse_bibtex.py:219-223 | a DOI without resolver prefixes is returned unchanged |
| DonutBibtex.FormatDoiStripsResolver | donut/parse_bibtex.py:219-223 | either resolver prefix in front of a plain DOI is removed, giving back the DOI |
| DonutBibtex.FormatDoiExamples | donut/parse_bibtex.py:219-223 | `https://doi.org/10.1/x` and `https://dx.doi.org/10.1/x` both become `10.1/x` |
| DonutBibtex.FormatAuthors | donut/parse_bibtex.py:72-87 | one formatted name per author, in order, each the name-parser's first, middle and last joined by spaces after the comma parts are reversed |
| DonutBibtex.NameOrderTwoParts | donut/parse_bibtex.py:77-80 | "Last, First" is handed to the name parser as "First Last", both parts stripped |
| DonutBibtex.NameOrderOnePart | donut/parse_bibtex.py:77-80 | a name without a comma is handed to the name parser stripped and otherwise unchanged |
| DonutBibtex.EmptyMiddleDoubleSpace | donut/parse_bibtex.py:83 | without a middle name, first and last name are two spaces apart |
| DonutBibtex.FormatMetadata | donut/parse_bibtex.py:90-141 | the loop returns `Links` of the comma-separated tokens: one (url, title) pair per token whose category matches and whose value has a word, in token order |
| DonutBibtex.TokenLinkWords | donut/parse_bibtex.py:128-139 | a link's url is a non-empty word and its title is a word or empty |
| DonutBibtex.TokenLinkPayload | donut/parse_bibtex.py:117-139 | for the token `id + "-" + " ".join(ws)` the url is the first word of `ws` and the title the second (or "" for one word); no words give no link |
| DonutBibtex.LinksFromTokens | donut/parse_bibtex.py:114-139 | a pair is in the metadata exactly when some token produces it; every url is a non-empty word |
| DonutBibtex.LinksAppend | donut/parse_bibtex.py:114-139 | metadata of concatenated token lists is the concatenation of their metadata |
| DonutBibtex.AddCodedKeywords | donut/parse_bibtex.py:183-198 | the inner loop adds every ancestor prefix and the keyword itself under the mapped category; an unknown category code raises |
| DonutBibtex.AddTokenKeywords | donut/parse_bibtex.py:160-211 | one token adds exactly its keywords to the set found so far, or raises its error |
| DonutBibtex.FormatKeywords | donut/parse_bibtex.py:144-216 | the loop over tokens, then `sorted(set(...))`, computes `FormattedKeywords` |
| DonutBibtex.AncestorsArePrefixes | donut/parse_bibtex.py:183-194 | the subcategories added for "a:b:c" are exactly the prefixes that end before a colon |
| DonutBibtex.CodedKeywordsAre | donut/parse_bibtex.py:168-198 | a known code gives exactly the cuts of the term at its colons and at its end, under the code's category |
| DonutBibtex.CodedKeywordsExample | donut/parse_bibtex.py:186-198 | "2-foo:bar:baz" gives tools/foo, tools/foo:bar and tools/foo:bar:baz |
| DonutBibtex.TokenKeywordsFirstHyphen | donut/parse_bibtex.py:160-166 | a token is split at its first hyphen only, and both halves are stripped |
| DonutBibtex.MetadataIsNoKeyword | donut/parse_bibtex.py:160-177 | any token whose code, the stripped text before its first hyphen, is alphabetic adds no keyword, whether or not it carries a link |
| DonutBibtex.BareTokenKeywords | donut/parse_bibtex.py:203-211 | a token without a hyphen never raises, and adds ("flavour", t) exactly when stripped `t` is non-empty and lower-cases to "confirm" or "innovate" |
| DonutBibtex.FlavourPlain | donut/parse_bibtex.py:207-211 | an accepted flavour contains no colon |
| DonutBibtex.CodedKeywordsClosed | donut/parse_bibtex.py:183-198 | the keywords of one coded token contain every ancestor of each keyword |
| DonutBibtex.TokenKeywordsClosed | donut/parse_bibtex.py:160-211 | the keywords of any token contain every ancestor of each keyword |
| DonutBibtex.KeywordSetClosed | donut/parse_bibtex.py:157-216 | a union of ancestor-closed keyword sets is ancestor-closed |
| DonutBibtex.FormattedKeywordsClosed | donut/parse_bibtex.py:144-216 | every keyword returned comes with all its ancestors in the same category, as the comment at line 196-197 promises |
| DonutBibtex.KeywordSetOk | donut/parse_bibtex.py:157-211 | the keyword loop finishes exactly when no token raises |
| DonutBibtex.KeywordSetMembers | donut/parse_bibtex.py:157-211 | a pair is in the finished set exactly when some token adds it |
| DonutBibtex.KeywordSetFirstError | donut/parse_bibtex.py:157-198 | the first token that raises decides the exception |
| DonutBibtex.KeywordSetErrorStays | donut/parse_bibtex.py:157-198 | once a prefix of the tokens has raised, the rest of the tokens do not change the outcome |
| DonutBibtex.KeywordSetStep | donut/parse_bibtex.py:157-211 | one loop step unions the token's keywords into the set so far |
| DonutBibtex.FormattedKeywordsFirstError | donut/parse_bibtex.py:157-198 | `format_keywords` raises the error of the first token that raises |
| DonutBibtex.ProcessEntry | donut/parse_bibtex.py:226-245 | building the output record computes `ProcessedEntry` |
| DonutBibtex.ProcessedEntryFacts | donut/parse_bibtex.py:226-245 | succeeds exactly when title, author, ID and ENTRYTYPE are present and keywords and year succeed; a missing title raises; the record's title is clean, it has one name per author, its keywords are strictly sorted and ancestor-closed, its code links are words, and its id and type are copied |
| DonutBibtex.GetEntriesOk | donut/parse_bibtex.py:248-275 | succeeds exactly when every dated entry processes; the i-th entry pairs the i-th dated parsed entry, processed, with the i-th dated raw entry, as `zip` does; every raw entry kept has a year or date |
| DonutBibtex.GetEntriesFirstError | donut/parse_bibtex.py:259-263 | the first dated entry that fails decides the exception |
| DonutBibtex.GetEntriesNothingDropped | donut/parse_bibtex.py:259-273 | when both loads agree on which entries are dated, `zip` drops no entry |
| DatBibtex.Initialise | dat/parse_bibtex.py:25-30 | "" for an empty name, otherwise the pad, the first letter and a dot |
| DatBibtex.FormatAuthors | dat/parse_bibtex.py:66-87 | one name per author, in order, each first name, middle initial and last name |
| DatBibtex.EmptyMiddleSingleSpace | dat/parse_bibtex.py:78-83 | without a middle name the result is "First Last" with one space |
| DatBibtex.MiddleInitial | dat/parse_bibtex.py:78-83 | with a middle name the result is "First M. Last" |
| DatBibtex.ProcessEntry | dat/parse_bibtex.py:90-101 | building the output record computes `ProcessedEntry` |
| DatBibtex.ProcessedEntryFacts | dat/parse_bibtex.py:90-101 | succeeds exactly when title, author, ID and ENTRYTYPE are present; the record's title is clean, its i-th author is the i-th formatted name, and id and type are copied |
| DatBibtex.GetEntriesOk | dat/parse_bibtex.py:104-114 | succeeds exactly when every entry with a `year` processes; the k-th record comes from the k-th such entry, in file order, and every skipped entry lacks a year |
| Hierarchy.FlattenKeywords | donut/utils.py:36-63 | the level loop computes `Flattened`: each keyword is preceded by one L+ when it goes deeper and by one L- per level when it goes up, and L- markers close the remaining levels |
| Hierarchy.FlatTagsToHierarchy | donut/utils.py:8-67 | the same categories, each with its keywords flattened |
| Hierarchy.EmittedLeaves | donut/utils.py:40-58 | dropping the markers from the output gives back the keywords, in order |
| Hierarchy.StepLeaf | donut/utils.py:48-58 | one step emits the keyword itself as its only non-marker |
| Hierarchy.MarkersDropped | donut/utils.py:48-55 | a run of markers contains no keyword |
| Hierarchy.FlattenedLeaves | donut/utils.py:34-67 | the flattened list, without its markers, is the input list |
| Hierarchy.BalanceAppend | donut/utils.py:48-63 | the level change of two outputs adds up |
| Hierarchy.BalanceDowns | donut/utils.py:54-55 | n L- markers lower the level by n |
| Hierarchy.MarkersBalance | donut/utils.py:48-55 | the markers before a keyword move the level from the previous depth to the keyword's depth |
| Hierarchy.EmittedBalance | donut/utils.py:40-58 | when each keyword is at most one level deeper than the previous one, the markers move the level to the depth of the last keyword |
| Hierarchy.BalanceAtLeaf | donut/utils.py:40-58 | in a well-formed list, each keyword sits at the level equal to its number of colons |
| Hierarchy.EmittedPrefix | donut/utils.py:40-58 | the output so far is a prefix of the final output |
| Hierarchy.FlattenedBalanced | donut/utils.py:43-63 | in a well-formed list the L+ and L- markers balance, as the comment at lines 43-47 assumes |
| Hierarchy.FlatStaysFlat | donut/utils.py:40-63 | keywords without colons come back with no markers |
| Hierarchy.DescentCloses | donut/utils.py:53-55 | going up k levels emits exactly k L- right before the keyword |
| Hierarchy.DocumentationExample | donut/utils.py:17-20 | (foo, foo:bar, foo:bar:baz) becomes (foo, L+, foo:bar, L+, foo:bar:baz, L-, L-) |
| Index.OneDocumentPerId | donut/database.py:77-79 | two stored documents carry the same record identifier exactly when they are the same document, as the upsert on the `"Q" + id` term keeps it |
| Index.LatestByIdKeys | donut/database.py:32-79 | an identifier term is stored after indexing exactly when some entry has it |
| Index.LatestByIdLast | donut/database.py:32-79 | the last entry with a given identifier is the one kept |
| Index.Database.constructor | donut/database.py:23 | a new store is empty |
| Index.Database.ReplaceDocument | donut/database.py:77-79 | the entry's term `"Q" + id` finds its document: an existing one keeps its number and gets the new entry; otherwise the entry becomes document number last + 1; the term's stored entry becomes the new one, no other term's changes, and every document still carries its own term |
| Index.Database.IndexDocuments | donut/database.py:12-79 | after indexing, the store is the old store overridden by the last entry per identifier; stored identifiers keep their document numbers; the last document number grows by exactly the number of identifiers new to the store, so no document is added twice or without a term |
| Index.EveryDocumentFound | donut/database.py:77-79 | in a consistent store every document is found again through its own identifier term, so each identifier has exactly one document |
| Index.NumbersOfSize | donut/database.py:77-79 | terms on distinct documents have as many document numbers as terms |
| Index.Database.GetDocument | donut/database.py:144-149 | the match for a stored number carries that number and its entry; nothing otherwise |
| Index.Database.GetRandomDocument | donut/database.py:152-158 | a match exactly when the store is non-empty, for a number between 1 and the last one, chosen by `pick` |
| Index.RandomId | donut/database.py:155 | the chosen number lies between 1 and the last document number |
| Index.RandomIdCovers | donut/database.py:155 | every number between 1 and the last can be chosen |
| Index.Database.Search | donut/database.py:89-141 | `None` exactly when the query is `None` or ""; otherwise the matches, at most as many as documents, sorted by year |
| Index.Built | donut/database.py:82-86 | one match per document number, with that number and its stored entry |
| Index.NoMatchDropped | donut/database.py:131-135 | distinct stored matches are never cut off by the document count |
| Index.DistinctCount | donut/database.py:131-135 | distinct document numbers number as many as the list |
| Index.InsertPosition | donut/database.py:137-139 | a match goes after all matches not older than it and before the first older one |
| Index.InsertKeepsOrder | donut/database.py:137-139 | inserting into a newest-first list keeps it newest-first |
| Index.InsertPermutation | donut/database.py:137-139 | inserting adds exactly the one match |
| Index.SortByYearOrdered | donut/database.py:137-139 | the sorted matches are newest first and a permutation of the input |
| Index.OlderAfterPosition | donut/database.py:137-139 | after the insert position every match has a different year |
| Index.FilterInsert | donut/database.py:137-139 | matches of any given year keep their order through one insertion |
| Index.SortByYearStable | donut/database.py:137-139 | matches of the same year stay in their original order, as the stable sort keeps them |
| Index.SortByYearExample | donut/database.py:137-139 | years 2019, 2022, 2020 come out as 2022, 2020, 2019 |
| Index.Database.GetTags | donut/database.py:161-182 | the counters are the tally of every stored document's keywords |
| Index.TallyDocuments | donut/database.py:174-180 | the loop over the documents numbered 1 to the last computes the tally of all their keywords in document order |
| Index.CountKeywords | donut/database.py:179-180 | the inner loop extends the tally by the document's keywords |
| Index.TallyStep | donut/database.py:180 | one keyword increments the count of its lower-cased form in its category |
| Index.TallyCategories | donut/database.py:172-180 | a category appears exactly when some keyword has it |
| Index.TallyCount | donut/database.py:172-180 | each count is the number of keywords that lower-case to that keyword in that category, and every entry is positive |
| Index.TallyKeysLower | donut/database.py:180 | every counted keyword is lower-case |
| Index.TallyOrderFree | donut/database.py:174-180 | the counters do not depend on the order in which documents and keywords are visited |
| Index.SameCategories | donut/database.py:174-180 | reordered keywords give the same categories |
| Index.LoweredPermutation | donut/database.py:180 | lower-casing reordered keywords gives reordered lower-cased keywords |
| Results.MapResultOk | donut/parse_bibtex.py:263 | the comprehension succeeds exactly when every item does, with one result per item in order |
| Results.MapResultFirstError | donut/parse_bibtex.py:263 | the first failing item decides the exception |
| Results.CollectMember | donut/parse_bibtex.py:114-139 | a value is collected exactly when some item produces it |
| Seqs.FilterMembers | donut/parse_bibtex.py:260 | the filtered list holds exactly the items that pass the test |
| Seqs.FilterSameLength | donut/parse_bibtex.py:259-273 | two lists that agree pointwise on the test keep equally many items |
| Seqs.FilterPositions | dat/parse_bibtex.py:111 | the positions kept by a filter are increasing, and their items form the filtered list |
| Text.Strip | donut/parse_bibtex.py:78 | the result neither starts nor ends with white space |
| Text.SplitFirst | donut/parse_bibtex.py:117 | `split("-", 1)` gives one part exactly when the separator is absent; otherwise the head has no separator and head + sep + tail is the input |
| Text.JoinSplit | donut/parse_bibtex.py:157 | joining the parts of a split gives back the string |
| Text.SplitPartsFree | donut/parse_bibtex.py:157 | no part of a split contains the separator |
| Text.SeparatorPrefixes | donut/parse_bibtex.py:184-191 | the joins of the leading parts are exactly the prefixes that end before a separator |
| Text.Words | donut/parse_bibtex.py:128 | `split()` gives non-empty words without white space, and no word exactly when the text is all white space |
| Text.WordsCons | donut/parse_bibtex.py:128 | a leading word ended by white space or by the end of the text is the first word of `split()`, followed by the words of the rest |
| Text.WordsSkipSpace | donut/parse_bibtex.py:128 | leading white space does not change `split()` |
| Text.WordsJoin | donut/parse_bibtex.py:128 | `" ".join(ws).split()` gives back non-empty words without white space |
| Text.ReplaceAbsent | donut/parse_bibtex.py:39 | replacing an absent pattern changes nothing |
| Text.ReplaceRemovesChar | donut/parse_bibtex.py:43-46 | replacing a character by text without it removes it |
| Text.LowerIsLower | donut/database.py:180 | lower-casing gives lower-case text and is idempotent |
| Text.DecimalRoundTrip | donut/parse_bibtex.py:69 | `str(year)` reads back as the year |
| Text.DecimalCanonical | donut/parse_bibtex.py:69 | a numeral without leading zeros is `str` of its value, so `str` is the only such numeral for a year |
| Order.SortedPairs | donut/parse_bibtex.py:216 | `sorted(set(...))` holds exactly the set's members, strictly increasing, once each |

## Left out

- The Flask front ends, the Zotero scripts, the command-line wrappers (`reindex.py`, `debug.py`), `embed_database.py`, `analyse_tags.py` and `dat/database.py` are not part of this model.
- Xapian's internals are not modelled: term generation, stemming, field prefixes, query parsing and its errors. A search's matches are an input sequence of document numbers, and only the document count limit and the year sort are modelled.
- Index.Database.Search: ranking by relevance is not modelled; the matches come in the order the store gives them.
- JSON serialisation is not modelled: a document stores the `Entry` value itself. `unidecode` only adds search terms, so it is left out with the term generator.
- `titlecase`, `nameparser.HumanName` and `dateutil.parser.parse` are foreign code. They are the function fields of `DonutBibtex.Libraries`, and the model proves only what holds for any such functions.
- BibTeX loading and the `customisations` hook (`convert_to_unicode`, `author`) are left out. `get_entries` takes the already-loaded entries of both loads as inputs.
- Reading files, opening databases and the random generator are left out. `get_random_document` takes the random draw as the input `pick`.
- `isalpha` and `lower` are modelled on ASCII letters only. Other Unicode letters are treated as non-letters and are not case-mapped.
- Dictionary iteration order is not modelled. Stores and counters are maps, so `flat_tags_to_hierarchy` keeps every category without fixing an order.
- Index.TallyCount: states each individual count; the total of all counts is not stated.
- DonutBibtex.FormatYear: `str(date.year)` is modelled through `parseDateYear`, which returns the year of the parsed date or nothing when `dateutil` raises.
- Index.Database.GetDocument: a missing document number returns `None` rather than raising `DocNotFoundError`.
- Index.Database.GetRandomDocument: an empty store returns `None` rather than raising from `randint(1, 0)`.
