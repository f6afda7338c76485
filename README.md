# CMS catalog to dbt sources: a Dafny model

Two batch scripts turn the data.cms.gov catalog into dbt source definitions. This project models them.

- **Fetcher** (`scripts/fetch_columns.py`). For each catalog entry it finds the dataset's UUID in the identifier URL. It skips datasets already cached unless forced. It requests the column metadata of the rest and caches a normalised field list per UUID. It counts successes, failures and skips.
- **Generator** (`scripts/generate_sources.py`). It extracts a metadata record from each catalog entry, with placeholders for missing fields. It then writes a YAML document with four parts:
  - a fixed header
  - the table name and tags
  - a word-wrapped description block and a `meta:` section
  - a `columns:` section built from the cached fields

The model covers the text transformations of both scripts and the counting loop of the fetcher. It also relates the two scripts to each other. Characters are ASCII throughout:
- `str.lower()` changes only `A`-`Z`.
- `\w` is `[A-Za-z0-9_]`.
- Whitespace (for `\s`, `str.split()` and `str.strip()`) is space, 9-13 and 28-31.

Modules, in dependency order:

- `Wrappers`: the `Option` type, with `GetOr` for `dict.get(key, default)`.
- `Seqs`: Python's `find`, `split`, `join` and `replace` on sequences.
- `Ascii`: character classes, `lower`, `strip`, and whitespace `split`.
- `UuidPattern`: the 8-4-4-4-12 hex pattern both scripts search for, with and without `re.IGNORECASE`.
- `Catalog`: a catalog entry, with optional keys.
- `TableNames`: `transform_title_to_snake_case`.
- `ColumnsYaml`: `format_columns_yaml`.
- `DescriptionWrap`: `format_multiline_description`.
- `GenerateSources`: the rest of the generator.
- `FetchColumns`: the fetcher.
- `CrossScript`: how the two scripts' UUIDs and cached fields meet.

The description wrapper keeps a running length counter. On the first line of a paragraph the counter starts at the indent and adds `len(word) + 1` for every word, including the first. After a wrap it restarts at the exact width of the new line. The first line of a paragraph therefore wraps one character earlier than the lines after it:
- a line of two or more words is at most `max_line_length - 1` long when it opens its paragraph;
- it is at most `max_line_length` long anywhere else.

`DescriptionWrap.Limit` states this, and the greedy-fill model follows the code exactly. A single word longer than the limit is never split, so a one-word line may exceed the limit, as in the code.

## Model

| member | source | states |
|---|---|---|
| `Ascii.LowerSpec` | scripts/generate_sources.py:42 | `Lower` keeps the length, turns each of `A`-`Z` into the letter 32 code points above it (its lower-case form), changes nothing else, leaves no upper-case letter, and is idempotent |
| `Ascii.LowerAppend` | scripts/generate_sources.py:42 | `Lower` works character by character: lower-casing a concatenation lower-cases each part |
| `Ascii.StripSpec` | scripts/generate_sources.py:169 | `Strip`, the model of `strip()`, gives a slice of its input with no whitespace at either end, and everything cut off is whitespace |
| `Ascii.StripFixed` | scripts/generate_sources.py:169 | a string with no whitespace at either end is its own `Strip`, so stripping twice is stripping once |
| `Ascii.WordsOfJoin` | scripts/generate_sources.py:174-178 | `Words`, the model of `split()`, applied to words joined by single spaces gives the same words back, so normalising a paragraph's whitespace keeps its words |
| `Ascii.WordsAppend` | scripts/generate_sources.py:169-177 | cutting a string just before whitespace (or at its end) cuts its `Words` in two: the words of the whole are the words of the front followed by those of the back |
| `Ascii.WordsOfStrip` | scripts/generate_sources.py:169 | stripping leading and trailing whitespace keeps the `Words`; a blank string has none |
| `Seqs.Find` | scripts/generate_sources.py:221-222 | the result is present exactly when the pattern occurs, and it is the first occurrence |
| `Seqs.SplitJoin` | scripts/generate_sources.py:201 | `Split` of a join on a one-element separator that no part contains gives the parts back |
| `Seqs.JoinSplit` | scripts/generate_sources.py:169 | joining the pieces that `Split` cuts at a non-empty separator with that separator gives the text back, so splitting at blank lines loses nothing |
| `Seqs.SplitJoinDouble` | scripts/generate_sources.py:169 | `Split` at a doubled separator undoes `Join` when no part contains the separator or ends with its element |
| `Seqs.SplitPiecesFree` | scripts/generate_sources.py:169 | no piece of a `Split` contains the separator |
| `Seqs.ReplaceAbsent` | scripts/generate_sources.py:93 | `ReplaceAll` of a pattern that does not occur leaves the text unchanged |
| `TableNames.SnakeCase` | scripts/generate_sources.py:38-39 | an empty title gives `unknown_dataset` |
| `TableNames.RemoveDisallowed` | scripts/generate_sources.py:45 | every remaining character is a word character, whitespace or `-` from the input; the letters and digits are all kept, in order; a single character is kept exactly when it is a word character, whitespace or `-` |
| `TableNames.RemoveDisallowedAppend` | scripts/generate_sources.py:45 | the removal works character by character: removing from a concatenation removes from each part, so together with the one-character case it keeps exactly the allowed characters, in order |
| `TableNames.Collapse` | scripts/generate_sources.py:46-49 | each output character is `_` or an input character outside the class; collapsing `_` runs leaves no `__`, and a continued run adds no leading `_`; letters and digits are kept, in order |
| `TableNames.CollapseRun` | scripts/generate_sources.py:46-49 | a maximal run of class characters at the front becomes a single `_` and the rest is collapsed on its own |
| `TableNames.CollapseKeep` | scripts/generate_sources.py:46-49 | a character outside the class is copied unchanged and ends any run |
| `TableNames.CollapseRuns` | scripts/generate_sources.py:46-49 | when the class holds no letter or digit, collapsing keeps the maximal letter-and-digit runs (`AlnumRuns`), and outside a run keeps whether the text starts with one |
| `TableNames.SnakeCaseIsSnakeName` | scripts/generate_sources.py:38-51 | every table name has only lower-case letters, digits and `_`, no `__`, and no `_` at either end |
| `TableNames.SnakeCaseKeepsAlnum` | scripts/generate_sources.py:42-51 | for a non-empty title, the table name's letters and digits are those of the lower-cased title, in order |
| `TableNames.SnakeCaseIsJoinedRuns` | scripts/generate_sources.py:38-51 | for a non-empty title, the table name is the maximal letter-and-digit runs of the lower-cased title, after removing the disallowed characters, joined by `_` |
| `TableNames.SnakeNameIsJoinedRuns` | scripts/generate_sources.py:48-49 | a snake-case name is its own letter-and-digit runs joined by `_`, so nothing else can be the result |
| `TableNames.SnakeCaseOfSpacedWords` | scripts/generate_sources.py:36-51 | a title of letter-and-digit words separated by single spaces becomes the lower-cased words joined by `_`, as in the docstring's example |
| `GenerateSources.Tags` | scripts/generate_sources.py:59-62 | one tag per keyword, in order; each tag is lower-case and as long as its keyword; it has the lower-case letter (32 code points up) wherever the keyword has `A`-`Z` and agrees with it everywhere else; no keywords give no tags |
| `GenerateSources.TagsIdempotent` | scripts/generate_sources.py:59-62 | turning tags into tags again changes nothing |
| `UuidPattern.Search` | scripts/generate_sources.py:75-76 | the result is the leftmost index where the pattern matches; `None` means it matches nowhere |
| `GenerateSources.ExtractUuidOrNA` | scripts/generate_sources.py:71-82 | `N/A` exactly when no case-insensitive match exists (an empty identifier included); otherwise the first match, cut from the identifier in its own case, hyphens at 8, 13, 18 and 23 |
| `GenerateSources.StripMailto` | scripts/generate_sources.py:90-91 | an empty address gives `N/A` |
| `GenerateSources.StripMailtoUnchanged` | scripts/generate_sources.py:90-93 | a non-empty address without `mailto:` comes back unchanged |
| `GenerateSources.StripMailtoPrefix` | scripts/generate_sources.py:90-93 | `mailto:` followed by an address without `mailto:` gives that address |
| `ColumnsYaml.EscapeCons` | scripts/generate_sources.py:148-151 | `Escape` is the two replacements; since backslashes are escaped before quotes, the two replacements amount to escaping each character on its own |
| `ColumnsYaml.QuotedRoundTrip` | scripts/generate_sources.py:148-153 | for a name of printable characters, reading the escaped name as a one-line YAML double-quoted string (`ReadQuoted`, which refuses raw line breaks and other control characters), up to the closing quote, gives back the original name and the rest of the line |
| `ColumnsYaml.LineBreakNotReadBack` | scripts/generate_sources.py:148-153 | the escaping leaves a line feed as it is, so the quoted scalar of a name holding one is refused by that reader |
| `ColumnsYaml.EscapeAddsOnlyQuoting` | scripts/generate_sources.py:151 | escaping adds no character other than `\` and `"` |
| `ColumnsYaml.ColumnLines` | scripts/generate_sources.py:142-154 | 1 + 2·n lines: the `columns:` line, then for each field in order its name line (name defaulting to `unknown`) and its type line (type defaulting to `string`) |
| `ColumnsYaml.FormatColumnsYaml` | scripts/generate_sources.py:139-156 | no fields give `""`; otherwise the text is the block's lines joined by line feeds |
| `ColumnsYaml.NameLineRoundTrip` | scripts/generate_sources.py:146-153 | when the name is printable, the quoted part of a name line reads back as the column's name, or `unknown` when it has none |
| `ColumnsYaml.ColumnsTextLines` | scripts/generate_sources.py:142-156 | when no name or type holds a line feed, splitting the block's text at line feeds gives exactly its lines |
| `DescriptionWrap.StrippedNonBlank` | scripts/generate_sources.py:169 | every paragraph kept is non-empty and begins with a non-space character |
| `DescriptionWrap.StrippedNonBlankSingle` | scripts/generate_sources.py:169 | one piece gives its `Strip`, or nothing when that is empty |
| `DescriptionWrap.StrippedNonBlankAppend` | scripts/generate_sources.py:169 | the pieces are stripped and filtered one by one, in order: the result for a concatenation is the results for the parts, concatenated |
| `DescriptionWrap.ParagraphsOfPieces` | scripts/generate_sources.py:168-169 | for any pieces that hold no `\n\n` and do not end with a line feed (surrounding spaces, single line feeds and leading line feeds allowed), the paragraphs of their join by `\n\n` are exactly the pieces stripped, with blank ones left out, in order |
| `DescriptionWrap.ParagraphShape` | scripts/generate_sources.py:168-169 | every paragraph is non-empty, is its own strip, and holds no blank-line separator `\n\n` |
| `DescriptionWrap.ParagraphsOfJoin` | scripts/generate_sources.py:168-169 | round trip: paragraphs of that shape joined by `\n\n` are cut back into exactly those paragraphs, so the description is cut at its blank lines and nowhere else |
| `DescriptionWrap.StrippedNonBlankWords` | scripts/generate_sources.py:169 | stripping the pieces and dropping the blank ones keeps all their words, in order |
| `DescriptionWrap.ParagraphWords` | scripts/generate_sources.py:169 | the words of the `Paragraphs`, read in order, are exactly the words of the description: splitting at blank lines and stripping loses and adds none |
| `DescriptionWrap.FillIsGreedy` | scripts/generate_sources.py:176-194 | `Fill` keeps every word in order, makes no empty line, keeps each line of two or more words within its limit, and wraps only when the next word would exceed the last line's limit |
| `DescriptionWrap.GreedyLayoutUnique` | scripts/generate_sources.py:176-194 | any layout with those properties is the fill itself |
| `DescriptionWrap.WrapParagraph` | scripts/generate_sources.py:176-194 | the loop with its running length counter appends exactly the lines of the greedy fill of the paragraph's words |
| `DescriptionWrap.RenderSpec` | scripts/generate_sources.py:186-192 | an emitted line is the indent, then a non-space character, has no line feed, is as long as its width, and splits back into its words |
| `DescriptionWrap.ParagraphLayout` | scripts/generate_sources.py:172-194 | each paragraph line starts with exactly `indent` spaces and then a non-space character and has no line feed; a line of two or more words is at most its limit and so at most `max_line_length`; the words of the lines, read in order, are the paragraph's words; a paragraph with words has lines |
| `DescriptionWrap.FormatMultilineDescription` | scripts/generate_sources.py:165-201 | the method's text is the specification: `N/A` after the indent for an empty description, otherwise the paragraphs' lines with an empty line between consecutive paragraphs, joined by line feeds |
| `DescriptionWrap.DescriptionLayout` | scripts/generate_sources.py:165-201 | an empty description gives indent + `N/A`; a non-empty one without paragraphs gives `""`; otherwise splitting the text at line feeds gives the lines, and cutting those at empty lines gives exactly each paragraph's block, so there is one empty line between paragraphs and none after the last |
| `DescriptionWrap.DescriptionWords` | scripts/generate_sources.py:165-201 | for a non-empty description, the words of the formatted text are exactly the description's words, in order: the wrapping changes only whitespace |
| `GenerateSources.CutAtMarker` | scripts/generate_sources.py:221-222 | the description never contains the marker; with the marker it is the stripped text before its first occurrence, and without it the description is unchanged |
| `GenerateSources.ExtractMetadata` | scripts/generate_sources.py:204-260 | every field comes from the entry: the title (`Unknown Dataset` when missing); the table name is `SnakeCase` of that title, so it is a snake-case name; the description is `CutAtMarker` of the entry's description (`N/A` when missing), so it has no marker; the tags are `Tags` of the keywords; category and contact come from the contact point, the contact through `StripMailto`; `data_methodology_url` is the first reference, or `N/A` when there are none; `sample_data_url` is the identifier (`N/A` when missing); `dataset_uuid` is `ExtractUuidOrNA` of that identifier, so it is `N/A` or a UUID |
| `GenerateSources.HeaderIsLines` | scripts/generate_sources.py:25-30 | the static header is its six lines joined by line feeds, and splits back into them |
| `GenerateSources.AppendTagLines` | scripts/generate_sources.py:276-277 | the tags loop adds exactly one `          - <tag>` line per tag, in the order of the tags, after the lines already there |
| `GenerateSources.AppendMetaLines` | scripts/generate_sources.py:285-292 | the `meta:` line is followed by the category, source, dictionary, methodology and sample URLs, the contact and the UUID, in that order, after the lines already there |
| `GenerateSources.GenerateYmlContent` | scripts/generate_sources.py:263-301 | the document is the header, name, tags, description, meta lines and columns block (when there are columns) joined by line feeds |
| `GenerateSources.DocumentOpening` | scripts/generate_sources.py:269-280 | when no tag holds a line feed, the document begins with the header's lines, the name line, `tags:`, one `          - <tag>` line per tag in order, and `description: \|`, each on its own line |
| `GenerateSources.DocumentColumns` | scripts/generate_sources.py:294-301 | with columns, the document is the document without them, a line feed, and the `columns:` block; without columns (none found or an empty list), it ends with the `dataset_uuid` line |
| `FetchColumns.ExtractUuid` | scripts/fetch_columns.py:32-35 | `None` exactly when no lower-case match exists; otherwise the first match, 36 characters of lower-case hex with hyphens at 8, 13, 18 and 23 |
| `UuidPattern.LowerMatchIsMatch` | scripts/fetch_columns.py:34 | every match of the fetcher's pattern is a match of the generator's |
| `FetchColumns.SchemaFields` | scripts/fetch_columns.py:90 | the field list at `meta.data_file_meta_data.tableSchema.descriptor.fields`, or `[]` when any key on that path is missing |
| `FetchColumns.NormalizedFields` | scripts/fetch_columns.py:92-99 | one field per input field, in order; the name is the input name (`""` when missing) lower-cased, each `A`-`Z` becoming the letter 32 code points above it and every other character unchanged and the type is the input type (`string` when missing); `[]` when the path is missing |
| `FetchColumns.ExtractFields` | scripts/fetch_columns.py:79-99 | the loop returns exactly the normalised fields |
| `FetchColumns.SaveColumnData` | scripts/fetch_columns.py:122-127 | the cached record is the dataset UUID and the extracted fields of the response |
| `FetchColumns.Classify` | scripts/fetch_columns.py:177-198 | no UUID gives a failure; a UUID already cached when not forced gives a skip; otherwise the fetch result decides between a save of the normalised record and a failure |
| `FetchColumns.DecidedWithoutFetch` | scripts/fetch_columns.py:180-189 | a dataset with no UUID or a skipped one has the same outcome whatever the request would return, so no request is needed |
| `FetchColumns.ProcessDataset` | scripts/fetch_columns.py:177-198 | one loop iteration produces the classified outcome and adds the UUID to the cache exactly when a record is saved |
| `FetchColumns.FetchAllDatasets` | scripts/fetch_columns.py:172-198 | the outcomes are `Run`, that is the datasets classified in order, each seeing the cache files written before it; the three counters count successes, failures and skips and add up to the number of datasets; the cache gains exactly the saved UUIDs |
| `FetchColumns.CountsPartition` | scripts/fetch_columns.py:172-198 | every outcome is exactly one of success, failure and skip |
| `CrossScript.ExtractorsAgree` | scripts/fetch_columns.py:34-35 | for an identifier without `A`-`F`, the fetcher finds no UUID exactly when the generator gives `N/A`, and otherwise both give the same UUID |
| `CrossScript.UpperCaseUuidDiverges` | scripts/fetch_columns.py:34-35 | for an identifier that is a UUID with an upper-case hex letter, the generator extracts it and the fetcher finds none |
| `CrossScript.UpperCaseUrlDiverges` | scripts/fetch_columns.py:49 | for a dataset URL of the form the fetcher requests, `https://data.cms.gov/data-api/v1/dataset/<uuid>/data-viewer`, with a UUID holding an upper-case hex letter, the generator extracts the UUID and the fetcher finds none |
| `CrossScript.UpperCaseExample` | scripts/fetch_columns.py:34-35 | the upper-cased UUID of the docstring's example dataset is extracted by the generator and rejected by the fetcher |
| `CrossScript.CachedNamesReadBack` | scripts/fetch_columns.py:92-99 | for each fetched field with a printable name, the column line the generator writes reads back as the API field name, lower-cased, and the type line carries the field's type or `string` |

## Left out

- HTTP (`fetch_column_data`): the request, timeouts and the 429 and HTTP-error handling depend on a library outside the model. The response of the request for the n-th dataset is the parameter `fetch`, with `None` for every failure. A falsy but valid response such as `{}` counts as a failure in the code; the model treats it as `None` as well.
- Files: `load_columns_data`, `write_yml_file`, `generate_all_yml_files` and `fetch_single_dataset` are not modelled. Neither are the `open`/`mkdir`/`json.dump` calls of `save_column_data` or the missing-input check of `fetch_all_datasets`. The generator's columns are a parameter. Cache-file existence is a set of UUIDs that grows as records are saved.
- JSON: catalog entries and API responses are records with optional keys. JSON `null` values and values of unexpected types are not modelled, and neither are the exceptions these would raise.
- The catch-all exception handlers of `extract_fields` and `generate_all_yml_files`: with typed records nothing inside them can fail.
- Logging, `time.sleep`, `argparse` and `main`: these are side effects only.
- Unicode: non-ASCII characters count as neither word characters nor whitespace, and `lower()` leaves them unchanged. Python gives many of them other meanings.
- `ColumnsYaml.ReadQuoted` reads only the escapes `\\` and `\"`. Other YAML escapes are never produced by the escaping and are not modelled. It reads one line and refuses raw line breaks and other non-printable characters; YAML's folding of a line break into a space is not modelled.
- `ColumnsYaml.QuotedRoundTrip` requires a name of printable characters. The generator escapes only `\` and `"`, so a line break or another control character goes into the double-quoted scalar raw. YAML folds a line break into a space and rejects the other controls, so such a name does not read back. `ColumnsYaml.LineBreakNotReadBack` shows this for a line feed.
- `ColumnsYaml.NameLineRoundTrip` requires a printable name, for the same reason.
- `CrossScript.CachedNamesReadBack` requires the API field name to be printable, for the same reason.
- `GenerateSources.StripMailto`: nothing is claimed about inputs with several `mailto:`. Removal is a single left-to-right pass, so `mamailto:ilto:` gives `mailto:`.
