# Image metadata attribution: a Dafny model

This project models the core of `attribute`, a tool that attaches provenance metadata to
generated images: the prompt, the model, and optionally a date, a description, tags, a
copyright, an artist and free-form custom fields. The model covers:

- **The metadata record and its construction from loose dictionaries** (`Models`). It covers
  validation (a model is required, the date must be ISO), `from_dict` and
  `from_json_dict` with their tag parsing and custom-field routing, and `to_dict` and
  `to_json_dict`.
- **Reading and writing metadata in image files** (`MetadataIO`). This covers:
  - the format check;
  - the PNG text-chunk and WebP info decoder and encoder;
  - the EXIF date conversion;
  - the "first truthy channel wins" fold over text entries, EXIF and XMP, and the
    placeholder fallback;
  - the merge of existing and new metadata that `write_metadata` performs.

  An image file is a value (`ImageFile`): whether the image library opens it, its text
  entries, its EXIF tags and its XMP packet. The image libraries become functions on
  these values.
- **Export to JSON and CSV, and import back** (`Export`). The CSV header is the fixed columns
  plus the sorted union of custom keys. The rows render absent values as empty cells. The
  import loops skip missing images and failed writes, and list the updated paths in input
  order.
- **The editor template** (`Editor`). `_create_template` renders a record as `key: value`
  lines, and `_parse_template` reads such text back into a record.

Python's insertion-ordered dictionaries are sequences of key/value pairs (`Dicts`). The
string built-ins the code relies on (`strip`, `lower`, `split`, `join`, string order) are
defined in `Text`. `Wrappers` holds `Option` and `Result`. A Python exception is a
`Failure` carrying an `Error` value that names its kind.

Where the code and its documentation disagree, the model follows the code:

- `from_dict` strips the `custom_` prefix from any extra key. The key `custom_prompt`
  therefore becomes a custom field named `prompt`.
- `_import_csv`'s own list of standard columns lacks `custom_fields`. A CSV column named
  `custom_fields` with a value therefore goes into the custom-field dictionary the import
  builds, as a custom field literally named `custom_fields`. This is the one way such a
  field gets past `from_dict`, which otherwise never produces it.
- The XMP writer stores custom fields in the same namespace as the prompt and model. A
  custom field named `prompt` or `model` therefore replaces the value read back from XMP.

## Model

| member | source | states |
|---|---|---|
| Models.ModelValidMeans | attribute/models.py:46-49 | a model is accepted exactly when it holds a non-whitespace character or is the one-space placeholder |
| Models.Construct | attribute/models.py:41-58 | construction succeeds exactly on valid records and keeps every field as given; a bad model fails with "model required" before the date is looked at; a truthy non-ISO date fails with the date error |
| Models.ModelExamples | attribute/models.py:41-49 | `""` and `"   "` are refused as models, `" "` and `"Model"` accepted; an empty prompt is accepted |
| Models.DateExamples | attribute/models.py:52-58 | `2024-01-15`, `2024-12-31` and `2024-02-29` are ISO dates; `2023-02-29`, `2024-13-01`, `2024/01/15`, `01-15-2024` and `invalid-date` are not |
| Models.CustomKeyFor | attribute/models.py:114-123 | standard keys never become custom fields; `from_json_dict` keeps an extra key's name; `from_dict` turns `custom_<c>` into field `c`, except that `custom_custom_fields` fills nothing, and keeps every other extra key's name |
| Models.ReprPlain | attribute/models.py:120-123 | inside `str()` of a list or dictionary, a text without quotes, backslashes or control characters is written in single quotes as it is |
| Models.ReprQuoteExamples | attribute/models.py:120-123 | `repr("a")` is `'a'`, and `repr("it's")` goes in double quotes |
| Models.ReprBackslashExample | attribute/models.py:120-123 | `repr` doubles a backslash |
| Models.CustomCustomFieldsSkipped | attribute/models.py:116-120 | the key `custom_custom_fields` fills no custom field in `from_dict` |
| Models.CollectCustomGet | attribute/models.py:107-123 | each custom field holds the text of the last entry routed to it, or else its seed value |
| Models.LastForEntry | attribute/models.py:114-123 | an entry routed to a field is the one that counts when no later entry is routed there |
| Models.CollectStandardOnly | attribute/models.py:114-123 | a dictionary of standard keys only adds no custom field to the seed |
| Models.CollectCustomFields | attribute/models.py:107-123 | the custom-field loop computes the seed updated by each routed entry, in order |
| Models.RecordFrom | attribute/models.py:75-134 | every record built from a loose dictionary is valid |
| Models.FromDict | attribute/models.py:75-134 | `from_dict` builds the record of the dictionary, prefixes stripped, or the construction error |
| Models.FromJsonDict | attribute/models.py:149-199 | `from_json_dict` builds the record of the dictionary, extra keys kept verbatim, or the construction error |
| Models.FromDictCustomFields | attribute/models.py:107-123 | a custom field of `from_dict` is the text of the last entry routed to it, or else the seeded value |
| Models.FromJsonDictCustomFields | attribute/models.py:179-188 | `from_json_dict` stores every extra key, prefix and all, with its value's text |
| Models.AsDict | attribute/models.py:68-72 | `asdict` has distinct keys, all of them standard |
| Models.AsDictFields | attribute/models.py:144-146 | reading the standard fields back from `asdict(m)` gives those of `m` |
| Models.AsDictTags | attribute/models.py:68-72 | tags read back from the dictionary are those stored: a joined string is parsed, a list taken as it is |
| Models.RecordFromAsDict | attribute/models.py:75-134 | rebuilding from `asdict(m)` gives the construction of `m`, with either key rule |
| Models.FromJsonDictRoundTrip | attribute/models.py:136-199 | `from_json_dict(to_json_dict(m))` is `m` for every valid `m`, and the same error otherwise |
| Models.FromDictRoundTrip | attribute/models.py:60-134 | `from_dict(to_dict(m))` is the construction of `m` whenever each tag is non-empty, trimmed and comma-free |
| Text.Strip | attribute/models.py:91 | the result has no whitespace at either end, is empty exactly when the input is all whitespace, leaves a trimmed text unchanged, and holds only characters of the input |
| Text.StripMeans | attribute/models.py:91 | the stripped text is a stretch of the input with only whitespace before and after it, so only leading and trailing whitespace is removed |
| Text.ParseTags | attribute/models.py:90-91 | every parsed tag is non-empty, trimmed and free of commas; a text without a comma gives its stripped form as the one tag, or no tag when that is empty |
| Text.ParseTagsComma | attribute/models.py:90-91 | the text before the first comma gives its tags ahead of the tags of the rest, so the tags are the stripped non-empty comma pieces in order |
| Text.ParseJoinTags | attribute/models.py:69-91 | parsing the `", "`-join of well-formed tags gives the same tags in order |
| Text.Lower | attribute/metadata.py:66 | lower-casing keeps the length, maps each character on its own, and leaves no upper-case ASCII letter |
| Text.SplitOnce | attribute/editor.py:139 | the text is the part before the first colon, the colon, and the rest; the first part holds no colon |
| Text.JoinSplit | attribute/editor.py:123 | joining the pieces of a split with the separator gives the text back |
| Text.FirstWord | attribute/metadata.py:167 | the first word holds no whitespace, follows only whitespace, ends at whitespace or at the end, and is empty exactly when the text is all whitespace |
| Text.LessTotal | attribute/export.py:108 | Python's string order is total |
| Text.LessTransitive | attribute/export.py:108 | Python's string order is transitive |
| Dicts.Set | attribute/models.py:120 | after `d[k] = v`, `k` holds `v`, every other key is unchanged, and a new key is appended at the end |
| Dicts.UpdateGet | attribute/metadata.py:320 | after `d.update(e)`, the keys of `e` hold `e`'s values and every other key keeps its value |
| MetadataIO.Name | attribute/metadata.py:66 | a path's last component holds no `/`, ends the path, and is the whole path or follows a `/` |
| MetadataIO.SuffixOf | attribute/metadata.py:66 | a suffix is empty or a dot followed by a dot-free text, shorter than the name, that ends it; it is non-empty exactly when the name's last dot is neither its first nor its last character |
| MetadataIO.SupportedFormatMeans | attribute/metadata.py:53-67 | a path is supported exactly when its lower-cased last component ends, after a non-empty stem, with one of `.png`, `.jpg`, `.jpeg` or `.webp` |
| MetadataIO.SupportedFormatExamples | attribute/metadata.py:53-67 | `test.PNG` and `photos/cat.jpeg` are supported; `image`, `test.gif` and `.png` are not |
| MetadataIO.RecordFromShaped | attribute/metadata.py:370-371 | on a dictionary whose entries have the types the reader produces, `from_dict` constructs the record of its fields |
| MetadataIO.ReadTextEntry | attribute/metadata.py:86-107 | one text entry is decoded by the entry rule |
| MetadataIO.ReadTextChunks | attribute/metadata.py:86-107 | the decoding loop applies the entry rule to each entry in order |
| MetadataIO.DecodeInvariant | attribute/metadata.py:86-107 | decoding keeps the keys distinct and every value of the type the record expects |
| MetadataIO.DecodeGet | attribute/metadata.py:86-100 | the six scalar keys take their entry's text, `tags` takes its entry parsed, and every non-standard key is left alone |
| MetadataIO.DecodeCustom | attribute/metadata.py:101-107 | custom field `f` holds entry `custom_<f>` unless `f` is `custom_fields`; other fields are unchanged |
| MetadataIO.WritableStripped | attribute/metadata.py:407-411 | a stripped value is written exactly when it is not empty (the placeholder test never fires after stripping) |
| MetadataIO.WriteTextChunks | attribute/metadata.py:400-426 | the encoder adds the standard entries and then the custom entries to the base entries |
| MetadataIO.EncodeStandardGet | attribute/metadata.py:400-421 | each standard key is written when the record has something to write for it, and keeps the base entry otherwise |
| MetadataIO.WrittenPrompt | attribute/metadata.py:401-409 | the prompt is written stripped, and only when something is left of it |
| MetadataIO.WrittenModel | attribute/metadata.py:402-411 | the model is written stripped, and only when something is left of it |
| MetadataIO.EncodeCustomGet | attribute/metadata.py:423-426 | each custom field is written under `custom_<key>`, except the key `custom_fields` |
| MetadataIO.EncodeDistinct | attribute/metadata.py:404-426 | the encoded entries have distinct keys |
| MetadataIO.DecodeEncodeStandard | attribute/metadata.py:400-426 | decoding the entries written for a record gives back each standard field that was written, tags parsed |
| MetadataIO.DecodeEncodeCustom | attribute/metadata.py:423-426 | decoding the entries written for a record gives back every custom field except one named `custom_fields` |
| MetadataIO.ToExifDate | attribute/metadata.py:486-491 | a dash date without colons is written with colons and a time part |
| MetadataIO.ExifDateRoundTrip | attribute/metadata.py:486-491 | reading back the EXIF form of a dash date without colons or whitespace gives the date |
| MetadataIO.IsoDateExifRoundTrip | attribute/metadata.py:157-169 | reading back the EXIF form of any ISO date gives the date |
| MetadataIO.ExifReadGet | attribute/metadata.py:129-171 | the EXIF reader yields the description tag as description and prompt, the artist tag as artist and model, the copyright, and the date converted back; empty tags are skipped |
| MetadataIO.ExifChannel | attribute/metadata.py:129-171 | the EXIF dictionary has distinct keys, truthy text values and the record's types |
| MetadataIO.ExifWriteRead | attribute/metadata.py:471-496 | reading back the EXIF written for a record gives the stripped prompt and model (or the old tags), the copyright, and an ISO date unchanged |
| MetadataIO.KeptSubjects | attribute/metadata.py:243-252 | the kept subjects are the non-empty ones, each taken from the subject array; a single subject is kept exactly when it is not empty |
| MetadataIO.KeptSubjectsAppend | attribute/metadata.py:243-252 | keeping subjects distributes over concatenation, so order and repetitions are kept |
| MetadataIO.ReadSubjects | attribute/metadata.py:243-252 | the subject loop keeps the non-empty subjects in order |
| MetadataIO.XmpReadGet | attribute/metadata.py:210-275 | the XMP reader yields the description as description and prompt, overridden by the custom prompt; the kept subjects as tags; and the custom model |
| MetadataIO.XmpChannel | attribute/metadata.py:210-275 | the XMP dictionary has distinct keys, truthy values and the record's types |
| MetadataIO.XmpWriteRead | attribute/metadata.py:499-559 | when a custom field's name is not an XML name the packet reads back unchanged; otherwise reading back gives the stripped prompt and model, unless a custom field of that name replaced them, and the record's tags without empty ones |
| MetadataIO.FillFalsy | attribute/metadata.py:349-351 | the overlay loop computes the overlay of the channel onto the dictionary |
| MetadataIO.OverlayGet | attribute/metadata.py:349-358 | a channel value replaces a key exactly when the key is absent or falsy |
| MetadataIO.OverlayShaped | attribute/metadata.py:349-358 | overlaying keeps the keys distinct and the values of the record's types |
| MetadataIO.FirstTruthyWins | attribute/metadata.py:346-358 | each key takes its value from the first of text entries, EXIF and XMP where it is truthy |
| MetadataIO.EnsureRequiredGet | attribute/metadata.py:363-367 | a falsy prompt or model becomes empty, and every other key is unchanged |
| MetadataIO.ReadMetadata | attribute/metadata.py:278-383 | a missing file and then an unsupported extension fail first; every record returned is valid |
| MetadataIO.GatherChannels | attribute/metadata.py:315-358 | the channel loops compute the gathered dictionary: the text entries for PNG or WebP, then the keys still falsy filled from EXIF and then from XMP |
| MetadataIO.BuildRead | attribute/metadata.py:363-383 | defaulting the prompt and model to `""` and then constructing, with the placeholder record on a validation error, computes the construction outcome of the gathered dictionary |
| MetadataIO.ReadValid | attribute/metadata.py:278-383 | every record `read_metadata` returns passes construction |
| MetadataIO.ReadOutcome | attribute/metadata.py:315-383 | reading a supported file that opens gives the construction outcome on the gathered dictionary, whose values have the record's types |
| MetadataIO.BuildOutcome | attribute/metadata.py:369-383 | a valid dictionary gives its record; no model gives the placeholder fallback; a bad date gives the date error; a blank model gives "model required" |
| MetadataIO.PngReadBack | attribute/metadata.py:315-367 | the dictionary read from the text chunks written for a record holds its stripped prompt and model, its truthy optionals, its tags re-parsed and its custom fields |
| MetadataIO.PngRoundTrip | attribute/metadata.py:278-383 | writing a record to PNG text chunks and reading them back gives the record with stripped prompt and model, falsy optionals dropped, and the same tags and custom fields |
| MetadataIO.PngPlaceholderRoundTrip | attribute/metadata.py:372-383 | a record with a blank model reads back with the placeholder as model, and as prompt when that is blank too |
| MetadataIO.CleanedIsStrip | attribute/metadata.py:609-614 | the merge's "strip unless placeholder" cleaning is plain stripping |
| MetadataIO.ExistingForFilled | attribute/metadata.py:588-605 | the existing record for the merge has a non-empty prompt and model and is valid, and a read record only has its empty prompt replaced |
| MetadataIO.MergeCustomFields | attribute/metadata.py:621-625 | the custom-field merge loop assigns each new field except `custom_fields` into the existing ones |
| MetadataIO.MergeCustomGet | attribute/metadata.py:621-625 | new custom values win, except under the key `custom_fields`; existing keys absent from the new record survive |
| MetadataIO.MergeCustomDistinct | attribute/metadata.py:621-625 | the merged custom fields have distinct keys |
| MetadataIO.MergePromptModel | attribute/metadata.py:609-630 | prompt and model take the new stripped value, else the existing one; when both are empty, both become the placeholder |
| MetadataIO.MergeKeepsUnset | attribute/metadata.py:615-625 | every optional field, the tags and the custom fields the new record leaves falsy keep their existing value |
| MetadataIO.MergeOutcome | attribute/metadata.py:627-642 | the merge fails with "model required" exactly when a prompt but no model is left; otherwise it yields the merged record |
| MetadataIO.MergeSucceeds | attribute/metadata.py:627-642 | with a model given, merging into a filled existing record succeeds |
| MetadataIO.WriteMetadata | attribute/metadata.py:562-684 | a missing file and then an unsupported extension fail first; otherwise it reads, merges, writes the format's channel and then XMP |
| MetadataIO.PngWrite | attribute/metadata.py:562-647 | writing a record with a model to a PNG that opens replaces its text chunks with those of the merged record |
| MetadataIO.WriteMergedPng | attribute/metadata.py:644-684 | a successful merge is written to a PNG as its text chunks and to its XMP packet |
| MetadataIO.PngWriteThenRead | attribute/metadata.py:562-684 | writing then reading a PNG gives the new values where given and the old ones elsewhere, and the union of custom fields with the new values winning |
| MetadataIO.MergedReadBack | attribute/metadata.py:607-647 | the text chunks written for a merged record read back as the merged fields |
| Export.ExportJson | attribute/export.py:54-56 | the loop assigns `to_json_dict()` of each record under its path, in order |
| Export.JsonEntriesGet | attribute/export.py:55-56 | the entry for a path is the `to_json_dict()` of its record |
| Export.JsonExportGet | attribute/export.py:54-56 | each path of the exported object holds its record's `to_json_dict()`, and there is no other path |
| Export.JsonExportRoundTrip | attribute/export.py:54-56 | an exported record keeps its tags as a list and reads back with `from_json_dict` as itself |
| Export.CustomKeysMeans | attribute/export.py:95-97 | a key is collected exactly when some record has it as a custom key |
| Export.CollectCustomKeys | attribute/export.py:95-97 | the loop collects the union of the records' custom keys |
| Export.SortedKeys | attribute/export.py:108 | the sorted keys are strictly increasing and hold exactly the set's elements |
| Export.IncreasingUnique | attribute/export.py:99-108 | two increasing sequences with the same elements are equal, so the header is determined |
| Export.BuildRow | attribute/export.py:114-128 | a row holds the standard entries and then each collected key's custom value |
| Export.RowOfGet | attribute/export.py:114-128 | a collected key holds the record's custom value or `""`; every other column holds its standard value |
| Export.ExportCsv | attribute/export.py:75-130 | the header is the eight standard columns and then the custom keys sorted; there is one row per record, in input order |
| Export.CsvExportedEmpty | attribute/export.py:75-92 | with no records the export is the eight standard columns and no rows |
| Export.CsvHeaderDetermined | attribute/export.py:94-130 | two exports of the same records agree on header and rows |
| Export.CsvCell | attribute/export.py:114-130 | each cell is the record's custom value or `""` under a collected key, and otherwise its standard value (absent optionals and no tags as `""`) |
| Export.ExportMetadata | attribute/export.py:33-38 | `json` and `csv` are recognised in any case, and any other format fails with the unsupported-format error |
| Export.ResolveAbsolute | attribute/export.py:187-188 | a resolved path is absolute exactly when the entry's path or the metadata file's path is |
| Export.ResolveKeepsName | attribute/export.py:187-188 | a resolved path ends with the path the entry gives |
| Export.Outcome | attribute/export.py:190-199 | an entry is written exactly when its image exists, its record builds and the write succeeds |
| Export.ImportEntry | attribute/export.py:190-199 | one pass of the loop writes and lists the image when it exists and its record builds and writes, and skips it otherwise |
| Export.ImportAllFacts | attribute/export.py:183-201 | the loop keeps the set of files, never unlists a path, lists only existing paths, and lists a subsequence of the resolved paths in input order |
| Export.ImportAllElsewhere | attribute/export.py:183-201 | an image no entry resolves to is left unchanged |
| Export.ImportDistinct | attribute/export.py:183-201 | when entries name different images, the list is exactly the accepted entries' paths in input order |
| Export.ImportDistinctFile | attribute/export.py:183-201 | when entries name different images, each image ends as its entry's write made it, or unchanged when the entry was skipped |
| Export.ImportJson | attribute/export.py:178-201 | the JSON import is the import loop over the object's entries, with records built by `from_json_dict` |
| Export.RowDictGet | attribute/export.py:220-226 | a column of a CSV row holds the cell of its last occurrence in the header |
| Export.RowDictMissing | attribute/export.py:238-246 | a name that is not a column has no value in the row |
| Export.CellText | attribute/export.py:241-245 | a missing or empty cell gives no value, and any other cell its text |
| Export.CustomColumnsGet | attribute/export.py:249-263 | every non-standard column with a non-empty cell is a custom field holding that cell |
| Export.CsvRecord | attribute/export.py:238-265 | `from_dict` on a row's dictionary constructs the record the row describes |
| Export.CsvDictFull | attribute/export.py:238-263 | with custom columns, a row's dictionary is `asdict` of the record it describes |
| Export.CsvDictShort | attribute/export.py:238-263 | without custom columns, a row's dictionary is that `asdict` without its `custom_fields` entry |
| Export.ImportRow | attribute/export.py:225-270 | one row is imported as the loop's step on its resolved path and record |
| Export.ImportRows | attribute/export.py:225-270 | the CSV import is the import loop over the rows' entries, in order |
| Export.ImportCsv | attribute/export.py:217-272 | a file without an `image_path` column fails before any row; otherwise the rows are imported |
| Export.ImportMetadata | attribute/export.py:153-162 | a `.json` or `.csv` file in any case is imported as such, and any other fails with the unsupported-format error |
| Editor.CreateTemplate | attribute/editor.py:58-102 | the template is the comments, the seven field lines, the existing custom fields as comments and the closing comment, one per line |
| Editor.SplitRender | attribute/editor.py:123 | splitting rendered single lines at line feeds gives the lines back, then an empty piece |
| Editor.LineEntry | attribute/editor.py:131-141 | a line is skipped exactly when blank, a comment or colon-free; otherwise the key is trimmed lower-case without a colon and the value trimmed |
| Editor.CommentSkipped | attribute/editor.py:133-135 | blank lines and lines starting with `#` are skipped |
| Editor.KeyNoColon | attribute/editor.py:139-140 | a key cut before the first colon has none after stripping and lower-casing |
| Editor.AssignEntry | attribute/editor.py:143-162 | each parsed line is stored by the assignment rule for its key |
| Editor.AssignCustom | attribute/editor.py:160-162 | a non-standard key sets the custom field of that name and nothing else |
| Editor.TagsAssigned | attribute/editor.py:151-155 | an empty tags value leaves the tags unchanged; another one is parsed |
| Editor.OptionalAssigned | attribute/editor.py:147-159 | an optional field takes its value, or no value when empty |
| Editor.SkippedLines | attribute/editor.py:131-135 | lines the parser skips change nothing |
| Editor.ParseTemplate | attribute/editor.py:105-164 | parsing is the line loop followed by `from_dict` |
| Editor.EmptyTemplateRefused | attribute/editor.py:118-164 | an empty template is refused for its missing model |
| Editor.FieldLine | attribute/editor.py:138-141 | the line `key: value` assigns the stripped value to the key |
| Editor.ParseFieldText | attribute/editor.py:131-162 | lines `key: value` with field keys and single-line values make the parser assign each key its stripped value, in order |
| Editor.FieldsParsed | attribute/editor.py:71-92 | the template's field lines are parsed as the assignments of the record's shown values |
| Editor.FieldDraftRecord | attribute/editor.py:105-164 | the field lines rebuild the record stripped and without custom fields |
| Editor.TemplatePieces | attribute/editor.py:58-102 | the template split at its line feeds is the comments, the field lines and the closing comments |
| Editor.TemplateRoundTrip | attribute/editor.py:58-164 | parsing the template of a record with single-line, trimmed or blank values gives the record with stripped fields, blank optionals absent and no custom fields |
| Editor.TemplateRoundTripTrimmed | attribute/editor.py:58-164 | a record with trimmed fields comes back unchanged except for its custom fields |
| Editor.BlankModelRefused | attribute/editor.py:105-164 | a template whose model is blank, the placeholder included, is refused for its missing model |

## Left out

- The image libraries (PIL, piexif, libxmp) are not modelled. A file is the value
  `ImageFile`, and the existence check is whether a file value is present. An image that
  cannot be opened is a flag. A channel whose reading throws contributes nothing.
- The PIL fallback for EXIF (`attribute/metadata.py:173-206` when reading, 444-469 when
  writing) is not modelled, and neither is the byte decoding of EXIF tags. The piexif
  branch is modelled, with tags as text.
- MetadataIO.XmpWrite: only the XMP properties the reader reads are modelled. The other
  custom fields written to the XMP custom namespace, and the namespace registration, are
  not. A refused custom-field name cancels the whole write. A name is refused unless it is
  an XML name without a prefix (`XmpName`). Names the toolkit would read as a path or a
  qualified name are counted as refused. A value the toolkit cannot store is not
  modelled as a failure.
- Models.Show: `repr` of a list or dictionary item escapes backslashes, the quote and
  ASCII control characters. The escapes Python uses for non-printable non-ASCII
  characters are not modelled; those characters are written as they are.
- MetadataIO.Name: the last component is the text after the last `/`. `pathlib`'s removal
  of trailing slashes and `.` components is not modelled.
- MetadataIO.WriteChannel: the WebP branch is modelled as if the info entries it computes
  were persisted by the save call. Non-text WebP info values are not modelled.
- Paths are text. `Path.exists` is membership of a path in the file map, and `is_absolute`
  is a leading `/`. Resolution is a textual join with the metadata file's parent
  directory, without normalisation.
- `datetime.fromisoformat` is modelled as the `YYYY-MM-DD` calendar form only, for years 1
  to 9999. Python accepts further shapes.
- `strip`, `isspace` and `lower` cover ASCII only; Unicode whitespace and case folding are
  not modelled.
- Models.RecordFrom: a non-text value under a scalar standard key fails with `NotText`.
  Python would store the value and fail later, or not at all.
- The `csv` and `json` modules' quoting, escaping and byte encoding are not modelled. A
  JSON document is a dictionary of dictionaries, and a CSV file is a header and rows of
  cells.
- Export.ImportCsv: requires every row to have one cell per column. Ragged rows, which
  `csv.DictReader` pads or collects under `None`, are not modelled.
- Export.ImportJson: every entry of the JSON object is a dictionary. An entry of another
  JSON type is not modelled.
- Export.ImportDistinct and Export.ImportDistinctFile state the result only for entries
  that name different images. Export.ImportAllFacts covers the general case.
- Export.ExportCsv: Python iterates `all_fields` in set order when it fills a row. The
  model assigns the keys in sorted order, which yields the same cells.
- Editor.TemplateRoundTrip: holds for records whose values hold no line feed and are
  trimmed or all whitespace, and whose tags are well formed. Multi-line values split over
  several lines and are not round-tripped. Values with whitespace at only one end are not
  covered either.
- The editor session (`edit_metadata_editor`, `_get_editor`, `_command_exists`) is not
  modelled: it is environment lookup, a subprocess, and a temporary file.
- The command-line and graphical front ends are not modelled.
