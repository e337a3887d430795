/**
 * Exporting records to a JSON object or a CSV table (`export_metadata`), and importing
 * such a file back into the images it names (`import_metadata`).
 */
module Export {
  import opened Wrappers
  import opened Dicts
  import opened Text
  import opened Models
  import opened MetadataIO

  /** What an export writes: the JSON object of records, or the CSV header and rows. */
  datatype Document =
    | JsonDocument(records: Dict<Dict<Value>>)
    | CsvDocument(header: seq<string>, rows: seq<seq<string>>)

  /** The columns every CSV export starts with, in this order. */
  const StandardColumns: seq<string> :=
    ["image_path", "prompt", "model", "date", "description", "tags", "copyright", "artist"]

  // ---------------------------------------------------------------- JSON export

  /** The entries `json_dict[image_path] = metadata.to_json_dict()` assigns, in order. */
  function JsonEntries(records: Dict<ImageMetadata>): (r: Dict<Dict<Value>>)
    ensures |r| == |records|
  {
    seq(|records|, i requires 0 <= i < |records| => (records[i].0, ToJsonDict(records[i].1)))
  }

  /** `_export_json`'s object: the entries assigned one by one into an empty dictionary. */
  function JsonExport(records: Dict<ImageMetadata>): Dict<Dict<Value>> {
    Update([], JsonEntries(records))
  }

  /** `_export_json`: the loop filling `json_dict`. */
  method ExportJson(records: Dict<ImageMetadata>) returns (json: Dict<Dict<Value>>)
    ensures json == JsonExport(records)
  {
    json := [];
    var i := 0;
    while i < |records|
      invariant 0 <= i <= |records|
      invariant json == Update([], JsonEntries(records)[..i])
    {
      JsonExportSnoc(records, i);
      json := Set(json, records[i].0, ToJsonDict(records[i].1));
      i := i + 1;
    }
    assert JsonEntries(records)[..i] == JsonEntries(records);
  }

  lemma JsonExportSnoc(records: Dict<ImageMetadata>, i: nat)
    requires i < |records|
    ensures Update([], JsonEntries(records)[..i + 1]) ==
              Set(Update([], JsonEntries(records)[..i]), records[i].0, ToJsonDict(records[i].1))
  {
    var done := JsonEntries(records)[..i + 1];
    assert done[..i] == JsonEntries(records)[..i];
  }

  lemma {:induction false} JsonEntriesGet(records: Dict<ImageMetadata>, p: string)
    ensures Get(JsonEntries(records), p) == match Get(records, p)
      case None => None
      case Some(m) => Some(ToJsonDict(m))
    decreases |records|
  {
    if records != [] {
      assert JsonEntries(records)[1..] == JsonEntries(records[1..]);
      JsonEntriesGet(records[1..], p);
    }
  }

  lemma JsonEntriesDistinct(records: Dict<ImageMetadata>)
    requires DistinctKeys(records)
    ensures DistinctKeys(JsonEntries(records))
  {
  }

  /** Each path of a record map holds that record's `to_json_dict()` in the exported object,
      and no other key is there. */
  lemma JsonExportGet(records: Dict<ImageMetadata>, p: string)
    requires DistinctKeys(records)
    ensures Get(JsonExport(records), p) == match Get(records, p)
      case None => None
      case Some(m) => Some(ToJsonDict(m))
  {
    JsonEntriesDistinct(records);
    UpdateGet([], JsonEntries(records), p);
    JsonEntriesGet(records, p);
  }

  /** The exported object keeps tags as a list, and reading an exported record back with
      `from_json_dict` gives the record again whenever it is valid. */
  lemma JsonExportRoundTrip(records: Dict<ImageMetadata>, p: string, m: ImageMetadata)
    requires DistinctKeys(records) && Get(records, p) == Some(m)
    ensures Get(JsonExport(records), p).Some?
    ensures Get(Get(JsonExport(records), p).value, "tags") == Some(List(m.tags))
    ensures RecordFrom(Get(JsonExport(records), p).value, KeepKey) == Construct(m)
  {
    JsonExportGet(records, p);
    AsDictFields(m, List(m.tags));
    FromJsonDictRoundTrip(m);
  }

  // ---------------------------------------------------------------- CSV header

  /** The union of the custom keys of all records (`all_fields`). */
  function CustomKeys(records: Dict<ImageMetadata>): set<string>
    decreases |records|
  {
    if records == [] then {}
    else CustomKeys(records[..|records| - 1]) + KeySet(records[|records| - 1].1.customFields)
  }

  /** A key is collected exactly when some record has it as a custom key. */
  lemma {:induction false} CustomKeysMeans(records: Dict<ImageMetadata>, k: string)
    ensures k in CustomKeys(records) <==> exists i :: 0 <= i < |records| && k in KeySet(records[i].1.customFields)
    decreases |records|
  {
    if records != [] {
      var init := records[..|records| - 1];
      CustomKeysMeans(init, k);
      if k in CustomKeys(init) {
        var i :| 0 <= i < |init| && k in KeySet(init[i].1.customFields);
        assert records[i] == init[i];
      }
      if i :| 0 <= i < |records| && k in KeySet(records[i].1.customFields) {
        if i < |init| {
          assert records[i] == init[i];
        }
      }
    }
  }

  /** The loop gathering `all_fields`. */
  method CollectCustomKeys(records: Dict<ImageMetadata>) returns (all: set<string>)
    ensures all == CustomKeys(records)
  {
    all := {};
    var i := 0;
    while i < |records|
      invariant 0 <= i <= |records|
      invariant all == CustomKeys(records[..i])
    {
      assert records[..i + 1][..i] == records[..i];
      all := all + KeySet(records[i].1.customFields);
      i := i + 1;
    }
    assert records[..i] == records;
  }

  /** Strictly increasing in Python's string order. */
  predicate Increasing(s: seq<string>) {
    forall i, j :: 0 <= i < j < |s| ==> Less(s[i], s[j])
  }

  lemma LessAsymmetric(a: string, b: string)
    requires Less(a, b)
    ensures !Less(b, a)
  {
    if Less(b, a) {
      LessTransitive(a, b, a);
      LessIrreflexive(a);
    }
  }

  /** A non-empty finite set of strings has a least element. */
  lemma {:induction false} Least(s: set<string>) returns (x: string)
    requires s != {}
    ensures x in s && forall y :: y in s ==> x == y || Less(x, y)
    decreases |s|
  {
    var z :| z in s;
    if s == {z} {
      return z;
    }
    var m := Least(s - {z});
    LessTotal(z, m);
    if Less(z, m) {
      forall y | y in s ensures z == y || Less(z, y) {
        if y != z && y != m {
          LessTransitive(z, m, y);
        }
      }
      x := z;
    } else {
      x := m;
    }
  }

  /** `sorted(all_fields)`: the least remaining key is taken until none remains. */
  method SortedKeys(s: set<string>) returns (r: seq<string>)
    ensures Increasing(r)
    ensures forall x :: x in r <==> x in s
  {
    r := [];
    var rest := s;
    while rest != {}
      invariant rest <= s
      invariant Increasing(r)
      invariant forall x :: x in s <==> x in r || x in rest
      invariant forall x, y :: x in r && y in rest ==> Less(x, y)
      decreases |rest|
    {
      ghost var least := Least(rest);
      var x :| x in rest && forall y :: y in rest ==> x == y || Less(x, y);
      r := r + [x];
      rest := rest - {x};
    }
  }

  /** Two increasing sequences with the same elements are the same: the header's order is
      fully determined by its set of keys. */
  lemma {:induction false} IncreasingUnique(a: seq<string>, b: seq<string>)
    requires Increasing(a) && Increasing(b)
    requires forall x :: x in a <==> x in b
    ensures a == b
    decreases |a|
  {
    assert a == [] || a[0] in a;
    assert b == [] || b[0] in b;
    if a != [] && b != [] {
      assert a[0] in b && b[0] in a;
      if a[0] != b[0] {
        var i :| 0 <= i < |b| && b[i] == a[0];
        var j :| 0 <= j < |a| && a[j] == b[0];
        assert Less(b[0], a[0]) && Less(a[0], b[0]);
        LessAsymmetric(a[0], b[0]);
      }
      forall x ensures x in a[1..] <==> x in b[1..] {
        if x in a[1..] {
          var i :| 1 <= i < |a| && a[i] == x;
          LessIrreflexive(x);
          assert x != a[0];
        }
        if x in b[1..] {
          var i :| 1 <= i < |b| && b[i] == x;
          LessIrreflexive(x);
          assert x != b[0];
        }
        if x in a && x != a[0] {
          var i :| 0 <= i < |a| && a[i] == x;
          assert a[1..][i - 1] == x;
        }
        if x in b && x != b[0] {
          var i :| 0 <= i < |b| && b[i] == x;
          assert b[1..][i - 1] == x;
        }
      }
      IncreasingUnique(a[1..], b[1..]);
      assert a == [a[0]] + a[1..] && b == [b[0]] + b[1..];
    }
  }

  // ---------------------------------------------------------------- CSV rows

  /** The `row` dictionary's standard entries: absent optionals and no tags are empty. */
  function StandardRow(path: string, m: ImageMetadata): Dict<string> {
    [("image_path", path), ("prompt", m.prompt), ("model", m.model), ("date", OptionText(m.date)),
     ("description", OptionText(m.description)),
     ("tags", if m.tags != [] then JoinTags(m.tags) else ""),
     ("copyright", OptionText(m.copyright)), ("artist", OptionText(m.artist))]
  }

  /** `row[key] = metadata.custom_fields.get(key, "")` for each collected key. */
  function RowOf(path: string, m: ImageMetadata, keys: seq<string>): Dict<string>
    decreases |keys|
  {
    if keys == [] then StandardRow(path, m)
    else
      var key := keys[|keys| - 1];
      Set(RowOf(path, m, keys[..|keys| - 1]), key, GetOr(m.customFields, key, ""))
  }

  /** `csv.DictWriter.writerow`: each header column looked up in the row, `""` when absent. */
  function Cells(row: Dict<string>, header: seq<string>): (r: seq<string>)
    ensures |r| == |header|
  {
    seq(|header|, j requires 0 <= j < |header| => GetOr(row, header[j], ""))
  }

  /** The data rows for `records` under `header`, whose custom part follows the standard columns. */
  function Rows(records: Dict<ImageMetadata>, header: seq<string>): (r: seq<seq<string>>)
    requires |header| >= |StandardColumns|
    ensures |r| == |records|
  {
    seq(|records|, i requires 0 <= i < |records| =>
      Cells(RowOf(records[i].0, records[i].1, header[|StandardColumns|..]), header))
  }

  /** What `_export_csv` writes: the standard columns, then the collected custom keys sorted,
      and one row per record in input order. */
  ghost predicate CsvExported(records: Dict<ImageMetadata>, header: seq<string>, rows: seq<seq<string>>) {
    && |header| >= |StandardColumns|
    && header[..|StandardColumns|] == StandardColumns
    && Increasing(header[|StandardColumns|..])
    && (forall k :: k in header[|StandardColumns|..] <==> k in CustomKeys(records))
    && rows == Rows(records, header)
  }

  /** One row: the standard entries, then the custom keys assigned. */
  method BuildRow(path: string, m: ImageMetadata, keys: seq<string>) returns (row: Dict<string>)
    ensures row == RowOf(path, m, keys)
  {
    row := StandardRow(path, m);
    var i := 0;
    while i < |keys|
      invariant 0 <= i <= |keys|
      invariant row == RowOf(path, m, keys[..i])
    {
      assert keys[..i + 1][..i] == keys[..i];
      row := Set(row, keys[i], GetOr(m.customFields, keys[i], ""));
      i := i + 1;
    }
    assert keys[..i] == keys;
  }

  /** `_export_csv`. */
  method ExportCsv(records: Dict<ImageMetadata>) returns (header: seq<string>, rows: seq<seq<string>>)
    ensures CsvExported(records, header, rows)
  {
    if records == [] {
      header, rows := StandardColumns, [];
      assert header[|StandardColumns|..] == [];
      return;
    }
    var all := CollectCustomKeys(records);
    var keys := SortedKeys(all);
    header := StandardColumns + keys;
    assert header[..|StandardColumns|] == StandardColumns && header[|StandardColumns|..] == keys;
    rows := [];
    var i := 0;
    while i < |records|
      invariant 0 <= i <= |records|
      invariant rows == Rows(records[..i], header)
    {
      var row := BuildRow(records[i].0, records[i].1, keys);
      RowsSnoc(records, header, i);
      rows := rows + [Cells(row, header)];
      i := i + 1;
    }
    assert records[..i] == records;
  }

  lemma RowsSnoc(records: Dict<ImageMetadata>, header: seq<string>, i: nat)
    requires |header| >= |StandardColumns| && i < |records|
    ensures Rows(records[..i + 1], header) ==
              Rows(records[..i], header) + [Cells(RowOf(records[i].0, records[i].1, header[|StandardColumns|..]), header)]
  {
    var a, b := Rows(records[..i + 1], header), Rows(records[..i], header);
    forall k | 0 <= k < i ensures a[k] == b[k] {
      assert records[..i + 1][k] == records[..i][k];
    }
    assert records[..i + 1][i] == records[i];
  }

  /** `export_metadata`: the format token is compared lower-cased. */
  method ExportMetadata(records: Dict<ImageMetadata>, format: string) returns (r: Result<Document, Error>)
    ensures Lower(format) == "json" ==> r == Success(JsonDocument(JsonExport(records)))
    ensures Lower(format) == "csv" ==>
              r.Success? && r.value.CsvDocument? && CsvExported(records, r.value.header, r.value.rows)
    ensures Lower(format) != "json" && Lower(format) != "csv" ==> r == Failure(UnsupportedExportFormat(format))
  {
    if Lower(format) == "json" {
      var json := ExportJson(records);
      r := Success(JsonDocument(json));
    } else if Lower(format) == "csv" {
      var header, rows := ExportCsv(records);
      r := Success(CsvDocument(header, rows));
    } else {
      r := Failure(UnsupportedExportFormat(format));
    }
  }

  lemma FirstMember(s: seq<string>)
    ensures s == [] || s[0] in s
  {
  }

  /** With no records there are exactly the eight standard columns and no rows. */
  lemma CsvExportedEmpty(header: seq<string>, rows: seq<seq<string>>)
    requires CsvExported([], header, rows)
    ensures header == StandardColumns && rows == []
  {
    var extra := header[|StandardColumns|..];
    FirstMember(extra);
    assert header == header[..|StandardColumns|] + extra;
  }

  /** The header of an export is determined by the records: two exports agree. */
  lemma CsvHeaderDetermined(records: Dict<ImageMetadata>, h1: seq<string>, r1: seq<seq<string>>,
                            h2: seq<string>, r2: seq<seq<string>>)
    requires CsvExported(records, h1, r1) && CsvExported(records, h2, r2)
    ensures h1 == h2 && r1 == r2
  {
    IncreasingUnique(h1[|StandardColumns|..], h2[|StandardColumns|..]);
    assert h1 == h1[..|StandardColumns|] + h1[|StandardColumns|..];
    assert h2 == h2[..|StandardColumns|] + h2[|StandardColumns|..];
  }

  /** The value a record shows under a standard column. */
  function StandardCell(path: string, m: ImageMetadata, column: string): string {
    match Get(StandardRow(path, m), column)
    case Some(v) => v
    case None => ""
  }

  /** A row's entries: each collected key holds the record's custom value or `""`, and every
      other column its standard value. */
  lemma {:induction false} RowOfGet(path: string, m: ImageMetadata, keys: seq<string>, k: string)
    ensures Get(RowOf(path, m, keys), k) ==
              if k in keys then Some(GetOr(m.customFields, k, "")) else Get(StandardRow(path, m), k)
    decreases |keys|
  {
    if keys != [] {
      var init := keys[..|keys| - 1];
      RowOfGet(path, m, init, k);
      assert keys == init + [keys[|keys| - 1]];
    }
  }

  /** The cell of record `i` under column `j`: a collected custom key overrides the standard
      column of the same name, and gives `""` for a record without that key. */
  lemma CsvCell(records: Dict<ImageMetadata>, header: seq<string>, rows: seq<seq<string>>, i: nat, j: nat)
    requires CsvExported(records, header, rows) && i < |records| && j < |header|
    ensures rows[i][j] ==
              if header[j] in CustomKeys(records) then GetOr(records[i].1.customFields, header[j], "")
              else StandardCell(records[i].0, records[i].1, header[j])
  {
    var keys := header[|StandardColumns|..];
    RowOfGet(records[i].0, records[i].1, keys, header[j]);
  }

  // ---------------------------------------------------------------- import: paths

  /** The text of `Path(path).parent`: everything before the last `/`, `"/"` for a file
      at the root, `"."` for a bare name. */
  function Parent(path: string): string {
    match LastIndexOf(path, '/')
    case None => "."
    case Some(i) => if i == 0 then "/" else path[..i]
  }

  /** The text of `Path(dir) / p` for a relative `p`. */
  function JoinPath(dir: string, p: string): string {
    if p == "" then dir
    else if dir == "." then p
    else if dir == "/" then "/" + p
    else dir + "/" + p
  }

  /** The image an entry names: an absolute path as it is, a relative one beside the
      metadata file. */
  function Resolve(metadataFile: string, p: string): string {
    if StartsWith(p, "/") then p else JoinPath(Parent(metadataFile), p)
  }

  /** A resolved path is absolute exactly when the entry's path or the metadata file's is. */
  lemma ResolveAbsolute(metadataFile: string, p: string)
    ensures StartsWith(Resolve(metadataFile, p), "/") <==> StartsWith(p, "/") || StartsWith(metadataFile, "/")
  {
    var dir := Parent(metadataFile);
    match LastIndexOf(metadataFile, '/')
    case None =>
      assert dir == ".";
      assert !StartsWith(metadataFile, "/") || metadataFile[0] in metadataFile;
    case Some(i) =>
      if i == 0 {
        assert dir == "/";
      } else {
        assert dir[0] == metadataFile[0];
      }
  }

  /** A resolved path ends with the path the entry gives. */
  lemma ResolveKeepsName(metadataFile: string, p: string)
    ensures EndsWith(Resolve(metadataFile, p), p)
  {
    var dir := Parent(metadataFile);
    var r := Resolve(metadataFile, p);
    if !StartsWith(p, "/") && p != "" && dir != "." {
      assert r[|r| - |p|..] == p;
    }
  }

  // ---------------------------------------------------------------- import: the batch loop

  /** An import in progress: the paths written so far, in order, and the image files,
      keyed by path (a path absent from the map does not exist). */
  datatype Imported = Imported(updated: seq<string>, files: map<string, ImageFile>)

  /** One entry of a metadata file: the image path as written there, and the record built
      from its data (or the error building it raised). */
  datatype Entry = Entry(path: string, record: Result<ImageMetadata, Error>)

  /** How an image is written: `write_metadata` on an existing file, as a value, so that the
      loop's laws hold for any writer. */
  type Writer = (string, ImageFile, ImageMetadata) -> Result<ImageFile, Error>

  /** `write_metadata(path, m)` on the existing file `f`. */
  function WriteImage(path: string, f: ImageFile, m: ImageMetadata): Result<ImageFile, Error> {
    WriteResult(path, Some(f), m)
  }

  /** The file written for an entry, when its path exists, its record was built and the
      write succeeded. */
  function Outcome(files: map<string, ImageFile>, p: string, record: Result<ImageMetadata, Error>, write: Writer): (r: Option<ImageFile>)
    ensures r.Some? <==> p in files && record.Success? && write(p, files[p], record.value).Success?
  {
    if p !in files || record.Failure? then None
    else match write(p, files[p], record.value)
      case Success(f) => Some(f)
      case Failure(_) => None
  }

  /** One pass of the import loop: a skipped entry changes nothing; a written one is listed
      and its file replaced. */
  function ImportStep(st: Imported, p: string, record: Result<ImageMetadata, Error>, write: Writer): Imported {
    match Outcome(st.files, p, record, write)
    case None => st
    case Some(f) => Imported(st.updated + [p], st.files[p := f])
  }

  /** The import loop over `entries`, in order, for a metadata file at `metadataFile`. */
  function ImportAll(metadataFile: string, st: Imported, entries: seq<Entry>, write: Writer): Imported
    decreases |entries|
  {
    if entries == [] then st
    else
      var e := entries[|entries| - 1];
      ImportStep(ImportAll(metadataFile, st, entries[..|entries| - 1], write), Resolve(metadataFile, e.path), e.record, write)
  }

  lemma ImportAllSnoc(metadataFile: string, st: Imported, entries: seq<Entry>, write: Writer, i: nat)
    requires i < |entries|
    ensures ImportAll(metadataFile, st, entries[..i + 1], write) ==
            ImportStep(ImportAll(metadataFile, st, entries[..i], write), Resolve(metadataFile, entries[i].path), entries[i].record, write)
  {
    assert entries[..i + 1][..i] == entries[..i];
    assert entries[..i + 1][i] == entries[i];
  }

  /** The resolved paths of `entries`, in order. */
  function Resolved(metadataFile: string, entries: seq<Entry>): (r: seq<string>)
    ensures |r| == |entries|
  {
    seq(|entries|, i requires 0 <= i < |entries| => Resolve(metadataFile, entries[i].path))
  }

  /** `a` is `b` with some elements left out, the rest in the same order. */
  predicate Subsequence(a: seq<string>, b: seq<string>)
    decreases |b|
  {
    if b == [] then a == []
    else Subsequence(a, b[..|b| - 1]) ||
         (a != [] && a[|a| - 1] == b[|b| - 1] && Subsequence(a[..|a| - 1], b[..|b| - 1]))
  }

  lemma {:induction false} SubsequenceMember(a: seq<string>, b: seq<string>, x: string)
    requires Subsequence(a, b) && x in a
    ensures x in b
    decreases |b|
  {
    var b0 := b[..|b| - 1];
    if Subsequence(a, b0) {
      SubsequenceMember(a, b0, x);
    } else if x != a[|a| - 1] {
      assert a == a[..|a| - 1] + [a[|a| - 1]];
      SubsequenceMember(a[..|a| - 1], b0, x);
    }
  }

  lemma SubsequenceSnoc(a: seq<string>, b: seq<string>, x: string)
    requires Subsequence(a, b)
    ensures Subsequence(a, b + [x]) && Subsequence(a + [x], b + [x])
  {
    assert (b + [x])[..|b|] == b;
    assert (a + [x])[..|a|] == a;
  }

  /** The loop keeps every path, lists only existing paths, never unlists one, and lists
      a subsequence of the entries' resolved paths, in input order. */
  lemma {:induction false} ImportAllFacts(metadataFile: string, st: Imported, entries: seq<Entry>, write: Writer)
    ensures var r := ImportAll(metadataFile, st, entries, write);
      && r.files.Keys == st.files.Keys
      && |st.updated| <= |r.updated| <= |st.updated| + |entries|
      && r.updated[..|st.updated|] == st.updated
      && (forall j :: |st.updated| <= j < |r.updated| ==> r.updated[j] in st.files)
      && Subsequence(r.updated[|st.updated|..], Resolved(metadataFile, entries))
    decreases |entries|
  {
    if entries != [] {
      var n := |entries| - 1;
      var init := entries[..n];
      var prev := ImportAll(metadataFile, st, init, write);
      ImportAllFacts(metadataFile, st, init, write);
      var p := Resolve(metadataFile, entries[n].path);
      assert Resolved(metadataFile, entries) == Resolved(metadataFile, init) + [p];
      var added := prev.updated[|st.updated|..];
      match Outcome(prev.files, p, entries[n].record, write)
      case None =>
        SubsequenceSnoc(added, Resolved(metadataFile, init), p);
      case Some(f) =>
        var r := ImportAll(metadataFile, st, entries, write);
        assert r.updated == prev.updated + [p];
        assert r.updated[|st.updated|..] == added + [p];
        SubsequenceSnoc(added, Resolved(metadataFile, init), p);
    }
  }

  /** A file no entry resolves to is left as it was. */
  lemma {:induction false} ImportAllElsewhere(metadataFile: string, st: Imported, entries: seq<Entry>, write: Writer, q: string)
    requires q in st.files && q !in Resolved(metadataFile, entries)
    ensures var r := ImportAll(metadataFile, st, entries, write); q in r.files && r.files[q] == st.files[q]
    decreases |entries|
  {
    if entries != [] {
      var n := |entries| - 1;
      assert Resolved(metadataFile, entries) == Resolved(metadataFile, entries[..n]) + [Resolve(metadataFile, entries[n].path)];
      ImportAllElsewhere(metadataFile, st, entries[..n], write, q);
    }
  }

  predicate Distinct(s: seq<string>) {
    forall i, j :: 0 <= i < j < |s| ==> s[i] != s[j]
  }

  /** The reference answer of an import whose entries name different images: the resolved
      paths, in input order, of the entries whose image exists and whose record was built
      and written, each judged against the files as they were before the import. */
  function Accepted(metadataFile: string, files: map<string, ImageFile>, entries: seq<Entry>, write: Writer): seq<string>
    decreases |entries|
  {
    if entries == [] then []
    else
      var e := entries[|entries| - 1];
      var p := Resolve(metadataFile, e.path);
      Accepted(metadataFile, files, entries[..|entries| - 1], write) + (if Outcome(files, p, e.record, write).Some? then [p] else [])
  }

  /** Entries that resolve to different paths resolve, without the last, to different paths
      none of which is the last one's. */
  lemma DistinctInit(metadataFile: string, entries: seq<Entry>)
    requires entries != [] && Distinct(Resolved(metadataFile, entries))
    ensures var n := |entries| - 1;
      && Distinct(Resolved(metadataFile, entries[..n]))
      && Resolve(metadataFile, entries[n].path) !in Resolved(metadataFile, entries[..n])
  {
    var n := |entries| - 1;
    var rs := Resolved(metadataFile, entries);
    assert Resolved(metadataFile, entries[..n]) == rs[..n];
    forall j | 0 <= j < n ensures rs[..n][j] != rs[n] { }
  }

  /** When the entries resolve to different paths, the import lists exactly the accepted
      paths, in input order. */
  lemma {:induction false} ImportDistinct(metadataFile: string, st: Imported, entries: seq<Entry>, write: Writer)
    requires Distinct(Resolved(metadataFile, entries))
    ensures ImportAll(metadataFile, st, entries, write).updated == st.updated + Accepted(metadataFile, st.files, entries, write)
    decreases |entries|
  {
    if entries != [] {
      var n := |entries| - 1;
      var init := entries[..n];
      DistinctInit(metadataFile, entries);
      ImportDistinct(metadataFile, st, init, write);
      ImportAllFacts(metadataFile, st, init, write);
      var prev := ImportAll(metadataFile, st, init, write);
      var p := Resolve(metadataFile, entries[n].path);
      if p in st.files {
        ImportAllElsewhere(metadataFile, st, init, write, p);
      }
      assert Outcome(prev.files, p, entries[n].record, write) == Outcome(st.files, p, entries[n].record, write);
    }
  }

  /** When the entries resolve to different paths, each existing image ends as the write of
      its entry's record made it from the original file, or unchanged when that entry was
      skipped. */
  lemma {:induction false} ImportDistinctFile(metadataFile: string, st: Imported, entries: seq<Entry>, write: Writer, i: nat)
    requires Distinct(Resolved(metadataFile, entries))
    requires i < |entries| && Resolve(metadataFile, entries[i].path) in st.files
    ensures var p := Resolve(metadataFile, entries[i].path);
      var r := ImportAll(metadataFile, st, entries, write);
      p in r.files && r.files[p] == match Outcome(st.files, p, entries[i].record, write)
                                    case Some(f) => f
                                    case None => st.files[p]
    decreases |entries|
  {
    var n := |entries| - 1;
    if i == n {
      DistinctFileLast(metadataFile, st, entries, write);
    } else {
      var init := entries[..n];
      DistinctInit(metadataFile, entries);
      assert init[i] == entries[i];
      ImportDistinctFile(metadataFile, st, init, write, i);
      DistinctFileEarlier(metadataFile, st, entries, write, i);
    }
  }

  /** The last entry's image is written from the file as it was before the import. */
  lemma DistinctFileLast(metadataFile: string, st: Imported, entries: seq<Entry>, write: Writer)
    requires Distinct(Resolved(metadataFile, entries))
    requires entries != [] && Resolve(metadataFile, entries[|entries| - 1].path) in st.files
    ensures var n := |entries| - 1;
      var p := Resolve(metadataFile, entries[n].path);
      var r := ImportAll(metadataFile, st, entries, write);
      p in r.files && r.files[p] == match Outcome(st.files, p, entries[n].record, write)
                                    case Some(f) => f
                                    case None => st.files[p]
  {
    var n := |entries| - 1;
    var init := entries[..n];
    DistinctInit(metadataFile, entries);
    var p := Resolve(metadataFile, entries[n].path);
    ImportAllElsewhere(metadataFile, st, init, write, p);
    var prev := ImportAll(metadataFile, st, init, write);
    assert Outcome(prev.files, p, entries[n].record, write) == Outcome(st.files, p, entries[n].record, write);
  }

  /** An earlier entry's image is untouched by the last entry, which resolves elsewhere. */
  lemma DistinctFileEarlier(metadataFile: string, st: Imported, entries: seq<Entry>, write: Writer, i: nat)
    requires Distinct(Resolved(metadataFile, entries))
    requires i < |entries| - 1 && Resolve(metadataFile, entries[i].path) in st.files
    requires var p := Resolve(metadataFile, entries[i].path);
      var r := ImportAll(metadataFile, st, entries[..|entries| - 1], write);
      p in r.files && r.files[p] == match Outcome(st.files, p, entries[i].record, write)
                                    case Some(f) => f
                                    case None => st.files[p]
    ensures var p := Resolve(metadataFile, entries[i].path);
      var r := ImportAll(metadataFile, st, entries, write);
      p in r.files && r.files[p] == match Outcome(st.files, p, entries[i].record, write)
                                    case Some(f) => f
                                    case None => st.files[p]
  {
    var n := |entries| - 1;
    var prev := ImportAll(metadataFile, st, entries[..n], write);
    var rs := Resolved(metadataFile, entries);
    var p := Resolve(metadataFile, entries[i].path);
    assert rs[i] == p && rs[i] != rs[n];
    var pn := Resolve(metadataFile, entries[n].path);
    assert ImportAll(metadataFile, st, entries, write) == ImportStep(prev, pn, entries[n].record, write);
  }

  // ---------------------------------------------------------------- import: JSON

  /** The entries of a JSON metadata object: each path with the record `from_json_dict`
      builds from its object. */
  function JsonImportEntries(json: Dict<Dict<Value>>): (r: seq<Entry>)
    ensures |r| == |json|
  {
    seq(|json|, i requires 0 <= i < |json| => Entry(json[i].0, RecordFrom(json[i].1, KeepKey)))
  }

  /** The body of both import loops: an existing image whose record builds and whose
      metadata is written is listed and replaced; otherwise nothing changes. */
  method ImportEntry(st: Imported, path: string, data: Dict<Value>, rule: KeyRule) returns (r: Imported)
    ensures r == ImportStep(st, path, RecordFrom(data, rule), WriteImage)
  {
    r := st;
    if path in st.files {
      var record;
      if rule == KeepKey {
        record := FromJsonDict(data);
      } else {
        record := FromDict(data);
      }
      if record.Success? {
        var written := WriteMetadata(path, Some(st.files[path]), record.value);
        if written.Success? {
          r := Imported(st.updated + [path], st.files[path := written.value]);
        }
      }
    }
  }

  /** `_import_json`: the loop over the object's entries, skipping a path that does not exist
      and an entry whose record cannot be built or written. */
  method ImportJson(metadataFile: string, json: Dict<Dict<Value>>, files: map<string, ImageFile>) returns (r: Imported)
    ensures r == ImportAll(metadataFile, Imported([], files), JsonImportEntries(json), WriteImage)
  {
    var entries := JsonImportEntries(json);
    r := Imported([], files);
    var i := 0;
    while i < |json|
      invariant 0 <= i <= |json|
      invariant r == ImportAll(metadataFile, Imported([], files), entries[..i], WriteImage)
    {
      var (name, data) := json[i];
      var path := Resolve(metadataFile, name);
      ImportAllSnoc(metadataFile, Imported([], files), entries, WriteImage, i);
      r := ImportEntry(r, path, data, KeepKey);
      i := i + 1;
    }
    assert entries[..|json|] == entries;
  }

  // ---------------------------------------------------------------- import: CSV

  /** A CSV metadata file as `csv.DictReader` sees it: the header's column names and the rows
      of cells. */
  datatype CsvTable = CsvTable(columns: seq<string>, rows: seq<seq<string>>)

  /** Every row has one cell per column. */
  predicate Rectangular(table: CsvTable) {
    forall i :: 0 <= i < |table.rows| ==> |table.rows[i]| == |table.columns|
  }

  /** The dictionary `csv.DictReader` yields for a row: each column assigned its cell, in
      column order, so that a repeated column name keeps its last cell. */
  function RowDict(columns: seq<string>, cells: seq<string>): (r: Dict<string>)
    requires |cells| == |columns|
    ensures DistinctKeys(r)
    decreases |columns|
  {
    if columns == [] then []
    else
      var n := |columns| - 1;
      var init := RowDict(columns[..n], cells[..n]);
      SetDistinct(init, columns[n], cells[n]);
      Set(init, columns[n], cells[n])
  }

  /** A column holds the cell of its last occurrence in the header. */
  lemma {:induction false} RowDictGet(columns: seq<string>, cells: seq<string>, j: nat)
    requires |cells| == |columns| && j < |columns|
    requires forall l :: j < l < |columns| ==> columns[l] != columns[j]
    ensures Get(RowDict(columns, cells), columns[j]) == Some(cells[j])
    decreases |columns|
  {
    var n := |columns| - 1;
    if j < n {
      var cs := columns[..n];
      assert forall l :: j < l < n ==> cs[l] == columns[l];
      RowDictGet(cs, cells[..n], j);
      RowDictEarlier(columns, cells, j);
    } else {
      RowDictLast(columns, cells);
    }
  }

  /** The last column's cell is stored under its name. */
  lemma RowDictLast(columns: seq<string>, cells: seq<string>)
    requires |cells| == |columns| && columns != []
    ensures Get(RowDict(columns, cells), columns[|columns| - 1]) == Some(cells[|cells| - 1])
  {
    var n := |columns| - 1;
    assert RowDict(columns, cells) == Set(RowDict(columns[..n], cells[..n]), columns[n], cells[n]);
  }

  /** A later column with another name leaves an earlier column's cell in place. */
  lemma RowDictEarlier(columns: seq<string>, cells: seq<string>, j: nat)
    requires |cells| == |columns| && j < |columns| - 1 && columns[|columns| - 1] != columns[j]
    requires var n := |columns| - 1;
      Get(RowDict(columns[..n], cells[..n]), columns[..n][j]) == Some(cells[..n][j])
    ensures Get(RowDict(columns, cells), columns[j]) == Some(cells[j])
  {
    var n := |columns| - 1;
    assert columns[..n][j] == columns[j] && cells[..n][j] == cells[j];
    var init := RowDict(columns[..n], cells[..n]);
    assert RowDict(columns, cells) == Set(init, columns[n], cells[n]);
  }

  /** A name that is not a column has no value. */
  lemma {:induction false} RowDictMissing(columns: seq<string>, cells: seq<string>, k: string)
    requires |cells| == |columns| && k !in columns
    ensures Get(RowDict(columns, cells), k) == None
    decreases |columns|
  {
    if columns != [] {
      var n := |columns| - 1;
      assert columns[n] in columns;
      assert k !in columns[..n];
      RowDictMissing(columns[..n], cells[..n], k);
    }
  }

  /** `standard_fields` of `_import_csv`. */
  const StandardFields: set<string> :=
    {"image_path", "prompt", "model", "date", "description", "tags", "copyright", "artist"}

  /** `row.get(key) or None`: a missing or empty cell is no value. */
  function CellText(row: Dict<string>, key: string): (r: Option<string>)
    ensures r.None? <==> Get(row, key) == None || Get(row, key) == Some("")
    ensures r.Some? ==> Get(row, key) == r
  {
    match Get(row, key)
    case Some(v) => if v != "" then Some(v) else None
    case None => None
  }

  /** The custom fields of a row: every non-standard column with a non-empty cell, in order. */
  function CustomColumns(row: Dict<string>): Dict<string>
    decreases |row|
  {
    if row == [] then []
    else
      var init := CustomColumns(row[..|row| - 1]);
      var (k, v) := row[|row| - 1];
      if k !in StandardFields && v != "" then Set(init, k, v) else init
  }

  /** Every non-standard column with a non-empty cell is a custom field holding that cell,
      and nothing else is. */
  lemma {:induction false} CustomColumnsGet(row: Dict<string>, k: string)
    requires DistinctKeys(row)
    ensures Get(CustomColumns(row), k) == if k in StandardFields then None else CellText(row, k)
    decreases |row|
  {
    if row != [] {
      var n := |row| - 1;
      var init := row[..n];
      assert DistinctKeys(init);
      CustomColumnsGet(init, k);
      if row[n].0 == k {
        GetLast(row);
        assert k !in KeySet(init) by {
          forall i | 0 <= i < n ensures init[i].0 != k {
            assert init[i] == row[i];
          }
        }
      } else {
        GetPrefix(row, k);
      }
    }
  }

  /** The metadata dictionary `_import_csv` builds from a row: the seven standard fields,
      and `custom_fields` only when the row has some. */
  function CsvRowToDict(row: Dict<string>): Dict<Value> {
    var m := CsvFields(row);
    var d := StandardEntries(m, Str(GetOr(row, "tags", "")));
    if m.customFields != [] then d + [("custom_fields", Obj(m.customFields))] else d
  }

  /** The record a row describes: prompt, model and the tag string as they are, an empty or
      missing optional cell as no value, and the custom columns as custom fields. */
  function CsvFields(row: Dict<string>): ImageMetadata {
    ImageMetadata(GetOr(row, "prompt", ""), GetOr(row, "model", ""), CellText(row, "date"),
                  CellText(row, "description"), ParseTags(GetOr(row, "tags", "")),
                  CellText(row, "copyright"), CellText(row, "artist"), CustomColumns(row))
  }

  /** `from_dict` on a row's dictionary constructs the record the row describes. */
  lemma CsvRecord(row: Dict<string>)
    ensures RecordFrom(CsvRowToDict(row), StripCustomPrefix) == Construct(CsvFields(row))
  {
    var m := CsvFields(row);
    var tags := Str(GetOr(row, "tags", ""));
    AsDictTags(m, tags);
    if m.customFields != [] {
      CsvDictFull(row);
      RecordFromAsDict(m, tags, StripCustomPrefix);
    } else {
      CsvDictShort(row);
      CsvRecordWithout(CsvRowToDict(row), AsDict(m, tags), m, tags);
    }
  }

  /** With custom columns, a row's dictionary is `asdict` of the record it describes. */
  lemma CsvDictFull(row: Dict<string>)
    requires CustomColumns(row) != []
    ensures CsvRowToDict(row) == AsDict(CsvFields(row), Str(GetOr(row, "tags", "")))
  {
    AsDictSplit(CsvFields(row), Str(GetOr(row, "tags", "")));
  }

  /** Without custom columns, it is that dictionary less its last entry. */
  lemma CsvDictShort(row: Dict<string>)
    requires CustomColumns(row) == []
    ensures AsDict(CsvFields(row), Str(GetOr(row, "tags", ""))) == CsvRowToDict(row) + [("custom_fields", Obj([]))]
  {
    AsDictSplit(CsvFields(row), Str(GetOr(row, "tags", "")));
  }

  lemma CsvRecordWithout(d: Dict<Value>, full: Dict<Value>, m: ImageMetadata, tags: Value)
    requires m.customFields == [] && full == AsDict(m, tags) && TagsOf(full) == m.tags
    requires full == d + [("custom_fields", Obj(m.customFields))]
    ensures RecordFrom(d, StripCustomPrefix) == Construct(m)
  {
    AsDictFields(m, tags);
    WithoutLastGets(d, full, "prompt", "model", "date", "description");
    WithoutLastGets(d, full, "tags", "copyright", "artist", "tags");
    WithoutLastSeed(d, full);
    CollectStandardOnly([], d, StripCustomPrefix);
    RecordFromFields(d, m, StripCustomPrefix);
  }

  /** Dropping the `custom_fields` entry keeps the other keys' values. */
  lemma WithoutLastGets(d: Dict<Value>, full: Dict<Value>, k1: string, k2: string, k3: string, k4: string)
    requires full == d + [("custom_fields", Obj([]))]
    requires k1 != "custom_fields" && k2 != "custom_fields" && k3 != "custom_fields" && k4 != "custom_fields"
    ensures Get(d, k1) == Get(full, k1) && Get(d, k2) == Get(full, k2)
    ensures Get(d, k3) == Get(full, k3) && Get(d, k4) == Get(full, k4)
  {
    assert d == full[..|full| - 1];
    GetPrefix(full, k1); GetPrefix(full, k2); GetPrefix(full, k3); GetPrefix(full, k4);
  }

  /** Without its `custom_fields` entry, `asdict(m)` seeds no custom field and holds only
      standard keys. */
  lemma WithoutLastSeed(d: Dict<Value>, full: Dict<Value>)
    requires DistinctKeys(full) && full == d + [("custom_fields", Obj([]))]
    requires forall i :: 0 <= i < |full| ==> full[i].0 in StandardKeys
    ensures SeedOf(d) == []
    ensures forall i :: 0 <= i < |d| ==> d[i].0 in StandardKeys
  {
    var n := |full| - 1;
    assert "custom_fields" !in KeySet(d) by {
      forall i | 0 <= i < n ensures d[i].0 != full[n].0 {
        assert d[i] == full[i];
      }
    }
    forall i | 0 <= i < |d| ensures d[i].0 in StandardKeys {
      assert d[i] == full[i];
    }
  }

  /** The entries of a CSV metadata file: each row's `image_path` cell with the record the
      row describes (which `from_dict` builds from the row's dictionary, by `CsvRecord`). */
  function CsvImportEntries(table: CsvTable): (r: seq<Entry>)
    requires Rectangular(table)
    ensures |r| == |table.rows|
  {
    seq(|table.rows|, i requires 0 <= i < |table.rows| =>
      var row := RowDict(table.columns, table.rows[i]);
      Entry(GetOr(row, "image_path", ""), Construct(CsvFields(row))))
  }

  /** One pass of `_import_csv`'s loop: row `i` read as a dictionary, its `image_path`
      resolved, and its record built and written. */
  method ImportRow(metadataFile: string, st: Imported, table: CsvTable, i: nat) returns (r: Imported)
    requires Rectangular(table) && i < |table.rows|
    ensures var e := CsvImportEntries(table)[i];
            r == ImportStep(st, Resolve(metadataFile, e.path), e.record, WriteImage)
  {
    var row := RowDict(table.columns, table.rows[i]);
    var path := Resolve(metadataFile, GetOr(row, "image_path", ""));
    r := ImportEntry(st, path, CsvRowToDict(row), StripCustomPrefix);
    CsvRecord(row);
  }

  /** The loop of `_import_csv` over the rows, in order. */
  method ImportRows(metadataFile: string, table: CsvTable, files: map<string, ImageFile>) returns (st: Imported)
    requires Rectangular(table)
    ensures st == ImportAll(metadataFile, Imported([], files), CsvImportEntries(table), WriteImage)
  {
    var entries := CsvImportEntries(table);
    st := Imported([], files);
    var i := 0;
    while i < |table.rows|
      invariant 0 <= i <= |table.rows|
      invariant st == ImportAll(metadataFile, Imported([], files), entries[..i], WriteImage)
    {
      ImportAllSnoc(metadataFile, Imported([], files), entries, WriteImage, i);
      st := ImportRow(metadataFile, st, table, i);
      i := i + 1;
    }
    assert entries[..|table.rows|] == entries;
  }

  /** `_import_csv`: refused before any row without an `image_path` column; otherwise the
      loop over the rows, skipping a path that does not exist and a row whose record cannot
      be built or written. */
  method ImportCsv(metadataFile: string, table: CsvTable, files: map<string, ImageFile>) returns (r: Result<Imported, Error>)
    requires Rectangular(table)
    ensures "image_path" !in table.columns ==> r == Failure(MissingImagePathColumn)
    ensures "image_path" in table.columns ==>
              r == Success(ImportAll(metadataFile, Imported([], files), CsvImportEntries(table), WriteImage))
  {
    if "image_path" !in table.columns {
      return Failure(MissingImagePathColumn);
    }
    var st := ImportRows(metadataFile, table, files);
    return Success(st);
  }

  /** `import_metadata`: a `.json` or `.csv` file, whatever the case of its suffix, is
      imported by its format; any other suffix is refused. */
  method ImportMetadata(metadataFile: string, json: Dict<Dict<Value>>, table: CsvTable, files: map<string, ImageFile>)
    returns (r: Result<Imported, Error>)
    requires Extension(metadataFile) == ".csv" ==> Rectangular(table)
    ensures Extension(metadataFile) == ".json" ==>
              r == Success(ImportAll(metadataFile, Imported([], files), JsonImportEntries(json), WriteImage))
    ensures Extension(metadataFile) == ".csv" && "image_path" !in table.columns ==> r == Failure(MissingImagePathColumn)
    ensures Extension(metadataFile) == ".csv" && "image_path" in table.columns ==>
              r == Success(ImportAll(metadataFile, Imported([], files), CsvImportEntries(table), WriteImage))
    ensures Extension(metadataFile) != ".json" && Extension(metadataFile) != ".csv" ==>
              r == Failure(UnsupportedImportFormat(Extension(metadataFile)))
  {
    var ext := Extension(metadataFile);
    if ext == ".json" {
      var imported := ImportJson(metadataFile, json, files);
      r := Success(imported);
    } else if ext == ".csv" {
      r := ImportCsv(metadataFile, table, files);
    } else {
      r := Failure(UnsupportedImportFormat(ext));
    }
  }
}
