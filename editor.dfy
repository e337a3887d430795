/**
 * The text template of the external-editor workflow: a record rendered as `key: value`
 * lines among `#` comments (`_create_template`), and an edited template parsed back into a
 * record (`_parse_template`). Launching the editor and the temporary file are not modelled.
 */
module Editor {
  import opened Wrappers
  import opened Dicts
  import opened Text
  import opened Models
  import opened MetadataIO

  // ---------------------------------------------------------------- rendering

  const TitleComment: string := "# Image Metadata"
  const IgnoredComment: string := "# Lines starting with # are ignored"
  const KeepComment: string := "# Leave fields empty to keep existing values"
  // Written in two pieces, which keeps the proof that it holds no line feed small.
  const CustomComment: string := "# Custom fields (key: " + "value format, one per line)"
  const ExistingComment: string := "# Existing custom fields:"
  const AddComment: string := "# Add new custom fields below (key: value)"

  /** The text made of `lines`, each ended by a line feed. */
  function Render(lines: seq<string>): string
    decreases |lines|
  {
    if lines == [] then "" else lines[0] + "\n" + Render(lines[1..])
  }

  lemma {:induction false} RenderAppend(a: seq<string>, b: seq<string>)
    ensures Render(a + b) == Render(a) + Render(b)
    decreases |a|
  {
    if a == [] {
      assert a + b == b;
    } else {
      assert (a + b)[0] == a[0];
      assert (a + b)[1..] == a[1..] + b;
      RenderAppend(a[1..], b);
      assert Render(a + b) == a[0] + "\n" + Render(a[1..] + b);
      assert a[0] + "\n" + (Render(a[1..]) + Render(b)) == (a[0] + "\n" + Render(a[1..])) + Render(b);
    }
  }

  /** Rendering one more line appends it and its line feed. */
  lemma RenderSnoc(a: seq<string>, line: string)
    ensures Render(a + [line]) == Render(a) + line + "\n"
  {
    RenderAppend(a, [line]);
    assert Render([line]) == line + "\n" + "";
  }

  /** Rendering a blank line and then `line` appends two line feeds around `line`. */
  lemma RenderBlankThen(a: seq<string>, line: string)
    ensures Render(a + ["", line]) == Render(a) + "\n" + line + "\n"
  {
    RenderSnoc(a, "");
    RenderSnoc(a + [""], line);
    assert a + [""] + [line] == a + ["", line];
    assert Render(a) + "" == Render(a);
  }

  /** Splitting rendered single lines at the line feeds gives the lines back, and the empty
      text after the last line feed. */
  lemma {:induction false} SplitRender(lines: seq<string>)
    requires forall i :: 0 <= i < |lines| ==> '\n' !in lines[i]
    ensures Split(Render(lines), '\n') == lines + [""]
    decreases |lines|
  {
    if lines != [] {
      var rest := lines[1..];
      SplitRender(rest);
      SplitAfterPiece(lines[0], '\n', Render(rest));
      assert lines[0] + "\n" + Render(rest) == lines[0] + ['\n'] + Render(rest);
      assert lines == [lines[0]] + rest;
    }
  }

  /** The `key: value` lines of the seven standard fields; an absent optional field is empty,
      tags are joined with `", "`. */
  function FieldLines(m: ImageMetadata): (r: seq<string>)
    ensures |r| == 7
  {
    ["prompt: " + m.prompt, "model: " + m.model, "date: " + OptionText(m.date),
     "description: " + OptionText(m.description), "tags: " + JoinTags(m.tags),
     "copyright: " + OptionText(m.copyright), "artist: " + OptionText(m.artist)]
  }

  /** The formatted part of the template: three comments, a blank line, the field lines,
      a blank line and the custom-field heading. */
  function HeaderLines(m: ImageMetadata): seq<string> {
    [TitleComment, IgnoredComment, KeepComment, ""] + FieldLines(m) + ["", CustomComment]
  }

  /** Each custom field shown as a comment `# key: value`. */
  function CommentLines(fields: Dict<string>): (r: seq<string>)
    ensures |r| == |fields|
  {
    seq(|fields|, i requires 0 <= i < |fields| => "# " + fields[i].0 + ": " + fields[i].1)
  }

  /** The lines after the header: the existing custom fields as comments (only when there
      are some), then the closing comment. */
  function TrailerLines(m: ImageMetadata): seq<string> {
    (if m.customFields != [] then ["", ExistingComment] + CommentLines(m.customFields) else []) + ["", AddComment]
  }

  function TemplateLines(m: ImageMetadata): seq<string> {
    HeaderLines(m) + TrailerLines(m)
  }

  /** `_create_template`: the formatted header, then one comment line per custom field,
      then the closing comment. */
  method CreateTemplate(m: ImageMetadata) returns (template: string)
    ensures template == Render(TemplateLines(m))
  {
    var header := HeaderLines(m);
    template := Render(header);
    var shown: seq<string> := [];
    if m.customFields != [] {
      RenderBlankThen(header, ExistingComment);
      template := template + "\n" + ExistingComment + "\n";
      shown := ["", ExistingComment];
      var comments := CommentLines(m.customFields);
      var i := 0;
      while i < |m.customFields|
        invariant 0 <= i <= |m.customFields|
        invariant shown == ["", ExistingComment] + comments[..i]
        invariant template == Render(header + shown)
      {
        var (key, value) := m.customFields[i];
        RenderSnoc(header + shown, comments[i]);
        assert header + shown + [comments[i]] == header + (shown + [comments[i]]);
        assert comments[..i + 1] == comments[..i] + [comments[i]];
        template := template + ("# " + key + ": " + value) + "\n";
        shown := shown + [comments[i]];
        i := i + 1;
      }
      assert comments[..|m.customFields|] == comments;
    } else {
      assert header + shown == header;
    }
    RenderBlankThen(header + shown, AddComment);
    template := template + "\n" + AddComment + "\n";
    assert TrailerLines(m) == shown + ["", AddComment];
    assert header + shown + ["", AddComment] == header + (shown + ["", AddComment]);
  }

  // ---------------------------------------------------------------- parsing

  /** The dictionary the parser starts from. */
  const InitialDraft: Dict<Value> :=
    [("prompt", Str("")), ("model", Str("")), ("tags", List([])), ("custom_fields", Obj([]))]

  /** The key and value a line assigns, or `None` for a line the parser skips: a blank line,
      a comment, or a line without `:`. The key is lower-case, trimmed and free of `:`; the
      value is trimmed. */
  function LineEntry(line: string): (r: Option<(string, string)>)
    ensures r.None? <==> AllSpace(line) || StartsWith(Strip(line), "#") || ':' !in line
    ensures r.Some? ==> IsLowerAscii(r.value.0) && IsTrimmed(r.value.0) && ':' !in r.value.0
    ensures r.Some? ==> IsTrimmed(r.value.1)
  {
    var t := Strip(line);
    StripKeepsNonSpace(line, ':');
    if t == [] || StartsWith(t, "#") then None
    else if ':' !in t then None
    else
      var (k, v) := SplitOnce(t, ':');
      KeyNoColon(k);
      Some((Lower(Strip(k)), Strip(v)))
  }

  /** A key cut before the first `:` has none after stripping and lower-casing. */
  lemma KeyNoColon(k: string)
    ensures ':' !in k ==> ':' !in Lower(Strip(k))
  {
    var key := Lower(Strip(k));
    forall i | 0 <= i < |key| ensures ':' !in k ==> key[i] != ':' {
      assert Strip(k)[i] in k;
    }
  }

  /** `value if value else None` */
  function OrNull(value: string): Value {
    if value != "" then Str(value) else Null
  }

  /** The assignment a parsed line makes: a standard key sets its field (an empty optional
      value clears it, an empty tag list leaves the tags alone), any other key sets a custom
      field. */
  function Assign(d: Dict<Value>, key: string, value: string): Dict<Value> {
    if key == "prompt" then Set(d, "prompt", Str(value))
    else if key == "model" then Set(d, "model", Str(value))
    else if key == "date" then Set(d, "date", OrNull(value))
    else if key == "description" then Set(d, "description", OrNull(value))
    else if key == "tags" then (if value != "" then Set(d, "tags", List(ParseTags(value))) else d)
    else if key == "copyright" then Set(d, "copyright", OrNull(value))
    else if key == "artist" then Set(d, "artist", OrNull(value))
    else Set(d, "custom_fields", Obj(Set(SeedOf(d), key, value)))
  }

  function Step(d: Dict<Value>, line: string): Dict<Value> {
    match LineEntry(line)
    case None => d
    case Some((key, value)) => Assign(d, key, value)
  }

  /** The dictionary after the parser has seen `lines`, in order. */
  function ParseLines(d: Dict<Value>, lines: seq<string>): Dict<Value>
    decreases |lines|
  {
    if lines == [] then d else Step(ParseLines(d, lines[..|lines| - 1]), lines[|lines| - 1])
  }

  /** The dictionary parsed from a template's text. */
  function Draft(content: string): Dict<Value> {
    ParseLines(InitialDraft, Split(content, '\n'))
  }

  /** The branches of `_parse_template` that store one key and value. */
  method AssignEntry(d: Dict<Value>, key: string, value: string) returns (r: Dict<Value>)
    ensures r == Assign(d, key, value)
  {
    if key == "prompt" {
      r := Set(d, "prompt", Str(value));
    } else if key == "model" {
      r := Set(d, "model", Str(value));
    } else if key == "date" {
      r := Set(d, "date", if value != "" then Str(value) else Null);
    } else if key == "description" {
      r := Set(d, "description", if value != "" then Str(value) else Null);
    } else if key == "tags" {
      r := d;
      if value != "" {
        r := Set(d, "tags", List(ParseTags(value)));
      }
    } else if key == "copyright" {
      r := Set(d, "copyright", if value != "" then Str(value) else Null);
    } else if key == "artist" {
      r := Set(d, "artist", if value != "" then Str(value) else Null);
    } else {
      r := Set(d, "custom_fields", Obj(Set(SeedOf(d), key, value)));
    }
  }

  /** `_parse_template`: the loop over the lines, then `from_dict`. */
  method ParseTemplate(content: string) returns (r: Result<ImageMetadata, Error>)
    ensures r == RecordFrom(Draft(content), StripCustomPrefix)
  {
    var lines := Split(content, '\n');
    var d := InitialDraft;
    var i := 0;
    while i < |lines|
      invariant 0 <= i <= |lines|
      invariant d == ParseLines(InitialDraft, lines[..i])
    {
      assert lines[..i + 1][..i] == lines[..i];
      var line := Strip(lines[i]);
      if line != [] && !StartsWith(line, "#") && ':' in line {
        var (k, v) := SplitOnce(line, ':');
        d := AssignEntry(d, Lower(Strip(k)), Strip(v));
      }
      i := i + 1;
    }
    assert lines[..|lines|] == lines;
    r := FromDict(d);
  }

  // ---------------------------------------------------------------- parsing laws

  lemma {:induction false} ParseLinesAppend(d: Dict<Value>, a: seq<string>, b: seq<string>)
    ensures ParseLines(d, a + b) == ParseLines(ParseLines(d, a), b)
    decreases |b|
  {
    if b == [] {
      assert a + b == a;
    } else {
      var n := |b| - 1;
      assert (a + b)[..|a + b| - 1] == a + b[..n];
      ParseLinesAppend(d, a, b[..n]);
    }
  }

  /** Lines the parser skips change nothing. */
  lemma {:induction false} SkippedLines(d: Dict<Value>, lines: seq<string>)
    requires forall i :: 0 <= i < |lines| ==> LineEntry(lines[i]) == None
    ensures ParseLines(d, lines) == d
    decreases |lines|
  {
    if lines != [] {
      SkippedLines(d, lines[..|lines| - 1]);
    }
  }

  /** Blank lines and lines starting with `#` are skipped. */
  lemma CommentSkipped(line: string)
    requires line == [] || line[0] == '#'
    ensures LineEntry(line) == None
  {
    if line != [] {
      var t := TrimStart(line);
      assert t == line;
      var s := TrimEnd(t);
      assert s[0] == '#';
      assert s[..1] == "#";
    }
  }

  /** A key that is not one of the seven standard names sets the custom field of that name
      and leaves every other entry alone. */
  lemma AssignCustom(d: Dict<Value>, key: string, value: string)
    requires key !in {"prompt", "model", "date", "description", "tags", "copyright", "artist"}
    ensures SeedOf(Assign(d, key, value)) == Set(SeedOf(d), key, value)
    ensures forall k :: k != "custom_fields" ==> Get(Assign(d, key, value), k) == Get(d, k)
  {
  }

  /** An empty template is refused for its empty model. */
  lemma EmptyTemplateRefused()
    ensures RecordFrom(Draft(""), StripCustomPrefix) == Failure(ModelRequired)
  {
    EmptyDraft();
    InitialRecord();
  }

  lemma EmptyDraft()
    ensures Draft("") == InitialDraft
  {
    CommentSkipped("");
    assert Split("", '\n') == [""];
    assert [""][..0] == [];
  }

  /** The initial draft has an empty model, which construction refuses. */
  lemma InitialRecord()
    ensures RecordFrom(InitialDraft, StripCustomPrefix) == Failure(ModelRequired)
  {
    var d := InitialDraft;
    assert Get(d, "prompt") == Some(Str("")) && Get(d, "model") == Some(Str(""));
    InitialMissing("date");
    InitialMissing("description");
    InitialMissing("copyright");
    InitialMissing("artist");
  }

  lemma InitialMissing(k: string)
    requires k != "prompt" && k != "model" && k != "tags" && k != "custom_fields"
    ensures Get(InitialDraft, k) == None
  {
  }

  // ---------------------------------------------------------------- the round trip

  /** A value the template can carry on one line and read back: no line feed, and either
      trimmed or nothing but whitespace. */
  predicate Editable(s: string) {
    '\n' !in s && (IsTrimmed(s) || AllSpace(s))
  }

  /** A record whose template parses back field by field: editable standard values,
      well-formed single-line tags, and single-line custom fields. */
  predicate TemplateReady(m: ImageMetadata) {
    && Editable(m.prompt) && Editable(m.model) && Editable(OptionText(m.date))
    && Editable(OptionText(m.description)) && Editable(OptionText(m.copyright))
    && Editable(OptionText(m.artist))
    && (forall i :: 0 <= i < |m.tags| ==> IsTag(m.tags[i]) && '\n' !in m.tags[i])
    && (forall i :: 0 <= i < |m.customFields| ==> '\n' !in m.customFields[i].0 && '\n' !in m.customFields[i].1)
  }

  /** An optional field as read back: its stripped text, or no value when that is empty. */
  function NonBlank(o: Option<string>): Option<string> {
    var s := Strip(OptionText(o));
    if s != "" then Some(s) else None
  }

  /** The record the parser reads back from the template of `m`: the standard fields
      stripped, and no custom field (they appear only in comments). */
  function Reread(m: ImageMetadata): ImageMetadata {
    ImageMetadata(Strip(m.prompt), Strip(m.model), NonBlank(m.date), NonBlank(m.description),
                  m.tags, NonBlank(m.copyright), NonBlank(m.artist), [])
  }

  /** A field name: non-empty lower-case ASCII letters. */
  predicate FieldKey(k: string) {
    k != [] && forall i :: 0 <= i < |k| ==> 'a' <= k[i] <= 'z'
  }

  lemma FieldKeys()
    ensures FieldKey("prompt") && FieldKey("model") && FieldKey("date") && FieldKey("description")
    ensures FieldKey("tags") && FieldKey("copyright") && FieldKey("artist")
  {
  }

  /** A text starting with a letter is not a comment. */
  lemma NotComment(t: string)
    requires t != [] && 'a' <= t[0] <= 'z'
    ensures !StartsWith(t, "#")
  {
    if |t| >= 1 {
      assert t[..1][0] == t[0];
    }
  }

  /** The line `key: value` assigns the stripped value to the key. */
  lemma FieldLine(key: string, v: string)
    requires FieldKey(key) && (IsTrimmed(v) || AllSpace(v))
    ensures LineEntry(key + ": " + v) == Some((key, Strip(v)))
  {
    if AllSpace(v) {
      BlankFieldLine(key, v);
    } else {
      FilledFieldLine(key, v);
    }
  }

  /** What `LineEntry` makes of a line once its stripped form and its split are known. */
  lemma LineEntryOf(line: string, t: string, k: string, v: string)
    requires Strip(line) == t && t != [] && !StartsWith(t, "#") && ':' in t
    requires SplitOnce(t, ':') == (k, v)
    ensures LineEntry(line) == Some((Lower(Strip(k)), Strip(v)))
  {
  }

  /** A field key survives stripping and lower-casing unchanged. */
  lemma FieldKeyKept(key: string)
    requires FieldKey(key)
    ensures Lower(Strip(key)) == key
  {
    assert IsLowerAscii(key) && IsTrimmed(key);
    LowerOfLower(key);
  }

  lemma BlankFieldStrip(key: string, v: string)
    requires FieldKey(key) && AllSpace(v)
    ensures Strip(key + ": " + v) == key + ":"
  {
    var line := key + ": " + v;
    var t := key + ":";
    assert line == t + (" " + v);
    assert AllSpace(" " + v) by {
      assert forall i :: 1 <= i < |" " + v| ==> (" " + v)[i] == v[i - 1];
    }
    TrimEndSpaces(t, " " + v);
    assert TrimEnd(t) == t by { assert t[|t| - 1] == ':'; }
    StripOfLetter(line, t);
  }

  /** A text that starts with a non-space is stripped at its end only. */
  lemma StripOfLetter(s: string, r: string)
    requires s != [] && !IsSpace(s[0]) && TrimEnd(s) == r
    ensures Strip(s) == r
  {
    assert TrimStart(s) == s;
  }

  lemma BlankFieldLine(key: string, v: string)
    requires FieldKey(key) && AllSpace(v)
    ensures LineEntry(key + ": " + v) == Some((key, ""))
  {
    var t := key + ":";
    BlankFieldStrip(key, v);
    NotComment(t);
    SplitKeyColon(key);
    FieldKeyKept(key);
    LineEntryOf(key + ": " + v, t, key, "");
  }

  /** A field key followed by a colon splits into the key and nothing. */
  lemma SplitKeyColon(key: string)
    requires FieldKey(key)
    ensures ':' in key + ":" && SplitOnce(key + ":", ':') == (key, "")
  {
    assert key + ":" == key + [':'] + "";
    SplitOnceAt(key, ':', "");
  }

  lemma FilledFieldLine(key: string, v: string)
    requires FieldKey(key) && IsTrimmed(v) && !AllSpace(v)
    ensures LineEntry(key + ": " + v) == Some((key, Strip(v)))
  {
    var line := key + ": " + v;
    assert IsTrimmed(line);
    NotComment(line);
    assert line == key + [':'] + (" " + v);
    SplitOnceAt(key, ':', " " + v);
    StripSpacePrefix(v);
    FieldKeyKept(key);
    LineEntryOf(line, line, key, " " + v);
  }

  /** The lines `key: value` for matching keys and values. */
  function FieldText(keys: seq<string>, vals: seq<string>): (r: seq<string>)
    requires |keys| == |vals|
    ensures |r| == |keys|
    ensures forall i :: 0 <= i < |r| ==> r[i] == keys[i] + ": " + vals[i]
  {
    seq(|keys|, i requires 0 <= i < |keys| => keys[i] + ": " + vals[i])
  }

  /** The dictionary after assigning each key its stripped value, in order. */
  function AssignFields(d: Dict<Value>, keys: seq<string>, vals: seq<string>): Dict<Value>
    requires |keys| == |vals|
    decreases |keys|
  {
    if keys == [] then d
    else
      var n := |keys| - 1;
      Assign(AssignFields(d, keys[..n], vals[..n]), keys[n], Strip(vals[n]))
  }

  /** Lines `key: value` with field keys and editable values make the parser assign each
      key its stripped value, in order. */
  lemma {:induction false} ParseFieldText(d: Dict<Value>, keys: seq<string>, vals: seq<string>)
    requires |keys| == |vals|
    requires forall i :: 0 <= i < |keys| ==> FieldKey(keys[i]) && Editable(vals[i])
    ensures ParseLines(d, FieldText(keys, vals)) == AssignFields(d, keys, vals)
    decreases |keys|
  {
    if keys != [] {
      var n := |keys| - 1;
      var ls := FieldText(keys, vals);
      assert ls[..n] == FieldText(keys[..n], vals[..n]);
      ParseFieldText(d, keys[..n], vals[..n]);
      FieldLine(keys[n], vals[n]);
    }
  }

  const FieldNames: seq<string> := ["prompt", "model", "date", "description", "tags", "copyright", "artist"]

  /** The values the template shows for the standard fields, in `FieldNames` order. */
  function FieldValues(m: ImageMetadata): (r: seq<string>)
    ensures |r| == |FieldNames|
  {
    [m.prompt, m.model, OptionText(m.date), OptionText(m.description), JoinTags(m.tags),
     OptionText(m.copyright), OptionText(m.artist)]
  }

  /** Assigning a standard field leaves every other key alone. */
  lemma AssignOther(d: Dict<Value>, key: string, value: string, k: string)
    requires key in FieldNames && k != key
    ensures Get(Assign(d, key, value), k) == Get(d, k)
  {
  }

  /** What assigning a standard field leaves under its key depends on the old entry there only. */
  lemma AssignSame(d: Dict<Value>, e: Dict<Value>, key: string, value: string)
    requires key in FieldNames && Get(d, key) == Get(e, key)
    ensures Get(Assign(d, key, value), key) == Get(Assign(e, key, value), key)
  {
  }

  /** Assigning a standard field adds no key but that one. */
  lemma AssignFieldKeys(d: Dict<Value>, key: string, value: string)
    requires key in FieldNames
    ensures KeySet(Assign(d, key, value)) <= KeySet(d) + {key}
  {
  }

  /** After distinct standard fields are assigned, each key holds what its own line alone
      would have left there. */
  lemma {:induction false} AssignFieldsAt(d: Dict<Value>, keys: seq<string>, vals: seq<string>, i: nat)
    requires |keys| == |vals| && i < |keys| && forall j :: 0 <= j < |keys| ==> keys[j] in FieldNames
    requires forall j, l :: 0 <= j < l < |keys| ==> keys[j] != keys[l]
    ensures Get(AssignFields(d, keys, vals), keys[i]) == Get(Assign(d, keys[i], Strip(vals[i])), keys[i])
    decreases |keys|
  {
    var n := |keys| - 1;
    if i < n {
      AssignFieldsAt(d, keys[..n], vals[..n], i);
      EarlierLine(d, keys, vals, i);
    } else {
      AssignFieldsOther(d, keys[..n], vals[..n], keys[n]);
      AssignSame(AssignFields(d, keys[..n], vals[..n]), d, keys[n], Strip(vals[n]));
    }
  }

  /** A later line with another key leaves an earlier line's entry in place. */
  lemma EarlierLine(d: Dict<Value>, keys: seq<string>, vals: seq<string>, i: nat)
    requires |keys| == |vals| && i < |keys| - 1 && keys[|keys| - 1] in FieldNames
    requires keys[i] != keys[|keys| - 1]
    requires var n := |keys| - 1;
      Get(AssignFields(d, keys[..n], vals[..n]), keys[..n][i]) == Get(Assign(d, keys[i], Strip(vals[i])), keys[i])
    ensures Get(AssignFields(d, keys, vals), keys[i]) == Get(Assign(d, keys[i], Strip(vals[i])), keys[i])
  {
    var n := |keys| - 1;
    assert keys[..n][i] == keys[i];
    AssignOther(AssignFields(d, keys[..n], vals[..n]), keys[n], Strip(vals[n]), keys[i]);
  }

  /** A key none of the lines names keeps its entry. */
  lemma {:induction false} AssignFieldsOther(d: Dict<Value>, keys: seq<string>, vals: seq<string>, k: string)
    requires |keys| == |vals| && forall j :: 0 <= j < |keys| ==> keys[j] in FieldNames && keys[j] != k
    ensures Get(AssignFields(d, keys, vals), k) == Get(d, k)
    decreases |keys|
  {
    if keys != [] {
      var n := |keys| - 1;
      AssignFieldsOther(d, keys[..n], vals[..n], k);
      AssignOther(AssignFields(d, keys[..n], vals[..n]), keys[n], Strip(vals[n]), k);
    }
  }

  /** Assigning standard fields adds no key beyond them. */
  lemma {:induction false} AssignFieldsKeys(d: Dict<Value>, keys: seq<string>, vals: seq<string>)
    requires |keys| == |vals| && forall j :: 0 <= j < |keys| ==> keys[j] in FieldNames
    ensures forall k :: k in KeySet(AssignFields(d, keys, vals)) ==> k in KeySet(d) || k in FieldNames
    decreases |keys|
  {
    if keys != [] {
      var n := |keys| - 1;
      AssignFieldsKeys(d, keys[..n], vals[..n]);
      AssignFieldKeys(AssignFields(d, keys[..n], vals[..n]), keys[n], Strip(vals[n]));
    }
  }

  /** The template's field lines are the lines `key: value` over the field names. */
  lemma FieldLinesText(m: ImageMetadata)
    ensures FieldLines(m) == FieldText(FieldNames, FieldValues(m))
  {
    var a := FieldLines(m);
    var b := FieldText(FieldNames, FieldValues(m));
    assert a[0] == b[0] && a[1] == b[1] && a[2] == b[2] && a[3] == b[3];
    assert a[4] == b[4] && a[5] == b[5] && a[6] == b[6];
  }

  /** The field lines of an editable record make the parser assign each field its
      stripped value, in order. */
  lemma FieldsParsed(d: Dict<Value>, m: ImageMetadata)
    requires TemplateReady(m)
    ensures ParseLines(d, FieldLines(m)) == AssignFields(d, FieldNames, FieldValues(m))
  {
    FieldKeys();
    JoinTagsShape(m.tags);
    FieldLinesText(m);
    ParseFieldText(d, FieldNames, FieldValues(m));
  }

  // ---- the record the field lines rebuild

  /** The draft the template of `m` leaves once its field lines are read. */
  function FieldDraft(m: ImageMetadata): Dict<Value> {
    AssignFields(InitialDraft, FieldNames, FieldValues(m))
  }

  lemma FieldNamesDistinct()
    ensures forall j :: 0 <= j < |FieldNames| ==> FieldNames[j] in FieldNames
    ensures forall j, l :: 0 <= j < l < |FieldNames| ==> FieldNames[j] != FieldNames[l]
  {
  }

  /** The draft holds the field of line `i` as that line alone would leave it. */
  lemma FieldDraftAt(m: ImageMetadata, i: nat, key: string, v: string)
    requires i < |FieldNames| && FieldNames[i] == key && FieldValues(m)[i] == v
    ensures Get(FieldDraft(m), key) == Get(Assign(InitialDraft, key, Strip(v)), key)
  {
    FieldNamesDistinct();
    AssignFieldsAt(InitialDraft, FieldNames, FieldValues(m), i);
  }

  /** An optional field's entry is what the record reads back for it. */
  lemma OptionalAssigned(d: Dict<Value>, key: string, s: string)
    requires key == "date" || key == "description" || key == "copyright" || key == "artist"
    ensures Get(Assign(d, key, s), key) == Some(OrNull(s))
  {
  }

  lemma OrNullNonBlank(o: Option<string>)
    ensures OrNull(Strip(OptionText(o))) == OptionalValue(NonBlank(o))
  {
  }

  lemma TextAssigned(key: string, s: string)
    requires key == "prompt" || key == "model"
    ensures Get(Assign(InitialDraft, key, s), key) == Some(Str(s))
  {
  }

  /** The prompt and the model come back stripped. */
  lemma DraftPrompt(m: ImageMetadata)
    ensures Get(FieldDraft(m), "prompt") == Some(Str(Strip(m.prompt)))
  {
    FieldDraftAt(m, 0, "prompt", m.prompt);
    TextAssigned("prompt", Strip(m.prompt));
  }

  lemma DraftModel(m: ImageMetadata)
    ensures Get(FieldDraft(m), "model") == Some(Str(Strip(m.model)))
  {
    FieldDraftAt(m, 1, "model", m.model);
    TextAssigned("model", Strip(m.model));
  }

  /** An optional field comes back stripped, or as no value when blank. */
  lemma DraftOptional(m: ImageMetadata, i: nat, key: string, o: Option<string>)
    requires i < |FieldNames| && FieldNames[i] == key && FieldValues(m)[i] == OptionText(o)
    requires key == "date" || key == "description" || key == "copyright" || key == "artist"
    ensures Get(FieldDraft(m), key) == Some(OptionalValue(NonBlank(o)))
  {
    FieldDraftAt(m, i, key, OptionText(o));
    OptionalAssigned(InitialDraft, key, Strip(OptionText(o)));
    OrNullNonBlank(o);
  }

  lemma NamesAt()
    ensures FieldNames[0] == "prompt" && FieldNames[1] == "model" && FieldNames[2] == "date"
    ensures FieldNames[3] == "description" && FieldNames[4] == "tags"
    ensures FieldNames[5] == "copyright" && FieldNames[6] == "artist"
  {
  }

  lemma ValuesAt(m: ImageMetadata)
    ensures FieldValues(m)[0] == m.prompt && FieldValues(m)[1] == m.model
    ensures FieldValues(m)[2] == OptionText(m.date) && FieldValues(m)[3] == OptionText(m.description)
    ensures FieldValues(m)[4] == JoinTags(m.tags)
    ensures FieldValues(m)[5] == OptionText(m.copyright) && FieldValues(m)[6] == OptionText(m.artist)
  {
  }

  lemma DraftOptionals(m: ImageMetadata)
    ensures Get(FieldDraft(m), "date") == Some(OptionalValue(NonBlank(m.date)))
    ensures Get(FieldDraft(m), "description") == Some(OptionalValue(NonBlank(m.description)))
    ensures Get(FieldDraft(m), "copyright") == Some(OptionalValue(NonBlank(m.copyright)))
    ensures Get(FieldDraft(m), "artist") == Some(OptionalValue(NonBlank(m.artist)))
  {
    NamesAt();
    ValuesAt(m);
    DraftOptional(m, 2, "date", m.date);
    DraftOptional(m, 3, "description", m.description);
    DraftOptional(m, 5, "copyright", m.copyright);
    DraftOptional(m, 6, "artist", m.artist);
  }

  /** Well-formed tags come back as they were. */
  lemma DraftTags(m: ImageMetadata)
    requires forall i :: 0 <= i < |m.tags| ==> IsTag(m.tags[i])
    ensures TagsOf(FieldDraft(m)) == m.tags
  {
    var s := Strip(JoinTags(m.tags));
    NamesAt();
    ValuesAt(m);
    FieldDraftAt(m, 4, "tags", JoinTags(m.tags));
    TagsAssigned(InitialDraft, s);
    InitialTags();
    TagsBack(FieldDraft(m), m.tags);
  }

  /** A dictionary holding the tags line's entry gives back the tags shown. */
  lemma TagsBack(d: Dict<Value>, tags: seq<string>)
    requires forall i :: 0 <= i < |tags| ==> IsTag(tags[i])
    requires var s := Strip(JoinTags(tags));
      Get(d, "tags") == if s != "" then Some(List(ParseTags(s))) else Some(List([]))
    ensures TagsOf(d) == tags
  {
    JoinTagsShape(tags);
    ParseJoinTags(tags);
  }

  lemma InitialTags()
    ensures Get(InitialDraft, "tags") == Some(List([]))
  {
  }

  /** Empty tags leave the initial empty list; others are parsed. */
  lemma TagsAssigned(d: Dict<Value>, s: string)
    ensures Get(Assign(d, "tags", s), "tags") == if s != "" then Some(List(ParseTags(s))) else Get(d, "tags")
  {
  }

  /** The field lines add no custom field. */
  lemma DraftSeed(m: ImageMetadata)
    ensures Get(FieldDraft(m), "custom_fields") == Some(Obj([]))
  {
    FieldNamesDistinct();
    AssignFieldsOther(InitialDraft, FieldNames, FieldValues(m), "custom_fields");
  }

  /** The keys of the initial draft and the field names are all standard keys. */
  lemma StandardNames()
    ensures forall k :: k in KeySet(InitialDraft) || k in FieldNames ==> k in StandardKeys
  {
    assert KeySet(InitialDraft) == {"prompt", "model", "tags", "custom_fields"} by {
      var d := InitialDraft;
      assert d[0].0 == "prompt" && d[1].0 == "model" && d[2].0 == "tags" && d[3].0 == "custom_fields";
    }
  }

  /** The field lines add no key beyond the standard ones. */
  lemma DraftKeys(m: ImageMetadata)
    ensures forall k :: k in KeySet(FieldDraft(m)) ==> k in StandardKeys
  {
    FieldNamesDistinct();
    AssignFieldsKeys(InitialDraft, FieldNames, FieldValues(m));
    StandardNames();
  }

  /** A dictionary of standard keys seeded with no custom field collects none. */
  lemma NoCustom(d: Dict<Value>)
    requires Get(d, "custom_fields") == Some(Obj([]))
    requires forall k :: k in KeySet(d) ==> k in StandardKeys
    ensures SeedOf(d) == []
    ensures CollectCustom([], d, StripCustomPrefix) == []
  {
    assert forall i :: 0 <= i < |d| ==> d[i].0 in KeySet(d);
    CollectStandardOnly([], d, StripCustomPrefix);
  }

  /** The field lines of an editable record rebuild it, stripped and without custom fields. */
  lemma FieldDraftRecord(m: ImageMetadata)
    requires forall i :: 0 <= i < |m.tags| ==> IsTag(m.tags[i])
    ensures RecordFrom(FieldDraft(m), StripCustomPrefix) == Construct(Reread(m))
  {
    DraftPrompt(m);
    DraftModel(m);
    DraftOptionals(m);
    DraftTags(m);
    DraftSeed(m);
    DraftKeys(m);
    NoCustom(FieldDraft(m));
    RecordFromFields(FieldDraft(m), Reread(m), StripCustomPrefix);
  }

  // ---- the whole template

  /** Lines none of which holds a line feed. */
  predicate OneLine(lines: seq<string>) {
    forall i :: 0 <= i < |lines| ==> '\n' !in lines[i]
  }

  /** Lines that are all blank or comments. */
  predicate CommentsOnly(lines: seq<string>) {
    forall i :: 0 <= i < |lines| ==> lines[i] == [] || lines[i][0] == '#'
  }

  lemma OneLineAppend(a: seq<string>, b: seq<string>)
    requires OneLine(a) && OneLine(b)
    ensures OneLine(a + b)
  {
    assert forall i :: 0 <= i < |b| ==> (a + b)[|a| + i] == b[i];
  }

  lemma CommentsAppend(a: seq<string>, b: seq<string>)
    requires CommentsOnly(a) && CommentsOnly(b)
    ensures CommentsOnly(a + b)
  {
    assert forall i :: 0 <= i < |b| ==> (a + b)[|a| + i] == b[i];
  }

  /** The parser passes over blank and comment lines. */
  lemma CommentsSkipped(d: Dict<Value>, lines: seq<string>)
    requires CommentsOnly(lines)
    ensures ParseLines(d, lines) == d
  {
    forall i | 0 <= i < |lines| ensures LineEntry(lines[i]) == None {
      CommentSkipped(lines[i]);
    }
    SkippedLines(d, lines);
  }

  lemma TitleLine()
    ensures '\n' !in TitleComment && TitleComment[0] == '#'
  {
  }

  lemma IgnoredLine()
    ensures '\n' !in IgnoredComment && IgnoredComment[0] == '#'
  {
  }

  lemma KeepLine()
    ensures '\n' !in KeepComment && KeepComment[0] == '#'
  {
  }

  lemma CustomLine()
    ensures '\n' !in CustomComment && CustomComment[0] == '#'
  {
  }

  lemma ExistingLine()
    ensures '\n' !in ExistingComment && ExistingComment[0] == '#'
  {
  }

  lemma AddLine()
    ensures '\n' !in AddComment && AddComment[0] == '#'
  {
  }

  /** The comments above the field lines. */
  function Preamble(): seq<string> {
    [TitleComment, IgnoredComment, KeepComment, ""]
  }

  /** The template's lines below the field lines, with the empty piece after the last line feed. */
  function Closing(m: ImageMetadata): seq<string> {
    ["", CustomComment] + TrailerLines(m) + [""]
  }

  lemma PreambleShape()
    ensures OneLine(Preamble()) && CommentsOnly(Preamble())
  {
    TitleLine();
    IgnoredLine();
    KeepLine();
    var p := Preamble();
    assert p[0] == TitleComment && p[1] == IgnoredComment && p[2] == KeepComment && p[3] == "";
    assert forall i :: 0 <= i < |p| ==> p[i] in {TitleComment, IgnoredComment, KeepComment, ""};
  }

  /** Custom fields without line feeds make one comment line each. */
  lemma CommentLinesShape(fields: Dict<string>)
    requires forall i :: 0 <= i < |fields| ==> '\n' !in fields[i].0 && '\n' !in fields[i].1
    ensures OneLine(CommentLines(fields)) && CommentsOnly(CommentLines(fields))
  {
    var c := CommentLines(fields);
    forall i | 0 <= i < |c| ensures '\n' !in c[i] && c[i][0] == '#' {
      assert c[i] == "# " + fields[i].0 + ": " + fields[i].1;
    }
  }

  lemma ClosingShape(m: ImageMetadata)
    requires forall i :: 0 <= i < |m.customFields| ==> '\n' !in m.customFields[i].0 && '\n' !in m.customFields[i].1
    ensures OneLine(["", CustomComment] + TrailerLines(m))
    ensures OneLine(Closing(m)) && CommentsOnly(Closing(m))
  {
    CustomLine();
    ExistingLine();
    AddLine();
    CommentLinesShape(m.customFields);
    var shown := if m.customFields != [] then ["", ExistingComment] + CommentLines(m.customFields) else [];
    OneLineAppend(["", ExistingComment], CommentLines(m.customFields));
    CommentsAppend(["", ExistingComment], CommentLines(m.customFields));
    OneLineAppend(["", CustomComment], shown);
    CommentsAppend(["", CustomComment], shown);
    OneLineAppend(["", CustomComment] + shown, ["", AddComment]);
    assert ["", CustomComment] + TrailerLines(m) == ["", CustomComment] + shown + ["", AddComment];
    OneLineAppend(["", CustomComment] + shown, ["", AddComment, ""]);
    CommentsAppend(["", CustomComment] + shown, ["", AddComment, ""]);
    assert Closing(m) == ["", CustomComment] + shown + ["", AddComment, ""];
  }

  /** Field lines over editable values hold no line feed. */
  lemma FieldLinesShape(m: ImageMetadata)
    requires TemplateReady(m)
    ensures OneLine(FieldLines(m))
  {
    FieldLinesText(m);
    FieldKeys();
    JoinTagsShape(m.tags);
    var ls := FieldText(FieldNames, FieldValues(m));
    forall i | 0 <= i < |ls| ensures '\n' !in ls[i] {
      assert FieldKey(FieldNames[i]) && '\n' !in FieldValues(m)[i];
      assert ls[i] == FieldNames[i] + ": " + FieldValues(m)[i];
    }
  }

  /** The template of `m`, split at its line feeds, is the preamble, the field lines and
      the closing comments. */
  lemma TemplatePieces(m: ImageMetadata)
    requires TemplateReady(m)
    ensures Split(Render(TemplateLines(m)), '\n') == Preamble() + FieldLines(m) + Closing(m)
  {
    PreambleShape();
    FieldLinesShape(m);
    ClosingShape(m);
    OneLineAppend(Preamble(), FieldLines(m));
    OneLineAppend(Preamble() + FieldLines(m), ["", CustomComment] + TrailerLines(m));
    assert TemplateLines(m) == Preamble() + FieldLines(m) + (["", CustomComment] + TrailerLines(m));
    SplitRender(TemplateLines(m));
  }

  /** Editing nothing: the template of an editable record parses back to the record with its
      standard fields stripped, its blank optional fields absent and no custom fields,
      or fails exactly as constructing that record fails. */
  lemma TemplateRoundTrip(m: ImageMetadata)
    requires TemplateReady(m)
    ensures RecordFrom(Draft(Render(TemplateLines(m))), StripCustomPrefix) == Construct(Reread(m))
  {
    TemplatePieces(m);
    PreambleShape();
    ClosingShape(m);
    var pre := Preamble();
    var fields := FieldLines(m);
    ParseLinesAppend(InitialDraft, pre + fields, Closing(m));
    ParseLinesAppend(InitialDraft, pre, fields);
    CommentsSkipped(InitialDraft, pre);
    FieldsParsed(InitialDraft, m);
    CommentsSkipped(FieldDraft(m), Closing(m));
    FieldDraftRecord(m);
  }

  /** An optional field the template shows as it is: absent, or trimmed and non-empty. */
  predicate ShownAsIs(o: Option<string>) {
    o.None? || (o.value != "" && IsTrimmed(o.value))
  }

  /** A record with trimmed fields comes back unchanged but for its custom fields. */
  lemma TemplateRoundTripTrimmed(m: ImageMetadata)
    requires TemplateReady(m) && IsTrimmed(m.prompt) && IsTrimmed(m.model)
    requires ShownAsIs(m.date) && ShownAsIs(m.description) && ShownAsIs(m.copyright) && ShownAsIs(m.artist)
    ensures RecordFrom(Draft(Render(TemplateLines(m))), StripCustomPrefix) == Construct(m.(customFields := []))
  {
    TemplateRoundTrip(m);
    NonBlankAsIs(m.date);
    NonBlankAsIs(m.description);
    NonBlankAsIs(m.copyright);
    NonBlankAsIs(m.artist);
    assert Reread(m) == m.(customFields := []);
  }

  lemma NonBlankAsIs(o: Option<string>)
    requires ShownAsIs(o)
    ensures NonBlank(o) == o
  {
  }

  /** A template whose model line is left blank is refused for its missing model. */
  lemma BlankModelRefused(m: ImageMetadata)
    requires TemplateReady(m) && AllSpace(m.model)
    ensures RecordFrom(Draft(Render(TemplateLines(m))), StripCustomPrefix) == Failure(ModelRequired)
  {
    TemplateRoundTrip(m);
  }
}
