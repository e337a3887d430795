/**
 * The metadata record of an image (`ImageMetadata`): its fields, the validation done
 * when it is constructed, its construction from loosely typed dictionaries
 * (`from_dict`, `from_json_dict`) and its serialisation back (`to_dict`, `to_json_dict`).
 */
module Models {
  import opened Wrappers
  import opened Dicts
  import opened Text

  /** The exceptions of the core, by kind. */
  datatype Error =
    | ModelRequired                     // ValueError: model missing or blank
    | DateNotIso(date: string)          // ValueError: date not in ISO calendar form
    | NotText(key: string)              // a standard field holding a value that is not text
    | ImageNotFound(path: string)       // MetadataError: no file at the path
    | UnsupportedFormat(suffix: string) // UnsupportedFormatError: extension not supported
    | ReadFailed                        // MetadataError: the image could not be opened
    | WriteFailed                       // MetadataError: the primary channel could not be written
    | UnsupportedExportFormat(format: string)
    | UnsupportedImportFormat(suffix: string)
    | MissingImagePathColumn

  /** One image's metadata. `customFields` keeps Python's insertion order. */
  datatype ImageMetadata = ImageMetadata(
    prompt: string,
    model: string,
    date: Option<string>,
    description: Option<string>,
    tags: seq<string>,
    copyright: Option<string>,
    artist: Option<string>,
    customFields: Dict<string>)

  /** The single space that stands for "no value yet" in prompt and model. */
  const Placeholder: string := " "

  /** Python truthiness of an optional text field. */
  predicate Truthy(o: Option<string>) {
    o.Some? && o.value != ""
  }

  /** The model test of construction: non-empty, and either not blank or exactly the placeholder. */
  predicate ModelValid(model: string) {
    model != "" && (Strip(model) != "" || model == Placeholder)
  }

  /** The model is accepted exactly when it has a non-whitespace character or is the placeholder. */
  lemma ModelValidMeans(model: string)
    ensures ModelValid(model) <==> (exists i :: 0 <= i < |model| && !IsSpace(model[i])) || model == Placeholder
  {
  }

  predicate IsDigit(c: char) {
    '0' <= c <= '9'
  }

  predicate AllDigits(s: string) {
    forall i :: 0 <= i < |s| ==> IsDigit(s[i])
  }

  /** The decimal value of a digit string. */
  function Number(s: string): nat
    requires AllDigits(s)
  {
    if s == [] then 0 else Number(s[..|s| - 1]) * 10 + ((s[|s| - 1] as int) - ('0' as int))
  }

  predicate IsLeapYear(year: nat) {
    year % 4 == 0 && (year % 100 != 0 || year % 400 == 0)
  }

  function DaysInMonth(year: nat, month: nat): nat
    requires 1 <= month <= 12
  {
    if month == 2 then (if IsLeapYear(year) then 29 else 28)
    else if month == 4 || month == 6 || month == 9 || month == 11 then 30
    else 31
  }

  /** A calendar date written `YYYY-MM-DD` (year 1 to 9999). */
  predicate IsIsoDate(s: string) {
    |s| == 10 && s[4] == '-' && s[7] == '-' &&
    AllDigits(s[..4]) && AllDigits(s[5..7]) && AllDigits(s[8..]) &&
    var year, month, day := Number(s[..4]), Number(s[5..7]), Number(s[8..]);
    1 <= year && 1 <= month <= 12 && 1 <= day <= DaysInMonth(year, month)
  }

  /** What construction accepts: a valid model, and a date that is absent, empty or ISO. */
  predicate Valid(m: ImageMetadata) {
    ModelValid(m.model) && (Truthy(m.date) ==> IsIsoDate(m.date.value))
  }

  /** `ImageMetadata(...)`: the fields are kept as given once validation passes;
      the model is checked before the date. */
  function Construct(m: ImageMetadata): (r: Result<ImageMetadata, Error>)
    ensures r.Success? <==> Valid(m)
    ensures r.Success? ==> r.value == m
    ensures !ModelValid(m.model) ==> r == Failure(ModelRequired)
    ensures ModelValid(m.model) && !Valid(m) ==> r == Failure(DateNotIso(m.date.value))
  {
    if !ModelValid(m.model) then Failure(ModelRequired)
    else if Truthy(m.date) && !IsIsoDate(m.date.value) then Failure(DateNotIso(m.date.value))
    else Success(m)
  }

  /** A loosely typed dictionary value: JSON's strings, null, lists of strings,
      objects of strings, and other scalars (numbers, booleans) with their `str()` text. */
  datatype Value = Null | Str(s: string) | List(items: seq<string>) | Obj(fields: Dict<string>) | Scalar(shown: string)

  /** Python truthiness of a value. */
  predicate IsTruthy(v: Value) {
    match v
    case Null => false
    case Str(s) => s != ""
    case List(items) => items != []
    case Obj(fields) => fields != []
    case Scalar(shown) => shown != "0" && shown != "0.0" && shown != "-0.0" && shown != "False"
  }

  /** `repr(s)` of a string, as `str()` of a list or a dict writes its items: in single
      quotes, unless the text holds a single quote and no double quote, with backslashes,
      the chosen quote and the ASCII control characters escaped. */
  function Repr(s: string): (r: string)
    ensures |r| >= |s| + 2
  {
    var q := if '\'' in s && '"' !in s then '"' else '\'';
    [q] + Escape(s, q) + [q]
  }

  /** The characters of `s` as they appear between quote `q`. */
  function Escape(s: string, q: char): (r: string)
    ensures |r| >= |s|
  {
    if s == [] then [] else EscapeChar(s[0], q) + Escape(s[1..], q)
  }

  function EscapeChar(c: char, q: char): (r: string)
    ensures |r| >= 1
  {
    if c == q || c == '\\' then ['\\', c]
    else if c == '\t' then "\\t"
    else if c == '\n' then "\\n"
    else if c == '\r' then "\\r"
    else if c < ' ' || c == 0x7f as char then "\\x" + [HexDigit(c as int / 16), HexDigit(c as int % 16)]
    else [c]
  }

  function HexDigit(n: int): char
    requires 0 <= n < 16
  {
    if n < 10 then ('0' as int + n) as char else ('a' as int + n - 10) as char
  }

  /** A character `repr` writes as it is between quote `q`. */
  predicate Plain(c: char, q: char) {
    c != q && c != '\\' && ' ' <= c && c != 0x7f as char
  }

  /** Plain characters are written as they are. */
  lemma {:induction false} EscapePlain(s: string, q: char)
    requires forall i :: 0 <= i < |s| ==> Plain(s[i], q)
    ensures Escape(s, q) == s
  {
    if s != [] {
      EscapePlain(s[1..], q);
      assert s == [s[0]] + s[1..];
    }
  }

  /** A text without quotes, backslashes or control characters is written in single quotes
      as it is; a text with a single quote and no double quote goes in double quotes. */
  lemma ReprPlain(s: string)
    requires forall i :: 0 <= i < |s| ==> Plain(s[i], '\'') && s[i] != '"'
    ensures Repr(s) == "'" + s + "'"
  {
    EscapePlain(s, '\'');
  }

  /** `repr` picks double quotes for a text with a single quote only. */
  lemma ReprQuoteExamples()
    ensures Repr("a") == "'a'"
    ensures Repr("it's") == "\"it's\""
  {
    EscapePlain("a", '\'');
    var t := "it's";
    assert t[2] == '\'' && t[0] != '"' && t[1] != '"' && t[3] != '"';
    assert forall i :: 0 <= i < |t| ==> t[i] in {'i', 't', '\'', 's'};
    EscapePlain(t, '"');
  }

  /** `repr` doubles a backslash. */
  lemma ReprBackslashExample()
    ensures Repr("a\\b") == "'a\\\\b'"
  {
    var t := "a\\b";
    assert t[1..] == "\\b" && t[2..] == "b";
    EscapePlain("b", '\'');
    assert Escape(t, '\'') == "a" + "\\\\" + "b";
  }

  /** `str(v)`: a string as it is, `None`, a scalar's text, and lists and dictionaries with
      their items written by `repr`. */
  function Show(v: Value): string {
    match v
    case Null => "None"
    case Str(s) => s
    case Scalar(shown) => shown
    case List(items) => "[" + Join(seq(|items|, i requires 0 <= i < |items| => Repr(items[i])), ", ") + "]"
    case Obj(fields) =>
      "{" + Join(seq(|fields|, i requires 0 <= i < |fields| => Repr(fields[i].0) + ": " + Repr(fields[i].1)), ", ") + "}"
  }

  /** The keys construction reads itself; none of them becomes a custom field. */
  const StandardKeys: set<string> :=
    {"prompt", "model", "date", "description", "tags", "copyright", "artist", "custom_fields"}

  const CustomPrefix: string := "custom_"

  /** How the extra keys of a dictionary are named as custom fields:
      `from_dict` strips a `custom_` prefix, `from_json_dict` keeps every key as it is. */
  datatype KeyRule = StripCustomPrefix | KeepKey

  /** The custom field an extra key of a loose dictionary fills, if any. */
  function CustomKeyFor(k: string, rule: KeyRule): (r: Option<string>)
    ensures k in StandardKeys ==> r == None
    ensures rule == KeepKey && k !in StandardKeys ==> r == Some(k)
    ensures rule == StripCustomPrefix && k !in StandardKeys && !StartsWith(k, CustomPrefix) ==> r == Some(k)
    ensures rule == StripCustomPrefix && k !in StandardKeys && StartsWith(k, CustomPrefix) ==>
      r == (var c := k[|CustomPrefix|..]; if c == "custom_fields" then None else Some(c))
    ensures r.Some? && rule == StripCustomPrefix ==> r.value != "custom_fields"
  {
    if k in StandardKeys then None
    else if rule == StripCustomPrefix && StartsWith(k, CustomPrefix) then
      if k[|CustomPrefix|..] == "custom_fields" then None else Some(k[|CustomPrefix|..])
    else Some(k)
  }

  /** The custom fields after the construction loop has seen the entries of `data`, in order. */
  function CollectCustom(seed: Dict<string>, data: Dict<Value>, rule: KeyRule): Dict<string>
    decreases |data|
  {
    if data == [] then seed
    else
      var acc := CollectCustom(seed, data[..|data| - 1], rule);
      var (k, v) := data[|data| - 1];
      match CustomKeyFor(k, rule)
      case None => acc
      case Some(c) => Set(acc, c, Show(v))
  }

  /** The value of the last entry of `data` that fills custom field `c`. */
  function LastFor(data: Dict<Value>, rule: KeyRule, c: string): Option<Value>
    decreases |data|
  {
    if data == [] then None
    else if CustomKeyFor(data[|data| - 1].0, rule) == Some(c) then Some(data[|data| - 1].1)
    else LastFor(data[..|data| - 1], rule, c)
  }

  /** Each custom field holds the text of the last entry that fills it, or else its seed value. */
  lemma {:induction false} CollectCustomGet(seed: Dict<string>, data: Dict<Value>, rule: KeyRule, c: string)
    ensures Get(CollectCustom(seed, data, rule), c) ==
            match LastFor(data, rule, c)
            case Some(v) => Some(Show(v))
            case None => Get(seed, c)
    decreases |data|
  {
    if data != [] {
      CollectCustomGet(seed, data[..|data| - 1], rule, c);
    }
  }

  /** An entry fills a custom field unless a later entry fills the same one. */
  lemma {:induction false} LastForEntry(data: Dict<Value>, rule: KeyRule, i: nat, c: string)
    requires i < |data| && CustomKeyFor(data[i].0, rule) == Some(c)
    requires forall j :: i < j < |data| ==> CustomKeyFor(data[j].0, rule) != Some(c)
    ensures LastFor(data, rule, c) == Some(data[i].1)
    decreases |data|
  {
    if i < |data| - 1 {
      LastForEntry(data[..|data| - 1], rule, i, c);
    }
  }

  /** No entry fills a custom field that no key is routed to. */
  lemma {:induction false} LastForNone(data: Dict<Value>, rule: KeyRule, c: string)
    requires forall j :: 0 <= j < |data| ==> CustomKeyFor(data[j].0, rule) != Some(c)
    ensures LastFor(data, rule, c) == None
    decreases |data|
  {
    if data != [] {
      LastForNone(data[..|data| - 1], rule, c);
    }
  }

  /** A dictionary of standard keys only adds no custom field. */
  lemma {:induction false} CollectStandardOnly(seed: Dict<string>, data: Dict<Value>, rule: KeyRule)
    requires forall i :: 0 <= i < |data| ==> data[i].0 in StandardKeys
    ensures CollectCustom(seed, data, rule) == seed
    decreases |data|
  {
    if data != [] {
      CollectStandardOnly(seed, data[..|data| - 1], rule);
    }
  }

  /** The custom-field loop of `from_dict` and `from_json_dict`. */
  method CollectCustomFields(seed: Dict<string>, data: Dict<Value>, rule: KeyRule) returns (custom: Dict<string>)
    ensures custom == CollectCustom(seed, data, rule)
  {
    custom := seed;
    var i := 0;
    while i < |data|
      invariant 0 <= i <= |data|
      invariant custom == CollectCustom(seed, data[..i], rule)
    {
      var (k, v) := data[i];
      assert data[..i + 1][..i] == data[..i];
      match CustomKeyFor(k, rule) {
        case None =>
        case Some(c) => custom := Set(custom, c, Show(v));
      }
      i := i + 1;
    }
    assert data[..|data|] == data;
  }

  /** The tags of a loose dictionary: a string is parsed, a list taken as it is, anything else is no tags. */
  function TagsOf(data: Dict<Value>): seq<string> {
    match Get<Value>(data, "tags")
    case Some(Str(s)) => ParseTags(s)
    case Some(List(items)) => items
    case _ => []
  }

  /** `data.get(key, "")` for prompt and model. */
  function TextOf(data: Dict<Value>, key: string): Result<string, Error> {
    match Get<Value>(data, key)
    case None => Success("")
    case Some(Str(s)) => Success(s)
    case Some(_) => Failure(NotText(key))
  }

  /** `data.get(key)` for an optional text field. */
  function OptionalOf(data: Dict<Value>, key: string): Result<Option<string>, Error> {
    match Get<Value>(data, key)
    case None => Success(None)
    case Some(Null) => Success(None)
    case Some(Str(s)) => Success(Some(s))
    case Some(_) => Failure(NotText(key))
  }

  /** The custom fields a dictionary starts from: a dict under `custom_fields`, else none. */
  function SeedOf(data: Dict<Value>): Dict<string> {
    match Get<Value>(data, "custom_fields")
    case Some(Obj(fields)) => fields
    case _ => []
  }

  /** `ImageMetadata.from_dict` (rule `StripCustomPrefix`) and `from_json_dict` (rule `KeepKey`). */
  function RecordFrom(data: Dict<Value>, rule: KeyRule): (r: Result<ImageMetadata, Error>)
    ensures r.Success? ==> Valid(r.value)
  {
    var prompt :- TextOf(data, "prompt");
    var model :- TextOf(data, "model");
    var date :- OptionalOf(data, "date");
    var description :- OptionalOf(data, "description");
    var copyright :- OptionalOf(data, "copyright");
    var artist :- OptionalOf(data, "artist");
    Construct(ImageMetadata(prompt, model, date, description, TagsOf(data), copyright, artist,
                            CollectCustom(SeedOf(data), data, rule)))
  }

  /** `ImageMetadata.from_dict`. */
  method FromDict(data: Dict<Value>) returns (r: Result<ImageMetadata, Error>)
    ensures r == RecordFrom(data, StripCustomPrefix)
  {
    var custom := CollectCustomFields(SeedOf(data), data, StripCustomPrefix);
    var prompt :- TextOf(data, "prompt");
    var model :- TextOf(data, "model");
    var date :- OptionalOf(data, "date");
    var description :- OptionalOf(data, "description");
    var copyright :- OptionalOf(data, "copyright");
    var artist :- OptionalOf(data, "artist");
    r := Construct(ImageMetadata(prompt, model, date, description, TagsOf(data), copyright, artist, custom));
  }

  /** `ImageMetadata.from_json_dict`. */
  method FromJsonDict(data: Dict<Value>) returns (r: Result<ImageMetadata, Error>)
    ensures r == RecordFrom(data, KeepKey)
  {
    var custom := CollectCustomFields(SeedOf(data), data, KeepKey);
    var prompt :- TextOf(data, "prompt");
    var model :- TextOf(data, "model");
    var date :- OptionalOf(data, "date");
    var description :- OptionalOf(data, "description");
    var copyright :- OptionalOf(data, "copyright");
    var artist :- OptionalOf(data, "artist");
    r := Construct(ImageMetadata(prompt, model, date, description, TagsOf(data), copyright, artist, custom));
  }

  function OptionalValue(o: Option<string>): Value {
    match o
    case None => Null
    case Some(s) => Str(s)
  }

  /** `asdict(m)` with the given value under `tags`. */
  function AsDict(m: ImageMetadata, tags: Value): (d: Dict<Value>)
    ensures DistinctKeys(d)
    ensures forall i :: 0 <= i < |d| ==> d[i].0 in StandardKeys
  {
    [("prompt", Str(m.prompt)), ("model", Str(m.model)), ("date", OptionalValue(m.date)),
     ("description", OptionalValue(m.description)), ("tags", tags),
     ("copyright", OptionalValue(m.copyright)), ("artist", OptionalValue(m.artist)),
     ("custom_fields", Obj(m.customFields))]
  }

  /** The seven standard entries of `asdict(m)`, in field order, before `custom_fields`. */
  function StandardEntries(m: ImageMetadata, tags: Value): Dict<Value> {
    [("prompt", Str(m.prompt)), ("model", Str(m.model)), ("date", OptionalValue(m.date)),
     ("description", OptionalValue(m.description)), ("tags", tags),
     ("copyright", OptionalValue(m.copyright)), ("artist", OptionalValue(m.artist))]
  }

  /** `asdict(m)` is the standard entries followed by the custom fields. */
  lemma AsDictSplit(m: ImageMetadata, tags: Value)
    ensures AsDict(m, tags) == StandardEntries(m, tags) + [("custom_fields", Obj(m.customFields))]
  {
  }

  /** `to_dict`: non-empty tags become one `", "`-joined string, no tags stay an empty list. */
  function ToDict(m: ImageMetadata): Dict<Value> {
    AsDict(m, if m.tags != [] then Str(JoinTags(m.tags)) else List(m.tags))
  }

  /** `to_json_dict`: tags stay a list. */
  function ToJsonDict(m: ImageMetadata): Dict<Value> {
    AsDict(m, List(m.tags))
  }

  /** With distinct keys, looking up the key of an entry finds that entry's value. */
  lemma {:induction false} GetEntry<V>(d: Dict<V>, i: nat)
    requires DistinctKeys(d) && i < |d|
    ensures Get(d, d[i].0) == Some(d[i].1)
    decreases |d|
  {
    if i > 0 {
      assert d[0].0 != d[i].0;
      GetEntry(d[1..], i - 1);
    }
  }

  /** Reading back the fields of `asdict(m)`. */
  lemma AsDictFields(m: ImageMetadata, tags: Value)
    ensures var d := AsDict(m, tags);
      && Get(d, "prompt") == Some(Str(m.prompt)) && Get(d, "model") == Some(Str(m.model))
      && Get(d, "date") == Some(OptionalValue(m.date))
      && Get(d, "description") == Some(OptionalValue(m.description))
      && Get(d, "tags") == Some(tags)
      && Get(d, "copyright") == Some(OptionalValue(m.copyright))
      && Get(d, "artist") == Some(OptionalValue(m.artist))
      && Get(d, "custom_fields") == Some(Obj(m.customFields))
  {
    var d := AsDict(m, tags);
    GetEntry(d, 0); GetEntry(d, 1); GetEntry(d, 2); GetEntry(d, 3);
    GetEntry(d, 4); GetEntry(d, 5); GetEntry(d, 6); GetEntry(d, 7);
  }

  /** The tags read back from `asdict(m)` are those of the value stored under `tags`. */
  lemma AsDictTags(m: ImageMetadata, tags: Value)
    ensures TagsOf(AsDict(m, tags)) == match tags
      case Str(s) => ParseTags(s)
      case List(items) => items
      case _ => []
  {
    AsDictFields(m, tags);
  }

  lemma OptionalOfValue(d: Dict<Value>, key: string, o: Option<string>)
    requires Get(d, key) == Some(OptionalValue(o))
    ensures OptionalOf(d, key) == Success(o)
  {
    match o {
      case None =>
      case Some(s) =>
    }
  }

  /** Any dictionary holding the fields of `m` under the standard keys, and seeding exactly
      `m`'s custom fields, rebuilds `m`. */
  lemma RecordFromFields(d: Dict<Value>, m: ImageMetadata, rule: KeyRule)
    requires Get(d, "prompt") == Some(Str(m.prompt)) && Get(d, "model") == Some(Str(m.model))
    requires Get(d, "date") == Some(OptionalValue(m.date))
    requires Get(d, "description") == Some(OptionalValue(m.description))
    requires Get(d, "copyright") == Some(OptionalValue(m.copyright))
    requires Get(d, "artist") == Some(OptionalValue(m.artist))
    requires SeedOf(d) == m.customFields
    requires TagsOf(d) == m.tags
    requires CollectCustom(m.customFields, d, rule) == m.customFields
    ensures RecordFrom(d, rule) == Construct(m)
  {
    assert TextOf(d, "prompt") == Success(m.prompt);
    assert TextOf(d, "model") == Success(m.model);
    OptionalOfValue(d, "date", m.date);
    OptionalOfValue(d, "description", m.description);
    OptionalOfValue(d, "copyright", m.copyright);
    OptionalOfValue(d, "artist", m.artist);
    assert RecordFrom(d, rule) == Construct(ImageMetadata(m.prompt, m.model, m.date, m.description,
                                                          m.tags, m.copyright, m.artist, m.customFields));
  }

  /** Rebuilding a record from `asdict(m)` gives `m` whenever `m` is valid, and the same
      error as constructing `m` otherwise. */
  lemma RecordFromAsDict(m: ImageMetadata, tags: Value, rule: KeyRule)
    requires TagsOf(AsDict(m, tags)) == m.tags
    ensures RecordFrom(AsDict(m, tags), rule) == Construct(m)
  {
    AsDictFields(m, tags);
    AsDictCustom(m, tags, rule);
    RecordFromFields(AsDict(m, tags), m, rule);
  }

  /** `asdict(m)` seeds `m`'s custom fields and adds none. */
  lemma AsDictCustom(m: ImageMetadata, tags: Value, rule: KeyRule)
    ensures SeedOf(AsDict(m, tags)) == m.customFields
    ensures CollectCustom(m.customFields, AsDict(m, tags), rule) == m.customFields
  {
    AsDictSeed(m, tags);
    CollectStandardOnly(m.customFields, AsDict(m, tags), rule);
  }

  lemma AsDictSeed(m: ImageMetadata, tags: Value)
    ensures SeedOf(AsDict(m, tags)) == m.customFields
  {
    AsDictFields(m, tags);
  }

  /** `from_json_dict(to_json_dict(m))` is `m` for every valid record. */
  lemma FromJsonDictRoundTrip(m: ImageMetadata)
    ensures RecordFrom(ToJsonDict(m), KeepKey) == Construct(m)
  {
    AsDictTags(m, List(m.tags));
    RecordFromAsDict(m, List(m.tags), KeepKey);
  }

  /** `from_dict(to_dict(m))` is `m` for every valid record whose tags are non-empty,
      trimmed and free of commas: the joined tag string parses back to the same list. */
  lemma FromDictRoundTrip(m: ImageMetadata)
    requires forall i :: 0 <= i < |m.tags| ==> IsTag(m.tags[i])
    ensures RecordFrom(ToDict(m), StripCustomPrefix) == Construct(m)
  {
    var tags := if m.tags != [] then Str(JoinTags(m.tags)) else List(m.tags);
    AsDictTags(m, tags);
    if m.tags != [] {
      ParseJoinTags(m.tags);
    }
    RecordFromAsDict(m, tags, StripCustomPrefix);
  }

  /** The key `custom_custom_fields` fills no custom field in `from_dict`. */
  lemma CustomCustomFieldsSkipped()
    ensures CustomKeyFor("custom_custom_fields", StripCustomPrefix) == None
  {
    var k := "custom_custom_fields";
    assert k[0] == 'c' && k[1] == 'u' && k[7] == 'c';
    assert k !in StandardKeys;
    assert k[..|CustomPrefix|] == CustomPrefix;
    assert k[|CustomPrefix|..] == "custom_fields";
  }

  /** The custom fields built by `from_dict`: an entry whose key fills field `c` (a key with
      the `custom_` prefix fills the field named by the rest of the key, any other non-standard
      key the field of its own name) and is not overridden by a later one leaves the `str()`
      of its value there; a field no entry fills keeps the seed's value. */
  lemma FromDictCustomFields(data: Dict<Value>, c: string)
    ensures (forall j :: 0 <= j < |data| ==> CustomKeyFor(data[j].0, StripCustomPrefix) != Some(c)) ==>
              Get(CollectCustom(SeedOf(data), data, StripCustomPrefix), c) == Get(SeedOf(data), c)
    ensures forall i :: 0 <= i < |data| && CustomKeyFor(data[i].0, StripCustomPrefix) == Some(c) &&
                        (forall j :: i < j < |data| ==> CustomKeyFor(data[j].0, StripCustomPrefix) != Some(c)) ==>
              Get(CollectCustom(SeedOf(data), data, StripCustomPrefix), c) == Some(Show(data[i].1))
  {
    CollectCustomGet(SeedOf(data), data, StripCustomPrefix, c);
    if forall j :: 0 <= j < |data| ==> CustomKeyFor(data[j].0, StripCustomPrefix) != Some(c) {
      LastForNone(data, StripCustomPrefix, c);
    }
    forall i | 0 <= i < |data| && CustomKeyFor(data[i].0, StripCustomPrefix) == Some(c) &&
               (forall j :: i < j < |data| ==> CustomKeyFor(data[j].0, StripCustomPrefix) != Some(c))
      ensures Get(CollectCustom(SeedOf(data), data, StripCustomPrefix), c) == Some(Show(data[i].1))
    {
      LastForEntry(data, StripCustomPrefix, i, c);
    }
  }

  /** `from_json_dict` copies every extra key under its own name, prefix and all. */
  lemma FromJsonDictCustomFields(data: Dict<Value>, i: nat)
    requires DistinctKeys(data) && i < |data| && data[i].0 !in StandardKeys
    ensures Get(CollectCustom(SeedOf(data), data, KeepKey), data[i].0) == Some(Show(data[i].1))
  {
    CollectCustomGet(SeedOf(data), data, KeepKey, data[i].0);
    LastForEntry(data, KeepKey, i, data[i].0);
  }

  /** Blank or empty models are refused; the placeholder, and an empty prompt, are accepted. */
  lemma ModelExamples()
    ensures !ModelValid("") && !ModelValid("   ") && ModelValid(" ") && ModelValid("Model")
    ensures Construct(ImageMetadata("", "valid", None, None, [], None, None, [])).Success?
  {
    assert !ModelValid("   ") by {
      assert AllSpace("   ");
    }
    assert ModelValid("Model") by {
      assert !IsSpace("Model"[0]);
    }
    assert ModelValid("valid") by {
      assert !IsSpace("valid"[0]);
    }
  }

  function DigitValue(c: char): int {
    c as int - '0' as int
  }

  lemma NumberTwo(s: string)
    requires |s| == 2 && AllDigits(s)
    ensures Number(s) == 10 * DigitValue(s[0]) + DigitValue(s[1])
  {
    var p1 := s[..1];
    assert p1[..0] == [] && p1[0] == s[0];
    assert Number(p1) == DigitValue(s[0]);
    assert Number(s) == 10 * Number(p1) + DigitValue(s[1]);
  }

  lemma NumberFour(s: string)
    requires |s| == 4 && AllDigits(s)
    ensures Number(s) == 1000 * DigitValue(s[0]) + 100 * DigitValue(s[1]) + 10 * DigitValue(s[2]) + DigitValue(s[3])
  {
    var p3, p2 := s[..3], s[..2];
    assert p3[..2] == p2 && p3[2] == s[2];
    NumberTwo(p2);
    assert Number(p3) == 10 * Number(p2) + DigitValue(s[2]);
    assert Number(s) == 10 * Number(p3) + DigitValue(s[3]);
  }

  /** The fields of a `YYYY-MM-DD` string with digits in the right places. */
  lemma IsoDateFields(s: string)
    requires |s| == 10 && s[4] == '-' && s[7] == '-'
    requires AllDigits(s[..4]) && AllDigits(s[5..7]) && AllDigits(s[8..])
    ensures Number(s[..4]) == 1000 * DigitValue(s[0]) + 100 * DigitValue(s[1]) + 10 * DigitValue(s[2]) + DigitValue(s[3])
    ensures Number(s[5..7]) == 10 * DigitValue(s[5]) + DigitValue(s[6])
    ensures Number(s[8..]) == 10 * DigitValue(s[8]) + DigitValue(s[9])
  {
    NumberFour(s[..4]);
    NumberTwo(s[5..7]);
    NumberTwo(s[8..]);
  }

  /** ISO calendar dates pass; slashes, a leading month and words do not. */
  lemma DateExamples()
    ensures IsIsoDate("2024-01-15") && IsIsoDate("2024-12-31") && IsIsoDate("2024-02-29")
    ensures !IsIsoDate("2023-02-29") && !IsIsoDate("2024-13-01")
    ensures !IsIsoDate("2024/01/15") && !IsIsoDate("01-15-2024") && !IsIsoDate("invalid-date")
  {
    IsoDateAccepted("2024-01-15");
    IsoDateAccepted("2024-12-31");
    IsoDateAccepted("2024-02-29");
    IsoDateRefused("2023-02-29");
    IsoDateRefused("2024-13-01");
    assert "2024/01/15"[4] != '-';
    assert "01-15-2024"[4] != '-';
    assert |"invalid-date"| != 10;
  }

  lemma IsoDateAccepted(s: string)
    requires s == "2024-01-15" || s == "2024-12-31" || s == "2024-02-29"
    ensures IsIsoDate(s)
  {
    IsoDateFields(s);
  }

  lemma IsoDateRefused(s: string)
    requires s == "2023-02-29" || s == "2024-13-01"
    ensures !IsIsoDate(s)
  {
    IsoDateFields(s);
  }
}
