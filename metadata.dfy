/**
 * Reading and writing the metadata of an image file. The image libraries are
 * abstracted as channels of key/value data: the PNG text chunks or WebP info
 * dictionary, four EXIF tags, and a small XMP packet. What remains is the logic
 * around them: the format check, the text-chunk codec, the EXIF date conversion,
 * the "first truthy value wins" overlay of the channels on read, and the merge of
 * existing and new metadata on write.
 */
module MetadataIO {
  import opened Wrappers
  import opened Dicts
  import opened Text
  import opened Models

  // ---------------------------------------------------------------------------
  // Paths and the format check

  /** `SUPPORTED_FORMATS` */
  const SupportedFormats: set<string> := {".png", ".jpg", ".jpeg", ".webp"}

  /** `s.rfind(c)`, with `None` for -1. */
  function LastIndexOf(s: string, c: char): (r: Option<nat>)
    ensures r.None? <==> c !in s
    ensures r.Some? ==> r.value < |s| && s[r.value] == c && c !in s[r.value + 1..]
    decreases |s|
  {
    if s == [] then None
    else if s[|s| - 1] == c then Some(|s| - 1)
    else
      var p := s[..|s| - 1];
      assert s == p + [s[|s| - 1]];
      var r := LastIndexOf(p, c);
      assert r.Some? ==> s[r.value + 1..] == p[r.value + 1..] + [s[|s| - 1]];
      r
  }

  /** `Path(p).name`: the last `/`-separated component, which ends the path and is the whole
      path or follows a `/`. */
  function Name(path: string): (r: string)
    ensures '/' !in r
    ensures EndsWith(path, r)
    ensures |r| == |path| || path[|path| - |r| - 1] == '/'
  {
    match LastIndexOf(path, '/')
    case None => path
    case Some(i) => path[i + 1..]
  }

  /** `Path(p).suffix` */
  function Suffix(path: string): string {
    SuffixOf(Name(path))
  }

  /** The suffix of a name: from its last `.`, when that dot is neither the first nor
      the last character; otherwise empty. */
  function SuffixOf(name: string): (r: string)
    ensures r == [] || (r[0] == '.' && '.' !in r[1..] && 2 <= |r| < |name|)
    ensures EndsWith(name, r)
    ensures r != [] <==> exists k :: SuffixDotAt(name, k)
  {
    var k := LastIndexOf(name, '.');
    LastDotUnique(name, k);
    if k.Some? && 0 < k.value < |name| - 1 then
      var r := name[k.value..];
      assert r[1..] == name[k.value + 1..];
      assert SuffixDotAt(name, k.value);
      r
    else []
  }

  /** The last dot of `name` is at `k`, neither first nor last: where `Path.suffix` starts. */
  predicate SuffixDotAt(name: string, k: int) {
    0 < k < |name| - 1 && name[k] == '.' && '.' !in name[k + 1..]
  }

  /** A dot with no dot after it is the one `rfind` finds. */
  lemma LastDotUnique(name: string, k: Option<nat>)
    requires k == LastIndexOf(name, '.')
    ensures forall j :: 0 <= j < |name| && name[j] == '.' && '.' !in name[j + 1..] ==> k == Some(j)
  {
    forall j | 0 <= j < |name| && name[j] == '.' && '.' !in name[j + 1..]
      ensures k == Some(j)
    {
      assert k.Some?;
    }
  }

  /** The lower-cased suffix, on which every format decision is taken. */
  function Extension(path: string): string {
    Lower(Suffix(path))
  }

  /** `is_supported_format` */
  predicate IsSupportedFormat(path: string) {
    Extension(path) in SupportedFormats
  }

  /** Each supported extension is a dot followed by at least one character that is not a dot. */
  lemma ExtensionShape(e: string)
    requires e in SupportedFormats
    ensures |e| >= 2 && e[0] == '.' && '.' !in e[1..]
  {
  }

  /** A name whose lower-cased form ends in a supported extension, with something before it,
      has that extension as its lower-cased suffix. */
  lemma SuffixOfEnding(name: string, e: string)
    requires e in SupportedFormats && |e| < |name| && EndsWith(Lower(name), e)
    ensures Lower(SuffixOf(name)) == e
  {
    var i := |name| - |e|;
    LastDotOfEnding(name, e);
    SuffixOfAt(name, i);
    LowerSuffix(name, i);
  }

  /** The suffix starts at a last dot that is neither first nor last. */
  lemma SuffixOfAt(name: string, i: nat)
    requires 0 < i < |name| - 1 && name[i] == '.' && '.' !in name[i + 1..]
    ensures SuffixOf(name) == name[i..]
  {
    LastIndexOfAt(name, '.', i);
  }

  /** Lower-casing commutes with taking an ending. */
  lemma LowerSuffix(s: string, i: nat)
    requires i <= |s|
    ensures Lower(s[i..]) == Lower(s)[i..]
  {
  }

  /** Lower-casing keeps dots where they are, so the dot of the extension is the last one. */
  lemma LastDotOfEnding(name: string, e: string)
    requires e in SupportedFormats && |e| < |name| && EndsWith(Lower(name), e)
    ensures |e| >= 2 && name[|name| - |e|] == '.' && '.' !in name[|name| - |e| + 1..]
  {
    ExtensionShape(e);
    var low := Lower(name);
    var i := |name| - |e|;
    assert low[i] == e[0];
    forall j | i < j < |name| ensures name[j] != '.' {
      assert low[j] == e[j - i];
      assert e[j - i] in e[1..];
    }
  }

  /** A supported suffix is the lower-cased ending of the name, with something before it. */
  lemma SuffixOfSupported(name: string)
    requires Lower(SuffixOf(name)) in SupportedFormats
    ensures |SuffixOf(name)| < |name| && EndsWith(Lower(name), Lower(SuffixOf(name)))
  {
    var suf := SuffixOf(name);
    assert Lower(name)[|name| - |suf|..] == Lower(suf);
  }

  /** A path is supported exactly when its name ends, ignoring ASCII case, in one of the
      four extensions and has at least one character before it. */
  lemma SupportedFormatMeans(path: string)
    ensures IsSupportedFormat(path) <==>
      exists e :: e in SupportedFormats && |e| < |Name(path)| && EndsWith(Lower(Name(path)), e)
  {
    var name := Name(path);
    if IsSupportedFormat(path) {
      SuffixOfSupported(name);
      assert Lower(SuffixOf(name)) in SupportedFormats;
    }
    if e :| e in SupportedFormats && |e| < |name| && EndsWith(Lower(name), e) {
      SuffixOfEnding(name, e);
    }
  }

  /** The format checks of the test suite: upper-case extensions are accepted; names
      without a suffix, other image types and a bare extension are refused. */
  lemma SupportedFormatExamples()
    ensures IsSupportedFormat("test.PNG")
    ensures IsSupportedFormat("photos/cat.jpeg")
    ensures !IsSupportedFormat("image")
    ensures !IsSupportedFormat("test.gif")
    ensures !IsSupportedFormat(".png")
  {
    UpperCaseAccepted();
    NestedAccepted();
    NoSuffixRefused();
    GifRefused();
    BareExtensionRefused();
  }

  /** The last occurrence is the one with no occurrence after it. */
  lemma LastIndexOfAt(s: string, c: char, i: nat)
    requires i < |s| && s[i] == c && c !in s[i + 1..]
    ensures LastIndexOf(s, c) == Some(i)
  {
    assert s[i] in s;
  }

  lemma UpperCaseAccepted()
    ensures IsSupportedFormat("test.PNG")
  {
    assert Name("test.PNG") == "test.PNG";
    assert Lower("test.PNG")[4..] == ".png";
    SuffixOfEnding("test.PNG", ".png");
  }

  lemma NestedAccepted()
    ensures IsSupportedFormat("photos/cat.jpeg")
  {
    var p := "photos/cat.jpeg";
    assert p[7..] == "cat.jpeg";
    LastIndexOfAt(p, '/', 6);
    assert Name("photos/cat.jpeg") == "cat.jpeg";
    assert Lower("cat.jpeg")[3..] == ".jpeg";
    SuffixOfEnding("cat.jpeg", ".jpeg");
  }

  lemma NoSuffixRefused()
    ensures !IsSupportedFormat("image")
  {
    assert LastIndexOf("image", '/') == None;
    assert Name("image") == "image";
    assert LastIndexOf("image", '.') == None;
    assert SuffixOf("image") == "";
  }

  lemma GifRefused()
    ensures !IsSupportedFormat("test.gif")
  {
    assert LastIndexOf("test.gif", '/') == None;
    assert Name("test.gif") == "test.gif";
    assert LastIndexOf("test.gif", '.') == Some(4);
    assert SuffixOf("test.gif") == ".gif";
    var low := Lower(".gif");
    assert low[1] == 'g';
    if low in SupportedFormats {
      SupportedSecond(low);
    }
  }

  /** The character after the dot of each supported extension. */
  lemma SupportedSecond(e: string)
    requires e in SupportedFormats
    ensures |e| >= 2 && (e[1] == 'p' || e[1] == 'j' || e[1] == 'w')
  {
  }

  lemma BareExtensionRefused()
    ensures !IsSupportedFormat(".png")
  {
    assert Name(".png") == ".png";
    assert LastIndexOf(".png", '.') == Some(0);
    assert SuffixOf(".png") == "";
  }

  // ---------------------------------------------------------------------------
  // The shape of the metadata dictionary `read_metadata` builds

  /** The six standard keys whose text is taken as it is. */
  const ScalarKeys: set<string> := {"prompt", "model", "description", "copyright", "artist", "date"}

  /** An entry of the read dictionary: a standard key, text under the six scalar keys,
      a list under `tags`, a dictionary under `custom_fields`. */
  predicate EntryShaped(e: (string, Value)) {
    && e.0 in StandardKeys
    && (e.0 in ScalarKeys ==> e.1.Str?)
    && (e.0 == "tags" ==> e.1.List?)
    && (e.0 == "custom_fields" ==> e.1.Obj?)
  }

  predicate Shaped(d: Dict<Value>) {
    forall i :: 0 <= i < |d| ==> EntryShaped(d[i])
  }

  /** Assigning a well-shaped entry keeps a dictionary well shaped. */
  lemma ShapedSet(d: Dict<Value>, k: string, v: Value)
    requires Shaped(d) && EntryShaped((k, v))
    ensures Shaped(Set(d, k, v))
  {
    SetEntries(d, k, v);
    var r := Set(d, k, v);
    forall i | 0 <= i < |r| ensures EntryShaped(r[i]) {
      assert r[i] in r;
    }
  }

  /** The value under a key of a well-shaped dictionary is well shaped. */
  lemma ShapedGet(d: Dict<Value>, k: string)
    requires Shaped(d) && Get(d, k).Some?
    ensures EntryShaped((k, Get(d, k).value))
  {
    var i :| 0 <= i < |d| && d[i] == (k, Get(d, k).value);
  }

  /** `d.update(e)` of two well-shaped dictionaries is well shaped. */
  lemma {:induction false} ShapedUpdate(d: Dict<Value>, e: Dict<Value>)
    requires Shaped(d) && Shaped(e)
    ensures Shaped(Update(d, e))
    decreases |e|
  {
    if e != [] {
      ShapedUpdate(d, e[..|e| - 1]);
      ShapedSet(Update(d, e[..|e| - 1]), e[|e| - 1].0, e[|e| - 1].1);
    }
  }

  /** `d.get(key, "")` of a text field. */
  function TextIn(d: Dict<Value>, key: string): string {
    match Get<Value>(d, key)
    case Some(Str(s)) => s
    case _ => ""
  }

  /** `d.get(key)` of an optional text field. */
  function OptionalIn(d: Dict<Value>, key: string): Option<string> {
    match Get<Value>(d, key)
    case Some(Str(s)) => Some(s)
    case _ => None
  }

  /** The record whose fields are the values of a well-shaped dictionary. */
  function RecordOf(d: Dict<Value>): ImageMetadata {
    ImageMetadata(TextIn(d, "prompt"), TextIn(d, "model"), OptionalIn(d, "date"),
                  OptionalIn(d, "description"), TagsOf(d), OptionalIn(d, "copyright"),
                  OptionalIn(d, "artist"), SeedOf(d))
  }

  /** On a well-shaped dictionary `from_dict` never meets a value of the wrong kind and adds
      no custom field: it constructs the record of the dictionary's values. */
  lemma RecordFromShaped(d: Dict<Value>, rule: KeyRule)
    requires Shaped(d)
    ensures RecordFrom(d, rule) == Construct(RecordOf(d))
  {
    forall k | Get(d, k).Some? ensures EntryShaped((k, Get(d, k).value)) {
      ShapedGet(d, k);
    }
    CollectStandardOnly(SeedOf(d), d, rule);
    assert TextOf(d, "prompt") == Success(TextIn(d, "prompt"));
    assert TextOf(d, "model") == Success(TextIn(d, "model"));
    assert OptionalOf(d, "date") == Success(OptionalIn(d, "date"));
    assert OptionalOf(d, "description") == Success(OptionalIn(d, "description"));
    assert OptionalOf(d, "copyright") == Success(OptionalIn(d, "copyright"));
    assert OptionalOf(d, "artist") == Success(OptionalIn(d, "artist"));
  }

  // ---------------------------------------------------------------------------
  // Text-chunk decoding: `_read_png_metadata` and the WebP info loop of `read_metadata`

  /** One text entry read into the metadata dictionary: the scalar keys are copied, `tags`
      is parsed, `custom_<name>` fills custom field `name` unless `name` is `custom_fields`,
      and any other key is ignored. */
  function DecodeEntry(acc: Dict<Value>, key: string, value: string): Dict<Value> {
    if key in ScalarKeys then Set(acc, key, Str(value))
    else if key == "tags" then Set(acc, "tags", List(ParseTags(value)))
    else if StartsWith(key, CustomPrefix) then
      var name := key[|CustomPrefix|..];
      var fields := SeedOf(acc);
      Set(acc, "custom_fields", Obj(if name != "custom_fields" then Set(fields, name, value) else fields))
    else acc
  }

  /** The dictionary after the decoding loop has read the entries of `chunks` into `base`. */
  function DecodeChunks(base: Dict<Value>, chunks: Dict<string>): Dict<Value>
    decreases |chunks|
  {
    if chunks == [] then base
    else DecodeEntry(DecodeChunks(base, chunks[..|chunks| - 1]), chunks[|chunks| - 1].0, chunks[|chunks| - 1].1)
  }

  /** The body of the decoding loop: one text entry read into `d`. */
  method ReadTextEntry(d: Dict<Value>, key: string, value: string) returns (r: Dict<Value>)
    ensures r == DecodeEntry(d, key, value)
  {
    r := d;
    if key in ScalarKeys {
      r := Set(r, key, Str(value));
    } else if key == "tags" {
      r := Set(r, "tags", List(ParseTags(value)));
    } else if StartsWith(key, CustomPrefix) {
      var fields := SeedOf(r);
      var name := key[|CustomPrefix|..];
      if name != "custom_fields" {
        fields := Set(fields, name, value);
      }
      r := Set(r, "custom_fields", Obj(fields));
    }
  }

  /** The decoding loop over the text entries of an image. */
  method ReadTextChunks(base: Dict<Value>, chunks: Dict<string>) returns (d: Dict<Value>)
    ensures d == DecodeChunks(base, chunks)
  {
    d := base;
    var i := 0;
    while i < |chunks|
      invariant 0 <= i <= |chunks|
      invariant d == DecodeChunks(base, chunks[..i])
    {
      assert chunks[..i + 1][..i] == chunks[..i];
      d := ReadTextEntry(d, chunks[i].0, chunks[i].1);
      i := i + 1;
    }
    assert chunks[..|chunks|] == chunks;
  }

  /** Decoding keeps the keys distinct and the dictionary well shaped. */
  lemma {:induction false} DecodeInvariant(base: Dict<Value>, chunks: Dict<string>)
    requires DistinctKeys(base) && Shaped(base)
    ensures DistinctKeys(DecodeChunks(base, chunks)) && Shaped(DecodeChunks(base, chunks))
    decreases |chunks|
  {
    if chunks != [] {
      KeyFacts();
      var acc := DecodeChunks(base, chunks[..|chunks| - 1]);
      DecodeInvariant(base, chunks[..|chunks| - 1]);
      var key, value := chunks[|chunks| - 1].0, chunks[|chunks| - 1].1;
      var r := DecodeEntry(acc, key, value);
      if key in ScalarKeys {
        assert r == Set(acc, key, Str(value));
        SetDistinct(acc, key, Str(value));
        ShapedSet(acc, key, Str(value));
      } else if key == "tags" {
        assert r == Set(acc, "tags", List(ParseTags(value)));
        SetDistinct(acc, "tags", List(ParseTags(value)));
        ShapedSet(acc, "tags", List(ParseTags(value)));
      } else if StartsWith(key, CustomPrefix) {
        var fields := Get(r, "custom_fields").value;
        assert r == Set(acc, "custom_fields", fields);
        SetDistinct(acc, "custom_fields", fields);
        ShapedSet(acc, "custom_fields", fields);
      } else {
        assert r == acc;
      }
    }
  }

  /** The standard keys are told apart from each other and from `custom_` keys. */
  lemma KeyFacts()
    ensures "tags" !in ScalarKeys && "custom_fields" !in ScalarKeys && "tags" != "custom_fields"
    ensures ScalarKeys <= StandardKeys && "tags" in StandardKeys && "custom_fields" in StandardKeys
    ensures forall s :: s in ScalarKeys ==> !StartsWith(s, CustomPrefix)
    ensures !StartsWith("tags", CustomPrefix)
  {
    assert "tags"[0] == 't' && "custom_fields"[0] == 'c';
    assert "date"[0] == 'd' && "prompt"[0] == 'p' && "model"[0] == 'm';
    assert "description"[0] == 'd' && "artist"[0] == 'a';
    assert "copyright"[1] == 'o' && "custom_fields"[1] == 'u';
    forall s | s in ScalarKeys ensures !StartsWith(s, CustomPrefix) {
      if |CustomPrefix| <= |s| {
        assert s == "description" || s == "copyright";
        assert s[..|CustomPrefix|][1] == s[1] != CustomPrefix[1];
      }
    }
  }

  /** A `custom_` key is neither a scalar key nor `tags`. */
  lemma CustomKeyFacts(f: string)
    ensures StartsWith(CustomPrefix + f, CustomPrefix)
    ensures CustomPrefix + f !in ScalarKeys && CustomPrefix + f != "tags"
    ensures (CustomPrefix + f)[|CustomPrefix|..] == f
  {
    KeyFacts();
    assert (CustomPrefix + f)[..|CustomPrefix|] == CustomPrefix;
  }

  /** One decoding step, seen from key `k`. */
  lemma DecodeEntryGet(acc: Dict<Value>, key: string, value: string, k: string)
    ensures k in ScalarKeys ==>
              Get(DecodeEntry(acc, key, value), k) == if key == k then Some(Str(value)) else Get(acc, k)
    ensures k == "tags" ==>
              Get(DecodeEntry(acc, key, value), k) == if key == k then Some(List(ParseTags(value))) else Get(acc, k)
    ensures k !in StandardKeys ==> Get(DecodeEntry(acc, key, value), k) == Get(acc, k)
  {
    KeyFacts();
    var r := DecodeEntry(acc, key, value);
    if key in ScalarKeys {
      assert r == Set(acc, key, Str(value));
    } else if key == "tags" {
      assert r == Set(acc, "tags", List(ParseTags(value)));
    } else if StartsWith(key, CustomPrefix) {
      assert r == Set(acc, "custom_fields", Get(r, "custom_fields").value);
    } else {
      assert r == acc;
    }
  }

  /** One decoding step, seen from custom field `f`. */
  lemma DecodeEntryCustom(acc: Dict<Value>, key: string, value: string, f: string)
    ensures Get(SeedOf(DecodeEntry(acc, key, value)), f) ==
              if f != "custom_fields" && key == CustomPrefix + f then Some(value) else Get(SeedOf(acc), f)
  {
    CustomKeyFacts(f);
    if key in ScalarKeys || key == "tags" || !StartsWith(key, CustomPrefix) {
      DecodeEntryKeepsCustom(acc, key, value);
    } else {
      CustomEntrySeed(acc, key, value);
      var name := key[|CustomPrefix|..];
      assert key == CustomPrefix + name;
      assert key == CustomPrefix + f <==> name == f;
    }
  }

  /** An entry with the `custom_` prefix assigns the custom field it names, unless that
      name is `custom_fields`. */
  lemma CustomEntrySeed(acc: Dict<Value>, key: string, value: string)
    requires key !in ScalarKeys && key != "tags" && StartsWith(key, CustomPrefix)
    ensures SeedOf(DecodeEntry(acc, key, value)) ==
              var name := key[|CustomPrefix|..];
              if name != "custom_fields" then Set(SeedOf(acc), name, value) else SeedOf(acc)
  {
    var name := key[|CustomPrefix|..];
    var nf := if name != "custom_fields" then Set(SeedOf(acc), name, value) else SeedOf(acc);
    assert DecodeEntry(acc, key, value) == Set(acc, "custom_fields", Obj(nf));
  }

  /** An entry without the `custom_` prefix leaves the custom fields alone. */
  lemma DecodeEntryKeepsCustom(acc: Dict<Value>, key: string, value: string)
    requires key in ScalarKeys || key == "tags" || !StartsWith(key, CustomPrefix)
    ensures SeedOf(DecodeEntry(acc, key, value)) == SeedOf(acc)
  {
    if key in ScalarKeys {
      ScalarEntryKeepsCustom(acc, key, value);
    } else if key == "tags" {
      TagsEntryKeepsCustom(acc, value);
    } else {
      assert DecodeEntry(acc, key, value) == acc;
    }
  }

  lemma ScalarEntryKeepsCustom(acc: Dict<Value>, key: string, value: string)
    requires key in ScalarKeys
    ensures SeedOf(DecodeEntry(acc, key, value)) == SeedOf(acc)
  {
    KeyFacts();
    assert DecodeEntry(acc, key, value) == Set(acc, key, Str(value));
    SetKeepsCustom(acc, key, Str(value));
  }

  lemma TagsEntryKeepsCustom(acc: Dict<Value>, value: string)
    ensures SeedOf(DecodeEntry(acc, "tags", value)) == SeedOf(acc)
  {
    KeyFacts();
    assert DecodeEntry(acc, "tags", value) == Set(acc, "tags", List(ParseTags(value)));
    SetKeepsCustom(acc, "tags", List(ParseTags(value)));
  }

  /** Assigning a key other than `custom_fields` leaves the custom fields alone. */
  lemma SetKeepsCustom(acc: Dict<Value>, k: string, v: Value)
    requires k != "custom_fields"
    ensures SeedOf(Set(acc, k, v)) == SeedOf(acc)
  {
    assert Get(Set(acc, k, v), "custom_fields") == Get(acc, "custom_fields");
  }

  /** What decoding stores under the standard keys: the text of the chunk of the same key
      for the six scalar keys, the parsed tag list for `tags`; keys no chunk names keep
      their value, and keys outside the standard set are never touched. */
  lemma {:induction false} DecodeGet(base: Dict<Value>, chunks: Dict<string>, k: string)
    requires DistinctKeys(chunks)
    ensures k in ScalarKeys ==>
              Get(DecodeChunks(base, chunks), k) ==
              if k in KeySet(chunks) then Some(Str(Get(chunks, k).value)) else Get(base, k)
    ensures k == "tags" ==>
              Get(DecodeChunks(base, chunks), k) ==
              if k in KeySet(chunks) then Some(List(ParseTags(Get(chunks, k).value))) else Get(base, k)
    ensures k !in StandardKeys ==> Get(DecodeChunks(base, chunks), k) == Get(base, k)
    decreases |chunks|
  {
    if chunks != [] {
      var init := chunks[..|chunks| - 1];
      var key, value := chunks[|chunks| - 1].0, chunks[|chunks| - 1].1;
      assert KeySet(chunks) == KeySet(init) + {key};
      assert DistinctKeys(init);
      DecodeGet(base, init, k);
      DecodeEntryGet(DecodeChunks(base, init), key, value, k);
      if key == k {
        GetLast(chunks);
      } else {
        GetPrefix(chunks, k);
      }
    }
  }

  /** What decoding stores as custom field `f`: the text of chunk `custom_<f>`, unless `f`
      is `custom_fields`; a field no chunk names keeps its value. */
  lemma {:induction false} DecodeCustom(base: Dict<Value>, chunks: Dict<string>, f: string)
    requires DistinctKeys(chunks)
    ensures Get(SeedOf(DecodeChunks(base, chunks)), f) ==
      if f != "custom_fields" && CustomPrefix + f in KeySet(chunks) then Get(chunks, CustomPrefix + f)
      else Get(SeedOf(base), f)
    decreases |chunks|
  {
    if chunks != [] {
      var init := chunks[..|chunks| - 1];
      var key, value := chunks[|chunks| - 1].0, chunks[|chunks| - 1].1;
      assert KeySet(chunks) == KeySet(init) + {key};
      assert DistinctKeys(init);
      DecodeCustom(base, init, f);
      DecodeEntryCustom(DecodeChunks(base, init), key, value, f);
      if key == CustomPrefix + f {
        GetLast(chunks);
      } else {
        GetPrefix(chunks, CustomPrefix + f);
      }
    }
  }

  // ---------------------------------------------------------------------------
  // Text-chunk encoding: the entries `_write_png_metadata` and the WebP branch of
  // `write_metadata` emit

  /** A stripped prompt or model is written only when it is neither empty nor the placeholder. */
  predicate Writable(s: string) {
    s != "" && s != Placeholder
  }

  /** Stripping leaves a written value exactly when something other than whitespace is there. */
  lemma WritableStripped(s: string)
    ensures Writable(Strip(s)) <==> Strip(s) != ""
  {
    StripNotSpace(s);
  }

  /** The text of a present optional field. */
  function OptionText(o: Option<string>): string {
    if o.Some? then o.value else ""
  }

  /** The order in which the writers assign the standard entries. */
  const WriteOrder: seq<string> := ["prompt", "model", "description", "copyright", "artist", "date", "tags"]

  /** The writers' standard assignments for `m`, in `WriteOrder`: prompt and model stripped
      (when something other than the placeholder is left), the optional fields when truthy,
      the tags joined with `", "` when there are any. */
  function StandardAssignments(m: ImageMetadata): seq<Assignment<string>> {
    [Assignment(Writable(Strip(m.prompt)), "prompt", Strip(m.prompt)),
     Assignment(Writable(Strip(m.model)), "model", Strip(m.model)),
     Assignment(Truthy(m.description), "description", OptionText(m.description)),
     Assignment(Truthy(m.copyright), "copyright", OptionText(m.copyright)),
     Assignment(Truthy(m.artist), "artist", OptionText(m.artist)),
     Assignment(Truthy(m.date), "date", OptionText(m.date)),
     Assignment(m.tags != [], "tags", JoinTags(m.tags))]
  }

  /** The standard entries written for `m`, assigned into `base`. */
  function EncodeStandard(base: Dict<string>, m: ImageMetadata): Dict<string> {
    PutAll(base, StandardAssignments(m))
  }

  /** The custom-field loop of the writers after it has seen `fields`: each field becomes
      entry `custom_<key>`, except the key `custom_fields`. */
  function EncodeCustom(base: Dict<string>, fields: Dict<string>): Dict<string>
    decreases |fields|
  {
    if fields == [] then base
    else
      var acc := EncodeCustom(base, fields[..|fields| - 1]);
      var key := fields[|fields| - 1].0;
      if key != "custom_fields" then Set(acc, CustomPrefix + key, fields[|fields| - 1].1) else acc
  }

  /** Every entry the writers produce for `m`, on top of `base`. */
  function Encode(base: Dict<string>, m: ImageMetadata): Dict<string> {
    EncodeCustom(EncodeStandard(base, m), m.customFields)
  }

  /** The writers' entry building: the standard entries, then the custom-field loop. */
  method WriteTextChunks(base: Dict<string>, m: ImageMetadata) returns (out: Dict<string>)
    ensures out == Encode(base, m)
  {
    var standard := EncodeStandard(base, m);
    out := standard;
    var fields := m.customFields;
    var i := 0;
    while i < |fields|
      invariant 0 <= i <= |fields|
      invariant out == EncodeCustom(standard, fields[..i])
    {
      assert fields[..i + 1][..i] == fields[..i];
      var key, value := fields[i].0, fields[i].1;
      if key != "custom_fields" {
        out := Set(out, CustomPrefix + key, value);
      }
      i := i + 1;
    }
    assert fields[..|fields|] == fields;
  }

  /** The value the writers emit under key `k`, if any: the stripped prompt and model when
      something is left of them, each truthy optional field, the joined tags when there are
      any; nothing under an empty field or a key that is not a standard entry. */
  function Written(m: ImageMetadata, k: string): Option<string> {
    if k == "prompt" then (if Strip(m.prompt) != "" then Some(Strip(m.prompt)) else None)
    else if k == "model" then (if Strip(m.model) != "" then Some(Strip(m.model)) else None)
    else if k == "description" then (if Truthy(m.description) then m.description else None)
    else if k == "copyright" then (if Truthy(m.copyright) then m.copyright else None)
    else if k == "artist" then (if Truthy(m.artist) then m.artist else None)
    else if k == "date" then (if Truthy(m.date) then m.date else None)
    else if k == "tags" then (if m.tags != [] then Some(JoinTags(m.tags)) else None)
    else None
  }

  /** The standard keys are pairwise different. */
  lemma KeysDistinct()
    ensures "prompt" != "model" && "prompt" != "description" && "prompt" != "copyright"
    ensures "prompt" != "artist" && "prompt" != "date" && "prompt" != "tags"
    ensures "model" != "description" && "model" != "copyright" && "model" != "artist"
    ensures "model" != "date" && "model" != "tags"
    ensures "description" != "copyright" && "description" != "artist" && "description" != "date"
    ensures "description" != "tags" && "copyright" != "artist" && "copyright" != "date"
    ensures "copyright" != "tags" && "artist" != "date" && "artist" != "tags" && "date" != "tags"
  {
    assert "prompt"[0] != "artist"[0] && "date"[0] != "tags"[0];
  }

  /** A key none of the writers' standard assignments touches keeps its value. */
  lemma EncodeStandardOther(base: Dict<string>, m: ImageMetadata, k: string)
    requires k !in ScalarKeys && k != "tags"
    ensures Get(EncodeStandard(base, m), k) == Get(base, k)
  {
    PutAllOther(base, StandardAssignments(m), k);
  }

  /** The standard entries hold what is written for each key, and every key nothing is
      written for keeps its value in `base`. */
  lemma EncodeStandardGet(base: Dict<string>, m: ImageMetadata, k: string)
    ensures Get(EncodeStandard(base, m), k) == if Written(m, k).Some? then Written(m, k) else Get(base, k)
  {
    if k == "prompt" { EncodeStandardPrompt(base, m); }
    else if k == "model" { EncodeStandardModel(base, m); }
    else if k == "description" { EncodeStandardDescription(base, m); }
    else if k == "copyright" { EncodeStandardCopyright(base, m); }
    else if k == "artist" { EncodeStandardArtist(base, m); }
    else if k == "date" { EncodeStandardDate(base, m); }
    else if k == "tags" { EncodeStandardTags(base, m); }
    else {
      KeysDistinct();
      EncodeStandardOther(base, m, k);
    }
  }

  /** What is written for the prompt, in terms of the writers' condition. */
  lemma WrittenPrompt(m: ImageMetadata)
    ensures Written(m, "prompt") == if Writable(Strip(m.prompt)) then Some(Strip(m.prompt)) else None
  {
    WritableStripped(m.prompt);
  }

  /** What is written for the model, in terms of the writers' condition. */
  lemma WrittenModel(m: ImageMetadata)
    ensures Written(m, "model") == if Writable(Strip(m.model)) then Some(Strip(m.model)) else None
  {
    KeysDistinct();
    WritableStripped(m.model);
  }

  lemma EncodeStandardPrompt(base: Dict<string>, m: ImageMetadata)
    ensures Get(EncodeStandard(base, m), "prompt") == if Written(m, "prompt").Some? then Written(m, "prompt") else Get(base, "prompt")
  {
    var es := StandardAssignments(m);
    KeysDistinct();
    assert es[1].key == "model";
    assert es[2].key == "description";
    assert es[3].key == "copyright";
    assert es[4].key == "artist";
    assert es[5].key == "date";
    assert es[6].key == "tags";
    PutAllAt(base, es, 0);
    WrittenPrompt(m);
  }

  lemma EncodeStandardModel(base: Dict<string>, m: ImageMetadata)
    ensures Get(EncodeStandard(base, m), "model") == if Written(m, "model").Some? then Written(m, "model") else Get(base, "model")
  {
    var es := StandardAssignments(m);
    KeysDistinct();
    assert es[0].key == "prompt";
    assert es[2].key == "description";
    assert es[3].key == "copyright";
    assert es[4].key == "artist";
    assert es[5].key == "date";
    assert es[6].key == "tags";
    PutAllAt(base, es, 1);
    WrittenModel(m);
  }

  lemma EncodeStandardDescription(base: Dict<string>, m: ImageMetadata)
    ensures Get(EncodeStandard(base, m), "description") == if Written(m, "description").Some? then Written(m, "description") else Get(base, "description")
  {
    var es := StandardAssignments(m);
    KeysDistinct();
    assert es[0].key == "prompt";
    assert es[1].key == "model";
    assert es[3].key == "copyright";
    assert es[4].key == "artist";
    assert es[5].key == "date";
    assert es[6].key == "tags";
    PutAllAt(base, es, 2);
  }

  lemma EncodeStandardCopyright(base: Dict<string>, m: ImageMetadata)
    ensures Get(EncodeStandard(base, m), "copyright") == if Written(m, "copyright").Some? then Written(m, "copyright") else Get(base, "copyright")
  {
    var es := StandardAssignments(m);
    KeysDistinct();
    assert es[0].key == "prompt";
    assert es[1].key == "model";
    assert es[2].key == "description";
    assert es[4].key == "artist";
    assert es[5].key == "date";
    assert es[6].key == "tags";
    PutAllAt(base, es, 3);
  }

  lemma EncodeStandardArtist(base: Dict<string>, m: ImageMetadata)
    ensures Get(EncodeStandard(base, m), "artist") == if Written(m, "artist").Some? then Written(m, "artist") else Get(base, "artist")
  {
    var es := StandardAssignments(m);
    KeysDistinct();
    assert es[0].key == "prompt";
    assert es[1].key == "model";
    assert es[2].key == "description";
    assert es[3].key == "copyright";
    assert es[5].key == "date";
    assert es[6].key == "tags";
    PutAllAt(base, es, 4);
  }

  lemma EncodeStandardDate(base: Dict<string>, m: ImageMetadata)
    ensures Get(EncodeStandard(base, m), "date") == if Written(m, "date").Some? then Written(m, "date") else Get(base, "date")
  {
    var es := StandardAssignments(m);
    KeysDistinct();
    assert es[0].key == "prompt";
    assert es[1].key == "model";
    assert es[2].key == "description";
    assert es[3].key == "copyright";
    assert es[4].key == "artist";
    assert es[6].key == "tags";
    PutAllAt(base, es, 5);
  }

  lemma EncodeStandardTags(base: Dict<string>, m: ImageMetadata)
    ensures Get(EncodeStandard(base, m), "tags") == if Written(m, "tags").Some? then Written(m, "tags") else Get(base, "tags")
  {
    var es := StandardAssignments(m);
    KeysDistinct();
    assert es[0].key == "prompt";
    assert es[1].key == "model";
    assert es[2].key == "description";
    assert es[3].key == "copyright";
    assert es[4].key == "artist";
    assert es[5].key == "date";
    PutAllAt(base, es, 6);
  }

  /** What the custom entries hold: entry `custom_<f>` holds field `f` unless `f` is
      `custom_fields`; every other key keeps its value in `base`. */
  lemma {:induction false} EncodeCustomGet(base: Dict<string>, fields: Dict<string>, k: string)
    requires DistinctKeys(fields)
    ensures Get(EncodeCustom(base, fields), k) ==
              if StartsWith(k, CustomPrefix) && k[|CustomPrefix|..] != "custom_fields"
                 && k[|CustomPrefix|..] in KeySet(fields)
              then Get(fields, k[|CustomPrefix|..])
              else Get(base, k)
    decreases |fields|
  {
    if fields != [] {
      var init := fields[..|fields| - 1];
      var key, value := fields[|fields| - 1].0, fields[|fields| - 1].1;
      assert KeySet(fields) == KeySet(init) + {key};
      assert DistinctKeys(init);
      EncodeCustomGet(base, init, k);
      CustomKeyFacts(key);
      if StartsWith(k, CustomPrefix) {
        assert k == CustomPrefix + k[|CustomPrefix|..];
      }
      if StartsWith(k, CustomPrefix) && k[|CustomPrefix|..] == key {
        GetLast(fields);
      } else if StartsWith(k, CustomPrefix) {
        GetPrefix(fields, k[|CustomPrefix|..]);
      }
    }
  }

  /** The writers' entries have distinct keys when `base` has. */
  lemma {:induction false} EncodeCustomDistinct(base: Dict<string>, fields: Dict<string>)
    requires DistinctKeys(base)
    ensures DistinctKeys(EncodeCustom(base, fields))
    decreases |fields|
  {
    if fields != [] {
      var init := fields[..|fields| - 1];
      EncodeCustomDistinct(base, init);
      var key := fields[|fields| - 1].0;
      if key != "custom_fields" {
        SetDistinct(EncodeCustom(base, init), CustomPrefix + key, fields[|fields| - 1].1);
      }
    }
  }

  lemma EncodeDistinct(base: Dict<string>, m: ImageMetadata)
    requires DistinctKeys(base)
    ensures DistinctKeys(Encode(base, m))
  {
    EncodeStandardDistinct(base, m);
    EncodeCustomDistinct(EncodeStandard(base, m), m.customFields);
  }

  lemma EncodeStandardDistinct(base: Dict<string>, m: ImageMetadata)
    requires DistinctKeys(base)
    ensures DistinctKeys(EncodeStandard(base, m))
  {
    PutAllDistinct(base, StandardAssignments(m));
  }

  /** The entries written for a record, looked up under a standard key. */
  lemma EncodeGetStandard(base: Dict<string>, m: ImageMetadata, k: string)
    requires DistinctKeys(m.customFields)
    requires k in ScalarKeys || k == "tags"
    ensures Get(Encode(base, m), k) == Get(EncodeStandard(base, m), k)
  {
    KeyFacts();
    EncodeCustomGet(EncodeStandard(base, m), m.customFields, k);
  }

  /** Decoding the entries written for a record gives back, under each standard key, the
      value written for it: the stripped prompt and model when non-blank, each truthy
      optional field, and the parsed joined tags when there are tags; nothing otherwise. */
  lemma DecodeEncodeStandard(m: ImageMetadata, k: string)
    requires DistinctKeys(m.customFields)
    requires k in ScalarKeys || k == "tags"
    ensures var d := DecodeChunks([], Encode([], m));
      Get(d, k) == match Get(EncodeStandard([], m), k)
                   case None => None
                   case Some(s) => Some(if k == "tags" then List(ParseTags(s)) else Str(s))
  {
    KeyFacts();
    EncodeDistinct([], m);
    EncodeGetStandard([], m, k);
    DecodeGet([], Encode([], m), k);
  }

  /** Decoding the entries written for a record gives back each of its custom fields,
      except one named `custom_fields`, which is never written. */
  lemma DecodeEncodeCustom(m: ImageMetadata, f: string)
    requires DistinctKeys(m.customFields)
    ensures Get(SeedOf(DecodeChunks([], Encode([], m))), f) ==
              if f == "custom_fields" then None else Get(m.customFields, f)
  {
    var e := Encode([], m);
    EncodeDistinct([], m);
    DecodeCustom([], e, f);
    CustomKeyFacts(f);
    EncodeStandardOther([], m, CustomPrefix + f);
    EncodeCustomGet(EncodeStandard([], m), m.customFields, CustomPrefix + f);
    assert Get(e, CustomPrefix + f) ==
      if f != "custom_fields" && f in KeySet(m.customFields) then Get(m.customFields, f) else None;
    assert Get(SeedOf([]), f) == None;
  }

  // ---------------------------------------------------------------------------
  // EXIF: the four tags `_read_exif_metadata` reads and `_write_exif_metadata` writes

  /** The EXIF tags of a file: ImageDescription, Artist, Copyright and DateTimeOriginal,
      each absent or holding (decoded) text. */
  datatype ExifTags = ExifTags(description: Option<string>, artist: Option<string>,
                               copyright: Option<string>, dateOriginal: Option<string>)

  const NoExif := ExifTags(None, None, None, None)

  /** The date conversion of the EXIF writers: an ISO-looking date `YYYY-MM-DD` becomes
      `YYYY:MM:DD 00:00:00`; a date with a colon, or without a dash, is written as given. */
  function ToExifDate(date: string): (r: string)
    ensures '-' in date && ':' !in date ==> ':' in r && ' ' in r
  {
    if '-' in date && ':' !in date then
      var r := Replace(date, '-', ':') + " 00:00:00";
      assert r[|date|] == ' ';
      var i :| 0 <= i < |date| && date[i] == '-';
      assert r[i] == ':';
      r
    else date
  }

  /** The date conversion of the EXIF reader: a value with a colon loses everything after its
      first word (when it has a space) and has its colons turned into dashes. */
  function FromExifDate(value: string): string {
    if ':' in value then Replace(if ' ' in value then FirstWord(value) else value, ':', '-')
    else value
  }

  /** A date without colons or whitespace survives being written to EXIF and read back. */
  lemma ExifDateRoundTrip(date: string)
    requires ':' !in date && forall i :: 0 <= i < |date| ==> !IsSpace(date[i])
    ensures FromExifDate(ToExifDate(date)) == date
  {
    if '-' in date {
      var w := Replace(date, '-', ':');
      assert w != [];
      assert forall i :: 0 <= i < |w| ==> !IsSpace(w[i]);
      assert IsSpace(" 00:00:00"[0]);
      FirstWordOf(w, " 00:00:00");
      ReplaceBack(date, '-', ':');
    }
  }

  /** An ISO date is written only with digits and dashes. */
  lemma IsoDateChars(date: string)
    requires IsIsoDate(date)
    ensures ':' !in date && forall i :: 0 <= i < |date| ==> !IsSpace(date[i])
  {
    forall i | 0 <= i < |date| ensures date[i] == '-' || IsDigit(date[i]) {
      if i < 4 {
        assert date[..4][i] == date[i];
      } else if 4 < i < 7 {
        assert date[5..7][i - 5] == date[i];
      } else if 7 < i {
        assert date[8..][i - 8] == date[i];
      }
    }
  }

  /** Every valid ISO date survives the EXIF date conversions. */
  lemma IsoDateExifRoundTrip(date: string)
    requires IsIsoDate(date)
    ensures FromExifDate(ToExifDate(date)) == date
  {
    IsoDateChars(date);
    ExifDateRoundTrip(date);
  }

  /** Text of a tag that is present and not empty. */
  function TagText(tag: Option<string>): Option<Value> {
    if Truthy(tag) then Some(Str(OptionText(tag))) else None
  }

  /** The dictionary `_read_exif_metadata` returns (the piexif branch): ImageDescription gives
      the description and the prompt, Artist the artist and the model, Copyright the
      copyright, DateTimeOriginal the date after `FromExifDate`; empty tags are skipped. */
  function ExifRead(t: ExifTags): Dict<Value> {
    var d1 := Put([], Truthy(t.description), "description", Str(OptionText(t.description)));
    var d2 := Put(d1, Truthy(t.description), "prompt", Str(OptionText(t.description)));
    var d3 := Put(d2, Truthy(t.artist), "artist", Str(OptionText(t.artist)));
    var d4 := Put(d3, Truthy(t.artist), "model", Str(OptionText(t.artist)));
    var d5 := Put(d4, Truthy(t.copyright), "copyright", Str(OptionText(t.copyright)));
    Put(d5, Truthy(t.dateOriginal), "date", Str(FromExifDate(OptionText(t.dateOriginal))))
  }

  /** The value the EXIF reader yields under key `k`. */
  function ExifField(t: ExifTags, k: string): Option<Value> {
    if k == "description" || k == "prompt" then TagText(t.description)
    else if k == "artist" || k == "model" then TagText(t.artist)
    else if k == "copyright" then TagText(t.copyright)
    else if k == "date" then
      (if Truthy(t.dateOriginal) then Some(Str(FromExifDate(OptionText(t.dateOriginal)))) else None)
    else None
  }

  /** The EXIF reader's dictionary, key by key. */
  lemma ExifReadGet(t: ExifTags, k: string)
    ensures Get(ExifRead(t), k) == ExifField(t, k)
  {
    ExifChainGet(Truthy(t.description), Truthy(t.artist), Truthy(t.copyright), Truthy(t.dateOriginal),
                 Str(OptionText(t.description)), Str(OptionText(t.artist)), Str(OptionText(t.copyright)),
                 Str(FromExifDate(OptionText(t.dateOriginal))), k);
  }

  /** The reader's six conditional assignments, key by key. */
  lemma ExifChainGet(cd: bool, ca: bool, cc: bool, ct: bool, vd: Value, va: Value, vc: Value, vt: Value, k: string)
    ensures var d2 := Put(Put([], cd, "description", vd), cd, "prompt", vd);
      var d4 := Put(Put(d2, ca, "artist", va), ca, "model", va);
      Get(Put(Put(d4, cc, "copyright", vc), ct, "date", vt), k) ==
        if k == "description" || k == "prompt" then (if cd then Some(vd) else None)
        else if k == "artist" || k == "model" then (if ca then Some(va) else None)
        else if k == "copyright" then (if cc then Some(vc) else None)
        else if k == "date" then (if ct then Some(vt) else None)
        else None
  {
    KeysDistinct();
    var d0: Dict<Value> := [];
    var d1 := Put(d0, cd, "description", vd);
    var d2 := Put(d1, cd, "prompt", vd);
    var d3 := Put(d2, ca, "artist", va);
    var d4 := Put(d3, ca, "model", va);
    var d5 := Put(d4, cc, "copyright", vc);
    PutGet(d0, cd, "description", vd, k);
    PutGet(d1, cd, "prompt", vd, k);
    PutGet(d2, ca, "artist", va, k);
    PutGet(d3, ca, "model", va, k);
    PutGet(d4, cc, "copyright", vc, k);
    PutGet(d5, ct, "date", vt, k);
  }

  /** A dictionary a metadata channel yields: well shaped, distinct keys, every value truthy. */
  predicate Channel(d: Dict<Value>) {
    Shaped(d) && DistinctKeys(d) && forall i :: 0 <= i < |d| ==> IsTruthy(d[i].1)
  }

  lemma ChannelSet(d: Dict<Value>, k: string, v: Value)
    requires Channel(d) && EntryShaped((k, v)) && IsTruthy(v)
    ensures Channel(Set(d, k, v))
  {
    ShapedSet(d, k, v);
    SetDistinct(d, k, v);
    SetEntries(d, k, v);
    var r := Set(d, k, v);
    forall i | 0 <= i < |r| ensures IsTruthy(r[i].1) {
      assert r[i] in r;
    }
  }

  lemma ChannelPut(d: Dict<Value>, c: bool, k: string, v: Value)
    requires Channel(d) && (c ==> EntryShaped((k, v)) && IsTruthy(v))
    ensures Channel(Put(d, c, k, v))
  {
    if c {
      ChannelSet(d, k, v);
    }
  }

  /** The EXIF reader yields a channel dictionary. */
  lemma ExifChannel(t: ExifTags)
    ensures Channel(ExifRead(t))
  {
    KeyFacts();
    if Truthy(t.dateOriginal) {
      FromExifDateNonEmpty(t.dateOriginal.value);
    }
    var d0: Dict<Value> := [];
    var d1 := Put(d0, Truthy(t.description), "description", Str(OptionText(t.description)));
    var d2 := Put(d1, Truthy(t.description), "prompt", Str(OptionText(t.description)));
    var d3 := Put(d2, Truthy(t.artist), "artist", Str(OptionText(t.artist)));
    var d4 := Put(d3, Truthy(t.artist), "model", Str(OptionText(t.artist)));
    var d5 := Put(d4, Truthy(t.copyright), "copyright", Str(OptionText(t.copyright)));
    ChannelPut(d0, Truthy(t.description), "description", Str(OptionText(t.description)));
    ChannelPut(d1, Truthy(t.description), "prompt", Str(OptionText(t.description)));
    ChannelPut(d2, Truthy(t.artist), "artist", Str(OptionText(t.artist)));
    ChannelPut(d3, Truthy(t.artist), "model", Str(OptionText(t.artist)));
    ChannelPut(d4, Truthy(t.copyright), "copyright", Str(OptionText(t.copyright)));
    ChannelPut(d5, Truthy(t.dateOriginal), "date", Str(FromExifDate(OptionText(t.dateOriginal))));
  }

  /** A non-empty value keeps something after the date conversion. */
  lemma FromExifDateNonEmpty(value: string)
    requires value != ""
    ensures FromExifDate(value) != ""
  {
    if ':' in value && ' ' in value {
      var i :| 0 <= i < |value| && value[i] == ':';
      assert !IsSpace(value[i]);
      assert TrimStart(value) != [];
    }
  }

  /** The EXIF writer (the piexif branch): the stripped prompt goes into ImageDescription
      and the stripped model into Artist when something is left of them, a truthy copyright
      into Copyright, a truthy date into DateTimeOriginal after `ToExifDate`; every other tag
      keeps its value. The description and artist fields are not written. */
  function ExifWrite(t: ExifTags, m: ImageMetadata): ExifTags {
    var prompt, model := Strip(m.prompt), Strip(m.model);
    ExifTags(if Writable(prompt) then Some(prompt) else t.description,
             if Writable(model) then Some(model) else t.artist,
             if Truthy(m.copyright) then m.copyright else t.copyright,
             if Truthy(m.date) then Some(ToExifDate(m.date.value)) else t.dateOriginal)
  }

  /** Writing a record's EXIF tags and reading them back: the prompt comes back stripped as
      both prompt and description, the model stripped as both model and artist, the
      copyright as written, and an ISO date unchanged; fields left empty read what the file
      already held. */
  lemma ExifWriteRead(t: ExifTags, m: ImageMetadata)
    requires Truthy(m.date) ==> IsIsoDate(m.date.value)
    ensures var r := ExifRead(ExifWrite(t, m));
      && Get(r, "prompt") == Get(r, "description")
      && Get(r, "prompt") == (if Strip(m.prompt) != "" then Some(Str(Strip(m.prompt))) else TagText(t.description))
      && Get(r, "model") == Get(r, "artist")
      && Get(r, "model") == (if Strip(m.model) != "" then Some(Str(Strip(m.model))) else TagText(t.artist))
      && Get(r, "copyright") == (if Truthy(m.copyright) then Some(Str(m.copyright.value)) else TagText(t.copyright))
      && (Truthy(m.date) ==> Get(r, "date") == Some(Str(m.date.value)))
  {
    var w := ExifWrite(t, m);
    ExifReadGet(w, "description");
    ExifReadGet(w, "prompt");
    ExifReadGet(w, "artist");
    ExifReadGet(w, "model");
    ExifReadGet(w, "copyright");
    ExifReadGet(w, "date");
    ExifWritePrompt(t, m);
    ExifWriteModel(t, m);
    ExifWriteCopyright(t, m);
    if Truthy(m.date) {
      var date := m.date.value;
      IsoDateExifRoundTrip(date);
      assert w.dateOriginal == Some(ToExifDate(date));
      ExifDateField(w, ToExifDate(date), date);
    }
  }

  /** The description tag written for a record, as the EXIF reader sees it. */
  lemma ExifWritePrompt(t: ExifTags, m: ImageMetadata)
    ensures var w := ExifWrite(t, m);
      && ExifField(w, "prompt") == ExifField(w, "description")
      && ExifField(w, "prompt") == (if Strip(m.prompt) != "" then Some(Str(Strip(m.prompt))) else TagText(t.description))
  {
    var w := ExifWrite(t, m);
    var prompt := Strip(m.prompt);
    ExifTextFields(w);
    StripNotSpace(m.prompt);
    TagTextWritten(prompt, t.description);
    assert w.description == if Writable(prompt) then Some(prompt) else t.description;
  }

  /** The artist tag written for a record, as the EXIF reader sees it. */
  lemma ExifWriteModel(t: ExifTags, m: ImageMetadata)
    ensures var w := ExifWrite(t, m);
      && ExifField(w, "model") == ExifField(w, "artist")
      && ExifField(w, "model") == (if Strip(m.model) != "" then Some(Str(Strip(m.model))) else TagText(t.artist))
  {
    var w := ExifWrite(t, m);
    var model := Strip(m.model);
    ExifTextFields(w);
    StripNotSpace(m.model);
    TagTextWritten(model, t.artist);
    assert w.artist == if Writable(model) then Some(model) else t.artist;
  }

  /** The copyright tag written for a record, as the EXIF reader sees it. */
  lemma ExifWriteCopyright(t: ExifTags, m: ImageMetadata)
    ensures ExifField(ExifWrite(t, m), "copyright") ==
              if Truthy(m.copyright) then Some(Str(m.copyright.value)) else TagText(t.copyright)
  {
    var w := ExifWrite(t, m);
    ExifTextFields(w);
    assert w.copyright == if Truthy(m.copyright) then m.copyright else t.copyright;
  }

  /** The text tags as the EXIF reader sees them: the description under prompt and
      description, the artist under model and artist, and the copyright. */
  lemma ExifTextFields(w: ExifTags)
    ensures ExifField(w, "prompt") == TagText(w.description) && ExifField(w, "description") == TagText(w.description)
    ensures ExifField(w, "model") == TagText(w.artist) && ExifField(w, "artist") == TagText(w.artist)
    ensures ExifField(w, "copyright") == TagText(w.copyright)
  {
    KeysDistinct();
  }

  /** A date tag whose conversion gives back a non-empty date is read as that date. */
  lemma ExifDateField(w: ExifTags, tag: string, date: string)
    requires w.dateOriginal == Some(tag) && FromExifDate(tag) == date && date != ""
    ensures ExifField(w, "date") == Some(Str(date))
  {
    KeysDistinct();
    assert tag != "";
  }

  // ---------------------------------------------------------------------------
  // XMP: the properties `_read_xmp_metadata` reads

  /** The XMP properties read: `dc:description`, the `dc:subject` array, and the custom
      namespace's `prompt` and `model`; an absent property is `None`. */
  datatype XmpPacket = XmpPacket(description: Option<string>, subjects: seq<string>,
                                 prompt: Option<string>, model: Option<string>)

  /** The subjects the reader keeps: the non-empty ones, in order. */
  function KeptSubjects(subjects: seq<string>): (r: seq<string>)
    ensures forall i :: 0 <= i < |r| ==> r[i] != "" && r[i] in subjects
    ensures forall x :: x in subjects && x != "" ==> x in r
    ensures |subjects| == 1 ==> r == (if subjects[0] == "" then [] else subjects)
    decreases |subjects|
  {
    if subjects == [] then []
    else
      var init := KeptSubjects(subjects[..|subjects| - 1]);
      var last := subjects[|subjects| - 1];
      assert forall x :: x in subjects ==> x in subjects[..|subjects| - 1] || x == last;
      if last != "" then init + [last] else init
  }

  /** Keeping subjects distributes over concatenation. With the single-subject case of
      `KeptSubjects`, the kept subjects are the non-empty ones, in order and with their
      repetitions. */
  lemma {:induction false} KeptSubjectsAppend(a: seq<string>, b: seq<string>)
    ensures KeptSubjects(a + b) == KeptSubjects(a) + KeptSubjects(b)
    decreases |b|
  {
    if b == [] {
      assert a + b == a;
    } else {
      var b0 := b[..|b| - 1];
      assert (a + b)[..|a + b| - 1] == a + b0;
      KeptSubjectsAppend(a, b0);
    }
  }

  /** The reader's subject loop. */
  method ReadSubjects(subjects: seq<string>) returns (tags: seq<string>)
    ensures tags == KeptSubjects(subjects)
  {
    tags := [];
    var i := 0;
    while i < |subjects|
      invariant 0 <= i <= |subjects|
      invariant tags == KeptSubjects(subjects[..i])
    {
      assert subjects[..i + 1][..i] == subjects[..i];
      if subjects[i] != "" {
        tags := tags + [subjects[i]];
      }
      i := i + 1;
    }
    assert subjects[..|subjects|] == subjects;
  }

  /** The dictionary `_read_xmp_metadata` returns; `None` when there is no XMP packet (or no
      XMP library): the description gives the description and the prompt, the kept subjects
      the tags, and the custom `prompt` and `model` override the prompt and give the model. */
  function XmpRead(x: Option<XmpPacket>): Dict<Value> {
    match x
    case None => []
    case Some(p) =>
      var tags := KeptSubjects(p.subjects);
      var d1 := Put([], Truthy(p.description), "description", Str(OptionText(p.description)));
      var d2 := Put(d1, Truthy(p.description), "prompt", Str(OptionText(p.description)));
      var d3 := Put(d2, tags != [], "tags", List(tags));
      var d4 := Put(d3, Truthy(p.prompt), "prompt", Str(OptionText(p.prompt)));
      Put(d4, Truthy(p.model), "model", Str(OptionText(p.model)))
  }

  /** The value the XMP reader yields under key `k`. */
  function XmpField(x: Option<XmpPacket>, k: string): Option<Value> {
    match x
    case None => None
    case Some(p) =>
      if k == "description" then TagText(p.description)
      else if k == "prompt" then (if Truthy(p.prompt) then TagText(p.prompt) else TagText(p.description))
      else if k == "tags" then
        (if KeptSubjects(p.subjects) != [] then Some(List(KeptSubjects(p.subjects))) else None)
      else if k == "model" then TagText(p.model)
      else None
  }

  /** The XMP reader's dictionary, key by key. */
  lemma XmpReadGet(x: Option<XmpPacket>, k: string)
    ensures Get(XmpRead(x), k) == XmpField(x, k)
  {
    if x.Some? {
      var p := x.value;
      KeysDistinct();
      var tags := KeptSubjects(p.subjects);
      var d0: Dict<Value> := [];
      var d1 := Put(d0, Truthy(p.description), "description", Str(OptionText(p.description)));
      var d2 := Put(d1, Truthy(p.description), "prompt", Str(OptionText(p.description)));
      var d3 := Put(d2, tags != [], "tags", List(tags));
      var d4 := Put(d3, Truthy(p.prompt), "prompt", Str(OptionText(p.prompt)));
      assert XmpRead(x) == Put(d4, Truthy(p.model), "model", Str(OptionText(p.model)));
      PutGet(d0, Truthy(p.description), "description", Str(OptionText(p.description)), k);
      PutGet(d1, Truthy(p.description), "prompt", Str(OptionText(p.description)), k);
      PutGet(d2, tags != [], "tags", List(tags), k);
      PutGet(d3, Truthy(p.prompt), "prompt", Str(OptionText(p.prompt)), k);
      PutGet(d4, Truthy(p.model), "model", Str(OptionText(p.model)), k);
    }
  }

  /** The XMP reader yields a channel dictionary. */
  lemma XmpChannel(x: Option<XmpPacket>)
    ensures Channel(XmpRead(x))
  {
    KeyFacts();
    if x.Some? {
      var p := x.value;
      var tags := KeptSubjects(p.subjects);
      var d0: Dict<Value> := [];
      var d1 := Put(d0, Truthy(p.description), "description", Str(OptionText(p.description)));
      var d2 := Put(d1, Truthy(p.description), "prompt", Str(OptionText(p.description)));
      var d3 := Put(d2, tags != [], "tags", List(tags));
      var d4 := Put(d3, Truthy(p.prompt), "prompt", Str(OptionText(p.prompt)));
      ChannelPut(d0, Truthy(p.description), "description", Str(OptionText(p.description)));
      ChannelPut(d1, Truthy(p.description), "prompt", Str(OptionText(p.description)));
      ChannelPut(d2, tags != [], "tags", List(tags));
      ChannelPut(d3, Truthy(p.prompt), "prompt", Str(OptionText(p.prompt)));
      ChannelPut(d4, Truthy(p.model), "model", Str(OptionText(p.model)));
    }
  }

  // ---------------------------------------------------------------------------
  // Merging the channels: "update only if not already set"

  /** The key holds a truthy value. */
  predicate TruthyAt(d: Dict<Value>, k: string) {
    Get(d, k).Some? && IsTruthy(Get(d, k).value)
  }

  /** `d` after the merge loop of `read_metadata` has seen the entries of `e`: an entry is
      assigned when its key is missing from `d` or holds a falsy value. */
  function Overlay(d: Dict<Value>, e: Dict<Value>): Dict<Value>
    decreases |e|
  {
    if e == [] then d
    else
      var acc := Overlay(d, e[..|e| - 1]);
      var key := e[|e| - 1].0;
      if !TruthyAt(acc, key) then Set(acc, key, e[|e| - 1].1) else acc
  }

  /** The merge loop, used for the EXIF and the XMP dictionaries. */
  method FillFalsy(d: Dict<Value>, e: Dict<Value>) returns (r: Dict<Value>)
    ensures r == Overlay(d, e)
  {
    r := d;
    var i := 0;
    while i < |e|
      invariant 0 <= i <= |e|
      invariant r == Overlay(d, e[..i])
    {
      assert e[..i + 1][..i] == e[..i];
      var key, value := e[i].0, e[i].1;
      if Get(r, key).None? || !IsTruthy(Get(r, key).value) {
        r := Set(r, key, value);
      }
      i := i + 1;
    }
    assert e[..|e|] == e;
  }

  /** After the merge a key keeps its truthy value in `d`; otherwise it takes `e`'s value
      when `e` has the key, and keeps `d`'s when not. */
  lemma {:induction false} OverlayGet(d: Dict<Value>, e: Dict<Value>, k: string)
    requires DistinctKeys(e)
    ensures Get(Overlay(d, e), k) ==
              if !TruthyAt(d, k) && k in KeySet(e) then Get(e, k) else Get(d, k)
    decreases |e|
  {
    if e != [] {
      var init := e[..|e| - 1];
      var key := e[|e| - 1].0;
      assert KeySet(e) == KeySet(init) + {key};
      assert DistinctKeys(init);
      OverlayGet(d, init, k);
      if k == key {
        assert key !in KeySet(init);
        OverlayGet(d, init, key);
        GetLast(e);
      } else {
        GetPrefix(e, k);
      }
    }
  }

  /** Merging channel dictionaries keeps a dictionary well shaped. */
  lemma {:induction false} OverlayShaped(d: Dict<Value>, e: Dict<Value>)
    requires Shaped(d) && DistinctKeys(d) && Shaped(e)
    ensures Shaped(Overlay(d, e)) && DistinctKeys(Overlay(d, e))
    decreases |e|
  {
    if e != [] {
      var init := e[..|e| - 1];
      OverlayShaped(d, init);
      var acc := Overlay(d, init);
      var key := e[|e| - 1].0;
      if !TruthyAt(acc, key) {
        ShapedSet(acc, key, e[|e| - 1].1);
        SetDistinct(acc, key, e[|e| - 1].1);
      }
    }
  }

  /** The read dictionary takes each key from the first of the three channels (text entries,
      EXIF, XMP) where it is truthy; when none has it, the text entries' value stays. */
  lemma FirstTruthyWins(text: Dict<Value>, exif: Dict<Value>, xmp: Dict<Value>, k: string)
    requires Channel(exif) && Channel(xmp)
    ensures Get(Overlay(Overlay(text, exif), xmp), k) ==
              if TruthyAt(text, k) then Get(text, k)
              else if k in KeySet(exif) then Get(exif, k)
              else if k in KeySet(xmp) then Get(xmp, k)
              else Get(text, k)
  {
    OverlayGet(text, exif, k);
    OverlayGet(Overlay(text, exif), xmp, k);
    if !TruthyAt(text, k) && k in KeySet(exif) {
      var v := Get(exif, k).value;
      var i :| 0 <= i < |exif| && exif[i] == (k, v);
      assert IsTruthy(exif[i].1);
    }
  }

  // ---------------------------------------------------------------------------
  // Reading: `read_metadata`

  /** What the model knows of an image file: whether the image library can open it, its
      textual entries (PNG text chunks, or the WebP info entries that hold text), its EXIF
      tags and its XMP packet (`None` without a packet or without the XMP library). */
  datatype ImageFile = ImageFile(opens: bool, text: Dict<string>, exif: ExifTags, xmp: Option<XmpPacket>)

  /** The dictionary `read_metadata` starts from. */
  const InitialDict: Dict<Value> :=
    [("prompt", Str("")), ("model", Str("")), ("tags", List([])), ("custom_fields", Obj([]))]

  lemma InitialShaped()
    ensures Shaped(InitialDict) && DistinctKeys(InitialDict)
  {
    KeyFacts();
    assert "prompt"[0] != "model"[0] && "model"[0] != "custom_fields"[0];
  }

  /** The text entries read for a file with extension `ext` (lower-cased): PNG text chunks
      are decoded into a fresh dictionary that updates the initial one, WebP entries are
      decoded into the initial dictionary itself, other formats have none. */
  function TextChannel(ext: string, text: Dict<string>): Dict<Value> {
    if ext == ".png" then Update(InitialDict, DecodeChunks([], text))
    else if ext == ".webp" then DecodeChunks(InitialDict, text)
    else InitialDict
  }

  /** The dictionary gathered from the three channels, before the required fields are ensured. */
  function Gathered(ext: string, f: ImageFile): Dict<Value> {
    Overlay(Overlay(TextChannel(ext, f.text), ExifRead(f.exif)), XmpRead(f.xmp))
  }

  /** A falsy prompt or model becomes the empty string. */
  function EnsureRequired(d: Dict<Value>): Dict<Value> {
    var d1 := if !TruthyAt(d, "prompt") then Set(d, "prompt", Str("")) else d;
    if !TruthyAt(d1, "model") then Set(d1, "model", Str("")) else d1
  }

  /** The text channel, and everything gathered with it, is well shaped with distinct keys. */
  lemma TextChannelShaped(ext: string, text: Dict<string>)
    ensures Shaped(TextChannel(ext, text)) && DistinctKeys(TextChannel(ext, text))
  {
    InitialShaped();
    if ext == ".png" {
      DecodeInvariant([], text);
      ShapedUpdate(InitialDict, DecodeChunks([], text));
      UpdateDistinct(InitialDict, DecodeChunks([], text));
    } else if ext == ".webp" {
      DecodeInvariant(InitialDict, text);
    }
  }

  lemma GatheredShaped(ext: string, f: ImageFile)
    ensures Shaped(EnsureRequired(Gathered(ext, f)))
  {
    OverlaysShaped(ext, f);
    EnsureRequiredShaped(Gathered(ext, f));
  }

  /** The three channels overlaid are well shaped. */
  lemma OverlaysShaped(ext: string, f: ImageFile)
    ensures Shaped(Gathered(ext, f))
  {
    var t := TextChannel(ext, f.text);
    TextChannelShaped(ext, f.text);
    ExifChannel(f.exif);
    XmpChannel(f.xmp);
    OverlayShaped(t, ExifRead(f.exif));
    OverlayShaped(Overlay(t, ExifRead(f.exif)), XmpRead(f.xmp));
  }

  /** Filling in an empty prompt and model keeps a dictionary well shaped. */
  lemma EnsureRequiredShaped(d: Dict<Value>)
    requires Shaped(d)
    ensures Shaped(EnsureRequired(d))
  {
    KeyFacts();
    ShapedSet(d, "prompt", Str(""));
    var d1 := if !TruthyAt(d, "prompt") then Set(d, "prompt", Str("")) else d;
    ShapedSet(d1, "model", Str(""));
  }

  /** `text or " "` */
  function OrPlaceholder(text: string): string {
    if text == "" then Placeholder else text
  }

  /** The record `read_metadata` falls back on when construction fails: the dictionary's
      values with an empty prompt or model replaced by the placeholder. */
  function Fallback(d: Dict<Value>): ImageMetadata {
    var r := RecordOf(d);
    r.(prompt := OrPlaceholder(r.prompt), model := OrPlaceholder(r.model))
  }

  /** `read_metadata`: a missing file, an unsupported extension and an image that cannot be
      opened fail in that order; otherwise the gathered dictionary is turned into a record,
      and when that fails with a validation error the fallback record is constructed. */
  function ReadResult(path: string, file: Option<ImageFile>): Result<ImageMetadata, Error> {
    if file.None? then Failure(ImageNotFound(path))
    else if !IsSupportedFormat(path) then Failure(UnsupportedFormat(Suffix(path)))
    else if !file.value.opens then Failure(ReadFailed)
    else
      Build(EnsureRequired(Gathered(Extension(path), file.value)))
  }

  /** The construction at the end of `read_metadata`: `from_dict`, and on a validation error
      the fallback record. */
  function Build(d: Dict<Value>): Result<ImageMetadata, Error> {
    match RecordFrom(d, StripCustomPrefix)
    case Success(m) => Success(m)
    case Failure(e) => if e == ModelRequired || e.DateNotIso? then Construct(Fallback(d)) else Failure(e)
  }

  /** `read_metadata` step by step: the channel loops, the merges, and the construction. */
  method ReadMetadata(path: string, file: Option<ImageFile>) returns (r: Result<ImageMetadata, Error>)
    ensures r == ReadResult(path, file)
    ensures file.None? ==> r == Failure(ImageNotFound(path))
    ensures file.Some? && !IsSupportedFormat(path) ==> r == Failure(UnsupportedFormat(Suffix(path)))
    ensures r.Success? ==> Valid(r.value)
  {
    if file.None? {
      return Failure(ImageNotFound(path));
    }
    if !IsSupportedFormat(path) {
      return Failure(UnsupportedFormat(Suffix(path)));
    }
    var f := file.value;
    if !f.opens {
      return Failure(ReadFailed);
    }
    var d := GatherChannels(Extension(path), f);
    r := BuildRead(d);
    BuildResultValid(EnsureRequired(d));
  }

  /** The channel reads of `read_metadata`: the text entries for PNG and WebP, then the
      falsy keys filled from EXIF and then from XMP. */
  method GatherChannels(ext: string, f: ImageFile) returns (d: Dict<Value>)
    ensures d == Gathered(ext, f)
  {
    d := InitialDict;
    if ext == ".png" {
      var chunks := ReadTextChunks([], f.text);
      d := Update(d, chunks);
    } else if ext == ".webp" {
      d := ReadTextChunks(d, f.text);
    }
    assert d == TextChannel(ext, f.text);
    var exif, xmp := ExifRead(f.exif), XmpRead(f.xmp);
    d := FillFalsy(d, exif);
    d := FillFalsy(d, xmp);
  }

  /** The end of `read_metadata`: the required keys defaulted, `from_dict`, and the
      fallback record on a validation error. */
  method BuildRead(gathered: Dict<Value>) returns (r: Result<ImageMetadata, Error>)
    ensures r == Build(EnsureRequired(gathered))
  {
    var d := gathered;
    if !TruthyAt(d, "prompt") {
      d := Set(d, "prompt", Str(""));
    }
    if !TruthyAt(d, "model") {
      d := Set(d, "model", Str(""));
    }
    assert d == EnsureRequired(gathered);
    var built := FromDict(d);
    if built.Failure? && (built.error == ModelRequired || built.error.DateNotIso?) {
      r := Construct(Fallback(d));
    } else {
      r := built;
    }
  }


  /** The date of a dictionary is absent, empty or ISO. */
  predicate DateOk(d: Dict<Value>) {
    Truthy(OptionalIn(d, "date")) ==> IsIsoDate(OptionalIn(d, "date").value)
  }

  /** The placeholder is an accepted model. */
  lemma PlaceholderValid()
    ensures ModelValid(Placeholder)
  {
  }

  /** What the construction gives for a well-shaped dictionary `d`: the record of `d` when its
      model is valid and its date ISO; with an empty model, the record with the placeholder as
      model (and as prompt when that is empty too); a bad date fails as `DateNotIso`, and a
      model of whitespace alone fails as `ModelRequired`. */
  lemma BuildOutcome(d: Dict<Value>)
    requires Shaped(d)
    ensures var model := TextIn(d, "model");
      && (ModelValid(model) && DateOk(d) ==> Build(d) == Success(RecordOf(d)))
      && (model == "" && DateOk(d) ==> Build(d) == Success(Fallback(d)))
      && ((model == "" || ModelValid(model)) && !DateOk(d) ==> Build(d) == Failure(DateNotIso(OptionalIn(d, "date").value)))
      && (model != "" && !ModelValid(model) ==> Build(d) == Failure(ModelRequired))
  {
    var model := TextIn(d, "model");
    if ModelValid(model) && DateOk(d) {
      BuildValid(d);
    }
    if model == "" && DateOk(d) {
      BuildNoModel(d);
    }
    if (model == "" || ModelValid(model)) && !DateOk(d) {
      BuildBadDate(d);
    }
    if model != "" && !ModelValid(model) {
      BuildBlankModel(d);
    }
  }

  lemma BuildValid(d: Dict<Value>)
    requires Shaped(d) && ModelValid(TextIn(d, "model")) && DateOk(d)
    ensures Build(d) == Success(RecordOf(d))
  {
    RecordFromShaped(d, StripCustomPrefix);
  }

  lemma BuildNoModel(d: Dict<Value>)
    requires Shaped(d) && TextIn(d, "model") == "" && DateOk(d)
    ensures Build(d) == Success(Fallback(d))
  {
    RecordFromShaped(d, StripCustomPrefix);
    PlaceholderValid();
    assert Fallback(d).model == Placeholder;
  }

  lemma BuildBlankModel(d: Dict<Value>)
    requires Shaped(d) && TextIn(d, "model") != "" && !ModelValid(TextIn(d, "model"))
    ensures Build(d) == Failure(ModelRequired)
  {
    RecordFromShaped(d, StripCustomPrefix);
    assert Fallback(d).model == TextIn(d, "model");
  }

  lemma BuildBadDate(d: Dict<Value>)
    requires Shaped(d) && (TextIn(d, "model") == "" || ModelValid(TextIn(d, "model"))) && !DateOk(d)
    ensures Build(d) == Failure(DateNotIso(OptionalIn(d, "date").value))
  {
    RecordFromShaped(d, StripCustomPrefix);
    var date := OptionalIn(d, "date");
    if TextIn(d, "model") == "" {
      assert RecordFrom(d, StripCustomPrefix) == Failure(ModelRequired);
      PlaceholderValid();
      assert Fallback(d).date == date;
      assert ModelValid(Fallback(d).model);
    } else {
      assert RecordOf(d).date == date;
    }
  }

  /** Reading a file that opens gives the construction's outcome on its gathered dictionary. */
  lemma ReadOutcome(path: string, f: ImageFile)
    requires IsSupportedFormat(path) && f.opens
    ensures var d := EnsureRequired(Gathered(Extension(path), f));
      ReadResult(path, Some(f)) == Build(d) && Shaped(d)
  {
    GatheredShaped(Extension(path), f);
  }

  /** A falsy prompt or model reads as empty; every other key is left as it is. */
  lemma EnsureRequiredGet(d: Dict<Value>, k: string)
    ensures Get(EnsureRequired(d), k) ==
              if (k == "prompt" || k == "model") && !TruthyAt(d, k) then Some(Str("")) else Get(d, k)
  {
    var d1 := if !TruthyAt(d, "prompt") then Set(d, "prompt", Str("")) else d;
    assert Get(d1, "model") == Get(d, "model");
  }

  /** The text channel of a PNG whose chunks are the entries written for `m`, at a scalar
      key: what was written for it, or the initial value (prompt and model start out empty). */
  lemma PngTextScalar(m: ImageMetadata, k: string)
    requires DistinctKeys(m.customFields) && k in ScalarKeys
    ensures Get(TextChannel(".png", Encode([], m)), k) ==
              match Written(m, k)
              case Some(s) => Some(Str(s))
              case None => Get(InitialDict, k)
  {
    KeyFacts();
    var e := Encode([], m);
    var dec := DecodeChunks([], e);
    assert TextChannel(".png", e) == Update(InitialDict, dec);
    DecodeInvariant([], e);
    UpdateGet(InitialDict, dec, k);
    DecodeEncodeStandard(m, k);
    EncodeStandardGet([], m, k);
    assert Get(dec, k) == match Written(m, k)
                          case Some(s) => Some(Str(s))
                          case None => None;
  }

  /** The text channel of a PNG whose chunks are the entries written for `m`, at the tags:
      the parsed joined tags, or the initial empty list. */
  lemma PngTextTags(m: ImageMetadata)
    requires DistinctKeys(m.customFields)
    ensures Get(TextChannel(".png", Encode([], m)), "tags") ==
              Some(List(if m.tags != [] then ParseTags(JoinTags(m.tags)) else []))
  {
    var e := Encode([], m);
    var dec := DecodeChunks([], e);
    assert TextChannel(".png", e) == Update(InitialDict, dec);
    DecodeInvariant([], e);
    UpdateGet(InitialDict, dec, "tags");
    DecodeEncodeStandard(m, "tags");
    EncodeStandardGet([], m, "tags");
    InitialGet("tags");
    assert Get(dec, "tags") == if m.tags != [] then Some(List(ParseTags(JoinTags(m.tags)))) else None;
  }

  /** The initial dictionary, key by key. */
  lemma InitialGet(k: string)
    ensures Get(InitialDict, k) ==
              if k == "prompt" || k == "model" then Some(Str(""))
              else if k == "tags" then Some(List([]))
              else if k == "custom_fields" then Some(Obj([]))
              else None
  {
    assert "prompt"[0] != "custom_fields"[0] && "model"[0] != "custom_fields"[0];
    assert "tags"[0] != "custom_fields"[0] && "prompt"[0] != "model"[0];
  }

  /** Updating the initial dictionary leaves the custom fields of the update. */
  lemma UpdateInitialSeed(dec: Dict<Value>)
    requires DistinctKeys(dec)
    ensures SeedOf(Update(InitialDict, dec)) == SeedOf(dec)
  {
    UpdateGet(InitialDict, dec, "custom_fields");
    InitialGet("custom_fields");
  }

  lemma PngTextCustom(m: ImageMetadata, f: string)
    requires DistinctKeys(m.customFields)
    ensures Get(SeedOf(TextChannel(".png", Encode([], m))), f) ==
              if f == "custom_fields" then None else Get(m.customFields, f)
  {
    var e := Encode([], m);
    var dec := DecodeChunks([], e);
    assert TextChannel(".png", e) == Update(InitialDict, dec);
    DecodeInvariant([], e);
    UpdateInitialSeed(dec);
    DecodeEncodeCustom(m, f);
  }

  /** A file with nothing but text chunks gathers exactly its text channel. */
  lemma GatheredTextOnly(ext: string, text: Dict<string>)
    ensures Gathered(ext, ImageFile(true, text, NoExif, None)) == TextChannel(ext, text)
  {
    assert ExifRead(NoExif) == [];
  }

  /** The record read back from a PNG whose only metadata are the text chunks written for `m`:
      the stripped prompt and model, each truthy optional field, the parsed joined tags, and
      each custom field except one named `custom_fields`. */
  lemma PngReadBack(m: ImageMetadata)
    requires DistinctKeys(m.customFields)
    ensures var d := EnsureRequired(Gathered(".png", ImageFile(true, Encode([], m), NoExif, None)));
      && Shaped(d)
      && TextIn(d, "prompt") == Strip(m.prompt)
      && TextIn(d, "model") == Strip(m.model)
      && OptionalIn(d, "date") == (if Truthy(m.date) then m.date else None)
      && OptionalIn(d, "description") == (if Truthy(m.description) then m.description else None)
      && OptionalIn(d, "copyright") == (if Truthy(m.copyright) then m.copyright else None)
      && OptionalIn(d, "artist") == (if Truthy(m.artist) then m.artist else None)
      && TagsOf(d) == (if m.tags != [] then ParseTags(JoinTags(m.tags)) else [])
      && forall f :: Get(SeedOf(d), f) == if f == "custom_fields" then None else Get(m.customFields, f)
  {
    var e := Encode([], m);
    var t := TextChannel(".png", e);
    GatheredTextOnly(".png", e);
    GatheredShaped(".png", ImageFile(true, e, NoExif, None));
    var d := EnsureRequired(t);
    PngScalars(m);
    PngTags(m);
    EnsureRequiredGet(t, "custom_fields");
    assert SeedOf(d) == SeedOf(t);
    forall f ensures Get(SeedOf(d), f) == if f == "custom_fields" then None else Get(m.customFields, f) {
      PngTextCustom(m, f);
    }
  }

  lemma PngTags(m: ImageMetadata)
    requires DistinctKeys(m.customFields)
    ensures TagsOf(EnsureRequired(TextChannel(".png", Encode([], m)))) ==
              if m.tags != [] then ParseTags(JoinTags(m.tags)) else []
  {
    var t := TextChannel(".png", Encode([], m));
    PngTextTags(m);
    EnsureRequiredGet(t, "tags");
  }

  lemma PngScalars(m: ImageMetadata)
    requires DistinctKeys(m.customFields)
    ensures var d := EnsureRequired(TextChannel(".png", Encode([], m)));
      && TextIn(d, "prompt") == Strip(m.prompt)
      && TextIn(d, "model") == Strip(m.model)
      && OptionalIn(d, "date") == (if Truthy(m.date) then m.date else None)
      && OptionalIn(d, "description") == (if Truthy(m.description) then m.description else None)
      && OptionalIn(d, "copyright") == (if Truthy(m.copyright) then m.copyright else None)
      && OptionalIn(d, "artist") == (if Truthy(m.artist) then m.artist else None)
  {
    KeyFacts();
    PngScalar(m, "prompt");
    PngScalar(m, "model");
    PngScalar(m, "date");
    PngScalar(m, "description");
    PngScalar(m, "copyright");
    PngScalar(m, "artist");
  }

  /** One scalar key of a PNG read back, after the required fields are ensured. */
  lemma PngScalar(m: ImageMetadata, k: string)
    requires DistinctKeys(m.customFields) && k in ScalarKeys
    ensures var d := EnsureRequired(TextChannel(".png", Encode([], m)));
      && TextIn(d, k) == (if Written(m, k).Some? then Written(m, k).value else "")
      && OptionalIn(d, k) == (if Written(m, k).Some? then Written(m, k) else if k == "prompt" || k == "model" then Some("") else None)
  {
    var t := TextChannel(".png", Encode([], m));
    PngTextScalar(m, k);
    WrittenNonEmpty(m, k);
    ScalarRead(t, k, Written(m, k));
  }

  /** No empty scalar value is ever written. */
  lemma WrittenNonEmpty(m: ImageMetadata, k: string)
    requires k in ScalarKeys
    ensures Written(m, k).Some? ==> Written(m, k).value != ""
  {
  }

  /** A scalar key holding a written value, or its initial value, after the required
      fields are ensured. */
  lemma ScalarRead(t: Dict<Value>, k: string, w: Option<string>)
    requires k in ScalarKeys && (w.Some? ==> w.value != "")
    requires Get(t, k) == match w
                          case Some(s) => Some(Str(s))
                          case None => Get(InitialDict, k)
    ensures TextIn(EnsureRequired(t), k) == (if w.Some? then w.value else "")
    ensures OptionalIn(EnsureRequired(t), k) ==
              if w.Some? then w else if k == "prompt" || k == "model" then Some("") else None
  {
    EnsureRequiredGet(t, k);
    InitialGet(k);
  }

  /** The tags a record can carry through the text chunks: each non-empty, free of commas
      and of surrounding whitespace. */
  predicate TagsRoundTrip(tags: seq<string>) {
    forall i :: 0 <= i < |tags| ==> IsTag(tags[i])
  }

  /** Reading back a PNG whose only metadata are the text chunks written for a valid record
      with a model gives the record with its prompt and model stripped, its empty optional
      fields absent, its tags and its custom fields (but one named `custom_fields`). */
  lemma PngRoundTrip(path: string, m: ImageMetadata)
    requires Extension(path) == ".png" && Valid(m) && Strip(m.model) != ""
    requires TagsRoundTrip(m.tags) && DistinctKeys(m.customFields)
    ensures var r := ReadResult(path, Some(ImageFile(true, Encode([], m), NoExif, None)));
      && r.Success?
      && r.value.prompt == Strip(m.prompt) && r.value.model == Strip(m.model)
      && r.value.date == (if Truthy(m.date) then m.date else None)
      && r.value.description == (if Truthy(m.description) then m.description else None)
      && r.value.copyright == (if Truthy(m.copyright) then m.copyright else None)
      && r.value.artist == (if Truthy(m.artist) then m.artist else None)
      && r.value.tags == m.tags
      && forall f :: Get(r.value.customFields, f) == if f == "custom_fields" then None else Get(m.customFields, f)
  {
    PngReadRecord(path, m);
    var d := EnsureRequired(TextChannel(".png", Encode([], m)));
    PngReadBack(m);
    ParseJoinTags(m.tags);
  }

  lemma PngReadRecord(path: string, m: ImageMetadata)
    requires Extension(path) == ".png" && Valid(m) && Strip(m.model) != "" && DistinctKeys(m.customFields)
    ensures ReadResult(path, Some(ImageFile(true, Encode([], m), NoExif, None))) ==
              Success(RecordOf(EnsureRequired(TextChannel(".png", Encode([], m)))))
  {
    var file := ImageFile(true, Encode([], m), NoExif, None);
    ReadOutcome(path, file);
    GatheredTextOnly(".png", Encode([], m));
    var d := EnsureRequired(TextChannel(".png", Encode([], m)));
    PngScalars(m);
    StripIdempotent(m.model);
    assert ModelValid(TextIn(d, "model"));
    BuildValid(d);
  }

  /** A record whose model is blank (the placeholder, say) is read back from its PNG text
      chunks with the placeholder as model, and as prompt when the prompt is blank too. */
  lemma PngPlaceholderRoundTrip(path: string, m: ImageMetadata)
    requires Extension(path) == ".png" && Valid(m) && Strip(m.model) == "" && DistinctKeys(m.customFields)
    ensures var r := ReadResult(path, Some(ImageFile(true, Encode([], m), NoExif, None)));
      && r.Success?
      && r.value.model == Placeholder
      && r.value.prompt == OrPlaceholder(Strip(m.prompt))
  {
    var e := Encode([], m);
    var file := ImageFile(true, e, NoExif, None);
    ReadOutcome(path, file);
    GatheredTextOnly(".png", e);
    var d := EnsureRequired(TextChannel(".png", e));
    assert ReadResult(path, Some(file)) == Build(d) && Shaped(d);
    PngScalars(m);
    assert TextIn(d, "model") == "" && DateOk(d);
    BuildNoModel(d);
  }

  // ---------------------------------------------------------------------------
  // Writing: `write_metadata`

  /** How `write_metadata` cleans a prompt or model: stripped, unless it is empty or strips
      to the placeholder, in which case it counts as empty. */
  function Cleaned(s: string): string {
    if s != "" && Strip(s) != Placeholder then Strip(s) else ""
  }

  /** A stripped text is never the placeholder, so cleaning is just stripping. */
  lemma CleanedIsStrip(s: string)
    ensures Cleaned(s) == Strip(s)
  {
    StripNotSpace(s);
    if s == "" {
      assert AllSpace(s);
    }
  }

  /** `a or b` on text. */
  function Or(a: string, b: string): string {
    if a != "" then a else b
  }

  /** The record merging starts from when the existing metadata cannot be read. */
  const PlaceholderRecord := ImageMetadata(Placeholder, Placeholder, None, None, [], None, None, [])

  /** The existing record `write_metadata` merges with: the record read, with an empty prompt
      or model replaced by the placeholder; the placeholder record when reading (or that
      replacement) fails. */
  function ExistingFor(read: Result<ImageMetadata, Error>): ImageMetadata {
    match read
    case Failure(_) => PlaceholderRecord
    case Success(e) =>
      if e.prompt == "" || e.model == "" then
        match Construct(e.(prompt := OrPlaceholder(e.prompt), model := OrPlaceholder(e.model)))
        case Success(x) => x
        case Failure(_) => PlaceholderRecord
      else e
  }

  /** The existing record of a successful read, or of a failed one, has a prompt and a model. */
  lemma ExistingForFilled(read: Result<ImageMetadata, Error>)
    requires read.Success? ==> Valid(read.value)
    ensures var e := ExistingFor(read); e.prompt != "" && e.model != "" && Valid(e)
    ensures read.Success? ==> ExistingFor(read) == read.value.(prompt := OrPlaceholder(read.value.prompt))
  {
    match read
    case Failure(_) =>
      PlaceholderRecordValid();
    case Success(e) =>
      assert e.model != "";
      if e.prompt == "" {
        FilledValid(e);
      }
  }

  lemma PlaceholderRecordValid()
    ensures Valid(PlaceholderRecord)
  {
    PlaceholderValid();
  }

  /** Giving a valid record with an empty prompt the placeholder prompt keeps it valid. */
  lemma FilledValid(e: ImageMetadata)
    requires Valid(e) && e.prompt == ""
    ensures Construct(e.(prompt := OrPlaceholder(e.prompt), model := OrPlaceholder(e.model))) ==
              Success(e.(prompt := Placeholder))
  {
    assert e.(prompt := OrPlaceholder(e.prompt), model := OrPlaceholder(e.model)) == e.(prompt := Placeholder);
    assert Valid(e.(prompt := Placeholder));
  }

  /** The existing custom fields after the merge loop has seen `fields`: each field but
      `custom_fields` is assigned. */
  function MergeCustom(existing: Dict<string>, fields: Dict<string>): Dict<string>
    decreases |fields|
  {
    if fields == [] then existing
    else
      var acc := MergeCustom(existing, fields[..|fields| - 1]);
      var key := fields[|fields| - 1].0;
      if key != "custom_fields" then Set(acc, key, fields[|fields| - 1].1) else acc
  }

  /** The merge loop over the new custom fields. */
  method MergeCustomFields(existing: Dict<string>, fields: Dict<string>) returns (merged: Dict<string>)
    ensures merged == MergeCustom(existing, fields)
  {
    merged := existing;
    var i := 0;
    while i < |fields|
      invariant 0 <= i <= |fields|
      invariant merged == MergeCustom(existing, fields[..i])
    {
      assert fields[..i + 1][..i] == fields[..i];
      if fields[i].0 != "custom_fields" {
        merged := Set(merged, fields[i].0, fields[i].1);
      }
      i := i + 1;
    }
    assert fields[..|fields|] == fields;
  }

  /** After merging, a new field other than `custom_fields` holds its new value; every other
      key keeps its existing value. */
  lemma {:induction false} MergeCustomGet(existing: Dict<string>, fields: Dict<string>, k: string)
    requires DistinctKeys(fields)
    ensures Get(MergeCustom(existing, fields), k) ==
              if k != "custom_fields" && k in KeySet(fields) then Get(fields, k) else Get(existing, k)
    decreases |fields|
  {
    if fields != [] {
      var init := fields[..|fields| - 1];
      var key := fields[|fields| - 1].0;
      assert KeySet(fields) == KeySet(init) + {key};
      assert DistinctKeys(init);
      MergeCustomGet(existing, init, k);
      if k == key {
        GetLast(fields);
      } else {
        GetPrefix(fields, k);
      }
    }
  }

  /** Merging keeps the custom fields' keys distinct. */
  lemma {:induction false} MergeCustomDistinct(existing: Dict<string>, fields: Dict<string>)
    requires DistinctKeys(existing)
    ensures DistinctKeys(MergeCustom(existing, fields))
    decreases |fields|
  {
    if fields != [] {
      var init := fields[..|fields| - 1];
      MergeCustomDistinct(existing, init);
      if fields[|fields| - 1].0 != "custom_fields" {
        SetDistinct(MergeCustom(existing, init), fields[|fields| - 1].0, fields[|fields| - 1].1);
      }
    }
  }

  /** The fields of the merged record, before construction: the new cleaned prompt and model
      or else the existing cleaned ones (both the placeholder when both end up empty), each
      truthy new optional field or else the existing one, the new tags unless empty, and the
      merged custom fields. */
  function MergedFields(existing: ImageMetadata, m: ImageMetadata): ImageMetadata {
    var prompt := Or(Cleaned(m.prompt), Cleaned(existing.prompt));
    var model := Or(Cleaned(m.model), Cleaned(existing.model));
    var bothEmpty := prompt == "" && model == "";
    ImageMetadata(if bothEmpty then Placeholder else prompt,
                  if bothEmpty then Placeholder else model,
                  if Truthy(m.date) then m.date else existing.date,
                  if Truthy(m.description) then m.description else existing.description,
                  if m.tags != [] then m.tags else existing.tags,
                  if Truthy(m.copyright) then m.copyright else existing.copyright,
                  if Truthy(m.artist) then m.artist else existing.artist,
                  MergeCustom(existing.customFields, m.customFields))
  }

  /** The merged record, constructed. */
  function Merge(existing: ImageMetadata, m: ImageMetadata): Result<ImageMetadata, Error> {
    Construct(MergedFields(existing, m))
  }

  /** The merged prompt and model: the new value stripped when something is left of it,
      else the existing one stripped; both the placeholder when neither record has either. */
  lemma MergePromptModel(existing: ImageMetadata, m: ImageMetadata)
    ensures var g := MergedFields(existing, m);
            var prompt := Or(Strip(m.prompt), Strip(existing.prompt));
            var model := Or(Strip(m.model), Strip(existing.model));
      && g.prompt == (if prompt == "" && model == "" then Placeholder else prompt)
      && g.model == (if prompt == "" && model == "" then Placeholder else model)
  {
    CleanedIsStrip(m.prompt);
    CleanedIsStrip(existing.prompt);
    CleanedIsStrip(m.model);
    CleanedIsStrip(existing.model);
  }

  /** Merging fails exactly when the merged record has a prompt but no model (the records'
      dates being valid). */
  lemma MergeOutcome(existing: ImageMetadata, m: ImageMetadata)
    requires Valid(existing) && Valid(m)
    ensures var prompt := Or(Strip(m.prompt), Strip(existing.prompt));
            var model := Or(Strip(m.model), Strip(existing.model));
      && (model == "" && prompt != "" ==> Merge(existing, m) == Failure(ModelRequired))
      && (model != "" || prompt == "" ==> Merge(existing, m) == Success(MergedFields(existing, m)))
  {
    MergePromptModel(existing, m);
    var g := MergedFields(existing, m);
    var prompt := Or(Strip(m.prompt), Strip(existing.prompt));
    var model := Or(Strip(m.model), Strip(existing.model));
    assert Truthy(g.date) ==> IsIsoDate(g.date.value);
    if model == "" && prompt != "" {
      assert g.model == "";
    } else if model != "" {
      StripIdempotent(m.model);
      StripIdempotent(existing.model);
      assert Strip(g.model) == g.model;
      assert ModelValid(g.model);
    } else {
      PlaceholderValid();
      assert g.model == Placeholder;
    }
  }

  /** Every field the new record leaves falsy keeps its existing value. */
  lemma MergeKeepsUnset(existing: ImageMetadata, m: ImageMetadata)
    ensures var g := MergedFields(existing, m);
      && (!Truthy(m.date) ==> g.date == existing.date)
      && (!Truthy(m.description) ==> g.description == existing.description)
      && (!Truthy(m.copyright) ==> g.copyright == existing.copyright)
      && (!Truthy(m.artist) ==> g.artist == existing.artist)
      && (m.tags == [] ==> g.tags == existing.tags)
      && (m.customFields == [] ==> g.customFields == existing.customFields)
  {
  }

  /** A character that may start an XML name, as the XMP toolkit checks property names:
      an ASCII letter, `_`, or a letter of the non-ASCII ranges of XML 1.0. */
  predicate XmlNameStart(c: char) {
    var n := c as int;
    || ('A' <= c <= 'Z') || ('a' <= c <= 'z') || c == '_'
    || (0xC0 <= n <= 0xD6) || (0xD8 <= n <= 0xF6) || (0xF8 <= n <= 0x2FF)
    || (0x370 <= n <= 0x37D) || (0x37F <= n <= 0x1FFF) || (0x200C <= n <= 0x200D)
    || (0x2070 <= n <= 0x218F) || (0x2C00 <= n <= 0x2FEF) || (0x3001 <= n <= 0xD7FF)
    || (0xF900 <= n <= 0xFDCF) || (0xFDF0 <= n <= 0xFFFD) || (0x10000 <= n <= 0xEFFFF)
  }

  /** A character that may continue an XML name: a start character, a digit, `-`, `.`,
      the middle dot, or a combining mark of XML 1.0. */
  predicate XmlNameChar(c: char) {
    var n := c as int;
    || XmlNameStart(c) || ('0' <= c <= '9') || c == '-' || c == '.'
    || n == 0xB7 || (0x300 <= n <= 0x36F) || (0x203F <= n <= 0x2040)
  }

  /** A name `set_property` accepts for a property of the custom namespace: a non-empty XML
      name without a namespace prefix. */
  predicate XmpName(k: string) {
    k != [] && XmlNameStart(k[0]) && forall i :: 1 <= i < |k| ==> XmlNameChar(k[i])
  }

  /** Every custom field can be written as an XMP property. */
  predicate XmpNames(d: Dict<string>) {
    forall i :: 0 <= i < |d| ==> XmpName(d[i].0)
  }

  /** `_write_xmp_metadata` on the properties the reader reads: the description (or else the
      unstripped prompt) into `dc:description`, non-empty tags replacing `dc:subject`, and the
      stripped prompt and model into the custom namespace when something is left of them.
      The custom fields are written into the same namespace afterwards, so a custom field
      named `prompt` or `model` takes that property's place. Without a packet nothing is
      written, and nothing is either when a custom field's name is refused: the exception
      skips `put_xmp` and the packet keeps its old properties. */
  function XmpWrite(x: Option<XmpPacket>, m: ImageMetadata): Option<XmpPacket> {
    match x
    case None => None
    case Some(p) =>
      if !XmpNames(m.customFields) then x
      else
      Some(XmpPacket(if Truthy(m.description) then m.description
                     else if m.prompt != "" then Some(m.prompt) else p.description,
                     if m.tags != [] then m.tags else p.subjects,
                     CustomProperty(Get(m.customFields, "prompt"), Strip(m.prompt), p.prompt),
                     CustomProperty(Get(m.customFields, "model"), Strip(m.model), p.model)))
  }

  /** A custom-namespace property after the write: the custom field of its name when the
      record has one, else the stripped value when writable, else the packet's own. */
  function CustomProperty(custom: Option<string>, s: string, before: Option<string>): Option<string> {
    if custom.Some? then custom else if Writable(s) then Some(s) else before
  }

  /** Reading back the XMP written for a record. When a custom field's name is refused,
      the packet reads back as before. Otherwise a custom field named `prompt` or `model`
      is what the reader sees there (when not empty); else the prompt and model come
      back stripped when something is left of them, the model read otherwise being the
      packet's own; the tags come back without empty ones (the packet's subjects when the
      record has no tags). */
  lemma XmpWriteRead(p: XmpPacket, m: ImageMetadata)
    ensures !XmpNames(m.customFields) ==> XmpRead(XmpWrite(Some(p), m)) == XmpRead(Some(p))
    ensures XmpNames(m.customFields) ==> var r := XmpRead(XmpWrite(Some(p), m));
      && (Truthy(Get(m.customFields, "prompt")) ==> Get(r, "prompt") == Some(Str(Get(m.customFields, "prompt").value)))
      && ("prompt" !in KeySet(m.customFields) && Strip(m.prompt) != "" ==> Get(r, "prompt") == Some(Str(Strip(m.prompt))))
      && Get(r, "model") == (if "model" in KeySet(m.customFields) then TagText(Get(m.customFields, "model"))
                             else if Strip(m.model) != "" then Some(Str(Strip(m.model))) else TagText(p.model))
      && Get(r, "tags") == (var kept := KeptSubjects(if m.tags != [] then m.tags else p.subjects);
                            if kept != [] then Some(List(kept)) else None)
  {
    if XmpNames(m.customFields) {
      var x := XmpWrite(Some(p), m);
      XmpReadGet(x, "prompt");
      XmpReadGet(x, "model");
      XmpReadGet(x, "tags");
      XmpWriteField(p, m);
    }
  }

  /** The fields of the packet written for a record, as the reader sees them. */
  lemma XmpWriteField(p: XmpPacket, m: ImageMetadata)
    requires XmpNames(m.customFields)
    ensures var x := XmpWrite(Some(p), m);
      && (Truthy(Get(m.customFields, "prompt")) ==> XmpField(x, "prompt") == Some(Str(Get(m.customFields, "prompt").value)))
      && ("prompt" !in KeySet(m.customFields) && Strip(m.prompt) != "" ==> XmpField(x, "prompt") == Some(Str(Strip(m.prompt))))
      && XmpField(x, "model") == (if "model" in KeySet(m.customFields) then TagText(Get(m.customFields, "model"))
                                  else if Strip(m.model) != "" then Some(Str(Strip(m.model))) else TagText(p.model))
      && XmpField(x, "tags") == (var kept := KeptSubjects(if m.tags != [] then m.tags else p.subjects);
                                 if kept != [] then Some(List(kept)) else None)
  {
    KeysDistinct();
    var prompt, model := Strip(m.prompt), Strip(m.model);
    StripNotSpace(m.prompt);
    StripNotSpace(m.model);
    TagTextWritten(prompt, p.prompt);
    TagTextWritten(model, p.model);
    var w := XmpWrite(Some(p), m).value;
    assert w.prompt == CustomProperty(Get(m.customFields, "prompt"), prompt, p.prompt);
    assert w.model == CustomProperty(Get(m.customFields, "model"), model, p.model);
  }

  /** A field written only when writable, as a reader sees it. */
  lemma TagTextWritten(s: string, fallback: Option<string>)
    requires s != Placeholder
    ensures TagText(if Writable(s) then Some(s) else fallback) == if s != "" then Some(Str(s)) else TagText(fallback)
  {
  }

  /** The primary channel's write for extension `ext`: PNG text chunks are replaced by the
      entries for `merged`, JPEG EXIF tags are updated, WebP entries are updated (and left
      alone when the image cannot be opened); a PNG or JPEG that cannot be opened fails. */
  function WriteChannel(ext: string, f: ImageFile, merged: ImageMetadata): Result<ImageFile, Error> {
    if ext == ".png" then
      if f.opens then Success(f.(text := Encode([], merged))) else Failure(WriteFailed)
    else if ext == ".jpg" || ext == ".jpeg" then
      if f.opens then Success(f.(exif := ExifWrite(f.exif, merged))) else Failure(WriteFailed)
    else if f.opens then Success(f.(text := Encode(f.text, merged)))
    else Success(f)
  }

  /** `write_metadata`: the file after writing `m`, or the error. A missing file and an
      unsupported extension fail first; the existing metadata are read and merged with `m`,
      the merged record written to the format's channel and then to the XMP packet. */
  function WriteResult(path: string, file: Option<ImageFile>, m: ImageMetadata): Result<ImageFile, Error> {
    if file.None? then Failure(ImageNotFound(path))
    else if !IsSupportedFormat(path) then Failure(UnsupportedFormat(Suffix(path)))
    else WriteMerged(Extension(path), file.value, ExistingFor(ReadResult(path, file)), m)
  }

  /** The writes after the existing record has been read: merge, then the format's channel,
      then the XMP packet. */
  function WriteMerged(ext: string, f: ImageFile, existing: ImageMetadata, m: ImageMetadata): Result<ImageFile, Error> {
    var merged :- Merge(existing, m);
    var written :- WriteChannel(ext, f, merged);
    Success(written.(xmp := XmpWrite(written.xmp, merged)))
  }

  /** `write_metadata` step by step. */
  method WriteMetadata(path: string, file: Option<ImageFile>, m: ImageMetadata) returns (r: Result<ImageFile, Error>)
    ensures r == WriteResult(path, file, m)
    ensures file.None? ==> r == Failure(ImageNotFound(path))
    ensures file.Some? && !IsSupportedFormat(path) ==> r == Failure(UnsupportedFormat(Suffix(path)))
  {
    if file.None? {
      return Failure(ImageNotFound(path));
    }
    if !IsSupportedFormat(path) {
      return Failure(UnsupportedFormat(Suffix(path)));
    }
    var read := ReadMetadata(path, file);
    var existing := ExistingFor(read);
    var custom := MergeCustomFields(existing.customFields, m.customFields);
    var fields := MergedFields(existing, m);
    assert fields.customFields == custom;
    var merged := Construct(fields);
    if merged.Failure? {
      return Failure(merged.error);
    }
    var f := file.value;
    var ext := Extension(path);
    var record := merged.value;
    if ext == ".png" {
      if !f.opens {
        return Failure(WriteFailed);
      }
      var text := WriteTextChunks([], record);
      f := f.(text := text);
    } else if ext == ".jpg" || ext == ".jpeg" {
      if !f.opens {
        return Failure(WriteFailed);
      }
      f := f.(exif := ExifWrite(f.exif, record));
    } else if f.opens {
      var text := WriteTextChunks(f.text, record);
      f := f.(text := text);
    }
    r := Success(f.(xmp := XmpWrite(f.xmp, record)));
  }

  /** Every record `read_metadata` returns passed construction. */
  lemma ReadValid(path: string, file: Option<ImageFile>)
    ensures ReadResult(path, file).Success? ==> Valid(ReadResult(path, file).value)
  {
    if file.Some? && IsSupportedFormat(path) && file.value.opens {
      BuildResultValid(EnsureRequired(Gathered(Extension(path), file.value)));
    }
  }

  lemma BuildResultValid(d: Dict<Value>)
    ensures Build(d).Success? ==> Valid(Build(d).value)
  {
  }

  /** Writing a record with a model to a PNG that opens: the merge succeeds and the file's
      text chunks become the entries written for the merged record; nothing else changes. */
  lemma PngWrite(path: string, f: ImageFile, m: ImageMetadata)
    requires Extension(path) == ".png" && f.opens && Valid(m) && Strip(m.model) != ""
    ensures var e := ExistingFor(ReadResult(path, Some(f)));
      && Merge(e, m) == Success(MergedFields(e, m))
      && WriteResult(path, Some(f), m) ==
           Success(f.(text := Encode([], MergedFields(e, m)), xmp := XmpWrite(f.xmp, MergedFields(e, m))))
  {
    var read := ReadResult(path, Some(f));
    ReadValid(path, Some(f));
    ExistingForFilled(read);
    var e := ExistingFor(read);
    assert WriteResult(path, Some(f), m) == WriteMerged(".png", f, e, m);
    PngWriteMerged(f, e, m);
  }

  lemma PngWriteMerged(f: ImageFile, e: ImageMetadata, m: ImageMetadata)
    requires f.opens && Valid(e) && e.prompt != "" && e.model != "" && Valid(m) && Strip(m.model) != ""
    ensures && Merge(e, m) == Success(MergedFields(e, m))
            && WriteMerged(".png", f, e, m) ==
                 Success(f.(text := Encode([], MergedFields(e, m)), xmp := XmpWrite(f.xmp, MergedFields(e, m))))
  {
    MergeSucceeds(e, m);
    WriteMergedPng(f, e, m, MergedFields(e, m));
  }

  /** With a model given, merging into a filled existing record succeeds. */
  lemma MergeSucceeds(e: ImageMetadata, m: ImageMetadata)
    requires Valid(e) && e.prompt != "" && e.model != "" && Valid(m) && Strip(m.model) != ""
    ensures Merge(e, m) == Success(MergedFields(e, m))
  {
    MergeOutcome(e, m);
  }

  /** A successful merge is written to a PNG that opens as its text chunks, and to the XMP packet. */
  lemma WriteMergedPng(f: ImageFile, e: ImageMetadata, m: ImageMetadata, g: ImageMetadata)
    requires f.opens && Merge(e, m) == Success(g)
    ensures WriteMerged(".png", f, e, m) == Success(f.(text := Encode([], g), xmp := XmpWrite(f.xmp, g)))
  {
  }

  /** Writing to a PNG whose metadata live only in its text chunks, then reading it back:
      the new prompt (stripped) or else the existing one, the new model stripped, each truthy
      new optional field or else the existing one, the new tags unless empty, and every custom
      field, new values taking precedence: `write_metadata` preserves what it does not replace. */
  lemma PngWriteThenRead(path: string, f: ImageFile, m: ImageMetadata)
    requires Extension(path) == ".png" && f.opens && f.exif == NoExif && f.xmp == None
    requires Valid(m) && Strip(m.model) != "" && TagsRoundTrip(m.tags) && DistinctKeys(m.customFields)
    requires var e := ExistingFor(ReadResult(path, Some(f)));
      TagsRoundTrip(e.tags) && DistinctKeys(e.customFields)
    ensures var e := ExistingFor(ReadResult(path, Some(f)));
            var w := WriteResult(path, Some(f), m);
      && w.Success?
      && var r := ReadResult(path, Some(w.value));
      && r.Success?
      && r.value.prompt == Or(Strip(m.prompt), Strip(e.prompt))
      && r.value.model == Strip(m.model)
      && r.value.date == (if Truthy(m.date) then m.date else if Truthy(e.date) then e.date else None)
      && r.value.description ==
           (if Truthy(m.description) then m.description else if Truthy(e.description) then e.description else None)
      && r.value.copyright ==
           (if Truthy(m.copyright) then m.copyright else if Truthy(e.copyright) then e.copyright else None)
      && r.value.artist == (if Truthy(m.artist) then m.artist else if Truthy(e.artist) then e.artist else None)
      && r.value.tags == (if m.tags != [] then m.tags else e.tags)
      && forall k :: Get(r.value.customFields, k) ==
           if k == "custom_fields" then None
           else if k in KeySet(m.customFields) then Get(m.customFields, k)
           else Get(e.customFields, k)
  {
    var e := ExistingFor(ReadResult(path, Some(f)));
    var g := MergedFields(e, m);
    PngWrite(path, f, m);
    ReadValid(path, Some(f));
    ExistingForFilled(ReadResult(path, Some(f)));
    assert WriteResult(path, Some(f), m) == Success(ImageFile(true, Encode([], g), NoExif, None));
    MergedReadBack(path, e, m);
  }

  /** Reading back the PNG text chunks written for a merged record. */
  lemma MergedReadBack(path: string, e: ImageMetadata, m: ImageMetadata)
    requires Extension(path) == ".png" && Valid(e) && Valid(m) && Strip(m.model) != ""
    requires TagsRoundTrip(m.tags) && DistinctKeys(m.customFields)
    requires TagsRoundTrip(e.tags) && DistinctKeys(e.customFields)
    ensures var r := ReadResult(path, Some(ImageFile(true, Encode([], MergedFields(e, m)), NoExif, None)));
      && r.Success?
      && r.value.prompt == Or(Strip(m.prompt), Strip(e.prompt))
      && r.value.model == Strip(m.model)
      && r.value.date == (if Truthy(m.date) then m.date else if Truthy(e.date) then e.date else None)
      && r.value.description ==
           (if Truthy(m.description) then m.description else if Truthy(e.description) then e.description else None)
      && r.value.copyright ==
           (if Truthy(m.copyright) then m.copyright else if Truthy(e.copyright) then e.copyright else None)
      && r.value.artist == (if Truthy(m.artist) then m.artist else if Truthy(e.artist) then e.artist else None)
      && r.value.tags == (if m.tags != [] then m.tags else e.tags)
      && forall k :: Get(r.value.customFields, k) ==
           if k == "custom_fields" then None
           else if k in KeySet(m.customFields) then Get(m.customFields, k)
           else Get(e.customFields, k)
  {
    var g := MergedFields(e, m);
    MergedWritable(e, m);
    PngRoundTrip(path, g);
    var r := ReadResult(path, Some(ImageFile(true, Encode([], g), NoExif, None)));
    MergedRecord(r.value, e, m);
  }

  /** A merged record meets what the PNG round trip needs. */
  lemma MergedWritable(e: ImageMetadata, m: ImageMetadata)
    requires Valid(e) && Valid(m) && Strip(m.model) != ""
    requires TagsRoundTrip(m.tags) && DistinctKeys(m.customFields)
    requires TagsRoundTrip(e.tags) && DistinctKeys(e.customFields)
    ensures var g := MergedFields(e, m);
      Valid(g) && Strip(g.model) != "" && TagsRoundTrip(g.tags) && DistinctKeys(g.customFields)
  {
    var g := MergedFields(e, m);
    MergedFacts(e, m);
    MergeOutcome(e, m);
    MergeCustomDistinct(e.customFields, m.customFields);
    assert Construct(g).Success?;
    assert g.tags == if m.tags != [] then m.tags else e.tags;
  }

  /** A record carrying a merged record's fields as a PNG read gives them, in terms of the
      existing and the new record. */
  lemma MergedRecord(r: ImageMetadata, e: ImageMetadata, m: ImageMetadata)
    requires Strip(m.model) != "" && DistinctKeys(m.customFields)
    requires var g := MergedFields(e, m);
      && r.prompt == Strip(g.prompt) && r.model == Strip(g.model)
      && r.date == (if Truthy(g.date) then g.date else None)
      && r.description == (if Truthy(g.description) then g.description else None)
      && r.copyright == (if Truthy(g.copyright) then g.copyright else None)
      && r.artist == (if Truthy(g.artist) then g.artist else None)
      && r.tags == g.tags
      && forall f :: Get(r.customFields, f) == if f == "custom_fields" then None else Get(g.customFields, f)
    ensures
      && r.prompt == Or(Strip(m.prompt), Strip(e.prompt))
      && r.model == Strip(m.model)
      && r.date == (if Truthy(m.date) then m.date else if Truthy(e.date) then e.date else None)
      && r.description ==
           (if Truthy(m.description) then m.description else if Truthy(e.description) then e.description else None)
      && r.copyright ==
           (if Truthy(m.copyright) then m.copyright else if Truthy(e.copyright) then e.copyright else None)
      && r.artist == (if Truthy(m.artist) then m.artist else if Truthy(e.artist) then e.artist else None)
      && r.tags == (if m.tags != [] then m.tags else e.tags)
      && forall k :: Get(r.customFields, k) ==
           if k == "custom_fields" then None
           else if k in KeySet(m.customFields) then Get(m.customFields, k)
           else Get(e.customFields, k)
  {
    MergedFacts(e, m);
    var g := MergedFields(e, m);
    forall k ensures Get(r.customFields, k) ==
        if k == "custom_fields" then None
        else if k in KeySet(m.customFields) then Get(m.customFields, k)
        else Get(e.customFields, k) {
      MergeCustomGet(e.customFields, m.customFields, k);
    }
  }

  /** The merged prompt and model when the new record has a model: both already stripped. */
  lemma MergedFacts(e: ImageMetadata, m: ImageMetadata)
    requires Strip(m.model) != ""
    ensures var g := MergedFields(e, m);
      && g.prompt == Or(Strip(m.prompt), Strip(e.prompt)) && Strip(g.prompt) == g.prompt
      && g.model == Strip(m.model) && Strip(g.model) == g.model
  {
    MergePromptModel(e, m);
    StripIdempotent(m.model);
    StripIdempotent(m.prompt);
    StripIdempotent(e.prompt);
  }
}
