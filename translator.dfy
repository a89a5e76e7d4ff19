/** The translator: for every `*.json` file of the input directory, send its
    `content` field to the text model and write `{"content": <translation>}`
    to `translated_<name>`. Reading a file is an oracle `read` (`None` when
    opening or decoding it raises), `json.load` is the oracle `parse`, and
    `translate_text` is the oracle `translate` (`None` when the call raises
    or returns no text). */
module Translator {

  import opened Wrappers
  import opened JsonValues
  import opened PyText
  import Listing

  /** The exception that the catch-all of `process_json_file` swallows. */
  datatype Cause =
    | Unreadable   // the file cannot be opened or decoded
    | Malformed    // `json.load` rejects it
    | NotAnObject  // the top level is not a dict, so `.get` raises

  /** What `process_json_file` does with one file. */
  datatype Outcome =
    | Raised(cause: Cause)
    | NoContent          // `content` missing or falsy: skipped
    | Untranslated       // `translate_text` returned None
    | Written(text: string)

  /** `data.get('content', '')`: falsy exactly when the key is missing or
      its value is falsy. */
  function ContentField(fields: map<string, Json>): (r: Json)
    ensures !Truthy(r) <==> "content" !in fields || fields["content"] in FalsyValues
  {
    if "content" in fields then fields["content"] else JString("")
  }

  /** The decision `process_json_file` takes for a file with body `body`:
      an exception is raised exactly when the body cannot be read or parsed or
      is not an object; otherwise the `content` field is sent to the text
      model exactly when it is truthy, and a translation is whatever the
      model returned for it. */
  function Decide(body: Option<string>, parse: string -> Option<Json>, translate: Json -> Option<string>): (o: Outcome)
    ensures o.Raised? <==> body.None? || parse(body.value).None? || !parse(body.value).value.JObject?
    ensures !o.Raised? ==>
      var text := ContentField(parse(body.value).value.fields);
      (o == NoContent <==> !Truthy(text)) &&
      (o == Untranslated ==> translate(text) == None) &&
      (o.Written? ==> translate(text) == Some(o.text))
  {
    match body
    case None => Raised(Unreadable)
    case Some(b) =>
      match parse(b)
      case None => Raised(Malformed)
      case Some(data) =>
        if !data.JObject? then Raised(NotAnObject)
        else if !Truthy(ContentField(data.fields)) then NoContent
        else
          match translate(ContentField(data.fields))
          case None => Untranslated
          case Some(t) => Written(t)
  }

  /** A file is skipped exactly when it is a JSON object whose `content` is
      missing or one of Python's falsy values, whatever the text model does. */
  lemma SkipRule(body: Option<string>, parse: string -> Option<Json>, translate: Json -> Option<string>)
    ensures Decide(body, parse, translate) == NoContent <==>
      body.Some? && parse(body.value).Some? && parse(body.value).value.JObject? &&
      var fields := parse(body.value).value.fields;
      "content" !in fields || fields["content"] in FalsyValues
  {
    if body.Some? && parse(body.value).Some? && parse(body.value).value.JObject? {
      assert JString("") in FalsyValues;
    }
  }

  /** Only the `content` field is ever translated, only when it is truthy,
      and the translation is what the text model returned. */
  lemma WrittenOnlyFromContent(body: Option<string>, parse: string -> Option<Json>, translate: Json -> Option<string>, t: string)
    requires Decide(body, parse, translate) == Written(t)
    ensures body.Some? && parse(body.value).Some? && parse(body.value).value.JObject?
    ensures "content" in parse(body.value).value.fields
    ensures parse(body.value).value.fields["content"] !in FalsyValues
    ensures translate(parse(body.value).value.fields["content"]) == Some(t)
  {
    assert JString("") in FalsyValues;
  }

  /** The converse of `WrittenOnlyFromContent`: an object whose `content` is
      truthy is written with the text model's translation, or, when the model
      fails, left untranslated. */
  lemma TranslatedWhenContent(b: string, parse: string -> Option<Json>, translate: Json -> Option<string>, fields: map<string, Json>)
    requires parse(b) == Some(JObject(fields))
    requires "content" in fields && fields["content"] !in FalsyValues
    ensures translate(fields["content"]).Some? ==> Decide(Some(b), parse, translate) == Written(translate(fields["content"]).value)
    ensures translate(fields["content"]).None? ==> Decide(Some(b), parse, translate) == Untranslated
  {
  }

  /** The document written for a translation: exactly `{"content": T}`. */
  function TranslationRecord(t: string): (r: Json)
    ensures r.JObject? && r.fields.Keys == {"content"} && r.fields["content"] == JString(t)
  {
    JObject(map["content" := JString(t)])
  }

  /** The pattern of `glob("*.json")`, case-sensitive as on POSIX: the `*`
      matches any prefix of the name, the empty one and ones with dots included. */
  predicate IsJsonName(name: string)
    ensures IsJsonName(name) <==> exists i :: 0 <= i <= |name| && name[i..] == ".json"
  {
    if EndsWith(name, ".json") then
      assert name[|name| - 5..] == ".json";
      true
    else false
  }

  /** `f"translated_{name}"`. */
  function OutputName(name: string): (r: string)
    ensures |r| == |"translated_"| + |name|
    ensures r[..|"translated_"|] == "translated_"
    ensures r[|"translated_"|..] == name
  {
    "translated_" + name
  }

  /** Distinct input names give distinct output names. */
  lemma OutputNameInjective(a: string, b: string)
    ensures OutputName(a) == OutputName(b) <==> a == b
  {
    if OutputName(a) == OutputName(b) {
      assert a == OutputName(a)[|"translated_"|..];
    }
  }

  /** `process_json_file`: the early returns of the source; only a
      translated file changes the output directory. */
  method ProcessJsonFile(name: string, read: string -> Option<string>, parse: string -> Option<Json>,
                         translate: Json -> Option<string>, dir0: Directory)
    returns (dir: Directory)
    ensures Decide(read(name), parse, translate).Written? ==>
      dir == dir0[OutputName(name) := TranslationRecord(Decide(read(name), parse, translate).text)]
    ensures !Decide(read(name), parse, translate).Written? ==> dir == dir0
  {
    dir := dir0;
    var body := read(name);
    if body.None? {
      return;
    }
    var data := parse(body.value);
    if data.None? || !data.value.JObject? {
      return;
    }
    var text := ContentField(data.value.fields);
    if !Truthy(text) {
      return;
    }
    var translated := translate(text);
    if translated.None? {
      return;
    }
    dir := dir0[OutputName(name) := TranslationRecord(translated.value)];
  }

  /** The listed files whose processing writes a translation. */
  function WritesFn(read: string -> Option<string>, parse: string -> Option<Json>, translate: Json -> Option<string>)
    : string -> bool
  {
    n => IsJsonName(n) && Decide(read(n), parse, translate).Written?
  }

  /** The document a listed file's processing writes, when it writes one. */
  function TranslationFn(read: string -> Option<string>, parse: string -> Option<Json>, translate: Json -> Option<string>)
    : string -> Json
  {
    n => match Decide(read(n), parse, translate) case Written(t) => TranslationRecord(t) case _ => JNull
  }

  /** The output directory after processing `names` in listing order, from
      `dir0`: every translated `*.json` file overwrites `translated_<name>`. */
  function TranslateAll(names: seq<string>, read: string -> Option<string>, parse: string -> Option<Json>,
                        translate: Json -> Option<string>, dir0: Directory): Directory
  {
    Listing.Run(names, WritesFn(read, parse, translate), OutputName, TranslationFn(read, parse, translate), dir0)
  }

  /** `main`: every listed `*.json` file goes to `process_json_file` once, in
      listing order; a failing file does not stop the loop. */
  method TranslateDirectory(names: seq<string>, read: string -> Option<string>, parse: string -> Option<Json>,
                            translate: Json -> Option<string>, dir0: Directory)
    returns (dir: Directory)
    ensures dir == TranslateAll(names, read, parse, translate, dir0)
  {
    dir := dir0;
    var i := 0;
    while i < |names|
      invariant 0 <= i <= |names|
      invariant dir == TranslateAll(names[..i], read, parse, translate, dir0)
    {
      if IsJsonName(names[i]) {
        dir := ProcessJsonFile(names[i], read, parse, translate, dir);
      }
      assert names[..i + 1][..i] == names[..i];
      i := i + 1;
    }
    assert names[..i] == names;
  }

  /** The files after a run are the old ones plus `translated_<name>` for
      every listed `*.json` file that was translated, and nothing else. */
  lemma TranslatedFiles(names: seq<string>, read: string -> Option<string>, parse: string -> Option<Json>,
                        translate: Json -> Option<string>, dir0: Directory)
    ensures TranslateAll(names, read, parse, translate, dir0).Keys
            == dir0.Keys + set n | n in names && IsJsonName(n) && Decide(read(n), parse, translate).Written? :: OutputName(n)
  {
    Listing.RunFiles(names, WritesFn(read, parse, translate), OutputName, TranslationFn(read, parse, translate), dir0);
  }

  /** An output file that no translated `*.json` file is named after keeps
      its old content, such as a record left by an earlier run. */
  lemma TranslatedUntouched(names: seq<string>, read: string -> Option<string>, parse: string -> Option<Json>,
                            translate: Json -> Option<string>, dir0: Directory, k: string)
    requires k in dir0
    requires forall n :: n in names && IsJsonName(n) && Decide(read(n), parse, translate).Written? ==> OutputName(n) != k
    ensures k in TranslateAll(names, read, parse, translate, dir0)
    ensures TranslateAll(names, read, parse, translate, dir0)[k] == dir0[k]
  {
    Listing.RunUntouched(names, WritesFn(read, parse, translate), OutputName, TranslationFn(read, parse, translate), dir0, k);
  }

  /** In a listing of distinct names, every translated `*.json` file leaves
      exactly its own record under `translated_<name>`, whatever happened to
      the other files. */
  lemma TranslatedRecord(names: seq<string>, read: string -> Option<string>, parse: string -> Option<Json>,
                         translate: Json -> Option<string>, dir0: Directory, name: string, t: string)
    requires forall i, j :: 0 <= i < j < |names| ==> names[i] != names[j]
    requires name in names && IsJsonName(name)
    requires Decide(read(name), parse, translate) == Written(t)
    ensures OutputName(name) in TranslateAll(names, read, parse, translate, dir0)
    ensures TranslateAll(names, read, parse, translate, dir0)[OutputName(name)] == TranslationRecord(t)
  {
    var i :| 0 <= i < |names| && names[i] == name;
    forall j | i < j < |names|
      ensures OutputName(names[j]) != OutputName(names[i])
    {
      OutputNameInjective(names[j], names[i]);
    }
    Listing.RunLastWins(names, WritesFn(read, parse, translate), OutputName, TranslationFn(read, parse, translate), dir0, i);
  }
}
