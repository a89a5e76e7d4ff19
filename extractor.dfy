/** The image-question extractor: classify each vision-model response and
    write one `<stem>.json` artifact per successfully processed image. The
    vision call (with the image read and base64 encoding before it) is an
    oracle `respond` from an entry name to the response text, `None` when
    anything in that chain raises; `json.loads` is an oracle `parse`. */
module Extractor {

  import opened Wrappers
  import opened JsonValues
  import opened PyText
  import Listing

  /** The suffixes, compared after lowering, that make an entry an image. */
  const ImageExtensions: set<string> := {".png", ".jpg", ".jpeg", ".bmp", ".webp"}

  /** The classified response: `{"type": ..., "content": ...}`. */
  datatype Extraction =
    | Markdown(raw: string)
    | Parsed(value: Json)
    | PlainText(raw: string)

  function TypeName(e: Extraction): string {
    match e
    case Markdown(_) => "markdown"
    case Parsed(_) => "json"
    case PlainText(_) => "text"
  }

  function Content(e: Extraction): Json {
    match e
    case Markdown(raw) => JString(raw)
    case Parsed(value) => value
    case PlainText(raw) => JString(raw)
  }

  /** Reads an extraction artifact back; `None` for a document that is not one. */
  function ReadRecord(j: Json): Option<Extraction> {
    match j
    case JObject(f) =>
      if "type" !in f || "content" !in f then None
      else if f["type"] == JString("json") then Some(Parsed(f["content"]))
      else if !f["content"].JString? then None
      else if f["type"] == JString("markdown") then Some(Markdown(f["content"].s))
      else if f["type"] == JString("text") then Some(PlainText(f["content"].s))
      else None
    case _ => None
  }

  /** The document written for an extraction: an object with exactly the keys
      `type` and `content`, whose type is one of the three names, and from
      which the extraction can be read back. */
  function Record(e: Extraction): (r: Json)
    ensures r.JObject? && r.fields.Keys == {"type", "content"}
    ensures r.fields["type"] in {JString("markdown"), JString("json"), JString("text")}
    ensures ReadRecord(r) == Some(e)
  {
    JObject(map["type" := JString(TypeName(e)), "content" := Content(e)])
  }

  /** `_parse_response`: markdown when the response holds `|` and `-|-`,
      else the decoded value when it is JSON, else the raw text. The
      contract states the outcome in terms of `-|-` alone, the `|` test
      being implied by it. */
  function Classify(response: string, parse: string -> Option<Json>): (r: Extraction)
    ensures r.Markdown? <==> Contains(response, "-|-")
    ensures r.Parsed? <==> !Contains(response, "-|-") && parse(response).Some?
    ensures r.Parsed? ==> parse(response) == Some(r.value)
    ensures !r.Parsed? ==> r.raw == response
  {
    TablePatternHasPipe(response);
    if Contains(response, "|") && Contains(response, "-|-") then Markdown(response)
    else
      match parse(response)
      case Some(v) => Parsed(v)
      case None => PlainText(response)
  }

  /** A table-separated response is markdown whatever the parser says of it. */
  lemma MarkdownWins(response: string, parse: string -> Option<Json>)
    requires Contains(response, "-|-")
    ensures Classify(response, parse) == Markdown(response)
    ensures Record(Classify(response, parse)) == JObject(map["type" := JString("markdown"), "content" := JString(response)])
  {
  }

  /** A markdown table answer is stored as markdown, unchanged. */
  lemma TableAnswerIsMarkdown(parse: string -> Option<Json>)
    ensures Classify("| Q | A |\n|-|-|\n|1+1?|2|", parse) == Markdown("| Q | A |\n|-|-|\n|1+1?|2|")
  {
    var answer := "| Q | A |\n|-|-|\n|1+1?|2|";
    assert answer[11..14] == "-|-";
    ContainsAt(answer, "-|-", 11);
  }

  /** The filter of `process_directory`: the lowered suffix is an image
      extension. An image has a non-empty stem and a suffix of four or five
      characters. */
  predicate IsImage(name: string)
    ensures IsImage(name) ==> Stem(name) != "" && 4 <= |Suffix(name)| <= 5
  {
    Lower(Suffix(name)) in ImageExtensions
  }

  /** For a name made of a stem and a dot-extension, the filter looks at that
      extension alone, whatever its case. */
  lemma ImageBySuffix(stem: string, ext: string)
    requires stem != "" && |ext| >= 2 && ext[0] == '.'
    requires forall k :: 0 < k < |ext| ==> ext[k] != '.'
    ensures IsImage(stem + ext) <==> Lower(ext) in ImageExtensions
  {
    NameParts(stem, ext);
  }

  /** `f"{image_path.stem}.json"`: the stem followed by `.json`. */
  function OutputName(name: string): (r: string)
    ensures EndsWith(r, ".json") && r[..|r| - 5] == Stem(name)
  {
    Stem(name) + ".json"
  }

  /** Two entries are written to the same file exactly when their stems agree. */
  lemma OutputNameCollision(a: string, b: string)
    ensures OutputName(a) == OutputName(b) <==> Stem(a) == Stem(b)
  {
    if OutputName(a) == OutputName(b) {
      assert Stem(a) == OutputName(a)[..|OutputName(a)| - 5];
    }
  }

  /** An entry whose processing writes a file: selected, and its read, call
      and classification go through. */
  predicate Saves(name: string, respond: string -> Option<string>) {
    IsImage(name) && respond(name).Some?
  }

  /** `process_image`: on success the classified response is written (in
      overwrite mode) to `<stem>.json`; any exception leaves the directory
      as it was. */
  method ProcessImage(name: string, respond: string -> Option<string>, parse: string -> Option<Json>, dir0: Directory)
    returns (dir: Directory)
    ensures respond(name).None? ==> dir == dir0
    ensures respond(name).Some? ==>
      dir == dir0[OutputName(name) := Record(Classify(respond(name).value, parse))]
  {
    var response := respond(name);
    match response {
      case None =>
        dir := dir0;
      case Some(text) =>
        var result := Classify(text, parse);
        dir := dir0[OutputName(name) := Record(result)];
    }
  }

  /** The entries whose processing writes a file. */
  function SavesFn(respond: string -> Option<string>): string -> bool {
    n => Saves(n, respond)
  }

  /** The document an entry's processing writes, when it writes one. */
  function ArtifactFn(respond: string -> Option<string>, parse: string -> Option<Json>): string -> Json {
    n => match respond(n) case Some(response) => Record(Classify(response, parse)) case None => JNull
  }

  /** The directory after processing `entries` in listing order, from `dir0`:
      every saved entry overwrites `<stem>.json` with its record. */
  function ExtractAll(entries: seq<string>, respond: string -> Option<string>, parse: string -> Option<Json>, dir0: Directory)
    : Directory
  {
    Listing.Run(entries, SavesFn(respond), OutputName, ArtifactFn(respond, parse), dir0)
  }

  /** The files after a run are the old ones plus `<stem>.json` for every
      saved entry, and nothing else. */
  lemma ExtractedFiles(entries: seq<string>, respond: string -> Option<string>, parse: string -> Option<Json>, dir0: Directory)
    ensures ExtractAll(entries, respond, parse, dir0).Keys
            == dir0.Keys + set n | n in entries && Saves(n, respond) :: OutputName(n)
  {
    Listing.RunFiles(entries, SavesFn(respond), OutputName, ArtifactFn(respond, parse), dir0);
  }

  /** `process_directory`: every entry is visited once, in listing order;
      image entries go to `process_image`, whose failures do not stop the loop. */
  method ProcessDirectory(entries: seq<string>, respond: string -> Option<string>, parse: string -> Option<Json>, dir0: Directory)
    returns (dir: Directory)
    ensures dir == ExtractAll(entries, respond, parse, dir0)
  {
    dir := dir0;
    var i := 0;
    while i < |entries|
      invariant 0 <= i <= |entries|
      invariant dir == ExtractAll(entries[..i], respond, parse, dir0)
    {
      var name := entries[i];
      if IsImage(name) {
        dir := ProcessImage(name, respond, parse, dir);
      }
      assert entries[..i + 1][..i] == entries[..i];
      i := i + 1;
    }
    assert entries[..i] == entries;
  }

  /** The file `<stem>.json` holds the result of the last saved entry with
      that stem: a later image sharing the stem overwrites an earlier one. */
  lemma LastWriteWins(entries: seq<string>, respond: string -> Option<string>, parse: string -> Option<Json>, dir0: Directory, i: nat)
    requires i < |entries| && Saves(entries[i], respond)
    requires forall j :: i < j < |entries| && Saves(entries[j], respond) ==> OutputName(entries[j]) != OutputName(entries[i])
    ensures OutputName(entries[i]) in ExtractAll(entries, respond, parse, dir0)
    ensures ExtractAll(entries, respond, parse, dir0)[OutputName(entries[i])]
            == Record(Classify(respond(entries[i]).value, parse))
  {
    Listing.RunLastWins(entries, SavesFn(respond), OutputName, ArtifactFn(respond, parse), dir0, i);
  }

  /** A file no saved entry is named after keeps its old content. */
  lemma UntouchedFile(entries: seq<string>, respond: string -> Option<string>, parse: string -> Option<Json>, dir0: Directory, k: string)
    requires k in dir0
    requires forall j :: 0 <= j < |entries| && Saves(entries[j], respond) ==> OutputName(entries[j]) != k
    ensures k in ExtractAll(entries, respond, parse, dir0)
    ensures ExtractAll(entries, respond, parse, dir0)[k] == dir0[k]
  {
    Listing.RunUntouched(entries, SavesFn(respond), OutputName, ArtifactFn(respond, parse), dir0, k);
  }

  /** Processing a listing in two parts is processing the first part, then
      the second from the directory the first left behind. */
  lemma ExtractAllSplit(first: seq<string>, second: seq<string>,
                        respond: string -> Option<string>, parse: string -> Option<Json>, dir0: Directory)
    ensures ExtractAll(first + second, respond, parse, dir0)
            == ExtractAll(second, respond, parse, ExtractAll(first, respond, parse, dir0))
  {
    Listing.RunSplit(first, second, SavesFn(respond), OutputName, ArtifactFn(respond, parse), dir0);
  }

  /** An entry that is not an image, or whose processing raised, leaves no
      trace: the run is the same as if it were absent from the listing. */
  lemma FailureIsolated(before: seq<string>, e: string, after: seq<string>,
                        respond: string -> Option<string>, parse: string -> Option<Json>, dir0: Directory)
    requires !Saves(e, respond)
    ensures ExtractAll(before + [e] + after, respond, parse, dir0) == ExtractAll(before + after, respond, parse, dir0)
  {
    Listing.RunIsolated(before, e, after, SavesFn(respond), OutputName, ArtifactFn(respond, parse), dir0);
  }

  /** The suffix test ignores case: `A.PNG` is an image. */
  lemma UpperCaseSuffixSelected()
    ensures IsImage("A.PNG")
  {
    NameParts("A", ".PNG");
    assert "A" + ".PNG" == "A.PNG";
    assert Lower(".PNG") == ".png";
  }

  /** A file with another suffix is passed over: `notes.txt` is not an image. */
  lemma OtherSuffixSkipped()
    ensures !IsImage("notes.txt")
  {
    NameParts("notes", ".txt");
    assert "notes" + ".txt" == "notes.txt";
    assert Lower(".txt") == ".txt";
  }

  /** A dot-file has no suffix: `.png` is not an image. */
  lemma DotFileSkipped()
    ensures !IsImage(".png")
  {
    assert Suffix(".png") == "";
  }

  /** `quiz.png` and `quiz.jpg` are both images, and both are written to `quiz.json`. */
  lemma QuizNamesCollide()
    ensures IsImage("quiz.png") && IsImage("quiz.jpg")
    ensures OutputName("quiz.png") == "quiz.json" && OutputName("quiz.jpg") == "quiz.json"
  {
    NameParts("quiz", ".png");
    assert "quiz" + ".png" == "quiz.png";
    assert Lower(".png") == ".png";
    NameParts("quiz", ".jpg");
    assert "quiz" + ".jpg" == "quiz.jpg";
    assert Lower(".jpg") == ".jpg";
  }

  /** `quiz.png` followed by `quiz.jpg`: the run leaves one new file,
      `quiz.json`, holding the second result only. */
  lemma StemCollision(respond: string -> Option<string>, parse: string -> Option<Json>, dir0: Directory)
    requires respond("quiz.png").Some? && respond("quiz.jpg").Some?
    ensures ExtractAll(["quiz.png", "quiz.jpg"], respond, parse, dir0).Keys == dir0.Keys + {"quiz.json"}
    ensures ExtractAll(["quiz.png", "quiz.jpg"], respond, parse, dir0)["quiz.json"]
            == Record(Classify(respond("quiz.jpg").value, parse))
  {
    QuizNamesCollide();
    var first := ExtractAll(["quiz.png"], respond, parse, dir0);
    assert ["quiz.png"][..0] == [];
    assert first == dir0["quiz.json" := Record(Classify(respond("quiz.png").value, parse))];
    assert ["quiz.png", "quiz.jpg"][..1] == ["quiz.png"];
    assert ExtractAll(["quiz.png", "quiz.jpg"], respond, parse, dir0)
           == first["quiz.json" := Record(Classify(respond("quiz.jpg").value, parse))];
  }
}
