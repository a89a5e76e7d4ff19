/** The hand-off between the two stages: the extractor's output directory is
    the translator's default input directory, and they share no other state. */
module Pipeline {

  import opened Wrappers
  import opened JsonValues
  import opened PyText
  import Extractor
  import Translator

  /** Every artifact the extractor writes is picked up by the translator's
      `*.json` pattern, and comes back as `translated_<stem>.json`. */
  lemma ArtifactsAreListed(name: string)
    ensures Translator.IsJsonName(Extractor.OutputName(name))
    ensures Translator.OutputName(Extractor.OutputName(name)) == "translated_" + Stem(name) + ".json"
  {
    var out := Extractor.OutputName(name);
    assert out[|out| - 5..] == ".json";
  }

  /** The translator given an extraction artifact for `response` (read back
      by the same parser) translates the artifact's `content`: it skips the
      file exactly when that content is falsy, never skips a markdown
      artifact, and writes what the text model returns for that content. */
  lemma HandOff(response: string, body: string, parse: string -> Option<Json>, translate: Json -> Option<string>)
    requires parse(body) == Some(Extractor.Record(Extractor.Classify(response, parse)))
    ensures var e := Extractor.Classify(response, parse);
      Translator.Decide(Some(body), parse, translate) == Translator.NoContent <==> Extractor.Content(e) in FalsyValues
    ensures Contains(response, "-|-") ==> Translator.Decide(Some(body), parse, translate) != Translator.NoContent
    ensures var e := Extractor.Classify(response, parse);
      Translator.Decide(Some(body), parse, translate).Written? ==>
        translate(Extractor.Content(e)) == Some(Translator.Decide(Some(body), parse, translate).text)
  {
    var e := Extractor.Classify(response, parse);
    Translator.SkipRule(Some(body), parse, translate);
  }
}
