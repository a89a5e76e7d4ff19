# Image-question extractor and translator: a Dafny model

The system is a two-stage batch pipeline. The **extractor** sends each image
of a directory to a vision-language model, classifies the textual answer as
`markdown`, `json` or `text`, and writes `{"type": ..., "content": ...}` to
`<image stem>.json`. The **translator** reads every `*.json` file of its input
directory, sends the `content` field to a text model, and writes
`{"content": <translation>}` to `translated_<file name>`. Both stages swallow
per-file exceptions and go on with the next file.

This project models the decision logic of both stages:

- `wrappers.dfy` (`Wrappers`): the `Option` type used for every call that may fail.
- `json_values.dfy` (`JsonValues`): decoded JSON values as Python sees them. It also
  models Python's truth test on them and defines a directory as a map from file name
  to document.
- `py_text.dfy` (`PyText`): the string and path operations the code uses:
  - `t in s`;
  - `str.lower()`;
  - `PurePath.suffix` and `PurePath.stem`, built on a search for the last dot of the
    name (`RFind`), as `pathlib` does internally;
  - a test that a name ends in a given tail (`EndsWith`), which models the
    `glob("*.json")` pattern of the translator.
- `extractor.dfy` (`Extractor`): the response classifier (`_parse_response`), the
  image filter, the output naming and the per-image isolation of `process_image`.
  It also models the loop of `process_directory`.
- `translator.dfy` (`Translator`): the skip / translate / write decision of
  `process_json_file`, the output record and name, and the loop of `main`.
- `listing.dfy` (`Listing`): the run over a directory listing that both stages
  perform. Entries are taken in listing order, and each entry that writes overwrites
  its output file. The facts about such a run are proved here once.
- `pipeline.dfy` (`Pipeline`): what the translator does with an extractor artifact.

External services are parameters of function type (oracles), so every property holds
whatever they answer:

- `respond: string -> Option<string>` is, for a directory entry, the answer of the
  vision model. It is `None` when reading the image, encoding it, calling the API or
  classifying the answer raises.
- `parse: string -> Option<Json>` is `json.loads` / `json.load`. It is `None` on a
  decode error.
- `read: string -> Option<string>` is the text of an input file of the translator. It
  is `None` when opening or decoding the file raises.
- `translate: Json -> Option<string>` is `translate_text`. It is `None` when the API
  call raises (the function catches the exception and returns `None`) or when it
  returns no text.

An output directory is a `map<string, Json>`. Writing a file is a map update, which
overwrites an older file of the same name, as `open(..., "w")` does. A directory
listing is a sequence of entry names in an order the filesystem picks.
`ProcessDirectory` and `TranslateDirectory` walk that sequence with a loop. Each is
proved equal to a specification (`ExtractAll`, `TranslateAll`). Both specifications
are instances of the run `Listing.Run`, and the lemmas state what they promise.

The intended behaviour of the two stages is simple:

- a table in the model's answer is stored as markdown;
- every image yields its own output file, so no two images of a run share an output
  path, and there is one output per successfully processed image.

The code departs from this in two places, and the model follows the code:

- **The markdown test.** A markdown table is recognised by its separator row, a run of
  dashes between pipes such as `|---|`. The code instead tests for the literal
  substring `-|-` (together with `|`, which `-|-` implies). So a table whose only
  separator row is `|---|` is not classified as markdown (`Classify` states the test
  exactly).
- **Output names.** Extractor outputs are named by stem alone, so `quiz.png` and
  `quiz.jpg` both write `quiz.json`, and the later one in the listing wins
  (`StemCollision`, `LastWriteWins`). So two images of one run can share an output
  path, and a run can leave fewer new files than it processed images
  (`ExtractedFiles` counts output names, not images).

`str.lower()` is modelled on ASCII letters only. This is exact for the one use the
code makes of it: testing whether a lowered suffix is one of `.png`, `.jpg`, `.jpeg`,
`.bmp` or `.webp`. Two non-ASCII characters lower to something that contains an ASCII letter.
The Kelvin sign lowers to `k`, which none of these suffixes contains. `İ` (U+0130)
lowers to `i` followed by U+0307, and none of the suffixes contains U+0307. So a
suffix with a non-ASCII character is never an image suffix, in Python or in the model.

## Model

| member | source | states |
|---|---|---|
| `JsonValues.Truthy` | translator.py:65 | A decoded value fails `if not text` exactly when it is `null`, `false`, `0`, `0.0`, `""`, `[]` or `{}` |
| `PyText.Contains` | qwen_vl_extractor.py:111 | `t in s` needs `t` no longer than `s`, and the empty string is in every string |
| `PyText.TablePatternHasPipe` | qwen_vl_extractor.py:111 | A string containing `-|-` contains `|`, so the first half of the markdown test is redundant |
| `PyText.Lower` | qwen_vl_extractor.py:154 | Lowering keeps the length, leaves no ASCII capital, keeps every other character and moves each capital by the ASCII case offset |
| `PyText.RFind` | qwen_vl_extractor.py:134 | `rfind` reports -1 or a position inside the string that holds the character |
| `PyText.RFindIsLast` | qwen_vl_extractor.py:134 | No dot follows the position `rfind` reports, so the suffix starts at the last dot of the name |
| `PyText.Suffix` | qwen_vl_extractor.py:154 | The suffix is empty or a dot and at least one more character; it is shorter than the name and ends it |
| `PyText.Stem` | qwen_vl_extractor.py:134 | The stem followed by the suffix is the whole name |
| `PyText.StemSuffixSplit` | qwen_vl_extractor.py:134 | A name with a suffix has a non-empty stem; a suffix holds no dot after its first character |
| `PyText.NameParts` | qwen_vl_extractor.py:154 | A non-empty stem followed by a dot-extension without further dots has exactly that stem and suffix |
| `Extractor.Classify` | qwen_vl_extractor.py:100-117 | Markdown exactly when the response contains `-|-`; otherwise the parsed value when the parser accepts the response, else the text; markdown and text keep the response unchanged; classification is total |
| `Extractor.MarkdownWins` | qwen_vl_extractor.py:111-112 | A response with `-|-` is written as `{"type": "markdown", "content": response}` even when it is also valid JSON |
| `Extractor.TableAnswerIsMarkdown` | qwen_vl_extractor.py:111-112 | The answer `\| Q \| A \|` / `\|-\|-\|` / `\|1+1?\|2\|` is classified markdown with the answer as content, whatever the parser says |
| `Extractor.IsImage` | qwen_vl_extractor.py:154 | A selected image has a non-empty stem and a suffix of four or five characters |
| `Extractor.ImageBySuffix` | qwen_vl_extractor.py:150-154 | For a stem followed by a dot-extension, the entry is selected exactly when the lowered extension is one of `.png`, `.jpg`, `.jpeg`, `.bmp`, `.webp` |
| `Extractor.OutputName` | qwen_vl_extractor.py:134 | The output name ends in `.json`, and what precedes it is the image's stem |
| `Extractor.Record` | qwen_vl_extractor.py:136 | The artifact is an object with exactly the keys `type` and `content`; its type is `markdown`, `json` or `text`; the classification can be read back from it |
| `Extractor.OutputNameCollision` | qwen_vl_extractor.py:134 | Two images write the same file exactly when their stems agree |
| `Extractor.ProcessImage` | qwen_vl_extractor.py:119-140 | A successful image overwrites `<stem>.json` with its classified record and nothing else; a failing one leaves the directory unchanged |
| `Extractor.ProcessDirectory` | qwen_vl_extractor.py:142-155 | The loop over the listing leaves the directory that processing every entry in order prescribes |
| `Extractor.ExtractAllSplit` | qwen_vl_extractor.py:153-155 | Processing a listing in two parts is processing the second part from the directory the first left |
| `Extractor.ExtractedFiles` | qwen_vl_extractor.py:150-155 | After a run the directory holds the old files plus `<stem>.json` for every image entry that was processed successfully, and no other new file |
| `Extractor.LastWriteWins` | qwen_vl_extractor.py:134-136 | `<stem>.json` holds the record of the last successful image with that stem in the listing |
| `Extractor.UntouchedFile` | qwen_vl_extractor.py:134-136 | A file that no successful image is named after keeps its old content |
| `Extractor.FailureIsolated` | qwen_vl_extractor.py:127-140 | A non-image entry or a failing image changes nothing: the run equals the run without it, so every other entry is still processed |
| `Extractor.UpperCaseSuffixSelected` | qwen_vl_extractor.py:150-154 | `A.PNG` is selected: the suffix is compared after lowering |
| `Extractor.OtherSuffixSkipped` | qwen_vl_extractor.py:150-154 | `notes.txt` is not selected |
| `Extractor.DotFileSkipped` | qwen_vl_extractor.py:154 | `.png` has no suffix and is not selected |
| `Extractor.QuizNamesCollide` | qwen_vl_extractor.py:134 | `quiz.png` and `quiz.jpg` are both selected and both named `quiz.json` |
| `Extractor.StemCollision` | qwen_vl_extractor.py:134-136 | Listing `quiz.png` then `quiz.jpg` adds the single file `quiz.json`, holding the second result |
| `Listing.RunFiles` | qwen_vl_extractor.py:153-155 | After a run over a listing, the files are the old ones plus the output name of every writing entry, and nothing else |
| `Listing.RunSplit` | translator.py:95-96 | A run over a listing in two parts is the run over the second part from the directory the first left |
| `Listing.RunIsolated` | qwen_vl_extractor.py:153-155 | An entry that writes nothing is as if absent from the listing |
| `Listing.RunLastWins` | qwen_vl_extractor.py:134-136 | An entry's output file holds its record when no later writing entry has the same output name |
| `Listing.RunUntouched` | translator.py:75-79 | A file that no writing entry is named after keeps its old content |
| `Translator.ContentField` | translator.py:64-65 | `data.get('content', '')` is falsy exactly when the key is missing or holds a falsy value |
| `Translator.Decide` | translator.py:58-72 | An exception is raised exactly when the file cannot be read or parsed, or is not an object; otherwise the file is skipped exactly when its `content` is falsy, and a written translation is what the text model returned for that content |
| `Translator.SkipRule` | translator.py:58-67 | A file is skipped exactly when it is a JSON object whose `content` is missing or falsy, whatever the text model would answer |
| `Translator.WrittenOnlyFromContent` | translator.py:64-72 | A translation is written only for an object with a truthy `content`, and it is what the text model returned for that content; a `None` from `translate_text` writes nothing |
| `Translator.TranslatedWhenContent` | translator.py:64-72 | An object with a truthy `content` is written with the text model's answer for it, or left untranslated when the model returns `None` |
| `Translator.TranslationRecord` | translator.py:78-79 | The written record is exactly `{"content": T}` and carries nothing else from the input |
| `Translator.IsJsonName` | translator.py:95 | A name matches `*.json` exactly when some tail of it, the whole name included, is `.json` |
| `Translator.OutputName` | translator.py:75 | The output name is `translated_` followed by the whole input name |
| `Translator.OutputNameInjective` | translator.py:75 | `translated_a` and `translated_b` are the same name exactly when `a` and `b` are |
| `Translator.ProcessJsonFile` | translator.py:47-84 | Only a translated file changes the output directory, writing its record under `translated_<name>`; every caught exception and every skip leaves it unchanged |
| `Translator.TranslateDirectory` | translator.py:86-96 | The loop over the listing leaves the directory that processing every `*.json` entry in order prescribes |
| `Translator.TranslatedFiles` | translator.py:95-96 | After a run the output directory holds the old files plus `translated_<name>` for every listed `*.json` file that was translated, and no other new file |
| `Translator.TranslatedUntouched` | translator.py:75-79 | An output file that no translated `*.json` file is named after keeps its content, such as a record from an earlier run |
| `Translator.TranslatedRecord` | translator.py:75-79 | With distinct names in the listing, each translated file's record is found under its own output name, whatever happened to other files |
| `Pipeline.ArtifactsAreListed` | translator.py:95 | Every extractor artifact matches the translator's `*.json` pattern and is translated to `translated_<stem>.json` |
| `Pipeline.HandOff` | translator.py:64-72 | Given an extraction artifact, the translator skips it exactly when its content is falsy. It never skips a markdown artifact. It translates the artifact's content |

## Left out

- The vision and text API calls and their prompts are left out; they are network I/O and become the oracles `respond` and `translate`.
- The image read, base64 encoding (section 4 of RFC 4648) and the `data:image/png;base64,` URI are left out; they are file I/O and library code, folded into `respond`.
- The internals of `json.loads`, `json.load` and `json.dump` are left out: indentation, `ensure_ascii=False`, and the conversion of number literals to binary floats. They are library code and become the oracle `parse`. Writing a document is a map update.
- Object key order and duplicate keys in JSON objects are left out; objects are maps.
- `Extractor.Classify`: every failure of the parser is treated as a decode error and yields `text`. An exception of another kind raised by `json.loads`, such as `RecursionError` on very deeply nested input, would instead escape to `process_image`, which writes nothing for that image.
- `Translator.Decide`: `translate` is a function of the content alone, so two files with equal content get the same translation in the model. The text model may answer two equal requests differently. No proved property compares the translations of two files.
- A write that fails is left out. If `open` or `json.dump` raises, the model still writes the whole file; the source may leave a truncated file or none.
- The API-key check of the extractor's constructor is left out. So are the `mkdir` calls and all logging and `print` output: they are setup or observation only.
- `pic-response.py` is not part of this model: argument parsing, logging handlers and a directory check around one call to `process_directory`. Its final image count counts selected images, not successes.
- `config.py` is not part of this model: it holds constant strings only.
- `str.lower()` is modelled on ASCII letters only; see above for why this is exact for the suffix test.
- Directory listing order is left out: it is chosen by the filesystem, and the listing is an arbitrary sequence of distinct names. `glob("*.json")` is case-sensitive, as on POSIX.
- `PyText.Suffix` and `PyText.Stem` follow the rule that the suffix starts at the last dot when that dot is neither the first nor the last character of the name.
