# Change detection of `scraping-release.py`, modelled in Dafny

The program reads a CSV of `name,url` targets. For each target it fetches the
page with a headless browser and computes an image dictionary from the page's
`<img>` tags. It then compares the page's normalised text with the snapshot
stored under `sanitize_filename(name) + ".json"`. When the text changed, it
writes a highlighted HTML diff of the two page sources. Finally it stores the
new snapshot.

The model covers the decision logic of that loop and of its helpers. The
modules are:

- `Base`: optional values, bytes, string concatenation and prefix/substring
  facts.
- `Sanitize`: `sanitize_filename`, plus an escaping alternative that keeps
  names apart.
- `Lines`: `str.splitlines(keepends=True)` with Python's full set of line
  boundaries.
- `Readable`: `extract_readable_text`, that is, tag stripping with
  `<.*?>`, then `\s+` collapsing, then `strip()`.
- `Opcodes`: what a `get_opcodes()` alignment is. An alignment is a list of
  adjacent regions tagged `equal`, `insert`, `delete` or `replace`. The module
  also holds a simple prefix/suffix aligner that produces such lists for
  every input.
- `Highlight`: `highlight_html_diff`, given an alignment. It covers escaping,
  the marked rows and the emitted text.
- `Images`: the classification inside `compute_image_hashes` and the
  dictionary it builds. Fetching, decoding and MD5 are parameters.
- `Orchestrator`: one iteration of the target loop (`Step`) and the whole
  loop (`Run`). The snapshot folder is a map from file name to record.

## Model

| member | source | states |
|---|---|---|
| Sanitize.SanitizeFilename | scraping-release.py:26-28 | the result has the input's length; each of the nine characters backslash, `/ : * ? " < >` and the vertical bar becomes `_`, every other character is kept, and the result holds no forbidden character |
| Sanitize.SanitizeIdempotent | scraping-release.py:26-28 | sanitising an already sanitised name changes nothing |
| Sanitize.SanitizeCollision | scraping-release.py:26-28 | two names get the same sanitised name exactly when they have equal length and, wherever they differ, both characters are forbidden or `_` |
| Sanitize.SanitizeNotInjective | scraping-release.py:26-28 | `a/b` and `a:b` both sanitise to `a_b` |
| Sanitize.EscapeRoundTrip | scraping-release.py:26-28 | the corrected naming reads back: unescaping `EscapeFilename(name)` gives `name`, and the escaped form holds no forbidden character |
| Sanitize.EscapeInjective | scraping-release.py:26-28 | distinct names never share an escaped name |
| Lines.SplitLines | scraping-release.py:102-103 | the pieces concatenate back to the input; each piece is one line that keeps its terminator; every piece but the last ends in a line boundary; a `\r` ending a piece is never followed by `\n` starting the next, so `\r\n` is one terminator |
| Readable.StripTags | scraping-release.py:109 | the result is never longer than the line |
| Readable.StripTagsFirstTag | scraping-release.py:109 | the text before the first `<` is kept; a `<`, then text with no `>` and no newline, then `>` is one match and is removed whole; the rest of the line is processed on its own |
| Readable.StripTagsExample | scraping-release.py:109 | `<p>Hi</p>` becomes `Hi` |
| Readable.StripTagsNoClose | scraping-release.py:109 | a line with no `>` is left unchanged, including any `<` in it, because no match can close |
| Readable.StripTagsNoOpen | scraping-release.py:109 | a line with no `<` is left unchanged by tag removal |
| Readable.StripTagsIdempotent | scraping-release.py:109 | removing tags from text that has already had its tags removed changes nothing |
| Readable.StripTagsTagFree | scraping-release.py:109 | after tag removal no `<` has a later `>` on the same line |
| Readable.Collapse | scraping-release.py:111 | the result is empty exactly when the input is; a line starting with whitespace starts with one plain space, and a line starting with another character keeps it |
| Readable.CollapseSingleSpaced | scraping-release.py:111 | after collapsing, every whitespace character is a plain space and no two whitespace characters are adjacent |
| Readable.TrimLeft | scraping-release.py:113 | the result does not start with whitespace, is no longer than the input, and everything removed from the front is whitespace |
| Readable.TrimRight | scraping-release.py:113 | the result does not end with whitespace, is no longer than the input, and everything removed from the back is whitespace |
| Readable.StripSpec | scraping-release.py:113 | `strip()` (also applied to the CSV cells at 223-224) keeps one contiguous part of its input, removes only whitespace before and after it, and leaves no whitespace at either end |
| Readable.Key | scraping-release.py:105-114 | the readable text of a line is canonical: no leading or trailing whitespace, and its only whitespace is single spaces between non-spaces |
| Readable.KeyIsJoinedWords | scraping-release.py:105-114 | the readable text equals the words of the tag-free line joined by single spaces, an independent definition of collapse-then-strip |
| Readable.KeyOfPlainLine | scraping-release.py:105-114 | on a line with no `<`, the readable text is the collapsed and stripped line |
| Opcodes.PrefixSuffixMatcher | scraping-release.py:122-125 | the reference aligner's output is a well-formed alignment: its regions tile both key sequences in order, and each region fits its tag (an `equal` region covers equal keys, an `insert` region takes no old lines, a `delete` region takes no new lines) |
| Opcodes.MatcherIdentity | scraping-release.py:122-125 | the reference aligner aligns a non-empty sequence with itself as one `equal` region |
| Opcodes.AllEqualMeansSame | scraping-release.py:122-129 | an alignment made only of `equal` regions relates identical key sequences |
| Highlight.ReplaceChar | scraping-release.py:134 | one `str.replace(c, t)` pass: a string without `c` is unchanged; when `t` has no `c`, the result has none; any other character not in `t` is in the result exactly when it is in the input |
| Highlight.Escape | scraping-release.py:133-135 | the escaped line contains no `<` and no `>`, and it equals the line exactly when the line has neither |
| Highlight.EscapeIsPerChar | scraping-release.py:133-135 | chaining the two `replace` calls is the same as escaping each character on its own |
| Highlight.EscapeNotInjective | scraping-release.py:133-135 | `<` and `&lt;` escape to the same text |
| Highlight.KeysAreJoinedWords | scraping-release.py:116-120 | one comparison key per line; the key at each index is canonical and equals the words of that line, after tag removal, joined by single spaces |
| Highlight.OpSides | scraping-release.py:125-156 | what one region contributes: its non-removal rows are its new lines `[j1, j2)`, and it has removal rows, the old lines `[i1, i2)`, only when it is a `delete` |
| Highlight.RowsNewSide | scraping-release.py:125-156 | for regions that tile both line sequences from `(i, j)` on, the non-removal rows are the new lines from `j` on, in order |
| Highlight.RowsOldSide | scraping-release.py:125-156 | the removal rows are exactly the old lines of the `delete` regions, in order |
| Highlight.DiffRowsContent | scraping-release.py:125-156 | reading the rendered rows in order and skipping the removals gives exactly the new document's lines; the removal rows are exactly the old lines of the `delete` regions, so an old line of a `replace` region is never shown; the number of pieces is the number of new lines plus the number of deleted lines |
| Highlight.RowsKeptSide | scraping-release.py:126-129 | the rows copied without escaping are exactly the new lines of the `equal` regions, in order |
| Highlight.ChangedRegionInert | scraping-release.py:130-156 | every row of an `insert`, `delete` or `replace` region is marked, and its emitted text cannot contain `<script>` |
| Highlight.DiffPiecesInert | scraping-release.py:125-158 | in a highlighted diff the unescaped pieces are exactly the `equal` regions' new lines, and no other piece contains `<script>` |
| Highlight.EmitNoScript | scraping-release.py:130-156 | a wrapped and escaped line never contains `<script>` |
| Highlight.EmitAll | scraping-release.py:125-158 | one text per row, in order, each the emitted text of its row: the list that `"".join(result)` concatenates |
| Highlight.HighlightDiff | scraping-release.py:158-159 | the output starts with `<meta charset='UTF-8'>` and a newline |
| Highlight.HighlightAllEqual | scraping-release.py:101-159 | when the alignment has only `equal` regions, the output is the meta line followed by the new source unchanged |
| Images.Classify | scraping-release.py:58-80 | no entry is recorded exactly when the response has status 200, decodes as an image and is below 50 pixels in width or height |
| Images.RecordedText | scraping-release.py:69-80 | the stored text is one of: `Error:` followed by the request error; `ErrorStatus:` followed by the decimal status; `ErrorImage:` followed by the decoding error; or the MD5 hex digest of the body |
| Images.SizeThreshold | scraping-release.py:21-22 | the thresholds are strict: 49 pixels in either dimension is skipped, while 50 by 50 is hashed |
| Images.RenderRoundTrip | scraping-release.py:73-80 | every recorded text parses back to the entry it came from |
| Images.RenderInjective | scraping-release.py:73-80 | two entries have the same text exactly when they are equal |
| Images.IntDecimalRoundTrip | scraping-release.py:78 | the decimal text of a status code parses back to that code |
| Images.StepEffect | scraping-release.py:58-80 | one iteration of the image loop: a tag that records under `src` sets that key to its rendered entry, and any other tag leaves the key's presence and value as they were |
| Images.ImageHashes | scraping-release.py:48-82 | every key of the returned dictionary is a non-empty `src` |
| Images.ImageHashesKeys | scraping-release.py:58-82 | a `src` is a key of the dictionary exactly when some `<img>` tag with that non-empty `src` records an entry |
| Images.ImageHashesLastWins | scraping-release.py:58-82 | the value under a key is the entry of the last tag that records under it; a later tag with the same `src` that is skipped leaves the value in place |
| Orchestrator.StepSpec | scraping-release.py:222-303 | `Step`, one iteration of the loop: a URL without a lower-case `http://` or `https://` prefix is skipped, and a failed fetch is reported; both leave the snapshots untouched and write nothing. Otherwise the new snapshot replaces the one under the target's key. The outcome is a first capture exactly when no snapshot was stored, and a change exactly when the stored `text_for_diff` differs from the new text, with a missing field read as empty. An artifact is written exactly on a change |
| Orchestrator.Compare | scraping-release.py:265-267 | the comparison with the stored snapshot: a first capture exactly when nothing was stored, a change exactly when the stored `text_for_diff` (empty when absent) differs from the new text, and unchanged otherwise |
| Orchestrator.Snapshot | scraping-release.py:254-262 | the stored record holds the full page source and its normalised text, and every key of its image dictionary is a non-empty `src` |
| Orchestrator.SnapshotImages | scraping-release.py:245-246 | the stored image dictionary is the one computed from the fetched page's `<img>` tags: a key for each recording `src`, holding the last recording tag's entry |
| Orchestrator.DiffFileNameSafe | scraping-release.py:273-278 | with the day and minute as `strftime` formats them (digits and dashes), the diff file name starts with `diff-`, ends with the sanitised name and `.html`, and holds no character a file name forbids |
| Orchestrator.DocumentLayout | scraping-release.py:281-291 | the diff page opens the `html` element, its title is `Diff for` and the target name, and its `body` element holds the highlighted diff, on an indented line of its own |
| Orchestrator.ChangedArtifact | scraping-release.py:267-294 | a changed target's artifact is named `diff-<day>-<minute>-<sanitised name>.html` and compares the stored page source (empty when missing) with the new page source |
| Orchestrator.ChangeWithSameSource | scraping-release.py:265-291 | the decision reads the normalised texts but the artifact diffs the sources: a text change over an unchanged source still writes a diff, and that diff highlights nothing |
| Orchestrator.Run | scraping-release.py:222-303 | the loop gives exactly one outcome per CSV row |
| Orchestrator.RunFrame | scraping-release.py:222-303 | a snapshot that no target of the run writes is left as it was |
| Orchestrator.RunLastWriter | scraping-release.py:222-303 | after the run, the snapshot under a key is the one saved by the last target that wrote it |
| Orchestrator.RunArtifacts | scraping-release.py:222-303 | the run writes exactly one artifact per changed outcome |
| Orchestrator.SharedKey | scraping-release.py:231-303 | two targets that write one key share one snapshot: the second is never a first capture, it counts as changed exactly when the two normalised texts differ, and its snapshot replaces the first |
| Orchestrator.SeparateKeys | scraping-release.py:231-303 | two targets under different keys do not interact: a second target whose key is new is a first capture, and the first target's snapshot survives |
| Orchestrator.SourceKeyMergesTargets | scraping-release.py:223-231 | under the program's naming, targets `a/b` and then `a:b` merge: the second is not a first capture, and the first's snapshot is lost |
| Orchestrator.FixedRunSeparates | scraping-release.py:223-231 | under the escaping naming, two targets with different names keep separate snapshots |
| Orchestrator.UrlCheck | scraping-release.py:223-227 | `IsHttpUrl`, the `re.match(r"^https?://", url)` test, is a case-sensitive prefix test on the stripped URL cell: `HTTP://a`, `ftp://a` and ` http://a` fail the test, while a CSV cell ` http://a ` passes because it is stripped first |

## Left out

- The browser fetch, up to five attempts with sleeps (scraping-release.py:31-45): the loop receives a `Fetch`, either a page or a failure.
- Parsing the page into the normalised text (245-252), that is, BeautifulSoup, dropping `script` and `style`, and `get_text`: this is the `normalize` function of `Env`.
- Extracting the `<img>` tags from the parsed page (54): each observation carries the page's tags, in document order.
- The HTTP request for an image, PIL decoding and MD5 (62-73): these are the `Fetched` value and the `decode` and `md5` functions.
- difflib's matching heuristic: the aligner is a parameter that must return a well-formed alignment (`ValidMatcher`). `PrefixSuffixMatcher` is an example aligner, not difflib's algorithm.
- Orchestrator.Record: a stored `"html_source": null` or `"text_for_diff": null` reads as absent. In the program, a null `html_source` makes `highlight_html_diff` fail at `None.splitlines` (102) and stops the run, and a null `text_for_diff` compares unequal to any text.
- A snapshot file that is not valid JSON makes `json.load` (237) raise and stops the run. The model's store holds only well-formed records.
- The insertion order of the `image_hashes` dictionary, and the JSON layout written by `json.dump` (303): the model keeps the dictionary as a map.
- The `str(...)` conversion of CSV cells (223-224), including `nan` for an empty cell: names and URLs are given as strings.
- Diff files written by different targets in the same minute under colliding sanitised names overwrite each other (276-279): `Run` lists every artifact and does not model the artifact folder.
- Console messages, the clock (each clock reading is an input) and the file-system paths.
- `Document` takes the aligner's result only under `ValidMatcher`, because `highlight_html_diff` is defined here only for well-formed alignments.

## Findings

| source | as written | input that shows it | evidently intended | confidence | as-written member | corrected member |
|---|---|---|---|---|---|---|
| scraping-release.py:231 | the snapshot file is `sanitize_filename(name) + ".json"`, and the sanitiser maps every forbidden character to `_`, so distinct names can share one file | CSV rows `a/b,https://x` then `a:b,https://y` | each target keeps its own snapshot, so the second row is a first capture and the first row's snapshot survives | medium, not executed | Orchestrator.SourceKeyMergesTargets | Orchestrator.FixedRunSeparates |
