# YouTube help-page tools, modelled in Dafny

This project models three Python scripts. Together they turn the videos of a
YouTube channel into pages of a RoboHelp help project.

- `youtube_to_robohelp.py`:
  - loads each scrapetube entry into a `YouTubeVideo` record;
  - derives the page and transcript file names from the title;
  - when the RoboHelp table of contents (TOC) does not list the page yet, it fetches the
    French transcript, gets an enhanced transcript, fills the page template
    and appends the page to the TOC;
  - finally it saves the list of records.
- `search_channel_ytapis.py` turns each result of a YouTube search into an HTML
  card (thumbnail, escaped title, escaped description) and joins the cards
  with line breaks.
- `concatenate_transcripts.py` joins the selected transcript files into one
  text, each under a `Sujet:` heading, and writes it where the save dialog
  says.

Modules:

| module | file | what it holds |
|---|---|---|
| `Wrappers` | wrappers.dfy | `Option`, `Result` |
| `PyStr` | pystr.dfy | Python's `split`, `join`, `replace`, `startswith`, `endswith`, and the laws used below |
| `PosixPath` | posix_path.dfy | `posixpath.basename`, `posixpath.dirname` |
| `HtmlEscape` | html_escape.dfy | `html.escape` (quote=True) and its inverse |
| `VideoRecord` | video_record.dfy | `YouTubeVideo`, `load_from_scrapetube_data`, `to_dict` |
| `PageFilename` | page_filename.dfy | the page and transcript names derived from a title |
| `PageRender` | page_render.dfy | `generate_html` and `json_to_html` |
| `Toc` | toc.dfy | `TOCManager` as a class over the sequence of page hrefs |
| `Processor` | processor.dfy | `TranscriptEnhancer`, `VideoProcessor.process_video`, the channel loop |
| `ChannelSearch` | channel_search.dfy | the search-result cards and their join |
| `Captions` | captions.dfy | the `[Musique]` marker and its removal, shared by both transcript tools |
| `Concatenate` | concatenate.dfy | `select_and_concatenate_files` |

Outside services are parameters of the model:
- NFKD normalisation;
- the transcript API;
- the chat completion;
- the save dialog;
- the contents of the files read.

The `improved` directory and the HTML output directory are maps from file
name to text. These maps are fields of the objects that write them. The TOC
is the sequence of the `href` attributes of its `page` elements, in document
order. `None` stands for a page without `href`.

Three behaviours of the code that a reader might not expect:

- Each template placeholder is replaced at every occurrence, not once.
  The replacements are done one placeholder after the other, so a
  placeholder that appears inside an inserted value is substituted too
  (`PageRender.GenerateHtmlResubstitutes`).
- The TOC membership test is a suffix test on the href. A name is therefore
  reported as listed when a longer name ends with it
  (`Toc.SuffixMatchesLongerName`).
- A title with no ASCII character at all gives the page name `.htm`. The
  suffix test then finds it in any TOC that lists some `.htm` page, so such
  a video is never added (`Processor.NonAsciiTitleNeverAdded`).

## Model

| member | source | states |
|---|---|---|
| VideoRecord.LoadFailsIffIncomplete | youtube_to_robohelp.py:61-90 | loading succeeds exactly when `videoId`, the first title run's text, the first snippet run's text (when runs exist) and a second thumbnail are present; a missing `videoId` or `title` is reported under that key, an empty title `runs` list as an index error |
| VideoRecord.LoadFromScrapetubeData | youtube_to_robohelp.py:51-90 | no contract of its own; described by `LoadFailsIffIncomplete`, `MissingThumbnailsFails`, `LoadedRecord` and `LoadedDescription` |
| VideoRecord.MissingThumbnailsFails | youtube_to_robohelp.py:75-87 | a missing `thumbnail` or `thumbnails` key fails with an index error, since the default list `[{}]` has no element 1 |
| VideoRecord.LoadedRecord | youtube_to_robohelp.py:62-81 | a loaded record has the entry's id and first title run, `url` = watch prefix + id, `embed_url` = embed prefix + id, `html_filename` = "", and thumbnail 1's url/width/height or the defaults "No thumbnail URL.", 0, 0 |
| VideoRecord.LoadedDescription | youtube_to_robohelp.py:68-72 | the description holds no line break and is the first snippet run's text or its prefix before the first `\n`; it is exactly "No description available." when there is no non-empty `runs` list |
| VideoRecord.DictRoundTrip | youtube_to_robohelp.py:32-48 | reading the saved dictionary back gives the record again: all nine fields are stored |
| VideoRecord.ToDict | youtube_to_robohelp.py:32-48 | no contract of its own; described by `DictRoundTrip` |
| PageFilename.AsciiOnly | youtube_to_robohelp.py:256 | the result is pure ASCII and no longer than the input |
| PageFilename.AsciiOnlyChar | youtube_to_robohelp.py:256 | one character is kept exactly when it is ASCII |
| PageFilename.AsciiOnlyConcat | youtube_to_robohelp.py:256 | dropping works piece by piece, so the ASCII characters are kept in their order |
| PageFilename.AsciiOnlyOfNonAscii | youtube_to_robohelp.py:256 | a text without ASCII characters becomes empty |
| PageFilename.CollapseWhitespace | youtube_to_robohelp.py:258 | no contract of its own; described by `CollapseWhitespaceClean`, `CollapseRun` and `CollapseConcat` |
| PageFilename.StemDropsNonAscii | youtube_to_robohelp.py:254-258 | a non-ASCII character, such as the accent NFKD splits off a letter, leaves no trace in the name, while the base letter stays |
| PageFilename.CollapseWhitespaceClean | youtube_to_robohelp.py:258 | the result has no whitespace, and stays ASCII and free of capitals when the input is |
| PageFilename.LowerChar | youtube_to_robohelp.py:258 | a capital becomes its own small letter; any other character is kept |
| PageFilename.Lower | youtube_to_robohelp.py:258 | each character is lowered in place: same length, character `i` is `LowerChar` of input character `i`, so no capital remains |
| PageFilename.FilenamesWellFormed | youtube_to_robohelp.py:254-259 | the stem is ASCII with no whitespace and no capital; the page name is stem + `.htm` and the transcript name stem + `-transcript.txt` |
| PageFilename.Stem | youtube_to_robohelp.py:254-258 | no contract of its own; described by `FilenamesWellFormed`, `StemDropsNonAscii`, `StemIdempotent` and `SlashKeptInNames` |
| PageFilename.HtmlFilename | youtube_to_robohelp.py:259 | no contract of its own; described by `FilenamesWellFormed` and `SlashKeptInNames` |
| PageFilename.TranscriptFilename | youtube_to_robohelp.py:267 | no contract of its own; described by `FilenamesWellFormed` and `SlashKeptInNames` |
| PageFilename.CollapseRun | youtube_to_robohelp.py:258 | each maximal run of whitespace becomes exactly one `_`, and the text around it is collapsed on its own |
| PageFilename.CollapseConcat | youtube_to_robohelp.py:258 | collapsing works piece by piece when the seam is not inside a whitespace run |
| PageFilename.StemIdempotent | youtube_to_robohelp.py:254-259 | normalising a normalised stem changes nothing |
| PageFilename.SlashKeptInNames | youtube_to_robohelp.py:254-267 | a `/` in the title survives into both the page name and the saved transcript name |
| PageRender.GenerateHtml | youtube_to_robohelp.py:229-236 | a page is produced exactly when there is an enhanced transcript: without one the last `replace` raises |
| PageRender.GenerateHtmlWithoutPlaceholders | youtube_to_robohelp.py:229-236 | a template with none of the five placeholders comes back unchanged; a missing enhanced transcript always fails |
| PageRender.GenerateHtmlResubstitutes | youtube_to_robohelp.py:231-235 | the replacements are sequential: a title equal to the video URL placeholder shows as the embed URL |
| PageRender.JsonToHtml | youtube_to_robohelp.py:105-117 | the loop returns the in-order chapter list rendering, or the error of the first chapter that lacks `title` or `content` |
| PageRender.ChaptersHtmlAppend | youtube_to_robohelp.py:112-115 | each chapter appends `<p><strong>title</strong><br/>\n\tcontent</p>\n` after the earlier chapters |
| PageRender.ChaptersHtmlFailsIff | youtube_to_robohelp.py:112-114 | the rendering fails exactly when some chapter lacks a key |
| PageRender.OneChapter | youtube_to_robohelp.py:110-117 | no chapters give ""; one chapter gives exactly its paragraph |
| Toc.TocManager.constructor | youtube_to_robohelp.py:184-185 | the manager holds the given table |
| Toc.Listed | youtube_to_robohelp.py:187-193 | no contract of its own; described by `ListedIffSomeSuffix`, `NotListedMeansWellFormed`, `AddedIsListed` and `Toc.TocManager.IsVideoListed` |
| Toc.TocManager.IsVideoListed | youtube_to_robohelp.py:187-193 | the loop answers the suffix test on the hrefs in document order, failing at a page without href met first |
| Toc.TocManager.AddVideo | youtube_to_robohelp.py:195-199 | appends one page with href `../contents/` + name, without any check |
| Toc.ListedIffSomeSuffix | youtube_to_robohelp.py:190-193 | on a table whose pages all have an href, a name is listed exactly when some href ends with it |
| Toc.NotListedMeansWellFormed | youtube_to_robohelp.py:190-193 | a `False` answer means every page has an href and none ends with the name |
| Toc.AddedIsListed | youtube_to_robohelp.py:191-198 | after adding a name that was not listed, it is listed |
| Toc.SuffixMatchesLongerName | youtube_to_robohelp.py:191 | `a.htm` counts as listed when the table only has `../contents/ba.htm` |
| Processor.TranscriptEnhancer.constructor | youtube_to_robohelp.py:97-99 | the enhancer starts with the given `improved` files |
| Processor.TranscriptText | youtube_to_robohelp.py:264-266 | no contract of its own; the segment texts joined by spaces with `[Musique]` removed, as `ProcessVideo` states through `ChosenTranscript` |
| Processor.Polish | youtube_to_robohelp.py:152 | no contract of its own; `EnhanceTranscript` states that every completion is returned through it |
| Processor.TranscriptEnhancer.GetExistingEnhancedTranscript | youtube_to_robohelp.py:168-177 | no contract of its own; described by `EnhanceThenFind` and `EnhanceTranscript` |
| Processor.TranscriptEnhancer.EnhanceTranscript | youtube_to_robohelp.py:119-166 | returns the completion with `</p> <p>` replaced by `</p>\n<p>`, or None when the call fails; saves it under the base name only when the name is non-empty and the call succeeded; a later lookup of that name finds the saved text, and lookups of other names are unchanged |
| Processor.EnhanceThenFind | youtube_to_robohelp.py:161-175 | what an enhancement saves under a name is what `get_existing_enhanced_transcript` then returns for it; without a save, the lookup is as before; other names are unaffected |
| Processor.VideoProcessor.constructor | youtube_to_robohelp.py:243-249 | the processor holds the given TOC, enhancer, template and output files |
| Processor.ChosenTranscript | youtube_to_robohelp.py:268-274 | no contract of its own; `ProcessVideo` states that its enhanced transcript is this choice |
| Processor.VideoProcessor.ProcessVideo | youtube_to_robohelp.py:251-286 | sets the page name from the title; fails on an href-less page, stops when already listed, fails without transcript; otherwise uses the saved enhanced transcript only when not forced, writes the page and appends it to the TOC exactly when an enhanced transcript exists; the TOC grows only then, the new name is then listed, and pages listed under `../contents/` keep their files |
| Processor.NonAsciiTitleNeverAdded | youtube_to_robohelp.py:254-260 | a title without ASCII characters gets the page name `.htm`, which is reported as listed whenever some page ends in `.htm` |
| Processor.ProcessTwice | youtube_to_robohelp.py:260-280 | once a video is added or found listed, processing it again adds nothing; when it was found listed, the TOC, the pages and the saved transcripts are unchanged by either call |
| Processor.ProcessEntry | youtube_to_robohelp.py:321-323 | an entry that cannot be loaded gives its loading error and changes nothing; otherwise the result is the record's dictionary with its page name, and the TOC is unchanged or gains exactly `../contents/` + that page name; the TOC stays consistent with the pages |
| Processor.RunChannel | youtube_to_robohelp.py:319-323 | the record list is produced exactly when every entry loads; the error is that of the first entry that fails; entry `i` of the list is the dictionary of record `i` with its page name (`Saved`); the old TOC stays a prefix of the new one, at most one page is added per entry, and every added page is `../contents/` + the page name of a loaded entry (`Grown`); the TOC stays consistent with the pages |
| Concatenate.Stem | concatenate_transcripts.py:21 | the heading name has no dot, and is the whole file name or its part before the first dot |
| Concatenate.SelectAndConcatenate | concatenate_transcripts.py:5-33 | nothing is written for an empty selection or an empty save path; otherwise the concatenation of all files is written to the chosen path, and the dialog is opened in the first file's folder with the default name |
| Concatenate.ConcatenationAppend | concatenate_transcripts.py:17-22 | the output for two selections in a row is the first output followed by the second |
| Concatenate.ConcatenationCons | concatenate_transcripts.py:18-22 | each file contributes `Sujet: ` + stem + `\n` + cleaned text + `\n\n`, in selection order |
| Concatenate.StemStopsAtFirstDot | concatenate_transcripts.py:21 | a file `a.rest` in any directory, with no dot in `a`, gives the heading name `a` (so `dir/a.b.txt` gives `a`) |
| Concatenate.DefaultNameFromFolder | concatenate_transcripts.py:25 | the proposed name is `Concatenated_` + the first file's folder name + `.txt` |
| Concatenate.DefaultFileName | concatenate_transcripts.py:25 | no contract of its own; described by `DefaultNameFromFolder` |
| Concatenate.CleanMayLeaveMarker | concatenate_transcripts.py:20 | one left-to-right removal pass can leave `[Musique]` in the text |
| Captions.Clean | concatenate_transcripts.py:20 | no contract of its own; `CleanMayLeaveMarker` shows one pass can leave the marker, and `ConcatenationCons` places the cleaned text |
| PosixPath.BasenameIsLastComponent | concatenate_transcripts.py:21 | the base name has no `/`, ends the path, and is preceded by `/` when shorter than the path |
| PosixPath.Basename | concatenate_transcripts.py:21 | no contract of its own; described by `BasenameIsLastComponent` and `BasenameOfJoin` |
| PosixPath.Dirname | concatenate_transcripts.py:25 | no contract of its own; described by `DirnameOfJoin` |
| PosixPath.BasenameOfJoin | concatenate_transcripts.py:21 | the base name of `dir/name` is `name` |
| PosixPath.DirnameOfJoin | concatenate_transcripts.py:25 | the directory name of `dir/name` is `dir` |
| PyStr.SplitFirstPieceChar | youtube_to_robohelp.py:70 | the first piece of a split on one character has no such character, and is all of the text or followed by the character |
| PyStr.Split | youtube_to_robohelp.py:70 | `split` always gives at least one piece; `SplitFirstPieceChar` and `ReplaceIsJoinOfSplit` describe the pieces |
| PyStr.Join | youtube_to_robohelp.py:264 | no contract of its own; described by `JoinEndsWithLast` and `ReplaceIsJoinOfSplit` |
| PyStr.ReplaceAll | youtube_to_robohelp.py:266 | no contract of its own; `ReplaceIsJoinOfSplit`, `ReplaceAbsent`, `ReplaceAfterClean` and `ReplaceLeading` describe it |
| PyStr.ReplaceIsJoinOfSplit | youtube_to_robohelp.py:266 | replacing is joining the split pieces with the replacement |
| PyStr.ReplaceAbsent | youtube_to_robohelp.py:231-235 | replacing a target that does not occur changes nothing |
| PyStr.JoinEndsWithLast | search_channel_ytapis.py:60 | a non-empty join ends with its last part |
| HtmlEscape.Escape | search_channel_ytapis.py:18-19 | the escaped text holds none of `<`, `>`, `"`, `'` |
| HtmlEscape.EscapeIsReplaceChain | search_channel_ytapis.py:18-19 | the escape equals the replacement chain `&`, `<`, `>`, `"`, `'` done in that order |
| HtmlEscape.UnescapeEscape | search_channel_ytapis.py:18-19 | the text is recovered from its escape |
| HtmlEscape.EscapeTwice | search_channel_ytapis.py:24-27 | escaping twice turns `&` into `&amp;amp;` |
| ChannelSearch.GenerateYoutubeUrl | search_channel_ytapis.py:14-15 | the URL is the watch prefix followed by the id |
| ChannelSearch.GenerateVideoItemHtml | search_channel_ytapis.py:22-32 | no contract of its own; described by `VideoItemRoundTrip` and `VideoItemEndsWithClose` |
| ChannelSearch.ItemHtml | search_channel_ytapis.py:48-56 | no contract of its own; described by `ItemsHtmlInOrder`, `ItemsHtmlFailsIff`, `ItemsHtmlFirstError` and `ItemEndsWithClose` |
| ChannelSearch.VideoItemRoundTrip | search_channel_ytapis.py:22-32 | the card is read back into the watch URL and thumbnail URL unescaped, the title and description escaped once, the `alt` text escaped twice, each decoding to the original |
| ChannelSearch.VideoItemEndsWithClose | search_channel_ytapis.py:26-32 | every card ends with its closing tags |
| ChannelSearch.RenderSearchResults | search_channel_ytapis.py:42-60 | a response without `items` fails; otherwise the loop returns the cards joined by `\n`, or the first missing key |
| ChannelSearch.ItemsHtmlInOrder | search_channel_ytapis.py:47-57 | one card per result, in API order |
| ChannelSearch.ItemsHtmlFailsIff | search_channel_ytapis.py:47-55 | rendering fails exactly when some result lacks a key |
| ChannelSearch.ItemsHtmlFirstError | search_channel_ytapis.py:47-55 | the error reported is that of the first result lacking a key |
| ChannelSearch.FullHtmlShape | search_channel_ytapis.py:59-60 | no results give ""; otherwise the page ends with the last card's closing tag, with no trailing line break |

## Left out

- Network calls are parameters, never performed:
  - `scrapetube.get_channel`;
  - `YouTubeTranscriptApi.get_transcript`: only the segment texts, or a failure;
  - the OpenAI chat completion: a completion, or a failure;
  - `requests.get`.
- File input and output are parameters and maps, never performed:
  - the API key files;
  - the template file, given as a string;
  - the `improved` files and the HTML pages, as maps;
  - the selected transcript files, given as their contents;
  - the JSON dump of the record list, modelled as the list of dictionaries.
  - A failing read or write is not modelled.
- The timestamped `gpt3_logs` file (youtube_to_robohelp.py:154-156) is not modelled. Its name depends on the clock and its write is taken to succeed.
- Processor.TranscriptEnhancer.EnhanceTranscript: the log write is taken to succeed. In the source it fails when the `gpt3_logs` directory is absent, which nothing creates; then `enhance_transcript` returns None and skips the `improved` save. The model never takes that path. The `improved` directory cannot cause it, since the source creates it first.
- Processor.TranscriptEnhancer.EnhanceTranscript: the `improved` map stores the completion exactly. The source writes it in text mode and reads it back with universal newlines, so a `\r\n` or a lone `\r` comes back as `\n`; the model's round trip is exact only for text without `\r`.
- Processor.EnhanceThenFind: the saved text is found unchanged only for text without `\r`; in the source a later lookup returns it with `\r\n` and `\r` turned into `\n`.
- Processor.VideoProcessor.ProcessVideo: a saved transcript reused without forced enhancement is the stored text, so the same `\r` normalisation is not captured there.
- The prompt text and the model name passed to the completion are not modelled. They do not affect any property here.
- XML parsing and pretty-printing of the TOC (youtube_to_robohelp.py:201-216) are not modelled: the TOC is its list of hrefs. An unreadable TOC file is not modelled; a page without `href` is.
- `unicodedata.normalize('NFKD', …)`, `json.loads`, `urllib.parse.quote` and the regular-expression engine are not modelled. Respectively:
  - the NFKD result is an input;
  - chapters arrive already parsed;
  - the query string is not built;
  - `re.sub(r'\s+', '_', …)` is specified directly on ASCII text.
- Python's dynamic typing errors (a non-string title, a non-list `runs`) are not modelled. Each field has its expected type or is missing.
- Missing intermediate dictionaries in a search result (`id`, `snippet`, `thumbnails`, `default`) are modelled as the keys below them being missing. The error names the leaf key, not the dictionary.
- `tkinter` dialogs and `logging` are not modelled:
  - the open dialog is its list of paths;
  - the save dialog is a function of the initial directory and file name;
  - the error log is replaced by the `Status` that `process_video` returns.
- Paths follow POSIX `posixpath` rules. The Windows rules of `ntpath` are not modelled: `\` as a separator, and drive roots such as `C:/`, for which the tool proposes `Concatenated_.txt` where `Concatenate.DefaultFileName` gives `Concatenated_C:.txt`.
- `str.replace` with an empty target is not modelled. Every call in the scripts uses a non-empty literal.
- Processor.VideoProcessor.ProcessVideo: the source assigns `html_filename` on the caller's record object. The model returns the updated record as a value, so aliasing of that object is not captured.
- Processor.VideoProcessor.ProcessVideo: writes under a name holding `/` are taken to succeed. A `/` in the title is kept in both names (`PageFilename.SlashKeptInNames`). In the source the save under `improved/` then fails unless that subdirectory exists, so `enhance_transcript` returns None, `generate_html` raises and the error is swallowed: the video is never added and is enhanced again on every run. The model reports it as added.
- Processor.VideoProcessor.ProcessVideo: the returned `Status` is an addition that makes the swallowed errors visible. The source returns nothing.
- The module-level script bodies are not modelled beyond the loops modelled above: credential reading, the hard-coded channel id and paths, and `print`.
