/** The video record of the help-page pipeline: how one scrapetube entry
    becomes a flat record, and the dictionary the record is saved as. */
module VideoRecord {
  import opened Wrappers
  import opened PyStr

  /** One element of a `runs` list; its `text` key may be missing. */
  datatype Run = Run(text: Option<string>)

  /** A dictionary `{"runs": [...]}`; the `runs` key may be missing. */
  datatype TextNode = TextNode(runs: Option<seq<Run>>)

  /** One element of `thumbnail.thumbnails`; each key may be missing. */
  datatype Thumbnail = Thumbnail(url: Option<string>, width: Option<int>, height: Option<int>)

  /** The `thumbnail` dictionary; the `thumbnails` key may be missing. */
  datatype ThumbnailNode = ThumbnailNode(thumbnails: Option<seq<Thumbnail>>)

  /** The part of a scrapetube video entry that is read; every key may be missing. */
  datatype VideoData = VideoData(
    videoId: Option<string>,
    title: Option<TextNode>,
    descriptionSnippet: Option<TextNode>,
    thumbnail: Option<ThumbnailNode>)

  /** `YouTubeVideo`. */
  datatype Video = Video(
    videoId: string,
    title: string,
    url: string,
    embedUrl: string,
    description: string,
    thumbnailUrl: string,
    thumbnailWidth: int,
    thumbnailHeight: int,
    htmlFilename: string)

  /** Why no record was built; both are raised as `ValueError`. */
  datatype LoadError =
    | MissingKey(key: string)  // a `KeyError` on that key
    | IndexError               // a list index out of range

  const WatchPrefix: string := "https://www.youtube.com/watch?v="
  const EmbedPrefix: string := "https://www.youtube.com/embed/"
  const NoDescription: string := "No description available."
  const NoThumbnailUrl: string := "No thumbnail URL."

  /** `video_data['title']['runs'][0]['text']`. */
  function TitleText(title: Option<TextNode>): Result<string, LoadError>
  {
    if title.None? then Err(MissingKey("title"))
    else if title.value.runs.None? then Err(MissingKey("runs"))
    else if |title.value.runs.value| == 0 then Err(IndexError)
    else if title.value.runs.value[0].text.None? then Err(MissingKey("text"))
    else Ok(title.value.runs.value[0].text.value)
  }

  /** The snippet has a non-empty `runs` list (the test on line 68). */
  predicate HasSnippetRuns(d: VideoData)
  {
    d.descriptionSnippet.Some? && d.descriptionSnippet.value.runs.Some?
      && |d.descriptionSnippet.value.runs.value| > 0
  }

  /** The description: the first line of the first snippet run, or the default. */
  function DescriptionOf(d: VideoData): Result<string, LoadError>
  {
    if HasSnippetRuns(d) then
      var run := d.descriptionSnippet.value.runs.value[0];
      if run.text.None? then Err(MissingKey("text"))
      else Ok(Split(run.text.value, "\n")[0])
    else Ok(NoDescription)
  }

  /** `video_data.get('thumbnail', {}).get('thumbnails', [{}])`. */
  function ThumbnailList(d: VideoData): seq<Thumbnail>
  {
    if d.thumbnail.Some? && d.thumbnail.value.thumbnails.Some? then d.thumbnail.value.thumbnails.value
    else [Thumbnail(None, None, None)]
  }

  /** `YouTubeVideo.load_from_scrapetube_data`: the keys are read in the
      order of the source, so the first missing one is the one reported. */
  function LoadFromScrapetubeData(d: VideoData): Result<Video, LoadError>
  {
    if d.videoId.None? then Err(MissingKey("videoId"))
    else
      var id := d.videoId.value;
      match TitleText(d.title)
      case Err(e) => Err(e)
      case Ok(title) =>
        match DescriptionOf(d)
        case Err(e) => Err(e)
        case Ok(description) =>
          var thumbnails := ThumbnailList(d);
          if |thumbnails| < 2 then Err(IndexError)
          else
            var thumb := thumbnails[1];
            Ok(Video(id, title, WatchPrefix + id, EmbedPrefix + id, description,
                     if thumb.url.Some? then thumb.url.value else NoThumbnailUrl,
                     if thumb.width.Some? then thumb.width.value else 0,
                     if thumb.height.Some? then thumb.height.value else 0,
                     ""))
  }

  /** The entry carries every key the loader needs. */
  predicate Loadable(d: VideoData)
  {
    && d.videoId.Some?
    && d.title.Some? && d.title.value.runs.Some? && |d.title.value.runs.value| > 0
    && d.title.value.runs.value[0].text.Some?
    && (HasSnippetRuns(d) ==> d.descriptionSnippet.value.runs.value[0].text.Some?)
    && d.thumbnail.Some? && d.thumbnail.value.thumbnails.Some?
    && |d.thumbnail.value.thumbnails.value| >= 2
  }

  /** Loading fails exactly when a needed key or list element is missing;
      a missing `videoId` or title text is reported as such. */
  lemma LoadFailsIffIncomplete(d: VideoData)
    ensures LoadFromScrapetubeData(d).Ok? <==> Loadable(d)
    ensures d.videoId.None? ==> LoadFromScrapetubeData(d) == Err(MissingKey("videoId"))
    ensures d.videoId.Some? && d.title.None? ==> LoadFromScrapetubeData(d) == Err(MissingKey("title"))
    ensures d.videoId.Some? && d.title.Some? && d.title.value.runs == Some([])
      ==> LoadFromScrapetubeData(d) == Err(IndexError)
  {
  }

  /** A missing `thumbnail` or `thumbnails` key fails too: the default list
      `[{}]` has no element at index 1. */
  lemma MissingThumbnailsFails(d: VideoData)
    requires d.videoId.Some? && TitleText(d.title).Ok? && DescriptionOf(d).Ok?
    requires d.thumbnail.None? || d.thumbnail.value.thumbnails.None?
    ensures LoadFromScrapetubeData(d) == Err(IndexError)
  {
  }

  /** What a successfully loaded record holds. */
  lemma LoadedRecord(d: VideoData)
    requires LoadFromScrapetubeData(d).Ok?
    ensures var v := LoadFromScrapetubeData(d).value;
      && v.videoId == d.videoId.value
      && v.title == d.title.value.runs.value[0].text.value
      && v.url == "https://www.youtube.com/watch?v=" + v.videoId
      && v.embedUrl == "https://www.youtube.com/embed/" + v.videoId
      && v.htmlFilename == ""
      && var thumb := d.thumbnail.value.thumbnails.value[1];
      && v.thumbnailUrl == (if thumb.url.Some? then thumb.url.value else "No thumbnail URL.")
      && v.thumbnailWidth == (if thumb.width.Some? then thumb.width.value else 0)
      && v.thumbnailHeight == (if thumb.height.Some? then thumb.height.value else 0)
  {
  }

  /** The description is the first run's text up to its first line break,
      and exactly the default text when there is no non-empty `runs` list. */
  lemma LoadedDescription(d: VideoData)
    requires LoadFromScrapetubeData(d).Ok?
    ensures var desc := LoadFromScrapetubeData(d).value.description;
      if HasSnippetRuns(d) then
        var text := d.descriptionSnippet.value.runs.value[0].text.value;
        '\n' !in desc && (desc == text || StartsWith(text, desc + "\n"))
      else desc == "No description available."
  {
    if HasSnippetRuns(d) {
      SplitFirstPieceChar(d.descriptionSnippet.value.runs.value[0].text.value, '\n');
    }
  }

  /** A JSON value of the saved record. */
  datatype JsonValue = JString(str: string) | JInt(num: int)

  /** `YouTubeVideo.to_dict`, keys in the order they are written. */
  function ToDict(v: Video): seq<(string, JsonValue)>
  {
    [ ("video_id", JString(v.videoId)),
      ("title", JString(v.title)),
      ("url", JString(v.url)),
      ("embed_url", JString(v.embedUrl)),
      ("description", JString(v.description)),
      ("thumbnail_url", JString(v.thumbnailUrl)),
      ("thumbnail_width", JInt(v.thumbnailWidth)),
      ("thumbnail_height", JInt(v.thumbnailHeight)),
      ("html_filename", JString(v.htmlFilename)) ]
  }

  /** The value stored under `key`, if any (the first one). */
  function Lookup(dict: seq<(string, JsonValue)>, key: string): Option<JsonValue>
  {
    if dict == [] then None
    else if dict[0].0 == key then Some(dict[0].1)
    else Lookup(dict[1..], key)
  }

  function StringAt(dict: seq<(string, JsonValue)>, key: string): Option<string>
  {
    match Lookup(dict, key)
    case Some(JString(s)) => Some(s)
    case _ => None
  }

  function IntAt(dict: seq<(string, JsonValue)>, key: string): Option<int>
  {
    match Lookup(dict, key)
    case Some(JInt(n)) => Some(n)
    case _ => None
  }

  /** Reads a saved record back (the reader of the JSON list). */
  function FromDict(dict: seq<(string, JsonValue)>): Option<Video>
  {
    var id := StringAt(dict, "video_id");
    var title := StringAt(dict, "title");
    var url := StringAt(dict, "url");
    var embed := StringAt(dict, "embed_url");
    var desc := StringAt(dict, "description");
    var thumb := StringAt(dict, "thumbnail_url");
    var w := IntAt(dict, "thumbnail_width");
    var h := IntAt(dict, "thumbnail_height");
    var file := StringAt(dict, "html_filename");
    if id.Some? && title.Some? && url.Some? && embed.Some? && desc.Some? && thumb.Some?
       && w.Some? && h.Some? && file.Some?
    then Some(Video(id.value, title.value, url.value, embed.value, desc.value, thumb.value,
                    w.value, h.value, file.value))
    else None
  }

  /** The value under the first entry with a given key is the one found. */
  lemma {:induction false} LookupFirst(dict: seq<(string, JsonValue)>, key: string, i: nat)
    requires i < |dict| && dict[i].0 == key
    requires forall j :: 0 <= j < i ==> dict[j].0 != key
    ensures Lookup(dict, key) == Some(dict[i].1)
  {
    if i > 0 {
      LookupFirst(dict[1..], key, i - 1);
    }
  }

  /** The text fields of the saved dictionary are found under their keys. */
  lemma DictTextFields(v: Video)
    ensures var d := ToDict(v);
      && Lookup(d, "video_id") == Some(JString(v.videoId))
      && Lookup(d, "title") == Some(JString(v.title))
      && Lookup(d, "url") == Some(JString(v.url))
      && Lookup(d, "embed_url") == Some(JString(v.embedUrl))
      && Lookup(d, "description") == Some(JString(v.description))
  {
    var d := ToDict(v);
    LookupFirst(d, "video_id", 0);
    LookupFirst(d, "title", 1);
    LookupFirst(d, "url", 2);
    LookupFirst(d, "embed_url", 3);
    LookupFirst(d, "description", 4);
  }

  /** The thumbnail fields and the page name are found under their keys. */
  lemma DictOtherFields(v: Video)
    ensures var d := ToDict(v);
      && Lookup(d, "thumbnail_url") == Some(JString(v.thumbnailUrl))
      && Lookup(d, "thumbnail_width") == Some(JInt(v.thumbnailWidth))
      && Lookup(d, "thumbnail_height") == Some(JInt(v.thumbnailHeight))
      && Lookup(d, "html_filename") == Some(JString(v.htmlFilename))
  {
    var d := ToDict(v);
    LookupFirst(d, "thumbnail_url", 5);
    LookupFirst(d, "thumbnail_width", 6);
    LookupFirst(d, "thumbnail_height", 7);
    LookupFirst(d, "html_filename", 8);
  }

  /** The saved dictionary holds every field of the record: reading it back
      gives the record again. */
  lemma DictRoundTrip(v: Video)
    ensures FromDict(ToDict(v)) == Some(v)
  {
    DictTextFields(v);
    DictOtherFields(v);
  }
}
