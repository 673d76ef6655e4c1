/** Rendering of the help page: the template substitution of
    `HTMLGenerator.generate_html` and the chapter list formatting of
    `TranscriptEnhancer.json_to_html`. */
module PageRender {
  import opened Wrappers
  import opened PyStr
  import VideoRecord

  const ThumbnailUrlToken: string := "###thumbnail_url###"
  const VideoNameToken: string := "###video_name###"
  const VideoUrlToken: string := "###video_url###"
  const DescriptionToken: string := "###video_description###"
  const TranscriptToken: string := "###enhanced_transcript###"

  /** `generate_html(video, enhanced_transcript)` on the loaded template:
      five `str.replace` calls in a fixed order. `None` stands for the
      `TypeError` that `str.replace` raises when the enhanced transcript is
      `None`. */
  function GenerateHtml(template: string, video: VideoRecord.Video, enhanced: Option<string>): (page: Option<string>)
    ensures page.Some? <==> enhanced.Some?
  {
    var h1 := ReplaceAll(template, ThumbnailUrlToken, video.thumbnailUrl);
    var h2 := ReplaceAll(h1, VideoNameToken, video.title);
    var h3 := ReplaceAll(h2, VideoUrlToken, video.embedUrl);
    var h4 := ReplaceAll(h3, DescriptionToken, video.description);
    if enhanced.None? then None
    else Some(ReplaceAll(h4, TranscriptToken, enhanced.value))
  }

  /** The template holds none of the five placeholders. */
  predicate NoPlaceholder(s: string)
  {
    && !Contains(s, ThumbnailUrlToken) && !Contains(s, VideoNameToken)
    && !Contains(s, VideoUrlToken) && !Contains(s, DescriptionToken)
    && !Contains(s, TranscriptToken)
  }

  /** A template without placeholders comes back unchanged, and a missing
      enhanced transcript always fails. */
  lemma GenerateHtmlWithoutPlaceholders(template: string, video: VideoRecord.Video, enhanced: Option<string>)
    requires NoPlaceholder(template)
    ensures GenerateHtml(template, video, enhanced) == if enhanced.None? then None else Some(template)
  {
    ReplaceAbsent(template, ThumbnailUrlToken, video.thumbnailUrl);
    ReplaceAbsent(template, VideoNameToken, video.title);
    ReplaceAbsent(template, VideoUrlToken, video.embedUrl);
    ReplaceAbsent(template, DescriptionToken, video.description);
    if enhanced.Some? {
      ReplaceAbsent(template, TranscriptToken, enhanced.value);
    }
  }

  /** The replacements are sequential: a placeholder inside an inserted
      value is substituted by the later replacements. Here the title is the
      video URL placeholder, so the page shows the embed URL instead. */
  lemma GenerateHtmlResubstitutes(video: VideoRecord.Video, enhanced: string)
    requires video.title == VideoUrlToken
    requires !Contains(video.embedUrl, DescriptionToken) && !Contains(video.embedUrl, TranscriptToken)
    ensures GenerateHtml(VideoNameToken, video, Some(enhanced)) == Some(video.embedUrl)
  {
    var t := VideoNameToken;
    assert ReplaceAll(t, ThumbnailUrlToken, video.thumbnailUrl) == t;
    assert t[..|t|] == t && t[|t|..] == [];
    assert ReplaceAll(t, VideoNameToken, video.title) == video.title;
    var u := VideoUrlToken;
    assert u[..|u|] == u && u[|u|..] == [];
    assert ReplaceAll(u, VideoUrlToken, video.embedUrl) == video.embedUrl;
    ReplaceAbsent(video.embedUrl, DescriptionToken, video.description);
    ReplaceAbsent(video.embedUrl, TranscriptToken, enhanced);
  }

  /** One chapter of the enhancer's JSON answer; each key may be missing. */
  datatype Chapter = Chapter(title: Option<string>, content: Option<string>)

  /** A `KeyError` on the given key. */
  datatype ChapterError = MissingKey(key: string)

  /** The HTML of one chapter, or the key that is missing (`title` is read first). */
  function ChapterHtml(c: Chapter): Result<string, ChapterError>
  {
    if c.title.None? then Err(MissingKey("title"))
    else if c.content.None? then Err(MissingKey("content"))
    else Ok("<p><strong>" + c.title.value + "</strong><br/>\n\t" + c.content.value + "</p>\n")
  }

  /** What `json_to_html` returns for a chapter list: the chapters' HTML
      in order, or the error of the first chapter that lacks a key. */
  function ChaptersHtml(chapters: seq<Chapter>): Result<string, ChapterError>
  {
    if chapters == [] then Ok("")
    else
      match ChaptersHtml(chapters[..|chapters| - 1])
      case Err(e) => Err(e)
      case Ok(before) =>
        match ChapterHtml(chapters[|chapters| - 1])
        case Err(e) => Err(e)
        case Ok(last) => Ok(before + last)
  }

  /** `TranscriptEnhancer.json_to_html` on the parsed chapter list. */
  method JsonToHtml(chapters: seq<Chapter>) returns (r: Result<string, ChapterError>)
    ensures r == ChaptersHtml(chapters)
  {
    var htmlOutput := "";
    for i := 0 to |chapters|
      invariant ChaptersHtml(chapters[..i]) == Ok(htmlOutput)
    {
      assert chapters[..i + 1][..i] == chapters[..i];
      var chapter := chapters[i];
      if chapter.title.None? {
        r := Err(MissingKey("title"));
        ErrorPrefix(chapters, i + 1);
        return;
      }
      if chapter.content.None? {
        r := Err(MissingKey("content"));
        ErrorPrefix(chapters, i + 1);
        return;
      }
      var title := chapter.title.value;
      var content := chapter.content.value;
      htmlOutput := htmlOutput + ("<p><strong>" + title + "</strong><br/>\n\t" + content + "</p>\n");
    }
    assert chapters[..|chapters|] == chapters;
    r := Ok(htmlOutput);
  }

  /** Once a prefix fails, the whole list fails with the same error. */
  lemma {:induction false} ErrorPrefix(chapters: seq<Chapter>, k: nat)
    requires k <= |chapters|
    requires ChaptersHtml(chapters[..k]).Err?
    ensures ChaptersHtml(chapters) == ChaptersHtml(chapters[..k])
    decreases |chapters| - k
  {
    if k < |chapters| {
      assert chapters[..k + 1][..k] == chapters[..k];
      ErrorPrefix(chapters, k + 1);
    } else {
      assert chapters[..k] == chapters;
    }
  }

  /** The chapters are rendered in order: the output for a list is the
      output for its first part followed by the output for the rest. */
  lemma {:induction false} ChaptersHtmlAppend(a: seq<Chapter>, b: seq<Chapter>)
    ensures ChaptersHtml(a + b) ==
      match ChaptersHtml(a)
      case Err(e) => Err(e)
      case Ok(x) =>
        match ChaptersHtml(b)
        case Err(e) => Err(e)
        case Ok(y) => Ok(x + y)
    decreases |b|
  {
    if b == [] {
      assert a + b == a;
      if ChaptersHtml(a).Ok? {
        assert ChaptersHtml(a).value + "" == ChaptersHtml(a).value;
      }
    } else {
      var n := |b| - 1;
      var ab := a + b;
      assert ab[..|ab| - 1] == a + b[..n];
      assert ab[|ab| - 1] == b[n];
      ChaptersHtmlAppend(a, b[..n]);
      match ChaptersHtml(a)
      case Err(e) =>
      case Ok(x) =>
        match ChaptersHtml(b[..n])
        case Err(e) =>
        case Ok(y) =>
          match ChapterHtml(b[n])
          case Err(e) =>
          case Ok(z) => assert x + y + z == x + (y + z);
    }
  }

  /** The rendering fails exactly when some chapter lacks a key. */
  lemma {:induction false} ChaptersHtmlFailsIff(chapters: seq<Chapter>)
    ensures ChaptersHtml(chapters).Err? <==> exists i :: 0 <= i < |chapters| && ChapterHtml(chapters[i]).Err?
  {
    if chapters != [] {
      var n := |chapters| - 1;
      ChaptersHtmlFailsIff(chapters[..n]);
      if ChaptersHtml(chapters).Err? && ChaptersHtml(chapters[..n]).Ok? {
        assert ChapterHtml(chapters[n]).Err?;
      }
      if exists i :: 0 <= i < |chapters| && ChapterHtml(chapters[i]).Err? {
        var i :| 0 <= i < |chapters| && ChapterHtml(chapters[i]).Err?;
        if i < n {
          assert chapters[..n][i] == chapters[i];
        }
      }
    }
  }

  /** An empty chapter list gives an empty text; one chapter gives its
      paragraph, title in bold, then a line break and a tab. */
  lemma OneChapter(title: string, content: string)
    ensures ChaptersHtml([]) == Ok("")
    ensures ChaptersHtml([Chapter(Some(title), Some(content))])
         == Ok("<p><strong>" + title + "</strong><br/>\n\t" + content + "</p>\n")
  {
    var c := Chapter(Some(title), Some(content));
    assert [c][..0] == [];
    var piece := "<p><strong>" + title + "</strong><br/>\n\t" + content + "</p>\n";
    assert ChapterHtml(c) == Ok(piece);
    assert "" + piece == piece;
  }
}
