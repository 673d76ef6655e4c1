/** The channel search script: each search result becomes an HTML snippet
    (a clickable card with the thumbnail, the title and the description),
    and the snippets are joined by line breaks. */
module ChannelSearch {
  import opened Wrappers
  import opened PyStr
  import opened HtmlEscape

  const WatchPrefix: string := "https://www.youtube.com/watch?v="

  /** `generate_youtube_url`. */
  function GenerateYoutubeUrl(videoId: string): (url: string)
    ensures StartsWith(url, WatchPrefix)
    ensures url[|WatchPrefix|..] == videoId
  {
    WatchPrefix + videoId
  }

  /** The fixed text of the snippet between the inserted values. */
  const ItemOpen: string := "<div class=\"video-item\" onclick=\"window.open('"
  const AfterUrl: string := "', '_blank')\">\n    <img src=\""
  const AfterThumbnail: string := "\" alt=\"Thumbnail for video titled "
  const AfterAlt: string := "\">" + "\n    <div class=\"video-details\">\n       <strong>"
  const AfterTitle: string := "</strong>\n           <p>"
  const ItemClose: string := "</p>\n       </div>\n    </div>"

  /** `generate_video_item_html`: title and description are escaped once;
      the `alt` text escapes the escaped title again; the URL and the
      thumbnail URL go in as they are. */
  function GenerateVideoItemHtml(videoId: string, title: string, description: string, thumbnailUrl: string): string
  {
    var videoUrl := GenerateYoutubeUrl(videoId);
    var escapedTitle := Escape(title);
    var escapedDescription := Escape(description);
    ItemOpen + videoUrl + AfterUrl + thumbnailUrl + AfterThumbnail + Escape(escapedTitle)
      + AfterAlt + escapedTitle + AfterTitle + escapedDescription + ItemClose
  }

  /** The text before the first `stop`, or all of `s`. */
  function TakeUntil(s: string, stop: char): (r: string)
    ensures StartsWith(s, r) && stop !in r
    ensures r == s || s[|r|] == stop
  {
    if s == [] || s[0] == stop then [] else [s[0]] + TakeUntil(s[1..], stop)
  }

  lemma {:induction false} TakeUntilConcat(x: string, rest: string, stop: char)
    requires stop !in x
    requires rest == [] || rest[0] == stop
    ensures TakeUntil(x + rest, stop) == x
  {
    if x == [] {
      assert x + rest == rest;
    } else {
      TakeUntilConcat(x[1..], rest, stop);
      assert (x + rest)[1..] == x[1..] + rest;
    }
  }

  /** Reads the fixed text `lit`, then a value up to `stop`; gives the value
      and what follows it. */
  function Field(s: string, lit: string, stop: char): Option<(string, string)>
  {
    if !StartsWith(s, lit) then None
    else
      var t := s[|lit|..];
      var value := TakeUntil(t, stop);
      Some((value, t[|value|..]))
  }

  lemma FieldOf(lit: string, x: string, rest: string, stop: char)
    requires stop !in x
    requires rest == [] || rest[0] == stop
    ensures Field(lit + x + rest, lit, stop) == Some((x, rest))
  {
    var s := lit + x + rest;
    assert s[..|lit|] == lit;
    assert s[|lit|..] == x + rest;
    TakeUntilConcat(x, rest, stop);
    assert (x + rest)[|x|..] == rest;
  }

  /** The values a snippet shows. */
  datatype ItemFields = ItemFields(videoUrl: string, thumbnailUrl: string, alt: string, title: string, description: string)

  /** Reads the values back out of a snippet. */
  function ParseVideoItem(h: string): Option<ItemFields>
  {
    match Field(h, ItemOpen, '\'')
    case None => None
    case Some((url, r1)) =>
      match Field(r1, AfterUrl, '"')
      case None => None
      case Some((thumbnail, r2)) =>
        match Field(r2, AfterThumbnail, '"')
        case None => None
        case Some((alt, r3)) =>
          match Field(r3, AfterAlt, '<')
          case None => None
          case Some((title, r4)) =>
            match Field(r4, AfterTitle, '<')
            case None => None
            case Some((description, r5)) =>
              if r5 == ItemClose then Some(ItemFields(url, thumbnail, alt, title, description)) else None
  }

  /** Regrouping the eleven pieces of a snippet. */
  lemma Nest(a: string, b: string, c: string, d: string, e: string, f: string, g: string, h: string, i: string, j: string, k: string)
    ensures a + b + c + d + e + f + g + h + i + j + k
         == a + b + (c + d + (e + f + (g + h + (i + j + k))))
  {
    var r4 := i + j + k;
    var r3 := g + h + r4;
    var r2 := e + f + r3;
    assert a + b + c + d + e + f + g + h + i + j + k == a + b + c + d + e + f + g + h + r4;
    assert a + b + c + d + e + f + g + h + r4 == a + b + c + d + e + f + r3;
    assert a + b + c + d + e + f + r3 == a + b + c + d + r2;
    assert a + b + c + d + r2 == a + b + (c + d + r2);
  }

  /** Every snippet ends with the closing tags of its card. */
  lemma VideoItemEndsWithClose(videoId: string, title: string, description: string, thumbnailUrl: string)
    ensures EndsWith(GenerateVideoItemHtml(videoId, title, description, thumbnailUrl), ItemClose)
  {
    var videoUrl := GenerateYoutubeUrl(videoId);
    var escapedTitle := Escape(title);
    EndsWithConcat(ItemOpen + videoUrl + AfterUrl + thumbnailUrl + AfterThumbnail + Escape(escapedTitle)
      + AfterAlt + escapedTitle + AfterTitle + Escape(description), ItemClose);
  }

  /** A snippet assembled from values that hold no stop character of the
      field they fill is read back into those values. */
  lemma ParseAssembled(url: string, thumbnail: string, alt: string, title: string, description: string)
    requires '\'' !in url && '"' !in thumbnail && '"' !in alt && '<' !in title && '<' !in description
    ensures ParseVideoItem(ItemOpen + url + (AfterUrl + thumbnail + (AfterThumbnail + alt
              + (AfterAlt + title + (AfterTitle + description + ItemClose)))))
         == Some(ItemFields(url, thumbnail, alt, title, description))
  {
    var r4 := AfterTitle + description + ItemClose;
    var r3 := AfterAlt + title + r4;
    var r2 := AfterThumbnail + alt + r3;
    var r1 := AfterUrl + thumbnail + r2;
    FieldOf(ItemOpen, url, r1, '\'');
    FieldOf(AfterUrl, thumbnail, r2, '"');
    assert r3[0] == '"';
    FieldOf(AfterThumbnail, alt, r3, '"');
    FieldOf(AfterAlt, title, r4, '<');
    FieldOf(AfterTitle, description, ItemClose, '<');
  }

  /** The watch URL holds a `'` only when the id does. */
  lemma UrlHasNoQuote(videoId: string)
    requires '\'' !in videoId
    ensures '\'' !in GenerateYoutubeUrl(videoId)
  {
    assert '\'' !in WatchPrefix;
    assert GenerateYoutubeUrl(videoId) == WatchPrefix + videoId;
  }

  /** The snippet is unambiguous: when the id holds no `'` and the thumbnail
      URL no `"`, every value is read back. The title and the description
      appear escaped once, the `alt` text escaped twice, and the two URLs
      unescaped. */
  lemma VideoItemRoundTrip(videoId: string, title: string, description: string, thumbnailUrl: string)
    requires '\'' !in videoId && '"' !in thumbnailUrl
    ensures var f := ParseVideoItem(GenerateVideoItemHtml(videoId, title, description, thumbnailUrl));
      && f == Some(ItemFields(GenerateYoutubeUrl(videoId), thumbnailUrl, Escape(Escape(title)), Escape(title), Escape(description)))
      && Unescape(f.value.title) == title
      && Unescape(f.value.description) == description
      && Unescape(Unescape(f.value.alt)) == title
  {
    var url := GenerateYoutubeUrl(videoId);
    var t := Escape(title);
    UrlHasNoQuote(videoId);
    Nest(ItemOpen, url, AfterUrl, thumbnailUrl, AfterThumbnail, Escape(t), AfterAlt, t, AfterTitle, Escape(description), ItemClose);
    ParseAssembled(url, thumbnailUrl, Escape(t), t, Escape(description));
    UnescapeEscape(title);
    UnescapeEscape(description);
    UnescapeEscape(t);
  }

  /** One result of the search API; each key that is read may be missing
      (a missing enclosing dictionary is shown as its keys missing). */
  datatype SearchItem = SearchItem(
    videoId: Option<string>,
    title: Option<string>,
    publishedAt: Option<string>,
    description: Option<string>,
    thumbnailUrl: Option<string>,
    thumbnailWidth: Option<int>,
    thumbnailHeight: Option<int>)

  /** A `KeyError` on the given key; it stops the script. */
  datatype SearchError = MissingKey(key: string)

  /** Every key that is read is present. */
  predicate Complete(item: SearchItem)
  {
    && item.videoId.Some? && item.title.Some? && item.publishedAt.Some? && item.description.Some?
    && item.thumbnailUrl.Some? && item.thumbnailWidth.Some? && item.thumbnailHeight.Some?
  }

  /** The snippet of one result; the keys are read in the order of the
      script, all of them, even those that are not shown. */
  function ItemHtml(item: SearchItem): Result<string, SearchError>
  {
    if item.videoId.None? then Err(MissingKey("videoId"))
    else if item.title.None? then Err(MissingKey("title"))
    else if item.publishedAt.None? then Err(MissingKey("publishedAt"))
    else if item.description.None? then Err(MissingKey("description"))
    else if item.thumbnailUrl.None? then Err(MissingKey("url"))
    else if item.thumbnailWidth.None? then Err(MissingKey("width"))
    else if item.thumbnailHeight.None? then Err(MissingKey("height"))
    else Ok(GenerateVideoItemHtml(item.videoId.value, item.title.value, item.description.value, item.thumbnailUrl.value))
  }

  /** The snippets of the results in API order, or the first error. */
  function ItemsHtml(items: seq<SearchItem>): Result<seq<string>, SearchError>
  {
    if items == [] then Ok([])
    else
      match ItemsHtml(items[..|items| - 1])
      case Err(e) => Err(e)
      case Ok(before) =>
        match ItemHtml(items[|items| - 1])
        case Err(e) => Err(e)
        case Ok(last) => Ok(before + [last])
  }

  lemma {:induction false} ItemsErrorPrefix(items: seq<SearchItem>, k: nat)
    requires k <= |items|
    requires ItemsHtml(items[..k]).Err?
    ensures ItemsHtml(items) == ItemsHtml(items[..k])
    decreases |items| - k
  {
    if k < |items| {
      assert items[..k + 1][..k] == items[..k];
      ItemsErrorPrefix(items, k + 1);
    } else {
      assert items[..k] == items;
    }
  }

  /** The module-level loop and join, ending in `full_html`; `items` is
      the response's `items` entry, `None` when the response has none. */
  method RenderSearchResults(items: Option<seq<SearchItem>>) returns (r: Result<string, SearchError>)
    ensures items.None? ==> r == Err(MissingKey("items"))
    ensures items.Some? ==>
              r == match ItemsHtml(items.value)
                   case Err(e) => Err(e)
                   case Ok(parts) => Ok(Join("\n", parts))
  {
    if items.None? {
      return Err(MissingKey("items"));
    }
    var results := items.value;
    var videoItemsHtml: seq<string> := [];
    for i := 0 to |results|
      invariant ItemsHtml(results[..i]) == Ok(videoItemsHtml)
    {
      assert results[..i + 1][..i] == results[..i];
      var item := results[i];
      var snippet := ItemHtml(item);
      if snippet.Err? {
        ItemsErrorPrefix(results, i + 1);
        return Err(snippet.error);
      }
      videoItemsHtml := videoItemsHtml + [snippet.value];
    }
    assert results[..|results|] == results;
    return Ok(Join("\n", videoItemsHtml));
  }

  /** One snippet per result, in the order of the API. */
  lemma {:induction false} ItemsHtmlInOrder(items: seq<SearchItem>)
    requires ItemsHtml(items).Ok?
    ensures |ItemsHtml(items).value| == |items|
    ensures forall i :: 0 <= i < |items| ==> ItemHtml(items[i]) == Ok(ItemsHtml(items).value[i])
  {
    if items != [] {
      var n := |items| - 1;
      ItemsHtmlInOrder(items[..n]);
      assert forall i :: 0 <= i < n ==> items[..n][i] == items[i];
    }
  }

  /** A rendered result ends with the closing tags of its card. */
  lemma ItemEndsWithClose(item: SearchItem)
    requires ItemHtml(item).Ok?
    ensures EndsWith(ItemHtml(item).value, ItemClose)
  {
    VideoItemEndsWithClose(item.videoId.value, item.title.value, item.description.value, item.thumbnailUrl.value);
  }

  /** The rendering fails exactly when some result lacks a key. */
  lemma {:induction false} ItemsHtmlFailsIff(items: seq<SearchItem>)
    ensures ItemsHtml(items).Err? <==> exists i :: 0 <= i < |items| && ItemHtml(items[i]).Err?
  {
    if ItemsHtml(items).Ok? {
      ItemsHtmlInOrder(items);
    } else {
      var n := |items| - 1;
      var front := items[..n];
      if ItemsHtml(front).Err? {
        ItemsHtmlFailsIff(front);
        var i :| 0 <= i < n && ItemHtml(front[i]).Err?;
        assert front[i] == items[i];
      } else {
        assert ItemHtml(items[n]).Err?;
      }
    }
  }

  /** A prefix of results with every key present renders. */
  lemma {:induction false} CompletePrefixRenders(items: seq<SearchItem>, k: nat)
    requires k <= |items|
    requires forall j :: 0 <= j < k ==> Complete(items[j])
    ensures ItemsHtml(items[..k]).Ok?
  {
    if k > 0 {
      CompletePrefixRenders(items, k - 1);
      assert items[..k][..k - 1] == items[..k - 1];
      assert items[..k][k - 1] == items[k - 1];
    }
  }

  /** The error reported is the one of the first result that lacks a key. */
  lemma {:induction false} ItemsHtmlFirstError(items: seq<SearchItem>, k: nat)
    requires k < |items|
    requires forall j :: 0 <= j < k ==> Complete(items[j])
    requires !Complete(items[k])
    ensures ItemsHtml(items) == Err(ItemHtml(items[k]).error)
  {
    var n := |items| - 1;
    if k == n {
      CompletePrefixRenders(items, k);
    } else {
      assert items[..n][k] == items[k];
      assert forall j :: 0 <= j < k ==> items[..n][j] == items[j];
      ItemsHtmlFirstError(items[..n], k);
      ItemsErrorPrefix(items, n);
    }
  }

  /** The joined page: empty for no results, otherwise it ends with the
      last snippet's closing tag, so there is no trailing line break. */
  lemma FullHtmlShape(items: seq<SearchItem>)
    requires ItemsHtml(items).Ok?
    ensures items == [] ==> Join("\n", ItemsHtml(items).value) == ""
    ensures items != [] ==> EndsWith(Join("\n", ItemsHtml(items).value), ItemClose)
  {
    ItemsHtmlInOrder(items);
    if items != [] {
      var parts := ItemsHtml(items).value;
      JoinEndsWithLast("\n", parts);
      ItemEndsWithClose(items[|items| - 1]);
      EndsWithTrans(Join("\n", parts), parts[|parts| - 1], ItemClose);
    }
  }
}
