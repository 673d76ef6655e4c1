/** The RoboHelp table of contents, seen as the `href` attributes of its
    `page` elements in document order. */
module Toc {
  import opened Wrappers
  import opened PyStr

  /** The prefix `add_video` puts before a page file name. */
  const ContentsPrefix: string := "../contents/"

  /** `page.get('href')` returned `None`, so `.endswith` raised. */
  datatype TocError = PageWithoutHref

  /** What `is_video_listed(name)` returns for pages with these hrefs:
      `True` at the first href that ends with `name`, an error at a page
      without href met before that, `False` after the last page. */
  function Listed(pages: seq<Option<string>>, name: string): Result<bool, TocError>
  {
    if pages == [] then Ok(false)
    else if pages[0].None? then Err(PageWithoutHref)
    else if EndsWith(pages[0].value, name) then Ok(true)
    else Listed(pages[1..], name)
  }

  /** Every page has an href. */
  predicate WellFormed(pages: seq<Option<string>>)
  {
    forall i :: 0 <= i < |pages| ==> pages[i].Some?
  }

  /** `TOCManager`; `pages` holds the hrefs of the TOC file's pages. */
  class TocManager {
    var pages: seq<Option<string>>

    constructor (pages: seq<Option<string>>)
      ensures this.pages == pages
    {
      this.pages := pages;
    }

    /** `is_video_listed`: a suffix test on each href, in document order. */
    method IsVideoListed(videoHtmlFilename: string) returns (r: Result<bool, TocError>)
      ensures r == Listed(pages, videoHtmlFilename)
    {
      var i := 0;
      while i < |pages|
        invariant i <= |pages|
        invariant Listed(pages[i..], videoHtmlFilename) == Listed(pages, videoHtmlFilename)
      {
        var href := pages[i];
        assert pages[i..][1..] == pages[i + 1..];
        if href.None? {
          return Err(PageWithoutHref);
        }
        if EndsWith(href.value, videoHtmlFilename) {
          return Ok(true);
        }
        i := i + 1;
      }
      return Ok(false);
    }

    /** `add_video`: appends a page for the file, without any check. */
    method AddVideo(videoHtmlFilename: string)
      modifies this
      ensures pages == old(pages) + [Some(ContentsPrefix + videoHtmlFilename)]
    {
      pages := pages + [Some(ContentsPrefix + videoHtmlFilename)];
    }
  }

  /** On a well-formed table, a name is listed exactly when some href ends
      with it. */
  lemma {:induction false} ListedIffSomeSuffix(pages: seq<Option<string>>, name: string)
    requires WellFormed(pages)
    ensures Listed(pages, name) == Ok(exists i :: 0 <= i < |pages| && EndsWith(pages[i].value, name))
  {
    if pages != [] {
      ListedIffSomeSuffix(pages[1..], name);
      assert forall i :: 1 <= i < |pages| ==> pages[i] == pages[1..][i - 1];
    }
  }

  /** `False` means every page was read: the table is well formed and no
      href ends with the name. */
  lemma {:induction false} NotListedMeansWellFormed(pages: seq<Option<string>>, name: string)
    requires Listed(pages, name) == Ok(false)
    ensures WellFormed(pages)
    ensures forall i :: 0 <= i < |pages| ==> !EndsWith(pages[i].value, name)
  {
    if pages != [] {
      NotListedMeansWellFormed(pages[1..], name);
      assert forall i :: 1 <= i < |pages| ==> pages[i] == pages[1..][i - 1];
    }
  }

  /** After `add_video(name)` on a table where the name was not listed,
      the name is listed. */
  lemma {:induction false} AddedIsListed(pages: seq<Option<string>>, name: string)
    requires Listed(pages, name).Ok? && !Listed(pages, name).value
    ensures Listed(pages + [Some(ContentsPrefix + name)], name) == Ok(true)
  {
    if pages == [] {
      EndsWithConcat(ContentsPrefix, name);
    } else {
      AddedIsListed(pages[1..], name);
      assert (pages + [Some(ContentsPrefix + name)])[1..] == pages[1..] + [Some(ContentsPrefix + name)];
    }
  }

  /** Membership is a suffix test: `a.htm` counts as listed when the table
      only has `../contents/ba.htm`. */
  lemma SuffixMatchesLongerName()
    ensures Listed([Some(ContentsPrefix + "ba.htm")], "a.htm") == Ok(true)
  {
    EndsWithConcat(ContentsPrefix + "b", "a.htm");
    assert ContentsPrefix + "b" + "a.htm" == ContentsPrefix + "ba.htm";
  }
}
