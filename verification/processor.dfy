/** The help-page pipeline: `TranscriptEnhancer` (the `improved` directory
    and the completion call), `VideoProcessor.process_video`, and the loop
    that processes every video of the channel. */
module Processor {
  import opened Wrappers
  import opened PyStr
  import opened VideoRecord
  import PageFilename
  import PageRender
  import opened Toc
  import opened Captions

  /** The calls into services the model does not see. */
  datatype Services = Services(
    nfkd: string -> string,                        // unicodedata.normalize('NFKD', title)
    getTranscript: string -> Option<seq<string>>,  // segment texts of the French transcript; None when the call raises
    complete: string -> Option<string>)            // the chat completion for a transcript; None when the call raises

  /** The transcript text sent for enhancement: the segment texts joined by
      single spaces, with `[Musique]` removed. */
  function TranscriptText(segments: seq<string>): string
  {
    Clean(Join(" ", segments))
  }

  /** The clean-up applied to every completion. */
  function Polish(completion: string): string
  {
    ReplaceAll(completion, "</p> <p>", "</p>\n<p>")
  }

  /** `TranscriptEnhancer`; `improved` holds the files of the `improved`
      directory by name. */
  class TranscriptEnhancer {
    var improved: map<string, string>

    constructor (improved: map<string, string>)
      ensures this.improved == improved
    {
      this.improved := improved;
    }

    /** `get_existing_enhanced_transcript`: the file `improved/baseName`,
        if it exists. */
    function GetExistingEnhancedTranscript(baseName: string): Option<string>
      reads this
    {
      if baseName in improved then Some(improved[baseName]) else None
    }

    /** `enhance_transcript`: asks for a completion, polishes it, and saves
        it under `baseName` unless that is empty. */
    method EnhanceTranscript(transcript: string, baseName: string, complete: string -> Option<string>)
      returns (r: Option<string>)
      modifies this
      ensures r == (if complete(transcript).Some? then Some(Polish(complete(transcript).value)) else None)
      ensures improved == if r.Some? && baseName != "" then old(improved)[baseName := r.value] else old(improved)
      ensures r.Some? && baseName != "" ==> GetExistingEnhancedTranscript(baseName) == r
      ensures forall n :: n != baseName ==> GetExistingEnhancedTranscript(n) == old(GetExistingEnhancedTranscript(n))
    {
      var response := complete(transcript);
      if response.None? {
        return None;
      }
      var enhanced := ReplaceAll(response.value, "</p> <p>", "</p>\n<p>");
      if baseName != "" {
        improved := improved[baseName := enhanced];
      }
      return Some(enhanced);
    }
  }

  /** A transcript saved by an enhancement is the one found afterwards
      under the same name, and the lookup of every other name is unchanged. */
  method EnhanceThenFind(e: TranscriptEnhancer, transcript: string, baseName: string,
                         complete: string -> Option<string>, other: string)
    returns (enhanced: Option<string>, found: Option<string>, otherFound: Option<string>)
    modifies e
    ensures enhanced.Some? && baseName != "" ==> found == enhanced
    ensures enhanced.None? || baseName == "" ==> found == old(e.GetExistingEnhancedTranscript(baseName))
    ensures other != baseName ==> otherFound == old(e.GetExistingEnhancedTranscript(other))
  {
    enhanced := e.EnhanceTranscript(transcript, baseName, complete);
    found := e.GetExistingEnhancedTranscript(baseName);
    otherFound := e.GetExistingEnhancedTranscript(other);
  }

  /** Why `process_video` gave up; the source logs the error and returns. */
  datatype Failure =
    | TocUnreadable           // a TOC page without href
    | NoTranscript            // the transcript call raised
    | NoEnhancedTranscript    // the enhancement returned None, so generate_html raised

  datatype Status = AlreadyListed | Added | Failed(reason: Failure)

  /** The enhanced transcript `process_video` uses: the saved one when
      enhancement is not forced and a saved one exists, otherwise the
      answer of a new enhancement request. */
  function ChosenTranscript(force: bool, improved: map<string, string>, transcriptName: string,
                            text: string, complete: string -> Option<string>): Option<string>
  {
    if !force && transcriptName in improved then Some(improved[transcriptName])
    else if complete(text).Some? then Some(Polish(complete(text).value))
    else None
  }

  /** Every page of `pages` under `../contents/` is a key of `files`. */
  predicate Covered(pages: seq<Option<string>>, files: map<string, string>)
  {
    forall i :: 0 <= i < |pages| && pages[i].Some? && StartsWith(pages[i].value, ContentsPrefix)
      ==> pages[i].value[|ContentsPrefix|..] in files
  }

  /** Writing a page and then listing it keeps every listed page written. */
  lemma CoveredAfterAdd(pages: seq<Option<string>>, files: map<string, string>, name: string, content: string)
    requires Covered(pages, files)
    ensures Covered(pages + [Some(ContentsPrefix + name)], files[name := content])
  {
    ListedPrefix(name);
    var pages' := pages + [Some(ContentsPrefix + name)];
    forall i | 0 <= i < |pages'| && pages'[i].Some? && StartsWith(pages'[i].value, ContentsPrefix)
      ensures pages'[i].value[|ContentsPrefix|..] in files[name := content]
    {
      if i < |pages| {
        assert pages'[i] == pages[i];
      }
    }
  }

  /** `VideoProcessor`, with the loaded page template and the files of the
      HTML output directory by name. */
  class VideoProcessor {
    const toc: TocManager
    const enhancer: TranscriptEnhancer
    const template: string
    var htmlFiles: map<string, string>

    constructor (toc: TocManager, enhancer: TranscriptEnhancer, template: string, htmlFiles: map<string, string>)
      ensures this.toc == toc && this.enhancer == enhancer
      ensures this.template == template && this.htmlFiles == htmlFiles
    {
      this.toc := toc;
      this.enhancer := enhancer;
      this.template := template;
      this.htmlFiles := htmlFiles;
    }

    /** Every TOC page under `../contents/` names a generated page. */
    predicate Consistent()
      reads this, toc
    {
      Covered(toc.pages, htmlFiles)
    }

    /** `process_video`: names the page after the title, and when the TOC
        does not list it yet, fetches and cleans the transcript, picks or
        requests the enhanced transcript, writes the page and lists it.
        Every error is swallowed; the status says what happened. */
    method ProcessVideo(video: Video, forceEnhancement: bool, services: Services)
      returns (processed: Video, status: Status)
      modifies this, toc, enhancer
      ensures processed == video.(htmlFilename := PageFilename.HtmlFilename(services.nfkd(video.title)))
      ensures var name := processed.htmlFilename;
        && (status == Failed(TocUnreadable) <==> Listed(old(toc.pages), name).Err?)
        && (status == AlreadyListed <==> Listed(old(toc.pages), name) == Ok(true))
        && (status == Failed(NoTranscript) <==>
              Listed(old(toc.pages), name) == Ok(false) && services.getTranscript(video.videoId).None?)
      ensures var name := processed.htmlFilename;
        var transcriptName := PageFilename.TranscriptFilename(services.nfkd(video.title));
        Listed(old(toc.pages), name) == Ok(false) && services.getTranscript(video.videoId).Some? ==>
          var text := TranscriptText(services.getTranscript(video.videoId).value);
          var chosen := ChosenTranscript(forceEnhancement, old(enhancer.improved), transcriptName, text, services.complete);
          && status == (if chosen.Some? then Added else Failed(NoEnhancedTranscript))
          && (status == Added ==>
                htmlFiles == old(htmlFiles)[name := PageRender.GenerateHtml(template, processed, chosen).value])
          && enhancer.improved ==
               (if (forceEnhancement || transcriptName !in old(enhancer.improved)) && chosen.Some?
                then old(enhancer.improved)[transcriptName := chosen.value]
                else old(enhancer.improved))
      ensures status != Added ==> htmlFiles == old(htmlFiles)
      ensures status == AlreadyListed || status == Failed(TocUnreadable) || status == Failed(NoTranscript)
        ==> enhancer.improved == old(enhancer.improved)
      ensures toc.pages == if status == Added then old(toc.pages) + [Some(ContentsPrefix + processed.htmlFilename)]
                           else old(toc.pages)
      ensures status == Added ==> Listed(toc.pages, processed.htmlFilename) == Ok(true)
      ensures old(Consistent()) ==> Consistent()
    {
      var normalizedTitle := services.nfkd(video.title);
      var asciiTitle := PageFilename.Stem(normalizedTitle);
      processed := video.(htmlFilename := asciiTitle + ".htm");
      var listed := toc.IsVideoListed(processed.htmlFilename);
      if listed.Err? {
        return processed, Failed(TocUnreadable);
      }
      if listed.value {
        return processed, AlreadyListed;
      }
      var transcript := services.getTranscript(processed.videoId);
      if transcript.None? {
        return processed, Failed(NoTranscript);
      }
      var text := Join(" ", transcript.value);
      text := ReplaceAll(text, Musique, "");
      assert text == TranscriptText(transcript.value);
      var enhancedFileName := asciiTitle + "-transcript.txt";
      var enhancedTranscript: Option<string> := None;
      if !forceEnhancement {
        enhancedTranscript := enhancer.GetExistingEnhancedTranscript(enhancedFileName);
      }
      if enhancedTranscript.None? {
        enhancedTranscript := enhancer.EnhanceTranscript(text, enhancedFileName, services.complete);
      }
      assert enhancedTranscript
        == ChosenTranscript(forceEnhancement, old(enhancer.improved), enhancedFileName, text, services.complete);
      var htmlContent := PageRender.GenerateHtml(template, processed, enhancedTranscript);
      if htmlContent.None? {
        return processed, Failed(NoEnhancedTranscript);
      }
      ghost var before := toc.pages;
      ghost var written := htmlFiles;
      htmlFiles := htmlFiles[processed.htmlFilename := htmlContent.value];
      toc.AddVideo(processed.htmlFilename);
      AddedIsListed(before, processed.htmlFilename);
      if Covered(before, written) {
        CoveredAfterAdd(before, written, processed.htmlFilename, htmlContent.value);
      }
      status := Added;
    }
  }

  /** A title without any ASCII character is named `.htm`, which the
      suffix test finds in any table that lists some `.htm` page: such a
      video is never added. */
  lemma NonAsciiTitleNeverAdded(nfkdTitle: string, pages: seq<Option<string>>)
    requires forall i :: 0 <= i < |nfkdTitle| ==> !PageFilename.IsAscii(nfkdTitle[i])
    requires WellFormed(pages) && exists i :: 0 <= i < |pages| && EndsWith(pages[i].value, ".htm")
    ensures PageFilename.HtmlFilename(nfkdTitle) == ".htm"
    ensures Listed(pages, PageFilename.HtmlFilename(nfkdTitle)) == Ok(true)
  {
    PageFilename.AsciiOnlyOfNonAscii(nfkdTitle);
    assert PageFilename.Stem(nfkdTitle) == [];
    ListedIffSomeSuffix(pages, ".htm");
  }

  /** The href `add_video` writes points back at the page name. */
  lemma ListedPrefix(name: string)
    ensures StartsWith(ContentsPrefix + name, ContentsPrefix)
    ensures (ContentsPrefix + name)[|ContentsPrefix|..] == name
  {
  }

  /** Processing a video a second time adds nothing to the TOC once the
      first run listed it (or found it listed). */
  method ProcessTwice(vp: VideoProcessor, video: Video, services: Services)
    returns (first: Status, second: Status)
    modifies vp, vp.toc, vp.enhancer
    ensures first == Added || first == AlreadyListed ==> second == AlreadyListed
    ensures first == Added ==>
      vp.toc.pages == old(vp.toc.pages) + [Some(ContentsPrefix + PageFilename.HtmlFilename(services.nfkd(video.title)))]
    ensures first == AlreadyListed ==>
      vp.toc.pages == old(vp.toc.pages) && vp.htmlFiles == old(vp.htmlFiles)
      && vp.enhancer.improved == old(vp.enhancer.improved)
  {
    var v1, v2: Video;
    v1, first := vp.ProcessVideo(video, true, services);
    v2, second := vp.ProcessVideo(video, true, services);
  }

  /** The href the main loop lists for a loadable scrapetube entry. */
  function ChannelHref(d: VideoData, services: Services): string
    requires LoadFromScrapetubeData(d).Ok?
  {
    ContentsPrefix + PageFilename.HtmlFilename(services.nfkd(LoadFromScrapetubeData(d).value.title))
  }

  /** `page` is the href of one of the first `n` entries. */
  predicate FromEntry(page: Option<string>, videos: seq<VideoData>, n: nat, services: Services)
    requires n <= |videos|
  {
    exists j :: 0 <= j < n && LoadFromScrapetubeData(videos[j]).Ok? && page == Some(ChannelHref(videos[j], services))
  }

  /** Every page of `added` is the href of one of the first `n` entries. */
  predicate AddedFrom(added: seq<Option<string>>, videos: seq<VideoData>, n: nat, services: Services)
    requires n <= |videos|
  {
    forall k :: 0 <= k < |added| ==> FromEntry(added[k], videos, n, services)
  }

  /** Pages that come from the first `n` entries come from the first `m`. */
  lemma AddedFromMore(added: seq<Option<string>>, videos: seq<VideoData>, n: nat, m: nat, services: Services)
    requires n <= m <= |videos|
    requires AddedFrom(added, videos, n, services)
    ensures AddedFrom(added, videos, m, services)
  {
    forall k | 0 <= k < |added|
      ensures FromEntry(added[k], videos, m, services)
    {
      var j :| 0 <= j < n && LoadFromScrapetubeData(videos[j]).Ok? && added[k] == Some(ChannelHref(videos[j], services));
      assert j < m;
    }
  }

  /** `pages` is `start` followed by at most `n` pages, each the href of
      one of the first `n` entries. */
  predicate Grown(start: seq<Option<string>>, pages: seq<Option<string>>, videos: seq<VideoData>, n: nat, services: Services)
    requires n <= |videos|
  {
    start <= pages && |pages| <= |start| + n && AddedFrom(pages[|start|..], videos, n, services)
  }

  /** Growth by the first `n` entries is growth by the first `m`. */
  lemma GrownMore(start: seq<Option<string>>, pages: seq<Option<string>>, videos: seq<VideoData>, n: nat, m: nat, services: Services)
    requires n <= m <= |videos|
    requires Grown(start, pages, videos, n, services)
    ensures Grown(start, pages, videos, m, services)
  {
    AddedFromMore(pages[|start|..], videos, n, m, services);
  }

  /** Processing loadable entry `i` adds nothing or its own href. */
  lemma GrownStep(start: seq<Option<string>>, before: seq<Option<string>>, after: seq<Option<string>>,
                  videos: seq<VideoData>, i: nat, services: Services)
    requires i < |videos| && LoadFromScrapetubeData(videos[i]).Ok?
    requires Grown(start, before, videos, i, services)
    requires after == before || after == before + [Some(ChannelHref(videos[i], services))]
    ensures Grown(start, after, videos, i + 1, services)
  {
    AddedFromMore(before[|start|..], videos, i, i + 1, services);
    if after != before {
      assert after[|start|..] == before[|start|..] + [Some(ChannelHref(videos[i], services))];
      assert FromEntry(Some(ChannelHref(videos[i], services)), videos, i + 1, services);
    }
  }

  /** The dictionary the main loop saves for a loadable scrapetube entry:
      the record with its page name. */
  function EntryDict(d: VideoData, services: Services): seq<(string, JsonValue)>
    requires LoadFromScrapetubeData(d).Ok?
  {
    var v := LoadFromScrapetubeData(d).value;
    ToDict(v.(htmlFilename := PageFilename.HtmlFilename(services.nfkd(v.title))))
  }

  /** `list` holds the dictionaries of the first `n` entries, all loadable. */
  predicate Saved(list: seq<seq<(string, JsonValue)>>, videos: seq<VideoData>, n: nat, services: Services)
    requires n <= |videos|
  {
    |list| == n && forall j :: 0 <= j < n ==> LoadFromScrapetubeData(videos[j]).Ok? && list[j] == EntryDict(videos[j], services)
  }

  /** One pass of the main loop: load the scrapetube entry, process the
      record with forced enhancement and keep its dictionary. An entry that
      cannot be loaded changes nothing and gives the loading error. */
  method ProcessEntry(vp: VideoProcessor, d: VideoData, services: Services)
    returns (entry: Result<seq<(string, JsonValue)>, LoadError>)
    modifies vp, vp.toc, vp.enhancer
    ensures entry == if LoadFromScrapetubeData(d).Ok? then Ok(EntryDict(d, services))
                     else Err(LoadFromScrapetubeData(d).error)
    ensures entry.Err? ==>
      vp.toc.pages == old(vp.toc.pages) && vp.htmlFiles == old(vp.htmlFiles)
      && vp.enhancer.improved == old(vp.enhancer.improved)
    ensures vp.toc.pages == old(vp.toc.pages)
      || (entry.Ok? && vp.toc.pages == old(vp.toc.pages) + [Some(ChannelHref(d, services))])
    ensures old(vp.Consistent()) ==> vp.Consistent()
  {
    var loaded := LoadFromScrapetubeData(d);
    if loaded.Err? {
      return Err(loaded.error);
    }
    var processed, status := vp.ProcessVideo(loaded.value, true, services);
    entry := Ok(ToDict(processed));
  }

  /** The script's main loop: load each scrapetube entry, process it with
      forced enhancement, and collect the records' dictionaries. A record
      that cannot be loaded stops the script, so no list is produced. */
  method RunChannel(vp: VideoProcessor, videos: seq<VideoData>, services: Services)
    returns (videoList: Result<seq<seq<(string, JsonValue)>>, LoadError>)
    modifies vp, vp.toc, vp.enhancer
    ensures videoList.Ok? <==> forall i :: 0 <= i < |videos| ==> LoadFromScrapetubeData(videos[i]).Ok?
    ensures videoList.Err? ==>
      exists k :: 0 <= k < |videos| && LoadFromScrapetubeData(videos[k]) == Err(videoList.error)
        && forall j :: 0 <= j < k ==> LoadFromScrapetubeData(videos[j]).Ok?
    ensures videoList.Ok? ==> Saved(videoList.value, videos, |videos|, services)
    ensures Grown(old(vp.toc.pages), vp.toc.pages, videos, |videos|, services)
    ensures old(vp.Consistent()) ==> vp.Consistent()
  {
    var list: seq<seq<(string, JsonValue)>> := [];
    for i := 0 to |videos|
      invariant Saved(list, videos, i, services)
      invariant Grown(old(vp.toc.pages), vp.toc.pages, videos, i, services)
      invariant old(vp.Consistent()) ==> vp.Consistent()
    {
      ghost var before := vp.toc.pages;
      var entry := ProcessEntry(vp, videos[i], services);
      if entry.Err? {
        GrownMore(old(vp.toc.pages), vp.toc.pages, videos, i, |videos|, services);
        return Err(entry.error);
      }
      GrownStep(old(vp.toc.pages), before, vp.toc.pages, videos, i, services);
      list := list + [entry.value];
    }
    return Ok(list);
  }
}
