/**
 * The capture logic of the `WEO` class: fetching the page, localising its
 * stylesheets and scripts, requesting its images and videos, and naming the
 * cache files. Network and file system are outside the model: the page fetch
 * is a function from URL to the data task's reply, `downloadContent` is a
 * function from URL string to optional content, and every file the code
 * writes is recorded as a `FileWrite`.
 */
module Weo {
  import opened Wrappers
  import opened Strings
  import opened Patterns
  import Utf8

  /** A Foundation URL, reduced to the two parts the code reads. */
  datatype URL = URL(scheme: Option<string>, lastPathComponent: string)

  /** The error value a data task reports; it is passed on as it is. */
  datatype TransportError = TransportError(description: string)

  /** What a data task hands to its completion handler (the response object is not read). */
  datatype Reply = Reply(data: Option<seq<Utf8.byte>>, error: Option<TransportError>)

  datatype Error =
    | WeboffError(code: int, description: string)  // NSError in domain "WeboffError"
    | Transport(cause: TransportError)

  const HttpsOnly: Error := WeboffError(401, "Apenas URLs HTTPS s\U{E3}o permitidas.")
  const NotText: Error := WeboffError(402, "Erro ao converter dados para string.")

  /** The result of `deepHTMLScan` and the requests it issued. */
  datatype Scanned = Scanned(result: Result<string, Error>, requests: seq<URL>)

  /** A file the capture writes into the cache directory. */
  datatype FileWrite = FileWrite(directory: string, name: string, contents: string)

  // ---------------------------------------------------------------------
  // deepHTMLScan

  /**
   * Refuses any scheme but "https" before issuing a request; otherwise
   * fetches once and passes on the transport's error, or fails with 402 when
   * there is no data or it is not UTF-8, or succeeds with the decoded text.
   */
  function DeepHTMLScan(url: URL, fetch: URL -> Reply): Scanned
  {
    if url.scheme != Some("https") then Scanned(Failure(HttpsOnly), [])
    else
      var reply := fetch(url);
      if reply.error.Some? then Scanned(Failure(Transport(reply.error.value)), [url])
      else if reply.data.None? then Scanned(Failure(NotText), [url])
      else match Utf8.Decode(reply.data.value)
        case None => Scanned(Failure(NotText), [url])
        case Some(html) => Scanned(Success(html), [url])
  }

  /** The four outcomes of `deepHTMLScan`. */
  lemma DeepHTMLScanOutcomes(url: URL, fetch: URL -> Reply)
    ensures var r := DeepHTMLScan(url, fetch);
      && (url.scheme != Some("https") ==> r.result == Failure(HttpsOnly) && r.requests == [])
      && (url.scheme == Some("https") ==> r.requests == [url])
      && (url.scheme == Some("https") && fetch(url).error.Some? ==>
            r.result == Failure(Transport(fetch(url).error.value)))
      && (url.scheme == Some("https") && fetch(url).error.None? ==>
            && (forall html :: r.result == Success(html) <==> fetch(url).data == Some(Utf8.Encode(html)))
            && (r.result.Failure? ==> r.result.error == NotText))
  {
    var r := DeepHTMLScan(url, fetch);
    var reply := fetch(url);
    if url.scheme == Some("https") && reply.error.None? {
      forall html
        ensures r.result == Success(html) <==> reply.data == Some(Utf8.Encode(html))
      {
        if reply.data.Some? {
          Utf8.DecodeIff(reply.data.value, html);
        }
      }
    }
  }

  /** Which error codes the scan produces, and when. */
  lemma DeepHTMLScanCodes(url: URL, fetch: URL -> Reply)
    ensures var r := DeepHTMLScan(url, fetch);
      && (r.result == Failure(HttpsOnly) <==> url.scheme != Some("https"))
      && (r.result == Failure(NotText) <==>
            && url.scheme == Some("https") && fetch(url).error.None?
            && forall html :: fetch(url).data != Some(Utf8.Encode(html)))
  {
    var reply := fetch(url);
    if url.scheme == Some("https") && reply.error.None? && reply.data.Some? {
      match Utf8.Decode(reply.data.value)
      case None =>
        forall html
          ensures reply.data.value != Utf8.Encode(html)
        {
          Utf8.DecodeIff(reply.data.value, html);
        }
      case Some(html) =>
        Utf8.DecodeIff(reply.data.value, html);
    }
  }

  // ---------------------------------------------------------------------
  // Cache file names (saveCSSContent, saveJavaScriptContent, saveHTMLContent)

  /** `url.replacingOccurrences(of: "/", with: "_")`. */
  function CacheFileName(url: string): (name: string)
    ensures |name| == |url|
    ensures forall i :: 0 <= i < |url| ==> name[i] == if url[i] == '/' then '_' else url[i]
    ensures '/' !in name
  {
    ReplaceCharPointwise(url, '/', '_');
    ReplaceAll(url, "/", "_")
  }

  /** The file `saveCSSContent` or `saveJavaScriptContent` writes, if there is a cache directory. */
  function ContentFile(contents: string, url: string, cacheDir: Option<string>): seq<FileWrite>
  {
    match cacheDir
    case None => []
    case Some(dir) => [FileWrite(dir, CacheFileName(url), contents)]
  }

  /** The file `saveHTMLContent` writes, if there is a cache directory. */
  function HtmlFile(url: URL, html: string, cacheDir: Option<string>): seq<FileWrite>
  {
    match cacheDir
    case None => []
    case Some(dir) => [FileWrite(dir, CacheFileName(url.lastPathComponent), html)]
  }

  // ---------------------------------------------------------------------
  // The rewrite performed by saveCSS and saveJavaScript

  /** One rewrite step: every occurrence of `url` becomes "local://" + `url`. */
  function Localize(text: string, url: string): string
  {
    ReplaceAll(text, url, "local://" + url)
  }

  /** The elements of `xs` that `keep` accepts, in order. */
  function Filter(xs: seq<string>, keep: string -> bool): (r: seq<string>)
    ensures |r| <= |xs|
    ensures forall x <- r :: x in xs && keep(x)
    ensures forall x <- xs :: keep(x) ==> x in r
  {
    if |xs| == 0 then [] else (if keep(xs[0]) then [xs[0]] else []) + Filter(xs[1..], keep)
  }

  lemma FilterStep(xs: seq<string>, k: nat, keep: string -> bool)
    requires k < |xs|
    ensures Filter(xs[k..], keep) == (if keep(xs[k]) then [xs[k]] else []) + Filter(xs[k + 1..], keep)
  {
    assert xs[k..][0] == xs[k] && xs[k..][1..] == xs[k + 1..];
  }

  /** The links whose download yields content. */
  function Downloaded(links: seq<string>, download: string -> Option<string>): seq<string>
  {
    Filter(links, u => download(u).Some?)
  }

  /**
   * The text after the loop over `links`: each link whose download succeeds
   * is localised in the text as it stands at that point; each failed one
   * leaves the text as it is.
   */
  function RewriteLinks(text: string, links: seq<string>, download: string -> Option<string>): string
    decreases |links|
  {
    if |links| == 0 then text
    else
      var next := if download(links[0]).Some? then Localize(text, links[0]) else text;
      RewriteLinks(next, links[1..], download)
  }

  /** Localising every URL of `urls` in turn. */
  function LocalizeAll(text: string, urls: seq<string>): string
    decreases |urls|
  {
    if |urls| == 0 then text else LocalizeAll(Localize(text, urls[0]), urls[1..])
  }

  /** The file written for `url`: none when its download fails. */
  function DownloadWrite(url: string, download: string -> Option<string>, cacheDir: Option<string>): seq<FileWrite>
  {
    match download(url)
    case None => []
    case Some(c) => ContentFile(c, url, cacheDir)
  }

  /** The files the loop over `links` writes: one per successful download, in order. */
  function ContentWrites(links: seq<string>, download: string -> Option<string>, cacheDir: Option<string>): seq<FileWrite>
    decreases |links|
  {
    if |links| == 0 then []
    else DownloadWrite(links[0], download, cacheDir) + ContentWrites(links[1..], download, cacheDir)
  }

  /** A link that does not download leaves the text as it was. */
  lemma {:induction false} RewriteUnchangedWhenNothingDownloads(text: string, links: seq<string>, download: string -> Option<string>)
    requires forall u <- links :: download(u).None?
    ensures RewriteLinks(text, links, download) == text
    decreases |links|
  {
    if |links| > 0 {
      assert links[0] in links;
      assert forall u <- links[1..] :: u in links;
      RewriteUnchangedWhenNothingDownloads(text, links[1..], download);
    }
  }

  /**
   * The loop performs exactly one localising step per successful download,
   * in document order, and writes one file for each of them.
   */
  lemma RewriteIsOneStepPerDownload(text: string, links: seq<string>, download: string -> Option<string>, dir: string)
    ensures RewriteLinks(text, links, download) == LocalizeAll(text, Downloaded(links, download))
    ensures var ws := ContentWrites(links, download, Some(dir));
      && |ws| == |Downloaded(links, download)|
      && forall k :: 0 <= k < |ws| ==>
           ws[k].directory == dir && ws[k].name == CacheFileName(Downloaded(links, download)[k])
           && Some(ws[k].contents) == download(Downloaded(links, download)[k])
  {
    RewriteFollowsDownloads(text, links, download);
    WritesFollowDownloads(links, download, dir);
  }

  lemma {:induction false} RewriteFollowsDownloads(text: string, links: seq<string>, download: string -> Option<string>)
    ensures RewriteLinks(text, links, download) == LocalizeAll(text, Downloaded(links, download))
    decreases |links|
  {
    if |links| > 0 {
      var u := links[0];
      var rest := Downloaded(links[1..], download);
      RewriteFollowsDownloads(if download(u).Some? then Localize(text, u) else text, links[1..], download);
      if download(u).Some? {
        assert Downloaded(links, download) == [u] + rest;
        assert ([u] + rest)[1..] == rest;
      } else {
        assert Downloaded(links, download) == rest;
      }
    }
  }

  lemma {:induction false} WritesFollowDownloads(links: seq<string>, download: string -> Option<string>, dir: string)
    ensures var ws := ContentWrites(links, download, Some(dir));
      && |ws| == |Downloaded(links, download)|
      && forall k :: 0 <= k < |ws| ==>
           ws[k].directory == dir && ws[k].name == CacheFileName(Downloaded(links, download)[k])
           && Some(ws[k].contents) == download(Downloaded(links, download)[k])
    decreases |links|
  {
    if |links| > 0 {
      var u := links[0];
      var rest := Downloaded(links[1..], download);
      WritesFollowDownloads(links[1..], download, dir);
      if download(u).Some? {
        assert Downloaded(links, download) == [u] + rest;
      } else {
        assert Downloaded(links, download) == rest;
      }
    }
  }

  /**
   * A localising step replaces every occurrence of a non-empty URL: the text
   * is cut at the occurrences found from left to right, none of the pieces
   * contains the URL, and the pieces are glued back with "local://" + URL.
   * An empty URL leaves the text as it is.
   */
  lemma LocalizeReplacesEveryOccurrence(text: string, url: string)
    ensures |url| == 0 ==> Localize(text, url) == text
    ensures |url| > 0 ==>
      && Join(Split(text, url), url) == text
      && (forall piece <- Split(text, url) :: !Contains(piece, url))
      && Localize(text, url) == Join(Split(text, url), "local://" + url)
  {
    if |url| > 0 {
      JoinSplit(text, url);
      SplitPiecesFree(text, url);
      ReplaceAllIsJoinOfSplit(text, url, "local://" + url);
    }
  }

  /** A localising step changes the text exactly when the URL is non-empty and occurs in it. */
  lemma LocalizeChangesIff(text: string, url: string)
    ensures Localize(text, url) != text <==> |url| > 0 && Contains(text, url)
  {
    if |url| > 0 {
      ReplaceAllChangesIff(text, url, "local://" + url);
    }
  }

  // ---------------------------------------------------------------------
  // The loops of the capture

  /**
   * The loop shared by `saveCSS` and `saveJavaScript`: the matches are taken
   * from the original `html`; for each, the URL is downloaded, and on success
   * its file is written and the URL localised in the running text.
   */
  method LocalizeResources(pat: Pattern, html: string, download: string -> Option<string>, cacheDir: Option<string>)
    returns (updatedHTML: string, writes: seq<FileWrite>)
    ensures updatedHTML == RewriteLinks(html, Extract(pat, html), download)
    ensures writes == ContentWrites(Extract(pat, html), download, cacheDir)
  {
    var matches := Scan(pat, html, 0);
    ghost var links := Extract(pat, html);
    assert |links| == |matches|;
    updatedHTML := html;
    writes := [];
    for k := 0 to |matches|
      invariant |links| == |matches|
      invariant RewriteLinks(updatedHTML, links[k..], download) == RewriteLinks(html, links, download)
      invariant writes + ContentWrites(links[k..], download, cacheDir) == ContentWrites(links, download, cacheDir)
    {
      ExtractAt(pat, html, k);
      var link := html[matches[k].capStart..matches[k].capEnd];
      RewriteStep(updatedHTML, links, k, download, cacheDir);
      ghost var before := writes;
      match download(link) {
        case Some(content) =>
          writes := writes + ContentFile(content, link, cacheDir);
          updatedHTML := ReplaceAll(updatedHTML, link, "local://" + link);
        case None =>
      }
      assert writes == before + DownloadWrite(link, download, cacheDir);
      ConcatAssociative(before, DownloadWrite(link, download, cacheDir), ContentWrites(links[k + 1..], download, cacheDir));
    }
  }

  /** One turn of the loop over `links`, from index k. */
  lemma RewriteStep(text: string, links: seq<string>, k: nat, download: string -> Option<string>, cacheDir: Option<string>)
    requires k < |links|
    ensures var next := if download(links[k]).Some? then Localize(text, links[k]) else text;
      RewriteLinks(text, links[k..], download) == RewriteLinks(next, links[k + 1..], download)
    ensures ContentWrites(links[k..], download, cacheDir)
      == DownloadWrite(links[k], download, cacheDir) + ContentWrites(links[k + 1..], download, cacheDir)
  {
    assert links[k..][0] == links[k] && links[k..][1..] == links[k + 1..];
  }

  method SaveCSS(html: string, download: string -> Option<string>, cacheDir: Option<string>)
    returns (updatedHTML: string, writes: seq<FileWrite>)
    ensures updatedHTML == RewriteLinks(html, Extract(Stylesheet, html), download)
    ensures writes == ContentWrites(Extract(Stylesheet, html), download, cacheDir)
  {
    updatedHTML, writes := LocalizeResources(Stylesheet, html, download, cacheDir);
  }

  method SaveJavaScript(html: string, download: string -> Option<string>, cacheDir: Option<string>)
    returns (updatedHTML: string, writes: seq<FileWrite>)
    ensures updatedHTML == RewriteLinks(html, Extract(Script, html), download)
    ensures writes == ContentWrites(Extract(Script, html), download, cacheDir)
  {
    updatedHTML, writes := LocalizeResources(Script, html, download, cacheDir);
  }

  /** The URLs a media loop hands to `downloadContent`, one per match, in order. */
  method RequestMatches(pat: Pattern, html: string) returns (requested: seq<string>)
    ensures requested == Extract(pat, html)
  {
    var matches := Scan(pat, html, 0);
    requested := [];
    for k := 0 to |matches|
      invariant requested == Extract(pat, html)[..k]
    {
      requested := requested + [html[matches[k].capStart..matches[k].capEnd]];
    }
  }

  /** `downloadImages`: requests every image URL (the content is discarded). */
  method DownloadImages(html: string) returns (requested: seq<string>)
    ensures requested == Extract(Image, html)
    ensures forall u <- requested :: IsMediaUrl(u, ImageExtensions) && Avoids(u, Quotes)
  {
    requested := RequestMatches(Image, html);
    ImagesHaveImageExtensions(html);
  }

  /** `downloadVideos`: requests every video URL (the content is discarded). */
  method DownloadVideos(html: string) returns (requested: seq<string>)
    ensures requested == Extract(Video, html)
    ensures forall u <- requested :: IsMediaUrl(u, VideoExtensions) && Avoids(u, Quotes)
  {
    requested := RequestMatches(Video, html);
    VideosHaveVideoExtensions(html);
  }

  /**
   * `extractLinks`: the href URLs in document order, keeping those that
   * `URL(string:)` accepts (`parses`).
   */
  method ExtractLinks(html: string, parses: string -> bool) returns (links: seq<string>)
    ensures links == Filter(Extract(Href, html), parses)
    ensures forall u <- links :: IsHttpUrl(u) && Avoids(u, Quotes) && parses(u)
  {
    var matches := Scan(Href, html, 0);
    ghost var found := Extract(Href, html);
    assert |found| == |matches|;
    links := [];
    for k := 0 to |matches|
      invariant |found| == |matches|
      invariant links + Filter(found[k..], parses) == Filter(found, parses)
    {
      ExtractAt(Href, html, k);
      var candidate := html[matches[k].capStart..matches[k].capEnd];
      FilterStep(found, k, parses);
      ghost var before := links;
      if parses(candidate) {
        links := links + [candidate];
      }
      assert links == before + (if parses(found[k]) then [found[k]] else []);
      ConcatAssociative(before, if parses(found[k]) then [found[k]] else [], Filter(found[k + 1..], parses));
    }
    KeptLinksAreHttpUrls(html, parses);
  }

  /** Every link `extractLinks` keeps is an http(s) URL that `URL(string:)` accepts. */
  lemma KeptLinksAreHttpUrls(html: string, parses: string -> bool)
    ensures forall u <- Filter(Extract(Href, html), parses) :: IsHttpUrl(u) && Avoids(u, Quotes) && parses(u)
  {
    LinksAreHttpUrls(html);
  }

  // ---------------------------------------------------------------------
  // compilePage

  /** The page after `saveCSS` and then `saveJavaScript`. */
  function CompiledHTML(html: string, download: string -> Option<string>): string
  {
    var afterCSS := RewriteLinks(html, Extract(Stylesheet, html), download);
    RewriteLinks(afterCSS, Extract(Script, afterCSS), download)
  }

  /** The files a successful compilation writes, in order. */
  function PageWrites(html: string, url: URL, download: string -> Option<string>, cacheDir: Option<string>): seq<FileWrite>
  {
    var afterCSS := RewriteLinks(html, Extract(Stylesheet, html), download);
    ContentWrites(Extract(Stylesheet, html), download, cacheDir)
      + ContentWrites(Extract(Script, afterCSS), download, cacheDir)
      + HtmlFile(url, CompiledHTML(html, download), cacheDir)
  }

  /** The URLs a successful compilation hands to `downloadContent`, in order. */
  function PageDownloads(html: string, download: string -> Option<string>): seq<string>
  {
    var afterCSS := RewriteLinks(html, Extract(Stylesheet, html), download);
    var page := CompiledHTML(html, download);
    Extract(Stylesheet, html) + Extract(Script, afterCSS) + Extract(Image, page) + Extract(Video, page)
  }

  /**
   * `compilePage`: a failed scan is forwarded unchanged and nothing else
   * happens; on success the page is localised, its media requested, the page
   * saved, and the input URL reported.
   */
  method CompilePage(url: URL, fetch: URL -> Reply, download: string -> Option<string>, cacheDir: Option<string>)
    returns (result: Result<URL, Error>, writes: seq<FileWrite>, downloads: seq<string>)
    ensures var scan := DeepHTMLScan(url, fetch).result;
      && (scan.Failure? ==> result == Failure(scan.error) && writes == [] && downloads == [])
      && (scan.Success? ==>
            && result == Success(url)
            && writes == PageWrites(scan.value, url, download, cacheDir)
            && downloads == PageDownloads(scan.value, download))
  {
    var scan := DeepHTMLScan(url, fetch);
    match scan.result {
      case Failure(error) =>
        result, writes, downloads := Failure(error), [], [];
      case Success(html) =>
        var localHTML := html;
        var cssWrites, jsWrites;
        localHTML, cssWrites := SaveCSS(localHTML, download, cacheDir);
        var cssLinks := Extract(Stylesheet, html);
        var jsLinks := Extract(Script, localHTML);
        localHTML, jsWrites := SaveJavaScript(localHTML, download, cacheDir);
        var images := DownloadImages(localHTML);
        var videos := DownloadVideos(localHTML);
        writes := cssWrites + jsWrites + HtmlFile(url, localHTML, cacheDir);
        downloads := cssLinks + jsLinks + images + videos;
        result := Success(url);
    }
  }

  /**
   * When no stylesheet or script downloads, the saved page is the fetched
   * page unchanged and it is the only file written.
   */
  lemma NothingDownloadedSavesPageAsFetched(html: string, url: URL, download: string -> Option<string>, dir: string)
    requires forall u <- Extract(Stylesheet, html) + Extract(Script, html) :: download(u).None?
    ensures CompiledHTML(html, download) == html
    ensures PageWrites(html, url, download, Some(dir)) == [FileWrite(dir, CacheFileName(url.lastPathComponent), html)]
  {
    assert forall u <- Extract(Stylesheet, html) :: u in Extract(Stylesheet, html) + Extract(Script, html);
    assert forall u <- Extract(Script, html) :: u in Extract(Stylesheet, html) + Extract(Script, html);
    RewriteUnchangedWhenNothingDownloads(html, Extract(Stylesheet, html), download);
    RewriteUnchangedWhenNothingDownloads(html, Extract(Script, html), download);
    NoWritesWithoutDownloads(Extract(Stylesheet, html), download, Some(dir));
    NoWritesWithoutDownloads(Extract(Script, html), download, Some(dir));
  }

  lemma {:induction false} NoWritesWithoutDownloads(links: seq<string>, download: string -> Option<string>, cacheDir: Option<string>)
    requires forall u <- links :: download(u).None?
    ensures ContentWrites(links, download, cacheDir) == []
    decreases |links|
  {
    if |links| > 0 {
      assert links[0] in links;
      assert forall u <- links[1..] :: u in links;
      NoWritesWithoutDownloads(links[1..], download, cacheDir);
    }
  }
}
