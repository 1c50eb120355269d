# Weboff capture logic in Dafny

Weboff's `WEO` class saves a web page for offline use:

- It fetches the page over HTTPS.
- For each match of its two fixed patterns, `<link rel=…stylesheet… href=…>` and `<script src=…></script>`, it requests the text the pattern captures. Tags written any other way are not seen. The script pattern's lazy capture stops at the first quote after which the next `>` begins `></script>`; it does not stop at an earlier quote or `>`. So after a script tag with an inline body, the capture can run on to a later script tag on the same line, and neither tag's URL is requested.
- When that download succeeds, it writes the content to the cache directory. It then replaces every occurrence of the captured text anywhere in the page, not only in the tag, with `local://` followed by that text. When the download fails, nothing is written and the page is not changed.
- It requests each quoted `src=` value of the localised page that starts with http:// or https:// and ends in .jpg, .jpeg, .png, .gif, .mp4, .mov or .avi right before the closing quote. The extensions are lower case, and a query string after one is not matched.
- It stores the rewritten page under the name of its last path component, with `/` replaced by `_`.

This project models the text processing under that I/O:

- the five fixed regular expressions, as scanners over `seq<char>`;
- the rewrite loops of `saveCSS` and `saveJavaScript`;
- the cache file naming;
- the outcome classification of `deepHTMLScan`;
- the success and failure routing of `compilePage`.

The modules are:

- `Wrappers`: `Option` and `Result`.
- `Strings`: a model of Foundation's `replacingOccurrences(of:with:)`. It is built on leftmost search, split and join. It is proved to cut the text at its leftmost occurrences, and, for a replacement longer than the target, to leave the text unchanged exactly when the target does not occur.
- `Utf8`: a strict UTF-8 decoder, standing in for `String(data:encoding: .utf8)`, and its encoder. They are proved to be inverses (RFC 3629, section 3).
- `Patterns`: the five patterns, each as a matcher at one index, and the leftmost, non-overlapping scan that `NSRegularExpression.matches(in:range:)` performs. Each matcher is proved sound and complete against a description of what the regex accepts. The fixed tails `[^>]*>` and `[^>]*></script>` are each characterised by their own lemma at the character level.
- `Weo`: the operations of the class. `deepHTMLScan`, the file names and the rewrite specification are functions. The loops of `saveCSS`, `saveJavaScript`, `extractLinks`, `downloadImages` and `downloadVideos` are methods proved against those functions. `compilePage` is a method.

The environment is made up of parameters:

- The page fetch is `fetch: URL -> Reply`, the data task's data and error.
- `downloadContent` is `download: string -> Option<string>`.
- `URL(string:)` is `parses: string -> bool`.
- The cache directory is `cacheDir: Option<string>`.
- Every file write is returned as a `FileWrite` value.
- Every request a media loop issues is returned as a list of URLs.

## Model

| member | source | states |
|---|---|---|
| Weo.DeepHTMLScanOutcomes | Sources/WEO/WEO.swift:158-176 | A scheme other than exactly "https" fails with code 401 and issues no request. Otherwise exactly one request is issued for the URL. A transport error is passed on unchanged. Without a transport error, the result is a success carrying `html` exactly when the data is the UTF-8 encoding of `html`, and every other result is the 402 failure. |
| Weo.DeepHTMLScanCodes | Sources/WEO/WEO.swift:159-172 | Code 401 arises exactly for a non-https scheme. Code 402 arises exactly for an https URL with no transport error whose data is absent or is not the encoding of any string. |
| Weo.CacheFileName | Sources/WEO/WEO.swift:92 | The cache name of a URL has the URL's length. Every `/` becomes `_` and every other character stays in place, so the name holds no `/`. The same naming is used at lines 100 and 108. |
| Weo.LocalizeResources | Sources/WEO/WEO.swift:39-52 | The loop over the matches found in the original HTML gives the text `RewriteLinks` specifies for the captured URLs in document order. It writes one cache file per successful download, as `ContentWrites` specifies. |
| Weo.SaveCSS | Sources/WEO/WEO.swift:37-53 | This is `saveCSS`: the stylesheet URLs of the original HTML are rewritten in order, and their cache files are written. |
| Weo.SaveJavaScript | Sources/WEO/WEO.swift:56-72 | This is `saveJavaScript`: the same as `saveCSS`, with the script pattern. |
| Weo.RewriteUnchangedWhenNothingDownloads | Sources/WEO/WEO.swift:39-48 | If no matched URL downloads, the returned HTML equals the input. |
| Weo.NoWritesWithoutDownloads | Sources/WEO/WEO.swift:45-46 | If no matched URL downloads, no cache file is written. |
| Weo.RewriteIsOneStepPerDownload | Sources/WEO/WEO.swift:41-47 | The loop applies one localising step per successful download, in order, and none for a failed one. So the number of steps equals the number of matches that download. The k-th file written is named after the k-th downloaded URL and holds that URL's content. |
| Weo.LocalizeReplacesEveryOccurrence | Sources/WEO/WEO.swift:47 | A localising step cuts the text at every occurrence of the URL, leftmost first. No piece contains the URL. The pieces are joined again with "local://" + URL. An empty URL leaves the text unchanged. |
| Weo.LocalizeChangesIff | Sources/WEO/WEO.swift:47 | A localising step changes the text exactly when the URL is non-empty and occurs in it. |
| Weo.ExtractLinks | Sources/WEO/WEO.swift:142-155 | The result is, in document order, the captured href URLs that `URL(string:)` accepts. Each one is an http:// or https:// URL with at least one more character, and it contains no quote. |
| Weo.KeptLinksAreHttpUrls | Sources/WEO/WEO.swift:143-151 | Every link that `extractLinks` keeps starts with http:// or https://, has something after the scheme, holds no quote, and parses. |
| Weo.RequestMatches | Sources/WEO/WEO.swift:119-125 | A media loop passes exactly the captured URLs to `downloadContent`, one per match, in document order. |
| Weo.DownloadImages | Sources/WEO/WEO.swift:116-127 | The requested URLs are the image captures. Each one is http(s), ends in .jpg, .jpeg, .png or .gif, and holds no quote. |
| Weo.DownloadVideos | Sources/WEO/WEO.swift:129-140 | The requested URLs are the video captures. Each one is http(s), ends in .mp4, .mov or .avi, and holds no quote. |
| Weo.CompilePage | Sources/WEO/WEO.swift:15-34 | A failed scan is forwarded unchanged, and nothing is downloaded or written. On success, the input URL is reported. The writes are the stylesheet files, then the script files, then the localised page. The requests are the stylesheets, the scripts, then the images and videos of the localised page. |
| Weo.NothingDownloadedSavesPageAsFetched | Sources/WEO/WEO.swift:21-27 | If no matched stylesheet or script URL of the fetched page downloads, the saved page (written at line 110) is the fetched page unchanged. It is the only file written, named after the URL's last path component with `/` replaced by `_`. |
| Patterns.Scan | Sources/WEO/WEO.swift:41 | Every returned match is a match of the pattern at its own start. Matches come in document order and do not overlap. |
| Patterns.ScanLeftmost | Sources/WEO/WEO.swift:41 | No match is skipped. Every index where the pattern matches is either the start of a returned match or lies inside one. |
| Patterns.ScanNone | Sources/WEO/WEO.swift:41 | A text where the pattern matches nowhere yields no match. |
| Patterns.HrefMatchSound | Sources/WEO/WEO.swift:143 | A match of the href pattern is `href=`, a quote, the scheme, at least one non-quote character, and the first quote after it. |
| Patterns.HrefMatchComplete | Sources/WEO/WEO.swift:143 | Every text of the shape above is matched, with group 1 running up to that first quote. |
| Patterns.MediaMatchSound | Sources/WEO/WEO.swift:117 | An image match (and a video match, line 130) is `src=`, a quote, the scheme, and a body ending in a dot and one of the extensions right before the first quote. |
| Patterns.MediaMatchComplete | Sources/WEO/WEO.swift:117 | Every text of that shape is matched, for images and likewise for videos (line 130). |
| Patterns.LazySound | Sources/WEO/WEO.swift:38 | The lazy capture (here and at line 57) ends at the first quote after which the tail matches, and it crosses no line terminator. |
| Patterns.LazyComplete | Sources/WEO/WEO.swift:38 | Any such first position is the one the lazy capture takes. |
| Patterns.TagCloseIff | Sources/WEO/WEO.swift:38 | `[^>]*>` matches after a point exactly when a `>` follows, and it ends just past the first one. |
| Patterns.StylesheetMatchSound | Sources/WEO/WEO.swift:38 | A stylesheet match opens with exactly `<link rel=`, a quote, `stylesheet`, a quote, ` href=` and a quote. Its capture holds no quote and no line terminator, and the match ends just past the first `>` after the closing quote. |
| Patterns.StylesheetMatchComplete | Sources/WEO/WEO.swift:38 | Every text of that shape is matched, with that capture. |
| Patterns.ScriptCloseIff | Sources/WEO/WEO.swift:57 | `[^>]*></script>` matches after a point exactly when the first `>` after it begins `></script>`, and the match ends just past that text. |
| Patterns.ScriptMatchSound | Sources/WEO/WEO.swift:57 | A script match opens with exactly `<script src=` and a quote. Its capture runs up to the first quote that is reached without crossing a line terminator and after which the first `>` begins `></script>`. No earlier quote has that property. The match ends just past that `></script>`. |
| Patterns.ScriptMatchComplete | Sources/WEO/WEO.swift:57 | Every text with that opening and that capture (the first such quote, no line terminator before it, the next `>` beginning `></script>`) is matched, with that capture. |
| Patterns.LinksAreHttpUrls | Sources/WEO/WEO.swift:143 | Every href capture starts with http:// or https://, has at least one more character, and contains no quote. |
| Patterns.ImagesHaveImageExtensions | Sources/WEO/WEO.swift:117 | Every image capture is http(s), ends in `.jpg`, `.jpeg`, `.png` or `.gif`, and has no quote. |
| Patterns.VideosHaveVideoExtensions | Sources/WEO/WEO.swift:130 | Every video capture is http(s), ends in `.mp4`, `.mov` or `.avi`, and has no quote. |
| Patterns.StylesheetsFollowExactOpening | Sources/WEO/WEO.swift:38 | Every stylesheet capture follows the exact opening `<link rel=…stylesheet… href=…` and contains no quote or line terminator. |
| Patterns.ScriptsFollowExactOpening | Sources/WEO/WEO.swift:57 | Every script capture follows the exact opening `<script src=…`, its match ends in `></script>`, and it contains no line terminator. |
| Patterns.NoOpeningNoStylesheet | Sources/WEO/WEO.swift:38 | A text with no `<link rel=` anywhere, such as one whose link tags put `href` or another attribute before `rel`, yields no stylesheet. |
| Patterns.ReorderedStylesheetIgnored | Sources/WEO/WEO.swift:38 | An illustration: the single tag `<link href="a.css" rel="stylesheet">` yields no stylesheet. |
| Patterns.NoOpeningNoScript | Sources/WEO/WEO.swift:57 | A text with no `<script src=` anywhere, such as one whose script tags put another attribute before `src`, yields no script. |
| Patterns.ReorderedScriptIgnored | Sources/WEO/WEO.swift:57 | An illustration: the single tag `<script defer src='a.js'></script>` yields no script. |
| Patterns.MixedQuotesStylesheet | Sources/WEO/WEO.swift:38 | The quote characters of the opening need not agree: a single-quoted `rel` with a double-quoted `href` is matched. |
| Strings.JoinSplit | Sources/WEO/WEO.swift:47 | Joining the pieces of a split with the separator gives back the text. |
| Strings.SplitPiecesFree | Sources/WEO/WEO.swift:47 | No piece of a split contains the separator. |
| Strings.SplitLeftmost | Sources/WEO/WEO.swift:47 | Each cut is at the first occurrence after the previous one. |
| Strings.SplitUnique | Sources/WEO/WEO.swift:47 | Any decomposition with those properties is the split, so the replacement is determined. |
| Strings.ReplaceAllIsJoinOfSplit | Sources/WEO/WEO.swift:47 | Replacing a non-empty target is splitting at it and joining with the replacement. |
| Strings.ReplaceAllNotShorter | Sources/WEO/WEO.swift:47 | A replacement at least as long as the target never shortens the text. |
| Strings.ReplaceAllChangesIff | Sources/WEO/WEO.swift:47 | With a longer replacement, the text is unchanged exactly when the target does not occur. |
| Strings.ReplaceCharPointwise | Sources/WEO/WEO.swift:92 | Replacing one character by another keeps the length and maps each position independently (also used at lines 100 and 108). |
| Utf8.DecodeEncode | Sources/WEO/WEO.swift:169 | Decoding the encoding of a string gives the string back. |
| Utf8.EncodeDecode | Sources/WEO/WEO.swift:169 | Data that decodes is the encoding of what it decodes to. |
| Utf8.DecodeIff | Sources/WEO/WEO.swift:169 | Data decodes to `s` exactly when it is the encoding of `s`. |

## Left out

- `downloadContent` (lines 74-88) becomes the function `download`. Its URL session, its semaphore and its own UTF-8 check are not modelled. The oracle gives the same answer for a URL every time it is asked.
- The page's data task is the function `fetch`, and the asynchronous completion callbacks become return values.
- `URL(string:)` and Foundation's URL parsing are not modelled. `extractLinks` takes `parses` as a parameter, and a `URL` carries its `scheme` and `lastPathComponent` as given fields.
- File writes and the cache-directory lookup (lines 11, 90-114) are recorded as `FileWrite` values. Whether a write fails is not modelled. Failures are ignored at lines 95 and 103. The message printed at line 112 is leftover console output.
- The links that `compilePage` computes at line 19 are never used, so `CompilePage` does not compute them. `ExtractLinks` models that function on its own.
- `compilePage` calls `saveCSS` and `saveJavaScript` without their `html:` argument label (lines 22-23). The model makes the intended calls.
- The fields `totalDownloaded`, `maxDownloadSize` and `slowDownThreshold` (lines 6-8) are never read or updated, so they are not modelled.
- The scanners work on characters. They do not model the regex engine's UTF-16 ranges or the conversion of `NSRange` back to `Range` (lines 41-43).
- `Strings.ReplaceAll` compares characters literally. It does not model Unicode canonical equivalence in `replacingOccurrences`.
- `Utf8.Decode` is a strict RFC 3629 decoder. It does not model how Foundation treats a byte-order mark.
- The rewrite is not idempotent, because `local://` + URL still contains the URL. No idempotence property is stated.
