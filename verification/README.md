# arcaliveArchive, modelled in Dafny

`arcaliveArchive.py` archives one arca.live channel. It walks the channel's
listing pages from a start URL, newest first. On each page it picks the
article rows a logged-in reader may open. For each article it does this:

- it saves the rendered page under `articles/<id>_<title>/index.html`;
- it downloads the page's images and videos next to the document, named by
  position (`img_<idx><ext>`, `video_<idx>_<sub><ext>`), and relinks them;
- it is meant to download each stylesheet once per channel into
  `articles/css/`, and points the document at the shared copy.

At the top of every listing page it writes a checkpoint to `progress.json`:
the listing URL, the id of the last archived article and the stylesheet
basenames it holds as downloaded. A later run resumes from that checkpoint.
After every article it is meant to write the same kind of checkpoint. The
crawl stops after 100 listing pages in a row without an admissible article,
or when no next-page control is found.

The code as written does not do two of these things (see Findings).
`save_article` reads module-level globals that `main` never updates. So
every stylesheet is fetched and written again for each article that links
it. The checkpoint written after an article records a null listing URL and
an empty stylesheet list, and a later run cannot resume from it. For the
same reason the set in the top-of-page checkpoint never gains the stylesheets
a run downloads: it stays the set the run resumed with. The main
model follows the design; the `AsWritten` module models the code as
written.

The model is pure and functional. The browser, the HTTP client, `urljoin`
and `str.isalnum` are fields of an environment record (`Web.Env`). Every
outside effect is an `Effect` in a trace: a request, a file write or a
checkpoint write. Properties are stated over those traces.

Modules, one per file:

- `Wrappers`: `Option`, `Result`, and Python truthiness of optional strings.
- `Text`: `rstrip`, `split(...)[-1]`, `split(...)[0]`, `strip`, `in`, and decimal numerals.
- `Paths`: `make_safe_filename`, the article id, `splitext`, stylesheet basenames, and the positional media file names with their parsers.
- `Dom`: the parts of a rendered article and of a listing page that the archiver reads.
- `Web`: the environment, timeouts, fetch outcomes and `urljoin`.
- `Progress`: the checkpoint, the effect trace, the progress file, `load_progress`, `save_progress` and resuming.
- `Traces`: the shape shared by the per-element loops of `save_article`.
- `Extractor`: `parse_page`.
- `Navigator`: `find_next_page_url`.
- `Mirror`: `save_article`, split into its image, stylesheet and video loops.
- `Crawl`: the loop of `main`.
- `AsWritten`: two places where the code as written departs from its design (see Findings).

## Model

| member | source | states |
|---|---|---|
| Text.RStripChar | arcaliveArchive.py:65 | `rstrip("/")` returns the prefix that does not end in the character, and only that character was removed |
| Text.RStripCharUnique | arcaliveArchive.py:65 | any prefix with those properties is the stripped string, so the characterisation is complete |
| Text.RStripCharPadding | arcaliveArchive.py:65 | appending more copies of the stripped character changes nothing |
| Text.LastSegment | arcaliveArchive.py:65 | `split(sep)[-1]` is the suffix with no separator, preceded by a separator unless it is the whole string |
| Text.LastSegmentUnique | arcaliveArchive.py:65 | that suffix is unique |
| Text.FirstSegment | arcaliveArchive.py:65 | `split(sep)[0]` is the prefix with no separator, followed by a separator unless it is the whole string |
| Text.FirstSegmentUnique | arcaliveArchive.py:65 | that prefix is unique |
| Text.ContainsIff | arcaliveArchive.py:161 | the left-to-right search for a substring succeeds exactly when the substring occurs at some position |
| Text.Strip | arcaliveArchive.py:167 | `strip()` cuts a run of Python whitespace from the front and from the back of the text and removes nothing else; the result neither starts nor ends in whitespace, and is empty exactly when the text is all whitespace |
| Text.StripUnique | arcaliveArchive.py:167 | any piece obtained by cutting only leading and trailing whitespace, and neither starting nor ending in whitespace, is the result of `strip()`, so the characterisation is complete |
| Text.DigitsRoundTrip | arcaliveArchive.py:82 | the decimal numeral written into a media file name reads back as the index |
| Text.DigitsInjective | arcaliveArchive.py:82 | different indices give different numerals |
| Paths.KeptChars | arcaliveArchive.py:54 | the filter keeps exactly the alphanumerics, spaces, underscores and hyphens of the title |
| Paths.KeptCharsAppend | arcaliveArchive.py:54 | filtering works character by character: filtering a concatenation concatenates the filtered parts |
| Paths.SafeFilename | arcaliveArchive.py:53-54 | the safe title has at most 50 kept characters and is the prefix of the filtered title, cut only at 50 |
| Paths.SafeFilenameIdempotent | arcaliveArchive.py:53-54 | making a safe name safe again changes nothing |
| Paths.ArticleIdOfLink | arcaliveArchive.py:65 | for a link `<prefix>/<id>[?query][/...]` the article id is exactly `<id>` |
| Paths.ArticleIdIgnoresTrailingSlashes | arcaliveArchive.py:65 | trailing slashes on a link do not change its id |
| Paths.ArticleDirName | arcaliveArchive.py:67-69 | the article directory name is the article id, an underscore, then the safe title; unless `isalnum` accepts '/', it is a single path component |
| Paths.ArticleDirNameId | arcaliveArchive.py:65-69 | when the id holds no underscore, it reads back from the directory name as the part before the first underscore |
| Paths.ComponentExt | arcaliveArchive.py:81 | `splitext` of a basename yields empty or a dot-led suffix with no further dot, and yields empty exactly when no dot of the basename has a non-dot character before it (`a`, `.bashrc`, `..`) |
| Paths.SplitExt | arcaliveArchive.py:81 | `splitext` of a path yields empty or a dot-led suffix of the last path component, and yields empty exactly when no dot of that component has a non-dot character before it |
| Paths.SplitExtFindsExtension | arcaliveArchive.py:81 | when the last component has a last dot after a non-dot, the extension starts at that dot |
| Paths.ExtOr | arcaliveArchive.py:128 | the extension is the one of the URL without its query when that is non-empty and the default otherwise, so it is a real extension whenever the default is |
| Paths.StylesheetNameOfUrl | arcaliveArchive.py:96 | a stylesheet URL `<dir>/<name>[?query]` has basename `<name>` |
| Paths.SharedStylesheetHrefPlain | arcaliveArchive.py:98 | the shared reference to a basename without backslashes is `../css/<name>` |
| Paths.SharedStylesheetHrefBackslash | arcaliveArchive.py:107 | the backslash replacement also reaches the basename: `a\b.css` is referenced as `../css/a/b.css` |
| Paths.ImageFileNameRoundTrip | arcaliveArchive.py:82 | `img_<idx><ext>` reads back as its index and extension |
| Paths.VideoFileNameRoundTrip | arcaliveArchive.py:129 | `video_<idx>_<sub><ext>` reads back as its two indices and extension |
| Paths.ImageFileNameInjective | arcaliveArchive.py:82 | two images with different positions or extensions get different file names |
| Paths.VideoFileNameInjective | arcaliveArchive.py:129 | two video candidates with different positions or extensions get different file names |
| Paths.ImageAndVideoNamesDiffer | arcaliveArchive.py:82 | an image file name is never a video file name |
| Web.UrlJoin | arcaliveArchive.py:221 | `urljoin` with an empty reference returns the base unchanged, and with an empty base returns the reference |
| Progress.StylesheetDownloadTrace | arcaliveArchive.py:103-110 | a downloaded stylesheet writes exactly one shared file and one checkpoint that holds the grown set |
| Progress.CssLedgerAppend | arcaliveArchive.py:108-110 | two stretches of effects that each keep the stylesheet books keep them together |
| Progress.CssLedgerCheckpoint | arcaliveArchive.py:255 | a checkpoint of the loop state on its own keeps the stylesheet books: it writes nothing and records the set as it stands |
| Progress.LoadProgress | arcaliveArchive.py:34-41 | a missing file loads as `last_link_number: null` with an empty stylesheet list; a stored file is kept as it is, with only a missing stylesheet list filled in as empty (a stored null stays null) |
| Progress.Serialize | arcaliveArchive.py:44-50 | every checkpoint stores a listing URL and a stylesheet list, and a null article id exactly when none was saved |
| Progress.Resume | arcaliveArchive.py:242-250 | resuming fails exactly on a stored null stylesheet list (`set(None)`, reported first) or a null `last_url`; a missing `last_url` falls back to the start URL; the last saved id is the stored one when it is a string and none when missing or null; the stylesheet set is the stored list's elements, empty when the key is missing |
| Progress.ResumeRoundTrip | arcaliveArchive.py:44-50 | resuming from a written checkpoint restores the saved record, whatever order the stylesheet list was written in |
| Extractor.ParsePage | arcaliveArchive.py:154-171 | every article comes from an admissible row, and every admissible row yields its article |
| Extractor.ParsePageAppend | arcaliveArchive.py:158-170 | rows are handled one at a time: articles keep the order of their rows |
| Extractor.ParsePageSingle | arcaliveArchive.py:158-170 | a single row yields its article when it is admissible and nothing otherwise |
| Mirror.MirrorImages | arcaliveArchive.py:72-88 | the image loop puts back one image per image of the page |
| Extractor.SkippedRowIsLocal | arcaliveArchive.py:159-170 | a row that is skipped, for a restriction marker or a missing title, does not affect the other rows |
| Extractor.RestrictionMarkers | arcaliveArchive.py:161-162 | a complete non-notice row is admitted exactly when neither the Japanese nor the Korean "no permission" marker occurs in its title cell |
| Navigator.FirstMatch | arcaliveArchive.py:187-216 | the scan returns the first control of a tier, or reports that no control is of that tier |
| Navigator.FirstWhere | arcaliveArchive.py:187-196 | a front-to-back scan returns the first position whose element passes the test, or reports that none passes |
| Navigator.FindNextPageUrl | arcaliveArchive.py:174-224 | without pagination there is no next page; otherwise there is one exactly when some control is a "+1" link with an href or a lone-chevron link without text |
| Navigator.TierOneWins | arcaliveArchive.py:186-196 | the first "+1" control decides, even if chevron controls precede it |
| Navigator.TierTwoFallback | arcaliveArchive.py:198-221 | with no "+1" control, the first chevron control decides |
| Navigator.LoneChevron | arcaliveArchive.py:209-214 | a control with no text and a single span carrying the chevron class is a tier-2 control and not a "+1" one |
| Navigator.ChevronWithoutHrefRestarts | arcaliveArchive.py:218-221 | a chevron control without an href leads back to the channel URL |
| Mirror.Download | arcaliveArchive.py:79-85 | fetching a media file is one request; only a 200 answer writes a file, under the given name, and nothing but article files is written |
| Mirror.MirrorImage | arcaliveArchive.py:73-88 | an image that downloads is written under its positional name and relinked to it; any other image is left as it was with no file written |
| Mirror.MirrorImageNames | arcaliveArchive.py:81-82 | the file one image writes reads back as an image of that position |
| Mirror.ImagesRelinked | arcaliveArchive.py:73-88 | every image that downloads ends up pointing at its own file, and that file is written |
| Mirror.ImagesKept | arcaliveArchive.py:73-88 | every image without a `src` or with a failed download is left untouched, and no image file of its position is written |
| Mirror.ImageFilesDistinct | arcaliveArchive.py:73-88 | the image loop never writes a file name twice, and every name belongs to a position of the page |
| Mirror.SheetInputOf | arcaliveArchive.py:92-96 | a stylesheet link is considered only when it has an href; its URL is resolved against the channel and its basename taken without the query |
| Mirror.SheetStep | arcaliveArchive.py:91-112 | a link without href is skipped; an already downloaded basename is relinked with no request; any other is requested, and on a 200 answer with a non-empty basename it is written, relinked, added to the set and checkpointed with the grown set, while otherwise the link and the set stay as they were after that one request |
| Mirror.SheetStepRelinks | arcaliveArchive.py:97-107 | a link is either left alone or pointed at its shared copy `../css/<name>` (backslashes in `<name>` written as '/'), with `<name>` recorded; an already downloaded one is always relinked |
| Mirror.SheetStepGrows | arcaliveArchive.py:104-108 | the set grows by exactly the stylesheet written, which was not in the set |
| Mirror.SheetStepSaves | arcaliveArchive.py:108-110 | the checkpoint a download writes records the grown set with the current listing URL and last saved id |
| Mirror.SheetStepRequests | arcaliveArchive.py:97-103 | a request goes only to the link's URL, and only when its basename is not yet downloaded |
| Mirror.SheetsLoop | arcaliveArchive.py:91-112 | the stylesheet loop puts back one link per link of the page |
| Mirror.SheetsLoopGrows | arcaliveArchive.py:91-112 | over a page, the set grows by exactly the stylesheets written, each written once |
| Mirror.SheetsLoopSaves | arcaliveArchive.py:91-112 | over a page, the checkpoints record growing sets, all within the final one |
| Mirror.StylesheetsGrow | arcaliveArchive.py:91-112 | within an article, no stylesheet is written twice and none already downloaded is written |
| Mirror.StylesheetsSave | arcaliveArchive.py:108-110 | the stylesheet checkpoints of an article grow in order and never exceed the set it ends with |
| Mirror.StylesheetsNotRefetched | arcaliveArchive.py:97-99 | no stylesheet whose basename was already downloaded is requested |
| Mirror.SheetStepShares | arcaliveArchive.py:97-108 | one pass adds to the set exactly the basename of a stylesheet that answers 200 and has a non-empty name |
| Mirror.SheetsLoopShares | arcaliveArchive.py:91-112 | after the loop the set is the starting set plus the basename of every link whose stylesheet answers 200 with a non-empty name |
| Mirror.SheetsLoopLinks | arcaliveArchive.py:91-112 | link `k` ends pointing at `../css/<name>` exactly when it has an href and its basename was downloaded before the loop, by an earlier link, or by itself; otherwise it is unchanged |
| Mirror.StylesheetsRelinked | arcaliveArchive.py:91-112 | every stylesheet link is either unchanged or points at its shared copy, and already downloaded ones always do; exactly the links whose basename was shared before them or whose own fetch succeeds are relinked, and the final set is the starting set plus the names of the successful fetches |
| Mirror.SourceUrls | arcaliveArchive.py:117-119 | the source URLs are exactly the non-empty `src` values of the `source` children: one child contributes its `src` when it is non-empty and nothing otherwise |
| Mirror.SourceUrlsAppend | arcaliveArchive.py:119 | the URLs of two runs of children are those of the first followed by those of the second, so document order is kept |
| Mirror.Candidates | arcaliveArchive.py:116-119 | the candidates are the non-empty `src` values of the video and then of its `source` children, in document order |
| Mirror.Relink | arcaliveArchive.py:134-138 | a download renames the video's own `src` if it had one, and every source whose `src` equals the downloaded URL |
| Mirror.CandidateStep | arcaliveArchive.py:124-138 | a candidate that downloads writes one file under its own name and relinks; a failed one changes nothing |
| Mirror.CandidatesWithoutSuccess | arcaliveArchive.py:121-140 | when no candidate downloads, the video is unchanged and nothing is written |
| Mirror.CandidatesLastSuccess | arcaliveArchive.py:134-135 | a video with its own `src` ends up naming the file of the last candidate that downloaded, even when that was a source, not the `src` itself |
| Mirror.VideoWithoutDownload | arcaliveArchive.py:114-140 | a video none of whose resolved candidates downloads is left as it was, with no file |
| Mirror.VideoSrcNamesLastDownload | arcaliveArchive.py:128-135 | the own `src` of a video names the positional file of the last candidate that downloaded |
| Mirror.VideoKeepsShape | arcaliveArchive.py:134-138 | relinking keeps the number of sources, leaves a missing `src` missing and sources without `src` alone |
| Mirror.MirrorVideoNames | arcaliveArchive.py:128-129 | the files of one video are distinct and all read back as that video's position |
| Mirror.MirrorVideos | arcaliveArchive.py:114-140 | the video loop puts back one video per video of the page |
| Mirror.VideosEach | arcaliveArchive.py:115 | each video of the page is handled on its own, at its own position |
| Mirror.VideoFilesDistinct | arcaliveArchive.py:114-140 | the video loop never writes a file name twice |
| Mirror.CandidatesFileOrigin | arcaliveArchive.py:121-132 | every file the candidate loop writes is named after a candidate whose fetch answered 200 |
| Mirror.MirrorVideoFileOrigin | arcaliveArchive.py:121-132 | every file written for a video is `video_<idx>_<j>` for a candidate `j` of that video that answered 200 |
| Mirror.VideoFilesFromDownloads | arcaliveArchive.py:114-140 | every video file comes from a successful download of a candidate of a video of the page, so no file of a failed candidate is written |
| Mirror.MediaTagsDisjoint | arcaliveArchive.py:143 | no file name is both an image and a video name, and `index.html` is neither |
| Mirror.SaveArticle | arcaliveArchive.py:57-151 | the article is saved under `articles/<id>_<safe title>`; the saved document holds the rendered page's images, stylesheets and videos as their three loops return them, in the same numbers, with the pagination untouched; the article ends by writing `index.html` into its directory and then a checkpoint with its id and the stylesheet set it leaves |
| Mirror.MediaLoopsInDir | arcaliveArchive.py:72-140 | every image and video file the two media loops write goes into the article directory they are given |
| Mirror.SaveArticleWritesInDir | arcaliveArchive.py:69-144 | every media file an article writes goes into that article's own directory `articles/<id>_<safe title>` |
| Mirror.SaveArticleFiles | arcaliveArchive.py:73-146 | an article directory never receives the same file name twice, and no media file overwrites `index.html` |
| Mirror.SaveArticleCheckpoints | arcaliveArchive.py:91-151 | archiving an article grows the set by exactly the stylesheets it writes, each once and none already held, with checkpoints that grow in order |
| Crawl.ArchiveArticles | arcaliveArchive.py:267-269 | after a page with articles, the last saved id is that of the page's last article; no articles leave everything as it was |
| Crawl.ArchiveArticlesLedger | arcaliveArchive.py:267-269 | the articles of one page together keep the stylesheet books |
| Crawl.ArticleSaverKeepsBooks | arcaliveArchive.py:57-151 | archiving any article from any state keeps the stylesheet books |
| Crawl.PaginationAfter | arcaliveArchive.py:272 | the next-page search reads the listing page when it had no article, and the last archived article's page otherwise |
| Crawl.CrawlStep | arcaliveArchive.py:253-279 | every turn starts by checkpointing the loop's state |
| Crawl.CrawlStepCounts | arcaliveArchive.py:260-266 | an empty page adds one to the counter and a page with articles resets it; the crawl stops for emptiness exactly at the 100th empty page in a row |
| Crawl.CrawlStepRemembers | arcaliveArchive.py:267-269 | after a page with articles the last saved id is the last article's id |
| Crawl.CrawlStepEmptyPage | arcaliveArchive.py:260-264 | an empty page writes only its checkpoint and changes neither the last saved id nor the stylesheet set |
| Crawl.CrawlStepFollows | arcaliveArchive.py:260-279 | a turn moves on exactly when the empty-page limit does not stop it and the next-page search returns a non-empty URL, and then to that URL |
| Crawl.CrawlStepLedger | arcaliveArchive.py:255-269 | one turn keeps the stylesheet books |
| Crawl.RunWith | arcaliveArchive.py:253-279 | a run begins with the effects of its first turn, and it reports a stop reason only after taking at least one turn |
| Crawl.RunWithLedger | arcaliveArchive.py:253-279 | a loop whose every turn keeps the books keeps them over all its turns |
| Crawl.Run | arcaliveArchive.py:253-279 | a run's first effect is the checkpoint of the state it starts from |
| Crawl.RunLedger | arcaliveArchive.py:253-279 | over a whole run no stylesheet is written twice, none held at the start is written, and the checkpoints record a set that never shrinks |
| Crawl.RunWithStops | arcaliveArchive.py:260-264 | a loop whose every turn counts one more empty page stops within the remaining budget of empty pages, and stops for emptiness only at the limit |
| Crawl.EmptyChannelCounts | arcaliveArchive.py:260-264 | on a channel with no admissible article every turn adds one empty page to the counter and stops for emptiness only at 100 |
| Crawl.EmptyChannelStops | arcaliveArchive.py:260-264 | on a channel with no admissible article the crawl stops within the remaining empty-page budget, and if it stops for emptiness the counter is at 100 |
| Crawl.RunWithExactly | arcaliveArchive.py:253-279 | a loop whose every turn counts one more empty page and moves on below the limit takes exactly the remaining budget of turns, one checkpoint each, and stops for emptiness; with fewer turns it has not stopped |
| Crawl.EmptyChannelFollows | arcaliveArchive.py:253-279 | on a channel with no admissible article and a next page everywhere, every turn writes one checkpoint and moves on until the counter reaches 100 |
| Crawl.EmptyChannelPagesCounted | arcaliveArchive.py:253-279 | on such a channel the crawl stops for emptiness after exactly the remaining budget of pages, with one checkpoint per page, and one turn fewer leaves it running |
| Crawl.Start | arcaliveArchive.py:242-251 | the crawl starts from exactly the state resumed from the progress file, with the counter at zero, and fails exactly when the stored `last_url` or stylesheet list is null, with the error resuming reports |
| Crawl.CheckpointResumes | arcaliveArchive.py:255 | restarting from the checkpoint a turn wrote resumes on the same page, with the same last saved id and stylesheet set |
| AsWritten.SheetStepAsWritten | arcaliveArchive.py:97-112 | as written, every stylesheet with an href is requested and no pass writes a checkpoint |
| AsWritten.SheetsLoopAsWritten | arcaliveArchive.py:91-112 | as written, the stylesheet loop writes no checkpoint |
| AsWritten.MirrorStylesheetsAsWritten | arcaliveArchive.py:91-112 | as written, an article's stylesheet pass writes no checkpoint |
| AsWritten.SharedStylesheetFetchedTwice | arcaliveArchive.py:97-110 | as written, every article linking a stylesheet fetches it and writes it again, with no checkpoint |
| AsWritten.SharedStylesheetFetchedOnce | arcaliveArchive.py:97-110 | as intended, once one article has downloaded a stylesheet, the next relinks it with no request |
| AsWritten.ArticleCheckpointAsWritten | arcaliveArchive.py:151 | as written, the article checkpoint is the record of no checkpoint the loop state could write, and a run cannot start from it, whatever the start URL: it fails for want of a listing URL |
| AsWritten.NullUrlNeverSerialized | arcaliveArchive.py:44-50 | every checkpoint of a loop state stores a listing URL, so a record with a null one is none of them |
| AsWritten.NullUrlNeverStarts | arcaliveArchive.py:243-250 | a record with a null `last_url` and a stored stylesheet list fails to start for want of a listing URL, whatever the start URL |
| AsWritten.ArticleCheckpointBlocksResume | arcaliveArchive.py:151 | a run cannot resume from that checkpoint |
| AsWritten.ArticleCheckpointResumes | arcaliveArchive.py:151 | as intended, the article checkpoint resumes on the page being archived, after that article, with the current stylesheet set |

## Left out

- The browser. Navigation, `page_source`, the login prompt, `input()`, `time.sleep` and the five-second pagination wait are not modelled. `Env.render` gives the document the parser sees. `Env.listing` gives a listing page's rows and pagination. `Pagination.appeared` says whether the wait found any control.
- Selenium exceptions inside `parse_page` and `find_next_page_url` other than a missing element: stale elements and the like are not modelled.
- A row without an `href` is modelled as having a string link. In the source, `None` would fail later in `save_article`.
- HTTP: `Env.fetch(url, timeout)` gives one reply per URL and timeout. A timeout or connection error is `NoResponse`. Repeated requests for the same URL are assumed to get the same reply.
- `res.text` decoding: a stylesheet is written as the fetched bytes.
- File-system effects: `os.makedirs`, the path separator and file contents beyond the `Effect` records. A write that fails for another reason is not modelled. The one exception is a stylesheet with an empty basename, which opens the directory itself and fails.
- `BeautifulSoup` serialisation of the document. `WriteIndex` carries the relinked document.
- `urljoin` beyond its empty-argument cases, and `str.isalnum`. Both are parameters of the environment.
- JSON parsing of the progress file. The file is modelled as three keys, each missing, null or a value of the type the program writes (a string, or a list of strings for `downloaded_css`). A malformed file, or a key holding a value of another JSON type, is not modelled.
- The start URL built from the current UTC time is a parameter of `Crawl.Start`.
- Printing and `debug_print`.
- Crawl.Run: bounded by a `fuel` number of turns. A run that has not stopped when the fuel runs out reports no stop reason. The source loops until it stops.
- Paths.ArticleId: its own contract says only that an id holds no `/` or `?`. Its value is stated by `Paths.ArticleIdOfLink`, for links of the shape `<prefix>/<id>[?query][/...]`.
- Mirror.MirrorImages: its own contract gives only the number of images put back. What each becomes and which files are written is stated by `Mirror.ImagesRelinked`, `Mirror.ImagesKept` and `Mirror.ImageFilesDistinct`.
- Mirror.SheetsLoop: its own contract gives only the number of links put back. What each becomes and what the set grows by is stated by `Mirror.SheetsLoopLinks`, `Mirror.SheetsLoopShares` and `Mirror.SheetsLoopGrows`.
- Mirror.MirrorVideos: its own contract gives only the number of videos put back. What each becomes and which files are written is stated by `Mirror.VideosEach`, `Mirror.VideoFilesDistinct` and `Mirror.VideoFilesFromDownloads`.
- Mirror.SaveArticle: its own contract does not say where the media files go. `Mirror.SaveArticleWritesInDir` states that they all go into the article directory.
- Paths.StylesheetName: its own contract says only that a basename holds no `/` or `?`. Its value is stated by `Paths.StylesheetNameOfUrl`, for URLs of the shape `<dir>/<name>[?query]`.
- The main model follows the evident design for the shared crawl state: one stylesheet set and one listing URL, shared by the loop and `save_article`. The code as written does not share them (see Findings). Apart from `AsWritten`, the model uses the corrected behaviour.

## Findings

| source | as written | input that shows it | evidently intended | confidence | as-written member | corrected member |
|---|---|---|---|---|---|---|
| arcaliveArchive.py:97-110 | `main` assigns `downloaded_css` without `global`, so `save_article` tests against the module-level empty list. Every stylesheet is fetched and written again. The `.add` on a list then raises and is swallowed, so the checkpoint after a download is never written. | two articles linking the same stylesheet, served with status 200 | a stylesheet is downloaded once per channel, then joins the set and is checkpointed | high, not executed | AsWritten.SharedStylesheetFetchedTwice | AsWritten.SharedStylesheetFetchedOnce |
| arcaliveArchive.py:151 | `save_article` reads the module-level `current_url`, which is `None`, so the article checkpoint stores `last_url: null`. It also stores an empty `downloaded_css`. If the run ends or is interrupted before the next turn's checkpoint, the next start reads `None` as the listing URL. | a last listing page with articles and no next-page control | the checkpoint records the listing page being crawled and the current stylesheet set | high, not executed | AsWritten.ArticleCheckpointBlocksResume | AsWritten.ArticleCheckpointResumes |
