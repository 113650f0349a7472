# Download endpoint and batch page of a Douyin/TikTok download service

This project models, in Dafny, the part of the service that turns a resolved
Douyin or TikTok post into a file on disk and into a reply. The model covers:

- **The filename sanitiser.** It replaces `< > : " / \ | ? *` by `_`, strips
  whitespace, cuts the result to 200 characters and falls back to `video` when
  nothing is left. It is shared by the endpoint and the web view
  (`Sanitize`).
- **Storage and public names.** The name a video, an image zip or a per-image
  file is stored under depends only on the prefix, the platform, the item id,
  the watermark flag and, for images, the position and format. The public name
  is the sanitised custom name when one is given (`Naming`).
- **The cancellable streaming write.** `fetch_data_stream` saves a video chunk
  by chunk and removes the file when the requester disconnects (`Storage`).
  The download directory is a `FileStore` object whose map of files the
  methods update.
- **Image-set assembly.** Every image is fetched in list order and saved under
  a name carrying the 1-based first position of its link and the subtype of
  its content-type. The saved files are then packed into a zip (`Images`).
- **The handler `download_file_hybrid`.** It checks the switch, resolves the
  link, names the artifact, serves it from the store when it already exists,
  and otherwise streams the video or builds the archive. Every failure is
  turned into a code-400 reply (`Endpoint`).
- **The batch page.** This covers the link-count gate `valid_check`, the
  `parse_video` loop that keeps going after failures, the download-all action
  that schedules one endpoint request per parsed video, and the button's
  `video_count` (`Batch`).

Everything the code reaches outside itself is a parameter:
- the resolver's answer;
- the HTTP stream for a source URL;
- the disconnect probe, by chunk number;
- the image fetches, by call number;
- the configuration values.

Where the intended behaviour and the code differ, the model follows the code:
- **Every non-2xx status raises.** `raise_for_status` raises for every non-2xx
  status, not only for 4xx/5xx, so `IsSuccessStatus` is 200..299.
- **A disconnect gets code 400.** The `HTTPException(500)` raised after a
  disconnect is caught by the handler's own `except Exception`, so the reply
  has code 400 (`Endpoint.AbortedVideoRetried`).
- **A broken stream leaves a partial file.** When the transport breaks
  mid-body, the partial file is not removed, and later requests serve it
  (`Storage.BrokenStreamLeavesPartialFile`, `Endpoint.BrokenVideoServedLater`).
  Only a disconnect cleans up.
- **A custom name can match the storage name.** The public name equals the
  storage name whenever no custom name is given. The converse fails: a custom
  name can coincide with it (`Endpoint.CustomNameCanEqualStorageName`).
- **A video without `video_data` is not served from the cache.** It fails even
  when a stored copy exists, because `video_data` is read before the cache
  check. For an image set the cache check comes first.
- **`valid_check` rejects too many links.** Its message reads as if only the
  first links would be processed. In fact the input is rejected and nothing is
  processed (`Batch.ValidCheck`).
- **A sanitised name can end in whitespace.** Stripping happens before
  truncation, so the cut can end in whitespace. Then a second sanitisation is
  not a no-op (`Sanitize.TruncationCanEndInSpace`, `Sanitize.SanitizeTwiceIff`).
  For the batch page this means the suggested file name and the name the
  endpoint serves under then differ (`Batch.HintMatchesServedName`).
- **A quote stays in the script.** A sanitised description may keep a single
  quote, which the download script embeds unescaped
  (`Batch.HintFilenameMayHoldQuote`).

## Model

| member | source | states |
|---|---|---|
| Sanitize.SanitizeFilename | app/api/endpoints/download.py:54-70 | the result is 1 to 200 characters long and holds none of `< > : " / \ \| ? *` |
| Sanitize.IsSpace | app/api/endpoints/download.py:63 | the characters Python's `str.isspace` accepts, which `strip()` removes |
| Sanitize.Strip | app/api/endpoints/download.py:63 | `strip()`: the part between ContentStart and ContentEnd |
| Sanitize.ReplaceIllegal | app/api/endpoints/download.py:59-61 | same length; each illegal character becomes `_`, every other character stays; nothing illegal is left |
| Sanitize.Truncate | app/api/endpoints/download.py:65-66 | keeps the first min(n, 200) characters unchanged |
| Sanitize.ContentStart | app/api/endpoints/download.py:63 | the strip start is the first non-whitespace position, with only whitespace before it |
| Sanitize.ContentEnd | app/api/endpoints/download.py:63 | the strip end follows the last non-whitespace position, with only whitespace after it |
| Sanitize.AllSpaceFallsBack | app/api/endpoints/download.py:63-69 | an empty or all-whitespace name gives "video" |
| Sanitize.SanitizeKeepsCore | app/api/endpoints/download.py:59-70 | for a name with non-blank core filename[lo..hi], the result is the first up-to-200 characters of that core with illegal characters replaced |
| Sanitize.CleanNameUnchanged | app/api/endpoints/download.py:54-70 | a name of at most 200 legal characters without surrounding whitespace is returned unchanged |
| Sanitize.TrailingSpaceNotFixed | app/api/endpoints/download.py:54-70 | a name ending in whitespace is never returned unchanged |
| Sanitize.TruncationCanEndInSpace | app/api/endpoints/download.py:63-66 | a long name whose 200th character is a space sanitises to a name that ends in a space and is changed by a second pass |
| Sanitize.SanitizeIdempotentWithoutTrailingSpace | app/api/endpoints/download.py:54-70 | sanitising a sanitised name that does not end in whitespace changes nothing |
| Sanitize.SanitizeTwiceIff | app/web/views/ParseVideo.py:78-94 | a second sanitisation is a no-op exactly when the first result does not end in whitespace |
| Naming.DecimalRoundTrip | app/api/endpoints/download.py:202 | reading the decimal digits of an image position back gives the position |
| Naming.DecimalInjective | app/api/endpoints/download.py:202 | distinct positions have distinct digit strings |
| Naming.DecimalString | app/api/endpoints/download.py:202 | `str(n)`: at least one character, all decimal digits |
| Naming.FilePrefix | app/api/endpoints/download.py:133 | the configured prefix when `prefix` is true, otherwise empty |
| Naming.VideoStorageName | app/api/endpoints/download.py:147-150 | `{prefix}{platform}_{id}.mp4`, with `_watermark` before the extension for the watermarked variant |
| Naming.ZipStorageName | app/api/endpoints/download.py:181-184 | `{prefix}{platform}_{id}_images.zip`, with `_watermark` before the extension for the watermarked variant |
| Naming.ImageFileName | app/api/endpoints/download.py:202 | `{prefix}{platform}_{id}_{position}.{format}`, with `_watermark` before the dot for the watermarked variant |
| Naming.PublicName | app/api/endpoints/download.py:142-150 | the sanitised custom name plus the extension when `naming` is truthy, otherwise the storage name |
| Naming.PathJoin | app/api/endpoints/download.py:134 | POSIX `os.path.join` of two parts: an absolute second part wins, otherwise one '/' separates them |
| Naming.AssetDirectory | app/api/endpoints/download.py:134 | the `{platform}_{type}` directory under the download root |
| Naming.Basename | app/api/endpoints/download.py:213 | the archive member name holds no '/' |
| Naming.BasenameOfJoin | app/api/endpoints/download.py:203-213 | joining a slash-free name to any directory and taking the basename gives the name back |
| Naming.JoinInjective | app/api/endpoints/download.py:154 | two names starting with the same character join to one path only if they are equal |
| Naming.WatermarkVariantsDistinct | app/api/endpoints/download.py:147-149 | plain and watermarked variants of a video, a zip or an image never share a path in one directory |
| Naming.ArtifactNamesDistinct | app/api/endpoints/download.py:147-202 | the video name, the zip name and any per-image name of one item are pairwise different |
| Naming.KindDirectoriesDistinct | app/api/endpoints/download.py:134 | the video and image directories of one platform differ |
| Naming.VideoPathNeverZipPath | app/api/endpoints/download.py:146-183 | a stored video path and a stored zip path differ for all directories and name parts: one ends in ".mp4", the other in ".zip" |
| Naming.ArtifactPathsDistinct | app/api/endpoints/download.py:134-203 | with slash-free parts, stored video, zip and per-image paths of one item differ in whichever directories |
| Naming.NoSlashInNames | app/api/endpoints/download.py:147-202 | slash-free parts give slash-free artifact names |
| Naming.ImageNameInjective | app/api/endpoints/download.py:202 | a per-image name determines its position and its format |
| Storage.FileStore.Create | app/api/endpoints/download.py:42 | opening for writing creates or truncates the file as empty, leaving the rest |
| Storage.FileStore.Append | app/api/endpoints/download.py:49 | a write appends the chunk to the file, leaving the rest |
| Storage.FileStore.Remove | app/api/endpoints/download.py:47 | removal deletes exactly that path |
| Storage.FileStore.Put | app/api/endpoints/download.py:207-211 | writing a whole file replaces what was at the path, leaving the rest |
| Storage.Concat | app/api/endpoints/download.py:43-49 | the bytes of the chunks, in order |
| Storage.StreamOutcome | app/api/endpoints/download.py:38-50 | a failed connection or non-2xx status raises, a disconnect noticed before one of the chunks gives false, a broken transport raises, otherwise true |
| Storage.FilesAfterStream | app/api/endpoints/download.py:38-50 | the store is untouched when nothing was accepted, loses the target after a disconnect, and otherwise holds every chunk received at the target |
| Storage.ConcatPrefix | app/api/endpoints/download.py:43-49 | what is on disk after i chunks is a prefix of the whole body |
| Storage.FetchDataStream | app/api/endpoints/download.py:32-50 | result and store are those of StreamOutcome/FilesAfterStream: a connect failure or non-2xx raises before the file is opened; a disconnect removes the file and reports false; otherwise the file holds every chunk received |
| Storage.StreamTouchesOnlyTarget | app/api/endpoints/download.py:32-50 | every path other than the target is unchanged |
| Storage.StreamLeavesWholeOrNothing | app/api/endpoints/download.py:42-50 | an aborted stream leaves no target; a completed one leaves exactly the received bytes |
| Storage.BrokenStreamLeavesPartialFile | app/api/endpoints/download.py:42-50 | a transport failure after one chunk raises and leaves that chunk on disk |
| Images.FirstIndex | app/api/endpoints/download.py:199 | `list.index`: a position holding the link |
| Images.FirstIndexIsFirst | app/api/endpoints/download.py:199 | no earlier position holds the link |
| Images.Subtype | app/api/endpoints/download.py:201 | there is a subtype exactly when the content-type holds '/', and it holds no '/' |
| Types.IsSuccessStatus | app/api/endpoints/download.py:28-39 | the status test behind `raise_for_status`: the request succeeded exactly when the status is 200 to 299 |
| Images.SubtypeOf | app/api/endpoints/download.py:201 | "a/b" followed by nothing or a further field gives subtype b |
| Images.Vet | app/api/endpoints/download.py:198-201 | a transport failure, a non-2xx status, a missing content-type and one without '/' are rejected; otherwise the subtype and the body pass |
| Images.VetAccepts | app/api/endpoints/download.py:198-201 | a fetch passes exactly when it is a 2xx reply whose content-type is present and holds '/'; what passes is its subtype and body |
| Images.FirstFailure | app/api/endpoints/download.py:196-201 | the loop stops at the first rejected fetch: all earlier fetches pass |
| Images.ImagePathInjective | app/api/endpoints/download.py:202-203 | distinct numbers or formats give distinct image paths |
| Images.ApplyWritesAt | app/api/endpoints/download.py:207-208 | a path written by image j and no later image holds image j's body |
| Images.Saved | app/api/endpoints/download.py:196-208 | the images saved before the first rejected fetch, each numbered by its link's first position |
| Images.ImagePath | app/api/endpoints/download.py:202-203 | the image file name joined onto the image directory; distinct numbers or formats give distinct paths (`Images.ImagePathInjective`) |
| Images.Paths | app/api/endpoints/download.py:195-204 | `image_file_list`: one path per saved image, in loop order, entry j being image j's path (`Images.PathsAt`) |
| Images.ApplyWrites | app/api/endpoints/download.py:207-208 | the store after writing the saved images one after the other |
| Images.SaveOutcome | app/api/endpoints/download.py:196-208 | the list of saved paths when every fetch passes, otherwise the first rejection's reason |
| Images.SaveImages | app/api/endpoints/download.py:193-208 | the outcome is the saved paths or the first failure reason (SaveOutcome), and the store holds exactly the images saved before the first failure |
| Images.ZipEntries | app/api/endpoints/download.py:212-213 | one member per saved path, in order, named by its basename, holding that file's bytes |
| Images.PackZip | app/api/endpoints/download.py:210-213 | the zip at the target holds ZipEntries of the saved paths, and nothing else changes |
| Images.Archive | app/api/endpoints/download.py:210-213 | the zip members built from the saved images and the files they left |
| Images.FilesAfterArchive | app/api/endpoints/download.py:207-213 | the store after the image writes, with the zip of their members placed at the zip path |
| Images.ArchiveInFetchOrder | app/api/endpoints/download.py:196-213 | with distinct numbers, archive member j is image j under its file name with the body fetched for it |
| Images.DistinctLinksNumberInOrder | app/api/endpoints/download.py:199-202 | without repeated links image j is numbered j + 1 |
| Images.RepeatedLinkSharesFile | app/api/endpoints/download.py:199-213 | a repeated link reuses number 1; the second write wins and both archive members hold the last body under one name |
| Images.SaveSucceedsIffAllPass | app/api/endpoints/download.py:196-208 | the loop succeeds exactly when every fetch passes |
| Images.SavedPathsInLinkOrder | app/api/endpoints/download.py:196-204 | on success there is one path per link, in link order, each numbered by its link's first position |
| Images.SaveFailsAtFirstRejected | app/api/endpoints/download.py:196-208 | on failure the reason is that of the first rejected fetch, all earlier fetches passed, and each of their images stays on disk |
| Endpoint.DownloadFileHybrid | app/api/endpoints/download.py:114-222 | the reply is Respond and the store after the request is FilesAfterRequest |
| Endpoint.Prepare | app/api/endpoints/download.py:115-193 | the decisions before any media is fetched, in the handler's order: switch, resolver, then `video_data`, cache, source URL for a video; cache, `image_data`, list for an image set; nothing for another type |
| Endpoint.Directory | app/api/endpoints/download.py:134 | `download_path`: the root joined with `{platform}_{type}` |
| Endpoint.Respond | app/api/endpoints/download.py:163-222 | the reply, from the step and the outcome of the stream or the image loop |
| Endpoint.FilesAfterRequest | app/api/endpoints/download.py:137-216 | the store after the request, from the step and what the stream or the image loop and the packing leave |
| Endpoint.VideoTarget | app/api/endpoints/download.py:134-154 | the stored video's path under the platform's video directory, its public name and `video/mp4` |
| Endpoint.ZipTarget | app/api/endpoints/download.py:176-186 | the stored zip's path under the platform's image directory, its public name and `application/zip` |
| Endpoint.SourceUrl | app/api/endpoints/download.py:152-153 | the watermarked or plain source, as the flag asks |
| Endpoint.ImageUrls | app/api/endpoints/download.py:193-194 | the watermarked or plain image list, as the flag asks |
| Endpoint.DisabledRefusesEverything | app/api/endpoints/download.py:115-119 | with the switch off every request gets the same code-400 refusal and nothing is written |
| Endpoint.ResolutionFailureReported | app/api/endpoints/download.py:122-126 | a resolver failure gets code 400 with its message, and nothing is written |
| Endpoint.EveryFailureIsCode400 | app/api/endpoints/download.py:115-222 | every error reply has code 400; the refusal comes exactly when the switch is off, a resolver error exactly when the resolver raised, and there is no reply exactly when the type is neither video nor image |
| Endpoint.ServedFileExists | app/api/endpoints/download.py:156-216 | a file reply names a path present in the store afterwards |
| Endpoint.CachedVideoServed | app/api/endpoints/download.py:156-158 | an existing stored video is served as it is, with no write |
| Endpoint.CachedArchiveServed | app/api/endpoints/download.py:188-190 | an existing stored zip is served as it is, with no write, even without image data |
| Endpoint.MissingVideoDataFailsBeforeCache | app/api/endpoints/download.py:152-158 | a video descriptor without video data fails with code 400 before the cache is consulted |
| Endpoint.CompletedVideoHoldsStream | app/api/endpoints/download.py:163-171 | after a completed stream the video is served and its file holds exactly the streamed bytes |
| Endpoint.AbortedVideoRetried | app/api/endpoints/download.py:163-168 | an aborted stream gets code 400 and the next identical request takes the same download step again |
| Endpoint.BrokenVideoServedLater | app/api/endpoints/download.py:156-171 | a stream that breaks after a 2xx status gets code 400, its partial file stays at the target, and the next identical request serves that file |
| Endpoint.SecondRequestIsCacheHit | app/api/endpoints/download.py:156-190 | after a successful request the same request gets the same reply from the store, whatever the network does, and writes nothing |
| Endpoint.StorageIgnoresNaming | app/api/endpoints/download.py:142-150 | the storage path and the image naming never depend on the custom name |
| Endpoint.RenamedRequestSharesArtifact | app/api/endpoints/download.py:142-190 | a request under another custom name is served from the same stored file under its own public name, and writes nothing |
| Endpoint.CustomPublicName | app/api/endpoints/download.py:142-150 | for every configuration and descriptor, a non-empty custom name gives the sanitised name plus ".mp4" or ".zip", 1 to 200 characters without an illegal character |
| Endpoint.PublicNameChoice | app/api/endpoints/download.py:142-150 | without a custom name the public name is the stored file's basename; with one it is the sanitised name plus ".mp4" or ".zip" |
| Endpoint.CustomNameCanEqualStorageName | app/api/endpoints/download.py:142-150 | the custom name "x_123" without prefix gives the same public name as no custom name |
| Endpoint.WatermarkVariantsStoredApart | app/api/endpoints/download.py:147-149 | the plain and watermarked variants of a video or zip are stored at different paths |
| Endpoint.VideoAndZipStoredApart | app/api/endpoints/download.py:134-186 | for any two requests and descriptors, a stored video path is never a stored zip path (".mp4" against ".zip") |
| Endpoint.VideoAndImagesStoredApart | app/api/endpoints/download.py:134-202 | a video and an image set with the same platform and id never share a stored path |
| Endpoint.ConcreteScenario | app/api/endpoints/download.py:130-163 | item 123 of platform "x" is streamed to x_video/x_123.mp4 and served as x_123.mp4; its missing watermarked source gives code 400 |
| Batch.ValidCheck | app/web/views/ParseVideo.py:24-39 | the input is accepted exactly when 1 to Max_Take_URLs links are found; no link and too many links are told apart |
| Batch.InfoOf | app/web/views/ParseVideo.py:227-236 | the entry keeps the link, is Video exactly for type "video", and keeps the description when there is one, "video" otherwise |
| Batch.Record | app/web/views/ParseVideo.py:216-311 | a failed resolution counts as a failure and appends the link to the failed list; a resolved one appends its entry and the link and counts as a success |
| Batch.Tally | app/web/views/ParseVideo.py:212-311 | the report after the first n links, one Record per link in order |
| Batch.ParseVideo | app/web/views/ParseVideo.py:212-236 | the counters and lists are the Tally of all links |
| Batch.Positions | app/web/views/ParseVideo.py:212-224 | the listed calls are resolved (or failed) calls, in increasing order |
| Batch.PositionsComplete | app/web/views/ParseVideo.py:212-224 | every resolved (or failed) call is listed |
| Batch.TallyCounts | app/web/views/ParseVideo.py:192-311 | the counters equal the list lengths, and every link is counted once |
| Batch.ResolvedInOrder | app/web/views/ParseVideo.py:226-311 | the success list is the resolved links in input order, and video_info_list entry k is built from the k-th resolved link |
| Batch.FailedInOrder | app/web/views/ParseVideo.py:216-224 | the failed list is the links whose resolution raised, in input order |
| Batch.BatchIsolation | app/web/views/ParseVideo.py:216-224 | a failure in the middle of three links does not stop the other two from being parsed |
| Batch.VideoItems | app/web/views/ParseVideo.py:107 | the filtered list holds only Video entries and is no longer than the input |
| Batch.VideoPositions | app/web/views/ParseVideo.py:107 | the positions of Video entries in the list, in increasing order |
| Batch.VideoPositionsComplete | app/web/views/ParseVideo.py:107 | every Video entry's position is listed |
| Batch.VideoItemsInOrder | app/web/views/ParseVideo.py:107 | the filter keeps the Video entries in input order, each once: item k is the entry at the k-th Video position |
| Batch.VideoItemAt | app/web/views/ParseVideo.py:107 | item k of the filter is the entry at the k-th Video position |
| Batch.ScheduledAreTheVideos | app/web/views/ParseVideo.py:107 | an entry is scheduled exactly when it is a Video entry of the list |
| Batch.VideoCountIsTotal | app/web/views/ParseVideo.py:348 | the button's count equals the number of downloads triggered |
| Batch.VideoCount | app/web/views/ParseVideo.py:348 | a sum of ones, one per Video entry |
| Batch.ButtonIffDownloads | app/web/views/ParseVideo.py:348-349 | the button is offered exactly when there is a video to download |
| Batch.DownloadAllVideos | app/web/views/ParseVideo.py:107-160 | no video gives the warning page; otherwise one scheduled download and one table row per video, in order, with the total, and the emitted delays are staggered |
| Batch.HintFor | app/web/views/ParseVideo.py:123-148 | the k-th download: delay k * 100 ms, a request without prefix or watermark naming the sanitised description, and that name plus `.mp4` |
| Batch.Hints | app/web/views/ParseVideo.py:123-148 | the scheduled downloads of the video items, numbered from 1 |
| Batch.Table | app/web/views/ParseVideo.py:157-160 | the header row, then one numbered row per video item with its file name |
| Batch.HintFilename | app/web/views/ParseVideo.py:141-160 | `f"{clean_desc}.mp4"`: ends in ".mp4", 5 to 204 characters, and the part before it holds no illegal character |
| Batch.HintsAt | app/web/views/ParseVideo.py:123-138 | download k + 1 is for video k, with delay (k + 1) * 100 ms, no prefix, no watermark and the sanitised description as name |
| Batch.TableAt | app/web/views/ParseVideo.py:157-160 | the table is a header and then row k + 1 with number k + 1 and video k's file name |
| Batch.HintsStaggered | app/web/views/ParseVideo.py:123-138 | in the scheduled downloads, download k + 1 fires (k + 1) * 100 ms after the click |
| Batch.DelaysStaggered | app/web/views/ParseVideo.py:138 | staggered delays are positive, strictly increasing and 100 ms apart |
| Batch.HintMatchesServedName | app/web/views/ParseVideo.py:128-143 | the endpoint serves exactly the suggested file name when the sanitised description does not end in whitespace, and only then |
| Batch.HintFilenameMayHoldQuote | app/web/views/ParseVideo.py:128-143 | a description "'" keeps its quote in the suggested file name |

## Left out

- **Networking and files.** The HTTP clients, the aiofiles and zipfile
  internals, asyncio and the actual file system are not modelled. The store is
  a map from paths to contents, and a zip is its list of members.
- **Directory creation.** The directory-creation call (download.py:137) is
  not modelled. Directories are implicit in paths.
- **Crawler headers.** The header retrieval before streaming (download.py:161)
  and the crawler's header dictionaries are left out. Any failure there would
  surface as one more code-400 reply.
- **The resolver (`hybrid_parsing_single_video`).** It is not part of this
  model. Its answer is a parameter, and a missing platform or id is not
  distinguished from a present one.
- **Zip creation order.** The zip file is created before its members are
  read. The model writes the archive in one step, since nothing observes the
  half-built zip.
- **Link extraction and translation.** `find_url` and the translation helper
  `t` are not part of this model. The batch page receives the links found and
  compares item types symbolically.
- **Page rendering.** The pywebio rendering, `error_do`, the progress
  messages, `url_index`, scrolling and timing are display only and are left
  out.
- **Batch.ParseVideo: rendering failures.** It assumes the result table renders. A resolved post without
  `author` data, a video without `video_data` or an image set without an
  image list raises outside the loop's `try` and ends the page. That abort is
  not modelled.
- **Batch.InfoOf: a present but null `desc`.** It reads a `desc` that is
  present but null as missing. The code passes that `None` on and would fail
  later, in `sanitize_filename`.
- **Batch.DownloadAllVideos: the script text.** It models the scheduled
  requests as values. The URL quoting, the JavaScript text and the browser
  that runs it are not modelled.
- **Naming.PathJoin, Naming.Basename: POSIX rules only.** They follow
  POSIX `os.path` (`posixpath`). The Windows rules of `ntpath`, with '\\'
  and drive letters as separators, are not modelled.
- **Concurrency.** Concurrent requests racing on one storage path are not
  modelled. Each request runs alone against the store.
- **Configuration loading.** The YAML configuration loading is not modelled.
  `Download_Switch`, `Download_Path`, `Download_File_Prefix` and
  `Max_Take_URLs` are parameters.
