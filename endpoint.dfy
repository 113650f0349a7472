/** `download_file_hybrid`, the GET /api/download handler: refuse when the
    endpoint is switched off, resolve the link, name the artifact, serve it from
    the download directory when it is already there, otherwise stream the video
    or fetch and pack the images, and turn every failure into a code-400 reply. */
module Endpoint {
  import opened Types
  import opened Sanitize
  import opened Naming
  import opened Storage
  import opened Images

  /** Every failure of the handler is answered with this code. */
  const ErrorCode: int := 400

  const VideoMediaType: string := "video/mp4"

  const ZipMediaType: string := "application/zip"

  /** The artifact a request is about: where it is stored, the name it is
      served under and its media type. */
  datatype Target = Target(path: string, publicName: string, mediaType: string)

  function Fail(reason: Reason): Reply {
    ErrorReply(ErrorCode, reason)
  }

  function Serve(t: Target): Reply {
    FileReply(t.path, t.publicName, t.mediaType)
  }

  /** `download_path`: the directory for the descriptor's platform and type. */
  function Directory(config: ApiConfig, d: Descriptor): string {
    AssetDirectory(config.downloadPath, d.platform, d.kind)
  }

  /** The stored video and the name it is served under. */
  function VideoTarget(config: ApiConfig, req: DownloadRequest, d: Descriptor): Target {
    var storage := VideoStorageName(FilePrefix(config, req.prefix), d.platform, d.awemeId, req.withWatermark);
    Target(PathJoin(Directory(config, d), storage), PublicName(req.naming, ".mp4", storage), VideoMediaType)
  }

  /** The stored zip of an image set and the name it is served under. */
  function ZipTarget(config: ApiConfig, req: DownloadRequest, d: Descriptor): Target {
    var storage := ZipStorageName(FilePrefix(config, req.prefix), d.platform, d.awemeId, req.withWatermark);
    Target(PathJoin(Directory(config, d), storage), PublicName(req.naming, ".zip", storage), ZipMediaType)
  }

  /** What the per-image names of the request are built from. */
  function ImagesNaming(config: ApiConfig, req: DownloadRequest, d: Descriptor): ImageNaming {
    ImageNaming(FilePrefix(config, req.prefix), d.platform, d.awemeId, req.withWatermark, Directory(config, d))
  }

  /** `wm_video_url_HQ` or `nwm_video_url_HQ`, as the watermark flag asks. */
  function SourceUrl(v: VideoData, withWatermark: bool): Option<string> {
    if withWatermark then v.wmVideoUrl else v.nwmVideoUrl
  }

  /** `watermark_image_list` or `no_watermark_image_list`, as the watermark flag asks. */
  function ImageUrls(im: ImageData, withWatermark: bool): Option<seq<string>> {
    if withWatermark then im.watermarkImageList else im.noWatermarkImageList
  }

  /** What the handler does once the link is resolved: answer at once, stream a
      video into a target, or fetch images and pack them into a target. */
  datatype Step =
    | Done(reply: Reply)
    | StreamVideo(source: string, target: Target)
    | BuildArchive(target: Target, naming: ImageNaming, urls: seq<string>)

  /** The decisions taken before any media is fetched, in the handler's order:
      the switch, the resolver, then per type the source lookup and the cache
      check. A video's `video_data` is read before its cache check, an image
      set's `image_data` after it. */
  function Prepare(config: ApiConfig, req: DownloadRequest, answer: Result<Descriptor, string>, files: map<string, File>): Step {
    if !config.downloadSwitch then Done(Fail(Disabled))
    else match answer
      case Err(message) => Done(Fail(ResolutionFailed(message)))
      case Ok(d) =>
        if d.kind == "video" then
          if d.videoData.None? then Done(Fail(MissingVideoData))
          else
            var t := VideoTarget(config, req, d);
            if t.path in files then Done(Serve(t))
            else match SourceUrl(d.videoData.value, req.withWatermark)
              case None => Done(Fail(MissingSourceUrl))
              case Some(source) => StreamVideo(source, t)
        else if d.kind == "image" then
          var t := ZipTarget(config, req, d);
          if t.path in files then Done(Serve(t))
          else if d.imageData.None? then Done(Fail(MissingImageData))
          else match ImageUrls(d.imageData.value, req.withWatermark)
            case None => Done(Fail(MissingImageData))
            case Some(urls) => BuildArchive(t, ImagesNaming(config, req, d), urls)
        else Done(NullReply)
  }

  /** The reply to one request, given the resolver's answer, the store, the
      stream each source URL gives, the disconnect probe and the image fetches. */
  function Respond(config: ApiConfig, req: DownloadRequest, answer: Result<Descriptor, string>, files: map<string, File>,
                   stream: string -> StreamReply, disconnected: nat -> bool, fetch: nat -> FetchReply): Reply {
    match Prepare(config, req, answer, files)
    case Done(r) => r
    case StreamVideo(source, t) =>
      (match StreamOutcome(stream(source), disconnected)
       case Completed => Serve(t)
       case Aborted => Fail(DeliveryAborted)
       case Raised(reason) => Fail(reason))
    case BuildArchive(t, p, urls) =>
      (match SaveOutcome(p, urls, fetch)
       case Ok(_) => Serve(t)
       case Err(reason) => Fail(reason))
  }

  /** The store after one request: unchanged when the handler answers at once,
      otherwise as the stream or the image loop and the packing leave it. */
  function FilesAfterRequest(config: ApiConfig, req: DownloadRequest, answer: Result<Descriptor, string>, files: map<string, File>,
                             stream: string -> StreamReply, disconnected: nat -> bool, fetch: nat -> FetchReply): map<string, File> {
    match Prepare(config, req, answer, files)
    case Done(_) => files
    case StreamVideo(source, t) => FilesAfterStream(files, t.path, stream(source), disconnected)
    case BuildArchive(t, p, urls) =>
      if SaveOutcome(p, urls, fetch).Ok? then FilesAfterArchive(files, t.path, p, Saved(urls, fetch))
      else ApplyWrites(files, p, Saved(urls, fetch))
  }

  /** `download_file_hybrid` on the download directory `fs`. */
  method DownloadFileHybrid(fs: FileStore, config: ApiConfig, req: DownloadRequest, answer: Result<Descriptor, string>,
                            stream: string -> StreamReply, disconnected: nat -> bool, fetch: nat -> FetchReply)
    returns (reply: Reply)
    modifies fs
    ensures reply == Respond(config, req, answer, old(fs.files), stream, disconnected, fetch)
    ensures fs.files == FilesAfterRequest(config, req, answer, old(fs.files), stream, disconnected, fetch)
  {
    var step := Prepare(config, req, answer, fs.files);
    if step.Done? {
      return step.reply;
    } else if step.StreamVideo? {
      var result := FetchDataStream(fs, stream(step.source), disconnected, step.target.path);
      match result
      case Completed => reply := Serve(step.target);
      case Aborted => reply := Fail(DeliveryAborted);
      case Raised(reason) => reply := Fail(reason);
    } else {
      var outcome := SaveImages(fs, step.naming, step.urls, fetch);
      if outcome.Err? {
        return Fail(outcome.error);
      }
      ApplyWritesCovers(old(fs.files), step.naming, Saved(step.urls, fetch));
      PackZip(fs, step.target.path, outcome.value);
      reply := Serve(step.target);
    }
  }

  /** The switch is checked first: when it is off every request is refused
      with the same error, whatever the resolver would say, and nothing is written. */
  lemma DisabledRefusesEverything(config: ApiConfig, req: DownloadRequest, answer: Result<Descriptor, string>, files: map<string, File>,
                                  stream: string -> StreamReply, disconnected: nat -> bool, fetch: nat -> FetchReply)
    requires !config.downloadSwitch
    ensures Respond(config, req, answer, files, stream, disconnected, fetch) == ErrorReply(400, Disabled)
    ensures FilesAfterRequest(config, req, answer, files, stream, disconnected, fetch) == files
  {
  }

  /** A resolver failure is reported with its message, and nothing is written. */
  lemma ResolutionFailureReported(config: ApiConfig, req: DownloadRequest, message: string, files: map<string, File>,
                                  stream: string -> StreamReply, disconnected: nat -> bool, fetch: nat -> FetchReply)
    requires config.downloadSwitch
    ensures Respond(config, req, Err(message), files, stream, disconnected, fetch) == ErrorReply(400, ResolutionFailed(message))
    ensures FilesAfterRequest(config, req, Err(message), files, stream, disconnected, fetch) == files
  {
  }

  /** The handler never crashes: every reply is a file, a code-400 error, or
      (for a type other than video and image) nothing. The refusal comes
      exactly from the switch, a resolver error exactly from the resolver. */
  lemma EveryFailureIsCode400(config: ApiConfig, req: DownloadRequest, answer: Result<Descriptor, string>, files: map<string, File>,
                              stream: string -> StreamReply, disconnected: nat -> bool, fetch: nat -> FetchReply)
    ensures var r := Respond(config, req, answer, files, stream, disconnected, fetch);
      r.ErrorReply? ==> r.code == 400
    ensures var r := Respond(config, req, answer, files, stream, disconnected, fetch);
      r == ErrorReply(400, Disabled) <==> !config.downloadSwitch
    ensures var r := Respond(config, req, answer, files, stream, disconnected, fetch);
      (r.ErrorReply? && r.reason.ResolutionFailed?) <==> (config.downloadSwitch && answer.Err?)
    ensures Respond(config, req, answer, files, stream, disconnected, fetch).NullReply? <==>
      (config.downloadSwitch && answer.Ok? && answer.value.kind != "video" && answer.value.kind != "image")
  {
  }

  /** A file reply always names a file that is in the store afterwards. */
  lemma ServedFileExists(config: ApiConfig, req: DownloadRequest, answer: Result<Descriptor, string>, files: map<string, File>,
                         stream: string -> StreamReply, disconnected: nat -> bool, fetch: nat -> FetchReply)
    ensures var r := Respond(config, req, answer, files, stream, disconnected, fetch);
      r.FileReply? ==> r.path in FilesAfterRequest(config, req, answer, files, stream, disconnected, fetch)
  {
  }

  /** A stored video is served as it is: same reply, no fetch, no write. */
  lemma CachedVideoServed(config: ApiConfig, req: DownloadRequest, d: Descriptor, files: map<string, File>,
                          stream: string -> StreamReply, disconnected: nat -> bool, fetch: nat -> FetchReply)
    requires config.downloadSwitch && d.kind == "video" && d.videoData.Some?
    requires VideoTarget(config, req, d).path in files
    ensures Respond(config, req, Ok(d), files, stream, disconnected, fetch)
         == FileReply(VideoTarget(config, req, d).path, VideoTarget(config, req, d).publicName, "video/mp4")
    ensures FilesAfterRequest(config, req, Ok(d), files, stream, disconnected, fetch) == files
  {
  }

  /** A stored image archive is served as it is, even when the descriptor
      carries no image data, because the cache check comes first. */
  lemma CachedArchiveServed(config: ApiConfig, req: DownloadRequest, d: Descriptor, files: map<string, File>,
                            stream: string -> StreamReply, disconnected: nat -> bool, fetch: nat -> FetchReply)
    requires config.downloadSwitch && d.kind == "image"
    requires ZipTarget(config, req, d).path in files
    ensures Respond(config, req, Ok(d), files, stream, disconnected, fetch)
         == FileReply(ZipTarget(config, req, d).path, ZipTarget(config, req, d).publicName, "application/zip")
    ensures FilesAfterRequest(config, req, Ok(d), files, stream, disconnected, fetch) == files
  {
  }

  /** A video descriptor without `video_data` fails before the cache is
      consulted, so not even a stored copy is served. */
  lemma MissingVideoDataFailsBeforeCache(config: ApiConfig, req: DownloadRequest, d: Descriptor, files: map<string, File>,
                                         stream: string -> StreamReply, disconnected: nat -> bool, fetch: nat -> FetchReply)
    requires config.downloadSwitch && d.kind == "video" && d.videoData.None?
    ensures Respond(config, req, Ok(d), files, stream, disconnected, fetch) == ErrorReply(400, MissingVideoData)
    ensures FilesAfterRequest(config, req, Ok(d), files, stream, disconnected, fetch) == files
  {
  }

  /** A stored video holds exactly the streamed bytes when its download completes. */
  lemma CompletedVideoHoldsStream(config: ApiConfig, req: DownloadRequest, d: Descriptor, files: map<string, File>,
                                  stream: string -> StreamReply, disconnected: nat -> bool, fetch: nat -> FetchReply)
    requires Prepare(config, req, Ok(d), files).StreamVideo?
    requires StreamOutcome(stream(Prepare(config, req, Ok(d), files).source), disconnected) == Completed
    ensures var t := VideoTarget(config, req, d);
      var after := FilesAfterRequest(config, req, Ok(d), files, stream, disconnected, fetch);
      Respond(config, req, Ok(d), files, stream, disconnected, fetch) == Serve(t)
      && t.path in after && after[t.path] == Raw(Concat(stream(Prepare(config, req, Ok(d), files).source).chunks))
  {
  }

  /** An aborted download leaves nothing at the target, so the next identical
      request downloads again instead of serving a partial file. */
  lemma AbortedVideoRetried(config: ApiConfig, req: DownloadRequest, d: Descriptor, files: map<string, File>,
                            stream: string -> StreamReply, disconnected: nat -> bool, fetch: nat -> FetchReply)
    requires Prepare(config, req, Ok(d), files).StreamVideo?
    requires StreamOutcome(stream(Prepare(config, req, Ok(d), files).source), disconnected) == Aborted
    ensures Respond(config, req, Ok(d), files, stream, disconnected, fetch) == ErrorReply(400, DeliveryAborted)
    ensures var after := FilesAfterRequest(config, req, Ok(d), files, stream, disconnected, fetch);
      Prepare(config, req, Ok(d), after) == Prepare(config, req, Ok(d), files)
  {
  }

  /** A stream that breaks after a 2xx status without a disconnect fails the
      request, but its partial file stays at the target, and the next identical
      request serves that file. */
  lemma BrokenVideoServedLater(config: ApiConfig, req: DownloadRequest, d: Descriptor, files: map<string, File>,
                               stream: string -> StreamReply, disconnected: nat -> bool, fetch: nat -> FetchReply,
                               stream2: string -> StreamReply, disconnected2: nat -> bool, fetch2: nat -> FetchReply)
    requires Prepare(config, req, Ok(d), files).StreamVideo?
    requires var reply := stream(Prepare(config, req, Ok(d), files).source);
      reply.Streamed? && IsSuccessStatus(reply.status) && reply.broken && !DisconnectsDuring(|reply.chunks|, disconnected)
    ensures Respond(config, req, Ok(d), files, stream, disconnected, fetch) == ErrorReply(400, TransportFailed)
    ensures var after := FilesAfterRequest(config, req, Ok(d), files, stream, disconnected, fetch);
      var t := VideoTarget(config, req, d);
      after[t.path] == Raw(Concat(stream(Prepare(config, req, Ok(d), files).source).chunks))
      && Prepare(config, req, Ok(d), after) == Done(Serve(t))
      && Respond(config, req, Ok(d), after, stream2, disconnected2, fetch2) == Serve(t)
  {
  }

  /** Idempotent caching: once a download has succeeded, the same request is
      answered from the store, with the same reply, whatever the network does. */
  lemma SecondRequestIsCacheHit(config: ApiConfig, req: DownloadRequest, d: Descriptor, files: map<string, File>,
                                stream: string -> StreamReply, disconnected: nat -> bool, fetch: nat -> FetchReply,
                                stream2: string -> StreamReply, disconnected2: nat -> bool, fetch2: nat -> FetchReply)
    requires Respond(config, req, Ok(d), files, stream, disconnected, fetch).FileReply?
    ensures var after := FilesAfterRequest(config, req, Ok(d), files, stream, disconnected, fetch);
      Respond(config, req, Ok(d), after, stream2, disconnected2, fetch2) == Respond(config, req, Ok(d), files, stream, disconnected, fetch)
      && FilesAfterRequest(config, req, Ok(d), after, stream2, disconnected2, fetch2) == after
  {
  }

  /** The storage path never depends on the custom name. */
  lemma StorageIgnoresNaming(config: ApiConfig, req: DownloadRequest, d: Descriptor, naming: Option<string>)
    ensures VideoTarget(config, req.(naming := naming), d).path == VideoTarget(config, req, d).path
    ensures ZipTarget(config, req.(naming := naming), d).path == ZipTarget(config, req, d).path
    ensures ImagesNaming(config, req.(naming := naming), d) == ImagesNaming(config, req, d)
  {
  }

  /** Naming decoupling: after one request stored the asset, a request for the
      same asset under another custom name is served from the same stored file
      under its own public name, and writes nothing. */
  lemma RenamedRequestSharesArtifact(config: ApiConfig, req: DownloadRequest, d: Descriptor, files: map<string, File>,
                                     stream: string -> StreamReply, disconnected: nat -> bool, fetch: nat -> FetchReply,
                                     naming: Option<string>)
    requires Respond(config, req, Ok(d), files, stream, disconnected, fetch).FileReply?
    ensures var after := FilesAfterRequest(config, req, Ok(d), files, stream, disconnected, fetch);
      var first := Respond(config, req, Ok(d), files, stream, disconnected, fetch);
      var second := Respond(config, req.(naming := naming), Ok(d), after, stream, disconnected, fetch);
      second.FileReply? && second.path == first.path
      && second.filename == (if d.kind == "video" then VideoTarget(config, req.(naming := naming), d).publicName
                             else ZipTarget(config, req.(naming := naming), d).publicName)
      && FilesAfterRequest(config, req.(naming := naming), Ok(d), after, stream, disconnected, fetch) == after
  {
    var after := FilesAfterRequest(config, req, Ok(d), files, stream, disconnected, fetch);
    var renamed := req.(naming := naming);
    ServedFileExists(config, req, Ok(d), files, stream, disconnected, fetch);
    StorageIgnoresNaming(config, req, d, naming);
    if d.kind == "video" {
      var t := VideoTarget(config, renamed, d);
      assert t.path in after;
      assert Prepare(config, renamed, Ok(d), after) == Done(Serve(t));
    } else {
      var t := ZipTarget(config, renamed, d);
      assert t.path in after;
      assert Prepare(config, renamed, Ok(d), after) == Done(Serve(t));
    }
  }

  /** With a custom name the requester gets the sanitised name plus the
      extension, which holds no illegal character, whatever the stored path. */
  lemma CustomPublicName(config: ApiConfig, req: DownloadRequest, d: Descriptor)
    ensures req.naming.Some? && req.naming.value != "" ==>
      var custom := SanitizeFilename(req.naming.value);
      VideoTarget(config, req, d).publicName == custom + ".mp4"
      && ZipTarget(config, req, d).publicName == custom + ".zip"
      && 1 <= |custom| <= 200 && NoIllegal(custom)
  {
  }

  /** Without a custom name (absent or empty) the requester gets the stored
      file's own name; with one, the sanitised name plus the extension, which
      holds no illegal character. */
  lemma PublicNameChoice(config: ApiConfig, req: DownloadRequest, d: Descriptor)
    requires '/' !in config.downloadFilePrefix && '/' !in d.platform && '/' !in d.awemeId
    ensures req.naming.None? || req.naming.value == "" ==>
      VideoTarget(config, req, d).publicName == Basename(VideoTarget(config, req, d).path)
      && ZipTarget(config, req, d).publicName == Basename(ZipTarget(config, req, d).path)
    ensures req.naming.Some? && req.naming.value != "" ==>
      var custom := SanitizeFilename(req.naming.value);
      VideoTarget(config, req, d).publicName == custom + ".mp4"
      && ZipTarget(config, req, d).publicName == custom + ".zip"
      && 1 <= |custom| <= 200 && NoIllegal(custom)
  {
    CustomPublicName(config, req, d);
    var fp := FilePrefix(config, req.prefix);
    NoSlashInNames(fp, d.platform, d.awemeId, req.withWatermark, req.withWatermark, req.withWatermark, 1, "");
    BasenameOfJoin(Directory(config, d), VideoStorageName(fp, d.platform, d.awemeId, req.withWatermark));
    BasenameOfJoin(Directory(config, d), ZipStorageName(fp, d.platform, d.awemeId, req.withWatermark));
  }

  /** The converse does not hold: a custom name can coincide with the storage
      name, e.g. naming "x_123" for item 123 of platform "x" without prefix. */
  lemma CustomNameCanEqualStorageName(config: ApiConfig, d: Descriptor)
    requires d.platform == "x" && d.awemeId == "123"
    ensures var req := DownloadRequest("u", false, false, Some("x_123"));
      VideoTarget(config, req, d).publicName == VideoStorageName("", "x", "123", false)
  {
    var req := DownloadRequest("u", false, false, Some("x_123"));
    var storage := VideoStorageName(FilePrefix(config, req.prefix), d.platform, d.awemeId, req.withWatermark);
    assert VideoTarget(config, req, d).publicName == PublicName(Some("x_123"), ".mp4", storage);
    ScenarioCustomName();
    ScenarioPlainName();
  }

  lemma ScenarioCustomName()
    ensures SanitizeFilename("x_123") + ".mp4" == "x_123.mp4"
  {
    CleanNameUnchanged("x_123");
  }

  /** The watermarked and the plain variant of one asset are stored apart. */
  lemma WatermarkVariantsStoredApart(config: ApiConfig, req: DownloadRequest, d: Descriptor)
    ensures VideoTarget(config, req.(withWatermark := false), d).path != VideoTarget(config, req.(withWatermark := true), d).path
    ensures ZipTarget(config, req.(withWatermark := false), d).path != ZipTarget(config, req.(withWatermark := true), d).path
  {
    WatermarkVariantsDistinct(Directory(config, d), FilePrefix(config, req.prefix), d.platform, d.awemeId, 1, "");
  }

  /** A stored video never has the path of a stored zip, for any two
      descriptors: one path ends in ".mp4", the other in ".zip". */
  lemma VideoAndZipStoredApart(config: ApiConfig, req: DownloadRequest, images: DownloadRequest, video: Descriptor, zip: Descriptor)
    ensures VideoTarget(config, req, video).path != ZipTarget(config, images, zip).path
  {
    VideoPathNeverZipPath(Directory(config, video), Directory(config, zip),
                          FilePrefix(config, req.prefix), video.platform, video.awemeId, req.withWatermark,
                          FilePrefix(config, images.prefix), zip.platform, zip.awemeId, images.withWatermark);
  }

  /** A video and an image set of one platform and id never share a stored
      path, neither their zips nor their per-image files. */
  lemma VideoAndImagesStoredApart(config: ApiConfig, req: DownloadRequest, video: Descriptor, images: Descriptor,
                                  position: nat, format: string, imageMark: bool)
    requires video.kind == "video" && images.kind == "image"
    requires video.platform == images.platform && video.awemeId == images.awemeId
    requires '/' !in config.downloadFilePrefix && '/' !in video.platform && '/' !in video.awemeId && '/' !in format
    ensures VideoTarget(config, req, video).path != ZipTarget(config, req, images).path
    ensures VideoTarget(config, req, video).path != ImagePath(ImagesNaming(config, req, images).(withWatermark := imageMark), position, format)
  {
    VideoAndZipStoredApart(config, req, req, video, images);
    var fp := FilePrefix(config, req.prefix);
    ArtifactPathsDistinct(Directory(config, video), Directory(config, images), fp, video.platform, video.awemeId,
                          req.withWatermark, req.withWatermark, imageMark, position, format);
  }

  /** The example of a video item "123" of platform "x" stored under an empty
      root without prefix: it is saved as x_video/x_123.mp4 and served as
      x_123.mp4; asking for the watermarked variant, which it lacks, fails. */
  lemma ConcreteScenario(files: map<string, File>, stream: string -> StreamReply, disconnected: nat -> bool, fetch: nat -> FetchReply)
    requires "x_video/x_123.mp4" !in files && "x_video/x_123_watermark.mp4" !in files
    ensures Prepare(ScenarioConfig(), ScenarioRequest(false), Ok(ScenarioItem()), files)
         == StreamVideo("http://h/v.mp4", Target("x_video/x_123.mp4", "x_123.mp4", "video/mp4"))
    ensures Respond(ScenarioConfig(), ScenarioRequest(true), Ok(ScenarioItem()), files, stream, disconnected, fetch)
         == ErrorReply(400, MissingSourceUrl)
  {
    ScenarioPlainTarget();
    ScenarioMarkedPath();
  }

  function ScenarioConfig(): ApiConfig {
    ApiConfig(true, "", "")
  }

  function ScenarioItem(): Descriptor {
    Descriptor("video", "x", "123", None, Some(VideoData(None, Some("http://h/v.mp4"))), None)
  }

  function ScenarioRequest(withWatermark: bool): DownloadRequest {
    DownloadRequest("u", true, withWatermark, None)
  }

  lemma ScenarioDirectory()
    ensures Directory(ScenarioConfig(), ScenarioItem()) == "x_video"
  {
  }

  lemma ScenarioPlainName()
    ensures VideoStorageName("", "x", "123", false) == "x_123.mp4"
  {
  }

  lemma ScenarioMarkedName()
    ensures VideoStorageName("", "x", "123", true) == "x_123_watermark.mp4"
  {
  }

  lemma ScenarioPlainTarget()
    ensures VideoTarget(ScenarioConfig(), ScenarioRequest(false), ScenarioItem()) == Target("x_video/x_123.mp4", "x_123.mp4", "video/mp4")
  {
    ScenarioDirectory();
    ScenarioPlainName();
    assert PathJoin("x_video", "x_123.mp4") == "x_video/x_123.mp4";
  }

  lemma ScenarioMarkedPath()
    ensures VideoTarget(ScenarioConfig(), ScenarioRequest(true), ScenarioItem()).path == "x_video/x_123_watermark.mp4"
  {
    ScenarioDirectory();
    ScenarioMarkedName();
    assert PathJoin("x_video", "x_123_watermark.mp4") == "x_video/x_123_watermark.mp4";
  }
}
