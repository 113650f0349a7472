/** Value types shared by the download pipeline: wrappers, bytes, stored files,
    configuration, the resolver's descriptor, HTTP replies and endpoint replies. */
module Types {

  datatype Option<+T> = None | Some(value: T)

  datatype Result<+T, +E> = Ok(value: T) | Err(error: E)

  newtype byte = x: int | 0 <= x < 256

  type Bytes = seq<byte>

  /** One member of a zip archive: its archive name and its bytes. */
  datatype Entry = Entry(name: string, data: Bytes)

  /** A stored file: plain bytes, or a zip archive given by its ordered entries. */
  datatype File = Raw(bytes: Bytes) | Zip(entries: seq<Entry>)

  /** The API section of config.yaml that the download endpoint reads. */
  datatype ApiConfig = ApiConfig(downloadSwitch: bool, downloadPath: string, downloadFilePrefix: string)

  /** The query parameters of GET /api/download; `naming` is absent when not given. */
  datatype DownloadRequest = DownloadRequest(url: string, prefix: bool, withWatermark: bool, naming: Option<string>)

  datatype VideoData = VideoData(wmVideoUrl: Option<string>, nwmVideoUrl: Option<string>)

  datatype ImageData = ImageData(watermarkImageList: Option<seq<string>>, noWatermarkImageList: Option<seq<string>>)

  /** What the hybrid resolver returns for one link (minimal form). An absent
      `desc` is a missing key; `videoData`/`imageData` are absent when the
      resolver gave none. */
  datatype Descriptor = Descriptor(
    kind: string,
    platform: string,
    awemeId: string,
    desc: Option<string>,
    videoData: Option<VideoData>,
    imageData: Option<ImageData>)

  /** Why a download failed. Every failure in the endpoint becomes a code-400 reply. */
  datatype Reason =
    | Disabled
    | ResolutionFailed(message: string)
    | MissingVideoData
    | MissingImageData
    | MissingSourceUrl
    | UpstreamStatus(status: int)
    | TransportFailed
    | MissingContentType
    | NoSubtypeInContentType
    | DeliveryAborted

  /** What the endpoint answers: a file response, an error response, or nothing
      (the handler falls through for an unknown data type). */
  datatype Reply =
    | FileReply(path: string, filename: string, mediaType: string)
    | ErrorReply(code: int, reason: Reason)
    | NullReply

  /** httpx's `raise_for_status` accepts exactly the 2xx statuses. */
  predicate IsSuccessStatus(status: int) {
    200 <= status < 300
  }

  /** A buffered GET: status, content-type header (absent when not sent) and body. */
  datatype HttpResponse = HttpResponse(status: int, contentType: Option<string>, body: Bytes)

  /** The outcome of one buffered GET: the transport failed, or a response arrived. */
  datatype FetchReply = FetchFailed | Fetched(response: HttpResponse)

  /** The outcome of one streamed GET: no connection, or a status and the chunks
      `aiter_bytes` yields; `broken` means the transport raised after the last of them. */
  datatype StreamReply = ConnectFailed | Streamed(status: int, chunks: seq<Bytes>, broken: bool)
}
