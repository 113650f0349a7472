/** The download directory as a mutable store of files, and the cancellable
    streaming write that saves a video chunk by chunk. */
module Storage {
  import opened Types

  /** The files under the download root, by path. */
  class FileStore {
    var files: map<string, File>

    constructor (initial: map<string, File>)
      ensures files == initial
    {
      files := initial;
    }

    /** Opening a path with mode 'wb' creates it, or truncates it, as an empty file. */
    method Create(path: string)
      modifies this
      ensures files == old(files)[path := Raw([])]
    {
      files := files[path := Raw([])];
    }

    /** Writing bytes to a file opened for writing appends them. */
    method Append(path: string, data: Bytes)
      requires path in files && files[path].Raw?
      modifies this
      ensures files == old(files)[path := Raw(old(files)[path].bytes + data)]
    {
      files := files[path := Raw(files[path].bytes + data)];
    }

    /** Replaces whatever is at path by the given file. */
    method Put(path: string, f: File)
      modifies this
      ensures files == old(files)[path := f]
    {
      files := files[path := f];
    }

    /** `os.remove(path)`. */
    method Remove(path: string)
      requires path in files
      modifies this
      ensures files == old(files) - {path}
    {
      files := files - {path};
    }
  }

  /** The bytes of the chunks, in order. */
  function Concat(chunks: seq<Bytes>): Bytes {
    if chunks == [] then [] else Concat(chunks[..|chunks| - 1]) + chunks[|chunks| - 1]
  }

  lemma ConcatSnoc(chunks: seq<Bytes>, i: nat)
    requires i < |chunks|
    ensures Concat(chunks[..i + 1]) == Concat(chunks[..i]) + chunks[i]
  {
    assert chunks[..i + 1][..i] == chunks[..i];
  }

  /** The file on disk only ever grows: what is written after i chunks is a
      prefix of what is written after all of them. */
  lemma {:induction false} ConcatPrefix(chunks: seq<Bytes>, i: nat)
    requires i <= |chunks|
    ensures |Concat(chunks[..i])| <= |Concat(chunks)|
    ensures Concat(chunks[..i]) == Concat(chunks)[..|Concat(chunks[..i])|]
    decreases |chunks| - i
  {
    if i < |chunks| {
      ConcatPrefix(chunks, i + 1);
      ConcatSnoc(chunks, i);
      var a := Concat(chunks[..i]);
      var b := Concat(chunks[..i + 1]);
      assert b[..|a|] == a;
      assert chunks[..|chunks|] == chunks;
    } else {
      assert chunks[..i] == chunks;
    }
  }

  /** How a streamed download ends. */
  datatype StreamResult = Completed | Aborted | Raised(reason: Reason)

  /** The requester went away while one of the first n chunks was pending. */
  predicate DisconnectsDuring(n: nat, disconnected: nat -> bool) {
    exists k :: 0 <= k < n && disconnected(k)
  }

  /** What `fetch_data_stream` reports: an exception for a failed connection or a
      non-2xx status, false once the requester disconnects, an exception when the
      transport breaks mid-body, true otherwise. */
  function StreamOutcome(reply: StreamReply, disconnected: nat -> bool): StreamResult {
    match reply
    case ConnectFailed => Raised(TransportFailed)
    case Streamed(status, chunks, broken) =>
      if !IsSuccessStatus(status) then Raised(UpstreamStatus(status))
      else if DisconnectsDuring(|chunks|, disconnected) then Aborted
      else if broken then Raised(TransportFailed)
      else Completed
  }

  /** The files after `fetch_data_stream`: untouched when no body was accepted,
      the target removed after a disconnect, otherwise the target holding every
      chunk received (also when the transport broke after them). */
  function FilesAfterStream(files: map<string, File>, path: string, reply: StreamReply, disconnected: nat -> bool): map<string, File> {
    match reply
    case ConnectFailed => files
    case Streamed(status, chunks, broken) =>
      if !IsSuccessStatus(status) then files
      else if DisconnectsDuring(|chunks|, disconnected) then files - {path}
      else files[path := Raw(Concat(chunks))]
  }

  /** `fetch_data_stream`: stream the body into path, checking before each
      chunk whether the requester is still connected. */
  method FetchDataStream(fs: FileStore, reply: StreamReply, disconnected: nat -> bool, path: string)
    returns (result: StreamResult)
    modifies fs
    ensures result == StreamOutcome(reply, disconnected)
    ensures fs.files == FilesAfterStream(old(fs.files), path, reply, disconnected)
  {
    if reply.ConnectFailed? {
      return Raised(TransportFailed);
    }
    if !IsSuccessStatus(reply.status) {
      return Raised(UpstreamStatus(reply.status));
    }
    var chunks := reply.chunks;
    fs.Create(path);
    var i := 0;
    while i < |chunks|
      invariant 0 <= i <= |chunks|
      invariant forall k :: 0 <= k < i ==> !disconnected(k)
      invariant fs.files == old(fs.files)[path := Raw(Concat(chunks[..i]))]
    {
      if disconnected(i) {
        fs.Remove(path);
        assert DisconnectsDuring(|chunks|, disconnected);
        return Aborted;
      }
      fs.Append(path, chunks[i]);
      ConcatSnoc(chunks, i);
      i := i + 1;
    }
    assert chunks[..i] == chunks;
    assert !DisconnectsDuring(|chunks|, disconnected);
    if reply.broken {
      return Raised(TransportFailed);
    }
    return Completed;
  }

  /** After any streamed download, every other path is as it was. */
  lemma StreamTouchesOnlyTarget(files: map<string, File>, path: string, reply: StreamReply, disconnected: nat -> bool, other: string)
    requires other != path
    ensures var after := FilesAfterStream(files, path, reply, disconnected);
      (other in after <==> other in files) && (other in files ==> after[other] == files[other])
  {
  }

  /** The cleanup promise: an aborted stream leaves no file at the target, and a
      target that remains after a 2xx reply holds exactly the bytes received. */
  lemma StreamLeavesWholeOrNothing(files: map<string, File>, path: string, reply: StreamReply, disconnected: nat -> bool)
    ensures StreamOutcome(reply, disconnected) == Aborted ==> path !in FilesAfterStream(files, path, reply, disconnected)
    ensures StreamOutcome(reply, disconnected) == Completed ==>
      FilesAfterStream(files, path, reply, disconnected) == files[path := Raw(Concat(reply.chunks))]
    ensures reply.Streamed? && IsSuccessStatus(reply.status) && !DisconnectsDuring(|reply.chunks|, disconnected) ==>
      FilesAfterStream(files, path, reply, disconnected)[path] == Raw(Concat(reply.chunks))
  {
  }

  /** A transport failure mid-body is not cleaned up: the target keeps the chunks
      received so far, e.g. one chunk of a body that was to have more. */
  lemma BrokenStreamLeavesPartialFile(files: map<string, File>, path: string, chunk: Bytes)
    ensures var reply := Streamed(200, [chunk], true);
      var none := (k: nat) => false;
      StreamOutcome(reply, none) == Raised(TransportFailed)
      && FilesAfterStream(files, path, reply, none) == files[path := Raw(chunk)]
  {
    var none := (k: nat) => false;
    assert Concat([chunk]) == chunk by {
      assert [chunk][..0] == [];
    }
    assert !DisconnectsDuring(1, none);
  }
}
