/** Image-set assembly: fetch every image of a post in order, save each under a
    name derived from its first position in the list and its content-type
    subtype, then pack the saved files into one zip archive. */
module Images {
  import opened Types
  import opened Naming
  import opened Storage

  /** What the per-image names are built from. */
  datatype ImageNaming = ImageNaming(filePrefix: string, platform: string, awemeId: string, withWatermark: bool, directory: string)

  /** One saved image: the number its name carries, its extension and the bytes written. */
  datatype SavedImage = SavedImage(position: nat, format: string, body: Bytes)

  /** `list.index(x)`: the position of the first occurrence. */
  function FirstIndex(xs: seq<string>, x: string): (k: nat)
    requires x in xs
    ensures k < |xs| && xs[k] == x
  {
    if xs[0] == x then 0 else 1 + FirstIndex(xs[1..], x)
  }

  /** No earlier position holds x. */
  lemma {:induction false} FirstIndexIsFirst(xs: seq<string>, x: string, j: nat)
    requires x in xs && j < FirstIndex(xs, x)
    ensures xs[j] != x
  {
    if xs[0] != x && j > 0 {
      assert xs[1..][j - 1] == xs[j];
      FirstIndexIsFirst(xs[1..], x, j - 1);
    }
  }

  /** The text up to the first '/' (all of it when there is none). */
  function Segment(s: string): (r: string)
    ensures '/' !in r
    ensures |r| <= |s| && r == s[..|r|]
    ensures |r| < |s| ==> s[|r|] == '/'
  {
    if s == [] || s[0] == '/' then [] else [s[0]] + Segment(s[1..])
  }

  /** `content_type.split('/')[1]`: the field between the first and the second
      '/', or nothing (an IndexError) when there is no '/'. */
  function Subtype(contentType: string): (r: Option<string>)
    ensures r.None? <==> '/' !in contentType
    ensures r.Some? ==> '/' !in r.value
  {
    if contentType == [] then None
    else if contentType[0] == '/' then Some(Segment(contentType[1..]))
    else Subtype(contentType[1..])
  }

  lemma {:induction false} SegmentOf(b: string, rest: string)
    requires '/' !in b
    requires rest == [] || rest[0] == '/'
    ensures Segment(b + rest) == b
    decreases |b|
  {
    if b != [] {
      assert (b + rest)[1..] == b[1..] + rest;
      assert b[0] in b;
      assert '/' !in b[1..] by {
        assert forall c :: c in b[1..] ==> c in b;
      }
      SegmentOf(b[1..], rest);
    } else {
      assert b + rest == rest;
    }
  }

  /** `"a/b" + rest` has subtype b when a and b hold no '/' and rest is empty or
      starts a further field: "image/jpeg" gives "jpeg", "image/webp/x" gives "webp". */
  lemma {:induction false} SubtypeOf(a: string, b: string, rest: string)
    requires '/' !in a && '/' !in b
    requires rest == [] || rest[0] == '/'
    ensures Subtype(a + "/" + b + rest) == Some(b)
    decreases |a|
  {
    var s := a + "/" + b + rest;
    if a == [] {
      assert s == "/" + (b + rest);
      assert s[1..] == b + rest;
      SegmentOf(b, rest);
    } else {
      assert a[0] in a;
      assert '/' !in a[1..] by {
        assert forall c :: c in a[1..] ==> c in a;
      }
      assert s[1..] == a[1..] + "/" + b + rest;
      SubtypeOf(a[1..], b, rest);
    }
  }

  /** A response the loop accepts: the subtype that becomes the extension, and the body. */
  datatype Accepted = Accepted(format: string, body: Bytes)

  /** The checks one fetched image passes before it is saved: `fetch_data` raises
      for a transport failure or a non-2xx status; a missing content-type or one
      without '/' raises too. */
  function Vet(reply: FetchReply): Result<Accepted, Reason> {
    match reply
    case FetchFailed => Err(TransportFailed)
    case Fetched(resp) =>
      if !IsSuccessStatus(resp.status) then Err(UpstreamStatus(resp.status))
      else if resp.contentType.None? then Err(MissingContentType)
      else match Subtype(resp.contentType.value)
        case None => Err(NoSubtypeInContentType)
        case Some(format) => Ok(Accepted(format, resp.body))
  }

  /** Where the image numbered `position` (1-based) with the given extension is saved. */
  function ImagePath(p: ImageNaming, position: nat, format: string): string {
    PathJoin(p.directory, ImageFileName(p.filePrefix, p.platform, p.awemeId, position, format, p.withWatermark))
  }

  /** Different numbers always give different paths, whatever the extensions. */
  lemma ImagePathInjective(p: ImageNaming, i: nat, j: nat, f1: string, f2: string)
    requires ImagePath(p, i, f1) == ImagePath(p, j, f2)
    ensures i == j && f1 == f2
  {
    var n1 := ImageFileName(p.filePrefix, p.platform, p.awemeId, i, f1, p.withWatermark);
    var n2 := ImageFileName(p.filePrefix, p.platform, p.awemeId, j, f2, p.withWatermark);
    assert n1[0] == n2[0];
    JoinInjective(p.directory, n1, n2);
    ImageNameInjective(p.filePrefix, p.platform, p.awemeId, p.withWatermark, i, j, f1, f2);
  }

  /** A fetch passes exactly when it is a 2xx response whose content-type is
      present and holds a '/'; what passes is its subtype and its body. */
  lemma VetAccepts(reply: FetchReply)
    ensures Vet(reply).Ok? <==>
      (reply.Fetched? && IsSuccessStatus(reply.response.status)
       && reply.response.contentType.Some? && '/' in reply.response.contentType.value)
    ensures Vet(reply).Ok? ==> Vet(reply).value == Accepted(Subtype(reply.response.contentType.value).value, reply.response.body)
  {
  }

  /** The first of the first n fetches from i on that the loop rejects, or n. */
  function FirstFailure(fetch: nat -> FetchReply, n: nat, i: nat): (k: nat)
    requires i <= n
    ensures i <= k <= n
    ensures forall j :: i <= j < k ==> Vet(fetch(j)).Ok?
    ensures k < n ==> Vet(fetch(k)).Err?
    decreases n - i
  {
    if i < n && Vet(fetch(i)).Ok? then FirstFailure(fetch, n, i + 1) else i
  }

  /** The first rejected fetch is at i when all before it pass and it does not. */
  lemma FirstFailureAt(fetch: nat -> FetchReply, n: nat, i: nat)
    requires i <= n
    requires forall j :: 0 <= j < i ==> Vet(fetch(j)).Ok?
    requires i < n ==> Vet(fetch(i)).Err?
    ensures FirstFailure(fetch, n, 0) == i
  {
  }

  /** The images of the first n iterations when all of them pass: image j is
      numbered by the first position of its link, takes the subtype fetched for
      it as extension and holds its body. */
  function SavedPrefix(urls: seq<string>, fetch: nat -> FetchReply, n: nat): (r: seq<SavedImage>)
    requires n <= |urls|
    requires forall j :: 0 <= j < n ==> Vet(fetch(j)).Ok?
    ensures |r| == n
  {
    if n == 0 then []
    else
      var a := Vet(fetch(n - 1)).value;
      SavedPrefix(urls, fetch, n - 1) + [SavedImage(FirstIndex(urls, urls[n - 1]) + 1, a.format, a.body)]
  }

  lemma {:induction false} SavedPrefixAt(urls: seq<string>, fetch: nat -> FetchReply, n: nat, j: nat)
    requires n <= |urls|
    requires forall k :: 0 <= k < n ==> Vet(fetch(k)).Ok?
    requires j < n
    ensures SavedPrefix(urls, fetch, n)[j]
         == SavedImage(FirstIndex(urls, urls[j]) + 1, Vet(fetch(j)).value.format, Vet(fetch(j)).value.body)
  {
    if j < n - 1 {
      SavedPrefixAt(urls, fetch, n - 1, j);
    }
  }

  lemma SavedPrefixSnoc(urls: seq<string>, fetch: nat -> FetchReply, n: nat)
    requires n < |urls|
    requires forall k :: 0 <= k < n ==> Vet(fetch(k)).Ok?
    requires Vet(fetch(n)).Ok?
    ensures forall k :: 0 <= k < n + 1 ==> Vet(fetch(k)).Ok?
    ensures SavedPrefix(urls, fetch, n + 1)
         == SavedPrefix(urls, fetch, n) + [SavedImage(FirstIndex(urls, urls[n]) + 1, Vet(fetch(n)).value.format, Vet(fetch(n)).value.body)]
  {
  }

  /** Image j of the saved list was made from fetch j, which passed. */
  lemma SavedAt(urls: seq<string>, fetch: nat -> FetchReply, j: nat)
    requires j < |Saved(urls, fetch)|
    ensures Vet(fetch(j)).Ok?
    ensures Saved(urls, fetch)[j]
         == SavedImage(FirstIndex(urls, urls[j]) + 1, Vet(fetch(j)).value.format, Vet(fetch(j)).value.body)
  {
    SavedPrefixAt(urls, fetch, FirstFailure(fetch, |urls|, 0), j);
  }

  /** The images the loop saves: those before the first rejected fetch. */
  function Saved(urls: seq<string>, fetch: nat -> FetchReply): seq<SavedImage> {
    SavedPrefix(urls, fetch, FirstFailure(fetch, |urls|, 0))
  }

  /** The paths the images are saved at, in order. */
  function Paths(p: ImageNaming, imgs: seq<SavedImage>): (r: seq<string>)
    ensures |r| == |imgs|
  {
    if imgs == [] then [] else Paths(p, imgs[..|imgs| - 1]) + [ImagePath(p, imgs[|imgs| - 1].position, imgs[|imgs| - 1].format)]
  }

  lemma {:induction false} PathsAt(p: ImageNaming, imgs: seq<SavedImage>, j: nat)
    requires j < |imgs|
    ensures Paths(p, imgs)[j] == ImagePath(p, imgs[j].position, imgs[j].format)
    decreases |imgs|
  {
    if j < |imgs| - 1 {
      PathsAt(p, imgs[..|imgs| - 1], j);
    }
  }

  /** The files after writing the images one after the other. */
  function ApplyWrites(files: map<string, File>, p: ImageNaming, imgs: seq<SavedImage>): map<string, File> {
    if imgs == [] then files
    else
      var last := imgs[|imgs| - 1];
      ApplyWrites(files, p, imgs[..|imgs| - 1])[ImagePath(p, last.position, last.format) := Raw(last.body)]
  }

  lemma PathsSnoc(p: ImageNaming, imgs: seq<SavedImage>, img: SavedImage)
    ensures Paths(p, imgs + [img]) == Paths(p, imgs) + [ImagePath(p, img.position, img.format)]
  {
    assert (imgs + [img])[..|imgs|] == imgs;
  }

  lemma ApplyWritesSnoc(files: map<string, File>, p: ImageNaming, imgs: seq<SavedImage>, img: SavedImage)
    ensures ApplyWrites(files, p, imgs + [img]) == ApplyWrites(files, p, imgs)[ImagePath(p, img.position, img.format) := Raw(img.body)]
  {
    assert (imgs + [img])[..|imgs|] == imgs;
  }

  /** Every saved path holds plain bytes afterwards. */
  lemma {:induction false} ApplyWritesCovers(files: map<string, File>, p: ImageNaming, imgs: seq<SavedImage>)
    ensures forall j :: 0 <= j < |Paths(p, imgs)| ==>
      Paths(p, imgs)[j] in ApplyWrites(files, p, imgs) && ApplyWrites(files, p, imgs)[Paths(p, imgs)[j]].Raw?
    decreases |imgs|
  {
    if imgs != [] {
      var front := imgs[..|imgs| - 1];
      ApplyWritesCovers(files, p, front);
      assert imgs == front + [imgs[|imgs| - 1]];
      PathsSnoc(p, front, imgs[|imgs| - 1]);
    }
  }

  /** The last write to a path decides its contents: a path written by image j
      and by no later image holds image j's body. */
  lemma {:induction false} ApplyWritesAt(files: map<string, File>, p: ImageNaming, imgs: seq<SavedImage>, j: nat)
    requires j < |imgs|
    requires forall k :: j < k < |imgs| ==>
      ImagePath(p, imgs[k].position, imgs[k].format) != ImagePath(p, imgs[j].position, imgs[j].format)
    ensures ImagePath(p, imgs[j].position, imgs[j].format) in ApplyWrites(files, p, imgs)
    ensures ApplyWrites(files, p, imgs)[ImagePath(p, imgs[j].position, imgs[j].format)] == Raw(imgs[j].body)
    decreases |imgs|
  {
    if j < |imgs| - 1 {
      ApplyWritesAt(files, p, imgs[..|imgs| - 1], j);
    }
  }

  /** Once the loop stops after n passing fetches, what it saved is `Saved`. */
  lemma SavedUnique(urls: seq<string>, fetch: nat -> FetchReply, n: nat)
    requires n <= |urls|
    requires forall j :: 0 <= j < n ==> Vet(fetch(j)).Ok?
    requires n < |urls| ==> Vet(fetch(n)).Err?
    ensures FirstFailure(fetch, |urls|, 0) == n
    ensures SavedPrefix(urls, fetch, n) == Saved(urls, fetch)
  {
    FirstFailureAt(fetch, |urls|, n);
  }

  /** What the whole loop yields: the list of saved paths, or the first failure. */
  function SaveOutcome(p: ImageNaming, urls: seq<string>, fetch: nat -> FetchReply): Result<seq<string>, Reason> {
    var f := FirstFailure(fetch, |urls|, 0);
    if f == |urls| then Ok(Paths(p, Saved(urls, fetch))) else Err(Vet(fetch(f)).error)
  }

  /** The image loop: fetch, name and save each image, collecting the paths. */
  method SaveImages(fs: FileStore, p: ImageNaming, urls: seq<string>, fetch: nat -> FetchReply)
    returns (outcome: Result<seq<string>, Reason>)
    modifies fs
    ensures outcome == SaveOutcome(p, urls, fetch)
    ensures fs.files == ApplyWrites(old(fs.files), p, Saved(urls, fetch))
  {
    var imageFileList: seq<string> := [];
    ghost var saved: seq<SavedImage> := [];
    var i := 0;
    while i < |urls|
      invariant 0 <= i <= |urls|
      invariant forall j :: 0 <= j < i ==> Vet(fetch(j)).Ok?
      invariant saved == SavedPrefix(urls, fetch, i)
      invariant imageFileList == Paths(p, saved)
      invariant fs.files == ApplyWrites(old(fs.files), p, saved)
    {
      var accepted := Vet(fetch(i));
      if accepted.Err? {
        SavedUnique(urls, fetch, i);
        return Err(accepted.error);
      }
      var format := accepted.value.format;
      var index := FirstIndex(urls, urls[i]);
      var filePath := ImagePath(p, index + 1, format);
      imageFileList := imageFileList + [filePath];
      fs.Put(filePath, Raw(accepted.value.body));
      ghost var img := SavedImage(index + 1, format, accepted.value.body);
      SavedPrefixSnoc(urls, fetch, i);
      PathsSnoc(p, saved, img);
      ApplyWritesSnoc(old(fs.files), p, saved, img);
      saved := saved + [img];
      i := i + 1;
    }
    SavedUnique(urls, fetch, i);
    outcome := Ok(imageFileList);
  }

  /** The archive members for the given paths, in order: each named by the
      path's basename, holding that file's current bytes. */
  function ZipEntries(files: map<string, File>, paths: seq<string>): (r: seq<Entry>)
    requires forall j :: 0 <= j < |paths| ==> paths[j] in files && files[paths[j]].Raw?
    ensures |r| == |paths|
    ensures forall j :: 0 <= j < |paths| ==> r[j] == Entry(Basename(paths[j]), files[paths[j]].bytes)
  {
    if paths == [] then []
    else ZipEntries(files, paths[..|paths| - 1]) + [Entry(Basename(paths[|paths| - 1]), files[paths[|paths| - 1]].bytes)]
  }

  /** The zip step: add every saved file under its basename, in list order. */
  method PackZip(fs: FileStore, zipPath: string, paths: seq<string>)
    requires forall j :: 0 <= j < |paths| ==> paths[j] in fs.files && fs.files[paths[j]].Raw?
    modifies fs
    ensures fs.files == old(fs.files)[zipPath := Zip(ZipEntries(old(fs.files), paths))]
  {
    var entries: seq<Entry> := [];
    for j := 0 to |paths|
      invariant |entries| == j
      invariant forall k :: 0 <= k < j ==> entries[k] == Entry(Basename(paths[k]), fs.files[paths[k]].bytes)
    {
      entries := entries + [Entry(Basename(paths[j]), fs.files[paths[j]].bytes)];
    }
    assert entries == ZipEntries(fs.files, paths);
    fs.Put(zipPath, Zip(entries));
  }

  /** The archive built from the saved images, by the files they left. */
  function Archive(files: map<string, File>, p: ImageNaming, imgs: seq<SavedImage>): (r: seq<Entry>)
    ensures |r| == |imgs|
  {
    ApplyWritesCovers(files, p, imgs);
    ZipEntries(ApplyWrites(files, p, imgs), Paths(p, imgs))
  }

  /** The saved images together with the archive built from them. */
  function FilesAfterArchive(files: map<string, File>, zipPath: string, p: ImageNaming, imgs: seq<SavedImage>): map<string, File> {
    ApplyWrites(files, p, imgs)[zipPath := Zip(Archive(files, p, imgs))]
  }

  /** With pairwise distinct paths, archive member j is image j, under its
      file name, holding the body fetched for it. */
  lemma ArchiveInFetchOrder(files: map<string, File>, p: ImageNaming, imgs: seq<SavedImage>, j: nat)
    requires j < |imgs|
    requires forall a, b :: 0 <= a < b < |imgs| ==> imgs[a].position != imgs[b].position
    ensures Archive(files, p, imgs)[j] == Entry(Basename(ImagePath(p, imgs[j].position, imgs[j].format)), imgs[j].body)
  {
    forall k | j < k < |imgs|
      ensures ImagePath(p, imgs[k].position, imgs[k].format) != ImagePath(p, imgs[j].position, imgs[j].format)
    {
      if ImagePath(p, imgs[k].position, imgs[k].format) == ImagePath(p, imgs[j].position, imgs[j].format) {
        ImagePathInjective(p, imgs[k].position, imgs[j].position, imgs[k].format, imgs[j].format);
      }
    }
    ApplyWritesAt(files, p, imgs, j);
    PathsAt(p, imgs, j);
    ApplyWritesCovers(files, p, imgs);
  }

  /** Without repeated links image j takes number j + 1, so numbers, and with
      them paths and archive members, are pairwise distinct. */
  lemma DistinctLinksNumberInOrder(urls: seq<string>, fetch: nat -> FetchReply)
    requires forall a, b :: 0 <= a < b < |urls| ==> urls[a] != urls[b]
    ensures var imgs := Saved(urls, fetch);
      forall j :: 0 <= j < |imgs| ==> imgs[j].position == j + 1
  {
    var imgs := Saved(urls, fetch);
    forall j | 0 <= j < |imgs|
      ensures imgs[j].position == j + 1
    {
      SavedAt(urls, fetch, j);
      var k := FirstIndex(urls, urls[j]);
      assert urls[k] == urls[j];
    }
  }

  /** A repeated link reuses its first number: two copies of one link served
      with the same content-type are both saved as image 1, the second write
      replaces the first, and both archive members, under one name, hold the
      bytes fetched last. */
  lemma RepeatedLinkSharesFile(p: ImageNaming, u: string, ct: string, body1: Bytes, body2: Bytes, files: map<string, File>)
    requires '/' in ct
    ensures var urls := [u, u];
      var fetch := (k: nat) => Fetched(HttpResponse(200, Some(ct), if k == 0 then body1 else body2));
      var imgs := Saved(urls, fetch);
      var archive := Archive(files, p, imgs);
      |imgs| == 2 && imgs[0].position == 1 && imgs[1].position == 1
      && archive[0].name == archive[1].name && archive[0].data == body2 && archive[1].data == body2
  {
    var urls := [u, u];
    var fetch := (k: nat) => Fetched(HttpResponse(200, Some(ct), if k == 0 then body1 else body2));
    assert FirstIndex(urls, urls[1]) == 0;
    assert Vet(fetch(0)).Ok? && Vet(fetch(1)).Ok?;
    assert Vet(fetch(0)).value.format == Vet(fetch(1)).value.format;
    FirstFailureAt(fetch, 2, 2);
    var imgs := Saved(urls, fetch);
    SavedAt(urls, fetch, 0);
    SavedAt(urls, fetch, 1);
    ApplyWritesCovers(files, p, imgs);
    PathsAt(p, imgs, 0);
    PathsAt(p, imgs, 1);
    ApplyWritesAt(files, p, imgs, 1);
  }

  /** The loop succeeds exactly when every fetch passes. */
  lemma SaveSucceedsIffAllPass(p: ImageNaming, urls: seq<string>, fetch: nat -> FetchReply)
    ensures SaveOutcome(p, urls, fetch).Ok? <==> forall j :: 0 <= j < |urls| ==> Vet(fetch(j)).Ok?
  {
    var f := FirstFailure(fetch, |urls|, 0);
    if f < |urls| {
      assert Vet(fetch(f)).Err?;
    }
  }

  /** On success the loop yields one path per link, in link order, each
      numbered by the first position of its link. */
  lemma SavedPathsInLinkOrder(p: ImageNaming, urls: seq<string>, fetch: nat -> FetchReply, j: nat)
    requires SaveOutcome(p, urls, fetch).Ok? && j < |urls|
    ensures |SaveOutcome(p, urls, fetch).value| == |urls|
    ensures SaveOutcome(p, urls, fetch).value[j] == ImagePath(p, FirstIndex(urls, urls[j]) + 1, Vet(fetch(j)).value.format)
  {
    PathsAt(p, Saved(urls, fetch), j);
    SavedAt(urls, fetch, j);
  }

  /** On failure the loop reports the reason of the first rejected fetch;
      every fetch before it passed, and the image saved for each of them stays
      on disk (no zip is built, nothing is cleaned up). */
  lemma SaveFailsAtFirstRejected(p: ImageNaming, urls: seq<string>, fetch: nat -> FetchReply, files: map<string, File>)
    requires SaveOutcome(p, urls, fetch).Err?
    ensures var f := |Saved(urls, fetch)|;
      f < |urls| && Vet(fetch(f)) == Err(SaveOutcome(p, urls, fetch).error)
      && forall j :: 0 <= j < f ==> Vet(fetch(j)).Ok?
    ensures var imgs := Saved(urls, fetch);
      forall j :: 0 <= j < |imgs| ==> ImagePath(p, imgs[j].position, imgs[j].format) in ApplyWrites(files, p, imgs)
  {
    var imgs := Saved(urls, fetch);
    ApplyWritesCovers(files, p, imgs);
    forall j | 0 <= j < |imgs|
      ensures ImagePath(p, imgs[j].position, imgs[j].format) in ApplyWrites(files, p, imgs)
    {
      PathsAt(p, imgs, j);
    }
  }
}
