/** Storage names, public names and paths of downloaded artifacts. Storage
    names depend only on the prefix, the platform, the item id, the watermark
    flag (and for per-image files on the position and format); the public name
    is the sanitised custom name when one is given. */
module Naming {
  import opened Types
  import opened Sanitize

  predicate IsDigit(c: char) {
    '0' <= c <= '9'
  }

  predicate AllDigits(s: string) {
    forall i :: 0 <= i < |s| ==> IsDigit(s[i])
  }

  function DigitChar(d: nat): (c: char)
    requires d < 10
    ensures IsDigit(c) && c as int - '0' as int == d
  {
    (d + '0' as int) as char
  }

  /** Python's `str(n)` for a natural number: decimal digits, no leading zero. */
  function DecimalString(n: nat): (r: string)
    ensures |r| >= 1 && AllDigits(r)
    decreases n
  {
    if n < 10 then [DigitChar(n)] else DecimalString(n / 10) + [DigitChar(n % 10)]
  }

  /** The number a string of decimal digits denotes. */
  function DecimalValue(s: string): nat
    requires AllDigits(s)
  {
    if s == [] then 0 else 10 * DecimalValue(s[..|s| - 1]) + (s[|s| - 1] as int - '0' as int)
  }

  /** Reading the digits back gives the number, so distinct positions get distinct digits. */
  lemma {:induction false} DecimalRoundTrip(n: nat)
    ensures DecimalValue(DecimalString(n)) == n
    decreases n
  {
    if n >= 10 {
      DecimalRoundTrip(n / 10);
      var s := DecimalString(n);
      assert s[..|s| - 1] == DecimalString(n / 10);
    }
  }

  lemma DecimalInjective(m: nat, n: nat)
    requires DecimalString(m) == DecimalString(n)
    ensures m == n
  {
    DecimalRoundTrip(m);
    DecimalRoundTrip(n);
  }

  /** `config["API"]["Download_File_Prefix"] if prefix else ''`. */
  function FilePrefix(config: ApiConfig, prefix: bool): string {
    if prefix then config.downloadFilePrefix else ""
  }

  function WatermarkTag(withWatermark: bool): string {
    if withWatermark then "_watermark" else ""
  }

  /** `{file_prefix}{platform}_{aweme_id}`, the start of every artifact name of one item. */
  function AssetStem(filePrefix: string, platform: string, awemeId: string): string {
    filePrefix + platform + "_" + awemeId
  }

  function VideoStorageName(filePrefix: string, platform: string, awemeId: string, withWatermark: bool): string {
    AssetStem(filePrefix, platform, awemeId) + WatermarkTag(withWatermark) + ".mp4"
  }

  function ZipStorageName(filePrefix: string, platform: string, awemeId: string, withWatermark: bool): string {
    AssetStem(filePrefix, platform, awemeId) + "_images" + WatermarkTag(withWatermark) + ".zip"
  }

  /** The name of the image at 1-based `position`, with the subtype of its content-type as extension. */
  function ImageFileName(filePrefix: string, platform: string, awemeId: string, position: nat, format: string, withWatermark: bool): string {
    AssetStem(filePrefix, platform, awemeId) + "_" + DecimalString(position) + WatermarkTag(withWatermark) + "." + format
  }

  /** The name the requester sees: the sanitised custom name plus the extension
      when `naming` is truthy (present and non-empty), otherwise the storage name. */
  function PublicName(naming: Option<string>, extension: string, storageName: string): string {
    if naming.Some? && naming.value != "" then SanitizeFilename(naming.value) + extension else storageName
  }

  /** POSIX `os.path.join(a, b)`: an absolute b replaces a; otherwise one '/' separates them. */
  function PathJoin(a: string, b: string): string {
    if |b| > 0 && b[0] == '/' then b
    else if a == "" || a[|a| - 1] == '/' then a + b
    else a + "/" + b
  }

  /** A joined path ends with the name joined on. */
  lemma JoinEndsWith(a: string, b: string)
    ensures var r := PathJoin(a, b); |b| <= |r| && r[|r| - |b|..] == b
  {
    var r := PathJoin(a, b);
    if !(|b| > 0 && b[0] == '/') {
      assert r[|r| - |b|..] == b;
    }
  }

  /** `os.path.join(Download_Path, f"{platform}_{data_type}")`. */
  function AssetDirectory(root: string, platform: string, kind: string): string {
    PathJoin(root, platform + "_" + kind)
  }

  /** POSIX `os.path.basename`: what follows the last '/'. */
  function Basename(p: string): (r: string)
    ensures '/' !in r
  {
    if p == [] || p[|p| - 1] == '/' then [] else Basename(p[..|p| - 1]) + [p[|p| - 1]]
  }

  /** The basename of a path that ends with '/' followed by a slash-free name is that name. */
  lemma {:induction false} BasenameAfterSlash(x: string, b: string)
    requires x == [] || x[|x| - 1] == '/'
    requires '/' !in b
    ensures Basename(x + b) == b
    decreases |b|
  {
    if b == [] {
      assert x + b == x;
    } else {
      var p := x + b;
      assert p[..|p| - 1] == x + b[..|b| - 1];
      assert '/' !in b[..|b| - 1] by {
        assert forall c :: c in b[..|b| - 1] ==> c in b;
      }
      BasenameAfterSlash(x, b[..|b| - 1]);
      assert b == b[..|b| - 1] + [b[|b| - 1]];
    }
  }

  /** Joining a slash-free name to any directory and taking the basename gives the name back. */
  lemma BasenameOfJoin(a: string, b: string)
    requires '/' !in b
    ensures Basename(PathJoin(a, b)) == b
  {
    assert b == [] || b[0] != '/' by {
      if b != [] {
        assert b[0] in b;
      }
    }
    if a == "" || a[|a| - 1] == '/' {
      BasenameAfterSlash(a, b);
    } else {
      var x := a + "/";
      assert x[|x| - 1] == '/';
      BasenameAfterSlash(x, b);
      assert a + "/" + b == x + b;
    }
  }

  lemma CancelPrefix(p: string, b1: string, b2: string)
    requires p + b1 == p + b2
    ensures b1 == b2
  {
    assert b1 == (p + b1)[|p|..];
    assert b2 == (p + b2)[|p|..];
  }

  /** Two different names that start with the same character join to different paths in one directory. */
  lemma JoinInjective(a: string, b1: string, b2: string)
    requires |b1| > 0 && |b2| > 0 && b1[0] == b2[0]
    requires PathJoin(a, b1) == PathJoin(a, b2)
    ensures b1 == b2
  {
    if b1[0] == '/' {
    } else if a == "" || a[|a| - 1] == '/' {
      CancelPrefix(a, b1, b2);
    } else {
      CancelPrefix(a + "/", b1, b2);
    }
  }

  /** Every artifact name of one item starts with the same character. */
  lemma StemLead(stem: string, x: string, y: string)
    requires |stem| > 0
    ensures |stem + x| > 0 && |stem + y| > 0 && (stem + x)[0] == (stem + y)[0]
  {
  }

  /** The watermarked and the plain variant of one artifact never share a path in
      the same directory: the `_watermark` suffix keeps them apart. */
  lemma WatermarkVariantsDistinct(dir: string, filePrefix: string, platform: string, awemeId: string, position: nat, format: string)
    ensures PathJoin(dir, VideoStorageName(filePrefix, platform, awemeId, false))
         != PathJoin(dir, VideoStorageName(filePrefix, platform, awemeId, true))
    ensures PathJoin(dir, ZipStorageName(filePrefix, platform, awemeId, false))
         != PathJoin(dir, ZipStorageName(filePrefix, platform, awemeId, true))
    ensures PathJoin(dir, ImageFileName(filePrefix, platform, awemeId, position, format, false))
         != PathJoin(dir, ImageFileName(filePrefix, platform, awemeId, position, format, true))
  {
    var stem := AssetStem(filePrefix, platform, awemeId);
    var d := DecimalString(position);
    StemLead(stem, ".mp4", "_watermark.mp4");
    assert VideoStorageName(filePrefix, platform, awemeId, false) == stem + ".mp4";
    assert VideoStorageName(filePrefix, platform, awemeId, true) == stem + "_watermark.mp4";
    if PathJoin(dir, stem + ".mp4") == PathJoin(dir, stem + "_watermark.mp4") {
      JoinInjective(dir, stem + ".mp4", stem + "_watermark.mp4");
    }
    StemLead(stem, "_images.zip", "_images_watermark.zip");
    assert ZipStorageName(filePrefix, platform, awemeId, false) == stem + "_images.zip";
    assert ZipStorageName(filePrefix, platform, awemeId, true) == stem + "_images_watermark.zip";
    if PathJoin(dir, stem + "_images.zip") == PathJoin(dir, stem + "_images_watermark.zip") {
      JoinInjective(dir, stem + "_images.zip", stem + "_images_watermark.zip");
    }
    var plain := "_" + d + "." + format;
    var marked := "_" + d + "_watermark." + format;
    StemLead(stem, plain, marked);
    assert ImageFileName(filePrefix, platform, awemeId, position, format, false) == stem + plain;
    assert ImageFileName(filePrefix, platform, awemeId, position, format, true) == stem + marked;
    if PathJoin(dir, stem + plain) == PathJoin(dir, stem + marked) {
      JoinInjective(dir, stem + plain, stem + marked);
    }
  }

  /** The video, the zip and any per-image name of one item are pairwise different,
      whatever their watermark flags, positions and formats. */
  lemma ArtifactNamesDistinct(filePrefix: string, platform: string, awemeId: string,
                              videoMark: bool, zipMark: bool, imageMark: bool, position: nat, format: string)
    ensures VideoStorageName(filePrefix, platform, awemeId, videoMark) != ZipStorageName(filePrefix, platform, awemeId, zipMark)
    ensures VideoStorageName(filePrefix, platform, awemeId, videoMark) != ImageFileName(filePrefix, platform, awemeId, position, format, imageMark)
    ensures ZipStorageName(filePrefix, platform, awemeId, zipMark) != ImageFileName(filePrefix, platform, awemeId, position, format, imageMark)
  {
    VideoAfterStem(filePrefix, platform, awemeId, videoMark);
    ZipAfterStem(filePrefix, platform, awemeId, zipMark);
    ImageAfterStem(filePrefix, platform, awemeId, position, format, imageMark);
  }

  /** After the shared stem a video name goes on with "_w" or ".". */
  lemma VideoAfterStem(filePrefix: string, platform: string, awemeId: string, mark: bool)
    ensures var n := |AssetStem(filePrefix, platform, awemeId)|;
      var video := VideoStorageName(filePrefix, platform, awemeId, mark);
      n + 1 < |video| && (if mark then video[n] == '_' && video[n + 1] == 'w' else video[n] == '.')
  {
    var stem := AssetStem(filePrefix, platform, awemeId);
    assert VideoStorageName(filePrefix, platform, awemeId, mark) == stem + (WatermarkTag(mark) + ".mp4");
  }

  /** After the shared stem a zip name goes on with "_i". */
  lemma ZipAfterStem(filePrefix: string, platform: string, awemeId: string, mark: bool)
    ensures var n := |AssetStem(filePrefix, platform, awemeId)|;
      var zip := ZipStorageName(filePrefix, platform, awemeId, mark);
      n + 1 < |zip| && zip[n] == '_' && zip[n + 1] == 'i'
  {
    var stem := AssetStem(filePrefix, platform, awemeId);
    assert ZipStorageName(filePrefix, platform, awemeId, mark) == stem + ("_images" + WatermarkTag(mark) + ".zip");
  }

  /** After the shared stem an image name goes on with "_" and a digit. */
  lemma ImageAfterStem(filePrefix: string, platform: string, awemeId: string, position: nat, format: string, mark: bool)
    ensures var n := |AssetStem(filePrefix, platform, awemeId)|;
      var image := ImageFileName(filePrefix, platform, awemeId, position, format, mark);
      n + 1 < |image| && image[n] == '_' && IsDigit(image[n + 1])
  {
    var stem := AssetStem(filePrefix, platform, awemeId);
    var d := DecimalString(position);
    assert ImageFileName(filePrefix, platform, awemeId, position, format, mark) == stem + ("_" + d + WatermarkTag(mark) + "." + format);
    assert IsDigit(d[0]);
  }

  /** Videos and image sets of one platform are kept in different directories. */
  lemma KindDirectoriesDistinct(root: string, platform: string)
    ensures AssetDirectory(root, platform, "video") != AssetDirectory(root, platform, "image")
  {
    var v := platform + "_" + "video";
    var i := platform + "_" + "image";
    JoinEndsWith(root, v);
    JoinEndsWith(root, i);
    assert v[|v| - 1] != i[|i| - 1];
  }

  /** A stored video and a stored zip never share a path, whatever their
      directories and name parts: one ends in ".mp4", the other in ".zip". */
  lemma VideoPathNeverZipPath(videoDir: string, zipDir: string, p1: string, platform1: string, id1: string, mark1: bool,
                              p2: string, platform2: string, id2: string, mark2: bool)
    ensures PathJoin(videoDir, VideoStorageName(p1, platform1, id1, mark1))
         != PathJoin(zipDir, ZipStorageName(p2, platform2, id2, mark2))
  {
    var vs := VideoStorageName(p1, platform1, id1, mark1);
    var zs := ZipStorageName(p2, platform2, id2, mark2);
    assert vs[|vs| - 4..] == ".mp4";
    assert zs[|zs| - 4..] == ".zip";
    JoinEndsWith(videoDir, vs);
    JoinEndsWith(zipDir, zs);
    var v := PathJoin(videoDir, vs);
    var z := PathJoin(zipDir, zs);
    assert v[|v| - 4..] == vs[|vs| - 4..];
    assert z[|z| - 4..] == zs[|zs| - 4..];
  }

  /** With slash-free name parts, the stored video, the stored zip and any
      per-image file of one item never share a path, in whichever directories
      they are kept. */
  lemma ArtifactPathsDistinct(videoDir: string, imageDir: string, filePrefix: string, platform: string, awemeId: string,
                              videoMark: bool, zipMark: bool, imageMark: bool, position: nat, format: string)
    requires '/' !in filePrefix && '/' !in platform && '/' !in awemeId && '/' !in format
    ensures PathJoin(videoDir, VideoStorageName(filePrefix, platform, awemeId, videoMark))
         != PathJoin(imageDir, ZipStorageName(filePrefix, platform, awemeId, zipMark))
    ensures PathJoin(videoDir, VideoStorageName(filePrefix, platform, awemeId, videoMark))
         != PathJoin(imageDir, ImageFileName(filePrefix, platform, awemeId, position, format, imageMark))
    ensures PathJoin(imageDir, ZipStorageName(filePrefix, platform, awemeId, zipMark))
         != PathJoin(imageDir, ImageFileName(filePrefix, platform, awemeId, position, format, imageMark))
  {
    var video := VideoStorageName(filePrefix, platform, awemeId, videoMark);
    var zip := ZipStorageName(filePrefix, platform, awemeId, zipMark);
    var image := ImageFileName(filePrefix, platform, awemeId, position, format, imageMark);
    NoSlashInNames(filePrefix, platform, awemeId, videoMark, zipMark, imageMark, position, format);
    ArtifactNamesDistinct(filePrefix, platform, awemeId, videoMark, zipMark, imageMark, position, format);
    BasenameOfJoin(videoDir, video);
    BasenameOfJoin(imageDir, zip);
    BasenameOfJoin(imageDir, image);
  }

  lemma NoSlashInNames(filePrefix: string, platform: string, awemeId: string,
                       videoMark: bool, zipMark: bool, imageMark: bool, position: nat, format: string)
    requires '/' !in filePrefix && '/' !in platform && '/' !in awemeId && '/' !in format
    ensures '/' !in VideoStorageName(filePrefix, platform, awemeId, videoMark)
    ensures '/' !in ZipStorageName(filePrefix, platform, awemeId, zipMark)
    ensures '/' !in ImageFileName(filePrefix, platform, awemeId, position, format, imageMark)
  {
    var d := DecimalString(position);
    forall k | 0 <= k < |d|
      ensures d[k] != '/'
    {
      assert IsDigit(d[k]);
    }
  }

  /** In digits followed by a non-digit, the first non-digit sits right after the digits. */
  lemma FirstNonDigit(d: string, x: string)
    requires AllDigits(d) && |x| > 0 && !IsDigit(x[0])
    ensures forall k :: 0 <= k < |d| ==> IsDigit((d + x)[k])
    ensures !IsDigit((d + x)[|d|])
  {
  }

  /** A string of digits followed by a non-digit is determined by the whole:
      two such splits of one string agree. */
  lemma {:induction false} DigitsThenRest(d1: string, d2: string, x: string, y: string)
    requires AllDigits(d1) && AllDigits(d2)
    requires |x| > 0 && |y| > 0 && !IsDigit(x[0]) && !IsDigit(y[0])
    requires d1 + x == d2 + y
    ensures d1 == d2 && x == y
  {
    FirstNonDigit(d1, x);
    FirstNonDigit(d2, y);
    assert |d1| == |d2|;
    assert d1 == (d1 + x)[..|d1|] == (d2 + y)[..|d2|] == d2;
    CancelPrefix(d1, x, y);
  }

  /** Per-image names of one item determine the position and the format. */
  lemma ImageNameInjective(filePrefix: string, platform: string, awemeId: string, withWatermark: bool,
                           i: nat, j: nat, f1: string, f2: string)
    requires ImageFileName(filePrefix, platform, awemeId, i, f1, withWatermark)
          == ImageFileName(filePrefix, platform, awemeId, j, f2, withWatermark)
    ensures i == j && f1 == f2
  {
    var head := AssetStem(filePrefix, platform, awemeId) + "_";
    var tag := WatermarkTag(withWatermark);
    var x := tag + "." + f1;
    var y := tag + "." + f2;
    assert ImageFileName(filePrefix, platform, awemeId, i, f1, withWatermark) == head + (DecimalString(i) + x);
    assert ImageFileName(filePrefix, platform, awemeId, j, f2, withWatermark) == head + (DecimalString(j) + y);
    CancelPrefix(head, DecimalString(i) + x, DecimalString(j) + y);
    DigitsThenRest(DecimalString(i), DecimalString(j), x, y);
    DecimalInjective(i, j);
    CancelPrefix(tag + ".", f1, f2);
  }
}
