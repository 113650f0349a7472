/** The web view's batch page: the gate on the number of links found in the
    input, the parse loop that records which links resolved and which failed,
    and the "download all videos" action that schedules one endpoint request
    per parsed video with staggered delays. */
module Batch {
  import opened Types
  import opened Naming
  import opened Sanitize

  /** Why `valid_check` rejects an input. */
  datatype Warning = NoLinks | TooManyLinks(max: int)

  /** `valid_check` on the links found in the input and the configured
      `Max_Take_URLs`: no warning means the input is accepted. */
  function ValidCheck(links: seq<string>, maxUrls: int): (r: Option<Warning>)
    ensures r.None? <==> (1 <= |links| && |links| <= maxUrls)
    ensures r == Some(NoLinks) <==> |links| == 0
    ensures r.Some? && r.value.TooManyLinks? ==> |links| > maxUrls && r.value.max == maxUrls
  {
    if |links| == 0 then Some(NoLinks)
    else if |links| > maxUrls then Some(TooManyLinks(maxUrls))
    else None
  }

  /** The shown type of a parsed link: Video for `type == 'video'`, Image otherwise. */
  datatype ItemType = Video | Image

  /** One entry of `video_info_list`. */
  datatype VideoInfo = VideoInfo(url: string, desc: string, itemType: ItemType)

  /** The entry recorded for a resolved link; a missing `desc` reads as "video". */
  function InfoOf(url: string, d: Descriptor): (info: VideoInfo)
    ensures info.url == url
    ensures info.itemType == Video <==> d.kind == "video"
    ensures d.desc.Some? ==> info.desc == d.desc.value
    ensures d.desc.None? ==> info.desc == "video"
  {
    VideoInfo(url, if d.desc.Some? then d.desc.value else "video", if d.kind == "video" then Video else Image)
  }

  /** The counters and lists `parse_video` keeps. */
  datatype Report = Report(
    successCount: nat,
    failedCount: nat,
    successList: seq<string>,
    failedList: seq<string>,
    videoInfoList: seq<VideoInfo>)

  const EmptyReport := Report(0, 0, [], [], [])

  /** One iteration: a resolver exception counts as a failure and the loop goes
      on; a resolved link is recorded in `video_info_list` and counted as a success. */
  function Record(r: Report, url: string, answer: Result<Descriptor, string>): Report {
    match answer
    case Err(_) => r.(failedCount := r.failedCount + 1, failedList := r.failedList + [url])
    case Ok(d) =>
      r.(successCount := r.successCount + 1, successList := r.successList + [url],
         videoInfoList := r.videoInfoList + [InfoOf(url, d)])
  }

  /** The report after the first n links; `resolve(j)` is the resolver's answer
      for the j-th call. */
  function Tally(urls: seq<string>, resolve: nat -> Result<Descriptor, string>, n: nat): Report
    requires n <= |urls|
  {
    if n == 0 then EmptyReport else Record(Tally(urls, resolve, n - 1), urls[n - 1], resolve(n - 1))
  }

  /** The loop of `parse_video` over the links, assuming the result page renders. */
  method ParseVideo(urls: seq<string>, resolve: nat -> Result<Descriptor, string>) returns (report: Report)
    ensures report == Tally(urls, resolve, |urls|)
  {
    var successCount: nat := 0;
    var failedCount: nat := 0;
    var successList: seq<string> := [];
    var failedList: seq<string> := [];
    var videoInfoList: seq<VideoInfo> := [];
    var i := 0;
    while i < |urls|
      invariant 0 <= i <= |urls|
      invariant Report(successCount, failedCount, successList, failedList, videoInfoList) == Tally(urls, resolve, i)
    {
      var answer := resolve(i);
      if answer.Err? {
        failedCount := failedCount + 1;
        failedList := failedList + [urls[i]];
      } else {
        videoInfoList := videoInfoList + [InfoOf(urls[i], answer.value)];
        successCount := successCount + 1;
        successList := successList + [urls[i]];
      }
      i := i + 1;
    }
    report := Report(successCount, failedCount, successList, failedList, videoInfoList);
  }

  /** The calls among the first n whose answer resolved (`parsed`) or failed
      (not `parsed`), in increasing order. */
  function Positions(resolve: nat -> Result<Descriptor, string>, n: nat, parsed: bool): (r: seq<nat>)
    ensures forall k :: 0 <= k < |r| ==> r[k] < n && resolve(r[k]).Ok? == parsed
    ensures forall a, b :: 0 <= a < b < |r| ==> r[a] < r[b]
  {
    if n == 0 then []
    else Positions(resolve, n - 1, parsed) + (if resolve(n - 1).Ok? == parsed then [n - 1] else [])
  }

  /** Every call of the kind asked for is listed. */
  lemma {:induction false} PositionsComplete(resolve: nat -> Result<Descriptor, string>, n: nat, parsed: bool, j: nat)
    requires j < n && resolve(j).Ok? == parsed
    ensures j in Positions(resolve, n, parsed)
  {
    if j < n - 1 {
      PositionsComplete(resolve, n - 1, parsed, j);
    }
  }

  /** The counters count the lists, and every link is counted once. */
  lemma {:induction false} TallyCounts(urls: seq<string>, resolve: nat -> Result<Descriptor, string>, n: nat)
    requires n <= |urls|
    ensures var t := Tally(urls, resolve, n);
      t.successCount == |t.successList| && t.failedCount == |t.failedList|
      && t.successCount + t.failedCount == n
      && |t.videoInfoList| == t.successCount
  {
    if n > 0 {
      TallyCounts(urls, resolve, n - 1);
    }
  }

  /** The success list is the resolved links in input order, and entry k of
      `video_info_list` is built from the k-th resolved link and its answer. */
  lemma {:induction false} ResolvedInOrder(urls: seq<string>, resolve: nat -> Result<Descriptor, string>, n: nat)
    requires n <= |urls|
    ensures var t := Tally(urls, resolve, n);
      var ok := Positions(resolve, n, true);
      |t.successList| == |ok| && |t.videoInfoList| == |ok|
      && forall k :: 0 <= k < |ok| ==>
           t.successList[k] == urls[ok[k]] && t.videoInfoList[k] == InfoOf(urls[ok[k]], resolve(ok[k]).value)
  {
    if n > 0 {
      ResolvedInOrder(urls, resolve, n - 1);
      var prev := Positions(resolve, n - 1, true);
      if resolve(n - 1).Ok? {
        assert Positions(resolve, n, true) == prev + [n - 1];
      } else {
        assert Positions(resolve, n, true) == prev;
      }
    }
  }

  /** The failed list is the links whose resolution raised, in input order. */
  lemma {:induction false} FailedInOrder(urls: seq<string>, resolve: nat -> Result<Descriptor, string>, n: nat)
    requires n <= |urls|
    ensures var t := Tally(urls, resolve, n);
      var bad := Positions(resolve, n, false);
      |t.failedList| == |bad| && forall k :: 0 <= k < |bad| ==> t.failedList[k] == urls[bad[k]]
  {
    if n > 0 {
      FailedInOrder(urls, resolve, n - 1);
      var prev := Positions(resolve, n - 1, false);
      if resolve(n - 1).Ok? {
        assert Positions(resolve, n, false) == prev;
      } else {
        assert Positions(resolve, n, false) == prev + [n - 1];
      }
    }
  }

  /** Continue on error: of three links of which only the second fails to
      resolve, the first and the third are still parsed. */
  lemma BatchIsolation(a: string, b: string, c: string, resolve: nat -> Result<Descriptor, string>)
    requires resolve(0).Ok? && resolve(1).Err? && resolve(2).Ok?
    ensures var t := Tally([a, b, c], resolve, 3);
      t.successCount == 2 && t.failedCount == 1
      && t.successList == [a, c] && t.failedList == [b]
      && t.videoInfoList == [InfoOf(a, resolve(0).value), InfoOf(c, resolve(2).value)]
  {
    var urls := [a, b, c];
    var first := InfoOf(a, resolve(0).value);
    assert Tally(urls, resolve, 1) == Report(1, 0, [a], [], [first]);
    assert Tally(urls, resolve, 2) == Report(1, 1, [a], [b], [first]);
  }

  /** `[item for item in video_info_list if item['type'] == Video]`. */
  function VideoItems(infos: seq<VideoInfo>): (r: seq<VideoInfo>)
    ensures |r| <= |infos|
    ensures forall k :: 0 <= k < |r| ==> r[k].itemType == Video
  {
    if infos == [] then []
    else VideoItems(infos[..|infos| - 1]) + (if infos[|infos| - 1].itemType == Video then [infos[|infos| - 1]] else [])
  }

  /** The positions of the Video entries of infos, in increasing order. */
  function VideoPositions(infos: seq<VideoInfo>): (r: seq<nat>)
    ensures forall k :: 0 <= k < |r| ==> r[k] < |infos| && infos[r[k]].itemType == Video
    ensures forall a, b :: 0 <= a < b < |r| ==> r[a] < r[b]
  {
    if infos == [] then []
    else VideoPositions(infos[..|infos| - 1]) + (if infos[|infos| - 1].itemType == Video then [|infos| - 1] else [])
  }

  /** Every Video entry's position is listed. */
  lemma {:induction false} VideoPositionsComplete(infos: seq<VideoInfo>, j: nat)
    requires j < |infos| && infos[j].itemType == Video
    ensures j in VideoPositions(infos)
  {
    if j < |infos| - 1 {
      VideoPositionsComplete(infos[..|infos| - 1], j);
    }
  }

  lemma {:induction false} VideoItemsLength(infos: seq<VideoInfo>)
    ensures |VideoItems(infos)| == |VideoPositions(infos)|
  {
    if infos != [] {
      VideoItemsLength(infos[..|infos| - 1]);
    }
  }

  /** Item k of the filter is the entry at the k-th Video position. */
  lemma {:induction false} VideoItemAt(infos: seq<VideoInfo>, k: nat)
    requires k < |VideoPositions(infos)|
    ensures k < |VideoItems(infos)| && VideoItems(infos)[k] == infos[VideoPositions(infos)[k]]
  {
    VideoItemsLength(infos);
    var front := infos[..|infos| - 1];
    VideoItemsLength(front);
    if k < |VideoPositions(front)| {
      VideoItemAt(front, k);
      assert VideoPositions(infos)[k] == VideoPositions(front)[k];
      assert VideoItems(infos)[k] == VideoItems(front)[k];
    }
  }

  /** The filter keeps the Video entries in input order, each once: item k is
      the entry at the k-th Video position. */
  lemma VideoItemsInOrder(infos: seq<VideoInfo>)
    ensures var idx := VideoPositions(infos);
      |VideoItems(infos)| == |idx| && forall k :: 0 <= k < |idx| ==> VideoItems(infos)[k] == infos[idx[k]]
  {
    VideoItemsLength(infos);
    forall k | 0 <= k < |VideoPositions(infos)|
      ensures VideoItems(infos)[k] == infos[VideoPositions(infos)[k]]
    {
      VideoItemAt(infos, k);
    }
  }

  /** `video_count`, the number on the "download all" button: a sum of ones,
      one per Video entry. */
  function VideoCount(infos: seq<VideoInfo>): nat {
    if infos == [] then 0
    else VideoCount(infos[..|infos| - 1]) + (if infos[|infos| - 1].itemType == Video then 1 else 0)
  }

  /** The button's number is the number of downloads it triggers. */
  lemma {:induction false} VideoCountIsTotal(infos: seq<VideoInfo>)
    ensures VideoCount(infos) == |VideoItems(infos)|
  {
    if infos != [] {
      VideoCountIsTotal(infos[..|infos| - 1]);
    }
  }

  /** One scheduled download: when it fires (milliseconds after the click),
      the endpoint request it makes, and the name the link suggests. */
  datatype Hint = Hint(delay: nat, request: DownloadRequest, filename: string)

  /** A row of the download table. */
  datatype TableRow = HeaderRow | ItemRow(number: nat, filename: string)

  /** What "download all" produces: nothing when there is no video, otherwise
      the scheduled downloads, the table and the total announced. */
  datatype DownloadPage = NoVideos | Triggered(hints: seq<Hint>, table: seq<TableRow>, total: nat)

  /** The file name shown and suggested for a video: its sanitised description plus ".mp4". */
  function HintFilename(item: VideoInfo): (r: string)
    ensures 5 <= |r| <= 204 && r[|r| - 4..] == ".mp4" && NoIllegal(r[..|r| - 4])
  {
    var clean := SanitizeFilename(item.desc);
    assert (clean + ".mp4")[..|clean|] == clean;
    clean + ".mp4"
  }

  /** The k-th (1-based) scheduled download of an item: 100 ms per position,
      no prefix, no watermark, the sanitised description as custom name. */
  function HintFor(k: nat, item: VideoInfo): Hint {
    Hint(k * 100, DownloadRequest(item.url, false, false, Some(SanitizeFilename(item.desc))), HintFilename(item))
  }

  /** The scheduled downloads of the video items, numbered from 1. */
  function Hints(items: seq<VideoInfo>): seq<Hint> {
    if items == [] then [] else Hints(items[..|items| - 1]) + [HintFor(|items|, items[|items| - 1])]
  }

  /** The download table: a header, then one numbered row per video item. */
  function Table(items: seq<VideoInfo>): seq<TableRow> {
    if items == [] then [HeaderRow] else Table(items[..|items| - 1]) + [ItemRow(|items|, HintFilename(items[|items| - 1]))]
  }

  /** Download k + 1 is item k's, with delay (k + 1) * 100. */
  lemma {:induction false} HintsAt(items: seq<VideoInfo>, k: nat)
    requires k < |items|
    ensures |Hints(items)| == |items|
    ensures Hints(items)[k] == HintFor(k + 1, items[k])
    ensures Hints(items)[k].delay == (k + 1) * 100
    ensures Hints(items)[k].request == DownloadRequest(items[k].url, false, false, Some(SanitizeFilename(items[k].desc)))
  {
    HintsLength(items);
    if k < |items| - 1 {
      HintsAt(items[..|items| - 1], k);
    }
  }

  lemma {:induction false} HintsLength(items: seq<VideoInfo>)
    ensures |Hints(items)| == |items|
  {
    if items != [] {
      HintsLength(items[..|items| - 1]);
    }
  }

  /** The table has one row more than there are items: row 0 is the header
      and row k + 1 shows number k + 1 and item k's file name. */
  lemma {:induction false} TableAt(items: seq<VideoInfo>, k: nat)
    requires k < |items|
    ensures |Table(items)| == |items| + 1 && Table(items)[0] == HeaderRow
    ensures Table(items)[k + 1] == ItemRow(k + 1, HintFilename(items[k]))
  {
    TableShape(items);
    if k < |items| - 1 {
      TableAt(items[..|items| - 1], k);
    }
  }

  lemma {:induction false} TableShape(items: seq<VideoInfo>)
    ensures |Table(items)| == |items| + 1 && Table(items)[0] == HeaderRow
  {
    if items != [] {
      TableShape(items[..|items| - 1]);
    }
  }

  lemma HintsSnoc(items: seq<VideoInfo>, n: nat)
    requires 0 < n <= |items|
    ensures Hints(items[..n]) == Hints(items[..n - 1]) + [HintFor(n, items[n - 1])]
  {
    assert items[..n][..n - 1] == items[..n - 1];
  }

  lemma TableSnoc(items: seq<VideoInfo>, n: nat)
    requires 0 < n <= |items|
    ensures Table(items[..n]) == Table(items[..n - 1]) + [ItemRow(n, HintFilename(items[n - 1]))]
  {
    assert items[..n][..n - 1] == items[..n - 1];
  }

  /** `download_all_videos` on `video_info_list`. */
  method DownloadAllVideos(infos: seq<VideoInfo>) returns (page: DownloadPage)
    ensures VideoItems(infos) == [] <==> page == NoVideos
    ensures page.Triggered? ==>
      page == Triggered(Hints(VideoItems(infos)), Table(VideoItems(infos)), |VideoItems(infos)|)
    ensures page.Triggered? ==> Staggered(page.hints)
  {
    var items := VideoItems(infos);
    if items == [] {
      return NoVideos;
    }
    var total := |items|;
    var hints: seq<Hint> := [];
    for idx := 1 to total + 1
      invariant hints == Hints(items[..idx - 1])
    {
      var item := items[idx - 1];
      var cleanDesc := SanitizeFilename(item.desc);
      var request := DownloadRequest(item.url, false, false, Some(cleanDesc));
      HintsSnoc(items, idx);
      hints := hints + [Hint(idx * 100, request, cleanDesc + ".mp4")];
    }
    var table: seq<TableRow> := [HeaderRow];
    for idx := 1 to total + 1
      invariant table == Table(items[..idx - 1])
    {
      TableSnoc(items, idx);
      table := table + [ItemRow(idx, SanitizeFilename(items[idx - 1].desc) + ".mp4")];
    }
    assert items[..total] == items;
    HintsStaggered(items);
    page := Triggered(hints, table, total);
  }

  /** The button is offered exactly when "download all" has something to trigger. */
  lemma ButtonIffDownloads(infos: seq<VideoInfo>)
    ensures VideoCount(infos) > 0 <==> VideoItems(infos) != []
  {
    VideoCountIsTotal(infos);
  }

  /** Download k + 1 fires (k + 1) * 100 ms after the click. */
  predicate Staggered(hints: seq<Hint>) {
    forall k :: 0 <= k < |hints| ==> hints[k].delay == 100 * k + 100
  }

  /** The scheduled downloads are staggered. */
  lemma HintsStaggered(items: seq<VideoInfo>)
    ensures Staggered(Hints(items))
  {
    HintsLength(items);
    forall k | 0 <= k < |Hints(items)|
      ensures Hints(items)[k].delay == 100 * k + 100
    {
      var delay := HintDelayAt(items, k);
    }
  }

  /** Staggered delays are positive, strictly increasing and 100 ms apart. */
  lemma DelaysStaggered(hints: seq<Hint>, j: nat, k: nat)
    requires Staggered(hints) && j < k < |hints|
    ensures 0 < hints[j].delay < hints[k].delay
    ensures hints[j + 1].delay == hints[j].delay + 100
  {
  }

  /** The delay of download k + 1. */
  lemma HintDelayAt(items: seq<VideoInfo>, k: nat) returns (delay: nat)
    requires k < |items|
    ensures |Hints(items)| == |items|
    ensures delay == Hints(items)[k].delay && delay == 100 * k + 100
  {
    HintsLength(items);
    HintsAt(items, k);
    delay := Hints(items)[k].delay;
  }

  /** Only Video entries are scheduled, and every one of them is. */
  lemma {:induction false} ScheduledAreTheVideos(infos: seq<VideoInfo>, x: VideoInfo)
    ensures x in VideoItems(infos) <==> x in infos && x.itemType == Video
  {
    if infos != [] {
      var front := infos[..|infos| - 1];
      ScheduledAreTheVideos(front, x);
      assert infos == front + [infos[|infos| - 1]];
    }
  }

  /** A scheduled request names the file it suggests exactly when the
      sanitised description does not end in whitespace: the endpoint sanitises
      the custom name once more, and only then is that a no-op. */
  lemma HintMatchesServedName(item: VideoInfo, k: nat, storageName: string)
    ensures var h := HintFor(k, item);
      var c := SanitizeFilename(item.desc);
      PublicName(h.request.naming, ".mp4", storageName) == h.filename <==> !IsSpace(c[|c| - 1])
  {
    var c := SanitizeFilename(item.desc);
    SanitizeTwiceIff(item.desc);
    var again := SanitizeFilename(c);
    if again + ".mp4" == c + ".mp4" {
      assert again == (again + ".mp4")[..|again|];
      assert c == (c + ".mp4")[..|c|];
    }
  }

  /** A sanitised description may keep a single quote, which the emitted
      script writes unescaped between single quotes. */
  lemma HintFilenameMayHoldQuote()
    ensures '\'' in HintFilename(VideoInfo("u", "'", Video))
  {
    CleanNameUnchanged("'");
  }
}
