/**
 * download_xml_files.py, the simpler driver: it reads xml/248/list.xml and
 * xml/no248/list.xml, queues the XML files not yet downloaded, orders them newest
 * first (without removing older versions) and downloads them, recording each new
 * download in processing_status.json.
 *
 * normalize_filename and extract_date_from_filename are the same code as in
 * download_xml_data.py and are modelled once, in module FileNames.
 */
module DownloadXmlFiles {
  import opened Common
  import opened Calendar
  import opened Latest
  import opened FileNames
  import opened Xml
  import DownloadXmlData

  // ---------------------------------------------------------------------
  // sort_files_by_date (no deduplication here)
  // ---------------------------------------------------------------------

  /** `sorted(files, key=date of basename, reverse=True)`: a stable sort, newest first. */
  function SortFilesByDate(files: seq<string>): seq<string> {
    SortBy(files, DownloadXmlData.NewestFirstRank)
  }

  /**
   * The result is a permutation of the input (nothing is dropped), in non-increasing
   * date order, and files of equal date keep their input order.
   */
  lemma SortFilesByDateSpec(files: seq<string>)
    ensures var s := SortFilesByDate(files);
      && multiset(s) == multiset(files)
      && |s| == |files|
      && (forall i, j :: 0 <= i < j < |s| ==>
            !Before(ExtractDateFromFilename(Basename(s[i])), ExtractDateFromFilename(Basename(s[j]))))
      && (forall v :: RankIs(s, DownloadXmlData.NewestFirstRank, v) == RankIs(files, DownloadXmlData.NewestFirstRank, v))
  {
    var s := SortFilesByDate(files);
    SortBySpec(files, DownloadXmlData.NewestFirstRank);
    assert |s| == |multiset(s)| == |multiset(files)| == |files|;
    forall i, j | 0 <= i < j < |s|
      ensures !Before(ExtractDateFromFilename(Basename(s[i])), ExtractDateFromFilename(Basename(s[j])))
    {
      BeforeIsOrdinalLess(ExtractDateFromFilename(Basename(s[i])), ExtractDateFromFilename(Basename(s[j])));
    }
  }

  // ---------------------------------------------------------------------
  // process_list_xml: the queue
  // ---------------------------------------------------------------------

  /**
   * A record of this script's processing_status.json: `status` and `url` as read
   * back (either may be absent in a file written by hand); `downloaded_at` is not
   * modelled.
   */
  datatype XmlRecord = XmlRecord(status: Option<string>, url: Option<string>)

  const CompletedStatus: string := "completed"

  /** An item link is queued when it names an XML file whose normalised basename is not recorded as completed. */
  predicate ToFetch(link: string, status: map<string, XmlRecord>) {
    var name := DownloadXmlData.ManifestName(link);
    EndsWith(link, ".xml") && !(name in status && status[name].status == Some(CompletedStatus))
  }

  /** The links queued from the elements `ds`, in document order. */
  function Queue(ds: seq<Element>, status: map<string, XmlRecord>): seq<string>
    decreases |ds|
  {
    if ds == [] then []
    else
      var d := ds[|ds| - 1];
      var l := DownloadXmlData.ItemLink(d);
      Queue(ds[..|ds| - 1], status) + (if l.Some? && ToFetch(l.value, status) then [l.value] else [])
  }

  /**
   * A link is queued exactly when some `item` element carries it as a non-empty
   * `link` attribute and it is to be fetched; every queued link ends in ".xml".
   */
  lemma {:induction false} QueueSpec(ds: seq<Element>, status: map<string, XmlRecord>)
    ensures forall l :: l in Queue(ds, status) <==>
      (exists d :: d in ds && DownloadXmlData.ItemLink(d) == Some(l)) && ToFetch(l, status)
    ensures forall i :: 0 <= i < |Queue(ds, status)| ==> EndsWith(Queue(ds, status)[i], ".xml")
    decreases |ds|
  {
    if ds != [] {
      var n := |ds| - 1;
      QueueSpec(ds[..n], status);
      assert ds == ds[..n] + [ds[n]];
      assert forall d :: d in ds <==> d in ds[..n] || d == ds[n];
      var q := Queue(ds[..n], status);
      var l := DownloadXmlData.ItemLink(ds[n]);
      var tail := if l.Some? && ToFetch(l.value, status) then [l.value] else [];
      assert Queue(ds, status) == q + tail;
      assert forall i :: 0 <= i < |tail| ==> EndsWith(tail[i], ".xml");
    }
  }

  /** `for item in root.findall(".//item")`: the queued links, in document order. */
  method QueueXmlLinks(root: Element, status: map<string, XmlRecord>) returns (links: seq<string>)
    ensures links == Queue(Descendants(root), status)
  {
    var items := Descendants(root);
    links := [];
    var i := 0;
    while i < |items|
      invariant 0 <= i <= |items|
      invariant links == Queue(items[..i], status)
    {
      var item := items[i];
      QueueStep(items, i, status);
      if item.tag == "item" {
        var link := Attr(item, "link");
        if link.Some? && link.value != "" && EndsWith(link.value, ".xml") {
          var xmlFilename := NormalizeFilename(Basename(link.value));
          if xmlFilename !in status || status[xmlFilename].status != Some(CompletedStatus) {
            links := links + [link.value];
          }
        }
      }
      i := i + 1;
    }
    assert items[..i] == items;
  }

  /** One more element extends the queue by its link when that link is to be fetched. */
  lemma QueueStep(items: seq<Element>, i: int, status: map<string, XmlRecord>)
    requires 0 <= i < |items|
    ensures var l := DownloadXmlData.ItemLink(items[i]);
      Queue(items[..i + 1], status) == Queue(items[..i], status) + (if l.Some? && ToFetch(l.value, status) then [l.value] else [])
  {
    assert items[..i + 1][..i] == items[..i];
  }

  // ---------------------------------------------------------------------
  // download_file
  // ---------------------------------------------------------------------

  /** How the transfer went: written in full, a requests exception, or any other exception. */
  datatype Transfer = Fetched | RequestFailed | OtherFailure

  /** The value download_file returns: True, or the string "skip". */
  datatype FetchResult = Written | Skip

  /** download_file's result; None when the exception propagates to the caller. */
  function DownloadResult(t: Transfer): (r: Option<FetchResult>)
    ensures r == Some(Written) <==> t == Fetched
    ensures r == Some(Skip) <==> t == RequestFailed
    ensures r.None? <==> t == OtherFailure
  {
    match t
    case Fetched => Some(Written)
    case RequestFailed => Some(Skip)
    case OtherFailure => None
  }

  /** The path download_file opens: the requested name with its basename normalised once more. */
  function WritePath(filename: string): string {
    Join(Dirname(filename), NormalizeFilename(Basename(filename)))
  }

  /** Normalising twice changes a name exactly when it ends in ".xml.xml.xml". */
  lemma NormalizeTwice(name: string)
    ensures NormalizeFilename(NormalizeFilename(name)) == NormalizeFilename(name) <==> !EndsWith(name, ".xml.xml.xml")
  {
    var once := NormalizeFilename(name);
    if EndsWith(name, ".xml.xml.xml") {
      var stem := name[..|name| - 12];
      assert name == stem + ".xml.xml.xml";
      NormalizeRemovesOneDuplicate(stem);
      assert once[|once| - 8..] == ".xml.xml";
    } else if EndsWith(name, ".xml.xml") {
      assert once == name[..|name| - 4];
    }
  }

  /**
   * The file written for a queued URL has the name the loop records
   * (`xml_basename`) unless the URL's basename ends in ".xml.xml.xml": then it is
   * written one ".xml" shorter than recorded.
   */
  lemma WrittenNameMatchesRecorded(dataDir: string, url: string)
    ensures var recorded := Join(dataDir, DownloadXmlData.ManifestName(url));
      (Basename(WritePath(recorded)) == Basename(recorded)) <==> !EndsWith(Basename(url), ".xml.xml.xml")
  {
    var m := DownloadXmlData.ManifestName(url);
    var recorded := Join(dataDir, m);
    assert NoSlash(Basename(url));
    NormalizeNoSlash(Basename(url));
    NormalizeNoSlash(m);
    BasenameOfJoin(dataDir, m);
    BasenameOfJoin(Dirname(recorded), NormalizeFilename(m));
    NormalizeTwice(Basename(url));
  }

  lemma NormalizeNoSlash(name: string)
    requires NoSlash(name)
    ensures NoSlash(NormalizeFilename(name))
  {
  }

  // ---------------------------------------------------------------------
  // process_list_xml: the download loop
  // ---------------------------------------------------------------------

  /** The record a new download gets. */
  function NewRecord(url: string): XmlRecord {
    XmlRecord(Some(CompletedStatus), Some(url))
  }

  /** The path the loop records for a URL: the data directory joined with the normalised basename. */
  function RecordedPath(dataDir: string, url: string): string {
    Join(dataDir, DownloadXmlData.ManifestName(url))
  }

  /** The paths appended to downloaded_xml_files, in order. */
  function Downloaded(dataDir: string, links: seq<string>, outcomes: seq<Transfer>): seq<string>
    requires |links| == |outcomes|
    decreases |links|
  {
    if links == [] then []
    else
      var n := |links| - 1;
      Downloaded(dataDir, links[..n], outcomes[..n]) + (if outcomes[n] == Fetched then [RecordedPath(dataDir, links[n])] else [])
  }

  /** processing_status after the loop: a successful download adds a record only under a new name. */
  function StatusAfterDownloads(status: map<string, XmlRecord>, links: seq<string>, outcomes: seq<Transfer>): map<string, XmlRecord>
    requires |links| == |outcomes|
    decreases |links|
  {
    if links == [] then status
    else
      var n := |links| - 1;
      var m := StatusAfterDownloads(status, links[..n], outcomes[..n]);
      var name := DownloadXmlData.ManifestName(links[n]);
      if outcomes[n] == Fetched && name !in m then m[name := NewRecord(links[n])] else m
  }

  /** Where an exception would end the loop: the first transfer that is neither written nor a requests error. */
  function FirstRaise(outcomes: seq<Transfer>): (r: nat)
    ensures r <= |outcomes|
    ensures forall i :: 0 <= i < r ==> outcomes[i] != OtherFailure
    ensures r < |outcomes| ==> outcomes[r] == OtherFailure
    decreases |outcomes|
  {
    if outcomes == [] then 0
    else if outcomes[0] == OtherFailure then 0
    else
      var r := FirstRaise(outcomes[1..]);
      assert forall i :: 1 <= i < |outcomes| ==> outcomes[i] == outcomes[1..][i - 1];
      1 + r
  }

  /** links[i] was downloaded and has normalised basename k. */
  ghost predicate FetchedAt(links: seq<string>, outcomes: seq<Transfer>, k: string, i: int)
    requires |links| == |outcomes|
  {
    0 <= i < |links| && outcomes[i] == Fetched && DownloadXmlData.ManifestName(links[i]) == k
  }

  /** A successful download of `url` gives a new record for its name: the first such URL's. */
  ghost predicate AddedBy(links: seq<string>, outcomes: seq<Transfer>, k: string, r: XmlRecord)
    requires |links| == |outcomes|
  {
    exists i :: FetchedAt(links, outcomes, k, i) && r == NewRecord(links[i])
      && forall j :: 0 <= j < i ==> !FetchedAt(links, outcomes, k, j)
  }

  /** Some successful download has normalised basename k. */
  ghost predicate FetchedName(links: seq<string>, outcomes: seq<Transfer>, k: string)
    requires |links| == |outcomes|
  {
    exists i :: FetchedAt(links, outcomes, k, i)
  }

  /** A download of the prefix is a download of the whole list. */
  lemma FetchedAtPrefix(links: seq<string>, outcomes: seq<Transfer>, n: int, k: string, i: int)
    requires |links| == |outcomes| && 0 <= i < n <= |links|
    ensures FetchedAt(links[..n], outcomes[..n], k, i) <==> FetchedAt(links, outcomes, k, i)
    ensures links[..n][i] == links[i]
  {
    assert links[..n][i] == links[i] && outcomes[..n][i] == outcomes[i];
  }

  /** The names of successful downloads grow by the last link's name when it was downloaded. */
  lemma FetchedNameStep(links: seq<string>, outcomes: seq<Transfer>)
    requires |links| == |outcomes| && links != []
    ensures var n := |links| - 1;
      forall k :: FetchedName(links, outcomes, k) <==> FetchedName(links[..n], outcomes[..n], k) || FetchedAt(links, outcomes, k, n)
  {
    var n := |links| - 1;
    var pl, po := links[..n], outcomes[..n];
    forall k ensures FetchedName(links, outcomes, k) <==> FetchedName(pl, po, k) || FetchedAt(links, outcomes, k, n) {
      if FetchedName(links, outcomes, k) {
        var i :| FetchedAt(links, outcomes, k, i);
        if i < n {
          FetchedAtPrefix(links, outcomes, n, k, i);
        }
      }
      if FetchedName(pl, po, k) {
        var i :| FetchedAt(pl, po, k, i);
        FetchedAtPrefix(links, outcomes, n, k, i);
      }
    }
  }

  /**
   * Records already present are never changed, and a new name appears only for a
   * successful download of a URL with that normalised basename; a skip adds nothing.
   */
  lemma {:induction false} StatusKeepsRecords(status: map<string, XmlRecord>, links: seq<string>, outcomes: seq<Transfer>)
    requires |links| == |outcomes|
    ensures var r := StatusAfterDownloads(status, links, outcomes);
      && (forall k :: k in status ==> k in r && r[k] == status[k])
      && (forall k :: k in r <==> (k in status || FetchedName(links, outcomes, k)))
  {
    StatusKeepsOld(status, links, outcomes);
    StatusNames(status, links, outcomes);
  }

  lemma {:induction false} StatusKeepsOld(status: map<string, XmlRecord>, links: seq<string>, outcomes: seq<Transfer>)
    requires |links| == |outcomes|
    ensures forall k :: k in status ==> k in StatusAfterDownloads(status, links, outcomes) && StatusAfterDownloads(status, links, outcomes)[k] == status[k]
    decreases |links|
  {
    if links != [] {
      var n := |links| - 1;
      StatusKeepsOld(status, links[..n], outcomes[..n]);
      StatusLast(status, links, outcomes);
    }
  }

  lemma {:induction false} StatusNames(status: map<string, XmlRecord>, links: seq<string>, outcomes: seq<Transfer>)
    requires |links| == |outcomes|
    ensures forall k :: k in StatusAfterDownloads(status, links, outcomes) <==> (k in status || FetchedName(links, outcomes, k))
    decreases |links|
  {
    if links != [] {
      var n := |links| - 1;
      var m := StatusAfterDownloads(status, links[..n], outcomes[..n]);
      StatusNames(status, links[..n], outcomes[..n]);
      FetchedNameStep(links, outcomes);
      StatusLast(status, links, outcomes);
      var r := StatusAfterDownloads(status, links, outcomes);
      assert forall k :: k in r <==> k in m || FetchedAt(links, outcomes, k, n);
    }
  }

  /** The record a name has after the prefix carries over to the whole list. */
  lemma AddedByStep(links: seq<string>, outcomes: seq<Transfer>, k: string, r: XmlRecord)
    requires |links| == |outcomes| && links != []
    requires AddedBy(links[..|links| - 1], outcomes[..|links| - 1], k, r)
    ensures AddedBy(links, outcomes, k, r)
  {
    var n := |links| - 1;
    var pl, po := links[..n], outcomes[..n];
    var i :| FetchedAt(pl, po, k, i) && r == NewRecord(pl[i])
      && forall j :: 0 <= j < i ==> !FetchedAt(pl, po, k, j);
    FetchedAtPrefix(links, outcomes, n, k, i);
    forall j | 0 <= j < i ensures !FetchedAt(links, outcomes, k, j) {
      FetchedAtPrefix(links, outcomes, n, k, j);
    }
  }

  /** The last link adds the record for a name no earlier download had. */
  lemma AddedByLast(links: seq<string>, outcomes: seq<Transfer>, k: string)
    requires |links| == |outcomes| && links != []
    requires FetchedAt(links, outcomes, k, |links| - 1)
    requires !FetchedName(links[..|links| - 1], outcomes[..|links| - 1], k)
    ensures AddedBy(links, outcomes, k, NewRecord(links[|links| - 1]))
  {
    var n := |links| - 1;
    forall j | 0 <= j < n ensures !FetchedAt(links, outcomes, k, j) {
      FetchedAtPrefix(links, outcomes, n, k, j);
    }
  }

  /** The last link adds its record when it was downloaded under a name not yet present. */
  lemma StatusLast(status: map<string, XmlRecord>, links: seq<string>, outcomes: seq<Transfer>)
    requires |links| == |outcomes| && links != []
    ensures var n := |links| - 1;
      var m := StatusAfterDownloads(status, links[..n], outcomes[..n]);
      var name := DownloadXmlData.ManifestName(links[n]);
      StatusAfterDownloads(status, links, outcomes) == if FetchedAt(links, outcomes, name, n) && name !in m then m[name := NewRecord(links[n])] else m
  {
  }

  /** A new name's record is completed and holds the first successfully downloaded URL with that name. */
  lemma {:induction false} StatusNewRecords(status: map<string, XmlRecord>, links: seq<string>, outcomes: seq<Transfer>)
    requires |links| == |outcomes|
    ensures var r := StatusAfterDownloads(status, links, outcomes);
      forall k :: k in r && k !in status ==> AddedBy(links, outcomes, k, r[k])
    decreases |links|
  {
    if links != [] {
      var n := |links| - 1;
      var pl, po := links[..n], outcomes[..n];
      StatusNewRecords(status, pl, po);
      StatusNames(status, pl, po);
      var m := StatusAfterDownloads(status, pl, po);
      var r := StatusAfterDownloads(status, links, outcomes);
      StatusLast(status, links, outcomes);
      forall k | k in r && k !in status ensures AddedBy(links, outcomes, k, r[k]) {
        if k in m {
          assert r[k] == m[k];
          AddedByStep(links, outcomes, k, m[k]);
        } else {
          assert FetchedAt(links, outcomes, k, n) && r[k] == NewRecord(links[n]);
          assert !FetchedName(pl, po, k);
          AddedByLast(links, outcomes, k);
        }
      }
    }
  }

  /** The recorded paths are exactly those of the successful downloads, in order. */
  lemma {:induction false} DownloadedSpec(dataDir: string, links: seq<string>, outcomes: seq<Transfer>)
    requires |links| == |outcomes|
    ensures forall p :: p in Downloaded(dataDir, links, outcomes) <==>
      exists i :: 0 <= i < |links| && outcomes[i] == Fetched && p == RecordedPath(dataDir, links[i])
    ensures |Downloaded(dataDir, links, outcomes)| <= |links|
    decreases |links|
  {
    if links != [] {
      var n := |links| - 1;
      var pl, po := links[..n], outcomes[..n];
      DownloadedSpec(dataDir, pl, po);
      DownloadedLast(dataDir, links, outcomes);
      forall i | 0 <= i < n ensures pl[i] == links[i] && po[i] == outcomes[i] {
      }
    }
  }

  /** The last link adds its path, if its download succeeded, after those of the earlier links. */
  lemma DownloadedLast(dataDir: string, links: seq<string>, outcomes: seq<Transfer>)
    requires |links| == |outcomes| && links != []
    ensures var n := |links| - 1;
      forall p :: p in Downloaded(dataDir, links, outcomes) <==>
        p in Downloaded(dataDir, links[..n], outcomes[..n]) || (outcomes[n] == Fetched && p == RecordedPath(dataDir, links[n]))
    ensures var n := |links| - 1;
      |Downloaded(dataDir, links, outcomes)| <= |Downloaded(dataDir, links[..n], outcomes[..n])| + 1
  {
  }

  /** One turn of the download loop, stated on the specification functions. */
  lemma DownloadStep(dataDir: string, links: seq<string>, outcomes: seq<Transfer>, status: map<string, XmlRecord>, i: int)
    requires |links| == |outcomes| && 0 <= i < |links|
    ensures var m := StatusAfterDownloads(status, links[..i], outcomes[..i]);
      var name := DownloadXmlData.ManifestName(links[i]);
      && Downloaded(dataDir, links[..i + 1], outcomes[..i + 1]) ==
           Downloaded(dataDir, links[..i], outcomes[..i]) + (if outcomes[i] == Fetched then [RecordedPath(dataDir, links[i])] else [])
      && StatusAfterDownloads(status, links[..i + 1], outcomes[..i + 1]) ==
           (if outcomes[i] == Fetched && name !in m then m[name := NewRecord(links[i])] else m)
  {
    assert links[..i + 1][..i] == links[..i] && outcomes[..i + 1][..i] == outcomes[..i];
  }

  /**
   * The loop over the queued links. An empty queue returns before the loop, and
   * processing_status.json is not written (`saved` is None). The loop ends early
   * when download_file raises anything other than a requests exception; the
   * handler of process_list_xml then reports it and the file is not written either.
   */
  method DownloadXmlLinks(dataDir: string, links: seq<string>, outcomes: seq<Transfer>, status: map<string, XmlRecord>)
    returns (downloaded: seq<string>, current: map<string, XmlRecord>, saved: Option<map<string, XmlRecord>>)
    requires |links| == |outcomes|
    ensures var n := FirstRaise(outcomes);
      && downloaded == Downloaded(dataDir, links[..n], outcomes[..n])
      && current == StatusAfterDownloads(status, links[..n], outcomes[..n])
      && (saved.Some? <==> links != [] && n == |links|)
      && (saved.Some? ==> saved.value == current)
  {
    downloaded := [];
    current := status;
    if |links| == 0 {
      saved := None;
      return;
    }
    ghost var n := FirstRaise(outcomes);
    var i := 0;
    while i < |links|
      invariant 0 <= i <= n
      invariant downloaded == Downloaded(dataDir, links[..i], outcomes[..i])
      invariant current == StatusAfterDownloads(status, links[..i], outcomes[..i])
    {
      var xmlUrl := links[i];
      var xmlFilename := Join(dataDir, NormalizeFilename(Basename(xmlUrl)));
      var xmlBasename := Basename(xmlFilename);
      BasenameOfJoin(dataDir, NormalizeFilename(Basename(xmlUrl)));
      var result := DownloadResult(outcomes[i]);
      if result.None? {
        assert i == n;
        saved := None;
        return;
      }
      DownloadStep(dataDir, links, outcomes, status, i);
      if result.value == Written {
        downloaded := downloaded + [xmlFilename];
        if xmlBasename !in current {
          current := current[xmlBasename := NewRecord(xmlUrl)];
        }
      }
      i := i + 1;
    }
    assert links[..i] == links && outcomes[..i] == outcomes;
    saved := Some(current);
  }
}
