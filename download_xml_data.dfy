/**
 * download_xml_data.py, the driver that reads a list.xml manifest, downloads the
 * listed XML files and then the ZIP and XSD files they link to: keeping the
 * newest version of each file, ordering the manifests newest first, collecting
 * the ZIP/XSD link sets, the target name of a download and the list.xml filter.
 * The integrity cache and the status records are in module Integrity.
 */
module DownloadXmlData {
  import opened Common
  import opened Calendar
  import opened Latest
  import opened FileNames
  import opened Xml

  // ---------------------------------------------------------------------
  // get_unique_latest_files and sort_files_by_date
  // ---------------------------------------------------------------------

  /** get_unique_latest_files compares the dates read from the whole path. */
  function PathRank(file: string): int {
    Ordinal(ExtractDateFromFilename(file))
  }

  /** sort_files_by_date orders by the date of the basename, newest first. */
  function NewestFirstRank(file: string): int {
    -Ordinal(ExtractDateFromFilename(Basename(file)))
  }

  /** `d1 > d2` on extracted dates is the rank comparison. */
  lemma PathRankOrder(a: string, b: string)
    ensures Before(ExtractDateFromFilename(a), ExtractDateFromFilename(b)) <==> PathRank(a) < PathRank(b)
  {
    BeforeIsOrdinalLess(ExtractDateFromFilename(a), ExtractDateFromFilename(b));
  }

  /** One file of get_unique_latest_files: it replaces the entry of its base key only when its date is strictly later. */
  method KeepIfLater(ghost seen: seq<string>, file: string, order: seq<string>, latest: map<string, string>)
    returns (order': seq<string>, latest': map<string, string>)
    requires DictMatches(seen, BaseKey, PathRank, order, latest)
    ensures DictMatches(seen + [file], BaseKey, PathRank, order', latest')
  {
    var baseName := BaseKey(file);
    var fileDate := ExtractDateFromFilename(file);
    DictStep(seen, BaseKey, PathRank, order, latest, file);
    if baseName in latest {
      PathRankOrder(latest[baseName], file);
    }
    order', latest' := order, latest;
    if baseName !in latest || Before(ExtractDateFromFilename(latest[baseName]), fileDate) {
      if baseName !in latest {
        order' := order + [baseName];
      }
      latest' := latest[baseName := file];
    }
  }

  lemma PrefixStep(files: seq<string>, i: int)
    requires 0 <= i < |files|
    ensures files[..i + 1] == files[..i] + [files[i]]
  {
  }

  /**
   * get_unique_latest_files: one pass filling a dict keyed by BaseKey, replacing an
   * entry only by a file with a strictly later date; the dict's values in key order.
   */
  method GetUniqueLatestFiles(files: seq<string>) returns (r: seq<string>)
    ensures r == KeptItems(files, BaseKey, PathRank)
  {
    var latest: map<string, string> := map[];
    var order: seq<string> := [];
    var i := 0;
    while i < |files|
      invariant 0 <= i <= |files|
      invariant DictMatches(files[..i], BaseKey, PathRank, order, latest)
    {
      order, latest := KeepIfLater(files[..i], files[i], order, latest);
      PrefixStep(files, i);
      i := i + 1;
    }
    assert files[..i] == files;
    r := DictValuesInOrder(files, BaseKey, PathRank, order, latest);
  }


  /** get_unique_latest_files keeps input files only, one per base key, and at least one for every key present. */
  lemma UniqueLatestKeys(files: seq<string>)
    ensures var r := KeptItems(files, BaseKey, PathRank);
      && (forall i :: 0 <= i < |r| ==> r[i] in files)
      && (forall i, j :: 0 <= i < j < |r| ==> BaseKey(r[i]) != BaseKey(r[j]))
      && (forall f :: f in files ==> exists i :: 0 <= i < |r| && BaseKey(r[i]) == BaseKey(f))
  {
    KeptItemsShape(files, BaseKey, PathRank);
  }

  /**
   * The file kept for a key has the latest date among the files with that key, and
   * every earlier file with that key is strictly older: ties keep the first seen.
   */
  lemma UniqueLatestDates(files: seq<string>, i: int)
    requires 0 <= i < |KeptItems(files, BaseKey, PathRank)|
    ensures var x := KeptItems(files, BaseKey, PathRank)[i];
      && (forall f :: f in files && BaseKey(f) == BaseKey(x) ==>
            !Before(ExtractDateFromFilename(x), ExtractDateFromFilename(f)))
      && (exists j :: 0 <= j < |files| && x == files[j] &&
            (forall k :: 0 <= k < j && BaseKey(files[k]) == BaseKey(x) ==>
              Before(ExtractDateFromFilename(files[k]), ExtractDateFromFilename(x))))
  {
    var x := KeptItems(files, BaseKey, PathRank)[i];
    KeptItemAt(files, BaseKey, PathRank, i);
    var j :| KeptAt(files, BaseKey, PathRank, BaseKey(x), j) && x == files[j];
    forall f | f in files && BaseKey(f) == BaseKey(x)
      ensures !Before(ExtractDateFromFilename(x), ExtractDateFromFilename(f))
    {
      var m :| 0 <= m < |files| && files[m] == f;
      PathRankOrder(x, f);
    }
    forall k | 0 <= k < j && BaseKey(files[k]) == BaseKey(x)
      ensures Before(ExtractDateFromFilename(files[k]), ExtractDateFromFilename(x))
    {
      PathRankOrder(files[k], x);
    }
  }

  /** sort_files_by_date: the kept files, newest first by the date of their basename. */
  function SortFilesByDate(files: seq<string>): seq<string> {
    SortBy(KeptItems(files, BaseKey, PathRank), NewestFirstRank)
  }

  /**
   * The sorted list has the same files as get_unique_latest_files, in non-increasing
   * date order, and files of equal date keep their order.
   */
  lemma SortFilesByDateSpec(files: seq<string>)
    ensures var s := SortFilesByDate(files);
      && multiset(s) == multiset(KeptItems(files, BaseKey, PathRank))
      && (forall i, j :: 0 <= i < j < |s| ==>
            !Before(ExtractDateFromFilename(Basename(s[i])), ExtractDateFromFilename(Basename(s[j]))))
      && (forall v :: RankIs(s, NewestFirstRank, v) == RankIs(KeptItems(files, BaseKey, PathRank), NewestFirstRank, v))
  {
    var u := KeptItems(files, BaseKey, PathRank);
    SortBySpec(u, NewestFirstRank);
    var s := SortFilesByDate(files);
    forall i, j | 0 <= i < j < |s|
      ensures !Before(ExtractDateFromFilename(Basename(s[i])), ExtractDateFromFilename(Basename(s[j])))
    {
      BeforeIsOrdinalLess(ExtractDateFromFilename(Basename(s[i])), ExtractDateFromFilename(Basename(s[j])));
    }
  }

  // ---------------------------------------------------------------------
  // extract_links_from_xml (the set version)
  // ---------------------------------------------------------------------

  lemma ZipIsNotXsd(v: string)
    ensures !(EndsWith(v, ".zip") && EndsWith(v, ".xsd"))
  {
    if EndsWith(v, ".zip") && EndsWith(v, ".xsd") {
      SameLengthSuffixes(v, ".zip", ".xsd");
    }
  }

  /** The links of the given candidates that end with ext. */
  function SuffixLinks(cands: seq<Candidate>, ext: string): set<string>
    decreases |cands|
  {
    if cands == [] then {}
    else
      var c := cands[|cands| - 1];
      SuffixLinks(cands[..|cands| - 1], ext) + (if EndsWith(c.link, ext) then {c.link} else {})
  }

  lemma {:induction false} SuffixLinksSpec(cands: seq<Candidate>, ext: string)
    ensures forall v :: v in SuffixLinks(cands, ext) <==> (exists c :: c in cands && c.link == v) && EndsWith(v, ext)
    decreases |cands|
  {
    if cands != [] {
      var n := |cands| - 1;
      SuffixLinksSpec(cands[..n], ext);
      assert cands == cands[..n] + [cands[n]];
      assert forall c :: c in cands <==> c in cands[..n] || c == cands[n];
    }
  }

  /** The links under the root ending with ext are the attribute and text links with that ending. */
  lemma LinkSetSpec(root: Element, ext: string)
    ensures forall v :: v in SuffixLinks(LinkCandidates(root), ext) <==> (AttrLink(root, v) || TextLink(root, v)) && EndsWith(v, ext)
  {
    SuffixLinksSpec(LinkCandidates(root), ext);
    LinkCandidatesSpec(root);
  }

  /** The loop of extract_links_from_xml over the candidate strings: `.zip` ones to one set, `.xsd` ones to the other. */
  method SplitLinks(cands: seq<Candidate>) returns (zips: set<string>, xsds: set<string>)
    ensures zips == SuffixLinks(cands, ".zip") && xsds == SuffixLinks(cands, ".xsd")
  {
    zips, xsds := {}, {};
    var i := 0;
    while i < |cands|
      invariant 0 <= i <= |cands|
      invariant zips == SuffixLinks(cands[..i], ".zip")
      invariant xsds == SuffixLinks(cands[..i], ".xsd")
    {
      var link := cands[i].link;
      ZipIsNotXsd(link);
      assert cands[..i + 1][..i] == cands[..i];
      if EndsWith(link, ".zip") {
        zips := zips + {link};
      } else if EndsWith(link, ".xsd") {
        xsds := xsds + {link};
      }
      i := i + 1;
    }
    assert cands[..i] == cands;
  }

  /**
   * extract_links_from_xml: the attribute links and stripped text links under the
   * root, split by suffix into a ZIP set and an XSD set.
   */
  method ExtractLinkSets(root: Element) returns (zips: set<string>, xsds: set<string>)
    ensures forall v :: v in zips <==> (AttrLink(root, v) || TextLink(root, v)) && EndsWith(v, ".zip")
    ensures forall v :: v in xsds <==> (AttrLink(root, v) || TextLink(root, v)) && EndsWith(v, ".xsd")
  {
    zips, xsds := SplitLinks(LinkCandidates(root));
    LinkSetSpec(root, ".zip");
    LinkSetSpec(root, ".xsd");
  }

  // ---------------------------------------------------------------------
  // download_file: the name written to
  // ---------------------------------------------------------------------

  function Repeat(ext: string, k: nat): string {
    if k == 0 then "" else Repeat(ext, k - 1) + ext
  }

  /** `while name.endswith(ext + ext): name = name[:-4]` for a four-character extension. */
  function StripRepeated(name: string, ext: string): (r: string)
    requires |ext| == 4
    decreases |name|
  {
    if EndsWith(name, ext + ext) then StripRepeated(name[..|name| - 4], ext) else name
  }

  /** How many copies of ext the loop peels off. */
  function PeelCount(name: string, ext: string): nat
    requires |ext| == 4
    decreases |name|
  {
    if EndsWith(name, ext + ext) then PeelCount(name[..|name| - 4], ext) + 1 else 0
  }

  /**
   * The loop peels copies of ext off the end, stopping at the first name that no
   * longer ends with two of them; if it peeled any, one copy is left.
   */
  lemma {:induction false} StripRepeatedSpec(name: string, ext: string)
    requires |ext| == 4
    ensures var r := StripRepeated(name, ext);
      && !EndsWith(r, ext + ext)
      && name == r + Repeat(ext, PeelCount(name, ext))
      && (PeelCount(name, ext) > 0 ==> EndsWith(r, ext))
    decreases |name|
  {
    if EndsWith(name, ext + ext) {
      var t := name[..|name| - 4];
      StripRepeatedSpec(t, ext);
      PeelOne(name, ext);
      var k := PeelCount(t, ext);
      assert Repeat(ext, k + 1) == Repeat(ext, k) + ext;
      if k == 0 {
        assert t == StripRepeated(t, ext) + "";
      }
    } else {
      assert name == name + Repeat(ext, 0);
    }
  }

  /** One turn of the loop removes one copy of ext and leaves a name that still ends with ext. */
  lemma PeelOne(name: string, ext: string)
    requires |ext| == 4 && EndsWith(name, ext + ext)
    ensures name == name[..|name| - 4] + ext
    ensures EndsWith(name[..|name| - 4], ext)
  {
    var t := name[..|name| - 4];
    assert name[|name| - 4..] == (ext + ext)[4..] == ext;
    assert t[|t| - 4..] == name[|name| - 8..|name| - 4] == (ext + ext)[..4] == ext;
  }

  /** The basename download_file writes: doubled ".zip" and then doubled ".xml" endings removed. */
  function CleanBasename(filename: string): string {
    StripRepeated(StripRepeated(Basename(filename), ".zip"), ".xml")
  }

  /** After the ".xml" loop the name still does not end in ".zip.zip". */
  lemma CleanBasenameSpec(filename: string)
    ensures !EndsWith(CleanBasename(filename), ".zip.zip") && !EndsWith(CleanBasename(filename), ".xml.xml")
  {
    var z := StripRepeated(Basename(filename), ".zip");
    var r := CleanBasename(filename);
    StripRepeatedSpec(Basename(filename), ".zip");
    StripRepeatedSpec(z, ".xml");
    assert ".zip" + ".zip" == ".zip.zip" && ".xml" + ".xml" == ".xml.xml";
    var k := PeelCount(z, ".xml");
    if k == 0 {
      assert z == r + "";
    } else {
      assert r[|r| - 4..] == ".xml";
      assert r[|r| - 1] == 'l';
      assert ".zip.zip"[7] == 'p';
    }
  }

  /**
   * The path download_file (download_xml_data.py) opens for writing: the directory of
   * the requested name joined with the cleaned basename.
   */
  method DownloadTarget(filename: string) returns (target: string)
    ensures target == Join(Dirname(filename), CleanBasename(filename))
    ensures !EndsWith(Basename(target), ".zip.zip") && !EndsWith(Basename(target), ".xml.xml")
  {
    assert ".zip" + ".zip" == ".zip.zip" && ".xml" + ".xml" == ".xml.xml";
    var basename := Basename(filename);
    while EndsWith(basename, ".zip.zip")
      invariant NoSlash(basename)
      invariant StripRepeated(basename, ".zip") == StripRepeated(Basename(filename), ".zip")
      decreases |basename|
    {
      assert StripRepeated(basename, ".zip") == StripRepeated(basename[..|basename| - 4], ".zip");
      basename := basename[..|basename| - 4];
    }
    assert basename == StripRepeated(Basename(filename), ".zip");
    while EndsWith(basename, ".xml.xml")
      invariant NoSlash(basename)
      invariant StripRepeated(basename, ".xml") == CleanBasename(filename)
      decreases |basename|
    {
      assert StripRepeated(basename, ".xml") == StripRepeated(basename[..|basename| - 4], ".xml");
      basename := basename[..|basename| - 4];
    }
    assert basename == CleanBasename(filename);
    target := Join(Dirname(filename), basename);
    CleanBasenameSpec(filename);
    BasenameOfJoin(Dirname(filename), basename);
  }

  // ---------------------------------------------------------------------
  // process_list_xml: which manifests to fetch
  // ---------------------------------------------------------------------

  datatype EntryStatus = Exists | Failed | Missing
  datatype FileEntry = FileEntry(filename: string, status: EntryStatus)
  datatype StatusError = ZipCorrupt(name: string) | ZipMissing(name: string) | XsdCorrupt(name: string) | XsdMissing(name: string)
  datatype Progress = InProgress | Completed | Incomplete

  /** One record of processing_status.json. */
  datatype StatusRecord = StatusRecord(
    status: Progress, xmlDownloaded: bool,
    zipFiles: seq<FileEntry>, xsdFiles: seq<FileEntry>, errors: seq<StatusError>)

  /** The key a manifest link is recorded under. */
  function ManifestName(link: string): string {
    NormalizeFilename(Basename(link))
  }

  /** An `item` element's link is fetched when it names an XML file not yet recorded as completed. */
  predicate Wanted(link: string, status: map<string, StatusRecord>) {
    EndsWith(link, ".xml") && !(ManifestName(link) in status && status[ManifestName(link)].status == Completed)
  }

  /** The `link` attribute of an `item` element, when it is non-empty. */
  function ItemLink(e: Element): Option<string> {
    if e.tag == "item" && Attr(e, "link").Some? && Attr(e, "link").value != "" then Attr(e, "link") else None
  }

  /** The links queued from the elements `ds`, in document order. */
  function Queued(ds: seq<Element>, status: map<string, StatusRecord>): seq<string>
    decreases |ds|
  {
    if ds == [] then []
    else
      var l := ItemLink(ds[|ds| - 1]);
      Queued(ds[..|ds| - 1], status) + (if l.Some? && Wanted(l.value, status) then [l.value] else [])
  }

  /**
   * A link is queued exactly when some `item` element carries it as a non-empty
   * `link` attribute and it is wanted; every queued link ends in ".xml".
   */
  lemma {:induction false} QueuedSpec(ds: seq<Element>, status: map<string, StatusRecord>)
    ensures forall l :: l in Queued(ds, status) <==> exists d :: d in ds && ItemLink(d) == Some(l) && Wanted(l, status)
    ensures forall i :: 0 <= i < |Queued(ds, status)| ==> EndsWith(Queued(ds, status)[i], ".xml")
    decreases |ds|
  {
    if ds != [] {
      var n := |ds| - 1;
      QueuedSpec(ds[..n], status);
      assert ds == ds[..n] + [ds[n]];
      assert forall d :: d in ds <==> d in ds[..n] || d == ds[n];
      var l := ItemLink(ds[n]);
      var tail := if l.Some? && Wanted(l.value, status) then [l.value] else [];
      assert Queued(ds, status) == Queued(ds[..n], status) + tail;
      assert forall i :: 0 <= i < |tail| ==> EndsWith(tail[i], ".xml");
    }
  }

  /** One more element extends the queue by its link when that link is wanted. */
  lemma QueuedStep(items: seq<Element>, i: int, status: map<string, StatusRecord>)
    requires 0 <= i < |items|
    ensures var l := ItemLink(items[i]);
      Queued(items[..i + 1], status) == Queued(items[..i], status) + (if l.Some? && Wanted(l.value, status) then [l.value] else [])
  {
    assert items[..i + 1][..i] == items[..i];
  }

  /** The list.xml filter: `for item in root.findall(".//item")`, in document order. */
  method QueueXmlLinks(root: Element, status: map<string, StatusRecord>) returns (links: seq<string>)
    ensures links == Queued(Descendants(root), status)
    ensures forall l :: l in links <==>
      exists d :: d in Descendants(root) && ItemLink(d) == Some(l) && Wanted(l, status)
    ensures forall i :: 0 <= i < |links| ==> EndsWith(links[i], ".xml")
  {
    var items := Descendants(root);
    links := [];
    var i := 0;
    while i < |items|
      invariant 0 <= i <= |items|
      invariant links == Queued(items[..i], status)
    {
      var item := items[i];
      QueuedStep(items, i, status);
      if item.tag == "item" {
        var link := Attr(item, "link");
        if link.Some? && link.value != "" && EndsWith(link.value, ".xml") {
          var xmlFilename := NormalizeFilename(Basename(link.value));
          if xmlFilename !in status || status[xmlFilename].status != Completed {
            links := links + [link.value];
          }
        }
      }
      i := i + 1;
    }
    assert items[..i] == items;
    QueuedSpec(items, status);
  }
}
