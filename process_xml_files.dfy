/**
 * process_xml_files.py: where a manifest's files go (get_target_directory) and
 * which ZIP and XSD links of a manifest are downloaded (extract_links_from_xml with
 * its nested extract_date_from_element): one link per file name and kind, the one
 * with the latest date, listed oldest first.
 *
 * datetime.fromisoformat is the parameter `parse`: Some(t) when it accepts the
 * string, t being the instant as a number (datetime.min is 0, every instant is at
 * least that), None when it raises ValueError.
 */
module ProcessXmlFiles {
  import opened Common
  import opened Latest
  import opened FileNames
  import opened Xml
  import opened DownloadXmlData

  // ---------------------------------------------------------------------
  // get_target_directory
  // ---------------------------------------------------------------------

  /** The subdirectory named by the manifest's own directory: 'xml/248' first, then 'xml/no248'. */
  function Subdir(sourceDir: string): (r: Option<string>)
    ensures r == Some("248") <==> Contains(sourceDir, "xml/248")
    ensures r == Some("no248") <==> !Contains(sourceDir, "xml/248") && Contains(sourceDir, "xml/no248")
    ensures r.None? <==> !Contains(sourceDir, "xml/248") && !Contains(sourceDir, "xml/no248")
  {
    if Contains(sourceDir, "xml/248") then Some("248")
    else if Contains(sourceDir, "xml/no248") then Some("no248")
    else None
  }

  /** `data-(\d{4})(\d{2})` matches at position i. */
  predicate DataStampAt(s: string, i: int) {
    OccursAt(s, i, "data-") && DigitsAt(s, i + 5, 6)
  }

  function FirstDataStamp(s: string): (r: Option<int>)
    ensures r.Some? ==> DataStampAt(s, r.value)
    ensures r.Some? ==> forall j :: 0 <= j < r.value ==> !DataStampAt(s, j)
    ensures r.None? ==> forall j :: 0 <= j <= |s| ==> !DataStampAt(s, j)
  {
    var at := i => DataStampAt(s, i);
    assert forall j :: at(j) <==> DataStampAt(s, j);
    Leftmost(|s|, at, 0)
  }

  /** The target directory opens with the subdirectory and names the year and month of the first data stamp. */
  function GetTargetDirectory(filename: string, sourceDir: string): (r: Option<string>)
    ensures r.Some? <==> Subdir(sourceDir).Some? && exists i :: 0 <= i <= |filename| && DataStampAt(filename, i)
    ensures r.Some? ==>
      exists i :: 0 <= i <= |filename| && DataStampAt(filename, i)
        && (forall j :: 0 <= j < i ==> !DataStampAt(filename, j))
        && r.value == Join(Subdir(sourceDir).value, filename[i + 5..i + 9] + "-" + filename[i + 9..i + 11])
  {
    match Subdir(sourceDir)
    case None => None
    case Some(subdir) =>
      match FirstDataStamp(filename)
      case None => None
      case Some(i) => Some(Join(subdir, filename[i + 5..i + 9] + "-" + filename[i + 9..i + 11]))
  }

  /**
   * A file named the way download_data.py names its archives goes to the
   * YYYY-MM directory of its year and month.
   */
  lemma TargetOfDataFile(y: int, m: int, q: string, sourceDir: string)
    requires 1000 <= y <= 9999 && 1 <= m <= 12
    requires Subdir(sourceDir).Some?
    ensures GetTargetDirectory("data-" + NatToDecimal(y) + Pad2(m) + q, sourceDir)
      == Some(Join(Subdir(sourceDir).value, NatToDecimal(y) + "-" + Pad2(m)))
  {
    var ys := NatToDecimal(y);
    var ms := Pad2(m);
    FourDigitDecimal(y);
    Pad2Month(m);
    var s := "data-" + ys + ms + q;
    assert s[0..5] == "data-";
    assert s[5..9] == ys;
    assert s[9..11] == ms;
    forall k | 5 <= k < 11 ensures IsDigit(s[k]) {
      if k < 9 {
        assert s[k] == ys[k - 5];
      } else {
        assert s[k] == ms[k - 9];
      }
    }
    assert DataStampAt(s, 0);
    assert FirstDataStamp(s) == Some(0);
  }

  // ---------------------------------------------------------------------
  // extract_date_from_element
  // ---------------------------------------------------------------------

  const DateNames: seq<string> := ["date", "datetime", "time", "created", "modified"]

  /** `s.replace('Z', '+00:00')`. */
  function ReplaceZ(s: string): (r: string)
    ensures forall i :: 0 <= i < |r| ==> r[i] != 'Z'
    ensures (forall i :: 0 <= i < |s| ==> s[i] != 'Z') ==> r == s
    decreases |s|
  {
    if s == [] then []
    else
      var rest := ReplaceZ(s[1..]);
      var head := if s[0] == 'Z' then "+00:00" else [s[0]];
      assert forall i :: 0 <= i < |head| ==> head[i] != 'Z';
      head + rest
  }

  /** Where a date is looked for: in an attribute, or in the text of a child element. */
  datatype DateSource = InAttribute | InChild

  /**
   * The date one name gives: the attribute's value, or the text of the first child
   * with that tag, when it is non-empty and the parser accepts it after 'Z' is
   * replaced by '+00:00'.
   */
  function Probe(e: Element, src: DateSource, name: string, parse: string -> Option<nat>): Option<nat> {
    match src
    case InAttribute =>
      (match Attr(e, name)
       case Some(v) => if v != "" then parse(ReplaceZ(v)) else None
       case None => None)
    case InChild =>
      (match FindChild(e, name)
       case Some(c) => if c.text.Some? && c.text.value != "" then parse(ReplaceZ(c.text.value)) else None
       case None => None)
  }

  /** `for name in names: ... return parsed`: the first name whose probe gives a date (ValueError moves on). */
  function FirstParsed(e: Element, src: DateSource, names: seq<string>, parse: string -> Option<nat>): (r: Option<nat>)
    ensures r.None? <==> forall i :: 0 <= i < |names| ==> Probe(e, src, names[i], parse).None?
    ensures r.Some? ==>
      exists i :: 0 <= i < |names| && Probe(e, src, names[i], parse) == r
        && forall k :: 0 <= k < i ==> Probe(e, src, names[k], parse).None?
    decreases |names|
  {
    if names == [] then None
    else if Probe(e, src, names[0], parse).Some? then Probe(e, src, names[0], parse)
    else
      var r := FirstParsed(e, src, names[1..], parse);
      assert forall i :: 1 <= i < |names| ==> names[i] == names[1..][i - 1];
      r
  }

  /**
   * extract_date_from_element: the first date attribute the parser accepts; failing
   * that, the first date child it accepts; failing that, datetime.min.
   */
  function ElementDate(e: Element, parse: string -> Option<nat>): (r: nat)
    ensures (exists i :: 0 <= i < |DateNames| && Probe(e, InAttribute, DateNames[i], parse).Some?) ==>
      exists i :: 0 <= i < |DateNames| && Probe(e, InAttribute, DateNames[i], parse) == Some(r)
        && forall k :: 0 <= k < i ==> Probe(e, InAttribute, DateNames[k], parse).None?
    ensures ((forall i :: 0 <= i < |DateNames| ==> Probe(e, InAttribute, DateNames[i], parse).None?) &&
             (exists i :: 0 <= i < |DateNames| && Probe(e, InChild, DateNames[i], parse).Some?)) ==>
      exists i :: 0 <= i < |DateNames| && Probe(e, InChild, DateNames[i], parse) == Some(r)
        && forall k :: 0 <= k < i ==> Probe(e, InChild, DateNames[k], parse).None?
    ensures (forall i :: 0 <= i < |DateNames| ==> Probe(e, InAttribute, DateNames[i], parse).None? && Probe(e, InChild, DateNames[i], parse).None?) ==>
      r == 0
  {
    match FirstParsed(e, InAttribute, DateNames, parse)
    case Some(d) => d
    case None =>
      match FirstParsed(e, InChild, DateNames, parse)
      case Some(d) => d
      case None => 0
  }

  // ---------------------------------------------------------------------
  // extract_links_from_xml (the dated version)
  // ---------------------------------------------------------------------

  /** A dict value `{'url': link, 'date': date}`. */
  datatype Entry = Entry(url: string, date: nat)

  /** The dict key of an entry: the basename of its URL. */
  function EntryKey(x: Entry): string {
    Basename(x.url)
  }

  /** The date compared when an entry meets an earlier one with the same key. */
  function EntryDate(x: Entry): int {
    x.date
  }

  /** Each candidate string with the date of the element it was found on. */
  function Dated(cands: seq<Candidate>, parse: string -> Option<nat>): (r: seq<Entry>)
    ensures |r| == |cands|
    ensures forall i :: 0 <= i < |cands| ==> r[i] == Entry(cands[i].link, ElementDate(cands[i].elem, parse))
  {
    seq(|cands|, i requires 0 <= i < |cands| => Entry(cands[i].link, ElementDate(cands[i].elem, parse)))
  }

  lemma DatedConcat(a: seq<Candidate>, b: seq<Candidate>, parse: string -> Option<nat>)
    ensures Dated(a + b, parse) == Dated(a, parse) + Dated(b, parse)
  {
    assert |Dated(a + b, parse)| == |Dated(a, parse) + Dated(b, parse)|;
    forall i | 0 <= i < |a + b| ensures Dated(a + b, parse)[i] == (Dated(a, parse) + Dated(b, parse))[i] {
      if i >= |a| {
        assert (a + b)[i] == b[i - |a|];
      }
    }
  }

  /** The entries a suffix test assigns to one dict, in visiting order. */
  function OfKind(es: seq<Entry>, ext: string): seq<Entry>
    decreases |es|
  {
    if es == [] then []
    else
      var x := es[|es| - 1];
      OfKind(es[..|es| - 1], ext) + (if EndsWith(x.url, ext) then [x] else [])
  }

  /** Classification is by suffix alone: an entry goes to a dict exactly when its URL ends with that dict's suffix. */
  lemma {:induction false} OfKindSpec(es: seq<Entry>, ext: string)
    ensures forall x :: x in OfKind(es, ext) <==> x in es && EndsWith(x.url, ext)
    decreases |es|
  {
    if es != [] {
      var n := |es| - 1;
      OfKindSpec(es[..n], ext);
      assert es == es[..n] + [es[n]];
      assert forall x :: x in es <==> x in es[..n] || x == es[n];
    }
  }

  lemma {:induction false} OfKindConcat(a: seq<Entry>, b: seq<Entry>, ext: string)
    ensures OfKind(a + b, ext) == OfKind(a, ext) + OfKind(b, ext)
    decreases |b|
  {
    if b == [] {
      assert a + b == a;
    } else {
      var n := |b| - 1;
      OfKindConcat(a, b[..n], ext);
      assert (a + b)[..|a + b| - 1] == a + b[..n];
    }
  }

  /** One more entry leaves its kind's list grown by it and any other kind's unchanged. */
  lemma OfKindStep(es: seq<Entry>, i: int, ext: string)
    requires 0 <= i < |es|
    ensures OfKind(es[..i + 1], ext) == OfKind(es[..i], ext) + (if EndsWith(es[i].url, ext) then [es[i]] else [])
  {
    assert es[..i + 1][..i] == es[..i];
  }

  /** The URLs of a list of entries. */
  function Urls(s: seq<Entry>): (r: seq<string>)
    ensures |r| == |s| && forall i :: 0 <= i < |s| ==> r[i] == s[i].url
  {
    if s == [] then [] else [s[0].url] + Urls(s[1..])
  }

  lemma UrlsCons(a: Entry, t: seq<Entry>)
    ensures Urls([a] + t) == [a.url] + Urls(t)
  {
    assert ([a] + t)[1..] == t;
  }

  lemma UrlsInsertFront(x: Entry, s: seq<Entry>)
    requires s == [] || x.date <= s[0].date
    ensures multiset(Urls(InsertBy(x, s, EntryDate))) == multiset(Urls(s)) + multiset{x.url}
  {
    assert InsertBy(x, s, EntryDate) == [x] + s;
    UrlsCons(x, s);
  }

  /** Inserting an entry into a list adds its URL to the list's URLs. */
  lemma {:induction false} UrlsInsertBy(x: Entry, s: seq<Entry>)
    ensures multiset(Urls(InsertBy(x, s, EntryDate))) == multiset(Urls(s)) + multiset{x.url}
    decreases |s|
  {
    if s == [] || x.date <= s[0].date {
      UrlsInsertFront(x, s);
    } else {
      var t := InsertBy(x, s[1..], EntryDate);
      calc {
        multiset(Urls(InsertBy(x, s, EntryDate)));
        multiset(Urls([s[0]] + t));
        { UrlsCons(s[0], t); }
        multiset([s[0].url] + Urls(t));
        multiset{s[0].url} + multiset(Urls(t));
        { UrlsInsertBy(x, s[1..]); }
        multiset{s[0].url} + multiset(Urls(s[1..])) + multiset{x.url};
        multiset([s[0].url] + Urls(s[1..])) + multiset{x.url};
        { UrlsCons(s[0], s[1..]); assert [s[0]] + s[1..] == s; }
        multiset(Urls(s)) + multiset{x.url};
      }
    }
  }

  /** Sorting the entries permutes their URLs. */
  lemma {:induction false} UrlsSortBy(s: seq<Entry>)
    ensures multiset(Urls(SortBy(s, EntryDate))) == multiset(Urls(s))
    decreases |s|
  {
    if s != [] {
      UrlsSortBy(s[1..]);
      UrlsInsertBy(s[0], SortBy(s[1..], EntryDate));
      UrlsCons(s[0], s[1..]);
      assert [s[0]] + s[1..] == s;
    }
  }

  /** The URL list returned for one suffix: the kept URLs in ascending date order. */
  function DatedLinks(root: Element, parse: string -> Option<nat>, ext: string): seq<string> {
    Urls(SortBy(KeptItems(OfKind(Dated(LinkCandidates(root), parse), ext), EntryKey, EntryDate), EntryDate))
  }

  /**
   * `if filename not in d or date > d[filename]['date']: d[filename] = {...}` on the
   * dict of the candidate's kind.
   */
  method Offer(ghost es: seq<Entry>, ghost i: nat, ghost ext: string, order: seq<string>, d: map<string, Entry>, x: Entry)
    returns (order': seq<string>, d': map<string, Entry>)
    requires i < |es| && x == es[i] && EndsWith(x.url, ext)
    requires DictMatches(OfKind(es[..i], ext), EntryKey, EntryDate, order, d)
    ensures DictMatches(OfKind(es[..i + 1], ext), EntryKey, EntryDate, order', d')
  {
    OfKindStep(es, i, ext);
    DictStep(OfKind(es[..i], ext), EntryKey, EntryDate, order, d, x);
    var filename := Basename(x.url);
    order', d' := order, d;
    if filename !in d || x.date > d[filename].date {
      if filename !in d {
        order' := order + [filename];
      }
      d' := d[filename := x];
    }
  }

  /** A candidate of another kind leaves a dict as it is. */
  lemma PassOver(es: seq<Entry>, i: nat, ext: string, order: seq<string>, d: map<string, Entry>)
    requires i < |es| && !EndsWith(es[i].url, ext)
    requires DictMatches(OfKind(es[..i], ext), EntryKey, EntryDate, order, d)
    ensures DictMatches(OfKind(es[..i + 1], ext), EntryKey, EntryDate, order, d)
  {
    OfKindStep(es, i, ext);
    assert OfKind(es[..i + 1], ext) == OfKind(es[..i], ext);
  }

  /** One dated candidate of the two passes: it is offered to the dict of its kind, if it has one. */
  method Route(ghost es: seq<Entry>, ghost i: nat, x: Entry,
               zipOrder: seq<string>, zipLinks: map<string, Entry>, xsdOrder: seq<string>, xsdLinks: map<string, Entry>)
    returns (zipOrder': seq<string>, zipLinks': map<string, Entry>, xsdOrder': seq<string>, xsdLinks': map<string, Entry>)
    requires i < |es| && x == es[i]
    requires DictMatches(OfKind(es[..i], ".zip"), EntryKey, EntryDate, zipOrder, zipLinks)
    requires DictMatches(OfKind(es[..i], ".xsd"), EntryKey, EntryDate, xsdOrder, xsdLinks)
    ensures DictMatches(OfKind(es[..i + 1], ".zip"), EntryKey, EntryDate, zipOrder', zipLinks')
    ensures DictMatches(OfKind(es[..i + 1], ".xsd"), EntryKey, EntryDate, xsdOrder', xsdLinks')
  {
    zipOrder', zipLinks', xsdOrder', xsdLinks' := zipOrder, zipLinks, xsdOrder, xsdLinks;
    if EndsWith(x.url, ".zip") {
      ZipIsNotXsd(x.url);
      zipOrder', zipLinks' := Offer(es, i, ".zip", zipOrder, zipLinks, x);
      PassOver(es, i, ".xsd", xsdOrder, xsdLinks);
    } else if EndsWith(x.url, ".xsd") {
      PassOver(es, i, ".zip", zipOrder, zipLinks);
      xsdOrder', xsdLinks' := Offer(es, i, ".xsd", xsdOrder, xsdLinks, x);
    } else {
      PassOver(es, i, ".zip", zipOrder, zipLinks);
      PassOver(es, i, ".xsd", xsdOrder, xsdLinks);
    }
  }

  /**
   * The two passes over the dated candidate strings, run as one loop over the
   * attribute pass followed by the text pass; a URL ending in '.zip' goes to the ZIP
   * dict, failing that one ending in '.xsd' to the XSD dict.
   */
  method KeepLatest(es: seq<Entry>) returns (zipKept: seq<Entry>, xsdKept: seq<Entry>)
    ensures zipKept == KeptItems(OfKind(es, ".zip"), EntryKey, EntryDate)
    ensures xsdKept == KeptItems(OfKind(es, ".xsd"), EntryKey, EntryDate)
  {
    var zipLinks: map<string, Entry> := map[];
    var zipOrder: seq<string> := [];
    var xsdLinks: map<string, Entry> := map[];
    var xsdOrder: seq<string> := [];
    var i := 0;
    while i < |es|
      invariant 0 <= i <= |es|
      invariant DictMatches(OfKind(es[..i], ".zip"), EntryKey, EntryDate, zipOrder, zipLinks)
      invariant DictMatches(OfKind(es[..i], ".xsd"), EntryKey, EntryDate, xsdOrder, xsdLinks)
    {
      zipOrder, zipLinks, xsdOrder, xsdLinks := Route(es, i, es[i], zipOrder, zipLinks, xsdOrder, xsdLinks);
      i := i + 1;
    }
    assert es[..i] == es;
    zipKept := DictValuesInOrder(OfKind(es, ".zip"), EntryKey, EntryDate, zipOrder, zipLinks);
    xsdKept := DictValuesInOrder(OfKind(es, ".xsd"), EntryKey, EntryDate, xsdOrder, xsdLinks);
  }


  /** extract_links_from_xml: the kept URLs of each kind, sorted by date, oldest first. */
  method ExtractDatedLinks(root: Element, parse: string -> Option<nat>) returns (zips: seq<string>, xsds: seq<string>)
    ensures zips == DatedLinks(root, parse, ".zip")
    ensures xsds == DatedLinks(root, parse, ".xsd")
  {
    var zipKept, xsdKept := KeepLatest(Dated(LinkCandidates(root), parse));
    var sortedZip := SortBy(zipKept, EntryDate);
    var sortedXsd := SortBy(xsdKept, EntryDate);
    zips := seq(|sortedZip|, i requires 0 <= i < |sortedZip| => sortedZip[i].url);
    xsds := seq(|sortedXsd|, i requires 0 <= i < |sortedXsd| => sortedXsd[i].url);
    UrlsOf(sortedZip);
    UrlsOf(sortedXsd);
  }

  /** The list comprehension over the entries' URLs is Urls. */
  lemma UrlsOf(s: seq<Entry>)
    ensures seq(|s|, i requires 0 <= i < |s| => s[i].url) == Urls(s)
  {
  }

  /**
   * Every entry of a dict pairs a candidate string of that suffix with the date of
   * the element it was found on.
   */
  lemma EntriesComeFromCandidates(cands: seq<Candidate>, parse: string -> Option<nat>, ext: string)
    ensures forall x :: x in OfKind(Dated(cands, parse), ext) <==>
      EndsWith(x.url, ext) && exists c :: c in cands && x == Entry(c.link, ElementDate(c.elem, parse))
  {
    var es := Dated(cands, parse);
    OfKindSpec(es, ext);
    forall x ensures x in es <==> exists c :: c in cands && x == Entry(c.link, ElementDate(c.elem, parse)) {
      if x in es {
        var i :| 0 <= i < |es| && es[i] == x;
        assert cands[i] in cands;
      }
      if exists c :: c in cands && x == Entry(c.link, ElementDate(c.elem, parse)) {
        var c :| c in cands && x == Entry(c.link, ElementDate(c.elem, parse));
        var i :| 0 <= i < |cands| && cands[i] == c;
        assert es[i] == x;
      }
    }
  }

  /**
   * At most one entry is kept per file name and kind, each one of that kind's
   * entries; every file name among them is represented.
   */
  lemma KeptOnePerName(es: seq<Entry>, ext: string)
    ensures var r := KeptItems(OfKind(es, ext), EntryKey, EntryDate);
      && (forall i :: 0 <= i < |r| ==> r[i] in es && EndsWith(r[i].url, ext))
      && (forall i, j :: 0 <= i < j < |r| ==> Basename(r[i].url) != Basename(r[j].url))
      && (forall x :: x in es && EndsWith(x.url, ext) ==> exists i :: 0 <= i < |r| && Basename(r[i].url) == Basename(x.url))
  {
    KeptItemsShape(OfKind(es, ext), EntryKey, EntryDate);
    OfKindSpec(es, ext);
  }

  /**
   * es[j] is x, no entry with x's file name has a later date, and each one met
   * before position j has a strictly earlier date.
   */
  ghost predicate LatestOfName(es: seq<Entry>, x: Entry, j: int) {
    && 0 <= j < |es| && es[j] == x
    && (forall k :: 0 <= k < |es| && Basename(es[k].url) == Basename(x.url) ==> es[k].date <= x.date)
    && (forall k :: 0 <= k < j && Basename(es[k].url) == Basename(x.url) ==> es[k].date < x.date)
  }

  /**
   * The entry kept for a name carries the latest date among that name's entries of
   * its kind, and every entry met before it is strictly older: an equal date never
   * replaces an entry.
   */
  lemma KeptHasLatestDate(es: seq<Entry>, i: int)
    requires 0 <= i < |KeptItems(es, EntryKey, EntryDate)|
    ensures exists j :: LatestOfName(es, KeptItems(es, EntryKey, EntryDate)[i], j)
  {
    KeptItemsSpec(es, EntryKey, EntryDate);
    var x := KeptItems(es, EntryKey, EntryDate)[i];
    var j :| KeptAt(es, EntryKey, EntryDate, EntryKey(x), j) && x == es[j];
    assert LatestOfName(es, x, j);
  }

  /**
   * The attribute pass runs first: for each file name, the text pass's best entry
   * replaces the attribute pass's only when its date is strictly later.
   */
  lemma TextPassNeedsLaterDate(root: Element, parse: string -> Option<nat>, ext: string, name: string)
    ensures var ds := Descendants(root);
      var wa := Winner(OfKind(Dated(AttrPasses(LinkAttributes, ds), parse), ext), EntryKey, EntryDate, name);
      var wt := Winner(OfKind(Dated(TextPass(ds), parse), ext), EntryKey, EntryDate, name);
      Winner(OfKind(Dated(LinkCandidates(root), parse), ext), EntryKey, EntryDate, name) ==
        if wt.Some? && (wa.None? || wt.value.date > wa.value.date) then wt else wa
  {
    var ds := Descendants(root);
    var a := Dated(AttrPasses(LinkAttributes, ds), parse);
    var t := Dated(TextPass(ds), parse);
    DatedConcat(AttrPasses(LinkAttributes, ds), TextPass(ds), parse);
    OfKindConcat(a, t, ext);
    WinnerConcat(OfKind(a, ext), OfKind(t, ext), EntryKey, EntryDate, name);
  }

  /**
   * The returned list is in ascending date order and is a permutation of the kept
   * URLs.
   */
  lemma DatedLinksSorted(root: Element, parse: string -> Option<nat>, ext: string)
    ensures var k := KeptItems(OfKind(Dated(LinkCandidates(root), parse), ext), EntryKey, EntryDate);
      var s := SortBy(k, EntryDate);
      && DatedLinks(root, parse, ext) == Urls(s)
      && (forall i, j :: 0 <= i < j < |s| ==> s[i].date <= s[j].date)
      && multiset(s) == multiset(k)
      && multiset(Urls(s)) == multiset(Urls(k))
  {
    var k := KeptItems(OfKind(Dated(LinkCandidates(root), parse), ext), EntryKey, EntryDate);
    var s := SortBy(k, EntryDate);
    SortBySpec(k, EntryDate);
    UrlsSortBy(k);
  }
}
