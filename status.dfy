/**
 * The status block at the end of process_list_xml (download_xml_data.py): for every
 * downloaded manifest, a processing_status record gets one entry per linked ZIP and
 * XSD file, one error per entry that is not `exists`, and then the verdict
 * `completed` or `incomplete`.
 *
 * `present` is the set of paths os.path.exists sees at that point (after the
 * downloads), and `results` the integrity verdicts check_files_integrity returned
 * before the downloads. The lists of ZIP and XSD names are the program's sets
 * all_zip_links and all_xsd_links, in their iteration order.
 */
module ProcessingStatus {
  import opened Common
  import opened DownloadXmlData

  datatype Kind = Zip | Xsd

  /** The status of one linked file: present and valid, present but not valid, or absent. */
  function EntryStatusOf(path: string, present: set<string>, results: map<string, bool>): EntryStatus {
    if path in present then (if path in results && results[path] then Exists else Failed) else Missing
  }

  /** The error message an entry adds: none for `exists`, one otherwise. */
  function ErrorFor(kind: Kind, e: FileEntry): seq<StatusError> {
    match (kind, e.status)
    case (_, Exists) => []
    case (Zip, Failed) => [ZipCorrupt(e.filename)]
    case (Zip, Missing) => [ZipMissing(e.filename)]
    case (Xsd, Failed) => [XsdCorrupt(e.filename)]
    case (Xsd, Missing) => [XsdMissing(e.filename)]
  }

  /** The entries the loop over a name list appends. */
  function Entries(names: seq<string>, dir: string, present: set<string>, results: map<string, bool>): (r: seq<FileEntry>)
    ensures |r| == |names|
    ensures forall i :: 0 <= i < |r| ==>
      r[i] == FileEntry(names[i], EntryStatusOf(Join(dir, names[i]), present, results))
    decreases |names|
  {
    if names == [] then []
    else
      var n := |names| - 1;
      Entries(names[..n], dir, present, results) + [FileEntry(names[n], EntryStatusOf(Join(dir, names[n]), present, results))]
  }

  /** The errors a list of entries adds, in order. */
  function ErrorsOf(kind: Kind, es: seq<FileEntry>): seq<StatusError>
    decreases |es|
  {
    if es == [] then [] else ErrorsOf(kind, es[..|es| - 1]) + ErrorFor(kind, es[|es| - 1])
  }

  function NotExistingCount(es: seq<FileEntry>): nat
    decreases |es|
  {
    if es == [] then 0 else NotExistingCount(es[..|es| - 1]) + (if es[|es| - 1].status == Exists then 0 else 1)
  }

  predicate AllExist(es: seq<FileEntry>) {
    forall i :: 0 <= i < |es| ==> es[i].status == Exists
  }

  /** Each entry that is not `exists` adds exactly one error, naming that entry's file. */
  lemma {:induction false} ErrorsOfSpec(kind: Kind, es: seq<FileEntry>)
    ensures |ErrorsOf(kind, es)| == NotExistingCount(es)
    ensures ErrorsOf(kind, es) == [] <==> AllExist(es)
    ensures forall err :: err in ErrorsOf(kind, es) ==>
      exists i :: 0 <= i < |es| && es[i].status != Exists && err.name == es[i].filename
  {
    ErrorsOfCount(kind, es);
    ErrorsOfNone(kind, es);
    ErrorsOfNames(kind, es);
  }

  lemma {:induction false} ErrorsOfCount(kind: Kind, es: seq<FileEntry>)
    ensures |ErrorsOf(kind, es)| == NotExistingCount(es)
    decreases |es|
  {
    if es != [] {
      ErrorsOfCount(kind, es[..|es| - 1]);
    }
  }

  lemma {:induction false} ErrorsOfNone(kind: Kind, es: seq<FileEntry>)
    ensures ErrorsOf(kind, es) == [] <==> AllExist(es)
    decreases |es|
  {
    if es != [] {
      var n := |es| - 1;
      ErrorsOfNone(kind, es[..n]);
      if AllExist(es[..n]) && es[n].status == Exists {
        forall i | 0 <= i < |es| ensures es[i].status == Exists {
          if i < n {
            assert es[i] == es[..n][i];
          }
        }
      }
      if AllExist(es) {
        forall i | 0 <= i < n ensures es[..n][i].status == Exists {
          assert es[..n][i] == es[i];
        }
      }
    }
  }

  lemma {:induction false} ErrorsOfNames(kind: Kind, es: seq<FileEntry>)
    ensures forall err :: err in ErrorsOf(kind, es) ==>
      exists i :: 0 <= i < |es| && es[i].status != Exists && err.name == es[i].filename
    decreases |es|
  {
    if es != [] {
      var n := |es| - 1;
      ErrorsOfNames(kind, es[..n]);
      var last := ErrorFor(kind, es[n]);
      forall err | err in ErrorsOf(kind, es)
        ensures exists i :: 0 <= i < |es| && es[i].status != Exists && err.name == es[i].filename
      {
        if err in ErrorsOf(kind, es[..n]) {
          var i :| 0 <= i < n && es[..n][i].status != Exists && err.name == es[..n][i].filename;
          assert es[i] == es[..n][i];
        } else {
          assert err in last;
        }
      }
    }
  }

  /** One step of a loop: append the entry and its error, if any, to the record. */
  function AppendEntry(rec: StatusRecord, kind: Kind, e: FileEntry): StatusRecord {
    match kind
    case Zip => rec.(zipFiles := rec.zipFiles + [e], errors := rec.errors + ErrorFor(kind, e))
    case Xsd => rec.(xsdFiles := rec.xsdFiles + [e], errors := rec.errors + ErrorFor(kind, e))
  }

  /** The record after the loop over the ZIP names, or over the XSD names. */
  function AppendAll(rec: StatusRecord, kind: Kind, es: seq<FileEntry>): StatusRecord
    decreases |es|
  {
    if es == [] then rec else AppendEntry(AppendAll(rec, kind, es[..|es| - 1]), kind, es[|es| - 1])
  }

  /** One more entry is one more AppendEntry. */
  lemma AppendAllStep(rec: StatusRecord, kind: Kind, es: seq<FileEntry>, j: int)
    requires 0 <= j < |es|
    ensures AppendAll(rec, kind, es[..j + 1]) == AppendEntry(AppendAll(rec, kind, es[..j]), kind, es[j])
  {
    assert es[..j + 1][..j] == es[..j];
    assert es[..j + 1][j] == es[j];
  }

  /** The loop appends its entries to that kind's list and their errors to the error list; nothing else changes. */
  lemma {:induction false} AppendAllSpec(rec: StatusRecord, kind: Kind, es: seq<FileEntry>)
    ensures var r := AppendAll(rec, kind, es);
      && r.status == rec.status && r.xmlDownloaded == rec.xmlDownloaded
      && r.zipFiles == (if kind == Zip then rec.zipFiles + es else rec.zipFiles)
      && r.xsdFiles == (if kind == Xsd then rec.xsdFiles + es else rec.xsdFiles)
      && r.errors == rec.errors + ErrorsOf(kind, es)
  {
    AppendAllKeeps(rec, kind, es);
    AppendAllLists(rec, kind, es);
    AppendAllErrors(rec, kind, es);
  }

  lemma {:induction false} AppendAllKeeps(rec: StatusRecord, kind: Kind, es: seq<FileEntry>)
    ensures AppendAll(rec, kind, es).status == rec.status
    ensures AppendAll(rec, kind, es).xmlDownloaded == rec.xmlDownloaded
    decreases |es|
  {
    if es != [] {
      AppendAllKeeps(rec, kind, es[..|es| - 1]);
    }
  }

  lemma {:induction false} AppendAllLists(rec: StatusRecord, kind: Kind, es: seq<FileEntry>)
    ensures AppendAll(rec, kind, es).zipFiles == (if kind == Zip then rec.zipFiles + es else rec.zipFiles)
    ensures AppendAll(rec, kind, es).xsdFiles == (if kind == Xsd then rec.xsdFiles + es else rec.xsdFiles)
    decreases |es|
  {
    if es != [] {
      var n := |es| - 1;
      AppendAllLists(rec, kind, es[..n]);
      assert es == es[..n] + [es[n]];
      if kind == Zip {
        assert rec.zipFiles + es == (rec.zipFiles + es[..n]) + [es[n]];
      } else {
        assert rec.xsdFiles + es == (rec.xsdFiles + es[..n]) + [es[n]];
      }
    }
  }

  lemma {:induction false} AppendAllErrors(rec: StatusRecord, kind: Kind, es: seq<FileEntry>)
    ensures AppendAll(rec, kind, es).errors == rec.errors + ErrorsOf(kind, es)
    decreases |es|
  {
    if es != [] {
      var n := |es| - 1;
      AppendAllErrors(rec, kind, es[..n]);
      assert rec.errors + ErrorsOf(kind, es) == (rec.errors + ErrorsOf(kind, es[..n])) + ErrorFor(kind, es[n]);
    }
  }

  /** `all(f['status'] == 'exists' ...)` over both lists and no errors: completed, otherwise incomplete. */
  function Classified(rec: StatusRecord): StatusRecord {
    rec.(status := if AllExist(rec.zipFiles) && AllExist(rec.xsdFiles) && rec.errors == [] then Completed else Incomplete)
  }

  /** The record a manifest starts from: its stored record, or a fresh in-progress one. */
  function Initial(records: map<string, StatusRecord>, key: string): StatusRecord {
    if key in records then records[key] else StatusRecord(InProgress, true, [], [], [])
  }

  /** The status block for one manifest, as written: entries and errors are appended to the stored record. */
  function Updated(rec: StatusRecord, zipNames: seq<string>, xsdNames: seq<string>, dataDir: string, xsdDir: string,
                   present: set<string>, zipResults: map<string, bool>, xsdResults: map<string, bool>): StatusRecord {
    Classified(AppendAll(AppendAll(rec, Zip, Entries(zipNames, dataDir, present, zipResults)),
                         Xsd, Entries(xsdNames, xsdDir, present, xsdResults)))
  }

  /** Every linked file of this run is present on disk and passed its integrity check. */
  predicate AllGood(names: seq<string>, dir: string, present: set<string>, results: map<string, bool>) {
    forall i :: 0 <= i < |names| ==> EntryStatusOf(Join(dir, names[i]), present, results) == Exists
  }

  lemma AllExistEntries(names: seq<string>, dir: string, present: set<string>, results: map<string, bool>)
    ensures AllExist(Entries(names, dir, present, results)) <==> AllGood(names, dir, present, results)
  {
  }

  lemma AllExistConcat(a: seq<FileEntry>, b: seq<FileEntry>)
    ensures AllExist(a + b) <==> AllExist(a) && AllExist(b)
  {
    if AllExist(a) && AllExist(b) {
      forall i | 0 <= i < |a + b| ensures (a + b)[i].status == Exists {
        if i >= |a| {
          assert (a + b)[i] == b[i - |a|];
        }
      }
    }
    if AllExist(a + b) {
      forall i | 0 <= i < |a| ensures a[i].status == Exists {
        assert (a + b)[i] == a[i];
      }
      forall i | 0 <= i < |b| ensures b[i].status == Exists {
        assert (a + b)[|a| + i] == b[i];
      }
    }
  }

  /**
   * The status block's verdict, in terms of its inputs: a manifest becomes
   * completed exactly when its stored record already had only `exists` entries
   * and no errors, and every ZIP and XSD file of this run is present and valid.
   * A manifest without a stored record becomes completed exactly when every file is.
   */
  lemma UpdatedCompletedIff(rec: StatusRecord, zipNames: seq<string>, xsdNames: seq<string>, dataDir: string, xsdDir: string,
                            present: set<string>, zipResults: map<string, bool>, xsdResults: map<string, bool>)
    ensures var r := Updated(rec, zipNames, xsdNames, dataDir, xsdDir, present, zipResults, xsdResults);
      && (r.status == Completed <==>
            AllExist(rec.zipFiles) && AllExist(rec.xsdFiles) && rec.errors == []
            && AllGood(zipNames, dataDir, present, zipResults) && AllGood(xsdNames, xsdDir, present, xsdResults))
      && (r.status == Completed || r.status == Incomplete)
  {
    var ze := Entries(zipNames, dataDir, present, zipResults);
    var xe := Entries(xsdNames, xsdDir, present, xsdResults);
    var r1 := AppendAll(rec, Zip, ze);
    AppendAllSpec(rec, Zip, ze);
    AppendAllSpec(r1, Xsd, xe);
    ErrorsOfSpec(Zip, ze);
    ErrorsOfSpec(Xsd, xe);
    AllExistConcat(rec.zipFiles, ze);
    AllExistConcat(rec.xsdFiles, xe);
    AllExistEntries(zipNames, dataDir, present, zipResults);
    AllExistEntries(xsdNames, xsdDir, present, xsdResults);
  }

  /**
   * Each entry that is not `exists` adds exactly one error: the record gains one
   * entry per linked file and one error per file that is missing or damaged.
   */
  lemma UpdatedCounts(rec: StatusRecord, zipNames: seq<string>, xsdNames: seq<string>, dataDir: string, xsdDir: string,
                      present: set<string>, zipResults: map<string, bool>, xsdResults: map<string, bool>)
    ensures var ze := Entries(zipNames, dataDir, present, zipResults);
      var xe := Entries(xsdNames, xsdDir, present, xsdResults);
      var r := Updated(rec, zipNames, xsdNames, dataDir, xsdDir, present, zipResults, xsdResults);
      && r.zipFiles == rec.zipFiles + ze
      && r.xsdFiles == rec.xsdFiles + xe
      && |r.errors| == |rec.errors| + NotExistingCount(ze) + NotExistingCount(xe)
      && r.xmlDownloaded == rec.xmlDownloaded
  {
    var ze := Entries(zipNames, dataDir, present, zipResults);
    var xe := Entries(xsdNames, xsdDir, present, xsdResults);
    AppendAllSpec(rec, Zip, ze);
    AppendAllSpec(AppendAll(rec, Zip, ze), Xsd, xe);
    ErrorsOfSpec(Zip, ze);
    ErrorsOfSpec(Xsd, xe);
  }

  /**
   * As written, a stored record that has an error never becomes completed again,
   * whatever is on disk: the old errors are kept and the new checks append to them.
   */
  lemma IncompleteIsSticky(rec: StatusRecord, zipNames: seq<string>, xsdNames: seq<string>, dataDir: string, xsdDir: string,
                           present: set<string>, zipResults: map<string, bool>, xsdResults: map<string, bool>)
    requires rec.errors != []
    ensures Updated(rec, zipNames, xsdNames, dataDir, xsdDir, present, zipResults, xsdResults).status == Incomplete
  {
    UpdatedCompletedIff(rec, zipNames, xsdNames, dataDir, xsdDir, present, zipResults, xsdResults);
  }

  /**
   * The status block as evidently intended: the record's lists describe this run's
   * files only, so the verdict is reached afresh each time.
   */
  function Rebuilt(rec: StatusRecord, zipNames: seq<string>, xsdNames: seq<string>, dataDir: string, xsdDir: string,
                   present: set<string>, zipResults: map<string, bool>, xsdResults: map<string, bool>): StatusRecord {
    Updated(StatusRecord(rec.status, rec.xmlDownloaded, [], [], []), zipNames, xsdNames, dataDir, xsdDir, present, zipResults, xsdResults)
  }

  /** With the rebuilt record, completed means exactly that every file of this run is present and valid. */
  lemma RebuiltCompletedIff(rec: StatusRecord, zipNames: seq<string>, xsdNames: seq<string>, dataDir: string, xsdDir: string,
                            present: set<string>, zipResults: map<string, bool>, xsdResults: map<string, bool>)
    ensures Rebuilt(rec, zipNames, xsdNames, dataDir, xsdDir, present, zipResults, xsdResults).status == Completed <==>
      AllGood(zipNames, dataDir, present, zipResults) && AllGood(xsdNames, xsdDir, present, xsdResults)
  {
    UpdatedCompletedIff(StatusRecord(rec.status, rec.xmlDownloaded, [], [], []), zipNames, xsdNames, dataDir, xsdDir, present, zipResults, xsdResults);
  }

  /**
   * A manifest whose ZIP was missing on one run, and is present and valid on the
   * next, stays incomplete as written and is completed when rebuilt.
   */
  lemma StickyExample()
    ensures var rec := StatusRecord(Incomplete, true, [FileEntry("a.zip", Missing)], [], [ZipMissing("a.zip")]);
      var present := {Join("data", "a.zip")};
      var results := map[Join("data", "a.zip") := true];
      && Updated(rec, ["a.zip"], [], "data", "xsd", present, results, map[]).status == Incomplete
      && Rebuilt(rec, ["a.zip"], [], "data", "xsd", present, results, map[]).status == Completed
  {
    var rec := StatusRecord(Incomplete, true, [FileEntry("a.zip", Missing)], [], [ZipMissing("a.zip")]);
    var present := {Join("data", "a.zip")};
    var results := map[Join("data", "a.zip") := true];
    IncompleteIsSticky(rec, ["a.zip"], [], "data", "xsd", present, results, map[]);
    RebuiltCompletedIff(rec, ["a.zip"], [], "data", "xsd", present, results, map[]);
    assert AllGood(["a.zip"], "data", present, results);
  }

  /** The record keys of the downloaded manifests, in order. */
  function Keys(downloaded: seq<string>): (r: seq<string>)
    ensures |r| == |downloaded|
    decreases |downloaded|
  {
    if downloaded == [] then [] else Keys(downloaded[..|downloaded| - 1]) + [Basename(downloaded[|downloaded| - 1])]
  }

  lemma KeysLast(downloaded: seq<string>)
    requires downloaded != []
    ensures var n := |downloaded| - 1;
      forall k :: k in Keys(downloaded) <==> k in Keys(downloaded[..n]) || k == Basename(downloaded[n])
  {
    var n := |downloaded| - 1;
    assert Keys(downloaded) == Keys(downloaded[..n]) + [Basename(downloaded[n])];
  }

  /** The records after the status block has handled every downloaded manifest in turn. */
  function StatusAfter(records: map<string, StatusRecord>, downloaded: seq<string>, zipNames: seq<string>, xsdNames: seq<string>,
                       dataDir: string, xsdDir: string, present: set<string>,
                       zipResults: map<string, bool>, xsdResults: map<string, bool>): map<string, StatusRecord>
    decreases |downloaded|
  {
    if downloaded == [] then records
    else
      var n := |downloaded| - 1;
      var prev := StatusAfter(records, downloaded[..n], zipNames, xsdNames, dataDir, xsdDir, present, zipResults, xsdResults);
      var key := Basename(downloaded[n]);
      prev[key := Updated(Initial(prev, key), zipNames, xsdNames, dataDir, xsdDir, present, zipResults, xsdResults)]
  }

  /** The last manifest's record is replaced by its update; this is the one-step unfolding of StatusAfter. */
  lemma StatusAfterLast(records: map<string, StatusRecord>, downloaded: seq<string>, zipNames: seq<string>, xsdNames: seq<string>,
                        dataDir: string, xsdDir: string, present: set<string>,
                        zipResults: map<string, bool>, xsdResults: map<string, bool>)
    requires downloaded != []
    ensures var n := |downloaded| - 1;
      var prev := StatusAfter(records, downloaded[..n], zipNames, xsdNames, dataDir, xsdDir, present, zipResults, xsdResults);
      var key := Basename(downloaded[n]);
      StatusAfter(records, downloaded, zipNames, xsdNames, dataDir, xsdDir, present, zipResults, xsdResults) ==
        prev[key := Updated(Initial(prev, key), zipNames, xsdNames, dataDir, xsdDir, present, zipResults, xsdResults)]
  {
  }

  /** StatusAfterLast for the prefix of length i + 1. */
  lemma StatusAfterStep(records: map<string, StatusRecord>, downloaded: seq<string>, i: int, zipNames: seq<string>, xsdNames: seq<string>,
                        dataDir: string, xsdDir: string, present: set<string>,
                        zipResults: map<string, bool>, xsdResults: map<string, bool>)
    requires 0 <= i < |downloaded|
    ensures var prev := StatusAfter(records, downloaded[..i], zipNames, xsdNames, dataDir, xsdDir, present, zipResults, xsdResults);
      var key := Basename(downloaded[i]);
      StatusAfter(records, downloaded[..i + 1], zipNames, xsdNames, dataDir, xsdDir, present, zipResults, xsdResults) ==
        prev[key := Updated(Initial(prev, key), zipNames, xsdNames, dataDir, xsdDir, present, zipResults, xsdResults)]
  {
    assert downloaded[..i + 1][..i] == downloaded[..i];
    assert downloaded[..i + 1][i] == downloaded[i];
    StatusAfterLast(records, downloaded[..i + 1], zipNames, xsdNames, dataDir, xsdDir, present, zipResults, xsdResults);
  }

  /** The status block never leaves a record in progress. */
  lemma UpdatedIsFinal(rec: StatusRecord, zipNames: seq<string>, xsdNames: seq<string>, dataDir: string, xsdDir: string,
                       present: set<string>, zipResults: map<string, bool>, xsdResults: map<string, bool>)
    ensures Updated(rec, zipNames, xsdNames, dataDir, xsdDir, present, zipResults, xsdResults).status in {Completed, Incomplete}
  {
  }

  /**
   * The block records every downloaded manifest under its basename, leaves every
   * other record as it was, and no handled manifest is left in progress.
   */
  lemma {:induction false} StatusAfterSpec(records: map<string, StatusRecord>, downloaded: seq<string>, zipNames: seq<string>, xsdNames: seq<string>,
                        dataDir: string, xsdDir: string, present: set<string>,
                        zipResults: map<string, bool>, xsdResults: map<string, bool>)
    ensures var r := StatusAfter(records, downloaded, zipNames, xsdNames, dataDir, xsdDir, present, zipResults, xsdResults);
      && (forall k :: k in r <==> k in records || k in Keys(downloaded))
      && (forall k :: k in records && k !in Keys(downloaded) ==> r[k] == records[k])
      && (forall k :: k in Keys(downloaded) ==> r[k].status != InProgress)
  {
    StatusAfterKeys(records, downloaded, zipNames, xsdNames, dataDir, xsdDir, present, zipResults, xsdResults);
    StatusAfterKeeps(records, downloaded, zipNames, xsdNames, dataDir, xsdDir, present, zipResults, xsdResults);
    StatusAfterFinal(records, downloaded, zipNames, xsdNames, dataDir, xsdDir, present, zipResults, xsdResults);
  }

  lemma {:induction false} StatusAfterKeys(records: map<string, StatusRecord>, downloaded: seq<string>, zipNames: seq<string>, xsdNames: seq<string>,
                                           dataDir: string, xsdDir: string, present: set<string>,
                                           zipResults: map<string, bool>, xsdResults: map<string, bool>)
    ensures forall k :: k in StatusAfter(records, downloaded, zipNames, xsdNames, dataDir, xsdDir, present, zipResults, xsdResults) <==>
      k in records || k in Keys(downloaded)
    decreases |downloaded|
  {
    if downloaded != [] {
      var n := |downloaded| - 1;
      StatusAfterKeys(records, downloaded[..n], zipNames, xsdNames, dataDir, xsdDir, present, zipResults, xsdResults);
      StatusAfterLast(records, downloaded, zipNames, xsdNames, dataDir, xsdDir, present, zipResults, xsdResults);
      KeysLast(downloaded);
    }
  }

  lemma {:induction false} StatusAfterKeeps(records: map<string, StatusRecord>, downloaded: seq<string>, zipNames: seq<string>, xsdNames: seq<string>,
                                            dataDir: string, xsdDir: string, present: set<string>,
                                            zipResults: map<string, bool>, xsdResults: map<string, bool>)
    ensures forall k :: k in records && k !in Keys(downloaded) ==>
      k in StatusAfter(records, downloaded, zipNames, xsdNames, dataDir, xsdDir, present, zipResults, xsdResults) &&
      StatusAfter(records, downloaded, zipNames, xsdNames, dataDir, xsdDir, present, zipResults, xsdResults)[k] == records[k]
    decreases |downloaded|
  {
    if downloaded != [] {
      var n := |downloaded| - 1;
      StatusAfterKeeps(records, downloaded[..n], zipNames, xsdNames, dataDir, xsdDir, present, zipResults, xsdResults);
      StatusAfterLast(records, downloaded, zipNames, xsdNames, dataDir, xsdDir, present, zipResults, xsdResults);
      KeysLast(downloaded);
    }
  }

  lemma {:induction false} StatusAfterFinal(records: map<string, StatusRecord>, downloaded: seq<string>, zipNames: seq<string>, xsdNames: seq<string>,
                                            dataDir: string, xsdDir: string, present: set<string>,
                                            zipResults: map<string, bool>, xsdResults: map<string, bool>)
    ensures forall k :: k in Keys(downloaded) ==>
      k in StatusAfter(records, downloaded, zipNames, xsdNames, dataDir, xsdDir, present, zipResults, xsdResults) &&
      StatusAfter(records, downloaded, zipNames, xsdNames, dataDir, xsdDir, present, zipResults, xsdResults)[k].status != InProgress
    decreases |downloaded|
  {
    if downloaded != [] {
      var n := |downloaded| - 1;
      StatusAfterFinal(records, downloaded[..n], zipNames, xsdNames, dataDir, xsdDir, present, zipResults, xsdResults);
      var prev := StatusAfter(records, downloaded[..n], zipNames, xsdNames, dataDir, xsdDir, present, zipResults, xsdResults);
      var key := Basename(downloaded[n]);
      UpdatedIsFinal(Initial(prev, key), zipNames, xsdNames, dataDir, xsdDir, present, zipResults, xsdResults);
      StatusAfterLast(records, downloaded, zipNames, xsdNames, dataDir, xsdDir, present, zipResults, xsdResults);
      KeysLast(downloaded);
    }
  }

  /** `if os.path.exists(path): if path in results and results[path]: ... else ... else ...` */
  method CheckEntry(name: string, dir: string, present: set<string>, results: map<string, bool>) returns (entry: FileEntry)
    ensures entry.filename == name
    ensures entry.status == Exists <==> Join(dir, name) in present && Join(dir, name) in results && results[Join(dir, name)]
    ensures entry.status == Missing <==> Join(dir, name) !in present
    ensures entry == FileEntry(name, EntryStatusOf(Join(dir, name), present, results))
  {
    var path := Join(dir, name);
    if path in present {
      if path in results && results[path] {
        entry := FileEntry(name, Exists);
      } else {
        entry := FileEntry(name, Failed);
      }
    } else {
      entry := FileEntry(name, Missing);
    }
  }

  /**
   * The inner loop over one name list: `processing_status[key][...].append(...)` for
   * the entry, and for its error when it is not `exists`.
   */
  method AppendEntries(rec: StatusRecord, kind: Kind, names: seq<string>, dir: string, present: set<string>, results: map<string, bool>)
    returns (r: StatusRecord)
    ensures r == AppendAll(rec, kind, Entries(names, dir, present, results))
  {
    ghost var es := Entries(names, dir, present, results);
    r := rec;
    var j := 0;
    while j < |names|
      invariant 0 <= j <= |names|
      invariant r == AppendAll(rec, kind, es[..j])
    {
      var entry := CheckEntry(names[j], dir, present, results);
      assert entry == es[j];
      AppendAllStep(rec, kind, es, j);
      ghost var next := AppendEntry(r, kind, entry);
      if kind == Zip {
        r := r.(zipFiles := r.zipFiles + [entry]);
      } else {
        r := r.(xsdFiles := r.xsdFiles + [entry]);
      }
      if entry.status != Exists {
        r := r.(errors := r.errors + ErrorFor(kind, entry));
      }
      assert r == next;
      j := j + 1;
    }
    assert es[..j] == es;
  }

  /** The verdict at the end of the status block for one manifest. */
  method Classify(rec: StatusRecord) returns (r: StatusRecord)
    ensures r == Classified(rec)
    ensures r.status == Completed <==> AllExist(rec.zipFiles) && AllExist(rec.xsdFiles) && rec.errors == []
  {
    var allZip := AllExist(rec.zipFiles);
    var allXsd := AllExist(rec.xsdFiles);
    if allZip && allXsd && rec.errors == [] {
      r := rec.(status := Completed);
    } else {
      r := rec.(status := Incomplete);
    }
  }

  /** processing_status, the table of per-manifest records. */
  class StatusTable {
    var records: map<string, StatusRecord>

    constructor(loaded: map<string, StatusRecord>)
      ensures records == loaded
    {
      records := loaded;
    }

    /** The status block for one downloaded manifest: the record is updated in place and written back. */
    method UpdateRecord(key: string, zipNames: seq<string>, xsdNames: seq<string>, dataDir: string, xsdDir: string,
                        present: set<string>, zipResults: map<string, bool>, xsdResults: map<string, bool>)
      modifies this
      ensures records == old(records)[key := Updated(Initial(old(records), key), zipNames, xsdNames, dataDir, xsdDir, present, zipResults, xsdResults)]
    {
      var rec: StatusRecord;
      if key !in records {
        rec := StatusRecord(InProgress, true, [], [], []);
      } else {
        rec := records[key];
      }
      rec := AppendEntries(rec, Zip, zipNames, dataDir, present, zipResults);
      rec := AppendEntries(rec, Xsd, xsdNames, xsdDir, present, xsdResults);
      rec := Classify(rec);
      records := records[key := rec];
    }

    /** The status block of process_list_xml, manifest by manifest. */
    method UpdateStatus(downloaded: seq<string>, zipNames: seq<string>, xsdNames: seq<string>, dataDir: string, xsdDir: string,
                        present: set<string>, zipResults: map<string, bool>, xsdResults: map<string, bool>)
      modifies this
      ensures records == StatusAfter(old(records), downloaded, zipNames, xsdNames, dataDir, xsdDir, present, zipResults, xsdResults)
    {
      ghost var start := records;
      var i := 0;
      while i < |downloaded|
        invariant 0 <= i <= |downloaded|
        invariant records == StatusAfter(start, downloaded[..i], zipNames, xsdNames, dataDir, xsdDir, present, zipResults, xsdResults)
      {
        var key := Basename(downloaded[i]);
        StatusAfterStep(start, downloaded, i, zipNames, xsdNames, dataDir, xsdDir, present, zipResults, xsdResults);
        UpdateRecord(key, zipNames, xsdNames, dataDir, xsdDir, present, zipResults, xsdResults);
        i := i + 1;
      }
      assert downloaded[..i] == downloaded;
    }
  }
}
