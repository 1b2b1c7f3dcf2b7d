/**
 * check_files.py: reads the entry table of a few downloaded archives and
 * reports the entry names whose size or CRC differs between the archives that
 * contain them.
 *
 * Opening an archive is left to the caller: each file comes with the entry
 * table `check_zip_contents` read from it, or None when it was not a valid zip.
 */
module CheckFiles {
  import opened Common

  /** `{'size': file_size, 'crc': CRC}` of one archive entry. */
  datatype EntryInfo = EntryInfo(size: nat, crc: nat)

  /** An archive's entry table: entry name to its size and CRC. */
  type Contents = map<string, EntryInfo>

  // ---------------------------------------------------------------------
  // file_info
  // ---------------------------------------------------------------------

  /** `file_info` after the loop over the existing files: only a non-empty table is kept. */
  function FileInfo(results: seq<(string, Option<Contents>)>): map<string, Contents>
    decreases |results|
  {
    if results == [] then map[]
    else
      var n := |results| - 1;
      var (name, contents) := results[n];
      if contents.Some? && |contents.value| > 0 then FileInfo(results[..n])[name := contents.value]
      else FileInfo(results[..n])
  }

  /** results[i] is a successful, non-empty read of `name`. */
  ghost predicate GoodRead(results: seq<(string, Option<Contents>)>, name: string, i: int) {
    0 <= i < |results| && results[i].0 == name && results[i].1.Some? && |results[i].1.value| > 0
  }

  /** results[i] is a successful, non-empty read of `name`, and no later one is. */
  ghost predicate LastRead(results: seq<(string, Option<Contents>)>, name: string, i: int) {
    && GoodRead(results, name, i)
    && forall j :: i < j < |results| ==> !GoodRead(results, name, j)
  }

  /** The last read either sets its file's table or leaves `file_info` as it was. */
  lemma FileInfoLast(results: seq<(string, Option<Contents>)>)
    requires results != []
    ensures var n := |results| - 1;
      FileInfo(results) == if GoodRead(results, results[n].0, n) then FileInfo(results[..n])[results[n].0 := results[n].1.value] else FileInfo(results[..n])
  {
  }

  /** A read of the prefix is a read of the whole list. */
  lemma GoodReadPrefix(results: seq<(string, Option<Contents>)>, n: int, name: string, i: int)
    requires 0 <= i < n <= |results|
    ensures GoodRead(results[..n], name, i) <==> GoodRead(results, name, i)
  {
    assert results[..n][i] == results[i];
  }

  /** A file is in `file_info` exactly when one of its reads gave a non-empty table. */
  lemma {:induction false} FileInfoKeys(results: seq<(string, Option<Contents>)>)
    ensures forall name :: name in FileInfo(results) <==> exists i :: GoodRead(results, name, i)
    decreases |results|
  {
    if results != [] {
      var n := |results| - 1;
      var pre := results[..n];
      FileInfoKeys(pre);
      FileInfoLast(results);
      forall name ensures name in FileInfo(results) <==> exists i :: GoodRead(results, name, i) {
        if name in FileInfo(results) && !GoodRead(results, name, n) {
          var i :| GoodRead(pre, name, i);
          GoodReadPrefix(results, n, name, i);
        }
        if exists i :: GoodRead(results, name, i) {
          var i :| GoodRead(results, name, i);
          if i < n {
            GoodReadPrefix(results, n, name, i);
          }
        }
      }
    }
  }

  /** Every file in `file_info` holds the table of its last non-empty read. */
  lemma {:induction false} FileInfoValues(results: seq<(string, Option<Contents>)>)
    ensures forall name :: name in FileInfo(results) ==>
      exists i :: LastRead(results, name, i) && FileInfo(results)[name] == results[i].1.value
    decreases |results|
  {
    if results != [] {
      var n := |results| - 1;
      var pre := results[..n];
      FileInfoValues(pre);
      FileInfoLast(results);
      forall name | name in FileInfo(results)
        ensures exists i :: LastRead(results, name, i) && FileInfo(results)[name] == results[i].1.value
      {
        if GoodRead(results, name, n) {
          assert LastRead(results, name, n);
        } else {
          var i :| LastRead(pre, name, i) && FileInfo(pre)[name] == pre[i].1.value;
          forall j | i <= j < n ensures GoodRead(pre, name, j) <==> GoodRead(results, name, j) {
            GoodReadPrefix(results, n, name, j);
          }
          assert LastRead(results, name, i);
        }
      }
    }
  }

  /** The loop of main that fills `file_info`. */
  method CollectFileInfo(results: seq<(string, Option<Contents>)>) returns (fileInfo: map<string, Contents>)
    ensures fileInfo == FileInfo(results)
  {
    fileInfo := map[];
    var i := 0;
    while i < |results|
      invariant 0 <= i <= |results|
      invariant fileInfo == FileInfo(results[..i])
    {
      assert results[..i + 1][..i] == results[..i];
      var (filename, contents) := results[i];
      if contents.Some? && |contents.value| > 0 {
        fileInfo := fileInfo[filename := contents.value];
      }
      i := i + 1;
    }
    assert results[..i] == results;
  }

  // ---------------------------------------------------------------------
  // The comparison block
  // ---------------------------------------------------------------------

  /** `all_files`: every entry name of every archive. */
  function AllNames(fileInfo: map<string, Contents>): set<string> {
    set z, n | z in fileInfo && n in fileInfo[z] :: n
  }

  /** `sizes` for an entry name: its size in each archive that has it. */
  function Sizes(fileInfo: map<string, Contents>, n: string): set<nat> {
    set z | z in fileInfo && n in fileInfo[z] :: fileInfo[z][n].size
  }

  /** `crcs` for an entry name. */
  function Crcs(fileInfo: map<string, Contents>, n: string): set<nat> {
    set z | z in fileInfo && n in fileInfo[z] :: fileInfo[z][n].crc
  }

  /** The test that puts a name into `differences`. */
  predicate Differs(fileInfo: map<string, Contents>, n: string) {
    |Sizes(fileInfo, n)| > 1 || |Crcs(fileInfo, n)| > 1
  }

  /** The differing names among ns, each with its sizes and CRCs. */
  function Reported(fileInfo: map<string, Contents>, ns: set<string>): map<string, (set<nat>, set<nat>)> {
    map n | n in ns && Differs(fileInfo, n) :: (Sizes(fileInfo, n), Crcs(fileInfo, n))
  }

  /** `differences`: each differing name with its sizes and CRCs. */
  function Differences(fileInfo: map<string, Contents>): map<string, (set<nat>, set<nat>)> {
    Reported(fileInfo, AllNames(fileInfo))
  }

  /** Looking at one more name adds it exactly when it differs. */
  lemma ReportedStep(fileInfo: map<string, Contents>, ns: set<string>, k: string)
    ensures Reported(fileInfo, ns + {k}) ==
      if Differs(fileInfo, k) then Reported(fileInfo, ns)[k := (Sizes(fileInfo, k), Crcs(fileInfo, k))] else Reported(fileInfo, ns)
  {
  }

  /** Two archives containing the same name disagree on its size or its CRC. */
  ghost predicate Disagree(fileInfo: map<string, Contents>, n: string) {
    exists z1, z2 :: z1 in fileInfo && z2 in fileInfo && n in fileInfo[z1] && n in fileInfo[z2] &&
      (fileInfo[z1][n].size != fileInfo[z2][n].size || fileInfo[z1][n].crc != fileInfo[z2][n].crc)
  }

  lemma MoreThanOne(s: set<nat>)
    ensures |s| > 1 <==> exists a, b :: a in s && b in s && a != b
  {
    if |s| > 1 {
      var a :| a in s;
      assert |s - {a}| == |s| - 1;
      var b :| b in s - {a};
    }
    if exists a, b :: a in s && b in s && a != b {
      var a, b :| a in s && b in s && a != b;
      assert {a, b} <= s;
      assert |{a, b}| == 2;
      assert |{a, b}| <= |s| by {
        SubsetCard({a, b}, s);
      }
    }
  }

  lemma {:induction false} SubsetCard(a: set<nat>, b: set<nat>)
    requires a <= b
    ensures |a| <= |b|
    decreases |a|
  {
    if a != {} {
      var x :| x in a;
      SubsetCard(a - {x}, b - {x});
    }
  }

  /**
   * A name is reported exactly when two of the archives that contain it
   * disagree on its size or on its CRC.
   */
  lemma DiffersIffDisagree(fileInfo: map<string, Contents>, n: string)
    ensures Differs(fileInfo, n) <==> Disagree(fileInfo, n)
  {
    MoreThanOne(Sizes(fileInfo, n));
    MoreThanOne(Crcs(fileInfo, n));
    if Disagree(fileInfo, n) {
      var z1, z2 :| z1 in fileInfo && z2 in fileInfo && n in fileInfo[z1] && n in fileInfo[z2] &&
        (fileInfo[z1][n].size != fileInfo[z2][n].size || fileInfo[z1][n].crc != fileInfo[z2][n].crc);
      assert fileInfo[z1][n].size in Sizes(fileInfo, n) && fileInfo[z2][n].size in Sizes(fileInfo, n);
      assert fileInfo[z1][n].crc in Crcs(fileInfo, n) && fileInfo[z2][n].crc in Crcs(fileInfo, n);
    }
  }

  /** A name that only one archive contains is never reported. */
  lemma SingleArchiveNeverDiffers(fileInfo: map<string, Contents>, n: string, z: string)
    requires z in fileInfo && n in fileInfo[z]
    requires forall y :: y in fileInfo && n in fileInfo[y] ==> y == z
    ensures !Differs(fileInfo, n)
  {
    DiffersIffDisagree(fileInfo, n);
  }

  /** The inner loop over `file_info.items()` for one name: its sizes and CRCs. */
  method SizesAndCrcs(fileInfo: map<string, Contents>, filename: string) returns (sizes: set<nat>, crcs: set<nat>)
    ensures sizes == Sizes(fileInfo, filename) && crcs == Crcs(fileInfo, filename)
  {
    sizes, crcs := {}, {};
    var zips := fileInfo.Keys;
    while zips != {}
      invariant zips <= fileInfo.Keys
      invariant sizes == set z | z in fileInfo.Keys - zips && filename in fileInfo[z] :: fileInfo[z][filename].size
      invariant crcs == set z | z in fileInfo.Keys - zips && filename in fileInfo[z] :: fileInfo[z][filename].crc
      decreases zips
    {
      var zipName :| zipName in zips;
      var contents := fileInfo[zipName];
      if filename in contents {
        sizes := sizes + {contents[filename].size};
        crcs := crcs + {contents[filename].crc};
      }
      zips := zips - {zipName};
    }
  }

  /** The loop that builds `all_files`. */
  method CollectNames(fileInfo: map<string, Contents>) returns (allFiles: set<string>)
    ensures allFiles == AllNames(fileInfo)
  {
    allFiles := {};
    var zips := fileInfo.Keys;
    while zips != {}
      invariant zips <= fileInfo.Keys
      invariant allFiles == set z, n | z in fileInfo.Keys - zips && n in fileInfo[z] :: n
      decreases zips
    {
      var zipName :| zipName in zips;
      allFiles := allFiles + fileInfo[zipName].Keys;
      zips := zips - {zipName};
    }
  }

  /**
   * The comparison block of main: it runs only when more than one archive was
   * read, and then yields `all_files` and `differences`.
   */
  method Compare(fileInfo: map<string, Contents>) returns (compared: bool, allFiles: set<string>, differences: map<string, (set<nat>, set<nat>)>)
    ensures compared <==> |fileInfo| > 1
    ensures compared ==> allFiles == AllNames(fileInfo) && differences == Differences(fileInfo)
    ensures !compared ==> allFiles == {} && differences == map[]
  {
    allFiles, differences := {}, map[];
    compared := |fileInfo| > 1;
    if !compared {
      return;
    }
    allFiles := CollectNames(fileInfo);
    var names := allFiles;
    while names != {}
      invariant names <= allFiles
      invariant differences == Reported(fileInfo, allFiles - names)
      decreases names
    {
      var filename :| filename in names;
      ReportedStep(fileInfo, allFiles - names, filename);
      assert allFiles - (names - {filename}) == (allFiles - names) + {filename};
      var sizes, crcs := SizesAndCrcs(fileInfo, filename);
      if |sizes| > 1 || |crcs| > 1 {
        differences := differences[filename := (sizes, crcs)];
      }
      names := names - {filename};
    }
  }
}
