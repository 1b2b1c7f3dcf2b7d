/**
 * download_data.py: downloads one structure archive per month, from a start
 * (year, month) given on the command line up to the fixed end 2025/05, and
 * counts the successes and failures.
 *
 * The download of one month (the HTTP request, the integrity check and the
 * re-download after a damaged file) is a parameter `fetch`: it tells whether
 * download_file returned a true value for that month.
 */
module DownloadData {
  import opened Common

  const EndYear: int := 2025
  const EndMonth: int := 5

  // ---------------------------------------------------------------------
  // download_file: the target filename
  // ---------------------------------------------------------------------

  /** `folder`: data/248 under the 248-FZ mode, else data. */
  function Folder(is248: bool): string {
    if is248 then "data/248" else "data"
  }

  /** The archive name `data-{year}{month:02d}26-structure-20220125.zip`. */
  function ArchiveName(year: int, month: int): string {
    "data-" + IntToDecimal(year) + Pad2(month) + "26-structure-20220125.zip"
  }

  /** `filename` in download_file. */
  function DataFileName(year: int, month: int, is248: bool): string {
    Folder(is248) + "/" + ArchiveName(year, month)
  }

  lemma DecimalHasNoSlash(i: int)
    ensures forall k :: 0 <= k < |IntToDecimal(i)| ==> IntToDecimal(i)[k] != '/'
  {
  }

  lemma PadHasNoSlash(i: int)
    ensures forall k :: 0 <= k < |Pad2(i)| ==> Pad2(i)[k] != '/'
  {
    DecimalHasNoSlash(i);
    if 0 <= i < 10 {
      assert Pad2(i) == "0" + NatToDecimal(i);
    }
  }

  lemma ArchiveHasNoSlash(year: int, month: int)
    ensures forall k :: 0 <= k < |ArchiveName(year, month)| ==> ArchiveName(year, month)[k] != '/'
  {
    var a := ArchiveName(year, month);
    var y, p := IntToDecimal(year), Pad2(month);
    DecimalHasNoSlash(year);
    PadHasNoSlash(month);
    var q := "26-structure-20220125.zip";
    assert a == "data-" + y + p + q;
    forall k | 0 <= k < |a| ensures a[k] != '/' {
      if k < 5 {
        assert a[k] == "data-"[k];
      } else if k < 5 + |y| {
        assert a[k] == y[k - 5];
      } else if k < 5 + |y| + |p| {
        assert a[k] == p[k - 5 - |y|];
      } else {
        assert a[k] == q[k - 5 - |y| - |p|];
      }
    }
  }

  lemma DirnameOfFolder(is248: bool, a: string)
    requires forall k :: 0 <= k < |a| ==> a[k] != '/'
    ensures Dirname(Folder(is248) + "/" + a) == Folder(is248)
  {
    var f := Folder(is248) + "/";
    assert Folder(is248) + "/" + a == f + a;
    AfterLastSlashAppend(f, a);
    assert (f + a)[..|f|] == f;
    assert StripSlashesRight(f) == Folder(is248);
  }

  lemma BasenameOfDataFile(year: int, month: int, is248: bool)
    ensures Basename(DataFileName(year, month, is248)) == ArchiveName(year, month)
  {
    var a := ArchiveName(year, month);
    ArchiveHasNoSlash(year, month);
    BasenameOfJoin(Folder(is248), a);
    assert Join(Folder(is248), a) == DataFileName(year, month, is248);
  }

  lemma ModesDiffer(year: int, month: int)
    ensures DataFileName(year, month, true) != DataFileName(year, month, false)
  {
    var t, d := DataFileName(year, month, true), DataFileName(year, month, false);
    assert t[5] == '2';
    assert d[5] == 'd';
  }

  /**
   * Both modes write the same archive name; only the folder differs, and it is
   * data/248 exactly in the 248-FZ mode.
   */
  lemma FileNameModes(year: int, month: int, is248: bool)
    ensures Basename(DataFileName(year, month, is248)) == ArchiveName(year, month)
    ensures Dirname(DataFileName(year, month, is248)) == (if is248 then "data/248" else "data")
    ensures DataFileName(year, month, true) != DataFileName(year, month, false)
  {
    BasenameOfDataFile(year, month, is248);
    ArchiveHasNoSlash(year, month);
    DirnameOfFolder(is248, ArchiveName(year, month));
    ModesDiffer(year, month);
  }

  // ---------------------------------------------------------------------
  // main: the month loop
  // ---------------------------------------------------------------------

  /** The loop condition: (year, month) is not after the end month. */
  predicate InRange(year: int, month: int) {
    year < EndYear || (year == EndYear && month <= EndMonth)
  }

  /** `current_month += 1`, with the roll-over to January when it passes 12. */
  function Next(year: int, month: int): (int, int) {
    if month + 1 > 12 then (year + 1, 1) else (year, month + 1)
  }

  /** The (year, month) pairs the loop visits from (year, month), in order. */
  function Schedule(year: int, month: int): seq<(int, int)>
    decreases EndYear - year, 12 - month
  {
    if InRange(year, month) then
      var n := Next(year, month);
      var y, m := n.0, n.1;
      [(year, month)] + Schedule(y, m)
    else []
  }

  /** `total_files` as main computes it. */
  function TotalFiles(startYear: int, startMonth: int): int {
    (EndYear - startYear) * 12 + (EndMonth - startMonth + 1)
  }

  /** The months among `s` whose download succeeded. */
  function Successes(s: seq<(int, int)>, fetch: (int, int) -> bool): (r: nat)
    ensures r <= |s|
    decreases |s|
  {
    if s == [] then 0
    else
      var (y, m) := s[|s| - 1];
      Successes(s[..|s| - 1], fetch) + (if fetch(y, m) then 1 else 0)
  }

  /** Months counted from year 0 January, so that consecutive months differ by one. */
  function MonthIndex(year: int, month: int): int {
    year * 12 + month - 1
  }

  /**
   * The visited months: none exactly when the start is after the end; otherwise
   * the first is the start, the last is 2025/05, each is followed by its `Next`,
   * every one is in range, and every month after the first is at most 12.
   */
  lemma {:induction false} ScheduleShape(year: int, month: int)
    ensures var s := Schedule(year, month);
      && (s != [] <==> InRange(year, month))
      && (s != [] ==> s[0] == (year, month) && s[|s| - 1] == (EndYear, EndMonth))
      && (forall i :: 0 <= i < |s| - 1 ==> s[i + 1] == Next(s[i].0, s[i].1))
      && (forall i :: 0 <= i < |s| ==> InRange(s[i].0, s[i].1))
      && (forall i :: 1 <= i < |s| ==> s[i].1 <= 12)
    decreases EndYear - year, 12 - month
  {
    var s := Schedule(year, month);
    if InRange(year, month) {
      var n := Next(year, month);
      var y, m := n.0, n.1;
      ScheduleShape(y, m);
      var t := Schedule(y, m);
      assert s == [(year, month)] + t;
      if t == [] {
        assert !InRange(y, m);
        assert (year, month) == (EndYear, EndMonth);
      } else {
        assert t[0] == (y, m);
        assert m <= 12;
      }
      assert forall i :: 1 <= i < |s| ==> s[i] == t[i - 1];
    }
  }

  /** Starting from a month in 1..12, every visited month is in 1..12 and each is one month after the previous. */
  lemma {:induction false} ScheduleChronological(year: int, month: int)
    requires 1 <= month <= 12
    ensures forall i :: 0 <= i < |Schedule(year, month)| ==> 1 <= Schedule(year, month)[i].1 <= 12
    ensures forall i :: 0 <= i < |Schedule(year, month)| - 1 ==>
      MonthIndex(Schedule(year, month)[i + 1].0, Schedule(year, month)[i + 1].1) == MonthIndex(Schedule(year, month)[i].0, Schedule(year, month)[i].1) + 1
    decreases EndYear - year, 12 - month
  {
    if InRange(year, month) {
      var n := Next(year, month);
      var y, m := n.0, n.1;
      ScheduleChronological(y, m);
      var s, t := Schedule(year, month), Schedule(y, m);
      assert s == [(year, month)] + t;
      forall i | 0 <= i < |s| ensures 1 <= s[i].1 <= 12 {
        if i > 0 {
          assert s[i] == t[i - 1];
        }
      }
      forall i | 0 <= i < |s| - 1 ensures MonthIndex(s[i + 1].0, s[i + 1].1) == MonthIndex(s[i].0, s[i].1) + 1 {
        assert s[i + 1] == t[i];
        if i == 0 {
          assert t[0] == (y, m);
        } else {
          assert s[i] == t[i - 1];
        }
      }
    }
  }

  /**
   * When the start month is at most 12 and the start is at most one month past
   * the end, the loop runs exactly `total_files` times.
   */
  lemma {:induction false} ScheduleCount(year: int, month: int)
    requires month <= 12
    requires year < EndYear || (year == EndYear && month <= EndMonth + 1)
    ensures |Schedule(year, month)| == TotalFiles(year, month)
    decreases EndYear - year, 12 - month
  {
    if InRange(year, month) {
      var n := Next(year, month);
      var y, m := n.0, n.1;
      ScheduleCount(y, m);
    }
  }

  /** A start month past December is visited once before the roll-over, so `total_files` is off by `month - 12`. */
  lemma StartPastDecember(year: int, month: int)
    requires month > 12 && year < EndYear
    ensures |Schedule(year, month)| == TotalFiles(year, month) + month - 12
  {
    ScheduleCount(year + 1, 1);
  }

  /**
   * The loop of main. `visited` lists the months download_file was called for, in
   * order; `currentFile`, `successful` and `failed` are the counters, and
   * (`year`, `month`) the position when the loop ends.
   */
  method RunMonths(startYear: int, startMonth: int, fetch: (int, int) -> bool)
    returns (visited: seq<(int, int)>, currentFile: nat, successful: nat, failed: nat, year: int, month: int)
    ensures visited == Schedule(startYear, startMonth)
    ensures currentFile == |visited|
    ensures successful == Successes(visited, fetch)
    ensures successful + failed == currentFile
    ensures !InRange(year, month)
    ensures visited == [] ==> (year, month) == (startYear, startMonth)
    ensures visited != [] ==> (year, month) == Next(visited[|visited| - 1].0, visited[|visited| - 1].1)
  {
    year, month := startYear, startMonth;
    visited := [];
    successful, failed, currentFile := 0, 0, 0;
    while InRange(year, month)
      invariant Schedule(startYear, startMonth) == visited + Schedule(year, month)
      invariant currentFile == |visited|
      invariant successful == Successes(visited, fetch)
      invariant successful + failed == currentFile
      invariant visited == [] ==> (year, month) == (startYear, startMonth)
      invariant visited != [] ==> (year, month) == Next(visited[|visited| - 1].0, visited[|visited| - 1].1)
      decreases EndYear - year, 12 - month
    {
      currentFile := currentFile + 1;
      var old_visited := visited;
      visited := visited + [(year, month)];
      assert visited[..|visited| - 1] == old_visited;
      if fetch(year, month) {
        successful := successful + 1;
      } else {
        failed := failed + 1;
      }
      var y0, m0 := year, month;
      month := month + 1;
      if month > 12 {
        month := 1;
        year := year + 1;
      }
      assert (year, month) == Next(y0, m0);
      assert Schedule(y0, m0) == [(y0, m0)] + Schedule(year, month);
    }
  }
}
