/**
 * check_files_integrity (download_xml_data.py): the integrity cache, the pass that
 * decides which files need a fresh check, and the checks run in batches of 1000.
 *
 * The archive check itself (check_zip_integrity, under a thread pool and a
 * 60-second timeout) is the parameter `verdict`: Some(b) when the check returned b,
 * None when it timed out or raised. `stat` is what os.stat reports; a file
 * without an entry is one whose os.stat raised, and the pass skips it.
 */
module Integrity {
  import opened Common

  const BatchSize: int := 1000

  datatype FileInfo = FileInfo(size: int, mtime: int)
  datatype CacheEntry = CacheEntry(size: int, mtime: int, isValid: bool)

  /** The cached verdict for a file may be reused: same size and same mtime. */
  predicate Fresh(cache: map<string, CacheEntry>, file: string, info: FileInfo) {
    file in cache && cache[file].size == info.size && cache[file].mtime == info.mtime
  }

  /** files_to_check_now: the files that stat and have no fresh cache entry, in input order. */
  function ToCheck(files: seq<string>, stat: map<string, FileInfo>, cache: map<string, CacheEntry>): seq<string>
    decreases |files|
  {
    if files == [] then []
    else
      var f := files[|files| - 1];
      ToCheck(files[..|files| - 1], stat, cache) + (if f in stat && !Fresh(cache, f, stat[f]) then [f] else [])
  }

  /** skipped_files: how many positions of the input were answered from the cache. */
  function SkipCount(files: seq<string>, stat: map<string, FileInfo>, cache: map<string, CacheEntry>): nat
    decreases |files|
  {
    if files == [] then 0
    else
      var f := files[|files| - 1];
      SkipCount(files[..|files| - 1], stat, cache) + (if f in stat && Fresh(cache, f, stat[f]) then 1 else 0)
  }

  /** The results the first pass fills in from the cache. */
  function CachedResults(files: seq<string>, stat: map<string, FileInfo>, cache: map<string, CacheEntry>): map<string, bool> {
    map f | f in files && f in stat && Fresh(cache, f, stat[f]) :: cache[f].isValid
  }

  /** A timeout or an exception counts as a damaged file. */
  function Outcome(v: Option<bool>): bool {
    v.Some? && v.value
  }

  /** `results[file] = ...` for each checked file in turn. */
  function Record(results: map<string, bool>, done: seq<string>, verdict: string -> Option<bool>): map<string, bool>
    decreases |done|
  {
    if done == [] then results
    else
      var f := done[|done| - 1];
      Record(results, done[..|done| - 1], verdict)[f := Outcome(verdict(f))]
  }

  /** `integrity_cache[file] = {...}` for each checked file whose check returned. */
  function Remember(cache: map<string, CacheEntry>, done: seq<string>, stat: map<string, FileInfo>, verdict: string -> Option<bool>): map<string, CacheEntry>
    requires forall f :: f in done ==> f in stat
    decreases |done|
  {
    if done == [] then cache
    else
      var f := done[|done| - 1];
      var c := Remember(cache, done[..|done| - 1], stat, verdict);
      match verdict(f)
      case Some(v) => c[f := CacheEntry(stat[f].size, stat[f].mtime, v)]
      case None => c
  }

  /** The dict check_files_integrity returns. */
  function Results(files: seq<string>, stat: map<string, FileInfo>, cache: map<string, CacheEntry>, verdict: string -> Option<bool>): map<string, bool> {
    Record(CachedResults(files, stat, cache), ToCheck(files, stat, cache), verdict)
  }

  /** The cache after check_files_integrity. */
  function CacheAfter(files: seq<string>, stat: map<string, FileInfo>, cache: map<string, CacheEntry>, verdict: string -> Option<bool>): map<string, CacheEntry> {
    ToCheckMembers(files, stat, cache);
    Remember(cache, ToCheck(files, stat, cache), stat, verdict)
  }

  /** A file is checked again exactly when it stats and its cache entry is missing or stale. */
  lemma {:induction false} ToCheckSpec(files: seq<string>, stat: map<string, FileInfo>, cache: map<string, CacheEntry>)
    ensures forall f :: f in ToCheck(files, stat, cache) <==> f in files && f in stat && !Fresh(cache, f, stat[f])
    ensures SkipCount(files, stat, cache) + |ToCheck(files, stat, cache)| <= |files|
    ensures (forall f :: f in files ==> f in stat) ==> SkipCount(files, stat, cache) + |ToCheck(files, stat, cache)| == |files|
  {
    ToCheckMembers(files, stat, cache);
    ToCheckCount(files, stat, cache);
  }

  lemma {:induction false} ToCheckMembers(files: seq<string>, stat: map<string, FileInfo>, cache: map<string, CacheEntry>)
    ensures forall f :: f in ToCheck(files, stat, cache) <==> f in files && f in stat && !Fresh(cache, f, stat[f])
    decreases |files|
  {
    if files != [] {
      var n := |files| - 1;
      ToCheckMembers(files[..n], stat, cache);
      assert forall f :: f in files <==> f in files[..n] || f == files[n];
    }
  }

  lemma {:induction false} ToCheckCount(files: seq<string>, stat: map<string, FileInfo>, cache: map<string, CacheEntry>)
    ensures SkipCount(files, stat, cache) + |ToCheck(files, stat, cache)| <= |files|
    ensures (forall f :: f in files ==> f in stat) ==> SkipCount(files, stat, cache) + |ToCheck(files, stat, cache)| == |files|
    decreases |files|
  {
    if files != [] {
      var n := |files| - 1;
      ToCheckCount(files[..n], stat, cache);
      if forall f :: f in files ==> f in stat {
        assert forall f :: f in files[..n] ==> f in files;
        assert files[n] in stat;
      }
    }
  }

  /** Checking `ok` after `pre` visits pre's files and then ok's: the pass keeps input order. */
  lemma {:induction false} ToCheckConcat(pre: seq<string>, post: seq<string>, stat: map<string, FileInfo>, cache: map<string, CacheEntry>)
    ensures ToCheck(pre + post, stat, cache) == ToCheck(pre, stat, cache) + ToCheck(post, stat, cache)
    decreases |post|
  {
    if post == [] {
      assert pre + post == pre;
    } else {
      var n := |post| - 1;
      ToCheckConcat(pre, post[..n], stat, cache);
      assert (pre + post)[..|pre + post| - 1] == pre + post[..n];
    }
  }

  lemma {:induction false} RecordSpec(results: map<string, bool>, done: seq<string>, verdict: string -> Option<bool>)
    ensures forall f :: f in Record(results, done, verdict) <==> f in results || f in done
    ensures forall f :: f in done ==> Record(results, done, verdict)[f] == Outcome(verdict(f))
    ensures forall f :: f in results && f !in done ==> Record(results, done, verdict)[f] == results[f]
    decreases |done|
  {
    if done != [] {
      var n := |done| - 1;
      RecordSpec(results, done[..n], verdict);
      assert forall f :: f in done <==> f in done[..n] || f == done[n];
    }
  }

  lemma {:induction false} RememberSpec(cache: map<string, CacheEntry>, done: seq<string>, stat: map<string, FileInfo>, verdict: string -> Option<bool>)
    requires forall f :: f in done ==> f in stat
    ensures forall f :: f in Remember(cache, done, stat, verdict) <==> f in cache || (f in done && verdict(f).Some?)
    ensures forall f :: f in done && verdict(f).Some? ==>
      Remember(cache, done, stat, verdict)[f] == CacheEntry(stat[f].size, stat[f].mtime, verdict(f).value)
    ensures forall f :: f in cache && !(f in done && verdict(f).Some?) ==> Remember(cache, done, stat, verdict)[f] == cache[f]
    decreases |done|
  {
    if done != [] {
      var n := |done| - 1;
      RememberSpec(cache, done[..n], stat, verdict);
      assert forall f :: f in done <==> f in done[..n] || f == done[n];
    }
  }

  /**
   * Every file that stats gets a result: the cached verdict when its entry is
   * fresh, otherwise the outcome of a new check (False on a timeout or an error).
   */
  lemma ResultsSpec(files: seq<string>, stat: map<string, FileInfo>, cache: map<string, CacheEntry>, verdict: string -> Option<bool>)
    ensures var r := Results(files, stat, cache, verdict);
      && (forall f :: f in r <==> f in files && f in stat)
      && (forall f :: f in r ==> r[f] == if Fresh(cache, f, stat[f]) then cache[f].isValid else Outcome(verdict(f)))
  {
    ToCheckSpec(files, stat, cache);
    RecordSpec(CachedResults(files, stat, cache), ToCheck(files, stat, cache), verdict);
  }

  /**
   * The cache afterwards: each re-checked file whose check returned is stored with
   * its current size, mtime and verdict; every other entry is as it was.
   */
  lemma CacheAfterSpec(files: seq<string>, stat: map<string, FileInfo>, cache: map<string, CacheEntry>, verdict: string -> Option<bool>)
    ensures var c := CacheAfter(files, stat, cache, verdict);
      && (forall f :: f in c <==> f in cache || (f in files && f in stat && !Fresh(cache, f, stat[f]) && verdict(f).Some?))
      && (forall f :: f in files && f in stat && !Fresh(cache, f, stat[f]) && verdict(f).Some? ==>
            c[f] == CacheEntry(stat[f].size, stat[f].mtime, verdict(f).value))
      && (forall f :: f in cache && !(f in files && f in stat && !Fresh(cache, f, stat[f]) && verdict(f).Some?) ==> c[f] == cache[f])
  {
    ToCheckSpec(files, stat, cache);
    RememberSpec(cache, ToCheck(files, stat, cache), stat, verdict);
  }

  /**
   * Running the check again on unchanged files gives the same results and leaves
   * the cache as it is: what was checked and returned is now fresh in the cache.
   */
  lemma RecheckIsStable(files: seq<string>, stat: map<string, FileInfo>, cache: map<string, CacheEntry>, verdict: string -> Option<bool>)
    ensures var c := CacheAfter(files, stat, cache, verdict);
      && Results(files, stat, c, verdict) == Results(files, stat, cache, verdict)
      && CacheAfter(files, stat, c, verdict) == c
  {
    RecheckSameResults(files, stat, cache, verdict);
    RecheckSameCache(files, stat, cache, verdict);
  }

  lemma RecheckSameResults(files: seq<string>, stat: map<string, FileInfo>, cache: map<string, CacheEntry>, verdict: string -> Option<bool>)
    ensures Results(files, stat, CacheAfter(files, stat, cache, verdict), verdict) == Results(files, stat, cache, verdict)
  {
    var c := CacheAfter(files, stat, cache, verdict);
    CacheAfterSpec(files, stat, cache, verdict);
    ResultsSpec(files, stat, cache, verdict);
    ResultsSpec(files, stat, c, verdict);
    var r1 := Results(files, stat, cache, verdict);
    var r2 := Results(files, stat, c, verdict);
    forall f | f in r1 ensures r2[f] == r1[f] {
      if !Fresh(cache, f, stat[f]) && verdict(f).Some? {
        assert Fresh(c, f, stat[f]);
      }
    }
  }

  lemma RecheckSameCache(files: seq<string>, stat: map<string, FileInfo>, cache: map<string, CacheEntry>, verdict: string -> Option<bool>)
    ensures CacheAfter(files, stat, CacheAfter(files, stat, cache, verdict), verdict) == CacheAfter(files, stat, cache, verdict)
  {
    var c := CacheAfter(files, stat, cache, verdict);
    CacheAfterSpec(files, stat, cache, verdict);
    CacheAfterSpec(files, stat, c, verdict);
    var c2 := CacheAfter(files, stat, c, verdict);
    assert forall f :: f in c2 ==> f in c && c2[f] == c[f];
  }

  lemma {:induction false} RecordConcat(results: map<string, bool>, a: seq<string>, b: seq<string>, verdict: string -> Option<bool>)
    ensures Record(results, a + b, verdict) == Record(Record(results, a, verdict), b, verdict)
    decreases |b|
  {
    if b == [] {
      assert a + b == a;
    } else {
      var n := |b| - 1;
      RecordConcat(results, a, b[..n], verdict);
      assert (a + b)[..|a + b| - 1] == a + b[..n];
    }
  }

  lemma {:induction false} RememberConcat(cache: map<string, CacheEntry>, a: seq<string>, b: seq<string>, stat: map<string, FileInfo>, verdict: string -> Option<bool>)
    requires forall f :: f in a ==> f in stat
    requires forall f :: f in b ==> f in stat
    ensures forall f :: f in a + b ==> f in stat
    ensures Remember(cache, a + b, stat, verdict) == Remember(Remember(cache, a, stat, verdict), b, stat, verdict)
    decreases |b|
  {
    if b == [] {
      assert a + b == a;
    } else {
      var n := |b| - 1;
      RememberConcat(cache, a, b[..n], stat, verdict);
      assert (a + b)[..|a + b| - 1] == a + b[..n];
    }
  }

  // ---------------------------------------------------------------------
  // Batches
  // ---------------------------------------------------------------------

  function Min(a: int, b: int): int {
    if a <= b then a else b
  }

  /** total_batches = (n + batch_size - 1) // batch_size. */
  function BatchCount(n: nat): nat {
    (n + BatchSize - 1) / BatchSize
  }

  /** files_to_check_now[start_idx:end_idx] for batch k. */
  function Batch(s: seq<string>, k: nat): seq<string>
    requires k < BatchCount(|s|)
  {
    s[k * BatchSize .. Min((k + 1) * BatchSize, |s|)]
  }

  function Batches(s: seq<string>): seq<seq<string>> {
    seq(BatchCount(|s|), k requires 0 <= k < BatchCount(|s|) => Batch(s, k))
  }

  function Flatten(bs: seq<seq<string>>): seq<string>
    decreases |bs|
  {
    if bs == [] then [] else Flatten(bs[..|bs| - 1]) + bs[|bs| - 1]
  }

  lemma BatchInStat(s: seq<string>, k: nat, stat: map<string, FileInfo>)
    requires k < BatchCount(|s|)
    requires forall f :: f in s ==> f in stat
    ensures forall f :: f in Batch(s, k) ==> f in stat
  {
    var b := Batch(s, k);
    forall f | f in b ensures f in stat {
      var i :| 0 <= i < |b| && b[i] == f;
      assert s[k * BatchSize + i] == f;
    }
  }

  /** The batch count is the ceiling of n / 1000. */
  lemma BatchCountSpec(n: nat)
    ensures BatchCount(n) * BatchSize >= n
    ensures n > 0 ==> (BatchCount(n) - 1) * BatchSize < n
    ensures n == 0 ==> BatchCount(n) == 0
  {
  }

  lemma {:induction false} FlattenPrefix(s: seq<string>, k: nat)
    requires k <= BatchCount(|s|)
    ensures Flatten(Batches(s)[..k]) == s[..Min(k * BatchSize, |s|)]
    decreases k
  {
    BatchCountSpec(|s|);
    if k > 0 {
      FlattenPrefix(s, k - 1);
      assert Batches(s)[..k][..k - 1] == Batches(s)[..k - 1];
      assert Batches(s)[..k][k - 1] == Batch(s, k - 1);
      assert Min((k - 1) * BatchSize, |s|) == (k - 1) * BatchSize;
    }
  }

  /**
   * The files still to check are cut, in order, into ceil(n / 1000) batches of 1 to
   * 1000 files that together are exactly those files.
   */
  lemma BatchesSpec(s: seq<string>)
    ensures |Batches(s)| == BatchCount(|s|)
    ensures forall k :: 0 <= k < |Batches(s)| ==> 1 <= |Batches(s)[k]| <= BatchSize
    ensures Flatten(Batches(s)) == s
  {
    BatchCountSpec(|s|);
    FlattenPrefix(s, BatchCount(|s|));
    assert Batches(s)[..BatchCount(|s|)] == Batches(s);
  }

  /**
   * The first pass of check_files_integrity: answer each file from the cache when
   * its entry is fresh, queue it otherwise, skip it when it does not stat.
   */
  method FilterCached(files: seq<string>, stat: map<string, FileInfo>, cache: map<string, CacheEntry>)
    returns (toCheck: seq<string>, results: map<string, bool>, skipped: nat)
    ensures toCheck == ToCheck(files, stat, cache)
    ensures results == CachedResults(files, stat, cache)
    ensures skipped == SkipCount(files, stat, cache)
  {
    toCheck := [];
    results := map[];
    skipped := 0;
    var i := 0;
    while i < |files|
      invariant 0 <= i <= |files|
      invariant toCheck == ToCheck(files[..i], stat, cache)
      invariant results == CachedResults(files[..i], stat, cache)
      invariant skipped == SkipCount(files[..i], stat, cache)
    {
      var file := files[i];
      assert files[..i + 1][..i] == files[..i];
      assert forall f :: f in files[..i + 1] <==> f in files[..i] || f == file;
      if file in stat {
        var info := stat[file];
        if file in cache && cache[file].size == info.size && cache[file].mtime == info.mtime {
          results := results[file := cache[file].isValid];
          skipped := skipped + 1;
        } else {
          toCheck := toCheck + [file];
        }
      }
      i := i + 1;
    }
    assert files[..i] == files;
  }

  /** Processing batch k after the first k batches is processing the first k + 1 batches. */
  lemma BatchStep(s: seq<string>, k: nat, stat: map<string, FileInfo>, verdict: string -> Option<bool>,
                  results: map<string, bool>, cache: map<string, CacheEntry>)
    requires k < BatchCount(|s|)
    requires forall f :: f in s ==> f in stat
    ensures k * BatchSize <= Min((k + 1) * BatchSize, |s|) <= |s|
    ensures var batch := s[k * BatchSize .. Min((k + 1) * BatchSize, |s|)];
      var done := Flatten(Batches(s)[..k]);
      && (forall f :: f in done ==> f in stat)
      && (forall f :: f in batch ==> f in stat)
      && (forall f :: f in Flatten(Batches(s)[..k + 1]) ==> f in stat)
      && Flatten(Batches(s)[..k + 1]) == done + batch
      && Record(results, Flatten(Batches(s)[..k + 1]), verdict) == Record(Record(results, done, verdict), batch, verdict)
      && Remember(cache, Flatten(Batches(s)[..k + 1]), stat, verdict) == Remember(Remember(cache, done, stat, verdict), batch, stat, verdict)
  {
    BatchCountSpec(|s|);
    BatchInStat(s, k, stat);
    FlattenInStat(s, k, stat);
    FlattenInStat(s, k + 1, stat);
    BatchFlatten(s, k);
    var done := Flatten(Batches(s)[..k]);
    RecordConcat(results, done, Batch(s, k), verdict);
    RememberConcat(cache, done, Batch(s, k), stat, verdict);
  }

  /** The first k + 1 batches are the first k followed by batch k. */
  lemma BatchFlatten(s: seq<string>, k: nat)
    requires k < BatchCount(|s|)
    ensures Flatten(Batches(s)[..k + 1]) == Flatten(Batches(s)[..k]) + Batch(s, k)
  {
    assert Batches(s)[..k + 1][..k] == Batches(s)[..k];
    assert Batches(s)[..k + 1][k] == Batch(s, k);
  }

  /** The files of the first j batches are files of s. */
  lemma FlattenInStat(s: seq<string>, j: nat, stat: map<string, FileInfo>)
    requires j <= BatchCount(|s|)
    requires forall f :: f in s ==> f in stat
    ensures forall f :: f in Flatten(Batches(s)[..j]) ==> f in stat
  {
    FlattenPrefix(s, j);
    var p := s[..Min(j * BatchSize, |s|)];
    forall f | f in p ensures f in stat {
      var i :| 0 <= i < |p| && p[i] == f;
      assert s[i] == f;
    }
  }

  /** The integrity cache, kept between runs (integrity_cache.json). */
  class IntegrityCache {
    var entries: map<string, CacheEntry>

    constructor(loaded: map<string, CacheEntry>)
      ensures entries == loaded
    {
      entries := loaded;
    }

    /** One batch: check each file, record the outcome, and cache the verdicts that came back. */
    method CheckBatch(batch: seq<string>, stat: map<string, FileInfo>, verdict: string -> Option<bool>, results0: map<string, bool>)
      returns (results: map<string, bool>)
      requires forall f :: f in batch ==> f in stat
      modifies this
      ensures results == Record(results0, batch, verdict)
      ensures entries == Remember(old(entries), batch, stat, verdict)
    {
      results := results0;
      var j := 0;
      while j < |batch|
        invariant 0 <= j <= |batch|
        invariant results == Record(results0, batch[..j], verdict)
        invariant entries == Remember(old(entries), batch[..j], stat, verdict)
      {
        var file := batch[j];
        assert batch[..j + 1][..j] == batch[..j];
        match verdict(file) {
          case Some(result) =>
            results := results[file := result];
            entries := entries[file := CacheEntry(stat[file].size, stat[file].mtime, result)];
          case None =>
            results := results[file := false];
        }
        j := j + 1;
      }
      assert batch[..j] == batch;
    }

    /**
     * check_files_integrity: the cache pass, then each batch of the remaining files;
     * returns the results and the number of files answered from the cache.
     */
    method CheckFilesIntegrity(files: seq<string>, stat: map<string, FileInfo>, verdict: string -> Option<bool>)
      returns (results: map<string, bool>, skipped: nat)
      modifies this
      ensures results == Results(files, stat, old(entries), verdict)
      ensures entries == CacheAfter(files, stat, old(entries), verdict)
      ensures skipped == SkipCount(files, stat, old(entries))
    {
      var toCheck;
      toCheck, results, skipped := FilterCached(files, stat, entries);
      ToCheckSpec(files, stat, entries);
      assert forall f :: f in toCheck ==> f in stat;
      ghost var base := results;
      ghost var cache0 := entries;
      var total := (|toCheck| + BatchSize - 1) / BatchSize;
      BatchesSpec(toCheck);
      var b := 0;
      while b < total
        invariant 0 <= b <= total
        invariant forall f :: f in Flatten(Batches(toCheck)[..b]) ==> f in stat
        invariant results == Record(base, Flatten(Batches(toCheck)[..b]), verdict)
        invariant entries == Remember(cache0, Flatten(Batches(toCheck)[..b]), stat, verdict)
      {
        var startIdx := b * BatchSize;
        var endIdx := Min((b + 1) * BatchSize, |toCheck|);
        BatchStep(toCheck, b, stat, verdict, base, cache0);
        var batch := toCheck[startIdx..endIdx];
        results := CheckBatch(batch, stat, verdict, results);
        b := b + 1;
      }
      assert Batches(toCheck)[..b] == Batches(toCheck);
    }
  }
}
