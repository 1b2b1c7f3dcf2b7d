# knm-download: the logic of the download scripts, modelled in Dafny

knm-download is a set of Python scripts that mirror the open-data portal of the
Russian register of inspections (proverki.gov.ru). They download a `list.xml`
manifest, the XML manifests it names, and the ZIP and XSD files those
manifests link to. They keep a status file and an integrity cache between runs.
Other scripts download one structure archive per month, analyse the XML
structure of the archives and compare archive contents.

This project models the deterministic logic inside that plumbing and proves
what it does:

- date extraction from file names and the choice of the newest version of each
  file (`FileNames`, `Latest`, `DownloadXmlData`);
- link extraction from XML manifests: a set-based version and a dated version
  that keeps the newest URL per base name (`Xml`, `DownloadXmlData`,
  `ProcessXmlFiles`);
- parsing the year and the month out of a portal URL, and choosing the target
  directory of an archive (`FileNames`, `ProcessXmlFiles`);
- the integrity cache, its batches of 1000 files, and the per-manifest status
  records (`Integrity`, `ProcessingStatus`);
- the downloader of `list.xml` manifests (`DownloadXmlFiles`);
- the month loop of the monthly archive downloader (`DownloadData`);
- the XML-structure analyser, with its `defaultdict` side effects, its merge
  and its stop rule (`AnalyzeXml`);
- the archive-content comparison (`CheckFiles`).

Python values map to Dafny as follows:

- Strings are `seq<char>`.
- `re.search` becomes an explicit leftmost scan: `Common.Leftmost` with one "matches at i" predicate per regular expression.
- A `datetime` at midnight is a `Calendar.Date`, compared field by field. `datetime.min` is `Date(1, 1, 1)`, which is what the code's `datetime.min` is.
- An XML tree is the recursive datatype `Xml.Element`. `findall(".//*")` lists the descendants in document order.

The scripts that build state step by step become methods with loops and classes with `modifies` clauses:

- the dict passes;
- the cache and status tables;
- `process_element` and the merge block;
- the month loop;
- the comparison loops.

Each such method is proved equal to a specification function. The properties are lemmas about those functions.

HTTP, archives and the filesystem are parameters:

- `fetch` tells whether a month's download succeeded.
- `verdict` is an integrity check's answer, or `None` on a timeout or an exception.
- `stat` holds the size and mtime of each file that stats.
- `present` is the set of paths that exist.
- `parse` is the ISO-8601 parser, a partial function to an instant: a nat whose order is the order of the datetimes, with datetime.min as 0.
- A `Transfer` says how a download went.

## Model

| member | source | states |
|---|---|---|
| Calendar.DaysInMonth | download_xml_data.py:278-282 | every month has 28 to 31 days, so `Valid` is the range `datetime(y, m, d)` accepts |
| Calendar.BeforeIsOrdinalLess | download_xml_data.py:312 | the `>` comparison of two valid dates is the comparison of their order-preserving ranks, so dates are totally ordered |
| Calendar.MinDateIsLeast | download_xml_data.py:281-296 | `datetime.min` is valid and no valid date lies before it |
| Common.NatToDecimal | download_data.py:85 | `str(n)` is a non-empty digit string, one digit long exactly when n < 10 |
| Common.DecimalRoundTrip | download_xml_data.py:291-292 | `int(str(n)) == n` |
| Common.Pad2Month | download_data.py:85 | `{:02d}` prints a month as exactly two digits that read back as the month |
| Common.StripLeft | download_xml_data.py:356 | the result is a suffix that starts with a non-space, and everything dropped is whitespace |
| Common.StripRight | download_xml_data.py:356 | the result is a prefix that ends with a non-space, and everything dropped is whitespace |
| Common.Basename | download_xml_data.py:221 | `os.path.basename` holds no '/' and is a suffix of the path |
| Common.BasenameOfJoin | download_xml_data.py:228 | joining a directory with a slash-free name gives that name back as the basename |
| Common.Leftmost | download_xml_data.py:276 | the search position is the first one at which the pattern matches, and None means no position matches |
| FileNames.FirstEightDigits | download_xml_data.py:276 | `re.search(r'(\d{8})')`: the leftmost run of eight digits, or None when there is none |
| FileNames.FirstFourDigits | download_xml_data.py:285 | `re.search(r'(\d{4})')`: the leftmost run of four digits, or None |
| FileNames.MonthGroupLength | download_xml_data.py:286 | a match of `-(\d{1,2})[.-]` at i has a '-', one or two digits (greedy) and a separator |
| FileNames.FirstMonthMatch | download_xml_data.py:286 | the leftmost position where the month pattern matches, or None |
| FileNames.ParseEightDigits | download_xml_data.py:278-282 | `strptime('%Y%m%d')` of eight digits yields only valid dates |
| FileNames.ExtractDateFromFilename | download_xml_data.py:273-296 | the date of a file name is always a valid date (download_xml_files.py holds an identical copy of this parser, modelled by the same function) |
| FileNames.EightDigitRunDecides | download_xml_data.py:276-282 | with an eight-digit run, the leftmost one read as YYYYMMDD is the date when it is a calendar date, else `datetime.min` |
| FileNames.YearMonthFallback | download_xml_data.py:284-296 | with no eight-digit run, a real date needs both the year run and the month match, and it is day 1 of that month |
| FileNames.InvalidMonthGivesMin | download_xml_data.py:288-295 | a month group outside 1..12 gives `datetime.min` |
| FileNames.YearMonthTokenLength | download_xml_data.py:305 | a match of `\d{4}-\d{1,2}` is 6 or 7 characters: four digits, '-', one or two digits |
| FileNames.StripDateTokens | download_xml_data.py:305 | `re.sub(r'\d{8}\|\d{4}-\d{1,2}', '', s)` never lengthens the name |
| FileNames.RemoveSeparators | download_xml_data.py:306 | `re.sub(r'[.-]', '', s)` leaves no '.' or '-' |
| FileNames.StripAfterPlainPrefix | download_xml_data.py:305 | a digit-free prefix passes through the date-token removal unchanged, and an eight-digit token right after it is dropped |
| FileNames.SameArtifactSameKey | download_xml_data.py:304-306 | two versions of one file that differ only in an eight-digit date share a base key, whatever their directories |
| FileNames.NormalizeFilename | download_xml_data.py:364-368 | a name ending in ".xml.xml" loses exactly its last four characters; any other name is unchanged (download_xml_files.py holds an identical copy, modelled by the same function) |
| FileNames.NormalizeRemovesOneDuplicate | download_xml_files.py:28-32 | only one duplicate extension is removed: ".xml.xml.xml" becomes ".xml.xml" |
| FileNames.UrlMonthLength | download_xml_data.py:328 | a match of the URL pattern has the portal prefix and a month group of one or two digits |
| FileNames.ZFill2 | download_xml_data.py:331 | `zfill(2)` of one or two digits is two characters ending with them |
| FileNames.ExtractYearMonthFromUrl | download_xml_data.py:325-333 | the result is a four-digit year and a two-digit month, and it is `(None, None)` exactly when no position matches |
| FileNames.ExtractAt | download_xml_data.py:328-332 | the leftmost match decides the year and the zero-filled month |
| FileNames.YearMonthRoundTrip | download_xml_data.py:325-333 | a URL whose first "/erknm-" starts the portal path built from a four-digit year and a month 1..12 (the host part before it may hold any slashes) reads back as the year and the month printed with `{:02d}` |
| FileNames.YearMonthRoundTripDigits | download_xml_data.py:325-333 | the same for year and month digit strings after any prefix without "/erknm-": the month comes back zero-filled |
| FileNames.NoMatchInPrefix | download_xml_data.py:328 | no match of the URL pattern starts inside a prefix without "/erknm-" that is followed by '/', so the leftmost match is the portal path |
| FileNames.PortalUrlExample | download_xml_data.py:325-333 | the absolute link https://proverki.gov.ru/blob/erknm-opendata/2024/3/data.xml gives ("2024", "03") |
| Latest.WinnerIsFirstMaximal | download_xml_data.py:308-313 | the dict holds a value exactly for the keys that occur, and it is the first item of maximal rank for that key |
| Latest.KeptAtUnique | download_xml_data.py:312-313 | the first maximal item of a key is unique |
| Latest.FirstKeysSpec | download_xml_data.py:315 | the dict's key order lists each key that occurs once, and nothing else |
| Latest.WinnersOfAt | download_xml_data.py:315 | the values are read out in key order, one per key |
| Latest.KeptItemsSpec | download_xml_data.py:298-315 | `list(d.values())`: one item per key in first-occurrence order, each the first item of its key with maximal rank |
| Latest.KeptItemsShape | download_xml_data.py:298-315 | the kept items are input items with pairwise distinct keys, and every key of the input is represented |
| Latest.WinnerConcat | process_xml_files.py:109-136 | after two passes over one dict, the second pass's winner for a key replaces the first's only with a strictly higher rank |
| Latest.DictStep | download_xml_data.py:311-313 | one `if k not in d or rank(x) > rank(d[k])` step keeps the dict equal to the winners of the items seen so far |
| Latest.DictValues | download_xml_data.py:315 | at the end of the pass, `list(d.values())` is the kept-items specification |
| Latest.DictValuesInOrder | download_xml_data.py:315 | reading the dict's values in key order yields exactly the kept items |
| Latest.InsertByPermutes | download_xml_data.py:323 | an insertion step of the sort adds exactly the inserted element |
| Latest.InsertBySorted | download_xml_data.py:323 | inserting into a sorted list keeps it sorted |
| Latest.InsertByStable | download_xml_data.py:323 | inserting never reorders elements of equal rank |
| Latest.SortBySpec | download_xml_data.py:323 | `sorted` with a key is ordered by the key, is a permutation of its input, and keeps equal keys in input order |
| Xml.ChildrenAreDescendants | download_xml_data.py:344-354 | `findall(".//*")` reaches every child |
| Xml.FindChild | process_xml_files.py:99 | `elem.find(tag)` is a direct child with that tag, and it exists exactly when such a child does |
| Xml.FirstWithTag | process_xml_files.py:99 | the found child is the first one with that tag |
| Xml.AttrPass | download_xml_data.py:345-348 | one attribute pass sees exactly the descendants whose attribute is non-empty, with that value |
| Xml.AttrPasses | download_xml_data.py:344-351 | the five attribute passes see exactly the non-empty values of link, href, url, file and source |
| Xml.TextPass | download_xml_data.py:354-357 | the text pass sees exactly the descendants with non-empty text, with the text stripped |
| Xml.LinkCandidatesSpec | download_xml_data.py:335-362 | the candidate strings are exactly the attribute links and the stripped text links of elements below the root |
| DownloadXmlData.PathRankOrder | download_xml_data.py:309-312 | the date comparison of get_unique_latest_files is the rank comparison the dict pass uses |
| DownloadXmlData.GetUniqueLatestFiles | download_xml_data.py:298-315 | the loop over the dict returns the kept-items specification for base keys and path dates |
| DownloadXmlData.KeepIfLater | download_xml_data.py:303-313 | one file of the loop keeps the dict equal to the winners of the files seen so far, with the strictly-later date test |
| DownloadXmlData.UniqueLatestKeys | download_xml_data.py:298-315 | the result holds input files only, one per base key, and at least one for every base key present |
| DownloadXmlData.UniqueLatestDates | download_xml_data.py:308-313 | the file kept for a key has the latest date of that key, and every earlier file of that key is strictly older, so ties keep the first seen |
| DownloadXmlData.SortFilesByDateSpec | download_xml_data.py:317-323 | the sorted list is a permutation of the deduplicated one, newest first by basename date, stable on ties |
| DownloadXmlData.ZipIsNotXsd | download_xml_data.py:347-351 | no link ends with both ".zip" and ".xsd", so the `elif` loses nothing |
| DownloadXmlData.SuffixLinksSpec | download_xml_data.py:347-360 | a link is in a suffix set exactly when some candidate carries it and it has that suffix |
| DownloadXmlData.LinkSetSpec | download_xml_data.py:335-362 | the links with a suffix are exactly the attribute and text links with that suffix |
| DownloadXmlData.SplitLinks | download_xml_data.py:346-361 | the loops produce the ".zip" set and the ".xsd" set of the candidates |
| DownloadXmlData.ExtractLinkSets | download_xml_data.py:335-362 | zip_links (xsd_links) is exactly the attribute values of link/href/url/file/source and the stripped texts ending in ".zip" (".xsd") |
| DownloadXmlData.StripRepeatedSpec | download_xml_data.py:223-227 | the `while` loop peels copies of the extension until the name no longer ends with two, and one copy remains when any was peeled |
| DownloadXmlData.CleanBasenameSpec | download_xml_data.py:221-228 | after both loops the basename ends with neither ".zip.zip" nor ".xml.xml" |
| DownloadXmlData.DownloadTarget | download_xml_data.py:221-228 | the written path is the requested directory joined with the cleaned basename, and its basename has no doubled extension |
| DownloadXmlData.QueueXmlLinks | download_xml_data.py:408-415 | a link is queued exactly when an `item` element carries it, it ends in ".xml", and its normalised basename is not recorded as completed |
| DownloadXmlData.QueuedSpec | download_xml_data.py:408-415 | a link is in the queue exactly when some `item` element carries it and it is wanted, and every queued link ends in ".xml" |
| ProcessingStatus.Entries | download_xml_data.py:577-620 | one entry per linked name, with that name, and the status that `os.path.exists` and the integrity results give it |
| ProcessingStatus.ErrorsOfSpec | download_xml_data.py:577-620 | each entry that is not `exists` adds exactly one error, naming its file, and there are no errors exactly when all entries exist |
| ProcessingStatus.AppendAllSpec | download_xml_data.py:577-620 | a name loop appends its entries to that kind's list and their errors to the error list, and changes nothing else |
| ProcessingStatus.AllExistEntries | download_xml_data.py:577-597 | all entries are `exists` exactly when every linked file is present and passed its integrity check |
| ProcessingStatus.AllExistConcat | download_xml_data.py:622-623 | `all(...)` over appended lists is the conjunction over the parts |
| ProcessingStatus.UpdatedCompletedIff | download_xml_data.py:564-629 | a manifest becomes completed exactly when its stored record had only `exists` entries and no errors, and every file of this run is present and valid |
| ProcessingStatus.UpdatedCounts | download_xml_data.py:577-620 | the record gains one entry per linked file and one error per missing or damaged file |
| ProcessingStatus.IncompleteIsSticky | download_xml_data.py:564-629 | as written, a stored record with an error never becomes completed again |
| ProcessingStatus.RebuiltCompletedIff | download_xml_data.py:564-629 | with a record rebuilt each run, completed means exactly that every file of this run is present and valid |
| ProcessingStatus.StickyExample | download_xml_data.py:564-629 | a ZIP missing on one run and present on the next leaves the record incomplete as written, and completed when rebuilt |
| ProcessingStatus.Keys | download_xml_data.py:566 | one record key per downloaded manifest |
| ProcessingStatus.StatusAfterSpec | download_xml_data.py:564-629 | every downloaded manifest gets a record under its basename, no other record changes, and no handled manifest is left in progress |
| ProcessingStatus.CheckEntry | download_xml_data.py:578-597 | an entry is `exists` exactly when the file is present and its result is true, and `missing` exactly when it is absent |
| ProcessingStatus.AppendEntries | download_xml_data.py:577-620 | the in-place appends of one name loop give the specified record |
| ProcessingStatus.Classify | download_xml_data.py:622-629 | completed exactly when both lists are all `exists` and there are no errors |
| ProcessingStatus.StatusTable.constructor | download_xml_data.py:394-402 | the table starts as the loaded records |
| ProcessingStatus.StatusTable.UpdateRecord | download_xml_data.py:565-629 | one manifest's record is replaced by the specified update, and nothing else changes |
| ProcessingStatus.StatusTable.UpdateStatus | download_xml_data.py:564-629 | the table after the block is the specified fold over the downloaded manifests |
| Integrity.ToCheckSpec | download_xml_data.py:111-130 | a file is re-checked exactly when it stats and its cache entry is missing or differs in size or mtime; the cached count plus the queue length is at most the input length, and equal to it when every file stats |
| Integrity.ToCheckConcat | download_xml_data.py:111-130 | the first pass keeps input order |
| Integrity.RecordSpec | download_xml_data.py:166-180 | each checked file's result is its verdict, or False on a timeout or an error; other results stay |
| Integrity.RememberSpec | download_xml_data.py:169-174 | each check that returned stores its size, mtime and verdict in the cache; other entries stay |
| Integrity.ResultsSpec | download_xml_data.py:92-200 | every file that stats gets a result: the cached verdict when fresh, else the new check's outcome |
| Integrity.CacheAfterSpec | download_xml_data.py:92-200 | the cache afterwards holds the new verdicts of the re-checked files; every other entry is as it was |
| Integrity.RecheckIsStable | download_xml_data.py:92-200 | running the check again on unchanged files gives the same results and leaves the cache unchanged |
| Integrity.RecordConcat | download_xml_data.py:151-188 | recording batch after batch is recording their concatenation |
| Integrity.RememberConcat | download_xml_data.py:151-188 | caching batch after batch is caching their concatenation |
| Integrity.BatchCountSpec | download_xml_data.py:147-148 | `(n + 999) // 1000` is the ceiling of n / 1000 |
| Integrity.BatchesSpec | download_xml_data.py:147-156 | the files to check are cut, in order, into ceil(n / 1000) batches of 1 to 1000 files that together are exactly those files |
| Integrity.FlattenPrefix | download_xml_data.py:152-154 | the first k batches are the first min(1000 k, n) files |
| Integrity.FilterCached | download_xml_data.py:105-130 | the first pass yields the queue, the cached results and the skip count of the specification |
| Integrity.BatchStep | download_xml_data.py:151-188 | processing batch k after the first k batches is processing the first k + 1 |
| Integrity.IntegrityCache.constructor | download_xml_data.py:95-103 | the cache starts as the loaded entries |
| Integrity.IntegrityCache.CheckBatch | download_xml_data.py:158-186 | one batch updates the results and the cache as specified |
| Integrity.IntegrityCache.CheckFilesIntegrity | download_xml_data.py:92-200 | the results, the new cache and the skip count are the specified ones |
| DownloadXmlFiles.SortFilesByDateSpec | download_xml_files.py:59-61 | a permutation of the input (no deduplication), newest first by basename date, stable on ties |
| DownloadXmlFiles.QueueSpec | download_xml_files.py:164-170 | a link is queued exactly when an `item` element carries it and it ends in ".xml" with a normalised basename not recorded as completed |
| DownloadXmlFiles.QueueXmlLinks | download_xml_files.py:164-170 | the loop queues the specified links in document order |
| DownloadXmlFiles.DownloadResult | download_xml_files.py:81-129 | True exactly after a full write, "skip" exactly on a requests exception, and any other exception propagates |
| DownloadXmlFiles.NormalizeTwice | download_xml_files.py:84-85 | normalising a second time changes a name exactly when it ends in ".xml.xml.xml" |
| DownloadXmlFiles.WrittenNameMatchesRecorded | download_xml_files.py:185-196 | the file is written under the recorded basename unless the URL's basename ends in ".xml.xml.xml" |
| DownloadXmlFiles.FirstRaise | download_xml_files.py:184-196 | the loop reaches exactly the transfers before the first one that raises |
| DownloadXmlFiles.StatusKeepsRecords | download_xml_files.py:196-203 | existing records never change; a new key appears only for a successful download with that normalised basename |
| DownloadXmlFiles.StatusNewRecords | download_xml_files.py:196-203 | a new record is completed and holds the first successfully downloaded URL with that name |
| DownloadXmlFiles.DownloadedSpec | download_xml_files.py:191-196 | the recorded paths are exactly those of the successful downloads, in order; a skip adds nothing |
| DownloadXmlFiles.DownloadStep | download_xml_files.py:184-206 | one turn of the loop extends the specified status by at most the current link's record |
| DownloadXmlFiles.DownloadXmlLinks | download_xml_files.py:174-210 | an empty queue returns before the loop; otherwise the loop runs up to the first raising transfer, with the specified downloads and status, and the status is saved exactly when the queue is non-empty and no transfer raised |
| DownloadData.FileNameModes | download_data.py:78-87 | both modes write the same archive name, in `data/248` or in `data`, so the two paths differ |
| DownloadData.Successes | download_data.py:207-212 | the successes never exceed the months visited |
| DownloadData.ScheduleShape | download_data.py:202-218 | no month is visited exactly when the start is after 2025/05; otherwise the first is the start and the last is 2025/05, each follows its predecessor, all are in range |
| DownloadData.ScheduleChronological | download_data.py:214-218 | from a month in 1..12, every visited month is in 1..12 and each is one month after the previous |
| DownloadData.ScheduleCount | download_data.py:193-202 | from a month in 1..12 not after the end, the loop runs exactly `total_files` times |
| DownloadData.StartPastDecember | download_data.py:193-218 | a start month above 12 runs `month - 12` more times than `total_files` |
| DownloadData.RunMonths | download_data.py:189-218 | the loop visits the specified months; `current_file` counts them, `successful + failed == current_file`, and it ends after 2025/05 |
| AnalyzeXml.WalkForestSnoc | analyze_xml.py:49-50 | processing one more child extends the fold by that child |
| AnalyzeXml.Structure.constructor | analyze_xml.py:30-34 | a fresh structure is empty |
| AnalyzeXml.Structure.AddAttributes | analyze_xml.py:41-42 | the attribute names are added under the tag, creating the key only when there is an attribute; nothing else changes |
| AnalyzeXml.Structure.Visit | analyze_xml.py:38-46 | recording one node is the specified step |
| AnalyzeXml.Structure.ProcessElement | analyze_xml.py:36-50 | the recursive in-place walk gives the specified fold over the subtree |
| AnalyzeXml.Structure.ScanAttributes | analyze_xml.py:67-69 | it answers whether some attribute set has a name the total lacks, and its lookups add only empty keys |
| AnalyzeXml.Structure.ScanRelationships | analyze_xml.py:72-74 | it answers whether some child set has a tag the total lacks, and its lookups add only empty keys |
| AnalyzeXml.Structure.HasNewInformation | analyze_xml.py:59-76 | the answer is `HasNew` of the old total; lookups add empty keys but change no content |
| AnalyzeXml.Structure.MergeAttributes | analyze_xml.py:156-157 | the attributes become the key-wise union |
| AnalyzeXml.Structure.MergeRelationships | analyze_xml.py:158-159 | the relationships become the key-wise union |
| AnalyzeXml.Structure.MergeFrom | analyze_xml.py:155-159 | the total becomes the specified merge |
| AnalyzeXml.AnalyzeXmlStructure | analyze_xml.py:24-53 | a fresh structure holding the analysis of the tree |
| AnalyzeXml.WalkElements | analyze_xml.py:36-38 | `elements` gains exactly the tags of the subtree |
| AnalyzeXml.WalkAttributes | analyze_xml.py:41-42 | `attributes[t]` gains exactly the attribute names of the subtree's nodes tagged t |
| AnalyzeXml.WalkRelationships | analyze_xml.py:45-46 | `relationships[p]` gains exactly the child tags under the subtree's nodes tagged p, plus the root's incoming edge |
| AnalyzeXml.NodesAreDocument | analyze_xml.py:49-50 | the walk reaches the root and exactly the descendants of the document |
| AnalyzeXml.AnalyzeSpec | analyze_xml.py:24-53 | for a file: `elements` is exactly its tags, `attributes[t]` exactly the attribute names on nodes tagged t, `relationships[p]` exactly the child tags under nodes tagged p, and the root has no incoming edge |
| AnalyzeXml.RootTagRecorded | analyze_xml.py:38 | a file always records its root tag |
| AnalyzeXml.NoNewIffCovered | analyze_xml.py:59-76 | has_new_information is false exactly when the structure is componentwise a subset of the total |
| AnalyzeXml.Fill | analyze_xml.py:68-73 | the lookups add exactly the looked-up keys, each holding the empty set |
| AnalyzeXml.Union | analyze_xml.py:156-159 | the key-wise union has both key sets and each lookup is the union of the lookups |
| AnalyzeXml.ExtendsKeepsLookups | analyze_xml.py:68-73 | keys added by lookups change no lookup |
| AnalyzeXml.HasNewSameLookups | analyze_xml.py:150 | a total with the same lookups gives the same answer |
| AnalyzeXml.MergeAfterLookups | analyze_xml.py:150-159 | keys inserted by has_new_information vanish into the merge that follows |
| AnalyzeXml.MergeCovers | analyze_xml.py:155-159 | after the merge the total contains its old value and the structure |
| AnalyzeXml.MergeLeast | analyze_xml.py:155-159 | the merge adds nothing beyond them: it is the least such total |
| AnalyzeXml.MergeAbsorbs | analyze_xml.py:150-159 | after the merge, has_new_information of the same structure is false |
| AnalyzeXml.MergeIdempotent | analyze_xml.py:155-159 | merging the same structure again changes nothing |
| AnalyzeXml.AnalyzeArchives | analyze_xml.py:121-167 | the archive loop yields the specified total, counter and number of archives processed |
| AnalyzeXml.AnalyzeArchive | analyze_xml.py:147-162 | the file loop of one archive updates the total and the counter as specified |
| AnalyzeXml.FilesCount | analyze_xml.py:150-151 | the counter grows by at most one per file, and is positive after any file from an empty total |
| AnalyzeXml.FilesNothingNew | analyze_xml.py:147-162 | an archive leaves the counter unchanged exactly when none of its files has new information, and then the total only gains empty keys |
| AnalyzeXml.ArchivesRunToEnd | analyze_xml.py:164-167 | as written, once the counter is positive the loop never breaks off |
| AnalyzeXml.StopRuleNeverFires | analyze_xml.py:164-167 | as written, the stop rule never fires and every archive is analysed |
| AnalyzeXml.PerArchiveStopRule | analyze_xml.py:164-167 | with a per-archive counter, the loop breaks off after an archive exactly when it has at least five files and none brings new information |
| AnalyzeXml.RepeatedArchive | analyze_xml.py:164-167 | five copies of an already merged file stop the corrected loop after two archives, while the loop as written runs through all |
| AnalyzeXml.FirstFileMerged | analyze_xml.py:147-159 | the first file is merged into the empty total and then has nothing new |
| CheckFiles.FileInfoKeys | check_files.py:47-55 | a file is in `file_info` exactly when one of its reads gave a non-empty table |
| CheckFiles.FileInfoValues | check_files.py:47-55 | a file in `file_info` holds the table of its last non-empty read |
| CheckFiles.CollectFileInfo | check_files.py:47-55 | the loop builds the specified `file_info` |
| CheckFiles.DiffersIffDisagree | check_files.py:84-88 | a name is reported exactly when two archives containing it disagree on its size or its CRC |
| CheckFiles.SingleArchiveNeverDiffers | check_files.py:79-88 | a name that only one archive contains is never reported |
| CheckFiles.SizesAndCrcs | check_files.py:76-82 | `sizes` and `crcs` are exactly the values of the archives that contain the name |
| CheckFiles.CollectNames | check_files.py:67-69 | `all_files` is exactly the union of the entry names |
| CheckFiles.Compare | check_files.py:65-99 | the comparison runs exactly when more than one archive was read, and then yields `all_files` and exactly the differing names with their sizes and CRCs |
| ProcessXmlFiles.Subdir | process_xml_files.py:51-57 | `248` exactly when 'xml/248' occurs, `no248` exactly when only 'xml/no248' does, else None |
| ProcessXmlFiles.FirstDataStamp | process_xml_files.py:64 | the leftmost `data-` followed by six digits, or None |
| ProcessXmlFiles.GetTargetDirectory | process_xml_files.py:48-74 | a directory exactly when the source directory names a mode and the file name has a data stamp; then it is `subdir/YYYY-MM` of the first stamp |
| ProcessXmlFiles.TargetOfDataFile | process_xml_files.py:63-71 | an archive named as download_data.py names it goes to the YYYY-MM directory of its year and month |
| ProcessXmlFiles.ReplaceZ | process_xml_files.py:92 | no 'Z' is left, and a string without 'Z' is unchanged |
| ProcessXmlFiles.FirstParsed | process_xml_files.py:89-104 | the first name whose value the parser accepts gives the date, and None means none does |
| ProcessXmlFiles.ElementDate | process_xml_files.py:85-106 | the first date attribute the parser accepts; failing that, the first date child it accepts; failing that, `datetime.min` |
| ProcessXmlFiles.Dated | process_xml_files.py:113-114 | each candidate is paired with the date of the element it was found on |
| ProcessXmlFiles.OfKindSpec | process_xml_files.py:116-136 | an entry goes to a dict exactly when its URL ends with that dict's suffix |
| ProcessXmlFiles.OfKindStep | process_xml_files.py:116-136 | one entry grows its own kind's list and no other |
| ProcessXmlFiles.Urls | process_xml_files.py:139-142 | the URL list of the entries, position by position |
| ProcessXmlFiles.UrlsInsertBy | process_xml_files.py:139-142 | inserting an entry by date adds exactly its URL to the multiset of URLs |
| ProcessXmlFiles.UrlsSortBy | process_xml_files.py:139-142 | sorting the entries by date leaves the multiset of their URLs unchanged |
| ProcessXmlFiles.Offer | process_xml_files.py:117-118 | one `if filename not in d or date > d[filename]['date']` step keeps the dict as specified |
| ProcessXmlFiles.Route | process_xml_files.py:116-121 | a candidate goes to the `.zip` dict, else to the `.xsd` dict, else to neither, and both dicts stay as specified |
| ProcessXmlFiles.KeepLatest | process_xml_files.py:109-136 | both dicts hold the kept entries of their kind |
| ProcessXmlFiles.ExtractDatedLinks | process_xml_files.py:76-144 | the two URL lists are the specified date-sorted kept URLs |
| ProcessXmlFiles.EntriesComeFromCandidates | process_xml_files.py:109-136 | every dict entry pairs a candidate string of that suffix with the date of its element |
| ProcessXmlFiles.KeptOnePerName | process_xml_files.py:116-136 | at most one URL per base name and kind is kept, and every base name is represented |
| ProcessXmlFiles.KeptHasLatestDate | process_xml_files.py:117-118 | the kept entry has the latest date of its name, and an equal date never replaces an earlier entry |
| ProcessXmlFiles.TextPassNeedsLaterDate | process_xml_files.py:109-136 | a text link replaces an attribute link only with a strictly later date |
| ProcessXmlFiles.DatedLinksSorted | process_xml_files.py:139-142 | the returned list is in non-decreasing date order and is a permutation of the kept URLs |

## Left out

- HTTP: sessions, retries, streamed GETs, HEAD requests and the 502 handling. A download's outcome is a parameter (`fetch`, `Transfer`, the outcome of each call).
- The `zipfile` calls: integrity checks, entry tables and extraction. An archive's validity is the `verdict` parameter, and an entry table is given as `Option<Contents>`.
- The MD5 hash of check_files.py.
- The `signal.alarm` timeout. A timeout is a `verdict` of None.
- The thread pool of check_files_integrity. A batch is a sequential fold in input order, and the results do not depend on the completion order.
- JSON persistence of the status and cache files. The tables start from the loaded value. A JSON decode error, which gives an empty table, is the empty map.
- The filesystem: `os.stat`, `os.path.exists`, `os.makedirs`, `os.walk`, `rglob` and temporary directories. They are the `stat` and `present` parameters, files given as lists, and archives given as parsed trees.
- The order of set iteration (`all_zip_links`, `all_xsd_links`) and the size order of archives and XML files: each is a given sequence.
- ISO-8601 parsing: `datetime.fromisoformat` is the `parse` parameter, a partial function to an instant (a nat whose order is the order of the datetimes, with datetime.min as 0). The `TypeError` that comparing a naive with an aware datetime raises is not modelled.
- FileNames.FirstEightDigits: `\d` matches only ASCII digits; Python's `\d` also matches other Unicode decimal digits.
- XML parse errors and the exception handlers of process_list_xml, apart from the early end of the download loop in download_xml_files.py.
- The re-download recursion of download_data.py's download_file. It has no termination argument. The month loop takes each month's outcome as given.
- The KeyboardInterrupt handler of download_data.py.
- Partial writes: a transfer writes the whole file or raises.
- DownloadXmlFiles.NewRecord: `downloaded_at` (`datetime.now()`) is not part of the record.
- ProcessXmlFiles.KeepLatest: the two loops of the source (the attribute pass, then the text pass) are one loop over the attribute candidates followed by the text candidates. The dates are computed up front (`Dated`). This is the same sequence of dict steps.
- The ZIP and XSD download loops and the `latest_zip_urls` collection of download_xml_data.py's process_list_xml. They are HTTP and filesystem plumbing around the modelled status block and integrity check.
- `save_results` of analyze_xml.py, and its conversion of sets to lists.
- The `existing_files` filter of check_files.py. The model starts from the files that exist.
- Duplicate entry names inside one archive: an entry table is a map, so the last entry wins as in the source's dict.
- check_archives_size.py: filesystem walking, zipfile sizes and floating-point ratios.
- tqdm progress bars, prints and `time.sleep`.

## Findings

| source | as written | input that shows it | evidently intended | confidence | as-written member | corrected member |
|---|---|---|---|---|---|---|
| download_xml_data.py:564-629 | the status block appends this run's entries and errors to the stored record, so old errors stay and a manifest once incomplete can never become completed | a record with errors `[ZipMissing("a.zip")]` from an earlier run, and "a.zip" present and valid now | the verdict describes this run's files: completed exactly when every linked file is present and valid | not executed | ProcessingStatus.IncompleteIsSticky | ProcessingStatus.RebuiltCompletedIff |
| analyze_xml.py:150-151,164-167 | the stop rule tests `files_with_new_info`, the counter of the whole run; the first XML file always has new information for the empty total, so the counter is positive and the rule never fires | archives `[[r], [r, r, r, r, r], ...]`: the second archive adds nothing, yet every following archive is still analysed | stop after an archive of at least five files none of which added new information (the comment: "the last 5 files added no new information") | not executed | AnalyzeXml.StopRuleNeverFires | AnalyzeXml.PerArchiveStopRule |

The first finding is about the status rule given the integrity verdicts, and the model leaves `verdict` unconstrained. In the source as configured the verdicts of ZIP files are never true: check_files_integrity runs check_zip_integrity in ThreadPoolExecutor workers (download_xml_data.py:154-156), where `signal.signal` (download_xml_data.py:59) raises ValueError outside the main thread, and the `except Exception` branch (download_xml_data.py:87-90) returns False. A manifest with ZIP links therefore never reaches completed under either rule. XSD files are not affected, because check_zip_integrity returns True for names that do not end in ".zip" (download_xml_data.py:34-35).
