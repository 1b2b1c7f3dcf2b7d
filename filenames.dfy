/**
 * The file-name parsers shared by the two list.xml drivers (download_xml_data.py
 * and download_xml_files.py, whose copies of these helpers are identical):
 * the date hidden in a file name, the date-free key used to recognise versions
 * of the same file, the ".xml.xml" normalisation, and the year/month path of a
 * portal URL. Each regular expression is written out as a "matches at i"
 * predicate and searched for with Common.Leftmost, as re.search does.
 */
module FileNames {
  import opened Common
  import opened Calendar

  // ---------------------------------------------------------------------
  // Digit runs
  // ---------------------------------------------------------------------

  /** `\d{n}` matches at position i. */
  predicate DigitsAt(s: string, i: int, n: nat) {
    0 <= i && i + n <= |s| && forall k :: i <= k < i + n ==> IsDigit(s[k])
  }

  /** The `[.-]` character class. */
  predicate IsSep(c: char) {
    c == '.' || c == '-'
  }

  function FirstEightDigits(s: string): (r: Option<int>)
    ensures r.Some? ==> DigitsAt(s, r.value, 8)
    ensures r.Some? ==> forall j :: 0 <= j < r.value ==> !DigitsAt(s, j, 8)
    ensures r.None? ==> forall j :: 0 <= j <= |s| ==> !DigitsAt(s, j, 8)
  {
    var at := i => DigitsAt(s, i, 8);
    assert forall j :: at(j) <==> DigitsAt(s, j, 8);
    Leftmost(|s|, at, 0)
  }

  function FirstFourDigits(s: string): (r: Option<int>)
    ensures r.Some? ==> DigitsAt(s, r.value, 4)
    ensures r.Some? ==> forall j :: 0 <= j < r.value ==> !DigitsAt(s, j, 4)
    ensures r.None? ==> forall j :: 0 <= j <= |s| ==> !DigitsAt(s, j, 4)
  {
    var at := i => DigitsAt(s, i, 4);
    assert forall j :: at(j) <==> DigitsAt(s, j, 4);
    Leftmost(|s|, at, 0)
  }

  /**
   * Length of the `\d{1,2}` group of `-(\d{1,2})[.-]` when the pattern matches at i,
   * else 0. The quantifier is greedy: two digits are tried first, then one.
   */
  function MonthGroupLength(s: string, i: int): (n: nat)
    ensures n <= 2
    ensures n > 0 ==> 0 <= i && i + n + 2 <= |s| && s[i] == '-' && DigitsAt(s, i + 1, n) && IsSep(s[i + 1 + n])
  {
    if 0 <= i && i < |s| && s[i] == '-' then
      if DigitsAt(s, i + 1, 2) && i + 3 < |s| && IsSep(s[i + 3]) then 2
      else if DigitsAt(s, i + 1, 1) && i + 2 < |s| && IsSep(s[i + 2]) then 1
      else 0
    else 0
  }

  function FirstMonthMatch(s: string): (r: Option<int>)
    ensures r.Some? ==> MonthGroupLength(s, r.value) > 0
    ensures r.Some? ==> forall j :: 0 <= j < r.value ==> MonthGroupLength(s, j) == 0
    ensures r.None? ==> forall j :: 0 <= j <= |s| ==> MonthGroupLength(s, j) == 0
  {
    var at := i => MonthGroupLength(s, i) > 0;
    assert forall j :: at(j) <==> MonthGroupLength(s, j) > 0;
    Leftmost(|s|, at, 0)
  }

  // ---------------------------------------------------------------------
  // extract_date_from_filename
  // ---------------------------------------------------------------------

  /**
   * datetime.strptime(d, '%Y%m%d') for a string of eight ASCII digits. With exactly
   * eight characters to fill four-digit %Y, the month and the day must take two
   * digits each; the value is accepted when it is a calendar date.
   */
  function ParseEightDigits(d: string): (r: Option<Date>)
    requires |d| == 8 && AllDigits(d)
    ensures r.Some? ==> Valid(r.value)
  {
    var date := Date(DigitsValue(d[..4]), DigitsValue(d[4..6]), DigitsValue(d[6..]));
    if Valid(date) then Some(date) else None
  }

  /** The date a file name carries, datetime.min when it carries none. */
  function ExtractDateFromFilename(name: string): (r: Date)
    ensures Valid(r)
  {
    match FirstEightDigits(name)
    case Some(i) =>
      (match ParseEightDigits(name[i..i + 8])
       case Some(d) => d
       case None => MinDate)
    case None =>
      match (FirstFourDigits(name), FirstMonthMatch(name))
      case (Some(y), Some(m)) =>
        var date := Date(DigitsValue(name[y..y + 4]), DigitsValue(name[m + 1..m + 1 + MonthGroupLength(name, m)]), 1);
        if Valid(date) then date else MinDate
      case _ => MinDate
  }

  /** An eight-digit run decides the date: its leftmost occurrence, read as YYYYMMDD, or datetime.min. */
  lemma EightDigitRunDecides(name: string, i: int)
    requires DigitsAt(name, i, 8)
    requires forall j :: 0 <= j < i ==> !DigitsAt(name, j, 8)
    ensures var date := Date(DigitsValue(name[i..i + 4]), DigitsValue(name[i + 4..i + 6]), DigitsValue(name[i + 6..i + 8]));
      ExtractDateFromFilename(name) == if Valid(date) then date else MinDate
  {
    assert FirstEightDigits(name) == Some(i);
    EightDigitParts(name, i);
  }

  /** The year, month and day fields of an eight-character window. */
  lemma EightDigitParts(name: string, i: int)
    requires 0 <= i && i + 8 <= |name|
    ensures name[i..i + 8][..4] == name[i..i + 4]
    ensures name[i..i + 8][4..6] == name[i + 4..i + 6]
    ensures name[i..i + 8][6..] == name[i + 6..i + 8]
  {
    var d := name[i..i + 8];
    assert forall k :: 0 <= k < 8 ==> d[k] == name[i + k];
  }

  /**
   * Without an eight-digit run, a real date needs both the year run and the month
   * match, and it is the first day of that month; otherwise datetime.min.
   */
  lemma YearMonthFallback(name: string)
    requires FirstEightDigits(name).None?
    ensures ExtractDateFromFilename(name) != MinDate ==>
      && FirstFourDigits(name).Some? && FirstMonthMatch(name).Some?
      && ExtractDateFromFilename(name).day == 1
    ensures FirstFourDigits(name).None? || FirstMonthMatch(name).None? ==> ExtractDateFromFilename(name) == MinDate
    ensures (FirstFourDigits(name).Some? && FirstMonthMatch(name).Some?) ==>
      var y := FirstFourDigits(name).value;
      var m := FirstMonthMatch(name).value;
      var date := Date(DigitsValue(name[y..y + 4]), DigitsValue(name[m + 1..m + 1 + MonthGroupLength(name, m)]), 1);
      ExtractDateFromFilename(name) == if Valid(date) then date else MinDate
  {
  }

  /** A month group outside 1..12 (such as "-13." or "-0-") always gives datetime.min. */
  lemma InvalidMonthGivesMin(name: string)
    requires FirstEightDigits(name).None?
    requires FirstMonthMatch(name).Some?
    requires var m := FirstMonthMatch(name).value;
      DigitsValue(name[m + 1..m + 1 + MonthGroupLength(name, m)]) !in {1, 2, 3, 4, 5, 6, 7, 8, 9, 10, 11, 12}
    ensures ExtractDateFromFilename(name) == MinDate
  {
  }

  // ---------------------------------------------------------------------
  // The date-free base key of get_unique_latest_files
  // ---------------------------------------------------------------------

  /** Length of a `\d{4}-\d{1,2}` match at position i (greedy), or 0. */
  function YearMonthTokenLength(s: string, i: int): (n: nat)
    ensures n == 0 || n == 6 || n == 7
    ensures n > 0 ==> DigitsAt(s, i, 4) && i + 4 < |s| && s[i + 4] == '-' && DigitsAt(s, i + 5, n - 5)
  {
    if DigitsAt(s, i, 4) && i + 5 < |s| && s[i + 4] == '-' && IsDigit(s[i + 5]) then
      if i + 6 < |s| && IsDigit(s[i + 6]) then 7 else 6
    else 0
  }

  /**
   * re.sub(r'\d{8}|\d{4}-\d{1,2}', '', s): scanning left to right, each match is
   * dropped and scanning resumes after it; the first alternative is tried first.
   */
  function StripDateTokens(s: string): (r: string)
    ensures |r| <= |s|
    decreases |s|
  {
    if s == [] then []
    else if DigitsAt(s, 0, 8) then StripDateTokens(s[8..])
    else if YearMonthTokenLength(s, 0) > 0 then StripDateTokens(s[YearMonthTokenLength(s, 0)..])
    else [s[0]] + StripDateTokens(s[1..])
  }

  /** re.sub(r'[.-]', '', s). */
  function RemoveSeparators(s: string): (r: string)
    ensures forall i :: 0 <= i < |r| ==> !IsSep(r[i])
    ensures |r| <= |s|
  {
    if s == [] then [] else (if IsSep(s[0]) then [] else [s[0]]) + RemoveSeparators(s[1..])
  }

  /** The key under which get_unique_latest_files keeps one version of a file. */
  function BaseKey(file: string): string {
    RemoveSeparators(StripDateTokens(Basename(file)))
  }

  predicate NoDigits(s: string) {
    forall i :: 0 <= i < |s| ==> !IsDigit(s[i])
  }

  /** A digit-free prefix passes through the scan untouched, and an eight-digit token right after it is dropped. */
  lemma {:induction false} StripAfterPlainPrefix(p: string, d: string, q: string)
    requires NoDigits(p)
    requires |d| == 8 && AllDigits(d)
    ensures StripDateTokens(p + d + q) == p + StripDateTokens(q)
    decreases |p|
  {
    if p == [] {
      assert p + d + q == d + q;
      StripEightDigits(d, q);
    } else {
      var t := p[1..] + d + q;
      ConsSplit(p, d, q);
      StripAfterPlainPrefix(p[1..], d, q);
      StripPlainChar(p[0], t);
      ConsAppend(p, StripDateTokens(q));
    }
  }

  lemma ConsAppend(p: string, z: string)
    requires p != []
    ensures p + z == [p[0]] + (p[1..] + z)
  {
    assert p == [p[0]] + p[1..];
  }

  /** A digit-free sequence is its first character followed by a digit-free rest. */
  lemma ConsSplit(p: string, d: string, q: string)
    requires p != [] && NoDigits(p)
    ensures !IsDigit(p[0]) && NoDigits(p[1..])
    ensures p + d + q == [p[0]] + (p[1..] + d + q)
  {
    assert forall k :: 0 <= k < |p[1..]| ==> p[1..][k] == p[k + 1];
    assert p == [p[0]] + p[1..];
  }

  /** A character that is not a digit starts no match and is kept. */
  lemma StripPlainChar(c: char, t: string)
    requires !IsDigit(c)
    ensures StripDateTokens([c] + t) == [c] + StripDateTokens(t)
  {
    var s := [c] + t;
    assert s[0] == c;
    assert !DigitsAt(s, 0, 8);
    assert YearMonthTokenLength(s, 0) == 0;
    assert s[1..] == t;
  }

  /** Eight digits in front are one match, dropped whole. */
  lemma StripEightDigits(d: string, q: string)
    requires |d| == 8 && AllDigits(d)
    ensures StripDateTokens(d + q) == StripDateTokens(q)
  {
    var s := d + q;
    assert forall k :: 0 <= k < 8 ==> s[k] == d[k];
    assert DigitsAt(s, 0, 8);
    assert s[8..] == q;
  }

  lemma {:induction false} StripPlain(p: string)
    requires NoDigits(p)
    ensures StripDateTokens(p) == p
    decreases |p|
  {
    if p != [] {
      assert !IsDigit(p[0]);
      assert !DigitsAt(p, 0, 8) && YearMonthTokenLength(p, 0) == 0;
      StripPlain(p[1..]);
      assert p == [p[0]] + p[1..];
    }
  }

  predicate NoSlash(s: string) {
    forall i :: 0 <= i < |s| ==> s[i] != '/'
  }

  lemma NoSlashConcat(a: string, b: string)
    requires NoSlash(a) && NoSlash(b)
    ensures NoSlash(a + b)
  {
    forall i | 0 <= i < |a + b| ensures (a + b)[i] != '/' {
      if i >= |a| {
        assert (a + b)[i] == b[i - |a|];
      }
    }
  }

  /**
   * Two versions of one publication whose names differ only in an eight-digit
   * date token share a base key, wherever they are stored.
   */
  lemma SameArtifactSameKey(dir1: string, dir2: string, p: string, d1: string, d2: string, q: string)
    requires NoDigits(p) && NoSlash(p) && NoSlash(q)
    requires |d1| == 8 && AllDigits(d1) && |d2| == 8 && AllDigits(d2)
    ensures BaseKey(Join(dir1, p + d1 + q)) == BaseKey(Join(dir2, p + d2 + q))
  {
    assert NoSlash(d1) && NoSlash(d2);
    NoSlashConcat(p, d1);
    NoSlashConcat(p + d1, q);
    NoSlashConcat(p, d2);
    NoSlashConcat(p + d2, q);
    BasenameOfJoin(dir1, p + d1 + q);
    BasenameOfJoin(dir2, p + d2 + q);
    StripAfterPlainPrefix(p, d1, q);
    StripAfterPlainPrefix(p, d2, q);
  }

  // ---------------------------------------------------------------------
  // normalize_filename
  // ---------------------------------------------------------------------

  /** Drops one ".xml" from a name ending in ".xml.xml"; any other name is unchanged. */
  function NormalizeFilename(name: string): (r: string)
    ensures |r| <= |name| && r == name[..|r|]
    ensures EndsWith(name, ".xml.xml") ==> |r| == |name| - 4 && EndsWith(r, ".xml")
    ensures !EndsWith(name, ".xml.xml") ==> r == name
  {
    if EndsWith(name, ".xml.xml") then
      var r := name[..|name| - 4];
      assert r[|r| - 4..] == name[|name| - 8..][..4];
      r
    else name
  }

  /** Normalisation removes a single duplicate only: a triple extension keeps a double one. */
  lemma NormalizeRemovesOneDuplicate(stem: string)
    ensures NormalizeFilename(stem + ".xml.xml.xml") == stem + ".xml.xml"
  {
    var s := stem + ".xml.xml.xml";
    assert s[|s| - 8..] == ".xml.xml";
    assert s[..|s| - 4] == stem + ".xml.xml";
  }

  // ---------------------------------------------------------------------
  // extract_year_month_from_url
  // ---------------------------------------------------------------------

  /** Where the year starts when `/erknm-(?:plan|opendata)/` occurs at i. */
  function PrefixEnd(url: string, i: int): (r: Option<nat>)
    ensures r.Some? ==> 0 <= i < r.value <= |url|
  {
    if OccursAt(url, i, "/erknm-plan/") then Some(i + 12)
    else if OccursAt(url, i, "/erknm-opendata/") then Some(i + 16)
    else None
  }

  /** Length of the month group of `/erknm-(?:plan|opendata)/(\d{4})/(\d{1,2})/` at i, 0 when it does not match. */
  function UrlMonthLength(url: string, i: int): (n: nat)
    ensures n <= 2
    ensures n > 0 ==> PrefixEnd(url, i).Some?
  {
    match PrefixEnd(url, i)
    case None => 0
    case Some(j) =>
      if DigitsAt(url, j, 4) && j + 4 < |url| && url[j + 4] == '/' then
        if DigitsAt(url, j + 5, 2) && j + 7 < |url| && url[j + 7] == '/' then 2
        else if DigitsAt(url, j + 5, 1) && j + 6 < |url| && url[j + 6] == '/' then 1
        else 0
      else 0
  }

  /** The positions where the pattern matches. */
  function MonthMatch(url: string): int -> bool {
    i => UrlMonthLength(url, i) > 0
  }

  /** str.zfill(2) for a string of one or two digits. */
  function ZFill2(m: string): (r: string)
    requires 1 <= |m| <= 2
    ensures |r| == 2 && EndsWith(r, m)
    ensures AllDigits(m) ==> AllDigits(r)
  {
    if |m| == 1 then "0" + m else m
  }

  /** The leftmost position where the URL pattern matches. */
  function FirstUrlMatch(url: string): (r: Option<nat>)
    ensures r.Some? ==> r.value <= |url| && UrlMonthLength(url, r.value) > 0
    ensures r.Some? ==> forall j :: 0 <= j < r.value ==> UrlMonthLength(url, j) == 0
    ensures r.None? ==> forall j :: 0 <= j <= |url| ==> UrlMonthLength(url, j) == 0
  {
    match Leftmost(|url|, MonthMatch(url), 0)
    case None =>
      NoMonthMatch(url, |url| + 1);
      None
    case Some(i) =>
      MonthMatchAt(url, i);
      NoMonthMatch(url, i);
      Some(i)
  }

  /** The year group at j and the zero-filled month group of n digits after it. */
  function YearMonthAt(url: string, j: nat, n: nat): (r: (string, string))
    requires j + 5 + n <= |url| && 1 <= n <= 2
    requires AllDigits(url[j..j + 4]) && AllDigits(url[j + 5..j + 5 + n])
    ensures |r.0| == 4 && AllDigits(r.0) && |r.1| == 2 && AllDigits(r.1)
  {
    (url[j..j + 4], ZFill2(url[j + 5..j + 5 + n]))
  }

  /** The year and the zero-padded month of the first `/erknm-plan|opendata/YYYY/M[M]/` in url, or (None, None). */
  function ExtractYearMonthFromUrl(url: string): (r: Option<(string, string)>)
    ensures r.Some? ==> |r.value.0| == 4 && AllDigits(r.value.0) && |r.value.1| == 2 && AllDigits(r.value.1)
    ensures r.None? <==> forall i :: 0 <= i <= |url| ==> UrlMonthLength(url, i) == 0
  {
    match FirstUrlMatch(url)
    case None => None
    case Some(i) =>
      MonthGroups(url, i);
      Some(YearMonthAt(url, PrefixEnd(url, i).value, UrlMonthLength(url, i)))
  }

  lemma NoMonthMatch(url: string, n: int)
    requires forall j :: 0 <= j < n ==> !MonthMatch(url)(j)
    ensures forall j :: 0 <= j < n ==> UrlMonthLength(url, j) == 0
  {
    forall j | 0 <= j < n ensures UrlMonthLength(url, j) == 0 {
      assert !MonthMatch(url)(j);
    }
  }

  lemma MonthMatchAt(url: string, i: int)
    requires MonthMatch(url)(i)
    ensures UrlMonthLength(url, i) > 0
  {
  }

  /** Where the pattern matches, its year group is four digits and its month group one or two. */
  lemma MonthGroups(url: string, i: int)
    requires UrlMonthLength(url, i) > 0
    ensures var j := PrefixEnd(url, i).value;
      var n := UrlMonthLength(url, i);
      && j + 5 + n <= |url|
      && |url[j..j + 4]| == 4
      && AllDigits(url[j..j + 4])
      && AllDigits(url[j + 5..j + 5 + n])
  {
    var j := PrefixEnd(url, i).value;
    var n := UrlMonthLength(url, i);
    var month := url[j + 5..j + 5 + n];
    assert forall k :: 0 <= k < |month| ==> month[k] == url[j + 5 + k];
  }

  /**
   * No match of the URL pattern starts inside a prefix that has no "/erknm-" of its
   * own and is followed by a slash: a start that would fit inside the prefix lacks
   * "/erknm-", and any later start meets that slash where "/erknm-" has none.
   */
  lemma NoMatchInPrefix(p: string, rest: string)
    requires !Contains(p, "/erknm-")
    requires rest != [] && rest[0] == '/'
    ensures forall k :: 0 <= k < |p| ==> UrlMonthLength(p + rest, k) == 0
  {
    var url := p + rest;
    forall k | 0 <= k < |p| ensures UrlMonthLength(url, k) == 0 {
      NoStemAt(p, rest, k);
      if OccursAt(url, k, "/erknm-plan/") {
        StemOf(url, k, "/erknm-plan/");
      }
      if OccursAt(url, k, "/erknm-opendata/") {
        StemOf(url, k, "/erknm-opendata/");
      }
    }
  }

  /** No match starts before the portal path that follows p. */
  lemma NoMatchBeforePath(p: string, plan: bool, rest: string)
    requires !Contains(p, "/erknm-")
    ensures var pre := if plan then "/erknm-plan/" else "/erknm-opendata/";
      forall k :: 0 <= k < |p| ==> UrlMonthLength(p + pre + rest, k) == 0
  {
    var pre := if plan then "/erknm-plan/" else "/erknm-opendata/";
    assert (pre + rest)[0] == '/';
    NoMatchInPrefix(p, pre + rest);
    assert p + (pre + rest) == p + pre + rest;
  }

  /** The start of the prefix case: "/erknm-" does not occur at k in p + rest. */
  lemma NoStemAt(p: string, rest: string, k: int)
    requires !Contains(p, "/erknm-")
    requires rest != [] && rest[0] == '/'
    requires 0 <= k < |p|
    ensures !OccursAt(p + rest, k, "/erknm-")
  {
    var url := p + rest;
    if k + 7 <= |p| {
      assert url[k..k + 7] == p[k..k + 7];
      if OccursAt(p, k, "/erknm-") {
        assert Contains(p, "/erknm-");
      }
    } else {
      var d := |p| - k;
      assert url[k + d] == rest[0];
      NotOccursAtOffset(url, k, "/erknm-", d);
    }
  }

  /** Both prefixes of the URL pattern begin with "/erknm-". */
  lemma StemOf(s: string, k: int, pat: string)
    requires |pat| >= 7 && pat[..7] == "/erknm-" && OccursAt(s, k, pat)
    ensures OccursAt(s, k, "/erknm-")
  {
    assert s[k..k + 7] == s[k..k + |pat|][..7];
  }

  /** A pattern does not occur where its first character is missing. */
  lemma NotOccursAt(s: string, i: int, pat: string)
    requires |pat| > 0 && 0 <= i < |s| && s[i] != pat[0]
    ensures !OccursAt(s, i, pat)
  {
    NotOccursAtOffset(s, i, pat, 0);
  }

  /** A pattern does not occur at i when the character d places further differs from its d-th. */
  lemma NotOccursAtOffset(s: string, i: int, pat: string, d: int)
    requires 0 <= d < |pat| && 0 <= i && i + d < |s| && s[i + d] != pat[d]
    ensures !OccursAt(s, i, pat)
  {
    if i + |pat| <= |s| {
      assert s[i..i + |pat|][d] == s[i + d];
    }
  }

  lemma PrefixEndAt(p: string, plan: bool, rest: string)
    ensures var pre := if plan then "/erknm-plan/" else "/erknm-opendata/";
      PrefixEnd(p + pre + rest, |p|) == Some(|p| + |pre|)
  {
    var pre := if plan then "/erknm-plan/" else "/erknm-opendata/";
    var url := p + pre + rest;
    var i := |p|;
    assert url[i..i + |pre|] == pre;
    if !plan {
      assert url[i + 7] == url[i..i + |pre|][7] == 'o';
      NotOccursAtOffset(url, i, "/erknm-plan/", 7);
    }
  }

  /** After the prefix, four digits, '/', the month digits and '/' give a match whose month group is those digits. */
  lemma MonthGroupAfterPrefix(url: string, i: int, j: int, ys: string, ms: string, q: string)
    requires PrefixEnd(url, i) == Some(j)
    requires |ys| == 4 && AllDigits(ys) && 1 <= |ms| <= 2 && AllDigits(ms)
    requires url[j..] == ys + "/" + ms + "/" + q
    ensures UrlMonthLength(url, i) == |ms|
    ensures url[j..j + 4] == ys && url[j + 5..j + 5 + |ms|] == ms
  {
    var rest := ys + "/" + ms + "/" + q;
    assert forall k :: 0 <= k < |rest| ==> url[j + k] == rest[k];
    assert forall k :: 0 <= k < 4 ==> url[j + k] == ys[k];
    assert url[j + 4] == '/';
    assert forall k :: 0 <= k < |ms| ==> url[j + 5 + k] == ms[k];
    assert url[j + 5 + |ms|] == '/';
    if |ms| == 1 {
      assert !IsDigit(url[j + 6]);
    }
  }

  /** The leftmost match decides the result. */
  lemma ExtractAt(url: string, i: int, j: int, ys: string, ms: string)
    requires 0 <= i <= |url| && UrlMonthLength(url, i) > 0 && PrefixEnd(url, i) == Some(j)
    requires forall k :: 0 <= k < i ==> UrlMonthLength(url, k) == 0
    requires UrlMonthLength(url, i) == |ms| && j + 5 + |ms| <= |url|
    requires url[j..j + 4] == ys && url[j + 5..j + 5 + |ms|] == ms
    ensures ExtractYearMonthFromUrl(url) == Some((ys, ZFill2(ms)))
  {
    LeftmostIs(|url|, MonthMatch(url), 0, i);
    assert FirstUrlMatch(url) == Some(i);
  }

  /**
   * A URL whose first "/erknm-" is the portal path with a four-digit year and a one-
   * or two-digit month reads back as that year and the month zero-filled.
   */
  lemma YearMonthRoundTripDigits(p: string, plan: bool, ys: string, ms: string, q: string)
    requires !Contains(p, "/erknm-")
    requires |ys| == 4 && AllDigits(ys) && 1 <= |ms| <= 2 && AllDigits(ms)
    ensures var url := p + (if plan then "/erknm-plan/" else "/erknm-opendata/") + (ys + "/" + ms + "/" + q);
      ExtractYearMonthFromUrl(url) == Some((ys, ZFill2(ms)))
  {
    var pre := if plan then "/erknm-plan/" else "/erknm-opendata/";
    var rest := ys + "/" + ms + "/" + q;
    var url := p + pre + rest;
    var i := |p|;
    var j := i + |pre|;
    PrefixEndAt(p, plan, rest);
    assert url[j..] == rest;
    MonthGroupAfterPrefix(url, i, j, ys, ms, q);
    NoMatchBeforePath(p, plan, rest);
    ExtractAt(url, i, j, ys, ms);
  }

  /** The same for a year and a month number printed with str(): the month comes back as "{:02d}" prints it. */
  lemma YearMonthRoundTrip(p: string, plan: bool, y: int, m: int, q: string)
    requires !Contains(p, "/erknm-")
    requires 1000 <= y <= 9999 && 1 <= m <= 12
    ensures var url := p + (if plan then "/erknm-plan/" else "/erknm-opendata/") + (NatToDecimal(y) + "/" + IntToDecimal(m) + "/" + q);
      ExtractYearMonthFromUrl(url) == Some((NatToDecimal(y), Pad2(m)))
  {
    FourDigitDecimal(y);
    var ms := IntToDecimal(m);
    assert |ms| == 1 || |ms| == 2;
    YearMonthRoundTripDigits(p, plan, NatToDecimal(y), ms, q);
    if m < 10 {
      assert Pad2(m) == "0" + ms;
    }
  }

  /**
   * An absolute link of the portal,
   * https://proverki.gov.ru/blob/erknm-opendata/2024/3/data.xml: the host part
   * before "/erknm-" holds slashes of its own.
   */
  lemma PortalUrlExample()
    ensures ExtractYearMonthFromUrl("https://proverki.gov.ru/blob" + "/erknm-opendata/" + ("2024" + "/" + "3" + "/" + "data.xml"))
      == Some(("2024", "03"))
  {
    var p := "https://proverki.gov.ru/blob";
    forall k | 0 <= k <= |p| ensures !OccursAt(p, k, "/erknm-") {
      if k + 7 <= |p| {
        NotOccursAtOffset(p, k, "/erknm-", if p[k] == '/' then 1 else 0);
      }
    }
    YearMonthRoundTripDigits(p, false, "2024", "3", "data.xml");
    assert ZFill2("3") == "03";
  }
}
