/**
 * Shared vocabulary of the download scripts: an Option type, the handful of
 * Python string and path operations the scripts rely on (str.endswith, `in`,
 * str.strip, os.path.basename / dirname / join, int and "%02d" formatting),
 * and a leftmost-match search that the regular-expression scans are built on.
 */
module Common {

  datatype Option<+T> = None | Some(value: T)

  // ---------------------------------------------------------------------
  // Characters and digit strings
  // ---------------------------------------------------------------------

  /** `\d` restricted to the ASCII digits. */
  predicate IsDigit(c: char) {
    '0' <= c <= '9'
  }

  predicate AllDigits(s: string) {
    forall i :: 0 <= i < |s| ==> IsDigit(s[i])
  }

  function DigitValue(c: char): (r: nat)
    requires IsDigit(c)
    ensures r < 10
  {
    (c as int - '0' as int)
  }

  function DigitChar(d: nat): (c: char)
    requires d < 10
    ensures IsDigit(c) && DigitValue(c) == d
  {
    ('0' as int + d) as char
  }

  /** int() of a string of ASCII digits, read most significant digit first. */
  function DigitsValue(s: string): nat
    requires AllDigits(s)
  {
    if s == [] then 0 else DigitsValue(s[..|s| - 1]) * 10 + DigitValue(s[|s| - 1])
  }

  /** str(n) for a natural number. */
  function NatToDecimal(n: nat): (r: string)
    ensures |r| > 0 && AllDigits(r)
    ensures n < 10 <==> |r| == 1
    decreases n
  {
    if n < 10 then [DigitChar(n)] else NatToDecimal(n / 10) + [DigitChar(n % 10)]
  }

  /** str(i) for any integer: a leading '-' for negative values. */
  function IntToDecimal(i: int): string {
    if i < 0 then "-" + NatToDecimal(-i) else NatToDecimal(i)
  }

  /** The "{:02d}" format: zero-padded to width two; wider values and negative ones are printed plainly. */
  function Pad2(i: int): string {
    if 0 <= i < 10 then "0" + NatToDecimal(i) else IntToDecimal(i)
  }

  lemma {:induction false} DecimalRoundTrip(n: nat)
    ensures DigitsValue(NatToDecimal(n)) == n
    decreases n
  {
    if n >= 10 {
      DecimalRoundTrip(n / 10);
      var r := NatToDecimal(n);
      assert r[..|r| - 1] == NatToDecimal(n / 10);
    }
  }

  /** A four-digit number prints as exactly four digits. */
  lemma FourDigitDecimal(n: nat)
    requires 1000 <= n <= 9999
    ensures |NatToDecimal(n)| == 4
  {
    assert NatToDecimal(n) == NatToDecimal(n / 10) + [DigitChar(n % 10)];
    assert NatToDecimal(n / 10) == NatToDecimal(n / 100) + [DigitChar((n / 10) % 10)];
    assert NatToDecimal(n / 100) == NatToDecimal(n / 1000) + [DigitChar((n / 100) % 10)];
  }

  /** A month number prints as exactly two digits under "{:02d}". */
  lemma Pad2Month(m: int)
    requires 1 <= m <= 12
    ensures |Pad2(m)| == 2 && AllDigits(Pad2(m)) && DigitsValue(Pad2(m)) == m
  {
    if m < 10 {
      var p := Pad2(m);
      assert p == "0" + [DigitChar(m)];
      assert p[..|p| - 1] == "0";
      assert DigitsValue("0") == DigitsValue("") * 10 + DigitValue('0');
    } else {
      assert Pad2(m) == NatToDecimal(m / 10) + [DigitChar(m % 10)];
      DecimalRoundTrip(m);
    }
  }

  // ---------------------------------------------------------------------
  // Substrings
  // ---------------------------------------------------------------------

  /** str.endswith */
  predicate EndsWith(s: string, suffix: string) {
    |suffix| <= |s| && s[|s| - |suffix|..] == suffix
  }

  /** `p` occurs in `s` starting at position i. */
  predicate OccursAt(s: string, i: int, p: string) {
    0 <= i && i + |p| <= |s| && s[i..i + |p|] == p
  }

  /** The `p in s` substring test. */
  predicate Contains(s: string, p: string) {
    exists i :: 0 <= i <= |s| && OccursAt(s, i, p)
  }

  /** No string ends with two different suffixes of the same length. */
  lemma SameLengthSuffixes(s: string, a: string, b: string)
    requires |a| == |b| && EndsWith(s, a) && EndsWith(s, b)
    ensures a == b
  {
  }

  // ---------------------------------------------------------------------
  // Whitespace and str.strip()
  // ---------------------------------------------------------------------

  /** str.isspace for one character: the code points Python treats as whitespace. */
  predicate IsSpace(c: char) {
    c == ' ' || ('\t' <= c <= '\r') || ('\U{1c}' <= c <= '\U{1f}')
    || c == '\U{85}' || c == '\U{a0}' || c == '\U{1680}' || ('\U{2000}' <= c <= '\U{200a}')
    || c == '\U{2028}' || c == '\U{2029}' || c == '\U{202f}' || c == '\U{205f}' || c == '\U{3000}'
  }


  function StripLeft(s: string): (r: string)
    ensures |r| <= |s|
    ensures r == s[|s| - |r|..]
    ensures r != [] ==> !IsSpace(r[0])
    ensures forall i :: 0 <= i < |s| - |r| ==> IsSpace(s[i])
  {
    if s != [] && IsSpace(s[0]) then StripLeft(s[1..]) else s
  }

  function StripRight(s: string): (r: string)
    ensures |r| <= |s|
    ensures r == s[..|r|]
    ensures r != [] ==> !IsSpace(r[|r| - 1])
    ensures forall i :: |r| <= i < |s| ==> IsSpace(s[i])
  {
    if s != [] && IsSpace(s[|s| - 1]) then StripRight(s[..|s| - 1]) else s
  }

  /** str.strip() with no argument. */
  function Strip(s: string): string {
    StripRight(StripLeft(s))
  }

  // ---------------------------------------------------------------------
  // POSIX paths (os.path.basename, os.path.dirname, os.path.join)
  // ---------------------------------------------------------------------

  /** One past the last '/' in s, or 0 when there is none (p.rfind('/') + 1). */
  function AfterLastSlash(s: string): (r: nat)
    ensures r <= |s|
    ensures r > 0 ==> s[r - 1] == '/'
    ensures forall i :: r <= i < |s| ==> s[i] != '/'
  {
    if s == [] then 0 else if s[|s| - 1] == '/' then |s| else AfterLastSlash(s[..|s| - 1])
  }

  /** os.path.basename: everything after the last '/'. */
  function Basename(p: string): (r: string)
    ensures forall i :: 0 <= i < |r| ==> r[i] != '/'
    ensures EndsWith(p, r)
  {
    p[AfterLastSlash(p)..]
  }

  function StripSlashesRight(s: string): (r: string)
    ensures |r| <= |s| && r == s[..|r|]
  {
    if s != [] && s[|s| - 1] == '/' then StripSlashesRight(s[..|s| - 1]) else s
  }

  /** os.path.dirname: the head before the last '/', trailing slashes removed unless it is all slashes. */
  function Dirname(p: string): string {
    var head := p[..AfterLastSlash(p)];
    var trimmed := StripSlashesRight(head);
    if head != [] && trimmed != [] then trimmed else head
  }

  /** os.path.join of two components. */
  function Join(a: string, b: string): string {
    if |b| > 0 && b[0] == '/' then b
    else if a == [] || a[|a| - 1] == '/' then a + b
    else a + "/" + b
  }

  /** The last '/' of `x + y` is the one ending `x` when `y` has none. */
  lemma {:induction false} AfterLastSlashAppend(x: string, y: string)
    requires x == [] || x[|x| - 1] == '/'
    requires forall i :: 0 <= i < |y| ==> y[i] != '/'
    ensures AfterLastSlash(x + y) == |x|
    decreases |y|
  {
    if y == [] {
      assert x + y == x;
    } else {
      assert (x + y)[..|x + y| - 1] == x + y[..|y| - 1];
      AfterLastSlashAppend(x, y[..|y| - 1]);
    }
  }

  /** Joining a directory with a bare file name puts the name back as the basename. */
  lemma BasenameOfJoin(a: string, b: string)
    requires forall i :: 0 <= i < |b| ==> b[i] != '/'
    ensures Basename(Join(a, b)) == b
  {
    if a == [] || a[|a| - 1] == '/' {
      AfterLastSlashAppend(a, b);
      assert Join(a, b) == a + b;
    } else {
      AfterLastSlashAppend(a + "/", b);
      assert Join(a, b) == (a + "/") + b;
    }
  }

  // ---------------------------------------------------------------------
  // Leftmost match, the search strategy of re.search
  // ---------------------------------------------------------------------

  /**
   * The smallest position in [from, n] at which `at` holds. re.search tries the
   * pattern at every start position from left to right and reports the first hit;
   * each regular expression of the scripts is modelled as an `at` predicate over
   * start positions.
   */
  function Leftmost(n: int, at: int -> bool, from: int): (r: Option<int>)
    ensures r.Some? ==> from <= r.value <= n && at(r.value)
    ensures r.Some? ==> forall j :: from <= j < r.value ==> !at(j)
    ensures r.None? ==> forall j :: from <= j <= n ==> !at(j)
    decreases n + 1 - from
  {
    if from > n then None
    else if at(from) then Some(from)
    else Leftmost(n, at, from + 1)
  }

  /** The first position that matches is the one Leftmost finds. */
  lemma LeftmostIs(n: int, at: int -> bool, from: int, i: int)
    requires from <= i <= n && at(i)
    requires forall j :: from <= j < i ==> !at(j)
    ensures Leftmost(n, at, from) == Some(i)
  {
    var r := Leftmost(n, at, from);
    assert r.Some?;
    assert r.value <= i;
  }
}
