/** String scanning helpers the whitelister relies on: the digit scanners
    `dtoi`/`xtoi` of Go's net package, byte search, the split of a
    comma-separated header into its last element, and whitespace trimming.
    Go strings are byte strings; here a string is a `seq<char>`, which makes
    no difference for the ASCII decisions these helpers take. */
module Text {
  import opened Wrappers

  /** Go's net package gives up on a number once it reaches this value. */
  const Big: nat := 0xFF_FFFF

  predicate IsDigit(c: char) {
    '0' <= c <= '9'
  }

  predicate IsHexDigit(c: char) {
    IsDigit(c) || 'a' <= c <= 'f' || 'A' <= c <= 'F'
  }

  /** Whether `c` is a digit in `base`, which is 10 or 16. */
  predicate IsDigitOf(c: char, base: nat) {
    if base == 16 then IsHexDigit(c) else IsDigit(c)
  }

  predicate AllDigitsOf(s: string, base: nat) {
    forall i :: 0 <= i < |s| ==> IsDigitOf(s[i], base)
  }

  function DigitValue(c: char): (d: nat)
    requires IsHexDigit(c)
    ensures d < 16
    ensures IsDigit(c) ==> d < 10
  {
    if IsDigit(c) then c as int - '0' as int
    else if 'a' <= c <= 'f' then c as int - 'a' as int + 10
    else c as int - 'A' as int + 10
  }

  /** The value of a digit string, accumulated left to right as Go does. */
  function Value(s: string, base: nat): nat
    requires base == 10 || base == 16
    requires AllDigitsOf(s, base)
  {
    if |s| == 0 then 0
    else Value(s[..|s| - 1], base) * base + DigitValue(s[|s| - 1])
  }

  /** Length of the longest prefix of `s` made of digits of `base`. */
  function Run(s: string, base: nat): (n: nat)
    ensures n <= |s|
  {
    if |s| > 0 && IsDigitOf(s[0], base) then 1 + Run(s[1..], base) else 0
  }

  /** `Run` stops at the first character that is not a digit. */
  lemma {:induction false} RunIsLongestDigitPrefix(s: string, base: nat)
    ensures AllDigitsOf(s[..Run(s, base)], base)
    ensures Run(s, base) < |s| ==> !IsDigitOf(s[Run(s, base)], base)
  {
    if |s| > 0 && IsDigitOf(s[0], base) {
      RunIsLongestDigitPrefix(s[1..], base);
      var n := Run(s[1..], base);
      assert s[..n + 1] == [s[0]] + s[1..][..n];
    }
  }

  /** What `dtoi` (base 10) and `xtoi` (base 16) report: the number read,
      how many characters it took, and whether it is usable. */
  datatype Number = Number(value: nat, len: nat, ok: bool)

  /** Reads the leading number of `s` in `base`. It fails when there are no
      digits or when the number reaches `Big`; callers reject every failed
      scan, so the count Go reports after a failure is not modelled. */
  function Scan(s: string, base: nat): (r: Number)
    requires base == 10 || base == 16
    ensures r.len <= |s|
    ensures AllDigitsOf(s[..r.len], base) && (r.len < |s| ==> !IsDigitOf(s[r.len], base))
    ensures r.value == Value(s[..r.len], base)
    ensures r.ok <==> 0 < r.len && r.value < Big
  {
    RunIsLongestDigitPrefix(s, base);
    var k := Run(s, base);
    var v := Value(s[..k], base);
    Number(v, k, 0 < k && v < Big)
  }

  /** Position of the first `c` in `s` (Go's `strings.IndexByte`). */
  function IndexOf(s: string, c: char): (r: Option<nat>)
    ensures r.None? <==> c !in s
    ensures r.Some? ==> r.value < |s| && s[r.value] == c && c !in s[..r.value]
  {
    if |s| == 0 then None
    else if s[0] == c then Some(0)
    else match IndexOf(s[1..], c)
      case None => None
      case Some(i) => Some(i + 1)
  }

  /** Position of the last `c` in `s` (Go's `strings.LastIndexByte`). */
  function LastIndexOf(s: string, c: char): (r: Option<nat>)
    ensures r.None? <==> c !in s
    ensures r.Some? ==> r.value < |s| && s[r.value] == c && c !in s[r.value + 1..]
  {
    if |s| == 0 then None
    else if s[|s| - 1] == c then Some(|s| - 1)
    else LastIndexOf(s[..|s| - 1], c)
  }

  /** `IndexOf` finds the first occurrence. */
  lemma IndexOfAt(s: string, c: char, i: nat)
    requires i < |s| && s[i] == c && c !in s[..i]
    ensures IndexOf(s, c) == Some(i)
  {
  }

  /** `LastIndexOf` finds the last occurrence. */
  lemma LastIndexOfAt(s: string, c: char, i: nat)
    requires i < |s| && s[i] == c && c !in s[i + 1..]
    ensures LastIndexOf(s, c) == Some(i)
  {
  }

  /** The element after the last comma of a comma-separated list. */
  function LastElement(s: string): (r: string)
    ensures ',' !in r
    ensures exists k :: 0 <= k <= |s| && s == s[..k] + r && (k == 0 || s[k - 1] == ',')
  {
    match LastIndexOf(s, ',')
    case None => assert s == s[..0] + s; s
    case Some(i) => assert s == s[..i + 1] + s[i + 1..]; s[i + 1..]
  }

  /** The ASCII white space that Go's `strings.TrimSpace` removes. */
  predicate IsSpace(c: char) {
    c == ' ' || c == '\t' || c == '\n' || c == '\r' || c == '\U{B}' || c == '\U{C}'
  }

  /** The characters of `s` from `lo` up to `hi` are all white space. */
  predicate SpaceBetween(s: string, lo: int, hi: int)
    requires 0 <= lo && hi <= |s|
  {
    forall k :: lo <= k < hi ==> IsSpace(s[k])
  }

  /** How many white-space characters `s` starts with. */
  function LeadingSpace(s: string): (n: nat)
    ensures n <= |s| && SpaceBetween(s, 0, n)
    ensures n < |s| ==> !IsSpace(s[n])
  {
    if |s| > 0 && IsSpace(s[0]) then 1 + LeadingSpace(s[1..]) else 0
  }

  /** How many white-space characters `s` ends with. */
  function TrailingSpace(s: string): (n: nat)
    ensures n <= |s| && SpaceBetween(s, |s| - n, |s|)
    ensures n < |s| ==> !IsSpace(s[|s| - n - 1])
  {
    if |s| > 0 && IsSpace(s[|s| - 1]) then 1 + TrailingSpace(s[..|s| - 1]) else 0
  }

  /** Go's `strings.TrimSpace` restricted to ASCII white space: the middle
      part of `s` left after removing white space from both ends. */
  function TrimSpace(s: string): (r: string)
    ensures exists i, j :: 0 <= i <= j <= |s| && r == s[i..j] && SpaceBetween(s, 0, i) && SpaceBetween(s, j, |s|)
    ensures |r| > 0 ==> !IsSpace(r[0]) && !IsSpace(r[|r| - 1])
  {
    var i := LeadingSpace(s);
    var l := s[i..];
    var j := i + |l| - TrailingSpace(l);
    assert SpaceBetween(s, j, |s|) by {
      forall k | j <= k < |s|
        ensures IsSpace(s[k])
      {
        assert s[k] == l[k - i];
      }
    }
    assert s[i..j] == l[..|l| - TrailingSpace(l)];
    s[i..j]
  }

  /** Text with no white space at either end is left as it is. */
  lemma TrimSpaceUnspaced(s: string)
    requires |s| > 0 ==> !IsSpace(s[0]) && !IsSpace(s[|s| - 1])
    ensures TrimSpace(s) == s
  {
    assert LeadingSpace(s) == 0;
    assert s[0..] == s;
    assert TrailingSpace(s) == 0;
  }

  /** Trimming twice trims no more than trimming once. */
  lemma TrimSpaceIdempotent(s: string)
    ensures TrimSpace(TrimSpace(s)) == TrimSpace(s)
  {
    TrimSpaceUnspaced(TrimSpace(s));
  }

  /** The character of digit `d`; letters are lower case. */
  function DigitChar(d: nat): (c: char)
    requires d < 16
    ensures IsHexDigit(c) && DigitValue(c) == d
    ensures d < 10 ==> IsDigit(c)
  {
    if d < 10 then '0' + d as char else 'a' + (d - 10) as char
  }

  /** The digits of `n` in `base` without leading zeros, as Go's `itoa`
      (base 10) and `appendHex` (base 16) print them. */
  function Digits(n: nat, base: nat): (s: string)
    requires base == 10 || base == 16
    ensures 0 < |s|
  {
    var d := [DigitChar(n % base)];
    if n < base then d else Digits(n / base, base) + d
  }

  /** The printed digits of `n` are digits of `base` and read back as `n`. */
  lemma {:induction false} DigitsValue(n: nat, base: nat)
    requires base == 10 || base == 16
    ensures AllDigitsOf(Digits(n, base), base)
    ensures Value(Digits(n, base), base) == n
  {
    if n >= base {
      DigitsValue(n / base, base);
      var s := Digits(n, base);
      assert s[..|s| - 1] == Digits(n / base, base);
    }
  }

  /** Scanning stops exactly at the end of a digit string followed by a
      non-digit: the number read is the digit string's value. */
  lemma {:induction false} ScanDigitsThen(a: string, b: string, base: nat)
    requires base == 10 || base == 16
    requires AllDigitsOf(a, base)
    requires |b| == 0 || !IsDigitOf(b[0], base)
    ensures Scan(a + b, base).len == |a|
    ensures Scan(a + b, base).value == Value(a, base)
  {
    RunDigitsThen(a, b, base);
    RunIsLongestDigitPrefix(a + b, base);
    assert (a + b)[..|a|] == a;
  }

  /** Scanning the printed digits of `n` followed by a non-digit reads
      `n`. */
  lemma ScanDigits(n: nat, base: nat, rest: string)
    requires base == 10 || base == 16
    requires |rest| == 0 || !IsDigitOf(rest[0], base)
    ensures Scan(Digits(n, base) + rest, base) == Number(n, |Digits(n, base)|, n < Big)
  {
    DigitsValue(n, base);
    ScanDigitsThen(Digits(n, base), rest, base);
  }

  lemma {:induction false} RunDigitsThen(a: string, b: string, base: nat)
    requires AllDigitsOf(a, base)
    requires |b| == 0 || !IsDigitOf(b[0], base)
    ensures Run(a + b, base) == |a|
  {
    if |a| > 0 {
      assert (a + b)[1..] == a[1..] + b;
      RunDigitsThen(a[1..], b, base);
    }
  }

  /** The last element of `e,l` is `l` when `l` holds no comma. */
  lemma LastElementAfter(e: string, l: string)
    requires ',' !in l
    ensures LastElement(e + "," + l) == l
  {
    var s := e + "," + l;
    assert s[|e| + 1..] == l;
    LastIndexOfAt(s, ',', |e|);
  }

  /** A text without a comma is its own last element. */
  lemma LastElementOfOne(l: string)
    requires ',' !in l
    ensures LastElement(l) == l
  {
  }
}
