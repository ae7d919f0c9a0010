/** The parts of Python's `str` behaviour the OBO reader relies on: the
    whitespace class shared by `str.isspace`, `str.rstrip`, `str.split()` and
    the regular-expression class `\s`; slicing with clamped bounds; ASCII case
    folding; `split`, `replace` and `int()`. */
module PyStr {
  import opened Wrappers

  /** Python's whitespace class (Py_UNICODE_ISSPACE). */
  predicate IsSpace(c: char) {
    ('\t' <= c <= '\r') || ('\U{1C}' <= c <= '\U{1F}') || c == ' '
    || c == '\U{85}' || c == '\U{A0}' || c == '\U{1680}'
    || ('\U{2000}' <= c <= '\U{200A}') || c == '\U{2028}' || c == '\U{2029}'
    || c == '\U{202F}' || c == '\U{205F}' || c == '\U{3000}'
  }

  predicate NoSpace(s: string) {
    forall i | 0 <= i < |s| :: !IsSpace(s[i])
  }

  predicate AllSpace(s: string) {
    forall i | 0 <= i < |s| :: IsSpace(s[i])
  }

  /** `s[0:n]`: at most the first n characters. */
  function Prefix(s: string, n: nat): (r: string)
    ensures r <= s
    ensures |r| == if n < |s| then n else |s|
  {
    if n < |s| then s[..n] else s
  }

  /** `s[i:-1]`: from index i up to, but excluding, the last character;
      empty when that range is empty. */
  function SliceToLast(s: string, i: nat): (r: string)
    ensures i < |s| ==> r + [s[|s| - 1]] == s[i..]
    ensures i >= |s| ==> r == ""
  {
    if i + 1 < |s| then s[i..|s| - 1] else ""
  }

  /** Case folding restricted to ASCII. The only comparisons made with it are
      against "[term]" and "[typedef]", and no other character lower-cases to
      a single one of their characters. */
  function LowerChar(c: char): char {
    if 'A' <= c <= 'Z' then (c as int + 32) as char else c
  }

  function Lower(s: string): (r: string)
    ensures |r| == |s|
    ensures forall i | 0 <= i < |s| :: r[i] == LowerChar(s[i])
  {
    if s == [] then [] else [LowerChar(s[0])] + Lower(s[1..])
  }

  /** `str.rstrip()` */
  function RStrip(s: string): (r: string)
    ensures r <= s
    ensures AllSpace(s[|r|..])
    ensures |r| > 0 ==> !IsSpace(r[|r| - 1])
  {
    if |s| > 0 && IsSpace(s[|s| - 1]) then RStrip(s[..|s| - 1]) else s
  }

  /** `str.lstrip()` */
  function LStrip(s: string): (r: string)
    ensures |r| <= |s| && r == s[|s| - |r|..]
    ensures AllSpace(s[..|s| - |r|])
    ensures |r| > 0 ==> !IsSpace(r[0])
  {
    if |s| > 0 && IsSpace(s[0]) then LStrip(s[1..]) else s
  }

  /** `str.strip()` */
  function Strip(s: string): string {
    LStrip(RStrip(s))
  }

  /** The longest prefix of s free of whitespace; for an s that starts with a
      non-space character this is `s.split()[0]`. */
  function TakeWord(s: string): (r: string)
    ensures r <= s && NoSpace(r)
    ensures |r| < |s| ==> IsSpace(s[|r|])
  {
    if |s| == 0 || IsSpace(s[0]) then "" else [s[0]] + TakeWord(s[1..])
  }

  /** `s.split(sep)[0]`: everything before the first occurrence of sep. */
  function BeforeFirst(s: string, sep: char): (r: string)
    ensures r <= s && sep !in r
    ensures |r| < |s| ==> s[|r|] == sep
  {
    if |s| == 0 || s[0] == sep then "" else [s[0]] + BeforeFirst(s[1..], sep)
  }

  /** `sep.join(parts)` */
  function Join(parts: seq<string>, sep: char): string {
    if |parts| == 0 then ""
    else if |parts| == 1 then parts[0]
    else parts[0] + [sep] + Join(parts[1..], sep)
  }

  /** `s.split(sep)` for a one-character separator: the pieces between
      occurrences of sep, which join back to s. */
  function SplitOn(s: string, sep: char): (r: seq<string>)
    ensures |r| >= 1
    ensures forall i | 0 <= i < |r| :: sep !in r[i]
    ensures Join(r, sep) == s
    decreases |s|
  {
    var head := BeforeFirst(s, sep);
    if |head| == |s| then [s]
    else
      var rest := SplitOn(s[|head| + 1..], sep);
      assert s == head + [sep] + s[|head| + 1..];
      [head] + rest
  }

  /** Number of occurrences of c in s. */
  function Count(s: string, c: char): nat {
    if s == [] then 0 else (if s[0] == c then 1 else 0) + Count(s[1..], c)
  }

  /** `s.split(sep)` has one piece more than s has occurrences of sep. */
  lemma {:induction false} SplitOnCount(s: string, sep: char)
    ensures |SplitOn(s, sep)| == Count(s, sep) + 1
    decreases |s|
  {
    var head := BeforeFirst(s, sep);
    assert s == head + s[|head|..];
    CountAppend(head, s[|head|..], sep);
    CountAbsent(head, sep);
    if |head| < |s| {
      var tail := s[|head| + 1..];
      assert s[|head|..] == [sep] + tail;
      CountAppend([sep], tail, sep);
      SplitOnCount(tail, sep);
    } else {
      assert s[|head|..] == [];
    }
  }

  lemma {:induction false} CountAppend(a: string, b: string, c: char)
    ensures Count(a + b, c) == Count(a, c) + Count(b, c)
  {
    if a != [] {
      assert (a + b)[1..] == a[1..] + b;
      CountAppend(a[1..], b, c);
    } else {
      assert a + b == b;
    }
  }

  lemma {:induction false} CountAbsent(s: string, c: char)
    requires c !in s
    ensures Count(s, c) == 0
  {
    if s != [] {
      assert c !in s[1..];
      CountAbsent(s[1..], c);
    }
  }

  predicate OccursAt(s: string, pat: string, j: nat) {
    j + |pat| <= |s| && s[j..j + |pat|] == pat
  }

  /** Leftmost index at which pat occurs in s. */
  function IndexOf(s: string, pat: string): (r: Option<nat>)
    ensures r.Some? ==> OccursAt(s, pat, r.value)
    ensures r.Some? ==> forall j: nat | j < r.value :: !OccursAt(s, pat, j)
    ensures r.None? ==> forall j: nat :: !OccursAt(s, pat, j)
  {
    if |s| < |pat| then None
    else if s[..|pat|] == pat then Some(0)
    else
      forall j: nat | 1 <= j
        ensures OccursAt(s, pat, j) == OccursAt(s[1..], pat, j - 1)
      {
        if j + |pat| <= |s| {
          var a, b := s[j..j + |pat|], s[1..][j - 1..j - 1 + |pat|];
          assert forall k | 0 <= k < |pat| :: a[k] == s[j + k] == b[k];
          assert a == b;
        }
      }
      match IndexOf(s[1..], pat)
      case None => None
      case Some(k) => Some(k + 1)
  }

  /** `s.replace(pat, sub, 1)` */
  function ReplaceFirst(s: string, pat: string, sub: string): string {
    match IndexOf(s, pat)
    case None => s
    case Some(i) => s[..i] + sub + s[i + |pat|..]
  }

  /** Replacing the first occurrence of a prefix swaps just that prefix. */
  lemma ReplaceFirstPrefix(pat: string, rest: string, sub: string)
    ensures ReplaceFirst(pat + rest, pat, sub) == sub + rest
  {
    var s := pat + rest;
    assert s[..|pat|] == pat;
    assert IndexOf(s, pat) == Some(0);
    assert s[|pat|..] == rest;
    assert s[..0] + sub + rest == sub + rest;
  }

  // ---------------------------------------------------------------------
  // int(): base-10 integer literals

  predicate IsDigit(c: char) {
    '0' <= c <= '9'
  }

  predicate AllDigits(s: string) {
    forall i | 0 <= i < |s| :: IsDigit(s[i])
  }

  /** Value of a string of decimal digits, most significant first. */
  function DigitsValue(ds: string): nat
    requires AllDigits(ds)
  {
    if ds == [] then 0
    else 10 * DigitsValue(ds[..|ds| - 1]) + (ds[|ds| - 1] as int - '0' as int)
  }

  /** Digits with single underscores allowed between two digits, as Python's
      `int()` accepts them. */
  predicate UnderscoredDigits(s: string) {
    && |s| > 0 && IsDigit(s[0]) && IsDigit(s[|s| - 1])
    && forall i | 0 <= i < |s| :: IsDigit(s[i]) || (s[i] == '_' && i + 1 < |s| && IsDigit(s[i + 1]))
  }

  function DropUnderscores(s: string): (r: string)
    requires forall i | 0 <= i < |s| :: IsDigit(s[i]) || s[i] == '_'
    ensures AllDigits(r) && |r| <= |s|
  {
    if s == [] then ""
    else if s[0] == '_' then DropUnderscores(s[1..])
    else [s[0]] + DropUnderscores(s[1..])
  }

  /** The most digits `int()` converts from a str in Python 3.11 and later
      (`sys.int_info.default_max_str_digits`); a longer digit string, leading
      zeros included and underscores not, raises ValueError. */
  const MaxStrDigits: nat := 4300

  /** A digit string with underscores that `int()` converts: well formed,
      and no more digits than the limit. */
  predicate Convertible(body: string) {
    UnderscoredDigits(body) && |DropUnderscores(body)| <= MaxStrDigits
  }

  /** `int(s)` for a str argument: None where Python raises ValueError.
      Python also accepts non-ASCII decimal digits; this model does not. */
  function ParseInt(s: string): Option<int> {
    var t := Strip(s);
    if |t| > 0 && (t[0] == '+' || t[0] == '-') then
      var body := t[1..];
      if Convertible(body) then
        var v: int := DigitsValue(DropUnderscores(body));
        Some(if t[0] == '-' then -v else v)
      else None
    else if Convertible(t) then Some(DigitsValue(DropUnderscores(t)))
    else None
  }

  /** Decimal rendering of n without leading zeros ("0" for zero). */
  function NatToDigits(n: nat): (r: string)
    ensures |r| > 0 && AllDigits(r)
  {
    if n < 10 then [('0' as int + n) as char]
    else NatToDigits(n / 10) + [('0' as int + n % 10) as char]
  }

  lemma {:induction false} NatToDigitsValue(n: nat)
    ensures DigitsValue(NatToDigits(n)) == n
  {
    var r := NatToDigits(n);
    if n >= 10 {
      NatToDigitsValue(n / 10);
      assert r[..|r| - 1] == NatToDigits(n / 10);
    }
  }

  function Zeros(k: nat): (r: string)
    ensures |r| == k && AllDigits(r)
  {
    if k == 0 then "" else "0" + Zeros(k - 1)
  }

  /** Leading zeros do not change a digit string's value. */
  lemma {:induction false} LeadingZerosValue(k: nat, ds: string)
    requires AllDigits(ds)
    ensures AllDigits(Zeros(k) + ds) && DigitsValue(Zeros(k) + ds) == DigitsValue(ds)
  {
    if ds != [] {
      var z := Zeros(k) + ds;
      assert z[..|z| - 1] == Zeros(k) + ds[..|ds| - 1];
      LeadingZerosValue(k, ds[..|ds| - 1]);
    } else {
      assert Zeros(k) + ds == Zeros(k);
      ZerosValue(k);
    }
  }

  lemma {:induction false} ZerosValue(k: nat)
    ensures DigitsValue(Zeros(k)) == 0
  {
    if k > 0 {
      var z := Zeros(k);
      assert z[..|z| - 1] == Zeros(k - 1) by {
        if k > 1 {
          ZerosTail(k - 1);
        }
      }
      ZerosValue(k - 1);
    }
  }

  lemma {:induction false} ZerosTail(k: nat)
    requires k > 0
    ensures Zeros(k + 1)[..k] == Zeros(k)
    ensures Zeros(k + 1) == Zeros(k) + "0"
  {
    if k > 1 {
      ZerosTail(k - 1);
    }
  }

  /** A digit string free of underscores is left unchanged by DropUnderscores. */
  lemma {:induction false} DropUnderscoresDigits(s: string)
    requires AllDigits(s)
    ensures DropUnderscores(s) == s
  {
    if s != [] {
      DropUnderscoresDigits(s[1..]);
    }
  }

  /** A string of digits is its own strip: digits are not whitespace. */
  lemma StripDigits(s: string)
    requires AllDigits(s)
    ensures Strip(s) == s
  {
    if |s| > 0 {
      assert !IsSpace(s[|s| - 1]);
      assert !IsSpace(s[0]);
    }
  }

  /** int() reads a non-empty string of plain digits as their value, up to
      the digit limit, and raises beyond it. */
  lemma ParseIntPlain(s: string)
    requires |s| > 0 && AllDigits(s)
    ensures ParseInt(s) == if |s| <= MaxStrDigits then Some(DigitsValue(s)) else None
  {
    StripDigits(s);
    DropUnderscoresDigits(s);
    assert IsDigit(s[0]) && IsDigit(s[|s| - 1]);
    assert UnderscoredDigits(s);
    assert s[0] != '+' && s[0] != '-';
    assert Convertible(s) <==> |s| <= MaxStrDigits;
  }

  /** int() reads back the decimal rendering of any natural number with
      leading zeros, as long as all the digits stay within the limit, and
      raises otherwise. */
  lemma ParseIntDigits(k: nat, n: nat)
    ensures ParseInt(Zeros(k) + NatToDigits(n)) == if k + |NatToDigits(n)| <= MaxStrDigits then Some(n) else None
  {
    LeadingZerosValue(k, NatToDigits(n));
    NatToDigitsValue(n);
    ParseIntPlain(Zeros(k) + NatToDigits(n));
  }
}
