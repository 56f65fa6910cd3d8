/** Character and string helpers standing in for the .NET string API.

    Case-insensitive comparison is ASCII-only, digits are ASCII digits, and
    `Split` follows `String.Split(char)` (empty pieces are kept). */
module Text {

  function ToLowerChar(c: char): char {
    if 'A' <= c <= 'Z' then (c as int + 32) as char else c
  }

  function ToLower(s: string): (r: string)
    ensures |r| == |s|
    ensures forall i :: 0 <= i < |s| ==> r[i] == ToLowerChar(s[i])
  {
    if |s| == 0 then "" else [ToLowerChar(s[0])] + ToLower(s[1..])
  }

  lemma ToLowerAppend(a: string, b: string)
    ensures ToLower(a + b) == ToLower(a) + ToLower(b)
  {
    assert ToLower(a + b) == ToLower(a) + ToLower(b);
  }

  predicate StartsWith(s: string, prefix: string) {
    |prefix| <= |s| && s[..|prefix|] == prefix
  }

  predicate EndsWith(s: string, suffix: string) {
    |suffix| <= |s| && s[|s| - |suffix|..] == suffix
  }

  /** `EndsWith(suffix, StringComparison.OrdinalIgnoreCase)`. */
  predicate EndsWithIgnoreCase(s: string, suffix: string) {
    |suffix| <= |s| && ToLower(s[|s| - |suffix|..]) == ToLower(suffix)
  }

  predicate IsDigit(c: char) {
    '0' <= c <= '9'
  }

  predicate AllDigits(s: string) {
    forall i :: 0 <= i < |s| ==> IsDigit(s[i])
  }

  function DigitValue(c: char): nat
    requires IsDigit(c)
  {
    c as int - '0' as int
  }

  function DigitChar(d: nat): (c: char)
    requires d < 10
    ensures IsDigit(c) && DigitValue(c) == d
  {
    ('0' as int + d) as char
  }

  /** The value of a string of decimal digits (most significant first). */
  function DecimalValue(s: string): nat
    requires AllDigits(s)
  {
    if |s| == 0 then 0 else DecimalValue(s[..|s| - 1]) * 10 + DigitValue(s[|s| - 1])
  }

  /** The decimal rendering of a natural number, without leading zeros. */
  function ShowNat(n: nat): (r: string)
    ensures |r| > 0 && AllDigits(r)
  {
    if n < 10 then [DigitChar(n)] else ShowNat(n / 10) + [DigitChar(n % 10)]
  }

  /** Rendering a number and parsing it back gives the number. */
  lemma {:induction false} DecimalRoundTrip(n: nat)
    ensures DecimalValue(ShowNat(n)) == n
  {
    if n >= 10 {
      DecimalRoundTrip(n / 10);
      var s := ShowNat(n);
      assert s[..|s| - 1] == ShowNat(n / 10);
    }
  }

  /** Length of the longest run of digits at the end of `s`. */
  function TrailingDigitCount(s: string): (k: nat)
    ensures k <= |s|
    ensures AllDigits(s[|s| - k..])
    ensures k < |s| ==> !IsDigit(s[|s| - k - 1])
  {
    if |s| == 0 || !IsDigit(s[|s| - 1]) then 0
    else
      var k := TrailingDigitCount(s[..|s| - 1]);
      DigitsSnoc(s, k);
      k + 1
  }

  /** A digit after a run of `k` digits extends the run. */
  lemma DigitsSnoc(s: string, k: nat)
    requires 1 <= |s| && k <= |s| - 1 && IsDigit(s[|s| - 1])
    requires AllDigits(s[..|s| - 1][|s| - 1 - k..])
    ensures AllDigits(s[|s| - (k + 1)..])
  {
    var run, init := s[|s| - (k + 1)..], s[..|s| - 1][|s| - 1 - k..];
    forall i | 0 <= i < |run|
      ensures IsDigit(run[i])
    {
      if i < k {
        assert run[i] == init[i];
      }
    }
  }

  /** `String.Split(sep)`: the pieces between separators, empty ones kept. */
  function Split(s: string, sep: char): (r: seq<string>)
    ensures |r| >= 1
  {
    if |s| == 0 then [""]
    else if s[0] == sep then [""] + Split(s[1..], sep)
    else
      var rest := Split(s[1..], sep);
      [[s[0]] + rest[0]] + rest[1..]
  }

  /** A string without the separator is one piece. */
  lemma {:induction false} SplitNoSep(w: string, sep: char)
    requires sep !in w
    ensures Split(w, sep) == [w]
    decreases |w|
  {
    if |w| > 0 {
      SplitNoSep(w[1..], sep);
      assert [w[0]] + w[1..] == w;
    }
  }

  /** A separator after a separator-free piece ends that piece. */
  lemma {:induction false} SplitAt(a: string, b: string, sep: char)
    requires sep !in a
    ensures Split(a + [sep] + b, sep) == [a] + Split(b, sep)
    decreases |a|
  {
    if |a| == 0 {
      assert a + [sep] + b == [sep] + b;
      assert ([sep] + b)[1..] == b;
    } else {
      SplitAt(a[1..], b, sep);
      assert (a + [sep] + b)[1..] == a[1..] + [sep] + b;
      assert [a[0]] + a[1..] == a;
    }
  }

  /** `String.Join(sep, parts)`. */
  function Join(parts: seq<string>, sep: char): string
    requires |parts| >= 1
  {
    if |parts| == 1 then parts[0] else parts[0] + [sep] + Join(parts[1..], sep)
  }

  /** Splitting and joining again gives back the original string, and no
      piece contains the separator. */
  lemma {:induction false} SplitJoin(s: string, sep: char)
    ensures Join(Split(s, sep), sep) == s
    ensures forall i :: 0 <= i < |Split(s, sep)| ==> sep !in Split(s, sep)[i]
  {
    if |s| == 0 {
    } else if s[0] == sep {
      SplitJoin(s[1..], sep);
      assert s == [sep] + s[1..];
    } else {
      SplitJoin(s[1..], sep);
      var rest := Split(s[1..], sep);
      if |rest| == 1 {
        assert s == [s[0]] + s[1..];
      } else {
        assert Join(Split(s, sep), sep) == [s[0]] + rest[0] + [sep] + Join(rest[1..], sep);
        assert s == [s[0]] + s[1..];
      }
    }
  }

  /** `String.Split(sep, StringSplitOptions.RemoveEmptyEntries)`. */
  function SplitRemoveEmpty(s: string, sep: char): (r: seq<string>)
    ensures forall i :: 0 <= i < |r| ==> r[i] != "" && sep !in r[i]
  {
    SplitJoin(s, sep);
    NonEmpty(Split(s, sep))
  }

  function NonEmpty(parts: seq<string>): (r: seq<string>)
    ensures forall i :: 0 <= i < |r| ==> r[i] != "" && r[i] in parts
  {
    if |parts| == 0 then []
    else if parts[0] == "" then NonEmpty(parts[1..])
    else [parts[0]] + NonEmpty(parts[1..])
  }
}

/** `System.IO.Path` on Linux, where '/' is both directory separators. */
module Paths {
  import opened Text

  const Separator: char := '/'

  /** Index of the last occurrence of `c` in `s`, or -1. */
  function LastIndexOf(s: string, c: char): (r: int)
    ensures -1 <= r < |s|
    ensures r >= 0 ==> s[r] == c
    ensures forall j :: r < j < |s| ==> s[j] != c
  {
    if |s| == 0 then -1
    else if s[|s| - 1] == c then |s| - 1
    else LastIndexOf(s[..|s| - 1], c)
  }

  /** The last occurrence of `c` in `a + b` is in `b` when `b` has one. */
  lemma {:induction false} LastIndexOfAppend(a: string, b: string, c: char)
    ensures LastIndexOf(a + b, c) == if c in b then |a| + LastIndexOf(b, c) else LastIndexOf(a, c)
    decreases |b|
  {
    if |b| > 0 {
      assert (a + b)[..|a + b| - 1] == a + b[..|b| - 1];
      if b[|b| - 1] != c {
        LastIndexOfAppend(a, b[..|b| - 1], c);
        assert c in b <==> c in b[..|b| - 1] by {
          if c in b {
            var j :| 0 <= j < |b| && b[j] == c;
            assert b[..|b| - 1][j] == c;
          }
        }
      }
    } else {
      assert a + b == a;
    }
  }

  /** `Path.GetFileName`: the part after the last separator. */
  function GetFileName(path: string): (r: string)
    ensures Separator !in r
    ensures EndsWith(path, r)
  {
    var i := LastIndexOf(path, Separator);
    assert path[|path| - |path[i + 1..]|..] == path[i + 1..];
    path[i + 1..]
  }

  /** `Path.GetExtension`: from the last '.' of the file name, or "" when
      there is none or the '.' is the last character. */
  function GetExtension(path: string): string {
    var dot := LastIndexOf(path, '.');
    var slash := LastIndexOf(path, Separator);
    if dot > slash && dot != |path| - 1 then path[dot..] else ""
  }

  /** `Path.GetFileNameWithoutExtension`: the file name up to its last '.'. */
  function GetFileNameWithoutExtension(path: string): string {
    var name := GetFileName(path);
    var dot := LastIndexOf(name, '.');
    if dot < 0 then name else name[..dot]
  }

  /** `Path.Join` of two separator-free components. */
  function Join(a: string, b: string): string {
    if a == "" then b else if b == "" then a else a + [Separator] + b
  }

  /** A name is its own file name exactly when it has no directory part. */
  lemma FileNameFixedPoint(path: string)
    ensures GetFileName(path) == path <==> Separator !in path
  {
    var i := LastIndexOf(path, Separator);
    if Separator in path {
      var j :| 0 <= j < |path| && path[j] == Separator;
      assert i >= 0;
      assert |path[i + 1..]| < |path|;
    }
  }

  /** A non-empty extension starts with '.', has no further '.' or
      separator, and completes the name without extension. */
  lemma {:induction false} ExtensionShape(path: string)
    ensures var ext := GetExtension(path);
      ext != "" ==>
        && |ext| >= 2 && ext[0] == '.'
        && '.' !in ext[1..] && Separator !in ext
        && GetFileName(path) == GetFileNameWithoutExtension(path) + ext
  {
    if GetExtension(path) != "" {
      ExtensionChars(path);
      ExtensionCompletes(path);
    }
  }

  lemma ExtensionChars(path: string)
    requires GetExtension(path) != ""
    ensures var ext := GetExtension(path);
      && |ext| >= 2 && ext[0] == '.'
      && '.' !in ext[1..] && Separator !in ext
  {
    ExtensionNoDot(path);
    ExtensionNoSeparator(path);
  }

  lemma ExtensionNoDot(path: string)
    requires GetExtension(path) != ""
    ensures '.' !in GetExtension(path)[1..]
  {
    var dot := LastIndexOf(path, '.');
    NoneAfter(path, dot, '.');
    assert path[dot..][1..] == path[dot + 1..];
  }

  lemma ExtensionNoSeparator(path: string)
    requires GetExtension(path) != ""
    ensures Separator !in GetExtension(path)
  {
    var dot := LastIndexOf(path, '.');
    NoneAfter(path, dot - 1, Separator);
  }

  lemma ExtensionCompletes(path: string)
    requires GetExtension(path) != ""
    ensures GetFileName(path) == GetFileNameWithoutExtension(path) + GetExtension(path)
  {
    var dot := LastIndexOf(path, '.');
    var slash := LastIndexOf(path, Separator);
    FileNameAfter(path);
    LastIndexOfSuffix(path, slash + 1, '.');
    SplitName(path[slash + 1..], dot - (slash + 1), path[dot..]);
  }

  lemma FileNameAfter(path: string)
    ensures GetFileName(path) == path[LastIndexOf(path, Separator) + 1..]
  {
  }

  /** A name whose last '.' is at `k` is the part before it and `ext`. */
  lemma SplitName(name: string, k: int, ext: string)
    requires 0 <= k < |name| && LastIndexOf(name, '.') == k && ext == name[k..]
    ensures name == name[..LastIndexOf(name, '.')] + ext
  {
  }

  /** Nothing after the last occurrence of `c` is `c`. */
  lemma NoneAfter(s: string, r: int, c: char)
    requires -1 <= r < |s| && forall j :: r < j < |s| ==> s[j] != c
    ensures c !in s[r + 1..]
  {
    var t := s[r + 1..];
    forall i | 0 <= i < |t|
      ensures t[i] != c
    {
      assert t[i] == s[r + 1 + i];
    }
  }

  /** Dropping a prefix before the last occurrence of `c` shifts it. */
  lemma LastIndexOfSuffix(s: string, from: int, c: char)
    requires 0 <= from <= LastIndexOf(s, c)
    ensures LastIndexOf(s[from..], c) == LastIndexOf(s, c) - from
  {
    var r, t := LastIndexOf(s, c), s[from..];
    var r' := LastIndexOf(t, c);
    assert t[r - from] == c;
    assert r' >= 0 ==> s[r' + from] == t[r'];
  }
}
