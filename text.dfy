/** The string functions of the .NET and JavaScript runtimes that the
    portfolio relies on, written out over `seq<char>`. */
module Text {
  import opened Common

  /** `Char.IsWhiteSpace` of .NET: the Unicode space separators, the line and
      paragraph separators, and U+0009..U+000D, U+0085, U+00A0. */
  predicate IsDotNetWhiteSpace(c: char) {
    || c == ' ' || ('\t' <= c <= '\r') || c == '\U{85}' || c == '\U{A0}'
    || c == '\U{1680}' || ('\U{2000}' <= c <= '\U{200A}') || c == '\U{2028}'
    || c == '\U{2029}' || c == '\U{202F}' || c == '\U{205F}' || c == '\U{3000}'
  }

  /** `string.IsNullOrWhiteSpace`: null, empty, or white space only. */
  predicate IsNullOrWhiteSpace(s: Option<string>)
    ensures s == Some("") ==> IsNullOrWhiteSpace(s)
    ensures s.Some? && |s.value| > 0 && !IsDotNetWhiteSpace(s.value[0]) ==> !IsNullOrWhiteSpace(s)
  {
    s.None? || forall i :: 0 <= i < |s.value| ==> IsDotNetWhiteSpace(s.value[i])
  }

  /** `needle` occurs in `hay` starting at offset `i`. */
  predicate OccursAt(hay: string, needle: string, i: int) {
    0 <= i <= |hay| - |needle| && hay[i..i + |needle|] == needle
  }

  /** Ordinal `string.Contains`: `needle` occurs in `hay` at some offset. */
  predicate Contains(hay: string, needle: string)
    ensures Contains(hay, needle) ==> |needle| <= |hay|
    ensures |needle| <= |hay| && hay[..|needle|] == needle ==> Contains(hay, needle)
  {
    assert |needle| <= |hay| && hay[..|needle|] == needle ==> OccursAt(hay, needle, 0);
    exists i | 0 <= i <= |hay| - |needle| :: OccursAt(hay, needle, i)
  }

  /** Ordinal `StartsWith`. */
  predicate StartsWith(s: string, prefix: string) {
    OccursAt(s, prefix, 0)
  }

  /** Ordinal `EndsWith`. */
  predicate EndsWith(s: string, suffix: string) {
    OccursAt(s, suffix, |s| - |suffix|)
  }

  /** The characters JavaScript's `String.prototype.trim` removes: white space
      (including U+FEFF but not U+0085) and line terminators. */
  predicate IsJsWhiteSpace(c: char) {
    || c == ' ' || ('\t' <= c <= '\r') || c == '\U{A0}' || c == '\U{FEFF}'
    || c == '\U{1680}' || ('\U{2000}' <= c <= '\U{200A}') || c == '\U{2028}'
    || c == '\U{2029}' || c == '\U{202F}' || c == '\U{205F}' || c == '\U{3000}'
  }

  /** Neither end of `s` is JavaScript white space. */
  predicate IsTrimmed(s: string) {
    |s| > 0 ==> !IsJsWhiteSpace(s[0]) && !IsJsWhiteSpace(s[|s| - 1])
  }

  /** `s` without its leading white space. */
  function TrimStart(s: string): (r: string)
    ensures |r| <= |s| && r == s[|s| - |r|..]
    ensures forall i :: 0 <= i < |s| - |r| ==> IsJsWhiteSpace(s[i])
    ensures |r| > 0 ==> !IsJsWhiteSpace(r[0])
    decreases |s|
  {
    if |s| > 0 && IsJsWhiteSpace(s[0]) then TrimStart(s[1..]) else s
  }

  /** `s` without its trailing white space. */
  function TrimEnd(s: string): (r: string)
    ensures |r| <= |s| && r == s[..|r|]
    ensures forall i :: |r| <= i < |s| ==> IsJsWhiteSpace(s[i])
    ensures |r| > 0 ==> !IsJsWhiteSpace(r[|r| - 1])
    decreases |s|
  {
    if |s| > 0 && IsJsWhiteSpace(s[|s| - 1]) then TrimEnd(s[..|s| - 1]) else s
  }

  /** `r` is the slice of `s` at offset `a`, and everything of `s` before
      and after that slice is white space. */
  predicate TrimmedFrom(s: string, r: string, a: int) {
    && 0 <= a <= |s| - |r| && r == s[a..a + |r|]
    && (forall i :: 0 <= i < a ==> IsJsWhiteSpace(s[i]))
    && (forall i :: a + |r| <= i < |s| ==> IsJsWhiteSpace(s[i]))
  }

  /** JavaScript `trim`: `s` without its leading and trailing white space.
      The two clauses fix the result: a trimmed slice of `s` with only white
      space around it. */
  function Trim(s: string): (r: string)
    ensures IsTrimmed(r)
    ensures exists a :: TrimmedFrom(s, r, a)
  {
    var t := TrimStart(s);
    TrimBothEnds(s, t, TrimEnd(t));
    TrimEnd(t)
  }

  /** Trimming the end of a string whose start was trimmed leaves a slice
      with only white space around it. */
  lemma TrimBothEnds(s: string, t: string, r: string)
    requires |t| <= |s| && t == s[|s| - |t|..]
    requires forall i :: 0 <= i < |s| - |t| ==> IsJsWhiteSpace(s[i])
    requires |r| <= |t| && r == t[..|r|]
    requires forall i :: |r| <= i < |t| ==> IsJsWhiteSpace(t[i])
    ensures TrimmedFrom(s, r, |s| - |t|)
  {
    assert s[|s| - |t|..][..|r|] == s[|s| - |t|..|s| - |t| + |r|];
    forall i | |s| - |t| + |r| <= i < |s| ensures IsJsWhiteSpace(s[i]) {
      assert s[i] == t[i - (|s| - |t|)];
    }
  }

  /** A character absent from a string is absent from its trimmed form. */
  lemma TrimKeepsAbsent(s: string, c: char)
    requires c !in s
    ensures c !in Trim(s)
  {
    var r := Trim(s);
    var a :| TrimmedFrom(s, r, a);
    forall i | 0 <= i < |r| ensures r[i] != c {
      assert r[i] == s[a + i];
    }
  }

  /** A trimmed slice with only white space around it is empty exactly
      when the whole string is white space. */
  lemma TrimmedFromEmpty(s: string, r: string, a: int)
    requires IsTrimmed(r) && TrimmedFrom(s, r, a)
    ensures |r| == 0 <==> forall i :: 0 <= i < |s| ==> IsJsWhiteSpace(s[i])
  {
    if |r| > 0 {
      assert s[a] == r[0];
    }
  }

  /** Only one string satisfies the contract of `Trim`. */
  lemma TrimUnique(s: string, r: string, a: int, r': string, a': int)
    requires IsTrimmed(r) && TrimmedFrom(s, r, a)
    requires IsTrimmed(r') && TrimmedFrom(s, r', a')
    ensures r == r'
  {
    TrimmedFromEmpty(s, r, a);
    TrimmedFromEmpty(s, r', a');
    if |r| > 0 {
      assert s[a] == r[0] && s[a'] == r'[0];
      assert !(a < a') && !(a' < a);
      assert s[a + |r| - 1] == r[|r| - 1] && s[a' + |r'| - 1] == r'[|r'| - 1];
      assert !(|r| < |r'|) && !(|r'| < |r|);
    }
  }

  /** Trimming an already trimmed string changes nothing. */
  lemma TrimOfTrimmed(s: string)
    requires IsTrimmed(s)
    ensures Trim(s) == s
  {
  }

  /** A single leading blank is trimmed away from a non-empty trimmed string. */
  lemma TrimLeadingBlank(t: string)
    requires IsTrimmed(t) && |t| > 0
    ensures Trim(" " + t) == t
  {
    assert (" " + t)[1..] == t;
  }

  /** Index of the first `c` in `s`, if any. */
  function IndexOf(s: string, c: char): (r: Option<nat>)
    ensures r.Some? ==> r.value < |s| && s[r.value] == c && c !in s[..r.value]
    ensures r.None? <==> c !in s
    decreases |s|
  {
    if |s| == 0 then None
    else if s[0] == c then Some(0)
    else match IndexOf(s[1..], c)
      case None => None
      case Some(k) => assert s[1..][..k] == s[1..k + 1]; Some(k + 1)
  }

  /** JavaScript `split` with a one-character separator: the maximal pieces
      between separators, empty ones included, so never an empty list. */
  function Split(s: string, c: char): (r: seq<string>)
    ensures |r| > 0
    ensures forall i :: 0 <= i < |r| ==> c !in r[i]
    decreases |s|
  {
    match IndexOf(s, c)
    case None => [s]
    case Some(k) => [s[..k]] + Split(s[k + 1..], c)
  }

  /** JavaScript `join`: the pieces with `sep` between neighbours. */
  function Join(pieces: seq<string>, sep: string): string
    decreases |pieces|
  {
    if |pieces| == 0 then ""
    else if |pieces| == 1 then pieces[0]
    else pieces[0] + sep + Join(pieces[1..], sep)
  }

  /** A join of no pieces is empty; otherwise it starts with the first
      piece, followed by the separator when more pieces follow. */
  lemma JoinStarts(pieces: seq<string>, sep: string)
    ensures |pieces| == 0 ==> Join(pieces, sep) == ""
    ensures |pieces| > 0 ==> StartsWith(Join(pieces, sep), pieces[0])
    ensures |pieces| > 1 ==> StartsWith(Join(pieces, sep), pieces[0] + sep)
  {
    if |pieces| == 1 {
      assert pieces[0][0..|pieces[0]|] == pieces[0];
    } else if |pieces| > 1 {
      var head := pieces[0] + sep;
      var r := head + Join(pieces[1..], sep);
      assert Join(pieces, sep) == r;
      assert r[0..|head|] == head;
      assert r[0..|pieces[0]|] == pieces[0];
    }
  }

  /** A join of pieces ends with the last piece. */
  lemma {:induction false} JoinEnds(pieces: seq<string>, sep: string)
    requires |pieces| > 0
    ensures EndsWith(Join(pieces, sep), pieces[|pieces| - 1])
    decreases |pieces|
  {
    var last := pieces[|pieces| - 1];
    if |pieces| == 1 {
      assert Join(pieces, sep) == last && last[0..|last|] == last;
    } else {
      var tail := pieces[1..];
      var rest := Join(tail, sep);
      JoinEnds(tail, sep);
      assert tail[|tail| - 1] == last;
      var r := pieces[0] + sep + rest;
      assert Join(pieces, sep) == r;
      assert rest[|rest| - |last|..|rest|] == last;
      assert r[|r| - |last|..|r|] == rest[|rest| - |last|..|rest|];
    }
  }

  /** Splitting at the first separator peels off the text before it. */
  lemma SplitAtSeparator(a: string, c: char, b: string)
    requires c !in a
    ensures Split(a + [c] + b, c) == [a] + Split(b, c)
  {
    var s := a + [c] + b;
    assert s[|a|] == c && s[..|a|] == a && s[|a| + 1..] == b;
  }

  /** Joining and splitting at the same character are inverse. */
  lemma {:induction false} SplitJoin(pieces: seq<string>, c: char)
    requires |pieces| > 0
    requires forall i :: 0 <= i < |pieces| ==> c !in pieces[i]
    ensures Split(Join(pieces, [c]), c) == pieces
    decreases |pieces|
  {
    if |pieces| == 1 {
      assert Join(pieces, [c]) == pieces[0];
    } else {
      var rest := pieces[1..];
      assert forall i :: 0 <= i < |rest| ==> rest[i] == pieces[i + 1];
      SplitJoin(rest, c);
      assert Join(pieces, [c]) == pieces[0] + [c] + Join(rest, [c]);
      SplitAtSeparator(pieces[0], c, Join(rest, [c]));
      assert [pieces[0]] + rest == pieces;
    }
  }

  /** The decimal digit for `d`. */
  function Digit(d: nat): (c: char)
    requires d < 10
    ensures '0' <= c <= '9' && c as int - '0' as int == d
  {
    ('0' as int + d) as char
  }

  predicate IsDigit(c: char) { '0' <= c <= '9' }

  predicate AllDigits(s: string) {
    forall i :: 0 <= i < |s| ==> IsDigit(s[i])
  }

  /** The number a string of decimal digits denotes. */
  function DigitsValue(s: string): (n: nat)
    requires AllDigits(s)
    decreases |s|
  {
    if |s| == 0 then 0
    else DigitsValue(s[..|s| - 1]) * 10 + (s[|s| - 1] as int - '0' as int)
  }

  /** The number an optional minus followed by decimal digits denotes. */
  function IntValue(s: string): int
    requires |s| > 0 ==> (s[0] == '-' && AllDigits(s[1..])) || AllDigits(s)
  {
    if |s| > 0 && s[0] == '-' then 0 - DigitsValue(s[1..]) else DigitsValue(s)
  }

  predicate IsDigitOrMinus(c: char) {
    ('0' <= c <= '9') || c == '-'
  }

  /** The decimal digits of `n`, without leading zeros. */
  function NatToString(n: nat): (r: string)
    ensures |r| > 0 && AllDigits(r)
    ensures DigitsValue(r) == n
    ensures r[0] == '0' <==> n == 0
    ensures n == 0 ==> r == "0"
    decreases n
  {
    if n < 10 then [Digit(n)]
    else
      var r := NatToString(n / 10) + [Digit(n % 10)];
      assert r[..|r| - 1] == NatToString(n / 10);
      r
  }

  /** C# `int.ToString()` in the invariant culture: a minus exactly for a
      negative number, then the digits of its magnitude without leading
      zeros; the string denotes `i`. */
  function IntToString(i: int): (r: string)
    ensures |r| > 0 && forall k :: 0 <= k < |r| ==> IsDigitOrMinus(r[k])
    ensures r[0] == '-' <==> i < 0
    ensures i < 0 ==> AllDigits(r[1..]) && r[1..] == NatToString(-i)
    ensures i >= 0 ==> AllDigits(r) && r == NatToString(i)
    ensures IntValue(r) == i
  {
    if i < 0 then
      var r := "-" + NatToString(-i);
      assert r[1..] == NatToString(-i);
      r
    else NatToString(i)
  }

  /** Different numbers have different decimal strings. */
  lemma IntToStringInjective(i: int, j: int)
    requires IntToString(i) == IntToString(j)
    ensures i == j
  {
    assert IntValue(IntToString(i)) == IntValue(IntToString(j));
  }

  /** C# `string.Replace(pattern, replacement)`: every non-overlapping occurrence of
      `pattern`, scanning left to right, is replaced by `replacement`. */
  function ReplaceAll(s: string, pattern: string, replacement: string): string
    requires |pattern| > 0
    decreases |s|
  {
    if |s| == 0 then ""
    else if StartsWith(s, pattern) then replacement + ReplaceAll(s[|pattern|..], pattern, replacement)
    else [s[0]] + ReplaceAll(s[1..], pattern, replacement)
  }

  /** A replacement no longer than the pattern does not lengthen the
      string, one of the same length keeps its length, and deleting the
      pattern shortens exactly a string where it occurs. */
  lemma {:induction false} ReplaceAllLength(s: string, pattern: string, replacement: string)
    requires |pattern| > 0
    ensures |replacement| <= |pattern| ==> |ReplaceAll(s, pattern, replacement)| <= |s|
    ensures |replacement| == |pattern| ==> |ReplaceAll(s, pattern, replacement)| == |s|
    ensures |replacement| == 0 ==> (|ReplaceAll(s, pattern, replacement)| < |s| <==> exists i :: OccursAt(s, pattern, i))
    decreases |s|
  {
    if |s| > 0 {
      if StartsWith(s, pattern) {
        ReplaceAllLength(s[|pattern|..], pattern, replacement);
        assert OccursAt(s, pattern, 0);
      } else {
        var t := s[1..];
        ReplaceAllLength(t, pattern, replacement);
        assert !OccursAt(s, pattern, 0);
        forall i ensures OccursAt(t, pattern, i) <==> OccursAt(s, pattern, i + 1) {
          if 0 <= i <= |t| - |pattern| {
            assert t[i..i + |pattern|] == s[i + 1..i + 1 + |pattern|];
          }
        }
        if exists i :: OccursAt(s, pattern, i) {
          var i :| OccursAt(s, pattern, i);
          assert OccursAt(t, pattern, i - 1);
        }
      }
    }
  }

  /** A string with no occurrence of `pattern` is left as it is. */
  lemma {:induction false} ReplaceAbsent(s: string, pattern: string, replacement: string)
    requires |pattern| > 0
    requires forall i :: !OccursAt(s, pattern, i)
    ensures ReplaceAll(s, pattern, replacement) == s
    decreases |s|
  {
    if |s| > 0 {
      forall i ensures !OccursAt(s[1..], pattern, i) {
        if 0 <= i <= |s[1..]| - |pattern| {
          assert s[1..][i..i + |pattern|] == s[i + 1..i + 1 + |pattern|];
          assert !OccursAt(s, pattern, i + 1);
        }
      }
      assert !OccursAt(s, pattern, 0);
      ReplaceAbsent(s[1..], pattern, replacement);
      assert [s[0]] + s[1..] == s;
    }
  }

  /** C# `TrimStart(c)`: `s` without its leading run of `c`. */
  function TrimStartChar(s: string, c: char): (r: string)
    ensures |r| <= |s| && r == s[|s| - |r|..]
    ensures forall i :: 0 <= i < |s| - |r| ==> s[i] == c
    ensures |r| > 0 ==> r[0] != c
    decreases |s|
  {
    if |s| > 0 && s[0] == c then TrimStartChar(s[1..], c) else s
  }
}

/** C#'s 32-bit `int`: the range of a value and unchecked wrap-around. */
module Int32 {
  const Min: int := -0x8000_0000
  const Max: int := 0x7fff_ffff

  predicate InRange(x: int) { Min <= x <= Max }

  /** Unchecked arithmetic: the result modulo 2^32 in [Min, Max]. */
  function Wrap(x: int): (r: int)
    ensures InRange(r)
    ensures (r - x) % 0x1_0000_0000 == 0
    ensures InRange(x) ==> r == x
  {
    (x - Min) % 0x1_0000_0000 + Min
  }
}
