/** The ECMAScript string operations the Markdown extensions rely on:
    trim, split, number-to-string and case-insensitive literal replacement. */
module Text {
  import opened Wrappers

  /** LineTerminator of ECMA-262: the characters `.` in a regular expression does not match. */
  predicate IsLineTerminator(c: char) {
    c == '\n' || c == '\r' || c == '\U{2028}' || c == '\U{2029}'
  }

  /** WhiteSpace and LineTerminator of ECMA-262: what String.prototype.trim removes. */
  predicate IsTrimmable(c: char) {
    || IsLineTerminator(c)
    || c == '\t' || c == '\U{000B}' || c == '\U{000C}' || c == ' '
    || c == '\U{00A0}' || c == '\U{FEFF}' || c == '\U{1680}'
    || ('\U{2000}' <= c <= '\U{200A}')
    || c == '\U{202F}' || c == '\U{205F}' || c == '\U{3000}'
  }

  predicate StartsWith(s: string, prefix: string) {
    |prefix| <= |s| && s[..|prefix|] == prefix
  }

  predicate EndsWith(s: string, suffix: string) {
    |suffix| <= |s| && s[|s| - |suffix|..] == suffix
  }

  /** `p` occurs in `s` starting at index `i`. */
  predicate OccursAt(s: string, i: nat, p: string) {
    i + |p| <= |s| && s[i..i + |p|] == p
  }

  /** An occurrence of a concatenation is an occurrence of each part, one after the other. */
  lemma OccursConcat(s: string, i: nat, a: string, b: string)
    ensures OccursAt(s, i, a + b) <==> OccursAt(s, i, a) && OccursAt(s, i + |a|, b)
  {
    if i + |a| + |b| <= |s| {
      var whole := s[i..i + |a| + |b|];
      assert whole == s[i..i + |a|] + s[i + |a|..i + |a| + |b|];
      if whole == a + b {
        assert whole[..|a|] == a && whole[|a|..] == b;
      }
    }
  }

  /** The index of the first `c` in `s`, as String.prototype.indexOf, with None for -1. */
  function IndexOf(s: string, c: char): (r: Option<nat>)
    ensures r.None? <==> c !in s
    ensures r.Some? ==> r.value < |s| && s[r.value] == c && c !in s[..r.value]
  {
    if s == [] then None
    else if s[0] == c then Some(0)
    else
      match IndexOf(s[1..], c)
      case None => None
      case Some(k) =>
        assert s[..k + 1] == [s[0]] + s[1..][..k];
        Some(k + 1)
  }

  // ---------------------------------------------------------------------------
  // String.prototype.trim

  /** The index of the first character at or after `i` that is not white space. */
  function TrimStartIndex(s: string, i: nat): (a: nat)
    requires i <= |s|
    ensures i <= a <= |s| && (a == |s| || !IsTrimmable(s[a]))
    ensures forall k :: i <= k < a ==> IsTrimmable(s[k])
    decreases |s| - i
  {
    if i < |s| && IsTrimmable(s[i]) then TrimStartIndex(s, i + 1) else i
  }

  /** The index just past the last character before `b`, and not before `lo`, that is not white
      space. */
  function TrimEndIndex(s: string, lo: nat, b: nat): (e: nat)
    requires lo <= b <= |s|
    ensures lo <= e <= b && (e == lo || !IsTrimmable(s[e - 1]))
    ensures forall k :: e <= k < b ==> IsTrimmable(s[k])
  {
    if lo < b && IsTrimmable(s[b - 1]) then TrimEndIndex(s, lo, b - 1) else b
  }

  /** String.prototype.trim: `s` without the white space at either end. */
  function Trim(s: string): string {
    var a := TrimStartIndex(s, 0);
    s[a..TrimEndIndex(s, a, |s|)]
  }

  /** Trim returns a slice of its argument surrounded only by white space. */
  lemma TrimIsSlice(s: string) returns (a: nat, b: nat)
    ensures a <= b <= |s| && Trim(s) == s[a..b]
    ensures forall k :: 0 <= k < a ==> IsTrimmable(s[k])
    ensures forall k :: b <= k < |s| ==> IsTrimmable(s[k])
  {
    a := TrimStartIndex(s, 0);
    b := TrimEndIndex(s, a, |s|);
  }

  /** Trim leaves no white space at either end. */
  lemma TrimEnds(s: string)
    ensures Trim(s) == [] || (!IsTrimmable(Trim(s)[0]) && !IsTrimmable(Trim(s)[|Trim(s)| - 1]))
  {
    var a := TrimStartIndex(s, 0);
    var b := TrimEndIndex(s, a, |s|);
    if a < b {
      assert Trim(s)[0] == s[a];
      assert Trim(s)[|Trim(s)| - 1] == s[b - 1];
    }
  }

  /** Trimming keeps the characters of its argument: anything absent from `s` is absent from it. */
  lemma TrimKeepsAbsence(s: string, c: char)
    requires c !in s
    ensures c !in Trim(s)
  {
    var a, b := TrimIsSlice(s);
  }

  /** Neither end is white space, so trim has nothing to remove. */
  predicate Trimmed(s: string) {
    s == [] || (!IsTrimmable(s[0]) && !IsTrimmable(s[|s| - 1]))
  }

  lemma TrimOfTrimmed(s: string)
    requires Trimmed(s)
    ensures Trim(s) == s
  {
    assert TrimStartIndex(s, 0) == 0;
    assert TrimEndIndex(s, 0, |s|) == |s|;
  }

  // ---------------------------------------------------------------------------
  // String.prototype.split with a one-character separator, and Array.prototype.join

  /** Array.prototype.join: the parts with `sep` between consecutive ones. */
  function Join(parts: seq<string>, sep: char): string {
    if |parts| == 0 then ""
    else if |parts| == 1 then parts[0]
    else parts[0] + [sep] + Join(parts[1..], sep)
  }

  /** String.prototype.split(sep): the pieces of `s` between occurrences of `sep`; an `s` without
      `sep` (the empty string included) gives the one-element list [s]. */
  function Split(s: string, sep: char): (parts: seq<string>)
    ensures |parts| >= 1
    ensures forall k :: 0 <= k < |parts| ==> sep !in parts[k]
    ensures Join(parts, sep) == s
    decreases |s|
  {
    match IndexOf(s, sep)
    case None => [s]
    case Some(i) =>
      var rest := Split(s[i + 1..], sep);
      assert s == s[..i] + [sep] + s[i + 1..];
      assert ([s[..i]] + rest)[1..] == rest;
      [s[..i]] + rest
  }

  /** Split is the inverse of Join: separator-free parts are recovered exactly. */
  lemma {:induction false} SplitJoin(parts: seq<string>, sep: char)
    requires |parts| >= 1
    requires forall k :: 0 <= k < |parts| ==> sep !in parts[k]
    ensures Split(Join(parts, sep), sep) == parts
  {
    if |parts| == 1 {
      assert Join(parts, sep) == parts[0];
    } else {
      var s := Join(parts, sep);
      var tail := Join(parts[1..], sep);
      assert s == parts[0] + [sep] + tail;
      assert s[|parts[0]|] == sep;
      assert s[..|parts[0]|] == parts[0];
      assert IndexOf(s, sep) == Some(|parts[0]|);
      assert s[|parts[0]| + 1..] == tail;
      SplitJoin(parts[1..], sep);
    }
  }

  /** A character absent from the joined text is absent from every part. */
  lemma {:induction false} JoinKeepsAbsence(parts: seq<string>, sep: char, c: char)
    requires c !in Join(parts, sep)
    ensures forall k :: 0 <= k < |parts| ==> c !in parts[k]
  {
    if |parts| > 1 {
      var tail := Join(parts[1..], sep);
      assert Join(parts, sep) == parts[0] + [sep] + tail;
      JoinKeepsAbsence(parts[1..], sep, c);
      forall k | 1 <= k < |parts| ensures c !in parts[k] {
        assert parts[k] == parts[1..][k - 1];
      }
    }
  }

  lemma SplitKeepsAbsence(s: string, sep: char, c: char)
    requires c !in s
    ensures forall k :: 0 <= k < |Split(s, sep)| ==> c !in Split(s, sep)[k]
  {
    JoinKeepsAbsence(Split(s, sep), sep, c);
  }

  /** A single piece exactly when the separator is absent, and then that piece is the whole string. */
  lemma SplitSingle(s: string, sep: char)
    ensures |Split(s, sep)| == 1 <==> sep !in s
    ensures sep !in s ==> Split(s, sep) == [s]
  {
    if sep in s {
      var i := IndexOf(s, sep).value;
      assert s == s[..i] + [sep] + s[i + 1..];
    }
  }

  /** With a separator present, the first piece is the text before the first separator and the
      second piece is the first piece of the text after it. */
  lemma SplitFirstTwo(s: string, sep: char, a: string, b: string)
    requires sep !in a && s == a + [sep] + b
    ensures |Split(s, sep)| >= 2
    ensures Split(s, sep)[0] == a && Split(s, sep)[1] == Split(b, sep)[0]
  {
    assert s[|a|] == sep && s[..|a|] == a;
    assert IndexOf(s, sep) == Some(|a|);
    assert s[|a| + 1..] == b;
  }

  /** A joined text starts with its first part, followed by the separator when more parts come. */
  lemma JoinStarts(parts: seq<string>, sep: char)
    requires |parts| >= 1
    ensures |parts[0]| <= |Join(parts, sep)| && Join(parts, sep)[..|parts[0]|] == parts[0]
    ensures |parts| == 1 ==> Join(parts, sep) == parts[0]
    ensures |parts| >= 2 ==> |parts[0]| < |Join(parts, sep)| && Join(parts, sep)[|parts[0]|] == sep
  {
    if |parts| >= 2 {
      assert Join(parts, sep) == parts[0] + [sep] + Join(parts[1..], sep);
    }
  }

  /** A word `a + sep + b`, with `sep` in neither `a` nor `b`, occurs in a join of separator-free
      parts only across a separator: where one part ends with `a` and the next starts with `b`. */
  /** One step of `JoinAvoids`: `a`, the separator and `b` do not occur in `x`, the separator and a
      tail `y` that starts with the part `z`, when `x` and `z` do not meet as `a` and `b`. */
  lemma JoinStepAvoids(x: string, y: string, z: string, sep: char, a: string, b: string, p: nat)
    requires sep !in x && sep !in a && sep !in b
    requires |z| <= |y| && y[..|z|] == z && (|z| < |y| ==> y[|z|] == sep)
    requires !(EndsWith(x, a) && StartsWith(z, b))
    requires forall q: nat :: !OccursAt(y, q, a + [sep] + b)
    ensures !OccursAt(x + [sep] + y, p, a + [sep] + b)
  {
    var s, w := x + [sep] + y, a + [sep] + b;
    if p + |w| <= |s| {
      var v := s[p..p + |w|];
      if p + |a| < |x| {
        assert v[|a|] == x[p + |a|] != sep;
        assert w[|a|] == sep;
      } else if p + |a| == |x| {
        SeamAvoids(x, y, z, sep, a, b, p);
      } else if p <= |x| {
        assert v[|x| - p] == sep;
        assert w[|x| - p] == a[|x| - p] != sep;
      } else {
        assert v == y[p - |x| - 1..p - |x| - 1 + |w|];
        assert !OccursAt(y, p - |x| - 1, w);
      }
    }
  }

  /** The occurrence that would straddle the separator between `x` and `y`. */
  lemma SeamAvoids(x: string, y: string, z: string, sep: char, a: string, b: string, p: nat)
    requires sep !in b
    requires |z| <= |y| && y[..|z|] == z && (|z| < |y| ==> y[|z|] == sep)
    requires !(EndsWith(x, a) && StartsWith(z, b))
    requires p + |a| == |x| && p + |a| + 1 + |b| <= |x| + 1 + |y|
    ensures !OccursAt(x + [sep] + y, p, a + [sep] + b)
  {
    var s, w := x + [sep] + y, a + [sep] + b;
    var v := s[p..p + |w|];
    if !EndsWith(x, a) {
      assert forall j :: p <= j < |x| ==> s[j] == x[j];
      assert v[..|a|] == x[|x| - |a|..] != a;
      assert w[..|a|] == a;
    } else {
      assert !StartsWith(z, b);
      assert v[|a| + 1..] == y[..|b|];
      if |z| >= |b| {
        assert y[..|b|] == z[..|b|] != b;
      } else {
        assert y[..|b|][|z|] == sep != b[|z|];
      }
      assert w[|a| + 1..] == b;
    }
  }

  lemma {:induction false} JoinAvoids(parts: seq<string>, sep: char, a: string, b: string)
    requires |parts| >= 1 && sep !in a && sep !in b
    requires forall k :: 0 <= k < |parts| ==> sep !in parts[k]
    requires forall k :: 0 <= k < |parts| - 1 ==> !(EndsWith(parts[k], a) && StartsWith(parts[k + 1], b))
    ensures forall p: nat :: !OccursAt(Join(parts, sep), p, a + [sep] + b)
    decreases |parts|
  {
    var s, w := Join(parts, sep), a + [sep] + b;
    if |parts| == 1 {
      forall p: nat ensures !OccursAt(s, p, w) {
        if p + |w| <= |s| {
          assert s[p..p + |w|][|a|] == s[p + |a|] != sep;
          assert w[|a|] == sep;
        }
      }
    } else {
      var x, y, rest := parts[0], Join(parts[1..], sep), parts[1..];
      assert s == x + [sep] + y;
      forall k | 0 <= k < |rest| - 1 ensures !(EndsWith(rest[k], a) && StartsWith(rest[k + 1], b)) {
        assert rest[k] == parts[k + 1] && rest[k + 1] == parts[k + 2];
      }
      JoinAvoids(rest, sep, a, b);
      JoinStarts(rest, sep);
      forall p: nat ensures !OccursAt(s, p, w) {
        JoinStepAvoids(x, y, rest[0], sep, a, b, p);
      }
    }
  }

  // ---------------------------------------------------------------------------
  // Number::toString for non-negative integers

  predicate IsDigit(c: char) {
    '0' <= c <= '9'
  }

  function DigitChar(d: nat): (c: char)
    requires d < 10
    ensures IsDigit(c) && c as int - '0' as int == d
  {
    ('0' as int + d) as char
  }

  /** The decimal notation of `n`, as String(n) writes it: digits only, no leading zero. */
  function Decimal(n: nat): (r: string)
    ensures |r| >= 1
    ensures forall k :: 0 <= k < |r| ==> IsDigit(r[k])
    ensures r[0] == '0' ==> n == 0
  {
    if n < 10 then [DigitChar(n)] else Decimal(n / 10) + [DigitChar(n % 10)]
  }

  function DigitValue(c: char): nat
    requires IsDigit(c)
  {
    c as int - '0' as int
  }

  /** The value of a string of decimal digits. */
  function DecimalValue(s: string): nat
    requires forall k :: 0 <= k < |s| ==> IsDigit(s[k])
  {
    if s == [] then 0
    else DecimalValue(s[..|s| - 1]) * 10 + DigitValue(s[|s| - 1])
  }

  /** Reading back a decimal notation gives the number: different numbers are written differently. */
  lemma {:induction false} DecimalRoundTrip(n: nat)
    ensures DecimalValue(Decimal(n)) == n
  {
    if n >= 10 {
      var r := Decimal(n);
      assert r[..|r| - 1] == Decimal(n / 10);
      DecimalRoundTrip(n / 10);
    }
  }

  lemma DecimalInjective(m: nat, n: nat)
    requires Decimal(m) == Decimal(n)
    ensures m == n
  {
    DecimalRoundTrip(m);
    DecimalRoundTrip(n);
  }

  // ---------------------------------------------------------------------------
  // Case-insensitive literal search, as a RegExp with the `i` flag and no `u` flag

  /** Canonicalize of ECMA-262 restricted to what matters for an ASCII pattern: ASCII letters fold
      to upper case, and no other character folds onto an ASCII one. */
  function Fold(c: char): (f: char)
    ensures (c as int < 128) <==> (f as int < 128)
  {
    if 'a' <= c <= 'z' then (c as int - 32) as char else c
  }

  /** Only `%` folds to `%`, digits fold to themselves, and nothing but `p` and `P` folds to `P`. */
  lemma FoldFacts(c: char)
    ensures Fold(c) == '%' <==> c == '%'
    ensures IsDigit(c) ==> Fold(c) == c
    ensures Fold(c) == 'P' <==> c == 'p' || c == 'P'
  {
  }

  predicate EqualsIgnoreCase(a: string, b: string) {
    |a| == |b| && forall k :: 0 <= k < |a| ==> Fold(a[k]) == Fold(b[k])
  }

  /** `p` occurs in `s` at index `i`, letters compared without regard to case. */
  predicate OccursIgnoreCaseAt(s: string, i: nat, p: string) {
    i + |p| <= |s| && EqualsIgnoreCase(s[i..i + |p|], p)
  }

  /** `text.replace(new RegExp(pat, 'gi'), rep)` for a pattern with no special characters and a
      replacement with no `$`: every occurrence found scanning left to right, without overlap,
      is replaced by `rep`. */
  function ReplaceAllIgnoreCase(s: string, pat: string, rep: string): string
    requires pat != []
    decreases |s|
  {
    if OccursIgnoreCaseAt(s, 0, pat) then rep + ReplaceAllIgnoreCase(s[|pat|..], pat, rep)
    else if s == [] then ""
    else [s[0]] + ReplaceAllIgnoreCase(s[1..], pat, rep)
  }

  lemma OccursShift(s: string, i: nat, pat: string)
    requires |s| > 0
    ensures OccursIgnoreCaseAt(s[1..], i, pat) <==> OccursIgnoreCaseAt(s, i + 1, pat)
  {
    if i + 1 + |pat| <= |s| {
      assert s[1..][i..i + |pat|] == s[i + 1..i + 1 + |pat|];
    }
  }

  /** Scanning past a prefix in which no occurrence starts copies that prefix unchanged. */
  lemma {:induction false} ReplaceSkipsPrefix(x: string, y: string, pat: string, rep: string)
    requires pat != []
    requires forall i :: 0 <= i < |x| ==> !OccursIgnoreCaseAt(x + y, i, pat)
    ensures ReplaceAllIgnoreCase(x + y, pat, rep) == x + ReplaceAllIgnoreCase(y, pat, rep)
    decreases |x|
  {
    var z := x + y;
    if x == [] {
      assert z == y;
    } else {
      assert !OccursIgnoreCaseAt(z, 0, pat);
      assert z[1..] == x[1..] + y;
      forall i | 0 <= i < |x| - 1 ensures !OccursIgnoreCaseAt(x[1..] + y, i, pat) {
        OccursShift(z, i, pat);
        assert !OccursIgnoreCaseAt(z, i + 1, pat);
      }
      ReplaceSkipsPrefix(x[1..], y, pat, rep);
      var tail := ReplaceAllIgnoreCase(y, pat, rep);
      calc {
        ReplaceAllIgnoreCase(z, pat, rep);
        [z[0]] + ReplaceAllIgnoreCase(z[1..], pat, rep);
        { assert z[0] == x[0]; }
        [x[0]] + ReplaceAllIgnoreCase(x[1..] + y, pat, rep);
        [x[0]] + (x[1..] + tail);
        ([x[0]] + x[1..]) + tail;
        { assert [x[0]] + x[1..] == x; }
        x + tail;
      }
    }
  }

  /** An occurrence at the very start is replaced, and scanning resumes right after it. */
  lemma ReplaceAtStart(x: string, y: string, pat: string, rep: string)
    requires pat != [] && EqualsIgnoreCase(x, pat)
    ensures ReplaceAllIgnoreCase(x + y, pat, rep) == rep + ReplaceAllIgnoreCase(y, pat, rep)
  {
    assert (x + y)[0..|pat|] == x;
    assert (x + y)[|pat|..] == y;
  }

  /** A text in which the pattern occurs nowhere is left unchanged. */
  lemma ReplaceWithoutOccurrence(s: string, pat: string, rep: string)
    requires pat != []
    requires forall i :: 0 <= i < |s| ==> !OccursIgnoreCaseAt(s, i, pat)
    ensures ReplaceAllIgnoreCase(s, pat, rep) == s
  {
    assert s + [] == s;
    ReplaceSkipsPrefix(s, [], pat, rep);
  }
}
