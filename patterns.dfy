/** Hand-written scanners for the regular expressions of the Markdown extensions, each with the
    predicate describing the text its regular expression accepts and the lemmas tying the two:
    what the scanner returns is a match, a match exists only if the scanner finds one, and where
    the expression has lazy groups the scanner's choice is the shortest. */
module Patterns {
  import opened Wrappers
  import opened Text

  /** A match found at some index: where it ends and its capture groups $1, $2, .... */
  datatype Match = Match(end: nat, groups: seq<string>)

  /** No character of `t` is a line terminator, so `.*` can span it. */
  predicate SingleLine(t: string) {
    forall k :: 0 <= k < |t| ==> !IsLineTerminator(t[k])
  }

  /** The index of the first `c` at or after `from`. */
  function FindFrom(s: string, from: nat, c: char): (r: Option<nat>)
    requires from <= |s|
    ensures r.Some? ==> from <= r.value < |s| && s[r.value] == c
    ensures r.Some? ==> forall k :: from <= k < r.value ==> s[k] != c
    ensures r.None? ==> forall k :: from <= k < |s| ==> s[k] != c
    decreases |s| - from
  {
    if from == |s| then None
    else if s[from] == c then Some(from)
    else FindFrom(s, from + 1, c)
  }

  /** The first `c` at or after `from` is at `j` exactly when `j` holds `c` and nothing between
      does. */
  lemma FindFromAt(s: string, from: nat, c: char, j: nat)
    requires from <= j < |s| && s[j] == c && c !in s[from..j]
    ensures FindFrom(s, from, c) == Some(j)
  {
    assert forall k :: from <= k < j ==> s[k] == s[from..j][k - from];
  }

  /** `(.*?)close` from index `k`: the first index at or after `k` where `close` occurs, provided
      no line terminator comes first. */
  function LazyUntil(s: string, k: nat, close: string): (r: Option<nat>)
    requires k <= |s|
    ensures r.Some? ==> k <= r.value && OccursAt(s, r.value, close) && SingleLine(s[k..r.value])
    ensures r.Some? ==> forall e :: k <= e < r.value ==> !OccursAt(s, e, close)
    decreases |s| - k
  {
    if OccursAt(s, k, close) then Some(k)
    else if k < |s| && !IsLineTerminator(s[k]) then
      var r := LazyUntil(s, k + 1, close);
      assert r.Some? ==> s[k..r.value] == [s[k]] + s[k + 1..r.value];
      r
    else None
  }

  /** If `close` occurs at `e` with a single line between `k` and `e`, the lazy search succeeds
      no later than `e`. */
  lemma {:induction false} LazyUntilFinds(s: string, k: nat, close: string, e: nat)
    requires k <= e <= |s| && OccursAt(s, e, close) && SingleLine(s[k..e])
    ensures LazyUntil(s, k, close).Some? && LazyUntil(s, k, close).value <= e
    decreases e - k
  {
    if k < e && !OccursAt(s, k, close) {
      assert s[k] == s[k..e][0];
      assert s[k + 1..e] == s[k..e][1..];
      LazyUntilFinds(s, k + 1, close, e);
    }
  }

  // ---------------------------------------------------------------------------
  // \[([^\]]*)\]\(((?:T1|T2|T3)/[^\)]*)\)  -- the special-link encoder

  /** The alternation `(?:t1|t2|...)/[^\)]*\)` at index `p`: the tokens are tried in order, and the
      result names the first one that leads to a match and the index of the closing parenthesis. */
  function TokenPath(s: string, p: nat, tokens: seq<string>): (r: Option<(nat, nat)>)
    requires p <= |s|
    ensures r.Some? ==> r.value.0 < |tokens| && p + |tokens[r.value.0]| + 1 <= r.value.1 < |s| && s[r.value.1] == ')'
    ensures r.Some? ==> OccursAt(s, p, tokens[r.value.0] + "/")
    ensures r.Some? ==> forall k :: p + |tokens[r.value.0]| + 1 <= k < r.value.1 ==> s[k] != ')'
  {
    if tokens == [] then None
    else if OccursAt(s, p, tokens[0] + "/") && FindFrom(s, p + |tokens[0]| + 1, ')').Some? then
      Some((0, FindFrom(s, p + |tokens[0]| + 1, ')').value))
    else
      var rest := TokenPath(s, p, tokens[1..]);
      if rest.None? then None else Some((rest.value.0 + 1, rest.value.1))
  }

  /** The text the encoder's expression accepts at `i`: `[`, a link text without `]`, `](`, one of
      the tokens and `/`, a path without `)`, and `)`. */
  predicate IsSpecialLink(s: string, i: nat, tokens: seq<string>, g1: string, g2: string) {
    && OccursAt(s, i, "[" + g1 + "](" + g2 + ")")
    && ']' !in g1
    && exists t :: t in tokens && IsTokenPath(g2, t)
  }

  /** `path` is `t`, a slash, and text without `)`. */
  predicate IsTokenPath(path: string, t: string) {
    StartsWith(path, t + "/") && ')' !in path[|t| + 1..]
  }

  lemma SpecialLinkShape(s: string, i: nat, j: nat, q: nat, tokens: seq<string>, t: nat)
    requires i < j && j + 2 <= q < |s| && t < |tokens|
    requires s[i] == '[' && ']' !in s[i + 1..j] && s[j] == ']' && s[j + 1] == '(' && s[q] == ')'
    requires OccursAt(s, j + 2, tokens[t] + "/") && j + 2 + |tokens[t]| + 1 <= q && ')' !in s[j + 2 + |tokens[t]| + 1..q]
    ensures IsSpecialLink(s, i, tokens, s[i + 1..j], s[j + 2..q])
  {
    var g1, g2 := s[i + 1..j], s[j + 2..q];
    assert OccursAt(s, i, "[" + g1) by {
      SliceOccurs(s, i + 1, j);
      assert OccursAt(s, i, "[");
      Append(s, i, "[", g1);
    }
    assert OccursAt(s, i, "[" + g1 + "](") by {
      assert OccursAt(s, j, "](");
      Append(s, i, "[" + g1, "](");
    }
    assert OccursAt(s, i, "[" + g1 + "](" + g2) by {
      SliceOccurs(s, j + 2, q);
      Append(s, i, "[" + g1 + "](", g2);
    }
    assert OccursAt(s, i, "[" + g1 + "](" + g2 + ")") by {
      assert OccursAt(s, q, ")");
      Append(s, i, "[" + g1 + "](" + g2, ")");
    }
    var tok := tokens[t];
    assert IsTokenPath(g2, tok) by {
      assert g2[..|tok| + 1] == s[j + 2..j + 2 + |tok| + 1];
      assert g2[|tok| + 1..] == s[j + 2 + |tok| + 1..q];
    }
    assert tok in tokens;
  }

  /** The scanner for the encoder's expression at index `i`; what it returns is a match of the
      expression. */
  function SpecialLinkAt(s: string, i: nat, tokens: seq<string>): (m: Option<Match>)
    requires i <= |s|
    ensures m.Some? ==> i < m.value.end <= |s| && |m.value.groups| == 2
  {
    if i == |s| || s[i] != '[' then None
    else
      var close := FindFrom(s, i + 1, ']');
      if close.None? then None
      else
        var j := close.value;
        if j + 1 == |s| || s[j + 1] != '(' then None
        else
          var tp := TokenPath(s, j + 2, tokens);
          if tp.None? then None
          else Some(Match(tp.value.1 + 1, [s[i + 1..j], s[j + 2..tp.value.1]]))
  }

  /** What the scanner returns is a match of the expression. */
  lemma SpecialLinkSound(s: string, i: nat, tokens: seq<string>)
    requires i <= |s| && SpecialLinkAt(s, i, tokens).Some?
    ensures var m := SpecialLinkAt(s, i, tokens).value;
      && IsSpecialLink(s, i, tokens, m.groups[0], m.groups[1])
      && m.end == i + |m.groups[0]| + |m.groups[1]| + 4
  {
    var j := FindFrom(s, i + 1, ']').value;
    var tq := TokenPath(s, j + 2, tokens).value;
    SpecialLinkShape(s, i, j, tq.1, tokens, tq.0);
  }

  lemma {:induction false} TokenPathFinds(s: string, p: nat, tokens: seq<string>, t: string, q: nat)
    requires p <= q < |s| && s[q] == ')' && t in tokens
    requires forall u :: u in tokens ==> ')' !in u
    requires StartsWith(s[p..q], t + "/") && ')' !in s[p..q]
    ensures TokenPath(s, p, tokens).Some? && TokenPath(s, p, tokens).value.1 == q
  {
    var lead := tokens[0] + "/";
    if tokens[0] == t {
      assert s[p..q][..|t| + 1] == s[p..p + |t| + 1];
    }
    if OccursAt(s, p, lead) {
      assert ')' !in lead;
      assert forall k :: p <= k < p + |lead| ==> s[k] == lead[k - p];
      assert p + |lead| <= q;
      assert s[p + |lead|..q] == s[p..q][|lead|..];
      assert FindFrom(s, p + |lead|, ')') == Some(q);
    } else {
      assert t in tokens[1..];
      TokenPathFinds(s, p, tokens[1..], t, q);
    }
  }

  lemma SpecialLinkParts(s: string, i: nat, tokens: seq<string>, g1: string, g2: string, j: nat, q: nat)
    requires IsSpecialLink(s, i, tokens, g1, g2)
    requires j == i + 1 + |g1| && q == j + 2 + |g2|
    ensures q < |s| && s[i] == '[' && s[i + 1..j] == g1 && s[j] == ']' && s[j + 1] == '('
    ensures s[j + 2..q] == g2 && s[q] == ')'
  {
    OccursConcat(s, i, "[" + g1 + "](" + g2, ")");
    OccursConcat(s, i, "[" + g1 + "](", g2);
    OccursConcat(s, i, "[" + g1, "](");
    OccursConcat(s, i, "[", g1);
  }

  lemma PathWithoutParen(tokens: seq<string>, g2: string) returns (t: string)
    requires forall u :: u in tokens ==> ')' !in u
    requires exists t :: t in tokens && IsTokenPath(g2, t)
    ensures t in tokens && StartsWith(g2, t + "/") && ')' !in g2
  {
    t :| t in tokens && IsTokenPath(g2, t);
    assert g2 == (t + "/") + g2[|t| + 1..];
    assert ')' !in t + "/";
  }

  /** With tokens free of `)`, every text the expression accepts is the scanner's match. */
  lemma SpecialLinkComplete(s: string, i: nat, tokens: seq<string>, g1: string, g2: string)
    requires i <= |s| && IsSpecialLink(s, i, tokens, g1, g2)
    requires forall u :: u in tokens ==> ')' !in u
    ensures SpecialLinkAt(s, i, tokens) == Some(Match(i + |g1| + |g2| + 4, [g1, g2]))
  {
    var j, q := i + 1 + |g1|, i + 3 + |g1| + |g2|;
    SpecialLinkParts(s, i, tokens, g1, g2, j, q);
    var t := PathWithoutParen(tokens, g2);
    SpecialLinkCompleteAt(s, i, j, q, tokens, t);
  }

  lemma SpecialLinkCompleteAt(s: string, i: nat, j: nat, q: nat, tokens: seq<string>, t: string)
    requires i < j && j + 2 <= q < |s|
    requires s[i] == '[' && ']' !in s[i + 1..j] && s[j] == ']' && s[j + 1] == '(' && s[q] == ')'
    requires t in tokens && StartsWith(s[j + 2..q], t + "/") && ')' !in s[j + 2..q]
    requires forall u :: u in tokens ==> ')' !in u
    ensures SpecialLinkAt(s, i, tokens) == Some(Match(q + 1, [s[i + 1..j], s[j + 2..q]]))
  {
    FindFromAt(s, i + 1, ']', j);
    TokenPathFinds(s, j + 2, tokens, t, q);
    SpecialLinkAtFound(s, i, tokens, j, q);
  }

  lemma SpecialLinkAtFound(s: string, i: nat, tokens: seq<string>, j: nat, q: nat)
    requires i < |s| && s[i] == '[' && FindFrom(s, i + 1, ']') == Some(j)
    requires j + 1 < |s| && s[j + 1] == '('
    requires TokenPath(s, j + 2, tokens).Some? && TokenPath(s, j + 2, tokens).value.1 == q
    ensures SpecialLinkAt(s, i, tokens) == Some(Match(q + 1, [s[i + 1..j], s[j + 2..q]]))
  {
    var tp := TokenPath(s, j + 2, tokens);
    assert j + 2 <= q < |s|;
    var groups := [s[i + 1..j], s[j + 2..tp.value.1]];
    assert groups == [s[i + 1..j], s[j + 2..q]];
  }

  // ---------------------------------------------------------------------------
  // OPEN(.*?)LEAD([^"]+)"(.*?)CLOSE  -- the attachment, note and tag rules

  /** The part of a tag expression after its first lazy group, with that group ending at `k1`:
      the attribute prefix, a non-empty value up to the first quote, and the lazy tail up to
      `close`. The result holds the index of the closing quote and the index where `close` starts. */
  function TagRest(s: string, k1: nat, lead: string, close: string): (r: Option<(nat, nat)>)
    requires k1 <= |s|
    ensures r.Some? ==> OccursAt(s, k1, lead) && k1 + |lead| < r.value.0 < r.value.1 && OccursAt(s, r.value.1, close)
    ensures r.Some? ==> s[r.value.0] == '"' && '"' !in s[k1 + |lead|..r.value.0] && SingleLine(s[r.value.0 + 1..r.value.1])
    ensures r.Some? ==> forall e :: r.value.0 + 1 <= e < r.value.1 ==> !OccursAt(s, e, close)
  {
    if !OccursAt(s, k1, lead) then None
    else
      var quote := FindFrom(s, k1 + |lead|, '"');
      if quote.None? || quote.value == k1 + |lead| then None
      else
        var tail := LazyUntil(s, quote.value + 1, close);
        if tail.None? then None else Some((quote.value, tail.value))
  }

  /** `(.*?)` followed by the rest of a tag expression, from index `k1`: the first end of the lazy
      group for which the rest matches, without crossing a line terminator. */
  function LazyTag(s: string, k1: nat, lead: string, close: string): (r: Option<(nat, nat, nat)>)
    requires k1 <= |s|
    ensures r.Some? ==> (k1 <= r.value.0 <= |s| && SingleLine(s[k1..r.value.0])
      && TagRest(s, r.value.0, lead, close) == Some((r.value.1, r.value.2)))
    decreases |s| - k1
  {
    var rest := TagRest(s, k1, lead, close);
    if rest.Some? then Some((k1, rest.value.0, rest.value.1))
    else
      if k1 < |s| && !IsLineTerminator(s[k1]) then
        var r := LazyTag(s, k1 + 1, lead, close);
        assert r.Some? ==> s[k1..r.value.0] == [s[k1]] + s[k1 + 1..r.value.0];
        r
      else None
  }

  /** The text a tag expression accepts at `i`, with its three groups. */
  predicate IsTagMatch(s: string, i: nat, open: string, lead: string, close: string, g1: string, g2: string, g3: string) {
    && OccursAt(s, i, open + g1 + lead + g2 + "\"" + g3 + close)
    && SingleLine(g1) && SingleLine(g3)
    && g2 != [] && '"' !in g2
  }

  lemma TagShape(s: string, i: nat, open: string, lead: string, close: string, k1: nat, q: nat, k3: nat)
    requires i + |open| <= k1 && k1 + |lead| < q < k3 <= |s|
    requires OccursAt(s, i, open) && SingleLine(s[i + |open|..k1]) && OccursAt(s, k1, lead)
    requires s[q] == '"' && '"' !in s[k1 + |lead|..q] && SingleLine(s[q + 1..k3]) && OccursAt(s, k3, close)
    ensures IsTagMatch(s, i, open, lead, close, s[i + |open|..k1], s[k1 + |lead|..q], s[q + 1..k3])
  {
    var g1, g2, g3 := s[i + |open|..k1], s[k1 + |lead|..q], s[q + 1..k3];
    var a1 := open + g1;
    assert OccursAt(s, i, a1) && i + |a1| == k1 by {
      SliceOccurs(s, i + |open|, k1);
      Append(s, i, open, g1);
    }
    var a2 := a1 + lead;
    assert OccursAt(s, i, a2) && i + |a2| == k1 + |lead| by {
      Append(s, i, a1, lead);
    }
    var a3 := a2 + g2;
    assert OccursAt(s, i, a3) && i + |a3| == q by {
      SliceOccurs(s, k1 + |lead|, q);
      Append(s, i, a2, g2);
    }
    var a4 := a3 + "\"";
    assert OccursAt(s, i, a4) && i + |a4| == q + 1 by {
      QuoteOccurs(s, q);
      Append(s, i, a3, "\"");
    }
    var a5 := a4 + g3;
    assert OccursAt(s, i, a5) && i + |a5| == k3 by {
      SliceOccurs(s, q + 1, k3);
      Append(s, i, a4, g3);
    }
    Append(s, i, a5, close);
  }

  lemma SliceOccurs(s: string, a: nat, b: nat)
    requires a <= b <= |s|
    ensures OccursAt(s, a, s[a..b]) && |s[a..b]| == b - a
  {
  }

  lemma QuoteOccurs(s: string, q: nat)
    requires q < |s| && s[q] == '"'
    ensures OccursAt(s, q, "\"")
  {
    assert s[q..q + 1] == [s[q]];
  }

  /** Two occurrences side by side are an occurrence of the concatenation. */
  lemma Append(s: string, i: nat, a: string, b: string)
    requires OccursAt(s, i, a) && OccursAt(s, i + |a|, b)
    ensures OccursAt(s, i, a + b) && |a + b| == |a| + |b|
  {
    OccursConcat(s, i, a, b);
  }

  /** The scanner for `open(.*?)lead([^"]+)"(.*?)close` at index `i`; what it returns is a match of
      the expression. */
  function TagAt(s: string, i: nat, open: string, lead: string, close: string): (m: Option<Match>)
    requires i <= |s|
    ensures m.Some? ==> i < m.value.end <= |s| && |m.value.groups| == 3
    ensures m.Some? ==> IsTagMatch(s, i, open, lead, close, m.value.groups[0], m.value.groups[1], m.value.groups[2])
    ensures m.Some? ==>
      m.value.end == i + |open| + |m.value.groups[0]| + |lead| + |m.value.groups[1]| + 1 + |m.value.groups[2]| + |close|
  {
    if !OccursAt(s, i, open) then None
    else
      var lt := LazyTag(s, i + |open|, lead, close);
      if lt.None? then None
      else
        var k1, q, k3 := lt.value.0, lt.value.1, lt.value.2;
        TagShape(s, i, open, lead, close, k1, q, k3);
        Some(Match(k3 + |close|, [s[i + |open|..k1], s[k1 + |lead|..q], s[q + 1..k3]]))
  }

  /** From a lazy start `k1` at or before the end `e1` of a matching first group, the scanner stops at
      the first end for which the rest matches, never later than `e1`; and stopping at `e1` itself,
      its tail is no longer than `e3`. */
  lemma {:induction false} LazyTagFinds(s: string, k1: nat, lead: string, close: string, e1: nat, q: nat, e3: nat)
    requires k1 <= e1 <= |s| && SingleLine(s[k1..e1])
    requires e1 + |lead| < q < e3 <= |s| && OccursAt(s, e1, lead) && s[q] == '"' && '"' !in s[e1 + |lead|..q]
    requires OccursAt(s, e3, close) && SingleLine(s[q + 1..e3])
    ensures var r := LazyTag(s, k1, lead, close);
      r.Some? && r.value.0 <= e1 && (r.value.0 == e1 ==> r.value.1 == q && r.value.2 <= e3)
    decreases e1 - k1
  {
    if k1 == e1 {
      TagRestAt(s, e1, lead, close, q, e3);
    } else if TagRest(s, k1, lead, close).None? {
      assert s[k1] == s[k1..e1][0];
      assert s[k1 + 1..e1] == s[k1..e1][1..];
      LazyTagFinds(s, k1 + 1, lead, close, e1, q, e3);
    }
  }

  /** Where the rest of a tag expression matches at `e1`, the scanner finds the same quote and a
      tail no longer than the matching one. */
  lemma TagRestAt(s: string, e1: nat, lead: string, close: string, q: nat, e3: nat)
    requires e1 + |lead| < q < e3 <= |s| && OccursAt(s, e1, lead) && s[q] == '"' && '"' !in s[e1 + |lead|..q]
    requires OccursAt(s, e3, close) && SingleLine(s[q + 1..e3])
    ensures TagRest(s, e1, lead, close).Some?
    ensures TagRest(s, e1, lead, close).value.0 == q && TagRest(s, e1, lead, close).value.1 <= e3
  {
    FindFromAt(s, e1 + |lead|, '"', q);
    LazyUntilFinds(s, q + 1, close, e3);
  }

  /** Every text the expression accepts makes the scanner match, and the scanner prefers the
      shortest first group and, for that group, the shortest third group: the lazy reading of
      `(.*?)`. */
  lemma TagComplete(s: string, i: nat, open: string, lead: string, close: string, g1: string, g2: string, g3: string)
    requires i <= |s| && IsTagMatch(s, i, open, lead, close, g1, g2, g3)
    ensures TagAt(s, i, open, lead, close).Some?
    ensures var m := TagAt(s, i, open, lead, close).value;
      |m.groups[0]| <= |g1| && (|m.groups[0]| == |g1| ==> m.groups[1] == g2 && |m.groups[2]| <= |g3|)
  {
    var k1 := i + |open|;
    var e1 := k1 + |g1|;
    var q := e1 + |lead| + |g2|;
    var e3 := q + 1 + |g3|;
    TagParts(s, i, open, lead, close, g1, g2, g3, k1, e1, q, e3);
    TagCompleteAt(s, i, open, lead, close, e1, q, e3);
  }

  lemma TagCompleteAt(s: string, i: nat, open: string, lead: string, close: string, e1: nat, q: nat, e3: nat)
    requires OccursAt(s, i, open) && i + |open| <= e1 <= |s| && SingleLine(s[i + |open|..e1])
    requires e1 + |lead| < q < e3 <= |s| && OccursAt(s, e1, lead) && s[q] == '"' && '"' !in s[e1 + |lead|..q]
    requires OccursAt(s, e3, close) && SingleLine(s[q + 1..e3])
    ensures TagAt(s, i, open, lead, close).Some?
    ensures var m := TagAt(s, i, open, lead, close).value;
      |m.groups[0]| <= e1 - i - |open| && (|m.groups[0]| == e1 - i - |open| ==> m.groups[1] == s[e1 + |lead|..q] && |m.groups[2]| <= e3 - q - 1)
  {
    LazyTagFinds(s, i + |open|, lead, close, e1, q, e3);
  }

  /** Where the pieces of an accepted text sit. */
  lemma TagParts(s: string, i: nat, open: string, lead: string, close: string, g1: string, g2: string, g3: string,
                 k1: nat, e1: nat, q: nat, e3: nat)
    requires IsTagMatch(s, i, open, lead, close, g1, g2, g3)
    requires k1 == i + |open| && e1 == k1 + |g1| && q == e1 + |lead| + |g2| && e3 == q + 1 + |g3|
    ensures OccursAt(s, i, open) && e3 <= |s|
    ensures s[k1..e1] == g1 && OccursAt(s, e1, lead) && s[e1 + |lead|..q] == g2 && s[q] == '"'
    ensures s[q + 1..e3] == g3 && OccursAt(s, e3, close)
  {
    var a1 := open + g1;
    var a2 := a1 + lead;
    var a3 := a2 + g2;
    var a4 := a3 + "\"";
    var a5 := a4 + g3;
    assert OccursAt(s, i, a5 + close);
    OccursConcat(s, i, a5, close);
    OccursConcat(s, i, a4, g3);
    OccursConcat(s, i, a3, "\"");
    OccursConcat(s, i, a2, g2);
    OccursConcat(s, i, a1, lead);
    OccursConcat(s, i, open, g1);
  }

  // ---------------------------------------------------------------------------
  // (?<!`)\[\[(.*?)\]\]  -- the wikilink capture

  /** The scanner for a wikilink at index `i`: `[[` not preceded by a backtick, then the shortest
      single-line text up to `]]`. The look-behind reads the text being scanned, before any
      replacement. */
  function WikilinkAt(s: string, i: nat): (m: Option<Match>)
    requires i <= |s|
    ensures m.Some? ==> i < m.value.end <= |s| && |m.value.groups| == 1
    ensures m.Some? ==> m.value.end == i + |m.value.groups[0]| + 4
    ensures m.Some? ==> (i == 0 || s[i - 1] != '`') && OccursAt(s, i, "[[" + m.value.groups[0] + "]]") && SingleLine(m.value.groups[0])
  {
    if (i == 0 || s[i - 1] != '`') && OccursAt(s, i, "[[") then
      match LazyUntil(s, i + 2, "]]")
      case None => None
      case Some(k) =>
        assert s[i..k + 2] == s[i..i + 2] + s[i + 2..k] + s[k..k + 2];
        Some(Match(k + 2, [s[i + 2..k]]))
    else None
  }

  /** Every wikilink the expression accepts at `i` is found, with the shortest content. */
  lemma WikilinkComplete(s: string, i: nat, c: string)
    requires i <= |s| && (i == 0 || s[i - 1] != '`')
    requires OccursAt(s, i, "[[" + c + "]]") && SingleLine(c)
    ensures WikilinkAt(s, i).Some? && |WikilinkAt(s, i).value.groups[0]| <= |c|
  {
    var e := i + 2 + |c|;
    OccursConcat(s, i, "[[" + c, "]]");
    OccursConcat(s, i, "[[", c);
    assert s[i + 2..e] == c;
    LazyUntilFinds(s, i + 2, "]]", e);
  }

  // ---------------------------------------------------------------------------
  // ```mermaid([^`]*)```  -- the diagram rule

  function DiagramAt(s: string, i: nat): (m: Option<Match>)
    requires i <= |s|
    ensures m.Some? ==> i < m.value.end <= |s| && |m.value.groups| == 1
    ensures m.Some? ==> OccursAt(s, i, "```mermaid" + m.value.groups[0] + "```") && '`' !in m.value.groups[0]
  {
    if OccursAt(s, i, "```mermaid") then
      match FindFrom(s, i + 10, '`')
      case None => None
      case Some(q) =>
        if OccursAt(s, q, "```") then
          assert s[i..q + 3] == s[i..i + 10] + s[i + 10..q] + s[q..q + 3];
          Some(Match(q + 3, [s[i + 10..q]]))
        else None
    else None
  }

  /** Every fenced diagram the expression accepts at `i` is the scanner's match. */
  lemma DiagramComplete(s: string, i: nat, body: string)
    requires i <= |s| && OccursAt(s, i, "```mermaid" + body + "```") && '`' !in body
    ensures DiagramAt(s, i) == Some(Match(i + |body| + 13, [body]))
  {
    var q := i + 10 + |body|;
    OccursConcat(s, i, "```mermaid" + body, "```");
    OccursConcat(s, i, "```mermaid", body);
    assert s[i + 10..q] == body && s[q] == '`';
    assert FindFrom(s, i + 10, '`') == Some(q);
  }
}
