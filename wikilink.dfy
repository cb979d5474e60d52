/** The wikilink extension. Before conversion, each `[[...]]` of the source is set aside in the
    extension's list of captured contents and replaced by a numbered placeholder; after conversion,
    each placeholder is replaced by a link to the note the captured content names. */
module Wikilink {
  import opened Wrappers
  import opened Text
  import opened Uri
  import opened Patterns

  // ---------------------------------------------------------------------------
  // Placeholders

  const Prefix: string := "%PLACEHOLDER"

  /** The placeholder of the `n`-th captured content: `'%PLACEHOLDER' + n + '%'`. */
  function Placeholder(n: nat): (p: string)
    ensures |p| == |Decimal(n)| + 13
  {
    Prefix + Decimal(n) + "%"
  }

  /** A placeholder opens and closes with `%`, has no other `%`, and holds the digits of its
      number after `%PLACEHOLDER`. */
  lemma PlaceholderShape(n: nat)
    ensures var p := Placeholder(n); p[0] == '%' && p[1] == 'P' && p[|p| - 1] == '%'
    ensures var p := Placeholder(n); forall j :: 0 < j < |p| - 1 ==> p[j] != '%'
    ensures var p := Placeholder(n); forall j :: 0 <= j < |Decimal(n)| ==> p[12 + j] == Decimal(n)[j]
  {
  }

  /** A placeholder never starts where another one does, letters compared without regard to case:
      the digits of two different numbers differ, or one runs into the other's closing `%`. */
  lemma PlaceholderAtStart(n: nat, k: nat, rest: string)
    requires n != k
    ensures !OccursIgnoreCaseAt(Placeholder(n) + rest, 0, Placeholder(k))
  {
    var t, pk, dn, dk := Placeholder(n) + rest, Placeholder(k), Decimal(n), Decimal(k);
    PlaceholderShape(n);
    PlaceholderShape(k);
    var j: nat;
    if |dk| < |dn| {
      j := 12 + |dk|;
      FoldFacts(dn[|dk|]);
    } else if |dk| > |dn| {
      j := 12 + |dn|;
      FoldFacts(dk[|dn|]);
    } else {
      if dn == dk {
        DecimalInjective(n, k);
      }
      var d :| 0 <= d < |dn| && dn[d] != dk[d];
      j := 12 + d;
      FoldFacts(dn[d]);
      FoldFacts(dk[d]);
    }
    assert j < |pk| && j < |t| && Fold(t[j]) != Fold(pk[j]);
    if |pk| <= |t| {
      assert t[0..|pk|][j] == t[j];
    }
  }

  /** No placeholder starts inside another one, provided what follows the other does not begin
      with the letter `p`. */
  lemma PlaceholderInside(n: nat, k: nat, rest: string)
    requires n != k && (rest == [] || Fold(rest[0]) != 'P')
    ensures forall i :: 0 <= i < |Placeholder(n)| ==> !OccursIgnoreCaseAt(Placeholder(n) + rest, i, Placeholder(k))
  {
    var pn, pk := Placeholder(n), Placeholder(k);
    var t := pn + rest;
    PlaceholderShape(n);
    PlaceholderShape(k);
    forall i | 0 <= i < |pn| ensures !OccursIgnoreCaseAt(t, i, pk) {
      if i == 0 {
        PlaceholderAtStart(n, k, rest);
      } else if OccursIgnoreCaseAt(t, i, pk) {
        assert t[i..i + |pk|][0] == t[i] && t[i..i + |pk|][1] == t[i + 1];
        FoldFacts(t[i]);
      }
    }
  }

  /** No placeholder starts inside a text without `%`. */
  lemma NoPlaceholderIn(x: string, rest: string, k: nat)
    requires '%' !in x
    ensures forall i :: 0 <= i < |x| ==> !OccursIgnoreCaseAt(x + rest, i, Placeholder(k))
  {
    PlaceholderShape(k);
    forall i | 0 <= i < |x| ensures !OccursIgnoreCaseAt(x + rest, i, Placeholder(k)) {
      FoldFacts(x[i]);
    }
  }

  // ---------------------------------------------------------------------------
  // The link a captured content stands for

  /** The target of a captured content: the text after the first `|`, or the whole content when
      there is none, trimmed. */
  function WikiTarget(content: string): string {
    var splits := Split(content, '|');
    if |splits| == 1 then Trim(splits[0]) else Trim(splits[1])
  }

  /** The link text of a captured content: the text before the first `|`, trimmed. */
  function WikiText(content: string): string {
    Trim(Split(content, '|')[0])
  }

  /** The note file a target names: the target itself when the notes pattern accepts it, and the
      target with `.md` appended otherwise. */
  function NoteFile(target: string, re: string -> bool): (file: string)
    ensures re(target) ==> file == target
    ensures !re(target) ==> |file| == |target| + 3 && file[..|target|] == target && file[|target|..] == ".md"
  {
    if re(target) then target else target + ".md"
  }

  function NoteLink(file: string, text: string): (link: string)
    ensures |link| > 0 && link[0] == '<'
    ensures '%' !in file && '%' !in text ==> '%' !in link
  {
    "<a href=\"@note/" + file + "\">" + text + "</a>"
  }

  /** The link that replaces a captured content, or the URIError decodeURI raises on its target. */
  function LinkFor(content: string, re: string -> bool): Result<string> {
    match DecodeURI(WikiTarget(content))
    case Err(e) => Err(e)
    case Ok(target) => Ok(NoteLink(NoteFile(target, re), WikiText(content)))
  }

  /** For any content with a bar, the link text is the part before the first bar and the target
      the part between the first and the second bar (or the end), both trimmed; whatever else the
      content holds after a second bar is dropped. */
  lemma WikiPartsWithBar(a: string, b: string)
    requires '|' !in a
    ensures WikiText(a + "|" + b) == Trim(a)
    ensures WikiTarget(a + "|" + b) == Trim(Split(b, '|')[0])
  {
    SplitFirstTwo(a + "|" + b, '|', a, b);
  }

  /** For any content without a bar, the link text and the target are both the trimmed content. */
  lemma WikiPartsWithoutBar(a: string)
    requires '|' !in a
    ensures WikiText(a) == Trim(a) && WikiTarget(a) == Trim(a)
  {
    SplitSingle(a, '|');
  }

  /** `[[a|b]]` links the note `b` under the text `a`: the target is the part after the bar. */
  lemma LinkForAlias(a: string, b: string, re: string -> bool)
    requires '|' !in a && '|' !in b && '%' !in b && Trimmed(a) && Trimmed(b)
    ensures LinkFor(a + "|" + b, re) == Ok(NoteLink(NoteFile(b, re), a))
  {
    var content := a + "|" + b;
    SplitFirstTwo(content, '|', a, b);
    SplitSingle(b, '|');
    TrimOfTrimmed(a);
    TrimOfTrimmed(b);
    DecodeWithoutPercent(b);
  }

  /** `[[a]]` links the note `a` under the text `a`. */
  lemma LinkForPlain(a: string, re: string -> bool)
    requires '|' !in a && '%' !in a && Trimmed(a)
    ensures LinkFor(a, re) == Ok(NoteLink(NoteFile(a, re), a))
  {
    SplitSingle(a, '|');
    TrimOfTrimmed(a);
    DecodeWithoutPercent(a);
  }

  /** Any content whose target decodeURI rejects yields no link but that URIError. */
  lemma LinkForBadEscape(content: string, re: string -> bool)
    requires DecodeURI(WikiTarget(content)).Err?
    ensures LinkFor(content, re) == Err(DecodeURI(WikiTarget(content)).error)
  {
  }

  /** Without `%` in the content, the link is always built, starts with `<` and holds no `%`. */
  lemma LinkForClean(content: string, re: string -> bool)
    requires '%' !in content
    ensures LinkFor(content, re).Ok?
    ensures var link := LinkFor(content, re).value; |link| > 0 && link[0] == '<' && '%' !in link
  {
    SplitKeepsAbsence(content, '|', '%');
    var splits := Split(content, '|');
    TrimKeepsAbsence(splits[0], '%');
    if |splits| > 1 {
      TrimKeepsAbsence(splits[1], '%');
    }
    DecodeWithoutPercent(WikiTarget(content));
  }

  /** The link builder the filter uses, as a function value. */
  function NoteLinker(re: string -> bool): string -> Result<string> {
    content => LinkFor(content, re)
  }

  // ---------------------------------------------------------------------------
  // Capture: the source-stage rule

  /** The expression's answer at every index of `s`. */
  function Wikis(s: string): (ms: seq<Option<Match>>)
    ensures |ms| == |s| && WikiScan(s, ms)
    ensures forall k :: 0 <= k < |s| ==> ms[k] == WikilinkAt(s, k)
  {
    var ms := seq(|s|, k requires 0 <= k < |s| => WikilinkAt(s, k));
    assert WikiScan(s, ms) by {
      forall k | 0 <= k < |s| && ms[k].Some? ensures ms[k].value.groups[0] == s[k + 2..ms[k].value.end - 2] {
        WikiGroup(s, k);
      }
    }
    ms
  }

  /** The group of a wikilink is the text between its brackets. */
  lemma WikiGroup(s: string, k: nat)
    requires k <= |s| && WikilinkAt(s, k).Some?
    ensures var m := WikilinkAt(s, k).value; m.groups[0] == s[k + 2..m.end - 2]
  {
    var g := WikilinkAt(s, k).value.groups[0];
    OccursConcat(s, k, "[[" + g, "]]");
    OccursConcat(s, k, "[[", g);
  }

  /** Answers that are wikilinks of `s`: each ends inside the text, after its start, and its one
      group is the text between `[[` and `]]`. */
  predicate WikiScan(s: string, ms: seq<Option<Match>>) {
    && |ms| == |s|
    && forall k :: 0 <= k < |s| && ms[k].Some? ==>
         && k + 4 <= ms[k].value.end <= |s| && |ms[k].value.groups| == 1
         && ms[k].value.groups[0] == s[k + 2..ms[k].value.end - 2]
  }

  /** The text the capture writes from index `i` of `s`, numbering placeholders from `n`: each
      wikilink the expression matches becomes the next placeholder. */
  function ProtectFrom(s: string, ms: seq<Option<Match>>, i: nat, n: nat): string
    requires WikiScan(s, ms) && i <= |s|
    decreases |s| - i
  {
    if i == |s| then ""
    else
      match ms[i]
      case Some(m) => Placeholder(n) + ProtectFrom(s, ms, m.end, n + 1)
      case None => [s[i]] + ProtectFrom(s, ms, i + 1, n)
  }

  /** The contents the capture sets aside from index `i` of `s`, in the order they appear. */
  function CapturedFrom(s: string, ms: seq<Option<Match>>, i: nat): seq<string>
    requires WikiScan(s, ms) && i <= |s|
    decreases |s| - i
  {
    if i == |s| then []
    else
      match ms[i]
      case Some(m) => [m.groups[0]] + CapturedFrom(s, ms, m.end)
      case None => CapturedFrom(s, ms, i + 1)
  }

  /** What rendering wikilinks means: each wikilink the expression matches replaced by the link
      `linker` builds for it, or the first error a link raises. */
  function ResolveFrom(s: string, ms: seq<Option<Match>>, i: nat, linker: string -> Result<string>): Result<string>
    requires WikiScan(s, ms) && i <= |s|
    decreases |s| - i
  {
    if i == |s| then Ok("")
    else
      match ms[i]
      case Some(m) =>
        (match linker(m.groups[0])
         case Err(e) => Err(e)
         case Ok(link) => Prepend(link, ResolveFrom(s, ms, m.end, linker)))
      case None => Prepend([s[i]], ResolveFrom(s, ms, i + 1, linker))
  }

  function Protect(s: string, n: nat): string {
    ProtectFrom(s, Wikis(s), 0, n)
  }

  function Captured(s: string): seq<string> {
    CapturedFrom(s, Wikis(s), 0)
  }

  function Resolve(s: string, re: string -> bool): Result<string> {
    ResolveFrom(s, Wikis(s), 0, NoteLinker(re))
  }

  // ---------------------------------------------------------------------------
  // Drain: the output-stage filter

  /** The filter from the `i`-th captured content on: each content's link replaces every
      occurrence of its placeholder, letters compared without regard to case; the first link
      that fails makes the filter fail. */
  function DrainFrom(text: string, vault: seq<string>, i: nat, linker: string -> Result<string>): Result<string>
    requires i <= |vault|
    decreases |vault| - i
  {
    if i == |vault| then Ok(text)
    else
      match linker(vault[i])
      case Err(e) => Err(e)
      case Ok(link) => DrainFrom(ReplaceAllIgnoreCase(text, Placeholder(i), link), vault, i + 1, linker)
  }

  /** The captured contents the filter as written leaves behind: none when it succeeds, all of
      them when a link fails, since the reset is skipped when decodeURI throws. */
  function KeptAsWritten(vault: seq<string>, text: string, linker: string -> Result<string>): seq<string> {
    if DrainFrom(text, vault, 0, linker).Ok? then [] else vault
  }

  // ---------------------------------------------------------------------------
  // Capture then drain resolves every wikilink

  /** A source the placeholders cannot collide with: it holds no `%`, and no wikilink in it is
      directly followed by the letter `p`, so no `%PLACEHOLDERn%` can appear except where the
      capture wrote it. */
  predicate ClashFree(s: string, ms: seq<Option<Match>>)
    requires |ms| == |s|
  {
    && '%' !in s
    && forall k :: 0 <= k < |s| && ms[k].Some? && ms[k].value.end < |s| ==> Fold(s[ms[k].value.end]) != 'P'
  }

  /** Links as the filter builds them: non-empty, opening with `<`, without `%`. */
  predicate LinksClean(links: seq<string>) {
    forall j :: 0 <= j < |links| ==> |links[j]| > 0 && links[j][0] == '<' && '%' !in links[j]
  }

  /** The text between capture and drain, part way through the drain: from index `i` of `s`, with
      slot number `n`, the slots numbered below `k` hold their links, the others their
      placeholders. */
  function Weave(s: string, ms: seq<Option<Match>>, i: nat, n: nat, k: nat, links: seq<string>): string
    requires WikiScan(s, ms) && i <= |s| && k <= |links|
    decreases |s| - i
  {
    if i == |s| then ""
    else
      match ms[i]
      case Some(m) => (if n < k then links[n] else Placeholder(n)) + Weave(s, ms, m.end, n + 1, k, links)
      case None => [s[i]] + Weave(s, ms, i + 1, n, k, links)
  }

  lemma {:induction false} ProtectIsWeave(s: string, ms: seq<Option<Match>>, i: nat, n: nat, links: seq<string>)
    requires WikiScan(s, ms) && i <= |s|
    ensures ProtectFrom(s, ms, i, n) == Weave(s, ms, i, n, 0, links)
    decreases |s| - i
  {
    if i < |s| {
      if ms[i].Some? {
        ProtectIsWeave(s, ms, ms[i].value.end, n + 1, links);
        ProtectSlot(s, ms, i, n);
        WeaveOpenSlot(s, ms, i, n, links);
      } else {
        ProtectIsWeave(s, ms, i + 1, n, links);
        ProtectChar(s, ms, i, n);
        WeaveChar(s, ms, i, n, links);
      }
    }
  }

  lemma WeaveOpenSlot(s: string, ms: seq<Option<Match>>, i: nat, n: nat, links: seq<string>)
    requires WikiScan(s, ms) && i < |s| && ms[i].Some?
    ensures Weave(s, ms, i, n, 0, links) == Placeholder(n) + Weave(s, ms, ms[i].value.end, n + 1, 0, links)
  {
  }

  lemma WeaveChar(s: string, ms: seq<Option<Match>>, i: nat, n: nat, links: seq<string>)
    requires WikiScan(s, ms) && i < |s| && ms[i].None?
    ensures Weave(s, ms, i, n, 0, links) == [s[i]] + Weave(s, ms, i + 1, n, 0, links)
  {
  }

  lemma WeaveStart(s: string, ms: seq<Option<Match>>, i: nat, n: nat, k: nat, links: seq<string>)
    requires WikiScan(s, ms) && i <= |s| && k <= |links| && LinksClean(links)
    requires i < |s| && ms[i].None? ==> Fold(s[i]) != 'P'
    ensures var w := Weave(s, ms, i, n, k, links); w == [] || Fold(w[0]) != 'P'
  {
    var w := Weave(s, ms, i, n, k, links);
    if w != [] {
      FoldFacts(w[0]);
    }
  }

  /** One step of the drain on a clash-free source: replacing the `k`-th placeholder by its link
      fills exactly the `k`-th slot. */
  lemma {:induction false} DrainStep(s: string, ms: seq<Option<Match>>, i: nat, n: nat, k: nat, links: seq<string>)
    requires WikiScan(s, ms) && ClashFree(s, ms) && i <= |s| && k < |links| && LinksClean(links)
    ensures ReplaceAllIgnoreCase(Weave(s, ms, i, n, k, links), Placeholder(k), links[k]) == Weave(s, ms, i, n, k + 1, links)
    decreases |s| - i
  {
    if i < |s| {
      match ms[i]
      case Some(m) =>
        DrainStep(s, ms, m.end, n + 1, k, links);
        DrainSlot(s, ms, i, n, k, links);
      case None =>
        DrainStep(s, ms, i + 1, n, k, links);
        DrainChar(s, ms, i, n, k, links);
    }
  }

  /** The drain step at a slot, given the step on the text after it. */
  lemma DrainSlot(s: string, ms: seq<Option<Match>>, i: nat, n: nat, k: nat, links: seq<string>)
    requires WikiScan(s, ms) && ClashFree(s, ms) && i < |s| && ms[i].Some? && k < |links| && LinksClean(links)
    requires var e := ms[i].value.end;
      ReplaceAllIgnoreCase(Weave(s, ms, e, n + 1, k, links), Placeholder(k), links[k]) == Weave(s, ms, e, n + 1, k + 1, links)
    ensures ReplaceAllIgnoreCase(Weave(s, ms, i, n, k, links), Placeholder(k), links[k]) == Weave(s, ms, i, n, k + 1, links)
  {
    var pk, e := Placeholder(k), ms[i].value.end;
    var rest := Weave(s, ms, e, n + 1, k, links);
    if n < k {
      NoPlaceholderIn(links[n], rest, k);
      ReplaceSkipsPrefix(links[n], rest, pk, links[k]);
    } else if n == k {
      ReplaceAtStart(pk, rest, pk, links[k]);
    } else {
      assert e < |s| ==> Fold(s[e]) != 'P';
      WeaveStart(s, ms, e, n + 1, k, links);
      PlaceholderInside(n, k, rest);
      ReplaceSkipsPrefix(Placeholder(n), rest, pk, links[k]);
    }
  }

  /** The drain step at a character of the source, given the step on the text after it. */
  lemma DrainChar(s: string, ms: seq<Option<Match>>, i: nat, n: nat, k: nat, links: seq<string>)
    requires WikiScan(s, ms) && '%' !in s && i < |s| && ms[i].None? && k < |links|
    requires ReplaceAllIgnoreCase(Weave(s, ms, i + 1, n, k, links), Placeholder(k), links[k]) == Weave(s, ms, i + 1, n, k + 1, links)
    ensures ReplaceAllIgnoreCase(Weave(s, ms, i, n, k, links), Placeholder(k), links[k]) == Weave(s, ms, i, n, k + 1, links)
  {
    var rest := Weave(s, ms, i + 1, n, k, links);
    NoPlaceholderIn([s[i]], rest, k);
    ReplaceSkipsPrefix([s[i]], rest, Placeholder(k), links[k]);
  }

  lemma {:induction false} DrainWeave(s: string, ms: seq<Option<Match>>, vault: seq<string>, links: seq<string>, j: nat, linker: string -> Result<string>)
    requires WikiScan(s, ms) && ClashFree(s, ms) && LinksClean(links) && |links| == |vault| && j <= |vault|
    requires forall x :: 0 <= x < |vault| ==> linker(vault[x]) == Ok(links[x])
    ensures DrainFrom(Weave(s, ms, 0, 0, j, links), vault, j, linker) == Ok(Weave(s, ms, 0, 0, |vault|, links))
    decreases |vault| - j
  {
    if j < |vault| {
      DrainStep(s, ms, 0, 0, j, links);
      DrainWeave(s, ms, vault, links, j + 1, linker);
    }
  }

  /** With every slot holding its link, the woven text is the resolved source. */
  lemma {:induction false} WeaveResolved(s: string, ms: seq<Option<Match>>, i: nat, n: nat, k: nat, links: seq<string>, linker: string -> Result<string>)
    requires WikiScan(s, ms) && i <= |s| && k <= |links| && n + |CapturedFrom(s, ms, i)| <= k
    requires forall x :: 0 <= x < |CapturedFrom(s, ms, i)| ==> linker(CapturedFrom(s, ms, i)[x]) == Ok(links[n + x])
    ensures ResolveFrom(s, ms, i, linker) == Ok(Weave(s, ms, i, n, k, links))
    decreases |s| - i
  {
    if i < |s| {
      match ms[i]
      case Some(m) =>
        var c, c' := CapturedFrom(s, ms, i), CapturedFrom(s, ms, m.end);
        assert c == [m.groups[0]] + c';
        assert linker(m.groups[0]) == Ok(links[n]) by { assert c[0] == m.groups[0]; }
        forall x | 0 <= x < |c'| ensures linker(c'[x]) == Ok(links[n + 1 + x]) {
          assert c'[x] == c[x + 1];
        }
        assert n + 1 + |c'| <= k;
        WeaveResolved(s, ms, m.end, n + 1, k, links, linker);
      case None =>
        WeaveResolved(s, ms, i + 1, n, k, links, linker);
    }
  }

  /** The captured contents are pieces of the source. */
  lemma {:induction false} CapturedClean(s: string, ms: seq<Option<Match>>, i: nat)
    requires WikiScan(s, ms) && i <= |s| && '%' !in s
    ensures forall x :: 0 <= x < |CapturedFrom(s, ms, i)| ==> '%' !in CapturedFrom(s, ms, i)[x]
    decreases |s| - i
  {
    if i < |s| {
      match ms[i]
      case Some(m) =>
        var g := m.groups[0];
        CapturedClean(s, ms, m.end);
        assert CapturedFrom(s, ms, i) == [g] + CapturedFrom(s, ms, m.end);
      case None =>
        CapturedClean(s, ms, i + 1);
    }
  }

  /** For any link builder whose links are clean, capture followed by drain on a clash-free
      source resolves every wikilink. */
  lemma RoundTripWith(s: string, ms: seq<Option<Match>>, linker: string -> Result<string>)
    requires WikiScan(s, ms) && ClashFree(s, ms)
    requires forall x :: 0 <= x < |CapturedFrom(s, ms, 0)| ==>
      var link := linker(CapturedFrom(s, ms, 0)[x]); link.Ok? && |link.value| > 0 && link.value[0] == '<' && '%' !in link.value
    ensures ResolveFrom(s, ms, 0, linker).Ok?
    ensures DrainFrom(ProtectFrom(s, ms, 0, 0), CapturedFrom(s, ms, 0), 0, linker) == ResolveFrom(s, ms, 0, linker)
  {
    var c := CapturedFrom(s, ms, 0);
    var links := seq(|c|, x requires 0 <= x < |c| => linker(c[x]).value);
    assert LinksClean(links);
    ProtectIsWeave(s, ms, 0, 0, links);
    DrainWeave(s, ms, c, links, 0, linker);
    WeaveResolved(s, ms, 0, 0, |c|, links, linker);
  }

  /** The capture followed by the drain, on a clash-free source and with an empty list to start
      from, replaces every wikilink by its link to a note and leaves the rest of the text as it
      was. */
  lemma RoundTrip(s: string, re: string -> bool)
    requires ClashFree(s, Wikis(s))
    ensures Resolve(s, re).Ok?
    ensures DrainFrom(Protect(s, 0), Captured(s), 0, NoteLinker(re)) == Resolve(s, re)
  {
    var ms, linker := Wikis(s), NoteLinker(re);
    var c := CapturedFrom(s, ms, 0);
    CapturedClean(s, ms, 0);
    forall x | 0 <= x < |c| ensures linker(c[x]).Ok? && |linker(c[x]).value| > 0 && linker(c[x]).value[0] == '<' && '%' !in linker(c[x]).value {
      LinkForClean(c[x], re);
    }
    RoundTripWith(s, ms, linker);
  }

  // ---------------------------------------------------------------------------
  // A content whose link fails, kept by the filter as written

  /** Once the first kept content cannot be linked, the filter as written fails on the next text,
      whatever it holds, and keeps that content first in the list: every later render fails. */
  lemma StaleContentPoisons(vault: seq<string>, s: string, linker: string -> Result<string>)
    requires vault != [] && linker(vault[0]).Err?
    ensures var v, text := vault + Captured(s), Protect(s, |vault|);
      && DrainFrom(text, v, 0, linker).Err?
      && KeptAsWritten(v, text, linker) == v && v[0] == vault[0]
  {
    var v := vault + Captured(s);
    assert v[0] == vault[0];
  }

  /** `[[%]]` captures `%`, whose link fails: decodeURI rejects a lone `%`. */
  lemma PercentWikilink(re: string -> bool)
    ensures Captured("[[%]]") == ["%"]
    ensures NoteLinker(re)("%").Err?
  {
    var s := "[[%]]";
    var ms := Wikis(s);
    WikilinkComplete(s, 0, "%");
    var g := ms[0].value.groups[0];
    assert s[0..|g| + 4] == "[[" + g + "]]";
    assert ("[[" + g + "]]")[2] == if g == [] then ']' else g[0];
    assert g == "%";
    assert CapturedFrom(s, ms, 5) == [];
    WikiPartsWithoutBar("%");
    TrimOfTrimmed("%");
    LinkForBadEscape("%", re);
  }

  /** Rendering `[[%]]` with the filter as written makes every later render fail. */
  lemma PercentPoisonsLaterRenders(s: string, re: string -> bool)
    ensures var v, text := Captured("[[%]]"), Protect("[[%]]", 0);
      && DrainFrom(text, v, 0, NoteLinker(re)).Err?
      && KeptAsWritten(v, text, NoteLinker(re)) == v
      && DrainFrom(Protect(s, |v|), v + Captured(s), 0, NoteLinker(re)).Err?
  {
    PercentWikilink(re);
    StaleContentPoisons(["%"], "", NoteLinker(re));
    StaleContentPoisons(["%"], s, NoteLinker(re));
  }

  lemma ProtectSlot(s: string, ms: seq<Option<Match>>, i: nat, n: nat)
    requires WikiScan(s, ms) && i < |s| && ms[i].Some?
    ensures ProtectFrom(s, ms, i, n) == Placeholder(n) + ProtectFrom(s, ms, ms[i].value.end, n + 1)
    ensures CapturedFrom(s, ms, i) == [ms[i].value.groups[0]] + CapturedFrom(s, ms, ms[i].value.end)
  {
  }

  lemma ProtectChar(s: string, ms: seq<Option<Match>>, i: nat, n: nat)
    requires WikiScan(s, ms) && i < |s| && ms[i].None?
    ensures ProtectFrom(s, ms, i, n) == [s[i]] + ProtectFrom(s, ms, i + 1, n)
    ensures CapturedFrom(s, ms, i) == CapturedFrom(s, ms, i + 1)
  {
  }

  lemma Regroup<T>(a: seq<T>, b: seq<T>, c: seq<T>)
    ensures a + (b + c) == (a + b) + c
  {
  }

  lemma DrainGoesOn(text: string, vault: seq<string>, i: nat, linker: string -> Result<string>, link: string)
    requires i < |vault| && linker(vault[i]) == Ok(link)
    ensures DrainFrom(text, vault, i, linker) == DrainFrom(ReplaceAllIgnoreCase(text, Placeholder(i), link), vault, i + 1, linker)
  {
  }

  lemma DrainFails(text: string, vault: seq<string>, i: nat, linker: string -> Result<string>)
    requires i < |vault| && linker(vault[i]).Err?
    ensures DrainFrom(text, vault, i, linker) == Err(linker(vault[i]).error)
  {
  }

  /** The list of captured contents the wikilink extension's two rules share. */
  class Vault {
    var matches: seq<string>

    constructor ()
      ensures matches == []
    {
      matches := [];
    }

    /** The capture rule applied to a whole text: every match is appended to the list and
        replaced by the placeholder of its position in the list. */
    method Capture(s: string) returns (out: string)
      modifies this
      ensures out == Protect(s, |old(matches)|)
      ensures matches == old(matches) + Captured(s)
    {
      var ms := Wikis(s);
      out := "";
      var i := 0;
      while i < |s|
        invariant i <= |s|
        invariant out + ProtectFrom(s, ms, i, |matches|) == ProtectFrom(s, ms, 0, |old(matches)|)
        invariant matches + CapturedFrom(s, ms, i) == old(matches) + CapturedFrom(s, ms, 0)
        decreases |s| - i
      {
        match ms[i]
        case Some(m) =>
          var p := Placeholder(|matches|);
          ProtectSlot(s, ms, i, |matches|);
          Regroup(out, p, ProtectFrom(s, ms, m.end, |matches| + 1));
          Regroup(matches, [m.groups[0]], CapturedFrom(s, ms, m.end));
          matches := matches + [m.groups[0]];
          out := out + p;
          i := m.end;
        case None =>
          ProtectChar(s, ms, i, |matches|);
          Regroup(out, [s[i]], ProtectFrom(s, ms, i + 1, |matches|));
          out := out + [s[i]];
          i := i + 1;
      }
      assert out + "" == out;
    }

    /** The filter, with the list emptied whether it succeeds or fails. */
    method Drain(text: string, re: string -> bool) returns (r: Result<string>)
      modifies this
      ensures r == DrainFrom(text, old(matches), 0, NoteLinker(re))
      ensures matches == []
    {
      var ms, linker := matches, NoteLinker(re);
      var t := text;
      var i := 0;
      while i < |ms|
        invariant i <= |ms| && matches == ms
        invariant DrainFrom(t, ms, i, linker) == DrainFrom(text, ms, 0, linker)
        decreases |ms| - i
      {
        var link := LinkFor(ms[i], re);
        assert linker(ms[i]) == link;
        if link.Err? {
          DrainFails(t, ms, i, linker);
          matches := [];
          return Err(link.error);
        }
        DrainGoesOn(t, ms, i, linker, link.value);
        t := ReplaceAllIgnoreCase(t, Placeholder(i), link.value);
        i := i + 1;
      }
      matches := [];
      return Ok(t);
    }

    /** The filter as written: the list is emptied only after every link has been built. */
    method DrainAsWritten(text: string, re: string -> bool) returns (r: Result<string>)
      modifies this
      ensures r == DrainFrom(text, old(matches), 0, NoteLinker(re))
      ensures matches == KeptAsWritten(old(matches), text, NoteLinker(re))
    {
      var ms, linker := matches, NoteLinker(re);
      var t := text;
      var i := 0;
      while i < |ms|
        invariant i <= |ms| && matches == ms
        invariant DrainFrom(t, ms, i, linker) == DrainFrom(text, ms, 0, linker)
        decreases |ms| - i
      {
        var link := LinkFor(ms[i], re);
        assert linker(ms[i]) == link;
        if link.Err? {
          DrainFails(t, ms, i, linker);
          assert DrainFrom(text, ms, 0, linker).Err?;
          return Err(link.error);
        }
        DrainGoesOn(t, ms, i, linker, link.value);
        t := ReplaceAllIgnoreCase(t, Placeholder(i), link.value);
        i := i + 1;
      }
      matches := [];
      return Ok(t);
    }
  }
}
