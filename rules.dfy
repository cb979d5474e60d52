/** The rewrite rules the Markdown extensions register with the converter: the settings they read,
    the collaborators they call, the rules each extension contributes, the text each rule writes in
    place of a match, and the global replacement that applies a rule to a whole text. */
module Rules {
  import opened Wrappers
  import opened Text
  import opened Uri
  import opened Patterns

  // ---------------------------------------------------------------------------
  // Settings and collaborators

  /** The settings the extensions read. An empty root path is the unset (falsy) one. The notes
      pattern is the notes regular expression `re`, which decides whether a wikilink target already
      names a note file. */
  datatype Config = Config(
    attachmentsPath: string, attachmentsToken: string,
    notesPath: string, notesToken: string,
    tagsToken: string,
    notesPattern: string -> bool)

  /** The collaborators the extensions call and the model does not open up: the converter's own
      steps (`prepare`, the normalisation it applies before the source-stage rules, and `convert`,
      the Markdown-to-HTML conversion), the rules of the foreign extensions (the number of rules each
      registers, the stage of each and what each does to a text), Node's `path.join`, the CRC-32
      checksum and the diagram renderer. */
  datatype Env = Env(
    prepare: string -> string,
    convert: string -> string,
    foreignStages: string -> seq<Stage>,
    applyForeign: (string, nat, string) -> string,
    join: (string, string) -> string,
    checksum: string -> int,
    renderDiagram: (string, string) -> string)

  /** Where a rule runs: on the Markdown source before conversion, or on the HTML after it. */
  datatype Stage = Lang | Output

  /** The three tag shapes the attachment rules rewrite; the note and tag extensions build only
      button and link rules. */
  datatype Shape = Image | Button | Link

  /** One registered rule. */
  datatype Rule =
    | Foreign(name: string, index: nat, stage: Stage)
    | Encoder(tokens: seq<string>)
    | Attachment(shape: Shape, token: string, root: string)
    | Note(shape: Shape, token: string, root: string)
    | Tag(shape: Shape, token: string)
    | WikilinkCapture
    | WikilinkRestore
    | Diagram

  function StageOf(r: Rule): Stage {
    match r
    case Foreign(_, _, stage) => stage
    case Encoder(_) => Lang
    case WikilinkCapture => Lang
    case Diagram => Lang
    case _ => Output
  }

  // ---------------------------------------------------------------------------
  // The extensions' rule lists

  /** The rules a foreign extension registers, in its order. */
  function ForeignRules(env: Env, name: string): (rs: seq<Rule>)
    ensures |rs| == |env.foreignStages(name)|
    ensures forall k :: 0 <= k < |rs| ==> rs[k] == Foreign(name, k, env.foreignStages(name)[k])
  {
    var stages := env.foreignStages(name);
    seq(|stages|, k requires 0 <= k < |stages| => Foreign(name, k, stages[k]))
  }

  function EncoderRules(c: Config): seq<Rule> {
    [Encoder([c.attachmentsToken, c.notesToken, c.tagsToken])]
  }

  function AttachmentRules(c: Config): seq<Rule> {
    if c.attachmentsPath == "" then []
    else
      var t, p := c.attachmentsToken, c.attachmentsPath;
      [Attachment(Image, t, p), Attachment(Button, t, p), Attachment(Link, t, p)]
  }

  function NoteRules(c: Config): seq<Rule> {
    if c.notesPath == "" then [] else [Note(Button, c.notesToken, c.notesPath), Note(Link, c.notesToken, c.notesPath)]
  }

  function TagRules(c: Config): seq<Rule> {
    [Tag(Button, c.tagsToken), Tag(Link, c.tagsToken)]
  }

  function WikilinkRules(c: Config): seq<Rule> {
    if c.notesPath == "" then [] else [WikilinkCapture, WikilinkRestore]
  }

  function DiagramRules(): seq<Rule> {
    [Diagram]
  }

  /** Each family is present or absent as a whole, as its root path is set or unset: attachments
      give image, button and link rules, notes give button and link rules, the wikilink extension
      its capture and restore rules, and the tag family is always there with its button rule first. */
  lemma FamiliesByConfig(c: Config)
    ensures |AttachmentRules(c)| == (if c.attachmentsPath == "" then 0 else 3)
    ensures |NoteRules(c)| == (if c.notesPath == "" then 0 else 2)
    ensures |WikilinkRules(c)| == (if c.notesPath == "" then 0 else 2)
    ensures |TagRules(c)| == 2
    ensures c.attachmentsPath != "" ==> [AttachmentRules(c)[0].shape, AttachmentRules(c)[1].shape, AttachmentRules(c)[2].shape] == [Image, Button, Link]
    ensures c.notesPath != "" ==> NoteRules(c)[0].shape == Button && NoteRules(c)[1].shape == Link
    ensures TagRules(c)[0].shape == Button && TagRules(c)[1].shape == Link
    ensures forall r :: r in AttachmentRules(c) + NoteRules(c) + TagRules(c) ==> StageOf(r) == Output
    ensures c.notesPath != "" ==> StageOf(WikilinkRules(c)[0]) == Lang && StageOf(WikilinkRules(c)[1]) == Output
  {
  }

  // ---------------------------------------------------------------------------
  // path.basename

  function StripTrailingSlashes(p: string): (r: string)
    ensures r == [] || r[|r| - 1] != '/'
    ensures |r| <= |p| && r == p[..|r|]
  {
    if p != [] && p[|p| - 1] == '/' then StripTrailingSlashes(p[..|p| - 1]) else p
  }

  function LastSegment(p: string): (r: string)
    ensures '/' !in r
    ensures |r| <= |p| && r == p[|p| - |r|..]
  {
    if p == [] || p[|p| - 1] == '/' then [] else LastSegment(p[..|p| - 1]) + [p[|p| - 1]]
  }

  /** path.basename of POSIX: the last segment of the path once trailing slashes are dropped. */
  function Basename(p: string): (b: string)
    ensures '/' !in b
  {
    LastSegment(StripTrailingSlashes(p))
  }

  lemma {:induction false} LastSegmentOfPlain(p: string)
    requires '/' !in p
    ensures LastSegment(p) == p
  {
    if p != [] {
      assert '/' !in p[..|p| - 1];
      LastSegmentOfPlain(p[..|p| - 1]);
      assert p == p[..|p| - 1] + [p[|p| - 1]];
    }
  }

  lemma {:induction false} LastSegmentAfterSlash(a: string, b: string)
    requires '/' !in b
    ensures LastSegment(a + "/" + b) == b
    decreases |b|
  {
    var p := a + "/" + b;
    if b == [] {
      assert p[|p| - 1] == '/';
    } else {
      var b', x := b[..|b| - 1], b[|b| - 1];
      assert b == b' + [x];
      assert p == (a + "/" + b') + [x];
      assert '/' !in b';
      LastSegmentAfterSlash(a, b');
      LastSegmentStep(a + "/" + b', x);
    }
  }

  lemma LastSegmentStep(q: string, x: char)
    requires x != '/'
    ensures LastSegment(q + [x]) == LastSegment(q) + [x]
  {
    assert (q + [x])[..|q|] == q;
  }

  /** A name without slashes is its own basename, and it is the basename of any path ending in
      `/` and that name: the basename is the file name a link button shows. */
  lemma BasenameOfName(dir: string, name: string)
    requires '/' !in name && name != []
    ensures Basename(name) == name
    ensures Basename(dir + "/" + name) == name
  {
    LastSegmentOfPlain(name);
    var p := dir + "/" + name;
    assert p[|p| - 1] == name[|name| - 1];
    LastSegmentAfterSlash(dir, name);
  }

  /** A basename is a piece of its path, so it holds no character the path does not. */
  lemma BasenameKeepsAbsence(p: string, c: char)
    requires c !in p
    ensures c !in Basename(p)
  {
    var q := StripTrailingSlashes(p);
    assert c !in q by {
      assert forall j :: 0 <= j < |q| ==> q[j] == p[j];
    }
    var b := LastSegment(q);
    assert forall j :: 0 <= j < |b| ==> b[j] == q[|q| - |b| + j];
  }

  // ---------------------------------------------------------------------------
  // Matching and replacement

  /** The rules applied as a global regular-expression replacement. */
  predicate IsReplaceRule(r: Rule) {
    r.Encoder? || r.Attachment? || r.Note? || r.Tag? || r.Diagram?
  }

  /** The pieces of `open(.*?)lead([^"]+)"(.*?)close` for a rule's shape and token. */
  function Open(shape: Shape): string {
    if shape == Image then "<img" else "<a"
  }

  function Lead(shape: Shape, token: string): string {
    (if shape == Image then "src=\"" else "href=\"") + token + "/"
  }

  function Close(shape: Shape): string {
    if shape == Button then "></a>" else ">"
  }

  function GroupCount(r: Rule): nat
    requires IsReplaceRule(r)
  {
    match r
    case Encoder(_) => 2
    case Diagram => 1
    case _ => 3
  }

  /** The match of a rule's expression at index `i`, as its scanner finds it. */
  function MatchAt(r: Rule, s: string, i: nat): (m: Option<Match>)
    requires IsReplaceRule(r) && i <= |s|
    ensures m.Some? ==> i < m.value.end <= |s| && |m.value.groups| == GroupCount(r)
  {
    match r
    case Encoder(tokens) => SpecialLinkAt(s, i, tokens)
    case Attachment(shape, token, _) => TagAt(s, i, Open(shape), Lead(shape, token), Close(shape))
    case Note(shape, token, _) => TagAt(s, i, Open(shape), Lead(shape, token), Close(shape))
    case Tag(shape, token) => TagAt(s, i, Open(shape), Lead(shape, token), Close(shape))
    case Diagram => DiagramAt(s, i)
  }

  /** `<a$1href="href"` followed by the rest of a rewritten anchor. */
  function Anchor(g1: string, href: string, rest: string): string {
    "<a" + g1 + "href=\"" + href + "\"" + rest
  }

  /** The end of a button: its label and the closing tag. */
  function Span(caption: string): string {
    "<span>" + caption + "</span></a>"
  }

  /** The text an attachment rule writes for `$1`, the decoded `$2` and `$3`. */
  function AttachmentHtml(shape: Shape, env: Env, root: string, g1: string, name: string, g3: string): string {
    var filePath := env.join(root, name);
    if shape == Image then
      "<img" + g1 + "src=\"file://" + filePath + "\" class=\"attachment\" data-filename=\"" + name + "\"" + g3 + ">"
    else Anchor(g1, "file://" + filePath, AttachmentTail(shape, name, g3))
  }

  /** What an anchor rewrite writes after its href: the class, the data attribute, `$3` and the icon.
      The three families differ in class, attribute and icon; a button's class adds `button gray`
      and its icon is `small` where a link's is `xsmall`. */
  function Attributes(classes: string, attr: string, value: string, g3: string, size: string, icon: string): string {
    " class=\"" + classes + "\" data-" + attr + "=\"" + value + "\"" + g3 + "><i class=\"icon " + size + "\">" + icon + "</i>"
  }

  /** The attributes and icon of a button anchor. */
  function ButtonLead(family: string, attr: string, value: string, g3: string, icon: string): string {
    Attributes(family + " button gray", attr, value, g3, "small", icon)
  }

  function AttachmentTail(shape: Shape, name: string, g3: string): string {
    if shape == Button then ButtonLead("attachment", "filename", name, g3, "paperclip") + Span(Basename(name))
    else Attributes("attachment", "filename", name, g3, "xsmall", "paperclip")
  }

  /** The text a note rule writes for `$1`, the decoded `$2` and `$3`. */
  function NoteHtml(shape: Shape, env: Env, root: string, g1: string, name: string, g3: string): string {
    var filePath := env.join(root, name);
    Anchor(g1, "file://" + filePath, NoteTail(shape, filePath, name, g3))
  }

  function NoteTail(shape: Shape, filePath: string, name: string, g3: string): string {
    if shape == Button then ButtonLead("note", "filepath", filePath, g3, "note") + Span(Basename(name))
    else Attributes("note", "filepath", filePath, g3, "xsmall", "note")
  }

  /** The text a tag rule writes for `$1`, the decoded `$2` and `$3`. */
  function TagHtml(shape: Shape, g1: string, name: string, g3: string): string {
    Anchor(g1, "#", TagTail(shape, name, g3))
  }

  function TagTail(shape: Shape, name: string, g3: string): string {
    if shape == Button then ButtonLead("tag", "tag", name, g3, "tag") + Span(name)
    else Attributes("tag", "tag", name, g3, "xsmall", "tag")
  }

  /** String(n) for an integer: a minus sign before the digits of a negative one. */
  function IntString(n: int): string {
    if n < 0 then "-" + Decimal(-n) else Decimal(n)
  }

  /** The element id of a diagram: "mermaid-" and the checksum of its source. */
  function DiagramId(env: Env, body: string): string {
    "mermaid-" + IntString(env.checksum(body))
  }

  /** The text a replace rule writes in place of a match with the given groups; the rules that
      decode `$2` fail with the URIError decodeURI throws. */
  function Replacement(r: Rule, env: Env, groups: seq<string>): Result<string>
    requires IsReplaceRule(r) && |groups| == GroupCount(r)
  {
    match r
    case Encoder(_) => Ok("[" + groups[0] + "](" + EncodeURI(groups[1]) + ")")
    case Diagram => Ok("<div class=\"mermaid\">" + env.renderDiagram(DiagramId(env, groups[0]), groups[0]) + "</div>")
    case _ =>
      var name := DecodeURI(groups[1]);
      if name.Err? then Err(name.error) else Ok(Rewrite(r, env, groups[0], name.value, groups[2]))
  }

  /** The tag an attachment, note or tag rule writes for `$1`, the decoded `$2` and `$3`. */
  function Rewrite(r: Rule, env: Env, g1: string, name: string, g3: string): string
    requires r.Attachment? || r.Note? || r.Tag?
  {
    match r
    case Attachment(shape, _, root) => AttachmentHtml(shape, env, root, g1, name, g3)
    case Note(shape, _, root) => NoteHtml(shape, env, root, g1, name, g3)
    case Tag(shape, _) => TagHtml(shape, g1, name, g3)
  }

  /** The scanner's answer at every index of `s`. */
  function Scan(r: Rule, s: string): (ms: seq<Option<Match>>)
    requires IsReplaceRule(r)
    ensures |ms| == |s|
    ensures forall k :: 0 <= k < |s| ==> ms[k] == MatchAt(r, s, k)
  {
    seq(|s|, k requires 0 <= k < |s| => MatchAt(r, s, k))
  }

  /** Scanner answers that are matches of an expression with `n` groups: each ends inside the
      text, after its start, and has `n` groups. */
  predicate ValidScan(n: nat, s: string, ms: seq<Option<Match>>) {
    && |ms| == |s|
    && forall k :: 0 <= k < |s| && ms[k].Some? ==> k < ms[k].value.end <= |s| && |ms[k].value.groups| == n
  }

  /** A replacer callable on every list of `n` groups. */
  ghost predicate Callable(f: seq<string> --> Result<string>, n: nat) {
    forall g :: |g| == n ==> f.requires(g)
  }

  /** The replacer function a rule passes to `replace`. */
  function Replacer(r: Rule, env: Env): (f: seq<string> --> Result<string>)
    requires IsReplaceRule(r)
    ensures Callable(f, GroupCount(r))
    ensures forall g :: |g| == GroupCount(r) ==> f(g) == Replacement(r, env, g)
  {
    g requires |g| == GroupCount(r) => Replacement(r, env, g)
  }

  /** `s.replace(new RegExp(expression, 'g'), f)` from index `i`, given the matches `ms` of the
      expression at each index: at each index the leftmost match is replaced and scanning resumes
      after it; text where no match starts is copied. A replacer that throws makes the whole
      replacement throw. */
  function Global(f: seq<string> --> Result<string>, n: nat, s: string, ms: seq<Option<Match>>, i: nat): Result<string>
    requires Callable(f, n) && ValidScan(n, s, ms) && i <= |s|
    decreases |s| - i
  {
    if i == |s| then Ok("")
    else
      match ms[i]
      case Some(m) =>
        (match f(m.groups)
         case Err(e) => Err(e)
         case Ok(text) => Prepend(text, Global(f, n, s, ms, m.end)))
      case None => Prepend([s[i]], Global(f, n, s, ms, i + 1))
  }

  /** A rule applied to a whole text as a global regular-expression replacement. */
  function ReplaceAll(r: Rule, env: Env, s: string): Result<string>
    requires IsReplaceRule(r)
  {
    Global(Replacer(r, env), GroupCount(r), s, Scan(r, s), 0)
  }

  // ---------------------------------------------------------------------------
  // Properties of the global replacement

  /** Text in which no match starts is copied unchanged, in front of the rest of the replacement. */
  lemma {:induction false} GlobalCopiesUnmatched(f: seq<string> --> Result<string>, n: nat, s: string, ms: seq<Option<Match>>, i: nat, j: nat)
    requires Callable(f, n) && ValidScan(n, s, ms) && i <= j <= |s|
    requires forall k :: i <= k < j ==> ms[k].None?
    ensures Global(f, n, s, ms, i) == Prepend(s[i..j], Global(f, n, s, ms, j))
    decreases j - i
  {
    if i == j {
      PrependEmpty(Global(f, n, s, ms, j));
    } else {
      GlobalCopiesUnmatched(f, n, s, ms, i + 1, j);
      GlobalSkips(f, n, s, ms, i);
      PrependTwice([s[i]], s[i + 1..j], Global(f, n, s, ms, j));
      assert s[i..j] == [s[i]] + s[i + 1..j];
    }
  }

  lemma GlobalSkips(f: seq<string> --> Result<string>, n: nat, s: string, ms: seq<Option<Match>>, i: nat)
    requires Callable(f, n) && ValidScan(n, s, ms) && i < |s| && ms[i].None?
    ensures Global(f, n, s, ms, i) == Prepend([s[i]], Global(f, n, s, ms, i + 1))
  {
  }

  lemma PrependEmpty(x: Result<string>)
    ensures Prepend([], x) == x
  {
    if x.Ok? {
      assert [] + x.value == x.value;
    }
  }

  lemma PrependTwice(a: string, b: string, x: Result<string>)
    ensures Prepend(a, Prepend(b, x)) == Prepend(a + b, x)
  {
    if x.Ok? {
      assert a + (b + x.value) == (a + b) + x.value;
    }
  }

  /** A text with a single match: the text before it, the replacement, and the text after it. */
  lemma GlobalOneMatch(f: seq<string> --> Result<string>, n: nat, s: string, ms: seq<Option<Match>>, i: nat, m: Match, text: string)
    requires Callable(f, n) && ValidScan(n, s, ms) && i < |s|
    requires forall k :: 0 <= k < i ==> ms[k].None?
    requires ms[i] == Some(m) && f(m.groups) == Ok(text)
    requires forall k :: m.end <= k < |s| ==> ms[k].None?
    ensures Global(f, n, s, ms, 0) == Ok(s[..i] + text + s[m.end..])
  {
    GlobalCopiesUnmatched(f, n, s, ms, m.end, |s|);
    var tail := s[m.end..];
    assert Global(f, n, s, ms, |s|) == Ok("");
    assert s[m.end..|s|] + "" == tail;
    assert Global(f, n, s, ms, m.end) == Ok(tail);
    GlobalTakes(f, n, s, ms, i, m, text);
    assert Global(f, n, s, ms, i) == Ok(text + tail);
    GlobalCopiesUnmatched(f, n, s, ms, 0, i);
    assert s[0..i] == s[..i];
    assert s[..i] + (text + tail) == s[..i] + text + tail;
  }

  lemma GlobalTakes(f: seq<string> --> Result<string>, n: nat, s: string, ms: seq<Option<Match>>, i: nat, m: Match, text: string)
    requires Callable(f, n) && ValidScan(n, s, ms) && i < |s|
    requires ms[i] == Some(m) && f(m.groups) == Ok(text)
    ensures Global(f, n, s, ms, i) == Prepend(text, Global(f, n, s, ms, m.end))
  {
  }

  /** Where the expression matches nowhere, the replacement returns the text unchanged. */
  lemma ReplaceWithoutMatch(r: Rule, env: Env, s: string)
    requires IsReplaceRule(r)
    requires forall k :: 0 <= k < |s| ==> MatchAt(r, s, k).None?
    ensures ReplaceAll(r, env, s) == Ok(s)
  {
    GlobalCopiesUnmatched(Replacer(r, env), GroupCount(r), s, Scan(r, s), 0, |s|);
    assert s[0..|s|] == s && s + "" == s;
  }

  // ---------------------------------------------------------------------------
  // The special-link encoder

  /** A text with one special link and no other `[` gets exactly that link's path encoded: the
      link text is kept, and the text around the link is copied unchanged. */
  lemma EncodeOneLink(tokens: seq<string>, pre: string, g1: string, g2: string, post: string, env: Env)
    requires forall u :: u in tokens ==> ')' !in u
    requires '[' !in pre && '[' !in post && ']' !in g1
    requires exists t :: t in tokens && IsTokenPath(g2, t)
    ensures ReplaceAll(Encoder(tokens), env, pre + "[" + g1 + "](" + g2 + ")" + post)
      == Ok(pre + "[" + g1 + "](" + EncodeURI(g2) + ")" + post)
  {
    var r := Encoder(tokens);
    var link := "[" + g1 + "](" + g2 + ")";
    var s := pre + link + post;
    var i, e := |pre|, |pre| + |link|;
    OneLinkScan(tokens, pre, g1, g2, post, s, e);
    var text := "[" + g1 + "](" + EncodeURI(g2) + ")";
    assert Replacement(r, env, [g1, g2]) == Ok(text);
    assert Replacer(r, env)([g1, g2]) == Ok(text);
    GlobalOneMatch(Replacer(r, env), 2, s, Scan(r, s), i, Match(e, [g1, g2]), text);
    ThreeParts(pre, link, post);
    LinkRegroup(pre, g1, g2, post);
    LinkRegroup(pre, g1, EncodeURI(g2), post);
  }

  /** The encoder's scan of a text with one special link: nothing before it, the link, nothing after. */
  lemma OneLinkScan(tokens: seq<string>, pre: string, g1: string, g2: string, post: string, s: string, e: nat)
    requires forall u :: u in tokens ==> ')' !in u
    requires '[' !in pre && '[' !in post && ']' !in g1
    requires exists t :: t in tokens && IsTokenPath(g2, t)
    requires s == pre + ("[" + g1 + "](" + g2 + ")") + post && e == |pre| + |g1| + |g2| + 4
    ensures ValidScan(2, s, Scan(Encoder(tokens), s))
    ensures forall k :: 0 <= k < |pre| ==> Scan(Encoder(tokens), s)[k].None?
    ensures |pre| < |s| && Scan(Encoder(tokens), s)[|pre|] == Some(Match(e, [g1, g2]))
    ensures forall k :: e <= k < |s| ==> Scan(Encoder(tokens), s)[k].None?
  {
    var link := "[" + g1 + "](" + g2 + ")";
    var i := |pre|;
    LinkInText(pre, link, post);
    SpecialLinkComplete(s, i, tokens, g1, g2);
    assert MatchAt(Encoder(tokens), s, i) == SpecialLinkAt(s, i, tokens);
    EncoderSkips(tokens, s, 0, i);
    EncoderSkips(tokens, s, e, |s|);
  }

  lemma LinkInText(pre: string, link: string, post: string)
    ensures OccursAt(pre + link + post, |pre|, link)
    ensures forall k :: 0 <= k < |pre| ==> (pre + link + post)[k] == pre[k]
    ensures forall k :: |pre| + |link| <= k < |pre + link + post| ==> (pre + link + post)[k] == post[k - |pre| - |link|]
  {
    assert (pre + link + post)[|pre|..|pre| + |link|] == link;
  }

  /** The encoder matches only at a `[`. */
  lemma EncoderSkips(tokens: seq<string>, s: string, a: nat, b: nat)
    requires a <= b <= |s| && forall k :: a <= k < b ==> s[k] != '['
    ensures forall k :: a <= k < b ==> Scan(Encoder(tokens), s)[k].None?
  {
  }

  lemma ThreeParts(a: string, b: string, c: string)
    ensures (a + b + c)[..|a|] == a && (a + b + c)[|a| + |b|..] == c
  {
  }

  lemma LinkRegroup(pre: string, g1: string, g2: string, post: string)
    ensures pre + ("[" + g1 + "](" + g2 + ")") + post == pre + "[" + g1 + "](" + g2 + ")" + post
  {
  }

  /** A second pass of the encoder changes a path it has already encoded: a path `t/%` under a
      token `t` made of unescaped characters becomes `t/%25`, and then `t/%2525`. */
  lemma EncoderNotIdempotent(tokens: seq<string>, t: string, g1: string, env: Env)
    requires t in tokens && forall u :: u in tokens ==> ')' !in u
    requires ']' !in g1 && forall k :: 0 <= k < |t| ==> IsUnescaped(t[k])
    ensures var p, q, qq := t + "/%", t + "/%25", t + "/%2525";
      && ReplaceAll(Encoder(tokens), env, "[" + g1 + "](" + p + ")") == Ok("[" + g1 + "](" + q + ")")
      && ReplaceAll(Encoder(tokens), env, "[" + g1 + "](" + q + ")") == Ok("[" + g1 + "](" + qq + ")")
  {
    PercentPathEncoding(t);
    assert ')' !in t;
    TokenPathOf(t, "%");
    TokenPathOf(t, "%25");
    EncodeSingleLink(tokens, t, g1, env, t + "/%");
    EncodeSingleLink(tokens, t, g1, env, t + "/%25");
  }

  lemma PercentPathEncoding(t: string)
    requires forall k :: 0 <= k < |t| ==> IsUnescaped(t[k])
    ensures EncodeURI(t + "/%") == t + "/%25"
    ensures EncodeURI(t + "/%25") == t + "/%2525"
  {
    UnescapedDir(t);
    PercentPathRegroup(t);
    EncodeAfterPercent(t + "/", "");
    EncodeAfterPercent(t + "/", "25");
  }

  lemma UnescapedDir(t: string)
    requires forall k :: 0 <= k < |t| ==> IsUnescaped(t[k])
    ensures forall k :: 0 <= k < |t + "/"| ==> IsUnescaped((t + "/")[k])
  {
  }

  lemma PercentPathRegroup(t: string)
    ensures t + "/%" == (t + "/") + "%" + ""
    ensures t + "/%25" == (t + "/") + "%25" + "" == (t + "/") + "%" + "25"
    ensures t + "/%2525" == (t + "/") + "%25" + "25"
  {
  }

  lemma TokenPathOf(t: string, rest: string)
    requires ')' !in t && ')' !in rest
    ensures IsTokenPath(t + "/" + rest, t)
    ensures ')' !in t + "/" + rest
  {
    var g2 := t + "/" + rest;
    assert g2[..|t| + 1] == t + "/";
    assert g2[|t| + 1..] == rest;
  }

  /** Encoding `p`, a '%' and `d`, for `p` and `d` made of unescaped characters. */
  lemma EncodeAfterPercent(p: string, d: string)
    requires forall k :: 0 <= k < |p| ==> IsUnescaped(p[k])
    requires forall k :: 0 <= k < |d| ==> IsUnescaped(d[k])
    ensures EncodeURI(p + "%" + d) == p + "%25" + d
  {
    EncodeConcat(p + "%", d);
    EncodeConcat(p, "%");
    EncodeUnescaped(p);
    EncodeUnescaped(d);
    EncodeNotIdempotent();
  }

  lemma EncodeSingleLink(tokens: seq<string>, t: string, g1: string, env: Env, g2: string)
    requires t in tokens && forall u :: u in tokens ==> ')' !in u
    requires ']' !in g1 && IsTokenPath(g2, t)
    ensures ReplaceAll(Encoder(tokens), env, "[" + g1 + "](" + g2 + ")") == Ok("[" + g1 + "](" + EncodeURI(g2) + ")")
  {
    EncodeOneLink(tokens, "", g1, g2, "", env);
    LinkRegroup("", g1, g2, "");
    LinkRegroup("", g1, EncodeURI(g2), "");
    Bare("[" + g1 + "](" + g2 + ")");
    Bare("[" + g1 + "](" + EncodeURI(g2) + ")");
  }

  lemma Bare(x: string)
    ensures "" + x + "" == x
  {
  }

  // ---------------------------------------------------------------------------
  // The output-stage rewrites

  /** The image rule reads back the name the encoder wrote: given the encoded name as `$2`, the
      `data-filename` attribute holds the original name and `src` the joined file path. */
  lemma ImageKeepsName(env: Env, token: string, root: string, g1: string, name: string, g3: string)
    ensures Replacement(Attachment(Image, token, root), env, [g1, EncodeURI(name), g3])
      == Ok("<img" + g1 + "src=\"file://" + env.join(root, name) + "\" class=\"attachment\" data-filename=\"" + name + "\"" + g3 + ">")
  {
    DecodeEncode(name);
  }

  /** The label a button shows: the basename of the decoded path, or the tag itself. */
  function ButtonLabel(r: Rule, name: string): string
    requires r.Attachment? || r.Note? || r.Tag?
  {
    if r.Tag? then name else Basename(name)
  }

  /** The href an anchor rewrite writes: `file://` and the joined path for attachments and notes,
      `#` for tags. */
  function Href(r: Rule, env: Env, name: string): string
    requires r.Attachment? || r.Note? || r.Tag?
  {
    if r.Tag? then "#" else "file://" + env.join(r.root, name)
  }

  /** What an anchor rewrite writes after its href. */
  function AnchorTail(r: Rule, env: Env, name: string, g3: string): string
    requires r.Attachment? || r.Note? || r.Tag?
  {
    if r.Attachment? then AttachmentTail(r.shape, name, g3)
    else if r.Note? then NoteTail(r.shape, env.join(r.root, name), name, g3)
    else TagTail(r.shape, name, g3)
  }

  /** An anchor rewrite that succeeds decodes `$2` and writes `<a$1href="`, the resolved href, and
      the anchor's attributes. */
  lemma AnchorRewrite(r: Rule, env: Env, groups: seq<string>)
    requires (r.Attachment? || r.Note? || r.Tag?) && r.shape != Image && |groups| == 3
    requires Replacement(r, env, groups).Ok?
    ensures DecodeURI(groups[1]).Ok?
    ensures var name := DecodeURI(groups[1]).value;
      Replacement(r, env, groups).value == Anchor(groups[0], Href(r, env, name), AnchorTail(r, env, name, groups[2]))
  {
  }

  lemma AnchorEndsWith(g1: string, href: string, x: string, tail: string)
    ensures EndsWith(Anchor(g1, href, x + tail), tail)
  {
    var out := Anchor(g1, href, x + tail);
    assert out == ("<a" + g1 + "href=\"" + href + "\"" + x) + tail;
  }

  /** Every button rewrite ends with its label in a `<span>` and the closing `</a>`, whatever the
      captured groups. */
  lemma ButtonEndsWithLabel(r: Rule, env: Env, groups: seq<string>)
    requires (r.Attachment? || r.Note? || r.Tag?) && r.shape == Button && |groups| == 3
    requires Replacement(r, env, groups).Ok?
    ensures DecodeURI(groups[1]).Ok?
    ensures EndsWith(Replacement(r, env, groups).value, Span(ButtonLabel(r, DecodeURI(groups[1]).value)))
  {
    AnchorRewrite(r, env, groups);
    var name := DecodeURI(groups[1]).value;
    var lead, sp, h := ButtonLeadOf(r, env, name, groups[2]), Span(ButtonLabel(r, name)), Href(r, env, name);
    ButtonTailSplit(r, env, name, groups[2]);
    AnchorEndsWith(groups[0], h, lead, sp);
    assert Replacement(r, env, groups).value == Anchor(groups[0], h, lead + sp);
  }

  /** The attributes and icon a button rewrite writes before its label. */
  function ButtonLeadOf(r: Rule, env: Env, name: string, g3: string): string
    requires r.Attachment? || r.Note? || r.Tag?
  {
    if r.Attachment? then ButtonLead("attachment", "filename", name, g3, "paperclip")
    else if r.Note? then ButtonLead("note", "filepath", env.join(r.root, name), g3, "note")
    else ButtonLead("tag", "tag", name, g3, "tag")
  }

  lemma ButtonTailSplit(r: Rule, env: Env, name: string, g3: string)
    requires (r.Attachment? || r.Note? || r.Tag?) && r.shape == Button
    ensures AnchorTail(r, env, name, g3) == ButtonLeadOf(r, env, name, g3) + Span(ButtonLabel(r, name))
  {
  }

  /** An anchor rewrite reads back the name the encoder wrote: given the encoded name as `$2`, the
      href and the data attribute carry the original name (joined to the root for attachments and
      notes), whatever the name holds. */
  lemma AnchorKeepsName(r: Rule, env: Env, g1: string, name: string, g3: string)
    requires (r.Attachment? || r.Note? || r.Tag?) && r.shape != Image
    ensures Replacement(r, env, [g1, EncodeURI(name), g3]) == Ok(Anchor(g1, Href(r, env, name), AnchorTail(r, env, name, g3)))
  {
    DecodeEncode(name);
  }

  // ---------------------------------------------------------------------------
  // A rewritten anchor is not matched again

  /** The rule of the same family and token with another shape. */
  function WithShape(r: Rule, shape: Shape): Rule
    requires r.Attachment? || r.Note? || r.Tag?
  {
    match r
    case Attachment(_, token, root) => Attachment(shape, token, root)
    case Note(_, token, root) => Note(shape, token, root)
    case Tag(_, token) => Tag(shape, token)
  }

  /** A tag pattern matches nowhere in a text where its lead does not occur. */
  lemma NoLeadNoTagMatch(s: string, open: string, lead: string, close: string)
    requires forall p: nat :: !OccursAt(s, p, lead)
    ensures forall k: nat, g1, g2, g3 :: !IsTagMatch(s, k, open, lead, close, g1, g2, g3)
  {
    forall k: nat, g1: string, g2: string, g3: string ensures !IsTagMatch(s, k, open, lead, close, g1, g2, g3) {
      var tail := g2 + "\"" + g3 + close;
      assert open + g1 + lead + g2 + "\"" + g3 + close == (open + g1) + (lead + tail);
      OccursConcat(s, k, open + g1, lead + tail);
      OccursConcat(s, k + |open + g1|, lead, tail);
    }
  }

  /** An attribute rule matches nowhere in a text where its `src="token/` or `href="token/` does
      not occur. */
  lemma NoLeadNoMatch(r: Rule, s: string)
    requires r.Attachment? || r.Note? || r.Tag?
    requires forall p: nat :: !OccursAt(s, p, Lead(r.shape, r.token))
    ensures forall k: nat :: k <= |s| ==> MatchAt(r, s, k).None?
  {
    NoLeadNoTagMatch(s, Open(r.shape), Lead(r.shape, r.token), Close(r.shape));
  }

  /** The quote-separated pieces of a rewritten anchor. */
  function AnchorParts(g1: string, href: string, classes: string, attr: string, value: string, g3: string,
                       size: string, icon: string, after: string): seq<string> {
    ["<a" + g1 + "href=", href, " class=", classes, " data-" + attr + "=", value, g3 + "><i class=", "icon " + size,
     ">" + icon + "</i>" + after]
  }

  lemma JoinCons(x: string, rest: seq<string>, sep: char)
    requires |rest| >= 1
    ensures Join([x] + rest, sep) == x + [sep] + Join(rest, sep)
  {
    assert ([x] + rest)[1..] == rest;
  }

  lemma AttributesSplit(classes: string, attr: string, value: string, g3: string, size: string, icon: string, after: string)
    ensures Attributes(classes, attr, value, g3, size, icon) + after
      == " class=" + "\"" + (classes + "\"" + ((" data-" + attr + "=") + "\"" + (value + "\""
         + ((g3 + "><i class=") + "\"" + (("icon " + size) + "\"" + (">" + icon + "</i>" + after))))))
  {
  }

  lemma JoinCons2(x: string, y: string, rest: seq<string>, sep: char)
    requires |rest| >= 1
    ensures Join([x, y] + rest, sep) == x + [sep] + (y + [sep] + Join(rest, sep))
  {
    JoinCons(y, rest, sep);
    assert [x, y] + rest == [x] + ([y] + rest);
    JoinCons(x, [y] + rest, sep);
  }

  /** A rewritten anchor is its pieces joined by quotes. */
  lemma AnchorJoin(g1: string, href: string, classes: string, attr: string, value: string, g3: string,
                   size: string, icon: string, after: string)
    ensures Join(AnchorParts(g1, href, classes, attr, value, g3, size, icon, after), '"')
      == Anchor(g1, href, Attributes(classes, attr, value, g3, size, icon) + after)
  {
    var p6, p7, p8 := g3 + "><i class=", "icon " + size, ">" + icon + "</i>" + after;
    var r6 := [p6, p7, p8];
    var r4 := [" data-" + attr + "=", value] + r6;
    var r2 := [" class=", classes] + r4;
    JoinCons2(p6, p7, [p8], '"');
    assert Join([p8], '"') == p8;
    assert [p6, p7] + [p8] == r6;
    JoinCons2(" data-" + attr + "=", value, r6, '"');
    JoinCons2(" class=", classes, r4, '"');
    JoinCons2("<a" + g1 + "href=", href, r2, '"');
    assert AnchorParts(g1, href, classes, attr, value, g3, size, icon, after) == ["<a" + g1 + "href=", href] + r2;
    AttributesSplit(classes, attr, value, g3, size, icon, after);
    AnchorQuotes(g1, href, Join(r2, '"'));
  }

  lemma AnchorQuotes(g1: string, href: string, rest: string)
    ensures ("<a" + g1 + "href=") + "\"" + (href + "\"" + rest) == Anchor(g1, href, rest)
  {
  }

  lemma PartsNoQuote(g1: string, href: string, classes: string, attr: string, value: string, g3: string,
                      size: string, icon: string, after: string)
    requires '"' !in g1 && '"' !in href && '"' !in classes && '"' !in attr && '"' !in value
    requires '"' !in g3 && '"' !in size && '"' !in icon && '"' !in after
    ensures forall k :: 0 <= k < 9 ==> '"' !in AnchorParts(g1, href, classes, attr, value, g3, size, icon, after)[k]
  {
    var ps := AnchorParts(g1, href, classes, attr, value, g3, size, icon, after);
    assert '"' !in ps[0] && '"' !in ps[2] && '"' !in ps[4] && '"' !in ps[6] && '"' !in ps[7] && '"' !in ps[8];
  }

  /** `$3` followed by the icon's opening cannot start with `token/` when `$3` does not and the
      token holds no `>`. */
  lemma IconLeadNotToken(g3: string, token: string)
    requires '>' !in token && !StartsWith(g3, token + "/")
    ensures !StartsWith(g3 + "><i class=", token + "/")
  {
    var b, t := token + "/", g3 + "><i class=";
    if |g3| >= |b| {
      assert g3[..|b|] == t[..|b|];
    } else if |g3| < |t| {
      assert t[|g3|] == '>';
      assert b[|g3|] != '>' by {
        if |g3| < |token| {
          assert b[|g3|] == token[|g3|];
        }
      }
    }
  }

  /** Where `href="token/` could occur in a rewritten anchor: only across a quote, and none of the
      quotes qualifies when the pieces hold no quote, the href and `$3` do not start with `token/`,
      and the token holds neither `"` nor `>` and does not start with a space. */
  lemma AnchorPartsAvoid(g1: string, href: string, classes: string, attr: string, value: string, g3: string,
                         size: string, icon: string, after: string, token: string)
    requires '"' !in g1 && '"' !in href && '"' !in classes && '"' !in attr && '"' !in value
    requires '"' !in g3 && '"' !in size && '"' !in icon && '"' !in after
    requires '"' !in token && '>' !in token && (token == [] || token[0] != ' ')
    requires !StartsWith(href, token + "/") && !StartsWith(g3, token + "/")
    requires !EndsWith(classes, "href=") && !EndsWith(" data-" + attr + "=", "href=") && !EndsWith("icon " + size, "href=")
    ensures forall p: nat :: !OccursAt(Join(AnchorParts(g1, href, classes, attr, value, g3, size, icon, after), '"'), p, "href=" + ['"'] + (token + "/"))
  {
    var ps := AnchorParts(g1, href, classes, attr, value, g3, size, icon, after);
    var b := token + "/";
    assert b[0] == if token == [] then '/' else token[0];
    assert !StartsWith(ps[2], b) by {
      assert ps[2][0] == ' ';
    }
    assert !EndsWith(ps[2], "href=") by {
      assert ps[2][2] == 'l';
    }
    assert !EndsWith(ps[6], "href=") by {
      assert ps[6][|ps[6]| - 5] == 'l';
    }
    IconLeadNotToken(g3, token);
    PartsNoQuote(g1, href, classes, attr, value, g3, size, icon, after);
    JoinAvoids(ps, '"', "href=", b);
  }

  /** The family name an anchor rewrite writes in its class attribute. */
  function Family(r: Rule): string
    requires r.Attachment? || r.Note? || r.Tag?
  {
    if r.Attachment? then "attachment" else if r.Note? then "note" else "tag"
  }

  function Classes(r: Rule): string
    requires r.Attachment? || r.Note? || r.Tag?
  {
    if r.shape == Button then Family(r) + " button gray" else Family(r)
  }

  function DataAttr(r: Rule): string
    requires r.Attachment? || r.Note? || r.Tag?
  {
    if r.Attachment? then "filename" else if r.Note? then "filepath" else "tag"
  }

  function DataValue(r: Rule, env: Env, name: string): string
    requires r.Attachment? || r.Note? || r.Tag?
  {
    if r.Note? then env.join(r.root, name) else name
  }

  function IconSize(r: Rule): string
    requires r.Attachment? || r.Note? || r.Tag?
  {
    if r.shape == Button then "small" else "xsmall"
  }

  function Icon(r: Rule): string
    requires r.Attachment? || r.Note? || r.Tag?
  {
    if r.Attachment? then "paperclip" else if r.Note? then "note" else "tag"
  }

  function After(r: Rule, name: string): string
    requires r.Attachment? || r.Note? || r.Tag?
  {
    if r.shape == Button then Span(ButtonLabel(r, name)) else ""
  }

  /** Every anchor rewrite writes the same attributes, told apart only by the family's class, data
      attribute and icon, and a button adds its label. */
  lemma AnchorTailParts(r: Rule, env: Env, name: string, g3: string)
    requires (r.Attachment? || r.Note? || r.Tag?) && r.shape != Image
    ensures AnchorTail(r, env, name, g3)
      == Attributes(Classes(r), DataAttr(r), DataValue(r, env, name), g3, IconSize(r), Icon(r)) + After(r, name)
  {
  }

  /** The fixed pieces of an anchor rewrite hold no quote and none ends with `href=`. */
  lemma FixedPieces(r: Rule)
    requires r.Attachment? || r.Note? || r.Tag?
    ensures '"' !in Classes(r) && '"' !in DataAttr(r) && '"' !in IconSize(r) && '"' !in Icon(r)
    ensures !EndsWith(Classes(r), "href=")
    ensures !EndsWith(" data-" + DataAttr(r) + "=", "href=")
    ensures !EndsWith("icon " + IconSize(r), "href=")
  {
    FixedNoQuote(r);
    ClassesEnd(r);
    DataAttrEnd(r);
    IconSizeEnd(r);
  }

  lemma FixedNoQuote(r: Rule)
    requires r.Attachment? || r.Note? || r.Tag?
    ensures '"' !in Classes(r) && '"' !in DataAttr(r) && '"' !in IconSize(r) && '"' !in Icon(r)
  {
  }

  lemma ClassesEnd(r: Rule)
    requires r.Attachment? || r.Note? || r.Tag?
    ensures !EndsWith(Classes(r), "href=")
  {
    var c := Classes(r);
    assert c[|c| - 1] != '=';
  }

  lemma DataAttrEnd(r: Rule)
    requires r.Attachment? || r.Note? || r.Tag?
    ensures !EndsWith(" data-" + DataAttr(r) + "=", "href=")
  {
    var d := " data-" + DataAttr(r) + "=";
    assert d[|d| - 2] != 'f';
  }

  lemma IconSizeEnd(r: Rule)
    requires r.Attachment? || r.Note? || r.Tag?
    ensures !EndsWith("icon " + IconSize(r), "href=")
  {
    var i := "icon " + IconSize(r);
    assert i[|i| - 1] == 'l';
  }

  lemma AfterNoQuote(r: Rule, name: string)
    requires (r.Attachment? || r.Note? || r.Tag?) && '"' !in name
    ensures '"' !in After(r, name)
  {
    var caption := ButtonLabel(r, name);
    if !r.Tag? {
      BasenameKeepsAbsence(name, '"');
    }
    assert '"' !in caption;
    SpanNoQuote(caption);
  }

  lemma SpanNoQuote(caption: string)
    requires '"' !in caption
    ensures '"' !in Span(caption)
  {
  }

  /** The href of an anchor rewrite starts with `#` or `f`, so not with a token that starts with
      neither. */
  lemma HrefNotToken(r: Rule, env: Env, name: string)
    requires r.Attachment? || r.Note? || r.Tag?
    requires r.token == [] || (r.token[0] != 'f' && r.token[0] != '#')
    ensures !StartsWith(Href(r, env, name), r.token + "/")
  {
    var b, h := r.token + "/", Href(r, env, name);
    assert b[0] == if r.token == [] then '/' else r.token[0];
    assert h[0] == if r.Tag? then '#' else 'f';
  }

  /** `href="token/` occurs nowhere in an anchor written for a name when the written pieces hold no
      quote and cannot start with `token/`. */
  lemma AnchorAvoidsLead(r: Rule, env: Env, g1: string, name: string, g3: string)
    requires (r.Attachment? || r.Note? || r.Tag?) && r.shape != Image
    requires '"' !in name && (!r.Tag? ==> '"' !in env.join(r.root, name))
    requires '"' !in g1 && '"' !in g3 && !StartsWith(g3, r.token + "/")
    requires '"' !in r.token && '>' !in r.token
    requires r.token == [] || (r.token[0] != 'f' && r.token[0] != '#' && r.token[0] != ' ')
    ensures forall p: nat :: !OccursAt(Anchor(g1, Href(r, env, name), AnchorTail(r, env, name, g3)), p, "href=" + ['"'] + (r.token + "/"))
  {
    var href := Href(r, env, name);
    var classes, attr, value, size, icon, after := Classes(r), DataAttr(r), DataValue(r, env, name), IconSize(r), Icon(r), After(r, name);
    AnchorTailParts(r, env, name, g3);
    AnchorJoin(g1, href, classes, attr, value, g3, size, icon, after);
    FixedPieces(r);
    AfterNoQuote(r, name);
    HrefNotToken(r, env, name);
    assert '"' !in href;
    AnchorPartsAvoid(g1, href, classes, attr, value, g3, size, icon, after, r.token);
  }

  /** Where `href="token/` does not occur, neither the button nor the link rule of the token
      matches. */
  lemma NoRematch(r: Rule, out: string)
    requires r.Attachment? || r.Note? || r.Tag?
    requires forall p: nat :: !OccursAt(out, p, "href=" + ['"'] + (r.token + "/"))
    ensures forall shape: Shape, k: nat :: shape != Image && k <= |out| ==> MatchAt(WithShape(r, shape), out, k).None?
  {
    forall shape: Shape | shape != Image ensures forall k: nat :: k <= |out| ==> MatchAt(WithShape(r, shape), out, k).None? {
      assert Lead(shape, r.token) == "href=" + ['"'] + (r.token + "/");
      NoLeadNoMatch(WithShape(r, shape), out);
    }
  }

  /** After an anchor rewrite, neither the button nor the link rule of the same token matches
      anywhere in what it wrote, so the link rule that runs after the button rule cannot rewrite a
      button again. This holds when the written pieces cannot form `href="token/`: `$1`, `$3`, the
      decoded name and, for attachments and notes, the joined path hold no `"`; `$3` does not start
      with `token/`; and the token holds neither `"` nor `>` and starts with none of `f`, `#` and a
      space. */
  lemma AnchorNotMatchedAgain(r: Rule, env: Env, groups: seq<string>)
    requires (r.Attachment? || r.Note? || r.Tag?) && r.shape != Image && |groups| == 3
    requires DecodeURI(groups[1]).Ok? && '"' !in DecodeURI(groups[1]).value
    requires !r.Tag? ==> '"' !in env.join(r.root, DecodeURI(groups[1]).value)
    requires '"' !in groups[0] && '"' !in groups[2] && !StartsWith(groups[2], r.token + "/")
    requires '"' !in r.token && '>' !in r.token
    requires r.token == [] || (r.token[0] != 'f' && r.token[0] != '#' && r.token[0] != ' ')
    ensures Replacement(r, env, groups).Ok?
    ensures forall shape: Shape, k: nat :: shape != Image && k <= |Replacement(r, env, groups).value| ==>
      MatchAt(WithShape(r, shape), Replacement(r, env, groups).value, k).None?
  {
    var name := DecodeURI(groups[1]).value;
    assert Replacement(r, env, groups) == Ok(Rewrite(r, env, groups[0], name, groups[2]));
    AnchorRewrite(r, env, groups);
    AnchorAvoidsLead(r, env, groups[0], name, groups[2]);
    NoRematch(r, Replacement(r, env, groups).value);
  }
}
