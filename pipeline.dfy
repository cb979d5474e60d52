/** The converter the Markdown renderer builds once and reuses: the extensions in the order it
    registers them, the two stages it runs them in, and the memoised render. */
module Pipeline {
  import opened Wrappers
  import opened Rules
  import opened Wikilink

  // ---------------------------------------------------------------------------
  // Registration

  /** The rules of the extensions in the order they are registered: highlight, target-blank, the
      special-link encoder, attachments, wikilinks, notes, tags, KaTeX and diagrams. */
  function Extensions(c: Config, env: Env): seq<Rule> {
    ForeignRules(env, "highlight") + ForeignRules(env, "targetBlank") + EncoderRules(c) + AttachmentRules(c)
      + WikilinkRules(c) + NoteRules(c) + TagRules(c) + ForeignRules(env, "katex") + DiagramRules()
  }

  /** The rules of one stage, in registration order. */
  function OfStage(rs: seq<Rule>, st: Stage): seq<Rule> {
    if rs == [] then []
    else (if StageOf(rs[0]) == st then [rs[0]] else []) + OfStage(rs[1..], st)
  }

  /** A stage holds exactly the rules of that stage. */
  lemma {:induction false} OfStageMembers(rs: seq<Rule>, st: Stage)
    ensures forall r :: r in OfStage(rs, st) <==> r in rs && StageOf(r) == st
  {
    if rs != [] {
      OfStageMembers(rs[1..], st);
      assert forall r :: r in rs <==> r == rs[0] || r in rs[1..];
    }
  }

  /** Splitting into stages keeps the order of the parts. */
  lemma {:induction false} OfStageConcat(a: seq<Rule>, b: seq<Rule>, st: Stage)
    ensures OfStage(a + b, st) == OfStage(a, st) + OfStage(b, st)
  {
    if a == [] {
      assert a + b == b;
    } else {
      assert (a + b)[0] == a[0];
      assert (a + b)[1..] == a[1..] + b;
      OfStageConcat(a[1..], b, st);
    }
  }

  lemma OfStageAll(rs: seq<Rule>, st: Stage)
    requires forall k :: 0 <= k < |rs| ==> StageOf(rs[k]) == st
    ensures OfStage(rs, st) == rs
  {
    if rs != [] {
      OfStageAll(rs[1..], st);
    }
  }

  lemma OfStageNone(rs: seq<Rule>, st: Stage)
    requires forall k :: 0 <= k < |rs| ==> StageOf(rs[k]) != st
    ensures OfStage(rs, st) == []
  {
    if rs != [] {
      OfStageNone(rs[1..], st);
    }
  }

  /** Staging eight parts in a row. */
  lemma StageParts(f: seq<Rule>, e: seq<Rule>, a: seq<Rule>, w: seq<Rule>, n: seq<Rule>, t: seq<Rule>, k: seq<Rule>, d: seq<Rule>, st: Stage)
    ensures OfStage(f + e + a + w + n + t + k + d, st)
      == OfStage(f, st) + OfStage(e, st) + OfStage(a, st) + OfStage(w, st) + OfStage(n, st) + OfStage(t, st) + OfStage(k, st) + OfStage(d, st)
  {
    OfStageConcat(f + e + a + w + n + t + k, d, st);
    OfStageConcat(f + e + a + w + n + t, k, st);
    OfStageConcat(f + e + a + w + n, t, st);
    OfStageConcat(f + e + a + w, n, st);
    OfStageConcat(f + e + a, w, st);
    OfStageConcat(f + e, a, st);
    OfStageConcat(f, e, st);
  }

  /** Which stage each of the model's own families runs in. */
  lemma SourceFamilies(c: Config)
    ensures OfStage(EncoderRules(c), Lang) == EncoderRules(c) && OfStage(EncoderRules(c), Output) == []
    ensures OfStage(DiagramRules(), Lang) == DiagramRules() && OfStage(DiagramRules(), Output) == []
  {
    OfStageAll(EncoderRules(c), Lang);
    OfStageNone(EncoderRules(c), Output);
    OfStageAll(DiagramRules(), Lang);
    OfStageNone(DiagramRules(), Output);
  }

  lemma OutputFamilies(c: Config)
    ensures OfStage(AttachmentRules(c), Lang) == [] && OfStage(AttachmentRules(c), Output) == AttachmentRules(c)
    ensures OfStage(NoteRules(c), Lang) == [] && OfStage(NoteRules(c), Output) == NoteRules(c)
    ensures OfStage(TagRules(c), Lang) == [] && OfStage(TagRules(c), Output) == TagRules(c)
  {
    AttachmentsOutput(c);
    NotesOutput(c);
    TagsOutput(c);
  }

  lemma AttachmentsOutput(c: Config)
    ensures forall k :: 0 <= k < |AttachmentRules(c)| ==> StageOf(AttachmentRules(c)[k]) == Output
    ensures OfStage(AttachmentRules(c), Lang) == [] && OfStage(AttachmentRules(c), Output) == AttachmentRules(c)
  {
    OutputOnly(AttachmentRules(c));
  }

  lemma NotesOutput(c: Config)
    ensures forall k :: 0 <= k < |NoteRules(c)| ==> StageOf(NoteRules(c)[k]) == Output
    ensures OfStage(NoteRules(c), Lang) == [] && OfStage(NoteRules(c), Output) == NoteRules(c)
  {
    OutputOnly(NoteRules(c));
  }

  lemma TagsOutput(c: Config)
    ensures forall k :: 0 <= k < |TagRules(c)| ==> StageOf(TagRules(c)[k]) == Output
    ensures OfStage(TagRules(c), Lang) == [] && OfStage(TagRules(c), Output) == TagRules(c)
  {
    OutputOnly(TagRules(c));
  }

  lemma OutputOnly(rs: seq<Rule>)
    requires forall k :: 0 <= k < |rs| ==> StageOf(rs[k]) == Output
    ensures OfStage(rs, Lang) == [] && OfStage(rs, Output) == rs
  {
    OfStageNone(rs, Lang);
    OfStageAll(rs, Output);
  }

  lemma WikilinkFamily(c: Config)
    ensures OfStage(WikilinkRules(c), Lang) == (if c.notesPath == "" then [] else [WikilinkCapture])
    ensures OfStage(WikilinkRules(c), Output) == (if c.notesPath == "" then [] else [WikilinkRestore])
  {
    if c.notesPath != "" {
      var w := WikilinkRules(c);
      assert w[1..] == [WikilinkRestore] && w[1..][1..] == [];
      assert OfStage(w[1..], Lang) == [] + OfStage([], Lang);
      assert OfStage(w[1..], Output) == [WikilinkRestore] + OfStage([], Output);
    }
  }

  /** The order the source stage runs its rules in: the foreign source rules, the encoder, the
      wikilink capture when a notes path is set, KaTeX's source rules and the diagram rule. So
      special links are encoded before wikilinks are captured. */
  lemma LangOrder(c: Config, env: Env)
    ensures OfStage(Extensions(c, env), Lang)
      == OfStage(ForeignRules(env, "highlight") + ForeignRules(env, "targetBlank"), Lang) + EncoderRules(c)
         + (if c.notesPath == "" then [] else [WikilinkCapture])
         + OfStage(ForeignRules(env, "katex"), Lang) + DiagramRules()
  {
    var front, katex := ForeignRules(env, "highlight") + ForeignRules(env, "targetBlank"), ForeignRules(env, "katex");
    var enc, att, wiki, note, tag, diag := EncoderRules(c), AttachmentRules(c), WikilinkRules(c), NoteRules(c), TagRules(c), DiagramRules();
    StageParts(front, enc, att, wiki, note, tag, katex, diag, Lang);
    SourceFamilies(c);
    OutputFamilies(c);
    WikilinkFamily(c);
    var fl, wl, kl := OfStage(front, Lang), OfStage(wiki, Lang), OfStage(katex, Lang);
    assert OfStage(Extensions(c, env), Lang) == fl + enc + [] + wl + [] + [] + kl + diag;
    DropEmpties(fl, enc, wl, kl, diag);
  }

  lemma DropEmpties(fl: seq<Rule>, enc: seq<Rule>, wl: seq<Rule>, kl: seq<Rule>, diag: seq<Rule>)
    ensures fl + enc + [] + wl + [] + [] + kl + diag == fl + enc + wl + kl + diag
  {
    assert fl + enc + [] == fl + enc;
    assert fl + enc + wl + [] + [] == fl + enc + wl;
  }

  /** The order the output stage runs its rules in: the foreign output rules, the attachment image,
      button and link rules, the wikilink restore, the note button and link rules, the tag button
      and link rules, and KaTeX's output rules. So the restore runs before the note rules, and the
      anchors it writes are rewritten by them only if they carry the notes token. */
  lemma OutputOrder(c: Config, env: Env)
    ensures OfStage(Extensions(c, env), Output)
      == OfStage(ForeignRules(env, "highlight") + ForeignRules(env, "targetBlank"), Output) + AttachmentRules(c)
         + (if c.notesPath == "" then [] else [WikilinkRestore])
         + NoteRules(c) + TagRules(c) + OfStage(ForeignRules(env, "katex"), Output)
  {
    var front, katex := ForeignRules(env, "highlight") + ForeignRules(env, "targetBlank"), ForeignRules(env, "katex");
    var enc, att, wiki, note, tag, diag := EncoderRules(c), AttachmentRules(c), WikilinkRules(c), NoteRules(c), TagRules(c), DiagramRules();
    StageParts(front, enc, att, wiki, note, tag, katex, diag, Output);
    SourceFamilies(c);
    OutputFamilies(c);
    WikilinkFamily(c);
    var fo, wo, ko := OfStage(front, Output), OfStage(wiki, Output), OfStage(katex, Output);
    assert OfStage(Extensions(c, env), Output) == fo + [] + att + wo + note + tag + ko + [];
    assert fo + [] == fo;
    assert fo + att + wo + note + tag + ko + [] == fo + att + wo + note + tag + ko;
  }

  // ---------------------------------------------------------------------------
  // Running the rules

  /** What running rules gives: the text, or the error that stopped them, and the list of
      captured wikilink contents as it is afterwards. */
  datatype Outcome = Outcome(result: Result<string>, vault: seq<string>)

  /** What the restore rule leaves in the list. As the code is written, a drain that throws
      skips the reset, so every captured content stays; corrected, the list is emptied whether or
      not the drain threw. */
  datatype DrainMode = AsWritten | Corrected

  /** One rule on a text, with the captured contents so far. */
  function ApplyRule(m: DrainMode, r: Rule, c: Config, env: Env, t: string, vault: seq<string>): Outcome {
    match r
    case Foreign(name, index, _) => Outcome(Ok(env.applyForeign(name, index, t)), vault)
    case WikilinkCapture => Outcome(Ok(Protect(t, |vault|)), vault + Captured(t))
    case WikilinkRestore =>
      var linker := NoteLinker(c.notesPattern);
      Outcome(DrainFrom(t, vault, 0, linker), if m == AsWritten then KeptAsWritten(vault, t, linker) else [])
    case _ => Outcome(ReplaceAll(r, env, t), vault)
  }

  /** Rules one after the other; the first error stops the run. */
  function ApplyRules(m: DrainMode, rs: seq<Rule>, c: Config, env: Env, t: string, vault: seq<string>): Outcome
    decreases |rs|
  {
    if rs == [] then Outcome(Ok(t), vault)
    else
      var o := ApplyRule(m, rs[0], c, env, t, vault);
      if o.result.Err? then o else ApplyRules(m, rs[1..], c, env, o.result.value, o.vault)
  }

  /** makeHtml: an empty text is returned as it is before any rule runs; any other text is
      prepared, goes through the source-stage rules, is converted, and goes through the
      output-stage rules. */
  function MakeHtmlSpec(m: DrainMode, c: Config, env: Env, rules: seq<Rule>, text: string, vault: seq<string>): Outcome {
    if text == "" then Outcome(Ok(text), vault)
    else
      var l := ApplyRules(m, OfStage(rules, Lang), c, env, env.prepare(text), vault);
      if l.result.Err? then l
      else ApplyRules(m, OfStage(rules, Output), c, env, env.convert(l.result.value), l.vault)
  }

  /** Running two lists of rules is running their concatenation. */
  lemma {:induction false} ApplyRulesConcat(m: DrainMode, a: seq<Rule>, b: seq<Rule>, c: Config, env: Env, t: string, vault: seq<string>)
    ensures ApplyRules(m, a + b, c, env, t, vault)
      == (var o := ApplyRules(m, a, c, env, t, vault); if o.result.Err? then o else ApplyRules(m, b, c, env, o.result.value, o.vault))
    decreases |a|
  {
    if a == [] {
      assert a + b == b;
    } else {
      assert (a + b)[0] == a[0];
      assert (a + b)[1..] == a[1..] + b;
      var o := ApplyRule(m, a[0], c, env, t, vault);
      if o.result.Ok? {
        ApplyRulesConcat(m, a[1..], b, c, env, o.result.value, o.vault);
      }
    }
  }

  predicate NoWikilinkRule(rs: seq<Rule>) {
    forall r :: r in rs ==> !r.WikilinkCapture? && !r.WikilinkRestore?
  }

  lemma ForeignOnly(env: Env, name: string)
    ensures forall r :: r in ForeignRules(env, name) ==> r.Foreign?
  {
    var rs := ForeignRules(env, name);
    forall r | r in rs
      ensures r.Foreign?
    {
      var k :| 0 <= k < |rs| && rs[k] == r;
    }
  }

  /** The foreign extensions register no wikilink rule, in either stage. */
  lemma ForeignNoWikilink(env: Env, st: Stage)
    ensures NoWikilinkRule(OfStage(ForeignRules(env, "highlight") + ForeignRules(env, "targetBlank"), st))
    ensures NoWikilinkRule(OfStage(ForeignRules(env, "katex"), st))
  {
    var front, katex := ForeignRules(env, "highlight") + ForeignRules(env, "targetBlank"), ForeignRules(env, "katex");
    ForeignOnly(env, "highlight");
    ForeignOnly(env, "targetBlank");
    ForeignOnly(env, "katex");
    OfStageMembers(front, st);
    OfStageMembers(katex, st);
  }

  /** Rules other than the wikilink ones leave the captured contents alone. */
  lemma {:induction false} ApplyRulesKeepsVault(m: DrainMode, rs: seq<Rule>, c: Config, env: Env, t: string, vault: seq<string>)
    requires NoWikilinkRule(rs)
    ensures ApplyRules(m, rs, c, env, t, vault).vault == vault
    decreases |rs|
  {
    if rs != [] {
      var o := ApplyRule(m, rs[0], c, env, t, vault);
      if o.result.Ok? {
        assert forall r :: r in rs[1..] ==> r in rs;
        ApplyRulesKeepsVault(m, rs[1..], c, env, o.result.value, o.vault);
      }
    }
  }

  lemma NoWikilinkConcat(a: seq<Rule>, b: seq<Rule>)
    requires NoWikilinkRule(a) && NoWikilinkRule(b)
    ensures NoWikilinkRule(a + b)
  {
  }

  /** The encoder, attachment, note, tag and diagram families hold no wikilink rule. */
  lemma FamiliesNoWikilink(c: Config)
    ensures NoWikilinkRule(EncoderRules(c)) && NoWikilinkRule(DiagramRules())
    ensures NoWikilinkRule(AttachmentRules(c)) && NoWikilinkRule(NoteRules(c)) && NoWikilinkRule(TagRules(c))
  {
  }

  /** Without a notes path neither stage holds a wikilink rule. */
  lemma StagesWithoutNotes(c: Config, env: Env)
    requires c.notesPath == ""
    ensures NoWikilinkRule(OfStage(Extensions(c, env), Lang))
    ensures NoWikilinkRule(OfStage(Extensions(c, env), Output))
  {
    LangOrder(c, env);
    OutputOrder(c, env);
    ForeignNoWikilink(env, Lang);
    ForeignNoWikilink(env, Output);
    FamiliesNoWikilink(c);
    var front, katex := ForeignRules(env, "highlight") + ForeignRules(env, "targetBlank"), ForeignRules(env, "katex");
    var l1 := OfStage(front, Lang) + EncoderRules(c);
    NoWikilinkConcat(OfStage(front, Lang), EncoderRules(c));
    assert l1 + [] == l1;
    NoWikilinkConcat(l1, OfStage(katex, Lang));
    NoWikilinkConcat(l1 + OfStage(katex, Lang), DiagramRules());
    var o1 := OfStage(front, Output) + AttachmentRules(c);
    NoWikilinkConcat(OfStage(front, Output), AttachmentRules(c));
    assert o1 + [] == o1;
    NoWikilinkConcat(o1, NoteRules(c));
    NoWikilinkConcat(o1 + NoteRules(c), TagRules(c));
    NoWikilinkConcat(o1 + NoteRules(c) + TagRules(c), OfStage(katex, Output));
  }

  /** Without a notes path no wikilink rule is registered: rendering never touches the list. */
  lemma NotesUnsetKeepsVault(m: DrainMode, c: Config, env: Env, text: string, vault: seq<string>)
    requires c.notesPath == ""
    ensures MakeHtmlSpec(m, c, env, Extensions(c, env), text, vault).vault == vault
  {
    var rules := Extensions(c, env);
    if text == "" {
      return;
    }
    StagesWithoutNotes(c, env);
    var lang, out := OfStage(rules, Lang), OfStage(rules, Output);
    ApplyRulesKeepsVault(m, lang, c, env, env.prepare(text), vault);
    var l := ApplyRules(m, lang, c, env, env.prepare(text), vault);
    if l.result.Ok? {
      ApplyRulesKeepsVault(m, out, c, env, env.convert(l.result.value), l.vault);
    }
  }

  /** Rules that reach and pass the restore rule, with no wikilink rule after it, end with an
      empty list. */
  lemma RestoreEmpties(m: DrainMode, before: seq<Rule>, after: seq<Rule>, c: Config, env: Env, t: string, vault: seq<string>)
    requires NoWikilinkRule(after)
    requires ApplyRules(m, before + ([WikilinkRestore] + after), c, env, t, vault).result.Ok?
    ensures ApplyRules(m, before + ([WikilinkRestore] + after), c, env, t, vault).vault == []
  {
    ApplyRulesConcat(m, before, [WikilinkRestore] + after, c, env, t, vault);
    var o := ApplyRules(m, before, c, env, t, vault);
    var restored := ApplyRule(m, WikilinkRestore, c, env, o.result.value, o.vault);
    assert ([WikilinkRestore] + after)[0] == WikilinkRestore;
    assert ([WikilinkRestore] + after)[1..] == after;
    ApplyRulesKeepsVault(m, after, c, env, restored.result.value, restored.vault);
  }

  /** The output-stage rules that run before the restore: the foreign output rules and the
      attachment rules. */
  function BeforeRestore(c: Config, env: Env): seq<Rule> {
    OfStage(ForeignRules(env, "highlight") + ForeignRules(env, "targetBlank"), Output) + AttachmentRules(c)
  }

  /** With a notes path, the output stage is the rules before the restore, the restore, and
      rules after it that are not wikilink rules. */
  lemma OutputAroundRestore(c: Config, env: Env) returns (before: seq<Rule>, after: seq<Rule>)
    requires c.notesPath != ""
    ensures before == BeforeRestore(c, env)
    ensures OfStage(Extensions(c, env), Output) == before + ([WikilinkRestore] + after)
    ensures NoWikilinkRule(before) && NoWikilinkRule(after)
  {
    OutputOrder(c, env);
    before := BeforeRestore(c, env);
    after := NoteRules(c) + TagRules(c) + OfStage(ForeignRules(env, "katex"), Output);
    ForeignNoWikilink(env, Output);
    FamiliesNoWikilink(c);
    NoWikilinkConcat(OfStage(ForeignRules(env, "highlight") + ForeignRules(env, "targetBlank"), Output), AttachmentRules(c));
    NoWikilinkConcat(NoteRules(c), TagRules(c));
    NoWikilinkConcat(NoteRules(c) + TagRules(c), OfStage(ForeignRules(env, "katex"), Output));
  }

  /** With a notes path, a render of a non-empty text that reaches the end leaves no captured
      content behind, so the next render numbers its placeholders from zero again. The empty text
      runs no rule and leaves the list as it was. */
  lemma SuccessEmptiesVault(m: DrainMode, c: Config, env: Env, text: string, vault: seq<string>)
    requires c.notesPath != ""
    requires MakeHtmlSpec(m, c, env, Extensions(c, env), text, vault).result.Ok?
    ensures MakeHtmlSpec(m, c, env, Extensions(c, env), text, vault).vault == (if text == "" then vault else [])
  {
    if text == "" {
      return;
    }
    var rules := Extensions(c, env);
    var before, after := OutputAroundRestore(c, env);
    var l := ApplyRules(m, OfStage(rules, Lang), c, env, env.prepare(text), vault);
    RestoreEmpties(m, before, after, c, env, env.convert(l.result.value), l.vault);
  }

  /** Rules without the restore rule only append to the list: what it held stays at its front. */
  lemma {:induction false} ApplyRulesExtendsVault(m: DrainMode, rs: seq<Rule>, c: Config, env: Env, t: string, vault: seq<string>)
    requires forall r :: r in rs ==> !r.WikilinkRestore?
    ensures vault <= ApplyRules(m, rs, c, env, t, vault).vault
    decreases |rs|
  {
    if rs != [] {
      var o := ApplyRule(m, rs[0], c, env, t, vault);
      if o.result.Ok? {
        assert forall r :: r in rs[1..] ==> r in rs;
        ApplyRulesExtendsVault(m, rs[1..], c, env, o.result.value, o.vault);
      }
    }
  }

  /** As the code is written, a captured content whose link throws poisons the renderer. With a
      notes path set and such a content at the front of the list, rendering any non-empty text
      throws, and the content is still at the front afterwards, so the render after that throws
      too. */
  lemma StaleContentThrows(c: Config, env: Env, text: string, vault: seq<string>)
    requires c.notesPath != "" && text != ""
    requires vault != [] && NoteLinker(c.notesPattern)(vault[0]).Err?
    ensures MakeHtmlSpec(AsWritten, c, env, Extensions(c, env), text, vault).result.Err?
    ensures MakeHtmlSpec(AsWritten, c, env, Extensions(c, env), text, vault).vault != []
    ensures MakeHtmlSpec(AsWritten, c, env, Extensions(c, env), text, vault).vault[0] == vault[0]
  {
    var m, rules, linker := AsWritten, Extensions(c, env), NoteLinker(c.notesPattern);
    var lang := OfStage(rules, Lang);
    OfStageMembers(rules, Lang);
    ApplyRulesExtendsVault(m, lang, c, env, env.prepare(text), vault);
    var l := ApplyRules(m, lang, c, env, env.prepare(text), vault);
    if l.result.Ok? {
      var t := env.convert(l.result.value);
      var before, after := OutputAroundRestore(c, env);
      ApplyRulesConcat(m, before, [WikilinkRestore] + after, c, env, t, l.vault);
      ApplyRulesKeepsVault(m, before, c, env, t, l.vault);
      var o := ApplyRules(m, before, c, env, t, l.vault);
      if o.result.Ok? {
        DrainFails(o.result.value, o.vault, 0, linker);
        assert ([WikilinkRestore] + after)[0] == WikilinkRestore;
      }
    }
  }

  /** A render reaches the restore rule: the text is not empty, and neither the source stage nor
      the output rules before the restore throw. */
  predicate ReachesRestore(m: DrainMode, c: Config, env: Env, text: string, vault: seq<string>) {
    && text != ""
    && var l := ApplyRules(m, OfStage(Extensions(c, env), Lang), c, env, env.prepare(text), vault);
    && l.result.Ok?
    && ApplyRules(m, BeforeRestore(c, env), c, env, env.convert(l.result.value), l.vault).result.Ok?
  }

  /** Corrected, a render that reaches the restore rule ends with an empty list whether or not a
      link throws, so a content that fails is not seen by the next render. */
  lemma CorrectedRestoreEmpties(c: Config, env: Env, text: string, vault: seq<string>)
    requires c.notesPath != "" && ReachesRestore(Corrected, c, env, text, vault)
    ensures MakeHtmlSpec(Corrected, c, env, Extensions(c, env), text, vault).vault == []
  {
    var m := Corrected;
    var l := ApplyRules(m, OfStage(Extensions(c, env), Lang), c, env, env.prepare(text), vault);
    var t := env.convert(l.result.value);
    var before, after := OutputAroundRestore(c, env);
    ApplyRulesConcat(m, before, [WikilinkRestore] + after, c, env, t, l.vault);
    var o := ApplyRules(m, before, c, env, t, l.vault);
    assert ([WikilinkRestore] + after)[0] == WikilinkRestore;
    assert ([WikilinkRestore] + after)[1..] == after;
    var restored := ApplyRule(m, WikilinkRestore, c, env, o.result.value, o.vault);
    if restored.result.Ok? {
      ApplyRulesKeepsVault(m, after, c, env, restored.result.value, restored.vault);
    }
  }

  // ---------------------------------------------------------------------------
  // The converter

  /** A converter with its registered rules and the list the wikilink rules share. */
  class Converter {
    const mode: DrainMode
    const config: Config
    const env: Env
    const rules: seq<Rule>
    const vault: Vault

    constructor (m: DrainMode, c: Config, env: Env)
      ensures mode == m && config == c && this.env == env && rules == Extensions(c, env)
      ensures fresh(vault) && vault.matches == []
    {
      mode := m;
      config := c;
      this.env := env;
      rules := Extensions(c, env);
      vault := new Vault();
    }

    /** One rule on a text. */
    method Apply(r: Rule, t: string) returns (res: Result<string>)
      modifies vault
      ensures Outcome(res, vault.matches) == ApplyRule(mode, r, config, env, t, old(vault.matches))
    {
      match r
      case Foreign(name, index, _) =>
        res := Ok(env.applyForeign(name, index, t));
      case WikilinkCapture =>
        var out := vault.Capture(t);
        res := Ok(out);
      case WikilinkRestore =>
        if mode == AsWritten {
          res := vault.DrainAsWritten(t, config.notesPattern);
        } else {
          res := vault.Drain(t, config.notesPattern);
        }
      case _ =>
        res := ReplaceAll(r, env, t);
    }

    /** Rules one after the other, stopping at the first that throws. */
    method Run(rs: seq<Rule>, t0: string) returns (res: Result<string>)
      modifies vault
      ensures Outcome(res, vault.matches) == ApplyRules(mode, rs, config, env, t0, old(vault.matches))
    {
      var t := t0;
      var i := 0;
      while i < |rs|
        invariant i <= |rs|
        invariant ApplyRules(mode, rs[i..], config, env, t, vault.matches) == ApplyRules(mode, rs, config, env, t0, old(vault.matches))
        decreases |rs| - i
      {
        assert rs[i..][1..] == rs[i + 1..];
        var step := Apply(rs[i], t);
        if step.Err? {
          return step;
        }
        t := step.value;
        i := i + 1;
      }
      return Ok(t);
    }

    /** makeHtml: an empty text comes back at once; any other goes through the source-stage
        rules, the conversion, then the output-stage rules. */
    method MakeHtml(text: string) returns (r: Result<string>)
      modifies vault
      ensures Outcome(r, vault.matches) == MakeHtmlSpec(mode, config, env, rules, text, old(vault.matches))
    {
      if text == "" {
        return Ok(text);
      }
      var l := Run(OfStage(rules, Lang), env.prepare(text));
      if l.Err? {
        return l;
      }
      r := Run(OfStage(rules, Output), env.convert(l.value));
    }
  }

  // ---------------------------------------------------------------------------
  // The renderer

  /** The renderer: the converter, built on first use and then reused, and the memo of the
      render function, which keeps every result that was returned and none that was thrown. */
  class Markdown {
    const mode: DrainMode
    const config: Config
    const env: Env
    var converter: Converter?
    var cache: map<string, string>

    /** Once built, the converter holds this object's settings and the registered extensions. */
    ghost predicate Valid()
      reads this
    {
      converter != null ==> converter.mode == mode && converter.config == config && converter.env == env && converter.rules == Extensions(config, env)
    }

    constructor (m: DrainMode, c: Config, env: Env)
      ensures Valid()
      ensures mode == m && config == c && this.env == env && converter == null && cache == map[]
    {
      mode := m;
      config := c;
      this.env := env;
      converter := null;
      cache := map[];
    }

    /** The converter, built with the registered extensions the first time and the same one
        every later time. */
    method GetConverter() returns (conv: Converter)
      requires Valid()
      modifies this
      ensures Valid()
      ensures old(converter) != null ==> conv == old(converter)
      ensures old(converter) == null ==> fresh(conv) && fresh(conv.vault) && conv.vault.matches == []
      ensures conv.mode == mode && conv.config == config && conv.env == env && conv.rules == Extensions(config, env)
      ensures converter == conv && cache == old(cache)
    {
      if converter != null {
        return converter;
      }
      conv := new Converter(mode, config, env);
      converter := conv;
    }

    /** render: a text seen before gets its remembered HTML and nothing runs; any other text
        goes through the converter, and its HTML is remembered unless the converter threw. */
    method Render(str: string) returns (r: Result<string>)
      requires Valid()
      modifies this, if converter == null then {} else {converter.vault}
      ensures Valid()
      ensures str in old(cache) ==> r == Ok(old(cache)[str]) && cache == old(cache) && converter == old(converter)
      ensures str in old(cache) && old(converter) != null ==> converter.vault.matches == old(converter.vault.matches)
      ensures str !in old(cache) ==>
        && converter != null
        && (old(converter) != null ==> converter == old(converter))
        && Outcome(r, converter.vault.matches)
             == MakeHtmlSpec(mode, config, env, Extensions(config, env), str,
                             if old(converter) == null then [] else old(converter.vault.matches))
        && cache == (if r.Ok? then old(cache)[str := r.value] else old(cache))
    {
      if str in cache {
        return Ok(cache[str]);
      }
      var conv := GetConverter();
      r := conv.MakeHtml(str);
      if r.Ok? {
        cache := cache[str := r.value];
      }
    }
  }
}
