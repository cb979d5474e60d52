# Notable's Markdown renderer, modelled in Dafny

Notable renders a note by passing its Markdown text through a showdown converter. The converter is
extended with a fixed, ordered list of rewrite rules (`src/renderer/utils/markdown.ts`). This
project models that file and proves properties of the model.

- **The special-link encoder.** It finds `[text](TOKEN/path)` for the attachments, notes and tags
  tokens and percent-encodes only the path with `encodeURI`. `encodeURI`/`decodeURI` follow
  section 19.2.6 of ECMA-262, with full UTF-8.
- **The output-stage rule families** for attachments (image, button, link), notes (button, link)
  and tags (button, link).
  - Each family is present only when its root path is set.
  - Each replacement body is a pure function of `$1`, `$2` and `$3`. The replacement fails with a
    URIError when `decodeURI` throws.
- **The wikilink placeholder protocol.** The capture rule sets aside each `[[...]]` that no
  backtick precedes, writes `%PLACEHOLDERn%` in its place and pushes its content onto the
  extension's list, the `Vault`. The output filter replaces each placeholder with a
  `<a href="@note/...">` link and then empties the list.
- **The pipeline.** The registered extension list (line 224) is split into source-stage (`lang`)
  and output-stage rules. `makeHtml` runs the source rules, the conversion and the output rules,
  in that order. The singleton converter and the memoised `render` cache are modelled too.

Each regular expression the core uses is a hand-written scanner (module `Patterns`). A declarative
predicate describes the text the expression accepts, and lemmas show that the scanner is sound and
complete for it. A JavaScript global `replace` is modelled as a left-to-right scan that takes the
leftmost match and continues after it (`Rules.Global`).

These are parameters of the model, not modelled code:

- the showdown engine, as `Env.prepare` (its normalisation before the source rules) and
  `Env.convert` (Markdown to HTML);
- the foreign extensions highlight, target-blank and KaTeX, as `Env.foreignStages` and
  `Env.applyForeign`;
- `path.join`, as `Env.join`;
- the CRC-32 checksum, as `Env.checksum`;
- the Mermaid renderer, as `Env.renderDiagram`;
- the configured paths, tokens and notes pattern `re`, as `Rules.Config`.

An empty path counts as unset, as JavaScript's falsiness makes it. For the same reason the converter's
`makeHtml` returns an empty text unchanged before any extension runs (an early return in showdown,
which is not part of this model beyond that step).

Three facts of the code that shape the model:

- The wikilink restore runs after the attachment rules and before the note and tag rules
  (line 224). See `Pipeline.OutputOrder`.
- In `[[a|b]]` the link text is `a` and the note is `b` (lines 164-165). See
  `Wikilink.LinkForAlias`.
- The encoder is not idempotent, because `encodeURI` turns `%` into `%25` (lines 31-34). See
  `Rules.EncoderNotIdempotent`.

What the restore rule leaves in the list is a parameter of the pipeline, `Pipeline.DrainMode`.
`AsWritten` is the code of lines 151-186: a drain that throws skips the reset at line 184, so the
list keeps every content. `Corrected` empties the list on every exit from the filter (see "## Findings"). A
converter and a renderer carry their mode; the source's renderer is `Pipeline.Markdown` built with
`AsWritten`.

## Model

| member | source | states |
|---|---|---|
| Text.Split | src/renderer/utils/markdown.ts:157 | `content.split("|")` yields at least one part, no part holds the separator, and joining the parts back with it gives the content |
| Text.SplitJoin | src/renderer/utils/markdown.ts:157 | splitting a join of separator-free parts gives back exactly those parts |
| Text.SplitSingle | src/renderer/utils/markdown.ts:159 | a split has exactly one part iff the content holds no `|`, and that part is the content |
| Text.SplitFirstTwo | src/renderer/utils/markdown.ts:163-165 | for `a|b...` the first part is `a` and the second is the first part of the rest; later segments play no role |
| Text.TrimIsSlice | src/renderer/utils/markdown.ts:160-165 | `trim()` returns a slice of its input and removes only whitespace and line terminators at both ends |
| Text.TrimEnds | src/renderer/utils/markdown.ts:160-165 | a trimmed string is empty or neither starts nor ends with whitespace |
| Text.TrimOfTrimmed | src/renderer/utils/markdown.ts:160-165 | trimming a string without surrounding whitespace leaves it unchanged |
| Text.Decimal | src/renderer/utils/markdown.ts:147-148 | the decimal text of the placeholder number is non-empty, all digits, and has no leading zero |
| Text.DecimalRoundTrip | src/renderer/utils/markdown.ts:148 | reading back the decimal text of `n` gives `n` |
| Text.DecimalInjective | src/renderer/utils/markdown.ts:148 | different numbers have different decimal texts, so placeholders are distinct |
| Text.FoldFacts | src/renderer/utils/markdown.ts:181 | case folding under the `i` flag keeps `%` and digits and identifies only `p` with `P` |
| Text.ReplaceSkipsPrefix | src/renderer/utils/markdown.ts:181 | a `gi` replace leaves unchanged a prefix where no occurrence starts |
| Text.ReplaceAtStart | src/renderer/utils/markdown.ts:181 | unfolding step used by the proofs: a `gi` replace substitutes an occurrence at the start, whatever its letter case, and continues after it |
| Text.ReplaceWithoutOccurrence | src/renderer/utils/markdown.ts:181 | a `gi` replace of a pattern that does not occur returns the text unchanged |
| Uri.EncodeURI | src/renderer/utils/markdown.ts:33 | every character `encodeURI` writes is a URI character (unreserved, reserved, `#` or part of a `%XX` escape) |
| Uri.EncodeConcat | src/renderer/utils/markdown.ts:33 | encoding distributes over concatenation |
| Uri.EncodeUnescaped | src/renderer/utils/markdown.ts:33 | a path made only of characters `encodeURI` leaves alone is unchanged |
| Uri.DecodeEncode | src/renderer/utils/markdown.ts:33 | `decodeURI(encodeURI(s)) == s` for every string, so the output rules read back what the encoder wrote |
| Uri.DecodeWithoutPercent | src/renderer/utils/markdown.ts:168 | `decodeURI` succeeds and changes nothing on a string without `%` |
| Uri.EncodeNotIdempotent | src/renderer/utils/markdown.ts:33 | encoding `%` gives `%25`, and encoding that again gives `%2525` |
| Patterns.FindFrom | src/renderer/utils/markdown.ts:31 | `[^\]]*` stops at the first `]` after the start, or finds none |
| Patterns.TokenPath | src/renderer/utils/markdown.ts:31 | a match is one of the tokens followed by `/`, then a path without `)`, then `)` |
| Patterns.TokenPathFinds | src/renderer/utils/markdown.ts:31 | whenever a token, `/`, a `)`-free path and `)` follow, the scanner finds that `)` |
| Patterns.SpecialLinkSound | src/renderer/utils/markdown.ts:31 | every encoder match is `[`, text without `]`, `](`, a token path without `)`, `)` |
| Patterns.SpecialLinkComplete | src/renderer/utils/markdown.ts:31 | every such link is matched at its `[`, with exactly its text and path as groups |
| Patterns.LazyUntil | src/renderer/utils/markdown.ts:48 | a lazy `(.*?)` ends at the first occurrence of what follows it, on one line |
| Patterns.LazyUntilFinds | src/renderer/utils/markdown.ts:48 | when an occurrence on the same line exists, the lazy group stops there or earlier |
| Patterns.TagAt | src/renderer/utils/markdown.ts:48-123 | a match of `<img(.*?)src="T/([^"]+)"(.*?)>` (and its `<a ... href` forms) has the open text, a one-line `$1`, the token, a `"`-free `$2`, a one-line `$3` and the close text, in that order |
| Patterns.TagComplete | src/renderer/utils/markdown.ts:48-123 | every text of that shape is matched at its start, with a `$1` no longer than the one given |
| Patterns.WikilinkAt | src/renderer/utils/markdown.ts:144 | a wikilink match is not preceded by a backtick and is `[[`, a one-line content, `]]` |
| Patterns.WikilinkComplete | src/renderer/utils/markdown.ts:144 | every such `[[c]]` is matched, with the shortest content (at most `c`) |
| Patterns.DiagramAt | src/renderer/utils/markdown.ts:205 | a diagram match is the mermaid fence, a backtick-free body and a closing fence |
| Patterns.DiagramComplete | src/renderer/utils/markdown.ts:205 | every such block is matched whole, with its body as `$1` |
| Rules.ForeignRules | src/renderer/utils/markdown.ts:224 | each foreign extension contributes one rule per stage it registers, in its own order |
| Rules.FamiliesByConfig | src/renderer/utils/markdown.ts:39-138 | attachments give no rules without a path and otherwise image, button, link; notes and wikilinks give none without a notes path; tags always give button then link; the stage of each rule |
| Rules.StripTrailingSlashes | src/renderer/utils/markdown.ts:60 | `basename` first drops trailing slashes: the result is a prefix that does not end in `/` |
| Rules.LastSegment | src/renderer/utils/markdown.ts:60 | the last segment is a `/`-free suffix |
| Rules.Basename | src/renderer/utils/markdown.ts:60 | a basename never holds `/` |
| Rules.LastSegmentOfPlain | src/renderer/utils/markdown.ts:60 | the last segment of a `/`-free path is the path |
| Rules.LastSegmentAfterSlash | src/renderer/utils/markdown.ts:60 | the last segment of `a/b` is `b` |
| Rules.BasenameOfName | src/renderer/utils/markdown.ts:90 | the basename of `name` and of `dir/name` is `name` |
| Rules.GlobalCopiesUnmatched | src/renderer/utils/markdown.ts:32-34 | a global replace copies text where no match starts |
| Rules.GlobalTakes | src/renderer/utils/markdown.ts:32-34 | unfolding step used by the proofs: a match is replaced by its replacement and scanning resumes after its end |
| Rules.GlobalOneMatch | src/renderer/utils/markdown.ts:32-34 | with a single match, the result is the text before it, the replacement, and the text after it |
| Rules.ReplaceWithoutMatch | src/renderer/utils/markdown.ts:32-34 | a rule that matches nowhere leaves the text unchanged |
| Rules.EncodeOneLink | src/renderer/utils/markdown.ts:31-34 | the encoder keeps the link text and the surrounding text verbatim and replaces the path by `encodeURI(path)` |
| Rules.EncodeSingleLink | src/renderer/utils/markdown.ts:31-34 | on a text that is one special link, the output is `[text](encodeURI(path))` |
| Rules.EncoderNotIdempotent | src/renderer/utils/markdown.ts:31-34 | running the encoder on its own output changes a path with `%` again (`%` to `%25` to `%2525`) |
| Rules.ImageKeepsName | src/renderer/utils/markdown.ts:49-52 | on an encoded name, the image rule writes `src="file://"` and the joined path, `class="attachment"`, the original name as `data-filename`, and `$1`/`$3` verbatim |
| Rules.AnchorRewrite | src/renderer/utils/markdown.ts:58-127 | unfolding step used by the proofs: a successful anchor rewrite decodes `$2`, keeps `$1`, writes `file://` and the joined path (or `#` for tags) as href, and then the family's attributes and `$3` |
| Rules.ButtonEndsWithLabel | src/renderer/utils/markdown.ts:58-119 | every button rewrite ends in `<span>` + basename (the tag for tags) + `</span></a>` |
| Rules.ButtonTailSplit | src/renderer/utils/markdown.ts:62-118 | unfolding step used by the proofs: a button's tail is its attributes and icon followed by the labelled span |
| Rules.AnchorKeepsName | src/renderer/utils/markdown.ts:58-127 | on an encoded name, an anchor rewrite succeeds and writes the original name's href (`file://` and the joined path, or `#`) and attributes, whatever the name holds |
| Rules.NoLeadNoMatch | src/renderer/utils/markdown.ts:58-127 | a button or link rule matches nowhere in a text where its `href="token/` does not occur |
| Rules.AnchorJoin | src/renderer/utils/markdown.ts:58-127 | a rewritten anchor is its fixed pieces, href, data value, `$1` and `$3` joined by `"` |
| Rules.AnchorNotMatchedAgain | src/renderer/utils/markdown.ts:58-127 | after a button or link rewrite, neither the button nor the link rule of that token matches anywhere in the output, so the link rule that follows cannot rewrite a button again |
| Wikilink.Placeholder | src/renderer/utils/markdown.ts:148 | the placeholder is 13 characters longer than the decimal digits of its number (its shape is `Wikilink.PlaceholderShape`) |
| Wikilink.PlaceholderShape | src/renderer/utils/markdown.ts:148 | a placeholder starts with `%P`, ends with `%`, holds no other `%`, and carries the digits of its number |
| Wikilink.PlaceholderAtStart | src/renderer/utils/markdown.ts:180-181 | the placeholder of `k` does not occur (in any letter case) where the placeholder of `n != k` starts |
| Wikilink.PlaceholderInside | src/renderer/utils/markdown.ts:180-181 | thanks to the closing `%`, the placeholder of `k` occurs nowhere inside the placeholder of `n != k` |
| Wikilink.NoPlaceholderIn | src/renderer/utils/markdown.ts:181 | no placeholder starts inside text without `%` |
| Wikilink.NoteFile | src/renderer/utils/markdown.ts:170-174 | the file is the target when it matches `re`, and otherwise the target followed by `.md` |
| Wikilink.NoteLink | src/renderer/utils/markdown.ts:177 | the link is not empty and starts with `<`, and holds no `%` when neither the file nor the text does |
| Wikilink.LinkForAlias | src/renderer/utils/markdown.ts:157-177 | for `a|b` the link is `<a href="@note/` + file of `b` + `">` + `a` + `</a>` |
| Wikilink.LinkForPlain | src/renderer/utils/markdown.ts:157-177 | without `|`, the trimmed content is both the target and the text |
| Wikilink.WikiPartsWithBar | src/renderer/utils/markdown.ts:157-165 | for any content `a|rest` with no `|` in `a`, the link text is `a` trimmed and the target is the part of `rest` before its first `|`, trimmed |
| Wikilink.WikiPartsWithoutBar | src/renderer/utils/markdown.ts:157-161 | for any content without `|`, the link text and the target are the trimmed content |
| Wikilink.LinkForBadEscape | src/renderer/utils/markdown.ts:168 | for any content, a target that `decodeURI` rejects makes the link fail with that URIError |
| Wikilink.LinkForClean | src/renderer/utils/markdown.ts:157-177 | a content without `%` always yields a link, and that link holds no `%` |
| Wikilink.Wikis | src/renderer/utils/markdown.ts:144 | the capture scanner's answer at every index is the wikilink match there |
| Wikilink.WikiGroup | src/renderer/utils/markdown.ts:144-146 | the pushed content is exactly the text between `[[` and `]]` |
| Wikilink.ProtectSlot | src/renderer/utils/markdown.ts:145-148 | unfolding step used by the proofs: at a wikilink, the capture writes the next placeholder, pushes the content and continues after `]]` |
| Wikilink.ProtectChar | src/renderer/utils/markdown.ts:144 | unfolding step used by the proofs: text where no wikilink starts is copied, and nothing is pushed |
| Wikilink.ProtectIsWeave | src/renderer/utils/markdown.ts:144-148 | the captured text is the source with every wikilink replaced by its numbered placeholder |
| Wikilink.DrainStep | src/renderer/utils/markdown.ts:180-181 | replacing placeholder `k` in the partly restored text puts link `k` exactly in slot `k` and changes nothing else |
| Wikilink.DrainGoesOn | src/renderer/utils/markdown.ts:154-181 | unfolding step used by the proofs: the filter replaces placeholder `i` by the `i`-th link and goes on with `i + 1` |
| Wikilink.DrainFails | src/renderer/utils/markdown.ts:168 | unfolding step used by the proofs: a content that cannot be decoded stops the filter with its URIError |
| Wikilink.DrainWeave | src/renderer/utils/markdown.ts:154-182 | when every content yields a link, the filter fills every slot with its own link |
| Wikilink.WeaveResolved | src/renderer/utils/markdown.ts:144-177 | resolving each wikilink in place gives the same text as filling the slots |
| Wikilink.CapturedClean | src/renderer/utils/markdown.ts:146 | a source without `%` pushes only contents without `%` |
| Wikilink.RoundTripWith | src/renderer/utils/markdown.ts:142-185 | on a source without placeholder clashes (`Wikilink.ClashFree`: no `%`, no wikilink directly followed by `p`/`P`), capture then filter equals replacing each wikilink in place by its link, for any link builder whose links start with `<` and hold no `%` |
| Wikilink.RoundTrip | src/renderer/utils/markdown.ts:142-185 | for a source without placeholder clashes, capture followed by the filter resolves every wikilink to its note link and succeeds |
| Wikilink.StaleContentPoisons | src/renderer/utils/markdown.ts:168-184 | a stale content that fails to decode makes every later filter fail |
| Wikilink.PercentWikilink | src/renderer/utils/markdown.ts:168 | `[[%]]` pushes `%`, whose link fails with URIError |
| Wikilink.PercentPoisonsLaterRenders | src/renderer/utils/markdown.ts:184 | after `[[%]]` fails, the filter as written keeps `%` in the list, so the next text fails too, whatever it is |
| Wikilink.Vault.constructor | src/renderer/utils/markdown.ts:140 | the list of captured contents starts empty |
| Wikilink.Vault.Capture | src/renderer/utils/markdown.ts:142-149 | the capture returns the source with placeholders numbered from the old list length, and appends the captured contents to the list in order |
| Wikilink.Vault.Drain | src/renderer/utils/markdown.ts:151-186 | the filter's loop gives the drain of the old list, and the list is empty afterwards on every exit from the filter |
| Wikilink.Vault.DrainAsWritten | src/renderer/utils/markdown.ts:151-186 | the same loop as written: the list is emptied only when every link succeeds |
| Pipeline.OfStageMembers | src/renderer/utils/markdown.ts:224 | a stage's rules are exactly the registered rules of that stage |
| Pipeline.OfStageConcat | src/renderer/utils/markdown.ts:224 | splitting by stage keeps registration order across extensions |
| Pipeline.OfStageAll | src/renderer/utils/markdown.ts:224 | a list whose rules all have one stage is kept whole for that stage |
| Pipeline.OfStageNone | src/renderer/utils/markdown.ts:224 | a list with no rule of a stage contributes nothing to it |
| Pipeline.SourceFamilies | src/renderer/utils/markdown.ts:30 | the encoder and diagram rules are source-stage rules |
| Pipeline.OutputFamilies | src/renderer/utils/markdown.ts:47-123 | the attachment, note and tag rules are output-stage rules |
| Pipeline.WikilinkFamily | src/renderer/utils/markdown.ts:138-152 | the wikilink capture is a source rule and its restore an output rule, both present only with a notes path |
| Pipeline.LangOrder | src/renderer/utils/markdown.ts:224 | the source stage runs highlight and target-blank rules, the encoder, the wikilink capture, KaTeX and then the diagram rule |
| Pipeline.OutputOrder | src/renderer/utils/markdown.ts:224 | the output stage runs the foreign rules, attachment image, button, link, then the wikilink restore, then note button, link, tag button, link, then KaTeX |
| Pipeline.ApplyRulesConcat | src/renderer/utils/markdown.ts:237 | running two lists of rules is running the first, then the second on its result, stopping at an error |
| Pipeline.ApplyRulesKeepsVault | src/renderer/utils/markdown.ts:237 | rules other than the wikilink pair leave the captured list alone |
| Pipeline.NotesUnsetKeepsVault | src/renderer/utils/markdown.ts:138 | without a notes path, rendering never touches the captured list |
| Pipeline.RestoreEmpties | src/renderer/utils/markdown.ts:184 | a successful run through the restore leaves the list empty |
| Pipeline.SuccessEmptiesVault | src/renderer/utils/markdown.ts:184 | every successful `makeHtml` of a non-empty text with a notes path ends with an empty captured list, in either mode; the empty text leaves the list as it was |
| Pipeline.ApplyRulesExtendsVault | src/renderer/utils/markdown.ts:142-149 | rules without the restore only append to the captured list |
| Pipeline.CorrectedRestoreEmpties | src/renderer/utils/markdown.ts:151-186 | corrected, a render of a non-empty text that reaches the restore rule ends with an empty list, whether or not a link throws |
| Pipeline.StaleContentThrows | src/renderer/utils/markdown.ts:142-186 | as written, with a notes path and a content at the front of the list whose link throws, `makeHtml` of any non-empty text throws and leaves that content at the front, so the next one throws too |
| Pipeline.Converter.constructor | src/renderer/utils/markdown.ts:222-225 | a new converter holds its drain mode, the registered extensions in the order of line 224 and a fresh, empty list |
| Pipeline.Converter.Apply | src/renderer/utils/markdown.ts:142-186 | one rule, applied in place, gives that rule's text and list; the restore drains as the converter's mode says (`AsWritten` keeps the list when a link throws) |
| Pipeline.Converter.Run | src/renderer/utils/markdown.ts:237 | the rule loop gives the result of running the rules in order, stopping at the first error |
| Pipeline.Converter.MakeHtml | src/renderer/utils/markdown.ts:237 | `makeHtml` returns an empty text as it is; any other text goes prepared through the source rules, conversion and the output rules, with the list updated accordingly in the converter's mode |
| Pipeline.Markdown.constructor | src/renderer/utils/markdown.ts:21-23 | there is no converter yet and the cache is empty; the renderer keeps its drain mode |
| Pipeline.Markdown.GetConverter | src/renderer/utils/markdown.ts:216-233 | the converter is built only when none is stored; after that the stored one is returned, with the settings and extension order of line 224 |
| Pipeline.Markdown.Render | src/renderer/utils/markdown.ts:235-239 | a text seen before returns its cached HTML and changes nothing; a new text is rendered by the singleton converter and cached, with no other entry changed, unless rendering throws; the empty text is returned and cached without running a rule; with `AsWritten`, after a throw that leaves a failing content in the list, every new non-empty text throws (`Pipeline.StaleContentThrows`) |

## Left out

- The showdown engine (`makeHtml`'s inner conversion, the GitHub flavour, `metadata`, `setFlavor`) is not opened up. It is the parameters `Env.prepare` and `Env.convert`.
- highlight, target-blank and KaTeX (lines 4-5, 14-16, 195) are foreign extensions. Their rules are opaque (`Env.foreignStages`, `Env.applyForeign`) and assumed not to fail.
- Mermaid (lines 199-212) is modelled only as far as the rule: the regex, the `mermaid-` + checksum id and the `<div class="mermaid">` wrapper. `mermaid.initialize` and the renderer are left out. The renderer is the total function `Env.renderDiagram`, so its exceptions are not modelled. The CRC-32 checksum is an arbitrary `Env.checksum`.
- `strip` (lines 241-245) is asynchronous and delegates to remark and strip-markdown, so it is left out.
- The CSS imports and the `Config` loading (lines 4-5, 17) are left out; the configuration is the `Rules.Config` value.
- `path.join` is the opaque `Env.join`. `path.basename` is modelled as POSIX: drop trailing slashes, then take the last segment. Windows separators are left out.
- The unused `filePath` of the wikilink filter (line 176) computes nothing the output depends on, so it is left out.
- JavaScript `$` patterns in a replacement string (line 181) are not expanded. The link is inserted literally, which differs only when a link holds `$`.
- Tokens are matched literally. A token holding regular-expression metacharacters would behave differently in the source.
- Characters are Unicode scalar values, so lone surrogates, on which `encodeURI` throws, are not modelled.
- Concurrent renders sharing the closure-held list are not modelled. Every operation is sequential.
- Wikilink.RoundTrip: proved only for sources without placeholder clashes (`Wikilink.ClashFree`), meaning no `%` and no wikilink directly followed by `p`/`P`. Otherwise user text can itself contain `%PLACEHOLDERn%` and is replaced too, as in the source.
- Rules.AnchorNotMatchedAgain: proved when `$1`, `$3`, the decoded name and the joined path hold no `"`, `$3` does not start with `token/`, and the token holds neither `"` nor `>` and starts with none of `f`, `#` and a space. A `$3` that itself holds `href="token/` is rewritten again, as in the source.
- Pipeline.CorrectedRestoreEmpties: the corrected reset covers only renders that reach the restore rule. When an attachment rule of the same render throws first (line 224 runs them before the restore), the filter never runs and the list keeps that render's captures in the corrected mode too.
- Rules.EncodeOneLink: stated for a text holding one special link and no other `[`; texts with several links follow from `Rules.GlobalTakes` and `Rules.GlobalCopiesUnmatched` but are not stated as one lemma.
- Patterns.TagAt: the lazy groups are described as the shortest match of the expression at a position, not through a general backtracking regular-expression engine.

## Findings

| source | as written | input that shows it | evidently intended | confidence | as-written member | corrected member |
|---|---|---|---|---|---|---|
| src/renderer/utils/markdown.ts:184 | the list of captured wikilink contents is reset only after the loop; when `decodeURI` throws at line 168 the reset is skipped, and the memoised `render` caches nothing for a throw | the filter on `[[%]]` throws URIError and leaves `%` in the list (`Wikilink.PercentPoisonsLaterRenders`); from then on, with the notes path set, every non-empty text not yet rendered throws the same error and `%` stays at the front of the list (`Pipeline.StaleContentThrows`, for `makeHtml`); texts rendered before still return their cached HTML | reset the list on every exit from the filter, so a bad wikilink no longer fails the later renders that reach the filter | medium, not executed | Pipeline.StaleContentThrows | Pipeline.CorrectedRestoreEmpties |
