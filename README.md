# Guidelines generator editor, modelled in Dafny

A model of the community-guidelines editor component `GuildelinesGenerator.tsx`. The user
selects tags or writes a description. The component asks a rule-generation backend for a draft
of community rules. It shows the draft for editing, and offers it for copying or as a Markdown
download.

- `wrappers.dfy` (`Wrappers`): `Option`. It stands for the backend's reply (`None` when the call
  threw) and for what an export produces.
- `tag_selection.dfy` (`TagSelection`): the tag toggle as pure functions.
  - `RemoveAll` is the `filter`; `Toggle` is the click.
  - Lemmas show that a click keeps the other tags in order and never duplicates a tag.
  - They also show what two clicks on the same tag give back.
- `markdown_export.dfy` (`MarkdownExport`): the downloaded document as pure functions.
  - `SplitLines` is JavaScript's `split('\n')`, kept exact. `JoinLines` is `join('\n')`.
  - `ToMarkdown` is the template. `ParseMarkdown` is its inverse, used to prove nothing is lost.
  - Lemmas give the document's exact lines and the round trip.
- `guidelines_editor.dfy` (`GuidelinesEditor`): the component state as a class.
  - Class `Editor` has fields `selected`, `draft` and `loading`.
  - It has one method per event handler. Each generation handler is split at its single `await`
    into `StartRequest` and `CompleteRequest`.
  - `Session` is a client that shows what callers can derive from the contracts.

## Model

| member | source | states |
|---|---|---|
| TagSelection.RemoveAll | src/components/GuildelinesGenerator.tsx:67 | the filtered selection holds no copy of the tag, keeps every other tag with its multiplicity and is shorter by the tag's count |
| TagSelection.Toggle | src/components/GuildelinesGenerator.tsx:64-70 | after a click the tag is selected iff it was not; other tags keep their membership; an absent tag is appended after the unchanged old entries; a present tag loses every copy |
| TagSelection.RemoveAllConcat | src/components/GuildelinesGenerator.tsx:67 | filtering distributes over concatenation, so the kept tags stay in their original relative order |
| TagSelection.RemoveAllSingleton | src/components/GuildelinesGenerator.tsx:67 | a single entry is kept iff it differs from the clicked tag |
| TagSelection.RemoveAllAbsent | src/components/GuildelinesGenerator.tsx:66-68 | filtering out a tag that is not selected leaves the selection identical |
| TagSelection.ToggleKeepsDistinct | src/components/GuildelinesGenerator.tsx:64-70 | a click on a duplicate-free selection leaves it duplicate-free |
| TagSelection.RemoveAllKeepsDistinct | src/components/GuildelinesGenerator.tsx:67 | filtering a duplicate-free selection leaves it duplicate-free |
| TagSelection.ToggleTwiceAbsent | src/components/GuildelinesGenerator.tsx:64-70 | two clicks on an unselected tag restore the selection exactly, as a sequence |
| TagSelection.ToggleTwicePresent | src/components/GuildelinesGenerator.tsx:64-70 | two clicks on a selected tag remove all its copies and re-append one at the end |
| TagSelection.ToggleTwiceSameSet | src/components/GuildelinesGenerator.tsx:64-70 | two clicks on the same tag restore the selection as a set |
| TagSelection.ToggleTwiceSameMultiset | src/components/GuildelinesGenerator.tsx:64-70 | on a duplicate-free selection two clicks restore it as a multiset |
| TagSelection.ToggleTwiceReorders | src/components/GuildelinesGenerator.tsx:64-70 | two clicks need not restore the sequence: "a" in ["a", "b"] ends up after "b" |
| MarkdownExport.SplitLines | src/components/GuildelinesGenerator.tsx:154 | `split('\n')` yields at least one segment, and no segment holds a '\n' |
| MarkdownExport.SplitCount | src/components/GuildelinesGenerator.tsx:154 | there is one more segment than there are '\n' characters in the draft |
| MarkdownExport.SplitSingleLine | src/components/GuildelinesGenerator.tsx:154 | a draft without '\n' is a single segment |
| MarkdownExport.SplitAtNewline | src/components/GuildelinesGenerator.tsx:154 | splitting a + '\n' + b gives the segments of a followed by those of b |
| MarkdownExport.JoinSplit | src/components/GuildelinesGenerator.tsx:154 | `join('\n')` after `split('\n')` gives back the draft |
| MarkdownExport.SplitJoin | src/components/GuildelinesGenerator.tsx:154 | `split('\n')` after `join('\n')` gives back a non-empty list of single lines |
| MarkdownExport.JoinAppend | src/components/GuildelinesGenerator.tsx:154 | joining two non-empty lists puts exactly one '\n' between their joins |
| MarkdownExport.BulletsAreLines | src/components/GuildelinesGenerator.tsx:154 | prefixing "- " to single lines keeps them single lines |
| MarkdownExport.TemplateLines | src/components/GuildelinesGenerator.tsx:151-158 | the fixed title, subtitle, rule and attribution lines hold no '\n' |
| MarkdownExport.HeaderLines | src/components/GuildelinesGenerator.tsx:151-153 | the header is the title, a blank line and "## Our Rules", each ended by '\n' |
| MarkdownExport.FooterLines | src/components/GuildelinesGenerator.tsx:154-158 | the footer is '\n', a blank line, "---", the attribution and a final '\n' |
| MarkdownExport.MarkdownIsJoin | src/components/GuildelinesGenerator.tsx:151-158 | the document is the '\n'-join of header lines, "- " items and footer lines |
| MarkdownExport.MarkdownLines | src/components/GuildelinesGenerator.tsx:151-158 | the document's lines are the headings, one "- "+segment item per segment (count = '\n' count + 1, empty segments kept), then the footer lines |
| MarkdownExport.MarkdownRoundTrip | src/components/GuildelinesGenerator.tsx:151-158 | the draft can be read back unchanged from the downloaded document |
| MarkdownExport.TwoRules | src/components/GuildelinesGenerator.tsx:151-158 | a two-rule draft a\nb yields exactly the items "- a" and "- b" between the headings and the footer |
| MarkdownExport.TrailingNewline | src/components/GuildelinesGenerator.tsx:154 | a trailing '\n' is not filtered: it becomes an empty "- " item |
| GuidelinesEditor.Editor.CurrentPhase | src/components/GuildelinesGenerator.tsx:266-289 | the area shows the spinner iff loading, the editor iff not loading with a non-empty draft, and the placeholder otherwise |
| GuidelinesEditor.Editor.constructor | src/components/GuildelinesGenerator.tsx:39-41 | the editor starts with no tags, an empty draft and loading off |
| GuidelinesEditor.Editor.ToggleTag | src/components/GuildelinesGenerator.tsx:64-70 | the selection becomes its toggle; draft and loading are untouched; no tag is ever selected twice |
| GuidelinesEditor.Editor.StartRequest | src/components/GuildelinesGenerator.tsx:81-82 | before the backend call loading is on and the draft is cleared |
| GuidelinesEditor.Editor.CompleteRequest | src/components/GuildelinesGenerator.tsx:83-98 | after the call the draft is the returned rules, or stays "" when the call threw, and loading is off |
| GuidelinesEditor.Editor.GenerateWithTags | src/components/GuildelinesGenerator.tsx:72-99 | an empty selection sends nothing and changes nothing; otherwise the selection is sent, loading ends off and the draft is the reply or "" |
| GuidelinesEditor.Editor.GenerateWithPrompt | src/components/GuildelinesGenerator.tsx:101-120 | a prompt under 10 characters (the resolver at lines 32 and 227) sends nothing and changes nothing; otherwise the prompt is sent, loading ends off and the draft is the reply or "" |
| GuidelinesEditor.Editor.Edit | src/components/GuildelinesGenerator.tsx:122-124 | an edit, possible only while the editor is shown (non-empty draft, not loading, lines 279-283), replaces the whole draft and nothing else; clearing the text brings back the placeholder |
| GuidelinesEditor.Editor.Copy | src/components/GuildelinesGenerator.tsx:126-140 | nothing is copied iff the draft is empty; otherwise exactly the draft is copied; the state is untouched |
| GuidelinesEditor.Editor.Download | src/components/GuildelinesGenerator.tsx:142-172 | nothing is downloaded iff the draft is empty; otherwise the document is the Markdown of the draft, from which the draft reads back; the state is untouched |

Three behaviours of the code are worth stating on their own:

- The export does not filter empty segments. A trailing '\n' gives a bare "- " item
  (`TrailingNewline`), because line 154 maps every segment of `split('\n')`.
- A reply whose rules are "" leaves the placeholder showing, because the editor is rendered only
  for a non-empty draft (lines 272-289; `GenerateWithTags`, `GenerateWithPrompt`).
- Clearing the text in the editor unmounts it (line 279), so the placeholder comes back and the
  draft cannot be edited again until the next generation (`Edit`).

## Left out

- src/ai/flows/generate-community-rules.ts and src/ai/flows/generate-community-rules-from-prompt.ts
  are not part of this model.
  - They wrap a templated call to a language model, and the rendering happens in a library.
  - Their output is not deterministic.
  - Their only observable effect here is the reply, which the model takes as an `Option<string>`
    parameter.
- src/app/page.tsx is static layout and is not part of this model.
- Toasts, `console.error`, `navigator.clipboard.writeText` and the `Blob` / object-URL / anchor
  download are browser I/O. `Copy` and `Download` return the text that would be written, or `None`.
- The file name `community-guidelines.md` and the MIME type `text/markdown` are not modelled. They
  belong to that browser I/O.
- Asynchronous suspension is not modelled. Each `await` is atomic. No second request can start while
  one is in flight, because the controls are disabled while loading (lines 218, 243, 251, 293, 296).
  The model states this as `!loading` preconditions.
- The rendering of the component is not modelled: React, JSX, the `useEffect` that mirrors the form
  value into `selectedTags`, react-hook-form and the zod resolver.
  - `selected` stands for both the form value and its mirror.
  - The resolver appears only as the prompt-length guard in `GenerateWithPrompt`.
- GuidelinesEditor.Editor.GenerateWithPrompt: the prompt length is a sequence length. JavaScript's
  `length` counts UTF-16 code units, so the two differ for characters outside the Basic
  Multilingual Plane.
- GuidelinesEditor.Editor.ToggleTag: any string is accepted as a tag. In the component, clicks come
  only from the twelve badges of `predefinedTagsList` (lines 21-25).
