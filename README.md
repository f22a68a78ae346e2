# Template selector: codec and autocomplete session

A Dafny model of the core of `react-template-selector-input`, an inline
editor in which free text is interleaved with variable chips written
`${name}` in the template string, and in which typing `@` followed by a word
opens a menu of matching variable names.

The model has three modules, one per concern of `src/TemplateSelector.tsx`:

- `Catalog` (`catalog.dfy`): `filterOp(options, size)(search)`, the
  case-insensitive prefix filter over the catalog, cut to `size` entries.
- `Codec` (`codec.dfy`): `getInitialValue`, which scans a template string
  left to right and builds the children of the one paragraph, and
  `getCompiledText`, which writes them back. The decoder is a method with the
  source's loop (including the inner loop that collects a placeholder name
  and the index that jumps two places after every `$`), proved equal to a
  right-recursive specification `ParseFrom`. Everything else about decoding
  is proved about `ParseFrom`: the shape of the result, which names become
  variables, and the round trip through the encoder.
- `Session` (`session.dfy`): a class holding the component state `index`,
  `search`, `target` and `value`, with `handleValueChange` (store the value,
  then re-derive the trigger from the text before and after the cursor) and
  `onKeyDown` (move the highlight round the candidates, commit, cancel), plus
  a click on a candidate. Ranges of the editing surface are an opaque type
  parameter `R`. The editing surface's measurements (the text and range
  from one character before the word before the cursor up to the cursor, and
  the text from the cursor to the next position) are parameters of
  `HandleValueChange`. A commit is returned as an outcome naming the range to
  select and the variable to insert; the document edit itself belongs to the
  editing surface.

Behaviour of the source worth knowing:

- An unresolved placeholder `${x}` is re-emitted as `$x`: the template literal
  `` `$${varName}` `` adds only a `$` in front of the name, so the braces are
  lost and the round trip does not reproduce the input
  (`Codec.UnresolvedDropsBraces`). The round trip is proved only for templates
  whose every `$` begins `${name}` with a resolving name.
- A `$` with no `}` at least two characters further on makes the scan loop for
  ever, because `charAt` past the end returns `''`. There is no fallback to
  literal text; the decoder requires `Codec.Decodable`, which rules this out.
  The `$` always skips the character after it, whether or not it is `{`.
- A name resolves when the FIRST entry the filter returns for it equals it,
  not when it is in the catalog (`Codec.FirstHitNotMembership`).

## Model

| member | source | states |
|---|---|---|
| `Catalog.LowerStr` | src/TemplateSelector.tsx:11 | lower-casing keeps the length and lower-cases each ASCII letter, leaving other characters alone |
| `Catalog.Matching` | src/TemplateSelector.tsx:10-11 | the filtered list holds only catalog options that match, and every matching option is in it |
| `Catalog.Filter` | src/TemplateSelector.tsx:9-13 | the result is exactly the first min(size, #matches) entries of the order-preserving list of matches; every entry matches and comes from the catalog |
| `Catalog.MatchingAppend` | src/TemplateSelector.tsx:10-11 | filtering a concatenated catalog is the concatenation of the filtered parts, so matches keep catalog order |
| `Catalog.FilterEmptySearch` | src/TemplateSelector.tsx:9-13 | an empty search returns the first `size` options unchanged |
| `Catalog.FilterComplete` | src/TemplateSelector.tsx:9-13 | when no match is cut off, an option is in the result iff it matches |
| `Catalog.FilterSizeZero` | src/TemplateSelector.tsx:12 | a limit of 0 gives the empty list |
| `Catalog.MatchesIgnoresCase` | src/TemplateSelector.tsx:11 | matching gives the same answer on lower-cased option and search |
| `Catalog.FilterExampleLimit` | src/TemplateSelector.tsx:9-13 | `var1..var3` filtered by `var` with limit 2 gives `var1, var2` |
| `Catalog.FilterExampleCase` | src/TemplateSelector.tsx:11 | `Alpha, beta` filtered by `al` gives `Alpha` |
| `Codec.CloseFrom` | src/TemplateSelector.tsx:24-25 | the index found is a `}` at or after the start, or the length when there is none |
| `Codec.CloseFromIsFirst` | src/TemplateSelector.tsx:24-25 | no `}` lies between the start and the index found, so it is the first one |
| `Codec.CloseAt` | src/TemplateSelector.tsx:24-25 | a `}` with none before it from the start is the index found |
| `Codec.ParseFrom` | src/TemplateSelector.tsx:19-33 | the decoded suffix always begins with a text node, so the next character or unresolved name can join it |
| `Codec.Decode` | src/TemplateSelector.tsx:15-36 | the left-to-right scan, which appends to the last text node and pushes variable nodes, returns exactly `ParseFrom(s, 0)`, an alternating list whose variables all resolve |
| `Codec.ScanName` | src/TemplateSelector.tsx:23-25 | the inner loop stops at the first `}` from its start and has collected exactly the characters before it |
| `Codec.ParseShape` | src/TemplateSelector.tsx:15-36 | the children start and end with a text node, strictly alternate text and variable, and every variable name resolves under the first-hit rule |
| `Codec.AlternatingCounts` | src/TemplateSelector.tsx:26-28 | an alternating list has one more text node than variable nodes |
| `Codec.ParseResolved` | src/TemplateSelector.tsx:22-28 | at a `$` at p, with the next `}` at q >= p+2 and the name `s[p+2..q)` resolving, the decoding is an empty text node and the variable, then the decoding from q+1 |
| `Codec.ParseUnresolved` | src/TemplateSelector.tsx:22-31 | at a `$` at p, with the next `}` at q and the name not resolving, `$` + name joins the leading text of the decoding from q+1 |
| `Codec.ParseChar` | src/TemplateSelector.tsx:20-21 | a character other than `$` joins the leading text node of the rest |
| `Codec.PlainRunDecodes` | src/TemplateSelector.tsx:20-21 | a run of characters without `$` is appended verbatim to the current text node |
| `Codec.PlainTextDecodes` | src/TemplateSelector.tsx:19-21 | a template without `$` decodes to one text node holding all of it |
| `Codec.EmptyDecodes` | src/TemplateSelector.tsx:16-17 | the empty template decodes to one empty text node |
| `Codec.UnresolvedDropsBraces` | src/TemplateSelector.tsx:30 | for any name without `}` that does not resolve, `${name}` decodes to the single text `$name` and encodes to `$name`, not to the template |
| `Codec.Resolves` | src/TemplateSelector.tsx:26 | a name resolves when the filter's first hit for it is the name itself, so a resolving name is among the filter's hits |
| `Codec.CatalogResolves` | src/TemplateSelector.tsx:26 | a name resolves iff the limit is positive and the first catalog entry matching it is the name itself; a resolving name is in the catalog |
| `Codec.SizeZeroNeverResolves` | src/TemplateSelector.tsx:26 | with limit 0 no name resolves |
| `Codec.FirstHitNotMembership` | src/TemplateSelector.tsx:26 | with catalog `var10, var1`, `var1` is a member yet does not resolve |
| `Codec.Encode` | src/TemplateSelector.tsx:76 | each child writes its text, or `${name}` for a variable (`SegmentSource`), in order, so the text holds at least three characters per variable; `EncodeAppend` and `RoundTrip` tie it to decoding |
| `Codec.CompiledText` | src/TemplateSelector.tsx:74-77 | the compiled text is the encoding of the first paragraph's children, or `""` for an empty value |
| `Codec.EncodeAppend` | src/TemplateSelector.tsx:76 | encoding maps concatenation of children to concatenation of strings, so the text is the in-order join of each child's text or `${name}` |
| `Codec.EncodePrependText` | src/TemplateSelector.tsx:76 | adding text to the leading text node adds it in front of the encoding |
| `Codec.RoundTrip` | src/TemplateSelector.tsx:19-33 | for a template whose every `$` begins `${name}` with a resolving name, it is decodable and encoding its decoding gives it back |
| `Codec.RoundTripFrom` | src/TemplateSelector.tsx:19-33 | the same round trip for every suffix the scan reaches |
| `Codec.SinglePlaceholderDecodes` | src/TemplateSelector.tsx:19-33 | `a${name}` with no `$` in `a`, no `}` in the name and a resolving name decodes to text `a`, variable `name`, empty text |
| `Codec.ExampleCatalogResolvesVar1` | src/main.tsx:6-10 | under the mounted catalog `var1, var2, var3` with limit 10, `var1` resolves |
| `Codec.MountedExample` | src/main.tsx:6-10 | under any filter resolving `var1`, `test-${var1}` decodes to text `test-`, variable `var1`, empty text, and encodes back unchanged |
| `Codec.EncodeTextVarText` | src/TemplateSelector.tsx:76 | text, variable, text encodes to the first text, `${name}`, the second text |
| `Session.TriggerWord` | src/TemplateSelector.tsx:93 | the look-back matches `^@(\w+)$` iff it is `@` followed by one or more word characters, and the capture is the text after the `@` |
| `Session.TriggerWordInverse` | src/TemplateSelector.tsx:93 | `@w` matches with capture `w` iff `w` is a non-empty run of word characters |
| `Session.NoTriggerAcrossSpace` | src/TemplateSelector.tsx:93 | a look-back with a non-word character after the `@` position never matches |
| `Session.AtBoundary` | src/TemplateSelector.tsx:97 | the look-ahead `/^(\s|$)/` holds at the end of the text and fails before a word character |
| `Session.NextIndex` | src/TemplateSelector.tsx:129 | ArrowDown moves an in-range index to (index + 1) mod the number of candidates |
| `Session.PrevIndex` | src/TemplateSelector.tsx:133 | ArrowUp moves an in-range index to (index - 1) mod the number of candidates |
| `Session.NavigationInverse` | src/TemplateSelector.tsx:127-134 | ArrowUp undoes ArrowDown and ArrowDown undoes ArrowUp |
| `Session.DownPressesWrap` | src/TemplateSelector.tsx:127-130 | k presses of ArrowDown from index land on (index + k) mod n, so n presses return to the start |
| `Session.Selector.Chars` | src/TemplateSelector.tsx:56 | the candidates are at most `size` catalog options that match the search |
| `Session.Selector.constructor` | src/TemplateSelector.tsx:46-54 | mounting decodes `defaultValue ?? ''` with `filterOp(options, size)` into one paragraph, with index 0, empty search and no target |
| `Session.Selector.HandleValueChange` | src/TemplateSelector.tsx:79-106 | the value is stored (an empty paragraph if absent); no or expanded selection clears the target and keeps search and index; a matching look-back and a boundary look-ahead set target, search and index 0; otherwise all three keep their values |
| `Session.Selector.OnKeyDown` | src/TemplateSelector.tsx:123-149 | without a target or candidates nothing changes; else arrows wrap the index, Tab and Enter commit the highlighted candidate over the target and clear it, Escape clears it, other keys change nothing; the index stays on a candidate |
| `Session.Selector.ClickCandidate` | src/TemplateSelector.tsx:191-195 | clicking a shown candidate commits it over the target and clears the target |

## Left out

- React rendering (`Element`, `VariableNode`, `renderLeaf`, the popup markup
  and its styles): user interface only.
- Popup positioning (the effect at src/TemplateSelector.tsx:151-159): DOM
  ranges and pixel arithmetic.
- The editing surface's primitives (`Editor.before`, `Editor.after`,
  `Editor.range`, `Editor.string`, `Transforms.select`, `insertNodes`, `move`):
  their results are parameters of `HandleValueChange`, and a commit is an
  outcome naming the range and the variable rather than a rewrite of the
  document.
- `withVariables` (variable elements are inline, void and markable-void,
  others defer to the base editor) and `withSingleLine` (merge a second
  top-level node into the first): their effect lives in the editor's
  normaliser and `mergeNodes`, which are not part of this model.
- Undo history, `console.log` of the compiled text, and the mounting glue in
  src/main.tsx beyond the example it mounts.
- `Catalog.Lower`: lower-cases ASCII only, because full Unicode case mapping
  of `toLowerCase` is not modelled.
- `Catalog.Filter`: takes a `nat` limit, because a negative `size` makes
  JavaScript's `slice(0, size)` drop entries from the end, which the
  component never asks for.
- `Codec.Decode`: requires `Decodable`, because on any other template the
  source never terminates.
- `Session.Selector.OnKeyDown`: requires the class invariant that the index is
  on a candidate (or 0 with none). With `options` and `size` fixed the source
  reaches no other state, since `search` changes only together with
  `index := 0`. A re-render with a shorter `options` or a smaller `size` can
  leave the index past the candidates, and then Tab or Enter commits
  JavaScript's `undefined` (`chars[index]`); that case is not modelled.
- `Session.IsSpace`: the whitespace set of JavaScript's `\s` is written out
  character by character.
- The word-boundary units the editing surface uses to find the look-back text
  (`Editor.before` with `unit: 'word'`) are not modelled: the look-back is an
  input of `HandleValueChange`.
- Strings are sequences of Unicode code points, not of UTF-16 code units as
  in JavaScript (`charAt`, `length`, `i += 2`). A `$` followed by a character
  outside the Basic Multilingual Plane therefore decodes differently: the
  source skips only the first half of the surrogate pair and keeps the second
  in the name, while the model skips the whole character.
- `options` and `size` are fixed for the component's lifetime (the `const`
  fields of `Session.Selector`); a re-render with new props is not modelled.
- A missing `size`, for which `slice(0, undefined)` keeps every match, is not
  modelled: the limit is always a number.
