# MarkPlot parser core, modelled in Dafny

MarkPlot is a plain-text writing format. Characters, places and dates are
marked inline with `@@` annotations:

- `@@Name` and `@@(Hidden name)` declare an entity at a hierarchy level of one to three.
  Two, three or four `@` give the levels.
- A chain of modifiers can follow: `.PROFESSION(doctor)`, `.mood[smiling]`, `.Place`.
- `@@.(# Title)` is a heading that does not show in the text.

The editor (`assets/app.js`) turns the raw text into four things:

1. A **clean text** for the preview. Hidden parts are removed; visible names and their `[…]` contents are kept.
2. A **document outline** of hidden and visible headings, sorted by position.
3. A map of **entities**: their type, hierarchy level, cumulative global information, and occurrences. Occurrences are explicit (the annotations) or implicit (bare whole-word mentions of the name outside every annotation).
4. A small **view state**:
   - the `manuallyExpanded` flag, carried over from one parse to the next;
   - the `contextuallyExpanded` flag, which follows the paragraphs around the cursor;
   - the display form of modifier names.

Every regular expression of that code is a hand-written matcher over `seq<char>`. Each one's greedy and backtracking behaviour is worked out in a comment beside it.

A global `replace` is one scanner, `Passes.Rewrite`, which dispatches on the pass. A global `exec` loop is a recursive function. Each loop of the source is a `method` with a `while` loop, proved equal to that function:

- `Cleanup.ReplaceVisibleAnnotations`, `Passes.CollectVisibleParams`
- `Outline.ScanHeadings`
- `Annotating.ReadAnnotations`, `Annotating.ReadModifiers`
- `NameOccurrences.MarkAnnotations`, `NameOccurrences.ScanNames`, `NameOccurrences.AddImplicitOccurrences`
- `Parser.SortOccurrences`
- `ViewState.MergeExpanded`, `ViewState.CollectContextNames`, `ViewState.ApplyContext`

`Parser.ParseMarkPlot` runs the whole parse and is proved equal to `Parser.Parse`. The lemmas of `Parser` state what a parse yields, name by name.

Modules, in dependency order:

- `Text`: character classes, case mapping, runs, trimming.
- `Syntax`: the annotation grammar and its round trip.
- `Passes`, `Cleanup`: `getCleanText`.
- `Sorting`: the stable sort.
- `Outline`: the headings.
- `Paragraphs`: `getParagraphAt` and `getAdjacentParagraphs`.
- `Entities`, `Annotating`: Phase 1, the explicit annotations.
- `NameOccurrences`: Phase 2, the implicit occurrences.
- `Parser`: `parseMarkPlot`.
- `ViewState`: the view-state flags and `formatModifierName`.

Where the code and the format's description disagree, the model follows the code:

- The fourth clean-up pass only matches exactly `@@`. So `@@@Jim` cleans to `@Jim`, and `@@@@couch` to `@@couch`.
- The `[…]` scan of that pass runs over the whole modifier text. So a `[` inside a `(…)` value can open a bracket match.
- In `@@(Jim).Description[tall and thin]`, the lookahead of the third pass sees `.`, not `[`, so that pass deletes `@@(Jim)` (`Cleanup.HiddenBeforeChainDeleted`). The fifth pass then deletes `.Description` (`Cleanup.LeftoverModifierBare`). The clean text keeps `[tall and thin]` with its brackets, where the format means to show only `tall and thin`.
- The fifth pass deletes any `.word`, also in ordinary prose. `end.Next` cleans to `end` (`Cleanup.LeftoverWordExample`).
- `handleEditorSelectionChange` says it "exits early" after a re-render. Its `return` only leaves the `forEach` callback for that one entity, so every other entity is still updated. The second pill branch (`assets/app.js:510-515`) is never taken: once the flag rule has run, a card that should be closed already has its `contextuallyExpanded` flag cleared (`ViewState.ExpandedByFlags`).

## Model

| member | source | states |
|---|---|---|
| Text.Run | assets/app.js:40 | a greedy character-class run never exceeds the text |
| Text.RunSpec | assets/app.js:40 | the run is made of class characters and stops at the first other one |
| Text.FindSpec | assets/app.js:35 | the search for a closing character stops at the first one and fails only when there is none |
| Text.TrimStart | assets/app.js:102 | `trim` drops exactly the leading whitespace: what it drops is all space and what it keeps starts with none |
| Text.TrimEnd | assets/app.js:102 | `trim` drops exactly the trailing whitespace: what it drops is all space and what it keeps ends with none |
| Text.ReplaceFirst | assets/app.js:165 | `replace(" ", "T")` turns the first space into `T` and keeps every other character, so a text without a space is unchanged |
| Text.Range | assets/app.js:266-268 | the marked positions are exactly `start` to `end - 1` |
| Syntax.MatchModifier | assets/app.js:205 | a modifier match consumes its dot, at least one name character and stays inside the text |
| Syntax.MatchAnnotation | assets/app.js:149-150 | a match of the annotation regex has two to four markers, a non-empty visible or hidden name and stays inside the text |
| Syntax.AnnotationAt | assets/app.js:149-150 | an annotation found at a position starts there, is well formed and ends inside the text |
| Syntax.NextAnnotation | assets/app.js:153 | one `exec` call from `lastIndex` returns the match at the first position at or after it where the regex matches, ending inside the text, and none exactly when the regex matches nowhere from there |
| Syntax.AnnotationsStep | assets/app.js:153 | one iteration of the annotation loop skips only positions where the regex does not match, takes the match found, and resumes at its end |
| Syntax.AnnotationsInside | assets/app.js:153 | every annotation of the loop lies inside the text and is well formed |
| Syntax.AnnotationsOrdered | assets/app.js:153 | the annotations come in order and none overlaps the next |
| Syntax.AnnotationsComplete | assets/app.js:153 | the loop misses no annotation: every position where the regex matches starts a match found or lies inside one |
| Syntax.ScanRenderedChain | assets/app.js:205-208 | the modifier regex reads a written modifier chain back as those very modifiers |
| Syntax.MatchRenderedAnnotation | assets/app.js:149-160 | round trip: a written annotation is matched with its marker count, its name and its modifier text |
| Syntax.ScanRenderedModifiers | assets/app.js:205-208 | the modifier scanner reads a chain on its own back as its modifiers |
| Passes.CollectVisibleParams | assets/app.js:60-65 | the visible-parameter loop yields the `[…]` contents, concatenated left to right |
| Passes.VisibleParamsOfChain | assets/app.js:60-65 | over a written modifier chain the loop yields exactly the chain's `[…]` values in order |
| Passes.StripBrackets | assets/app.js:133 | the heading cleaner's bracket removal leaves no `[` or `]` and never lengthens the text |
| Passes.StripBracketsKeeps | assets/app.js:133 | every other character stays as often as it occurs, and a single character goes exactly when it is a bracket |
| Passes.StripBracketsAppend | assets/app.js:133 | the removal works piece by piece: a concatenation is stripped as its parts, so the kept characters stay in order |
| Passes.HeadingParamsStrip | assets/app.js:128-134 | the heading cleaner keeps the same bracket contents as the clean-text pass, minus any bracket inside them |
| Passes.MatchHiddenHeading | assets/app.js:35 | a pass-1 match is at least as long as `@@.()` and is replaced by nothing |
| Passes.NullTail | assets/app.js:40 | the backtracking of pass 2 ends only where no `[` follows |
| Passes.MatchNullAnnotation | assets/app.js:40 | pass 2 deletes a null annotation of at least `@@.` |
| Passes.MatchLeftoverModifier | assets/app.js:85 | a pass-5 match spans a dot and at least one name character and is replaced by nothing |
| Passes.MatchHiddenAnnotation | assets/app.js:44-45 | pass 3 deletes a hidden name with a non-empty content |
| Passes.ComputeVisibleReplacement | assets/app.js:58-80 | the pass-4 callback computes the replacement of the model's callback function |
| Passes.MatchAt | assets/app.js:34-85 | every pass consumes at least one character when it matches |
| Passes.MatchNeedsMarker | assets/app.js:34-85 | every pass but the last needs `@@` where it matches; the last needs `.` |
| Passes.RewriteShorter | assets/app.js:34-85 | no replacement pass lengthens the text |
| Passes.AtPassIdentity | assets/app.js:34-81 | without `@@` in the text each `@@`-anchored pass leaves it unchanged |
| Passes.DotPassIdentity | assets/app.js:85 | without `.` in the text the leftover-modifier pass leaves it unchanged |
| Cleanup.ReplaceVisibleAnnotations | assets/app.js:56-81 | pass 4 run as `replace` with a callback equals the model's pass |
| Cleanup.GetCleanText | assets/app.js:29-88 | `getCleanText` computes the clean text; an empty input gives the empty text |
| Cleanup.CleanTextShorter | assets/app.js:29-88 | the clean text is never longer than the raw text |
| Cleanup.CleanTextWithoutMarkers | assets/app.js:34-85 | without `@@` only the leftover-modifier pass can change the text |
| Cleanup.CleanTextPlain | assets/app.js:29-88 | a text with neither `@@` nor `.` is returned unchanged |
| Cleanup.VisibleNameAnnotation | assets/app.js:67-70 | `@@Name<chain>` becomes the name with `_` as spaces followed by the chain's `[…]` contents |
| Cleanup.NullAnnotationBeforeBracket | assets/app.js:40 | before a `[`, pass 2 keeps the last character of a null annotation's name |
| Cleanup.NullAnnotationBare | assets/app.js:40 | a bare null annotation is deleted entirely |
| Cleanup.NullAnnotationWithValue | assets/app.js:40 | a null annotation with a `(…)` value and no `[` after it is deleted entirely |
| Cleanup.HiddenBeforeBracketKept | assets/app.js:44-45 | pass 3 keeps `@@(Name)` when a complete `[…]` follows |
| Cleanup.HiddenBeforeChainDeleted | assets/app.js:44-45 | pass 3 deletes `@@(Name)` when anything but `[` follows, a modifier chain included |
| Cleanup.HiddenHeadingDeleted | assets/app.js:35 | pass 1 deletes `@@.(x)` whole, whatever follows it |
| Cleanup.HiddenHeadingShape | assets/app.js:35 | pass 1 matches only `@@.(` followed by text up to the first `)`, which it includes |
| Cleanup.LeftoverModifierBare | assets/app.js:85 | pass 5 deletes `.name` with its whole run of name characters when no `(` follows, so before a `[` the bracket is left |
| Cleanup.LeftoverModifierWithValue | assets/app.js:85 | pass 5 deletes `.name(v)` together with its value |
| Cleanup.LeftoverDotFreePrefix | assets/app.js:85 | text without `.` passes through pass 5 unchanged |
| Cleanup.LeftoverWordPass | assets/app.js:85 | pass 5 over prose `pre.word rest` leaves `pre rest` |
| Cleanup.LeftoverWordInProse | assets/app.js:29-88 | a full stop written straight before a word deletes that word from the clean text |
| Cleanup.LeftoverWordExample | assets/app.js:29-88 | `end.Next` cleans to `end` |
| Sorting.SortBy | assets/app.js:146 | the sort by position is a permutation |
| Sorting.SortSorted | assets/app.js:146 | the sort puts the sequence in ascending order of the key |
| Sorting.InsertSorted | assets/app.js:146 | inserting into a sorted sequence keeps it sorted |
| Outline.MatchHiddenHeader | assets/app.js:101 | a hidden-heading match opens with `@@.(`, its level is the `#` count, and it ends inside the text |
| Outline.MatchVisibleHeader | assets/app.js:112 | a visible-heading match has the `#` count as level and ends inside the text |
| Outline.HiddenAt | assets/app.js:101-103 | the hidden-heading regex at a position matches only where `@@.(#` stands |
| Outline.VisibleAt | assets/app.js:112-113 | the visible-heading regex matches only at a line start and where `#` stands |
| Outline.ScanHeadings | assets/app.js:103-110 | the `exec` loop of a heading regex yields the headings of the scan |
| Outline.BuildOutline | assets/app.js:101-146 | the outline is the scans merged and sorted, in ascending order, each heading standing at its position with its `#` count as level |
| Outline.HeadingsFound | assets/app.js:103-110 | every heading found is a match of its regex at its position, with that level and text |
| Outline.OutlineSorted | assets/app.js:146 | the outline is sorted and holds exactly the hidden and the visible headings |
| Outline.OutlineLevels | assets/app.js:105-106 | every heading's level is the number of `#` that open it |
| Outline.HeadingTextPlain | assets/app.js:116-136 | a heading text without `@@` is only trimmed |
| Paragraphs.LastBoundary | assets/app.js:388 | `lastIndexOf("\n\n")` finds a boundary with none after it, or -1 |
| Paragraphs.FirstBoundary | assets/app.js:391 | `indexOf("\n\n")` finds a boundary with none before it, or -1 |
| Paragraphs.Clamp | assets/app.js:385-386 | `substring` clamps the cursor position to the text |
| Paragraphs.ParagraphStart | assets/app.js:385-389 | the paragraph starts at the text start or just after a boundary, with no boundary between it and the cursor |
| Paragraphs.ParagraphEnd | assets/app.js:386-393 | the paragraph ends at the text end or at a boundary, with no boundary between the cursor and it |
| Paragraphs.ParagraphAt | assets/app.js:382-397 | `getParagraphAt` is the text between those two ends |
| Paragraphs.ParagraphInterior | assets/app.js:382-397 | a boundary inside the paragraph is only one that straddles the cursor |
| Paragraphs.PreviousOf | assets/app.js:419-426 | the previous paragraph is the paragraph at the position just before the opening boundary |
| Paragraphs.NextOf | assets/app.js:428-438 | the next paragraph is the paragraph at the position just after the closing boundary |
| Paragraphs.AdjacentParagraphs | assets/app.js:404-443 | the current paragraph is `getParagraphAt`; its neighbours are the paragraphs across its two boundaries, or empty at the text ends |
| Entities.ValueOf | assets/app.js:210-215 | a value is the `(…)` text, else the `[…]` text, else null |
| Entities.EntityName | assets/app.js:158 | every `_` of the raw name becomes a space and every other character stays, at the same length |
| Entities.SameEntityName | assets/app.js:158 | raw names that differ only in writing `_` or a space have the same canonical name, so `@@Jim_Bob` and `@@(Jim Bob)` name one entity |
| Entities.ModifierEffect | assets/app.js:217-251 | one modifier is appended to its global key or to the local list, never both |
| Entities.ModifiersLocal | assets/app.js:249-251 | the local information is the non-global modifiers, in source order |
| Entities.ModifiersGlobal | assets/app.js:231-248 | global information only grows: each global modifier appends one entry to its key |
| Entities.ModifiersKind | assets/app.js:217-224 | the last type-setting modifier wins |
| Entities.TemporalKeepsKind | assets/app.js:217-224 | a temporal annotation never changes the type |
| Entities.ModifiersFrame | assets/app.js:208-252 | the modifier loop changes only the type and the global information |
| Entities.RaiseLevel | assets/app.js:190-195 | the hierarchy level becomes the larger of the two, nothing else changes |
| Entities.DeclareOthers | assets/app.js:153-254 | an annotation changes only its own entity |
| Entities.DeclareOccurrences | assets/app.js:198-253 | an annotation adds exactly one occurrence at its start with its local modifiers |
| Entities.DeclareGlobal | assets/app.js:231-248 | an annotation appends its global modifiers and overwrites nothing |
| Entities.DeclareKind | assets/app.js:162-224 | a new entity starts temporal exactly when hidden with a name starting with a digit, `@` or `-`, else character; then the last type modifier of a non-temporal annotation wins |
| Entities.DeclareLevel | assets/app.js:155-196 | the level becomes the larger of the old one and markers minus one |
| Entities.DeclareWellKept | assets/app.js:153-254 | each annotation keeps records under their own names, declared and not expanded |
| Entities.DeclareAllKeeps | assets/app.js:153-254 | an entity once created stays |
| Entities.DeclareAllAdds | assets/app.js:178-189 | every annotation creates or keeps the entity of its name |
| Entities.DeclareAllOnly | assets/app.js:178-189 | no entity appears without an annotation of its name |
| Entities.DeclareAllOccurrences | assets/app.js:198-253 | the explicit occurrences are one per annotation of the name, in order |
| Entities.DeclareAllGlobal | assets/app.js:231-248 | under every key, global information is the entries of all annotations of the name, in order |
| Entities.DeclareAllWellKept | assets/app.js:153-254 | Phase 1 keeps the records well kept |
| Entities.DeclareAllLevel | assets/app.js:155-196 | the level is the largest among the annotations of the name, and one of them attains it |
| Entities.ExplicitFrom | assets/app.js:198-253 | the explicit occurrences are exactly those of the annotations of the name |
| Annotating.ReadModifiers | assets/app.js:205-252 | the modifier loop computes the model's modifier fold |
| Annotating.SightEntity | assets/app.js:162-196 | the entity is created with its date and type or found with its level raised |
| Annotating.DeclareName | assets/app.js:173-176 | `declaredEntities` gets the canonical name, and the raw name when it has `_` |
| Annotating.ReadAnnotation | assets/app.js:154-253 | one iteration of the annotation loop performs one step of Phase 1 |
| Annotating.ReadAnnotations | assets/app.js:148-254 | the annotation loop computes Phase 1 over the whole text |
| NameOccurrences.CoveredPositions | assets/app.js:260-269 | a position is covered exactly when it lies inside an annotation |
| NameOccurrences.NameMatchAt | assets/app.js:284-287 | a name match stays inside the text |
| NameOccurrences.MarkRange | assets/app.js:266-268 | the inner loop marks `start` to `end - 1` |
| NameOccurrences.MarkAnnotations | assets/app.js:261-269 | the marking loop covers every position of every annotation |
| NameOccurrences.IsAlreadyAnnotated | assets/app.js:294-301 | the early-exit loop answers whether a covered position lies in the match |
| NameOccurrences.ScanNames | assets/app.js:290-312 | the name `exec` loop keeps the matches that touch no annotation, as implicit occurrences |
| NameOccurrences.FindMentions | assets/app.js:278-312 | the scan of one declared name yields its implicit occurrences |
| NameOccurrences.AddImplicitOccurrences | assets/app.js:272-313 | the loop over `declaredEntities` adds implicit occurrences to declared non-temporal entities only |
| NameOccurrences.MatchesSound | assets/app.js:290-292 | every match is a match of the name regex at its start, inside the text |
| NameOccurrences.MentionsSound | assets/app.js:284-292 | every match is the canonical or the raw name as a whole word |
| NameOccurrences.MatchesComplete | assets/app.js:290 | the scan misses no position where the regex matches |
| NameOccurrences.MentionsComplete | assets/app.js:284-290 | every whole-word occurrence of the canonical or raw name lies inside a match |
| NameOccurrences.ImplicitFrom | assets/app.js:304-311 | each implicit occurrence comes from an untouched match, has no local information and is marked implicit |
| NameOccurrences.ImplicitComplete | assets/app.js:304-311 | each untouched match yields an implicit occurrence |
| NameOccurrences.UntouchedOutside | assets/app.js:294-304 | a match touching no covered position overlaps no annotation |
| Parser.SortOccurrences | assets/app.js:317-320 | every entity's occurrences are sorted by position |
| Parser.ParseMarkPlot | assets/app.js:95-323 | `parseMarkPlot` computes the clean text, the entities after both phases and the sort, and the outline |
| Parser.ParsedFromExplicit | assets/app.js:256-320 | Phase 2 and the sort change a record's occurrences only |
| Parser.ParsedNames | assets/app.js:178-189 | there is a record for a name exactly when an annotation declares it |
| Parser.ParsedRecord | assets/app.js:155-196 | a record carries its name, starts unexpanded, and has a level in 1..3 that is the maximum over its annotations |
| Parser.ParsedGlobalInfo | assets/app.js:231-248 | global information is cumulative over the annotations of the name |
| Parser.ParsedOccurrences | assets/app.js:253-320 | occurrences are sorted and are, up to order, the explicit ones plus the implicit ones when not temporal |
| Parser.MergedOccurrences | assets/app.js:253-320 | in such a union each kind of occurrence comes from its own part |
| Parser.ParsedParts | assets/app.js:253-320 | explicit occurrences come from the explicit part, implicit ones from the implicit part, and both parts are present |
| Parser.ParsedExplicit | assets/app.js:198-253 | the explicit occurrences are exactly one per annotation of the name |
| Parser.ParsedImplicit | assets/app.js:272-312 | an implicit occurrence belongs to a non-temporal record and stands at a whole-word name match outside every annotation |
| Parser.ParsedTemporal | assets/app.js:274-276 | a temporal record has no implicit occurrences |
| Parser.ParsedImplicitComplete | assets/app.js:290-312 | every name match outside every annotation is an implicit occurrence of a non-temporal record |
| Parser.OutsideUntouched | assets/app.js:294-301 | a match outside every annotation touches no covered position |
| Parser.MatchOutside | assets/app.js:294-304 | an untouched name match is a whole-word match outside every annotation |
| ViewState.MergeExpanded | assets/app.js:357-361 | the merge loop computes the merged map |
| ViewState.MergeOnlyFlag | assets/app.js:357-361 | the merge keeps the new names, takes the old flag when the name existed, and changes no other field |
| ViewState.MergeIdempotent | assets/app.js:357-361 | merging twice changes nothing more |
| ViewState.MergedAfterParse | assets/app.js:349-361 | after a parse and the merge, a record is manually expanded exactly when the old record of its name was |
| ViewState.ReferenceAt | assets/app.js:460 | a reference match starts with `@@`, stays inside the text and gives a non-empty name without `_` |
| ViewState.ScanReferences | assets/app.js:462-465 | the `exec` loop of the reference regex collects the names of the scan |
| ViewState.CollectContextNames | assets/app.js:459-465 | the loop over the joined context text collects the names in context |
| ViewState.ReferencesFound | assets/app.js:462-465 | every name collected is the name of a regex match at some position |
| ViewState.ContextNamesFound | assets/app.js:460-465 | every name in context is read off a reference, is non-empty and has no `_` |
| ViewState.NextContextual | assets/app.js:472-487 | a record that is not manually expanded gets the flag "in context"; a manually expanded one keeps its flag |
| ViewState.ExpandedByFlags | assets/app.js:470-515 | a card should be open exactly when manually expanded or contextually flagged; a card that should be closed is already unflagged |
| ViewState.ApplyContext | assets/app.js:468-487 | the loop over the entities applies the flag rule to every record |
| ViewState.HandleSelectionChange | assets/app.js:448-487 | without a cursor nothing changes; otherwise the flags follow the names in the three paragraphs around it |
| ViewState.ContextOnlyFlag | assets/app.js:468-487 | only the contextual flag changes, to "in context" unless manually expanded |
| ViewState.ContextIdempotent | assets/app.js:468-487 | a second selection change at the same place changes nothing more |
| ViewState.FormatModifierName | assets/app.js:527-530 | the same length, the first character upper-cased and the rest lower-cased; empty stays empty |
| ViewState.FormatIdempotent | assets/app.js:527-530 | formatting twice changes nothing more |
| ViewState.FormatIgnoresCase | assets/app.js:527-530 | the display form does not depend on the case the modifier was written in |

## Left out

- Rendering, the DOM, local storage, `marked`, scrolling and the timeline. They are output, not parsing. The card and pill lookups of `handleEditorSelectionChange` go for the same reason: only their effect on the flags is modelled.
- The click handlers that toggle `manuallyExpanded` (`assets/app.js:629-638`, `796-801`). They are UI events outside the parser core.
- `new Date(…)` becomes a function parameter `parseDate`, whose result is a date or none. The date formats it accepts, and the clock, are left out.
- `\p{L}` and `\p{N}` are approximated by fixed ranges (ASCII, Latin-1, Latin Extended, Greek, Cyrillic, CJK, a few digit blocks). Letters from other scripts count as non-name characters here.
- `toUpperCase` and `toLowerCase` map ASCII letters only. A non-ASCII letter keeps its case in `IsAllCaps`, in `.Type(v)` values and in `FormatModifierName`.
- Strings are sequences of code points, while JavaScript indexes UTF-16 code units. Positions differ from the source's for characters outside the Basic Multilingual Plane.
- Entity records are values in a `map`, not shared heap objects. Aliasing between `entities` and later readers is not modelled.
- The iteration order of a JavaScript `Map` (insertion order) is not kept. Nothing in the parse depends on it: each record receives its occurrences from its own annotations and from the scan of its own name, in text order, and they are stably sorted at the end. That the positions within one record are distinct is not proved.
- The escaping of special regex characters in names (`assets/app.js:280-281`) is the identity here. A declared name is matched literally, which is what the escaping intends.
- An empty name alternative in the name regex never matches here. The annotation grammar makes every declared name non-empty.
- `Annotating.ReadModifiers` iterates over the list of modifier matches that the modifier regex yields, rather than stepping `lastIndex` through the modifier text. `Syntax.ScanRenderedChain` ties that list to the text.
- StripBrackets: its own contract states only that no bracket is left and that the text does not grow. `Passes.StripBracketsKeeps` and `Passes.StripBracketsAppend` state which characters stay and that they stay in order. Those facts sit in lemmas because, in the function's contract, they made every pass that reaches the function through `Passes.Rewrite` costly to verify.
- `ViewState.ContextNamesFound`: states only that every collected name comes from a reference in the context text, not that every reference the scan reaches is collected. `ViewState.ReferencesStep` states that step by step.
- `ViewState.HandleSelectionChange` takes the cursor as an optional position, standing for `editor.selectionStart`.
