# Project editor form: tag codec and submit rules

This is a Dafny model of the project editor form of a React gallery manager, `src/components/ProjectModal.jsx`.
The form has a free-text tag field such as `web / ui`. On submit, `extractTags` turns that field into a list of
tags: it splits on `/`, trims each segment and drops the empty ones. When an existing record is edited, the form
is prefilled, and the record's tags are joined back into the field with `/`. Submitting with an empty title does
nothing. Otherwise the form builds a payload `{title, tags, file}`, hands it to the add callback (new record) or
to the update callback (edit mode), and then closes.

The model has three modules, one per layer:

- `JsString` (`jsstring.dfy`) holds the ECMAScript string operations the form relies on: `trim`, with the
  ECMAScript WhiteSpace and LineTerminator set, `split` on a one-character separator (`k` separators give `k + 1`
  segments, and `""` gives `[""]`), and `join`.
- `TagCodec` (`tagcodec.dfy`) holds `extractTags`, its partner the `/`-join, and their properties. These are:
  every tag is non-empty, trimmed and free of `/`; there are at most one more tags than separators; the input is
  parsed segment by segment, in order; the input yields no tags exactly when it is all separators and whitespace;
  and join-then-parse is the identity on well-formed tag lists, so parsing is idempotent through a join.
- `ProjectModal` (`projectmodal.dfy`) holds the form state as a value, and each handler as a function. The prefill
  and the file picker map a state to the next state. Submit and delete give the sequence of effects they perform:
  the callback calls, then `Close`.

React state setters do not update an object in place. They schedule a new render with new values, so the state is
modelled as an immutable `FormState` value and not as a class. Three things from outside are parameters:

- the record under edit (`editingProject`);
- the URL the browser creates for a picked file (`URL.createObjectURL`);
- the answer to the delete confirmation (`window.confirm`).

Two details of the code are worth knowing:

- The comment on the guard at `src/components/ProjectModal.jsx:171` says the title is required. The guard is
  `!title`, which rejects only the empty string, so a title of blanks is submitted. `Submit` guards on
  `title == ""` exactly.
- The form collects an admin password, but the password appears only in the commented-out call at
  `src/components/ProjectModal.jsx:179-184`. The live payload at lines 173-177 leaves it out
  (`SubmitIgnoresPassword`).

## Model

| member | source | states |
|---|---|---|
| `JsString.LeadingWhitespace` | src/components/ProjectModal.jsx:167 | the count of leading characters `trim` removes: all of them whitespace, and the next character is not |
| `JsString.TrailingWhitespace` | src/components/ProjectModal.jsx:167 | the count of trailing characters `trim` removes: all of them whitespace, and the character before them is not |
| `JsString.Trim` | src/components/ProjectModal.jsx:167 | `trim` gives the slice of the input between leading and trailing whitespace; the result neither starts nor ends with whitespace; a string already trimmed is unchanged |
| `JsString.TrimEmptyIff` | src/components/ProjectModal.jsx:167 | a segment trims to `""` exactly when it is all whitespace (both directions) |
| `JsString.TrimKeepsOnly` | src/components/ProjectModal.jsx:167 | trimming adds no character: a character absent from the input is absent from its trim |
| `JsString.Split` | src/components/ProjectModal.jsx:166 | `split("/")` gives one more segment than there are separators, and no segment contains the separator |
| `JsString.SplitNoSeparator` | src/components/ProjectModal.jsx:166 | a string without the separator splits into itself alone |
| `JsString.SplitAppend` | src/components/ProjectModal.jsx:166 | splitting `a + "/" + b` gives the segments of `a` followed by those of `b` |
| `JsString.JoinSplit` | src/components/ProjectModal.jsx:166 | joining the segments with the separator gives back the input, so splitting loses no character |
| `JsString.Join` | src/components/ProjectModal.jsx:149 | `join("/")` puts at least (number of parts) - 1 separators into the result in total |
| `JsString.JoinAppend` | src/components/ProjectModal.jsx:149 | joining two non-empty lists of parts is joining each and putting exactly one separator between them |
| `JsString.SplitJoin` | src/components/ProjectModal.jsx:149 | splitting the join of a non-empty list of separator-free parts gives back the list |
| `TagCodec.TrimAll` | src/components/ProjectModal.jsx:167 | `.map(trim)` keeps the length, and element `k` of the result is the trim of segment `k` |
| `TagCodec.DropEmpty` | src/components/ProjectModal.jsx:168 | `.filter(Boolean)` keeps exactly the non-empty strings (both directions) and never lengthens the list |
| `TagCodec.DropEmptyAppend` | src/components/ProjectModal.jsx:168 | filtering a concatenation is the concatenation of the filtered halves, so order is kept |
| `TagCodec.ExtractTags` | src/components/ProjectModal.jsx:164-168 | every returned tag is non-empty, equal to its own trim and free of `/`; there are at most (number of `/`) + 1 tags |
| `TagCodec.ExtractTagsMembers` | src/components/ProjectModal.jsx:164-168 | a string is among the tags exactly when it is the non-empty trim of some segment of the input |
| `TagCodec.ExtractTagsSegment` | src/components/ProjectModal.jsx:164-168 | input without `/` gives `[]` if it trims to `""` and `[trim(input)]` otherwise |
| `TagCodec.ExtractTagsAppend` | src/components/ProjectModal.jsx:164-168 | the tags of `a + "/" + b` are the tags of `a` followed by the tags of `b`: order follows the input |
| `TagCodec.ExtractTagsEmptyIff` | src/components/ProjectModal.jsx:164-168 | the input yields no tag exactly when every character is `/` or whitespace (both directions) |
| `TagCodec.ExtractTagsConsTag` | src/components/ProjectModal.jsx:164-168 | a well-formed tag followed by `/` contributes itself, in front of the tags of the rest |
| `TagCodec.ExtractTagsConsBlank` | src/components/ProjectModal.jsx:164-168 | a whitespace-only segment followed by `/` contributes no tag |
| `TagCodec.ExtractTagsDropsBlankSegments` | src/components/ProjectModal.jsx:164-168 | a field shaped like `web/ui/ /` gives exactly its two tags; the blank and empty segments vanish |
| `TagCodec.JoinTags` | src/components/ProjectModal.jsx:149 | the prefill join puts at least (number of tags) - 1 separators into the field |
| `TagCodec.ExtractJoinRoundTrip` | src/components/ProjectModal.jsx:149 | for tags that are all non-empty, trimmed and free of `/`, parsing their `/`-join gives back exactly that list |
| `TagCodec.ExtractTagsIdempotent` | src/components/ProjectModal.jsx:164-168 | `extractTags(join("/", extractTags(s))) == extractTags(s)` for every input |
| `TagCodec.JoinTagsInjective` | src/components/ProjectModal.jsx:149 | two different lists of well-formed tags never prefill the same tag text |
| `ProjectModal.OrEmpty` | src/components/ProjectModal.jsx:148-150 | the empty-string default on an optional string: an absent value becomes `""`, a present one is kept |
| `ProjectModal.TagText` | src/components/ProjectModal.jsx:149 | absent tags prefill as `""`, and well-formed tags prefill as a text that parses back to the same tags |
| `ProjectModal.Prefill` | src/components/ProjectModal.jsx:146-152 | in edit mode, title, tag text and preview come from the record with absent values as `""`, and file and password are kept; without a record nothing changes |
| `ProjectModal.FileChange` | src/components/ProjectModal.jsx:155-161 | no picked file leaves the form unchanged; a picked file is stored and the preview set to its object URL; title, tags and password stay |
| `ProjectModal.SubmitPayload` | src/components/ProjectModal.jsx:173-177 | the payload carries the form's title and file, and its tags are `extractTags` of the tag text: all well-formed, numbering at most (number of `/`) + 1 |
| `ProjectModal.Submit` | src/components/ProjectModal.jsx:170-193 | the corrected handler, with the update aimed at the record under edit (as written, edit mode throws; see Findings): an empty title yields no effect at all; otherwise exactly one callback, update iff edit mode, never delete, carrying the payload, followed by `Close` |
| `ProjectModal.InitialFormSubmitsNothing` | src/components/ProjectModal.jsx:137-143 | the initial state (all fields `""`, no file) is left alone by the prefill when no record is edited, and submitting it has no effect |
| `ProjectModal.SubmitIgnoresPassword` | src/components/ProjectModal.jsx:173-177 | changing the password changes nothing that submit does |
| `ProjectModal.PrefillThenSubmit` | src/components/ProjectModal.jsx:146-193 | with the corrected `Submit` (as written, edit mode throws; see Findings): opening a titled record with well-formed tags and submitting at once updates it with its own title and tags (`[]` when absent) and no file, then closes |
| `ProjectModal.Delete` | src/components/ProjectModal.jsx:195-200 | the delete handler with a corrected target: unconfirmed does nothing; confirmed calls delete once, then closes |
| `ProjectModal.SubmitAsWritten` | src/components/ProjectModal.jsx:186-192 | as written: an empty title completes with no effect, a new record behaves as `Submit`, and an edit throws a `ReferenceError` |
| `ProjectModal.SubmitAsWrittenEditThrows` | src/components/ProjectModal.jsx:187 | a titled edit throws as written, where the corrected `Submit` calls update and closes |
| `ProjectModal.DeleteAsWritten` | src/components/ProjectModal.jsx:195-200 | as written: unconfirmed completes with no effect, confirmed throws a `ReferenceError` |
| `ProjectModal.DeleteAsWrittenThrows` | src/components/ProjectModal.jsx:197 | a confirmed delete throws as written, where the corrected `Delete` calls delete and closes |

## Left out

- Styling (the styled-components blocks), JSX rendering, prop-types, `React.memo` and the React hooks themselves. Each handler is modelled as the state change or effects it causes; re-rendering and the `useEffect` dependency list are not modelled.
- The input `onChange` handlers for title, tags and password store the typed text unchanged, so they are not modelled separately.
- `URL.createObjectURL` and `window.confirm` are foreign browser calls. Their results are parameters of `FileChange` and `Delete`.
- The record identifier passed to the update and delete callbacks. The source reads it from an undeclared name (see Findings), and the model does not guess which field was meant. `Delete`, `CallUpdate` and `CallDelete` leave it out.
- JavaScript strings are UTF-16 sequences; the model uses Unicode scalar values, so lone surrogates are not represented. No whitespace character is a surrogate, so `trim` is not affected.
- `TagText` models `tags?.join("/")` for an array of strings only. JavaScript's conversion of non-string or `null` array elements in `join` is not modelled.
- `Submit` guards on the empty title only. Values such as `null` or `undefined` for the title are outside the string-typed state.
- The remote store, image upload and cleanup, list cache, tag-set extraction across records, filter selection, toast and admin password check are not part of this model. `src/hook/useLenis.js` (smooth-scroll animation on floating point) is left out too.

## Findings

| source | as written | input that shows it | evidently intended | confidence | as-written member | corrected member |
|---|---|---|---|---|---|---|
| src/components/ProjectModal.jsx:187 | edit-mode submit calls `updateProject(project.id, payload)`, but `project` is not declared in the component (the prop is `editingProject`), so reading it throws `ReferenceError` before the update and before `onClose` | any edit-mode submit with a non-empty title, e.g. title `Demo` | call the update callback for the record under edit, then close | not executed; high unless the page defines a global named `project` | `ProjectModal.SubmitAsWritten`, `ProjectModal.SubmitAsWrittenEditThrows` | `ProjectModal.Submit` |
| src/components/ProjectModal.jsx:197 | a confirmed delete calls `deleteProject(project.id)` with the same undeclared `project`, so it throws before the delete and before `onClose` | answering "OK" to the confirmation | call the delete callback for the record under edit, then close | not executed; high unless the page defines a global named `project` | `ProjectModal.DeleteAsWritten`, `ProjectModal.DeleteAsWrittenThrows` | `ProjectModal.Delete` |
