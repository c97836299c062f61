# esmp-js reconciliation, modelled in Dafny

esmp-js keeps a Notion database in step with a folder of audio files. It
has two script variants, and the model covers the core of each:

- `esmp_js.js` creates a page for every file that has none. It searches
  by title and retries on HTTP 409.
- `esmp_test.js` first lists every page and archives the pages no file
  claims. Then it creates or patches a page for every file.

Both scripts derive the page fields from the file's base name. Both turn
away a call for a name whose earlier call is still in flight, through a
process-wide `processingFiles` guard, and both record page ids in a
`fileToPageId` title index.

The Dafny modules follow that structure:

- `Common` (`common.dfy`): optional values, the outcome of a remote request
  (success, HTTP error with its status, no response), and the session that
  holds the guard and the title index.
- `Text` (`text.dfy`): the JavaScript string operations the parsers use.
  These are `trim` with JavaScript's white-space set, `split`/`join` on one
  character, `indexOf`/`includes`, `replace` of the first occurrence, and a
  global one-character replace.
- `FileName` (`filename.dfy`): the `esmp_js.js` parse (`ParseName`),
  including the regular expression `/\((.*?)\)\s*$/` with its backtracking
  semantics, and the `esmp_test.js` three-field parse (`ParseFields`).
- `Guard` (`guard.dfy`): the per-name guard. A call is a sequence of steps
  (mark, send a request, clear), and the guard's state at any point is the
  replay of the steps before it.
- `Retry` (`retry.dfy`): `createOrUpdatePage` of `esmp_js.js`. This is the
  `while (attempts < maxRetries)` loop over a script of store answers, as a
  function (`Loop`) and as the loop with its `break`s (`CreateOrUpdateLoop`),
  proved equal.
- `Sync` (`sync.dfy`): `esmp_test.js`. It covers `createOrUpdatePage`,
  `archivePage`, the paginated `getNotionPages`, the archive selection, and
  the two phases of `uploadExistingFiles`.

The remote store is never called. Its answers are parameters:

- a script of per-pass answers for the retry loop;
- a sequence of listing answers;
- a function from page id to archive outcome;
- a function from base name to search-and-write answers.

Behaviour a reader might not expect:

- The status is one string: the group's text with every comma turned into
  a space. `"ESMP12_My Song_(Draft, Final)"` parses to id `"12"`, title
  `"My Song_"` and status `"Draft  Final"`. The `_` in front of the group
  stays in the title (`FileName.ParseNameExample`).
- A failed upload does not stop the create. `uploadFileToFirebase` swallows
  its error and yields `undefined`, and the create goes out with no link
  (`Retry.BodyOutcome`).
- When the search finds a page, `esmp_test.js` patches the first result
  with the file's id and status (`Sync.AttemptCases`).
- The guard is keyed on the raw base name. Two files whose names parse to
  the same title are not kept apart by it.

## Model

| member | source | states |
|---|---|---|
| Text.Trim | esmp_js.js:69 | `trim()` yields a string with no white space at either end, never longer than the input |
| Text.TrimInfix | esmp_js.js:69 | the trimmed string is a contiguous piece of the input with only white space cut off before and after it |
| Text.TrimUnique | esmp_js.js:74 | white space around an already-trimmed string is exactly what `trim()` removes |
| Text.TrimTrimmed | esmp_js.js:74 | trimming an already-trimmed string changes nothing |
| Text.TrimLeading | esmp_js.js:69 | white space in front of a string makes no difference to its `trim()` |
| Text.SplitSpec | esmp_js.js:58 | `split("_")` gives one more piece than there are separators, no piece holds a separator, and joining the pieces gives the name back |
| Text.SplitJoin | esmp_test.js:33-35 | splitting a join of separator-free pieces gives the pieces back |
| Text.SplitHeadTail | esmp_js.js:58-69 | `parts[0]` is the name up to the first `_` and `parts.slice(1).join("_")` is the rest after it |
| Text.IncludesSpec | esmp_test.js:163-165 | `includes` holds exactly when the needle occurs at some position |
| Text.IncludesSelf | esmp_test.js:163-165 | every string includes itself and the empty string |
| Text.ReplacePrefix | esmp_js.js:62 | `replace("ESMP", "")` on a string that starts with `ESMP` removes exactly that prefix |
| Text.ReplaceChar | esmp_js.js:71 | `replace(/,/g, " ")` keeps the length and turns each comma, and only commas, into a space |
| FileName.IsCode | esmp_js.js:61 | the head field matches `/^ESMP\d+$/`: `ESMP` followed by one or more ASCII digits and nothing else |
| FileName.StatusGroup | esmp_js.js:70 | `title.match(/\((.*?)\)\s*$/)`: start positions tried left to right, each with a lazy search for a `)` followed only by white space; a match runs to the end of the title |
| FileName.StatusGroupSpec | esmp_js.js:70 | on a trimmed title the regular expression matches exactly when some `(` opens a group closed by the final `)` with no line terminator between; the match starts at the leftmost such `(` and captures what lies between |
| FileName.StatusGroupPlain | esmp_js.js:70 | without line terminators the expression matches exactly when the title ends in `)` and holds a `(`, and the match starts at the first `(` |
| FileName.StripStatus | esmp_js.js:70-75 | the title after removing the group is trimmed and the status holds no comma |
| FileName.StripStatusGroup | esmp_js.js:70-75 | with a group, the status is the group's text with commas turned into spaces, and the title is the text before the group, trimmed |
| FileName.FirstOccurrenceIsGroup | esmp_js.js:74 | the first occurrence of the matched text is the match itself, so `replace(statusMatch[0], "")` removes the group |
| FileName.ParseName | esmp_js.js:58-75 | the parsed title is always trimmed and the status never holds a comma |
| FileName.ParseNameParts | esmp_js.js:58-69 | the id comes from the first `_` field and the title and status only from what follows the first `_` |
| FileName.ParseNameId | esmp_js.js:61-67 | an `ESMP<digits>` head gives its digits as id, and any other head is the id unchanged |
| FileName.ParseNameNoGroup | esmp_js.js:69-71 | without a group the status is "Unknown" and the title is the rest of the name trimmed; a name without `_` has an empty title |
| FileName.ParseNameGroup | esmp_js.js:70-75 | with a group, the status is its text with commas turned into spaces and the title is the text before it, trimmed |
| FileName.StripStatusOf | esmp_js.js:70-75 | a title `<before>(<inner>)`, with no `(` in `<before>`, `<before>` not starting with white space, and no line terminator in `<before>` or `<inner>`, splits into `<before>` trimmed and `<inner>` with commas turned into spaces |
| FileName.ParseCodedName | esmp_js.js:58-75 | `ESMP<digits>_<before>(<inner>)`, with at least one digit, no `(` in `<before>` and no line terminator in `<before>` or `<inner>`, parses to the digits, `<before>` trimmed (a `_` before the group stays), and `<inner>` with commas turned into spaces |
| FileName.ParseNameExample | esmp_js.js:58-75 | `"ESMP12_My Song_(Draft, Final)"` parses to id `"12"`, title `"My Song_"`, status `"Draft  Final"` |
| FileName.ParseFields | esmp_test.js:33-35 | the id is the trimmed first field; the title exists exactly when the name holds a `_`, and the status exactly when it holds two |
| FileName.ParseFieldsOfJoin | esmp_test.js:33-35 | a name of one or more `_`-free pieces yields its first three pieces trimmed, `undefined` for a title or status it lacks (`"12_Song"` has title `"Song"` and no status), and ignores the rest |
| Guard.HeldAsWritten | esmp_js.js:50 | the written guard test also finds the names a plain object inherits |
| Guard.HeldAsWrittenDiffers | esmp_js.js:45-55 | the written test differs from the intended one exactly on inherited names not in flight; `constructor` is turned away by an empty guard |
| Guard.Guarded | esmp_js.js:49-171 | a call that passes the guard marks its name first, then sends its requests, then clears the mark last |
| Guard.GuardedHolds | esmp_js.js:49-171 | the name is held at every request the call sends, and the guard is as it was when the call returns |
| Retry.Body | esmp_js.js:95-167 | a pass searches first and searches or waits no more; it goes round again exactly on a 409; a created page comes from an empty search and a successful create; the index changes only by that page |
| Retry.BodyOutcome | esmp_js.js:99-143 | a pass creates a page exactly when the search is empty and the create answers; it stops on a found page exactly when the search returns results; a create goes out exactly after an empty search and carries the upload's URL, present or not |
| Retry.Stop | esmp_js.js:94-167 | the loop stops at the first pass that did not hit a 409, or after five |
| Retry.Loop | esmp_js.js:91-168 | at most five passes; `attempts` reaches five exactly when every pass conflicted; each pass is the body on the next answer; every pass but the last conflicted; the index changes only by a created page under the title |
| Retry.LoopConflicts | esmp_js.js:144-166 | every repeated pass hit a 409, the last did not, and a created or found page comes from the last pass's answers |
| Retry.Backoff | esmp_js.js:146-151 | the waits after the conflicts are `1000 * attempts` with `attempts` already incremented |
| Retry.TraceCounts | esmp_js.js:146-151 | passes with one search each send one search per pass and wait 1000, 2000, … ms after each conflict |
| Retry.LoopTrace | esmp_js.js:91-151 | the loop searches once per pass, at most five times, and waits once per conflict with delays 1000·k |
| Retry.LoopCreates | esmp_js.js:101-132 | a pass sends a create exactly when its search returned zero results |
| Retry.AllConflicts | esmp_js.js:91-151 | five 409s in a row give five searches, waits of 1000 to 5000 ms, no created page and an unchanged index |
| Retry.OtherErrorStops | esmp_js.js:152-166 | a non-409 status, or no response, ends the loop after one search with no wait and no create |
| Retry.LoopUnique | esmp_js.js:91-168 | the loop's contract pins down its run: any run with those properties is the loop's run |
| Retry.CreateOrUpdateLoop | esmp_js.js:91-168 | the loop with its counter and `break`s computes the same run as `Loop` |
| Retry.CreateOrUpdatePage | esmp_js.js:49-171 | a held name returns at once with no step and no change; otherwise the call marks, sends its requests while the name is held, clears the mark, and leaves the guard as it found it |
| Retry.DuplicateTriggerDropped | esmp_js.js:50-55 | a second trigger for a name whose call is in flight sends nothing |
| Retry.CallIndex | esmp_js.js:137-138 | the index changes only by the created page's id under the parsed title |
| Sync.KeyOf | esmp_test.js:54 | a present title is its own index key |
| Sync.Attempt | esmp_test.js:47-105 | a call's `try` block sends the title search first and at most one more request |
| Sync.AttemptCases | esmp_test.js:52-105 | a patch follows exactly a search with results and a create exactly an empty search; a failed search sends nothing more |
| Sync.AttemptIndex | esmp_test.js:52-104 | only the title's key changes: to the first result's id whatever the patch answers, to the new id after a create that answered, and not otherwise |
| Sync.CreateOrUpdatePage | esmp_test.js:24-111 | a held name returns with no request; otherwise the first request is the search, every request is sent while the name is held, and the guard is restored |
| Sync.ReleasedOnError | esmp_test.js:106-110 | a failed search still clears the mark and leaves the session unchanged |
| Sync.ArchivePage | esmp_test.js:113-131 | a successful archive removes only the title's key; a failed one leaves the index unchanged |
| Sync.Fetch | esmp_test.js:133-151 | the listing sends at most one query per answer, starting from the given cursor, and runs out of answers only while the store says there is more |
| Sync.FetchCursors | esmp_test.js:138-148 | every query after the first sends the previous answer's `next_cursor`, and every answer before the last said `has_more` |
| Sync.FetchPages | esmp_test.js:138-150 | a completed listing stops at the first answer without `has_more` and returns every batch up to it, concatenated in order; a failed one stops at the failing query |
| Sync.ToArchive | esmp_test.js:161-166 | every selected page is a listed page that no base name includes |
| Sync.ToArchiveExactly | esmp_test.js:161-166 | a listed page is selected exactly when no base name includes its title |
| Sync.ToArchiveAppend | esmp_test.js:161-166 | selection keeps the listing's order: it commutes with cutting the listing anywhere |
| Sync.NamedPageKept | esmp_test.js:163-165 | a page titled like a base name, or with an empty title while the folder has files, is never archived |
| Sync.IndexPages | esmp_test.js:168-171 | after the first phase's index writes, a title is indexed exactly when it was before or some selected page has it |
| Sync.IndexPagesLast | esmp_test.js:169-171 | each selected page's title maps to its id unless a later selected page has the same title |
| Sync.ArchiveAll | esmp_test.js:168-174 | an indexed title survives the archives exactly when no page with that title was archived successfully, and a surviving title keeps its page id; no title is added |
| Sync.ArchivePhase | esmp_test.js:168-174 | the first phase: every selected page's title indexed to its id, then each archive answer applied in order |
| Sync.ArchivePhaseKeys | esmp_test.js:168-174 | after the first phase a title is indexed exactly when it was indexed before or belongs to a selected page, and no selected page with it was archived; a title no selected page has keeps its id |
| Sync.Calls | esmp_test.js:176-180 | the second phase sends only searches, patches and creates |
| Sync.FreshNameSearched | esmp_test.js:25-52 | a base name in the folder that is not held is reconciled: its title search goes out in the second phase |
| Sync.SearchesFromNames | esmp_test.js:176-180 | every title search of the second phase belongs to a base name in the folder that was not held |
| Sync.RepeatedNameOnce | esmp_test.js:24-30 | a base name already held, or already seen earlier in the folder, is turned away wherever it occurs again: dropping that occurrence changes neither the requests nor the index |
| Sync.UploadExistingFiles | esmp_test.js:153-181 | the guard is unchanged afterwards, and a listing that does not complete sends nothing else and changes nothing |
| Sync.UploadOrder | esmp_test.js:159-180 | all listing queries come before all archive requests, and those before every request of the second phase |

## Findings

| source | as written | input that shows it | evidently intended | confidence | as-written member | corrected member |
|---|---|---|---|---|---|---|
| esmp_js.js:50 | `processingFiles` is a plain object `{}`, so `processingFiles[fileBaseName]` is truthy for names it inherits from `Object.prototype` (the same test is at esmp_test.js:25) | a file whose base name is `constructor`, `toString` or `valueOf`, with no call in flight: the call returns as if the name were in flight, and the file is never reconciled | a name is held only while a call for it is running | not executed | Guard.HeldAsWrittenDiffers | Guard.GuardedHolds |

`Guard.HeldAsWritten` is the test as written. `Guard.HeldAsWrittenDiffers`
shows that it turns `constructor` away with an empty guard. `Guard.Held` is
the intended test. Both `CreateOrUpdatePage` functions and `Sync.Calls` use it.
`Guard.GuardedHolds` proves that under `Held` a name is held exactly while
its call runs.

## Left out

- Strings are sequences of Unicode scalar values, not UTF-16 code units. For well-formed file names `trim`, `split`, `indexOf`/`includes` and the regular expression give the same results either way; a lone surrogate cannot be represented.
- Retry.CreateOrUpdatePage, Sync.CreateOrUpdatePage and Sync.Calls: they use the intended guard test (`Guard.Held`), not the inherited-property test as written. A file named `constructor` is therefore reconciled in the model, while both scripts turn it away; see Findings.
- HTTP requests, Notion headers and payload shapes are not modelled. A request is a value that names what it carries, and the store's answers are parameters.
- `uploadFileToFirebase` (esmp_js.js:15-30) is not modelled beyond its result: an optional URL in each pass's answers. Its error is swallowed, so an absent URL is a normal answer.
- Environment loading and the missing-configuration throw (esmp_js.js:9-13, 32-36; esmp_test.js:6-13) are not modelled, because they happen before any reconciliation.
- `setTimeout`: a wait is recorded as a `Sleep` action carrying its delay. No time passes.
- `Promise.all` interleaving is not modelled. Each call's guard check and mark happen before any call awaits, and this is modelled, so a repeated name is turned away. The calls that pass then run one after another in folder order. In the first phase the archive answers apply in listing order. The order in which concurrent requests complete is not modelled.
- `readdirSync`, the `.DS_Store` filter and `path.parse` (esmp_js.js:194-197; esmp_test.js:154-157) are not modelled: the folder is given as its list of base names.
- Sync.Calls: a base name is not NFC-normalised. Only `esmp_js.js` normalises (line 201), and `Retry.CreateOrUpdatePage` takes the name as already normalised.
- The `uploadExistingFiles` driver of `esmp_js.js` (lines 193-206) is not modelled as a function. Its one property, that a repeated trigger is turned away by the guard, is `Retry.DuplicateTriggerDropped`.
- Retry.CreateOrUpdatePage: the script must hold one answer for each of the five possible passes. A pass after the loop stops never reads its answer, so a shorter script is the same as one padded out to five.
- `Number(id)` is not modelled: the id stays a string, so `NaN` never arises.
- The unused `getNotionPages` of `esmp_js.js` (lines 173-191) is not modelled separately. It is identical to the one in `esmp_test.js`, which `Sync.Fetch` models.
- `page.properties.Song.title[0].text.content` (esmp_test.js:162,170) throws on a page with no title. A listed page is modelled as always carrying its title text.
- Sync.Fetch: a store that keeps saying `has_more` would keep the source querying. The model follows only as many answers as it is given and reports `Unanswered` after that.
- FileName.StripStatusGroup and FileName.ParseNameGroup: the title after the group is removed is characterised only when the title holds no line terminator. With a line terminator, `replace` may remove an earlier copy of the matched text. `StripStatus` still models that case exactly, but no lemma describes it.
- The notifier (`esmp_notifier.cjs`) is not part of this model: it runs a subprocess, shows notifications and appends to a log.
