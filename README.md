# E-mail anonymizer: redaction engine model

A Dafny model of the redaction and deanonymization engine of a desktop
e-mail anonymizer. The engine is made of the following parts:

- **Tag store.** A table from each redacted original text to the tag that
  replaced it, for example `<ANON_1a2b3c4d>`.
- **Text cleaning.** `clean_text` drops markup, collapses blank-line runs and
  trims the text. After markup removal, it deletes only whitespace.
- **Batch redaction.** `redact_text`, `apply_redaction` and their inverse
  `unredact_text`. The first two replace every word-bounded, case-insensitive
  occurrence of each recognised entity by its tag.
- **Editor window.** Redacting or deleting a selected span, and replaying
  the stored redactions on a new e-mail. It also deanonymizes text by looking
  up every `<ANON_xxxxxxxx>` token in the table.

Modules and files:

- `text.dfy`: `Optional` and `Text`, with Python's whitespace and line-break
  sets, `'\n'.join(s.splitlines())` and subsequences.
- `tags.dfy`: `Tags`, the tag format, minting and `re.findall` of tags.
- `store.dfy`: `Store`, the table as a class holding a `map`, and
  get-or-create.
- `matching.dfy`: `Matching`, the one substitution scanner behind `re.sub`,
  `pattern.subn` and `str.replace`. It has three modes:
  - literal
  - case-insensitive
  - case-insensitive with `\b`
- `cleaning.dfy`: `Cleaning`, `clean_text`.
- `redactor.dfy`: `Redactor`, `redact_text`, `apply_redaction` and
  `unredact_text`.
- `deanon.dfy`: `Deanonymizing`, what `perform_deanonymization` replaces.
- `editing.dfy`: `Editing`, the manual "all instances" edits as values.
- `window.dfy`: `Window`, the editor widget and main window as classes over
  the shared table, and the grouping of selected entities.
- `findings.dfy`: `EscapedSelection`, the pattern the manual edits compile
  (see Findings).

Modelling choices:

- **Randomness.** The random part of a tag (`uuid4().hex[:8]`) is a
  parameter of type `HexBody`: any eight lower-case hexadecimal digits.
  Freshness of a minted tag is stated as a hypothesis of the lemmas that
  need it.
- **Truthiness.** Python's truth tests are modelled as written. An empty
  stored tag or original counts as absent.
- **Order.** SQLite's row order and Python's dictionary order are not
  modelled:
  - Entities come as a sequence of groups.
  - The list of stored originals is any listing of the keys.
  - `get_original` returns any row holding the tag.
- **Manual matching.** app.py and ui.py implement the same window. ui.py
  additionally rebuilds the document's line breaks before matching.
  `Window.MainWindow` covers both with the flag `normalizeDocument`.
  - The manual edits compile the escaped selection without `IGNORECASE`, so
    they are modelled as literal, case-sensitive, leftmost, non-overlapping
    replace-all with a count.
  - The `\s*` relaxation around line breaks never applies to a real line
    break, so it is not part of that model. It does fire on a selected
    backslash followed by `n`. The model uses the corrected literal match
    there (see Findings and Left out).
- **Automatic re-application.** `apply_automatic_redaction` uses no word
  boundaries, unlike `redact_text`. The model follows the code.
- **Qt's `selectedText()`.** It hands a multi-line selection over with
  U+2029 in place of each `\n`. So the context-menu redaction stores the
  original with U+2029 in it.
- **Markup removal is a single pass.** `clean_text` removes each
  `<...>` match once, so markup can remain afterwards: `<a<b>>` becomes
  `<a>` (`Cleaning.StripTagsMayLeaveMarkup`).
- **A successful ui.py edit can end with a line break.** It leaves only
  plain `\n` line breaks. It can still end with one, because the edit may
  delete what followed it (`Editing.NormalizedEditMayEndWithBreak`).

## Model

| member | source | states |
|---|---|---|
| Text.JoinLines | app.py:522 | rebuilding line breaks never lengthens the text and leaves only `\n` as a line break |
| Text.JoinLinesIdentity | app.py:522 | text whose only breaks are `\n` and that does not end in one is left as it is |
| Tags.MintTag | redactor.py:59 | a minted tag has exactly the 15-character form the deanonymizer's pattern accepts, with the random body in positions 6-13 |
| Tags.MintTagInjective | app.py:530 | different random bodies give different tags |
| Tags.TagHasOneOpen | app.py:618 | a tag starts with `<` and holds no other `<` |
| Tags.TagHasNoBackslash | redactor.py:59 | a minted tag holds no backslash, so `re.sub` inserts it without expanding any escape |
| Tags.TagsDoNotOverlap | app.py:618 | two tags found in one text are at least a tag's length apart |
| Tags.FindTags | app.py:618 | everything `findall` returns has the tag form |
| Tags.FoundTagsOccur | app.py:618 | every found tag occurs in the text at or after the scan position |
| Tags.FindTagsComplete | app.py:618 | every tag occurring in the text is found: the scan never skips one |
| Tags.FindTagsEmpty | app.py:618 | `findall` returns nothing exactly when no substring of the text has the tag form |
| Tags.MintedTagFound | app.py:178 | a tag minted by the editor is found by the deanonymizer wherever it is placed in a text |
| Store.RedactionDatabase.Open | redactor.py:7-17 | opening the store gives the rows stored before |
| Store.RedactionDatabase.AddRedaction | redactor.py:19-21 | after insert-or-replace, the lookup of the original gives the new tag and every other lookup is unchanged |
| Store.RedactionDatabase.GetTag | redactor.py:23-26 | None exactly when no row has that original, else that row's tag |
| Store.RedactionDatabase.GetOriginal | redactor.py:28-31 | None exactly when no row holds the tag, else an original whose row holds it |
| Store.RedactionDatabase.GetAllRedactedItems | redactor.py:33-35 | exactly the stored originals, each once, because the original is the primary key |
| Store.RedactionDatabase.GetOrCreate | redactor.py:56-61 | the tag handed out is the stored non-empty tag or the minted one, and the table is written only when a tag was minted |
| Store.GetOrCreateStable | redactor.py:56-61 | afterwards the original maps to the tag handed out, all other rows are as before, and a second get-or-create returns the same tag and writes nothing |
| Store.GetOrCreateReuses | app.py:176-179 | a stored non-empty tag is reused and the table is not written |
| Store.GetOrCreateKeepsTagsUnique | app.py:528-531 | minting a tag no row holds keeps every tag pointing to one original |
| Store.GetOrCreateWellFormed | redactor.py:57-60 | on a table of well-formed tags, get-or-create hands out a well-formed tag and keeps the table well-formed |
| Store.StoredTagsHaveNoBackslash | app.py:482-484 | in a well-formed table, neither a stored tag nor the tag get-or-create hands out holds a backslash, so `re.sub` inserts it as it is |
| Matching.ReplaceFromNone | app.py:533 | a substitution pass replaces nothing exactly when the pattern matches nowhere, and then copies the text |
| Matching.ReplaceAll | app.py:533 | the length changes by `len(rep) - len(needle)` per substitution; zero substitutions happen exactly when the pattern never occurs, and then the text is unchanged |
| Matching.ReplaceFromLength | app.py:533 | each substitution changes the length by `len(rep) - len(needle)` |
| Matching.ReplaceFromDrawsFrom | app.py:533 | every character of the result comes from the input or from the replacement |
| Matching.ReplaceKeepsNewlineBreaks | ui.py:361 | replacing with text free of foreign line breaks keeps all line breaks plain `\n` |
| Matching.ReplaceFromCopies | redactor.py:67 | where the pattern does not match, the pass copies the text unchanged and counts nothing |
| Matching.LiteralScanIgnoresPrefix | redactor.py:91 | a literal `str.replace` pass over a suffix does not depend on the text before it |
| Matching.ReplaceBackRestores | redactor.py:91 | replacing the replacement back by the needle restores the text when every match was spelled exactly and the replacement's first character is new to the text |
| Matching.DeletingPassDeletes | app.py:564 | a pass with an empty replacement only deletes characters |
| Matching.ReplaceEachAbsent | app.py:481-485 | a sequence of substitutions whose needles never occur leaves the text unchanged |
| Cleaning.StripTagsFromDeletes | redactor.py:42 | removing markup only deletes characters |
| Cleaning.StripTagsFromIdentity | redactor.py:42 | removing markup is the identity on text without `<` |
| Cleaning.BlankRunEnd | redactor.py:44 | a match of the blank-line pattern runs from a newline to a later newline with only whitespace between |
| Cleaning.CollapseFromDeletes | redactor.py:44 | collapsing blank lines only deletes characters |
| Cleaning.CollapseFromIdentity | redactor.py:44 | collapsing blank lines is the identity on text with no two newlines separated only by whitespace |
| Cleaning.BlankRunHasNoNonSpace | redactor.py:44 | a matched blank-line run consists of whitespace only |
| Cleaning.CollapseKeepsNonSpace | redactor.py:44 | collapsing blank lines deletes only whitespace: the non-whitespace characters stay, in order |
| Cleaning.CollapseFromLeavesNoBlankLine | redactor.py:43-44 | after collapsing, no newline is followed by only whitespace and another newline |
| Cleaning.StripTagsMayLeaveMarkup | redactor.py:41-42 | one pass of markup removal can leave markup behind: `<a<b>>` becomes `<a>` |
| Cleaning.LStrip | redactor.py:46 | the suffix of the input left after removing leading characters that are all whitespace; it does not start with whitespace, and is the input itself when the input does not |
| Cleaning.RStrip | redactor.py:46 | the prefix of the input left after removing trailing characters that are all whitespace; it does not end with whitespace, and is the input itself when the input does not |
| Cleaning.TrimmedInTwoSteps | redactor.py:46 | removing leading and then trailing whitespace leaves a slice of the input with only whitespace outside it |
| Cleaning.SliceIsSubsequence | redactor.py:46 | a slice is obtained by deleting characters |
| Cleaning.Strip | redactor.py:46 | the result is a slice of the input with only whitespace outside it and no whitespace at either end (which determines it), is a subsequence of the input, and equals an input without surrounding whitespace |
| Cleaning.TrimmedKeepsNonSpace | redactor.py:46 | a slice with only whitespace outside it keeps every non-whitespace character |
| Cleaning.StripKeepsNonSpace | redactor.py:46 | trimming deletes only whitespace |
| Cleaning.CleanText | redactor.py:40-47 | the cleaned text has no leading or trailing whitespace and no two newlines separated only by whitespace, is obtained by deleting characters, is never longer than the input, and has exactly the non-whitespace characters of the text after markup removal, in order |
| Cleaning.CleaningSteps | redactor.py:40-47 | the same four facts, gathered step by step from the three stages |
| Cleaning.StripKeepsNoBlankLine | redactor.py:46 | trimming text without blank-line runs leaves none |
| Cleaning.CleanTextIdentity | redactor.py:40-47 | text without `<`, without blank-line runs and without surrounding whitespace is left as it is |
| Redactor.RedactText | redactor.py:49-70 | the map has exactly the entities as keys, each with its stored tag or else a minted one; the table gains exactly the map; the text gets one word-bounded case-insensitive substitution per value met; no entities means unchanged text, an empty map and an unchanged table |
| Redactor.RedactingStep | redactor.py:55-67 | one inner iteration keeps the loop's invariant: map, table and text agree with the values met so far |
| Redactor.RedactKeepsTagsUnique | redactor.py:56-61 | with fresh, distinct minted tags, redaction keeps every tag pointing to one original |
| Redactor.RedactKeepsTagsWellFormed | redactor.py:56-61 | every tag redaction hands out or stores has the deanonymizer's form |
| Redactor.AsMapHoldsItems | redactor.py:78 | the stored keys are exactly the items' originals, and each original maps to its own tag |
| Redactor.ApplyRedaction | redactor.py:72-83 | every item is stored by insert-or-replace, and the text gets each item's word-bounded, case-insensitive substitution in turn |
| Redactor.UnredactWithoutTags | redactor.py:85-92 | text holding none of the map's tags (an empty map included) comes back unchanged |
| Redactor.UnredactInvertsRedaction | redactor.py:85-92 | unredacting inverts redacting one item, when the text has no `<` and every redacted occurrence was spelled exactly as the original |
| Deanonymizing.DeanonStepsFromRows | app.py:620-625 | every replacement turns a found tag into the non-empty original whose row holds that tag |
| Deanonymizing.PicksAreTheOriginals | app.py:622 | when tags are unique, the original looked up for a tag is the one it stands for |
| Deanonymizing.TagSurvivesSteps | app.py:620-625 | replacing other tags never removes an occurrence of a given tag |
| Deanonymizing.CountShift | app.py:620-625 | the occurrences of a tag in a text are those in any text it ends, shifted |
| Deanonymizing.CountAppend | app.py:620-625 | gluing two texts loses no occurrence of either |
| Deanonymizing.CountPastOtherTag | app.py:625 | an occurrence of one tag holds no occurrence of another |
| Deanonymizing.CountPastTag | app.py:625 | an occurrence of a tag counts once and no other occurrence starts inside it |
| Deanonymizing.TagCountKeptFrom | app.py:625 | replacing one tag by its original loses no occurrence of any other tag |
| Deanonymizing.TagCountKeptSteps | app.py:620-625 | replacing other tags in turn loses no occurrence of a given tag |
| Deanonymizing.UnknownTagSurvives | app.py:620-625 | a well-formed tag that no row holds occurs in the deanonymized text at least as often as in the input, so it still occurs if it did |
| Deanonymizing.EveryTagOccurrenceReplaced | app.py:625 | replacing a tag puts the original in place of every occurrence, since tags never overlap |
| Editing.SelectedText | app.py:175 | the selection as Qt hands it over has the same length and no `\n` |
| Editing.SelectedTextRejoins | app.py:522 | rebuilding the line breaks of a selection gives the same needle as for the plain text (absent `\r`) |
| Editing.ReplaceSelection | ui.py:343-365 | an empty selection does nothing; the document changes exactly when the normalised selection occurs; when it does not, the document is as before; a change has a positive count and length doc + count times (len(rep) - len(needle)) |
| Editing.TableAfterRedactAll | app.py:528-531 | the normalised selection gets its get-or-create tag and every other row is unchanged |
| Editing.DeleteOnlyDeletes | app.py:564 | deleting all instances only removes characters |
| Editing.TagHasNoLineBreak | app.py:530 | a tag contains no line break of any kind |
| Editing.NormalizedEditHasPlainBreaks | ui.py:351-367 | a successful edit in the ui.py variant leaves only `\n` line breaks |
| Editing.NormalizedRedactAllHasPlainBreaks | ui.py:351-367 | a successful "redact all" in the ui.py variant, with a tag from a well-formed table, leaves only `\n` line breaks |
| Editing.NormalizedEditMayEndWithBreak | ui.py:383-395 | a successful edit in the ui.py variant may still end with a line break |
| Editing.RedactionUndoneByTagReplace | app.py:533 | replacing the tag back by the selection restores the matched document when it held no `<` |
| Window.RedactingTextEdit.RedactSelectedText | app.py:172-180 | without a selection nothing changes; with one, the selected text gets its stored or minted tag, the tag replaces exactly the selection, and the cursor ends after it |
| Window.AutoStepsAreRows | app.py:480-485 | every automatic replacement is a stored original by its own non-empty tag |
| Window.MainWindow.RestoreCursor | app.py:541 | the cursor returns to its old position, or to the end of a document that became shorter |
| Window.MainWindow.RedactAllInstances | app.py:512-545 | an empty selection is a no-op; otherwise the table gets the tag before matching, so also on zero matches; the outcome and document are those of replacing the normalised selection by that tag; an edit without matches leaves the document and cursor as they were |
| Window.MainWindow.DeleteAllInstances | app.py:547-576 | the same with an empty replacement; the table is never touched |
| Window.MainWindow.HandleTextSelection | app.py:503-510 | a Shift selection deletes all instances, any other redacts them |
| Window.MainWindow.ApplyAutomaticRedaction | app.py:477-486 | only reads the table; each stored original with a non-empty tag is replaced case-insensitively in listing order; text holding none of the stored originals (in particular when the table is empty) comes back unchanged |
| Window.MainWindow.PerformDeanonymization | app.py:613-627 | each found tag is looked up, every tag with a non-empty original is replaced by it, and text holding no tag comes back unchanged |
| Window.GroupEntities | app.py:459-464 | the categories are exactly those selected, each with exactly the values selected under it |
| Window.FlattenHolds | redactor.py:54-55 | the values met are exactly those of the groups |
| Window.GroupedEntitiesAreSelected | app.py:459-466 | however the grouped dictionary is listed, the entities redaction meets are exactly the selected values |
| EscapedSelection.LiteralPatternMatchesExactly | app.py:525 | the literal pattern of a selection matches exactly that selection |
| EscapedSelection.AsWrittenIsLiteralWithoutBackslashN | app.py:525 | without a backslash followed by `n`, the compiled pattern is the literal one |
| EscapedSelection.LineBreakAtomNeedsLineBreak | app.py:525 | a compiled pattern holding a line-break atom only matches text holding a line break |
| EscapedSelection.AsWrittenMissesItsOwnSelection | app.py:525-537 | the selection `C:\new` occurs literally in itself, yet its compiled pattern matches no part of it |
| EscapedSelection.CorrectedFindsSelection | app.py:522-533 | with literal matching, a non-empty selection is always found in a document containing it |

## Left out

- The SQLite connection, its commits and `close` (redactor.py:8-17,
  37-38): the table is an in-memory map.
- The order in which SQLite and Python dictionaries list rows and keys: every
  order is allowed.
- The randomness of `uuid4`. Only 32 bits of it are kept, so collision
  freedom cannot be proved. It is a hypothesis of
  `Redactor.RedactKeepsTagsUnique` and `Store.GetOrCreateKeepsTagsUnique`.
- Unicode case folding and Unicode `\w`: folding and word characters are
  ASCII.
- Entity recognition (utils.py is not part of this model). The grouped
  entities are an input.
- The OpenAI worker, threads and the summary conversation: these are network
  calls.
- Qt widgets: mouse events, menus, dialogs, message boxes, drag and drop,
  and scroll restoration. Message boxes become the returned `Outcome`.
- Qt's own cursor readjustment after `setPlainText`: the model places the
  cursor as app.py:541 requests.
- Non-breaking spaces and other characters that `selectedText()` maps
  besides line breaks.
- `.eml` parsing, charset decoding and saving to a file: these are I/O.
- The general regular-expression engine: only the three matching modes the
  engine uses are modelled.
- Redactor.UnredactInvertsRedaction: the round trip is proved for one item
  with exactly spelled occurrences and no `<` in the text. A case-insensitive
  match forgets the original spelling, so no stronger property holds. It is
  one item because a later original can match inside an earlier item's tag.
  For example, the original `>` matches a tag's closing bracket when a word
  character follows the tag, and then unredaction no longer finds the tag.
- ApplyRedaction (Redactor.ApplyRedaction): the tags it is given are
  inserted literally. `re.sub` reads its replacement as a template: it
  expands escapes such as `\n`, resolves group references such as `\1`, and
  rejects unknown escapes with `re.error`. The two agree exactly when the tags
  hold no backslash. That is true of every minted tag
  (`Tags.TagHasNoBackslash`), but the caller of `apply_redaction` may pass any
  tag.
- RedactText, ApplyAutomaticRedaction and RedactAllInstances
  (Redactor.RedactText, Window.MainWindow.ApplyAutomaticRedaction,
  Window.MainWindow.RedactAllInstances): they insert the table's tags
  literally too. `re.sub` and `pattern.subn` would expand backslash escapes in
  them. This is exact for a well-formed table, whose tags hold no backslash
  (`Store.StoredTagsHaveNoBackslash`). A table holding other tags is not
  modelled.
- ReplaceSelection, RedactAllInstances, DeleteAllInstances and
  HandleTextSelection (Editing.ReplaceSelection,
  Window.MainWindow.RedactAllInstances, Window.MainWindow.DeleteAllInstances,
  Window.MainWindow.HandleTextSelection): these match the line-normalised
  selection literally, which is the corrected pattern. The code compiles the
  escaped selection with every backslash-`n` pair turned into `\s*\n\s*`.
  So the code differs from the model on selections holding a backslash
  followed by `n`: such a selection then needs a line break to match, and
  `C:\new` does not even match itself (see Findings). On all other
  selections the two coincide (`EscapedSelection.AsWrittenIsLiteralWithoutBackslashN`).

## Findings

| source | as written | input that shows it | evidently intended | confidence | as-written member | corrected member |
|---|---|---|---|---|---|---|
| app.py:525 (also app.py:560, ui.py:353, ui.py:385) | the escaped selection has every backslash-`n` pair replaced by `\s*\n\s*`; `re.escape` writes a line break as backslash plus line break, so the pair only arises from a literal backslash followed by `n`, and that pattern then requires a line break | a document `C:\new` with the whole text selected: no match, "No Matches" is reported, and a tag has already been stored for it | the selection matches itself literally; only whitespace around real line breaks was meant to be relaxed | not executed; high: follows from Python's `re.escape` and `str.replace` semantics | EscapedSelection.AsWrittenMissesItsOwnSelection | EscapedSelection.CorrectedFindsSelection |
