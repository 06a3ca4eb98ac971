# PixelSınav panel state, in Dafny

A model of the client-side state logic of the PixelSınav admin panel and
exam catalogue. Every React state update becomes a pure function from the
old state to the new one.

- **Exam question editor** (`ExamEditor`, `exam_editor.dfy`). This is the "add exam" page: an ordered list of
  multiple-choice questions. The page allows at most 10 questions, 3 to 5 answer options
  per question and 150 XP of points in total. The model covers:
  - adding and removing questions and options;
  - editing a question's text, points or options;
  - editing an option;
  - choosing the correct option.

  Every session of handlers keeps the bounds that do not involve points (`WellShaped`):
  at most 10 questions with distinct ids, and 3 to 5 options with distinct ids each.
  This holds with the points guard as written and with the corrected one. With the
  corrected points guard (see "Findings"), every session also keeps the points within
  the budget (`Valid`). With the guard as written it does not.
- **Category slug** (`CategorySlug`, `category_slug.dfy`). This is `generateSlug` of the "add category"
  page. The model applies `toLowerCase` and the six Turkish-letter replacements as one
  per-character map (`Fold`). This gives the same result as the chain of calls, because no
  replacement produces a letter that a later one consumes. The model then applies each
  remaining `replace` (mask, collapse, trim) as its own step. It proves that the result equals an independent definition: the maximal
  letter-and-digit runs of the folded name, joined with single dashes.
- **Lesson section contents** (`SectionContents`, `section_contents.dfy`). This is the id → markdown store
  of the lesson-contents page and the modal that loads, edits and saves one
  section.
- **Exam catalogue filter** (`ExamCatalogue`, `exam_catalogue.dfy`). This is the search box and three
  selectors of the public exam list, plus the "no results" message.
- **Panel sidebar** (`PanelSidebar`, `panel_sidebar.dfy`). This is the collapsed flag and the
  list of expanded menu items.

The shared pieces are:
- `Wrappers.Option`.
- `Sequences`: the order-preserving `Filter` that plays the role of
  `Array.prototype.filter`, with its lemmas.
- `Text`: the part of `String.prototype.toLowerCase` the pages rely on, `includes` as
  `Contains`, and the decimal rendering `Stamp` of a `Date.now()` reading.

The model follows the code:
- `removeQuestion` enforces no minimum number of questions.
- Nothing is renumbered after a removal. The questions carry no order field.
- The only XP ceiling in the modelled files is the exam editor's 150 XP
  (`pages/panel/exams/add.tsx:32`). Lesson-level XP limits are not part of this model.

## Model

| member | source | states |
|---|---|---|
| ExamEditor.Total | pages/panel/exams/add.tsx:38 | the sum of all questions' points, 0 for none; a definition without a contract, described by TotalConcat, TotalSplit and TotalReplace |
| ExamEditor.Remaining | pages/panel/exams/add.tsx:39 | 150 minus the total; a definition without a contract, used by AddQuestion |
| ExamEditor.AddDisabled | pages/panel/exams/add.tsx:42-43 | holds exactly when there are 10 questions or no budget is left, the condition that also disables the button at line 266; AddQuestion states that the list is then unchanged |
| ExamEditor.TotalConcat | pages/panel/exams/add.tsx:38 | the XP total of two lists put together is the sum of their totals |
| ExamEditor.TotalReplace | pages/panel/exams/add.tsx:38 | replacing one question changes the total by exactly the difference of the two point values |
| ExamEditor.TotalSamePoints | pages/panel/exams/add.tsx:38 | two lists with the same points position by position have the same total |
| ExamEditor.TotalFilterLe | pages/panel/exams/add.tsx:38 | dropping questions whose points are non-negative never raises the total |
| ExamEditor.FindIndex | pages/panel/exams/add.tsx:65 | `find` by id: None exactly when no question has the id, otherwise the first position holding it |
| ExamEditor.FindIndexUnique | pages/panel/exams/add.tsx:65 | with distinct ids, finding the id of position k yields k |
| ExamEditor.NewQuestion | pages/panel/exams/add.tsx:46-56 | a new question has the clock reading as its id, empty text and the given points; it has exactly 3 options with empty text and distinct ids, and only the first is correct |
| ExamEditor.AddQuestion | pages/panel/exams/add.tsx:41-58 | nothing changes exactly when there are 10 questions or no budget is left; otherwise one new question worth min(10, remaining) points (between 1 and 10) is appended after the unchanged list; the 10-question and 150-XP bounds are kept |
| ExamEditor.AddQuestionKeepsShape | pages/panel/exams/add.tsx:41-58 | with an unused clock reading, adding a question keeps the count, id and option bounds, whatever the points |
| ExamEditor.AddQuestionKeepsValid | pages/panel/exams/add.tsx:41-58 | with an unused clock reading, adding a question keeps every bound of the page |
| ExamEditor.RemoveQuestion | pages/panel/exams/add.tsx:60-62 | the result holds exactly the questions whose id differs, in their original order (a subsequence) |
| ExamEditor.RemoveQuestionAt | pages/panel/exams/add.tsx:60-62 | with distinct ids, removing the id at position k deletes exactly that position |
| ExamEditor.RemoveQuestionAbsent | pages/panel/exams/add.tsx:60-62 | removing an id nobody has leaves the list unchanged |
| ExamEditor.AddThenRemoveQuestion | pages/panel/exams/add.tsx:41-62 | removing the question just added restores the list |
| ExamEditor.RemoveQuestionKeepsShape | pages/panel/exams/add.tsx:60-62 | removing a question keeps the count, id and option bounds |
| ExamEditor.RemoveQuestionKeepsValid | pages/panel/exams/add.tsx:60-62 | removing a question keeps every bound, the budget included |
| ExamEditor.EditMatching | pages/panel/exams/add.tsx:138-140 | the `map`: same length and ids; questions with the id get the edited field and questions with another id are untouched |
| ExamEditor.EditMatchingAt | pages/panel/exams/add.tsx:138-140 | with distinct ids, editing the id at position k replaces that position only |
| ExamEditor.OthersTotalAt | pages/panel/exams/add.tsx:130-131 | with distinct ids, `otherQuestionsXP` for question k is the total minus its own points |
| ExamEditor.UpdateQuestionAsWritten | pages/panel/exams/add.tsx:127-141 | the handler as written: a points edit whose value plus the other questions' points passes 150 changes nothing; otherwise every question with the id gets the edited field; length, ids and the other questions are always kept |
| ExamEditor.AsWrittenPointsEdit | pages/panel/exams/add.tsx:127-141 | as written, any value (negative ones included) that keeps the others plus the value within 150 is stored at position k |
| ExamEditor.AsWrittenExceedsBudget | pages/panel/exams/add.tsx:127-141 | as written, the steps set "2" to -100, set "1" to 240 and remove "2" turn a valid list of two 10-point questions into a 240-XP list; the corrected handler refuses the first step |
| ExamEditor.UpdateQuestion | pages/panel/exams/add.tsx:127-141 | a refused edit changes nothing; otherwise exactly the questions with the id get the new field, and all ids and the length are kept |
| ExamEditor.UpdatePointsBudget | pages/panel/exams/add.tsx:128-135 | with the corrected points guard, setting question k's points to v is accepted if and only if v >= 1 and the total with v in place is at most 150; the new total is then exactly that |
| ExamEditor.UpdateAbsentId | pages/panel/exams/add.tsx:127-141 | an id nobody has: the map changes nothing and the other questions' points are the whole total |
| ExamEditor.UpdateQuestionKeepsShape | pages/panel/exams/add.tsx:127-141 | under either guard, a text, points or shape-keeping options edit keeps the count, id and option bounds |
| ExamEditor.UpdateQuestionKeepsValid | pages/panel/exams/add.tsx:127-141 | a text edit, a points edit or an options edit that keeps 3 to 5 distinct options preserves every bound |
| ExamEditor.AddOption | pages/panel/exams/add.tsx:64-81 | a missing question, or a found one that already has 5 options, changes nothing; a found question with fewer than 5 options gets one empty, incorrect option with the clock reading as its id, appended after its options; other questions and all ids, texts and points are untouched |
| ExamEditor.AddOptionKeepsShape | pages/panel/exams/add.tsx:64-81 | with an unused clock reading, adding an option keeps at most 5 options with distinct ids |
| ExamEditor.AddOptionKeepsValid | pages/panel/exams/add.tsx:64-81 | with an unused clock reading, adding an option keeps every bound |
| ExamEditor.RemoveOption | pages/panel/exams/add.tsx:83-96 | a missing question, or one with only 3 options, is left alone; otherwise the found question's options with the id are filtered out; other questions are untouched |
| ExamEditor.RemoveOneOption | pages/panel/exams/add.tsx:91 | with distinct option ids, filtering an id removes at most one option and nothing when the id is absent |
| ExamEditor.RemoveOptionKeepsShape | pages/panel/exams/add.tsx:83-96 | removing an option keeps at least 3 options with distinct ids |
| ExamEditor.RemoveOptionKeepsValid | pages/panel/exams/add.tsx:83-96 | removing an option never leaves fewer than 3, and keeps every bound |
| ExamEditor.AddThenRemoveOption | pages/panel/exams/add.tsx:64-96 | on a list within the count, id and option bounds (whatever its points), removing the option just added restores the question list |
| ExamEditor.UpdateOption | pages/panel/exams/add.tsx:143-155 | the options with the id, in questions with the id, get the edited field, and no other option changes; all ids, counts, texts and points of questions are kept; a missing question changes nothing. The edit can set the text or the correct flag; the page calls it only for the text (line 368), and the flag case is kept for completeness |
| ExamEditor.UpdateOptionAbsent | pages/panel/exams/add.tsx:143-155 | an option id the question does not have leaves the list unchanged |
| ExamEditor.UpdateOptionKeepsShape | pages/panel/exams/add.tsx:143-155 | editing an option keeps the count, id and option bounds |
| ExamEditor.UpdateOptionKeepsValid | pages/panel/exams/add.tsx:143-155 | editing an option keeps every bound |
| ExamEditor.MarkOnly | pages/panel/exams/add.tsx:349-352 | the re-marked options keep ids and texts, and an option is correct if and only if it has the chosen id |
| ExamEditor.SelectCorrect | pages/panel/exams/add.tsx:348-354 | questions with another id are untouched; the questions with the clicked question's id get its re-marked options, with everything else kept |
| ExamEditor.SelectCorrectMarks | pages/panel/exams/add.tsx:348-354 | choosing an option changes only that question's correctness flags, marking exactly the options with the chosen id |
| ExamEditor.SelectCorrectExactlyOne | pages/panel/exams/add.tsx:348-354 | with distinct option ids, exactly one option is correct afterwards |
| ExamEditor.SelectCorrectKeepsShape | pages/panel/exams/add.tsx:348-354 | choosing the correct option keeps the count, id and option bounds |
| ExamEditor.SelectCorrectKeepsValid | pages/panel/exams/add.tsx:348-354 | choosing the correct option keeps every bound |
| ExamEditor.StepKeepsValid | pages/panel/exams/add.tsx:41-155 | with the corrected points guard, each handler called with an unused clock reading keeps every bound |
| ExamEditor.TwoQuestionsValid | pages/panel/exams/add.tsx:41-58 | two additions at clock readings 1 and 2 give two 10-point questions "1" and "2", a valid list |
| ExamEditor.RunKeepsValid | pages/panel/exams/add.tsx:41-155 | with the corrected points guard, every session of handler calls whose clock readings are unused keeps at most 10 questions, 3 to 5 options with distinct ids each, at least 1 point per question and at most 150 XP |
| ExamEditor.StepKeepsShape | pages/panel/exams/add.tsx:41-155 | under either points guard, the page's own included, each handler called with an unused clock reading keeps the count, id and option bounds |
| ExamEditor.RunKeepsShape | pages/panel/exams/add.tsx:41-155 | under either points guard, the page's own included, every session with unused clock readings keeps at most 10 questions with distinct ids, each with 3 to 5 options with distinct ids |
| ExamEditor.ExceedingRun | pages/panel/exams/add.tsx:60-62 | under the guard as written, the three-action session "2" to -100, "1" to 240, remove "2" makes exactly those three handler calls |
| ExamEditor.AsWrittenSessionLeavesBudget | pages/panel/exams/add.tsx:127-141 | under the guard as written, that session starts from a valid list and keeps the shape bounds, but ends outside the budget |
| Text.LowerChar | pages/panel/categories/add.tsx:51 | A-Z map to a-z; Ç Ğ Ö Ş Ü map to ç ğ ö ş ü; İ maps to i plus a combining dot; every other character stays |
| Text.Lower | pages/panel/categories/add.tsx:51 | lowercasing never shortens a string; it works character by character, as LowerConcat states |
| Text.Contains | pages/exams.tsx:53-55 | `includes`: the substring occurs as a contiguous block at some position; ContainsEmpty and ContainsSelf give its edge cases |
| Text.LowerConcat | pages/panel/categories/add.tsx:51 | lowercasing works character by character: it distributes over concatenation |
| Text.LowerIdempotent | pages/exams.tsx:53-55 | lowercasing twice is lowercasing once |
| Text.LowerKeeps | pages/panel/categories/add.tsx:51 | lower-case ASCII letters, digits and '-' are left unchanged by lowercasing |
| Text.Stamp | pages/panel/exams/add.tsx:47 | the decimal rendering of a clock reading is a non-empty string of digits |
| CategorySlug.FoldTurkish | pages/panel/categories/add.tsx:52-57 | ğ ü ş ı ö ç map to g u s i o c, and every other character is unchanged |
| CategorySlug.Fold | pages/panel/categories/add.tsx:50-57 | after lowercasing and the six replacements, no Turkish lower-case letter remains, and every other character of the lowercased name stays in place |
| CategorySlug.TurkishLetters | pages/panel/categories/add.tsx:51-57 | Ğ ğ, Ü ü, Ş ş, Ö ö, Ç ç and ı fold to ASCII letters; İ folds to i followed by a combining dot, which is then masked |
| CategorySlug.Mask | pages/panel/categories/add.tsx:58 | every character outside a-z0-9 becomes '-', and kept characters stay in place |
| CategorySlug.Collapse | pages/panel/categories/add.tsx:59 | no two adjacent dashes remain; the alphabet and the first and last character are kept |
| CategorySlug.DropFirstDash | pages/panel/categories/add.tsx:60 | the `^-` alternative removes the first character exactly when it is a dash |
| CategorySlug.DropLastDash | pages/panel/categories/add.tsx:60 | the `-$` alternative removes the last character exactly when it is a dash |
| CategorySlug.Trim | pages/panel/categories/add.tsx:60 | after collapsing, stripping one dash at each end leaves no dash at either end |
| CategorySlug.Slug | pages/panel/categories/add.tsx:49-61 | the slug uses only a-z, 0-9 and '-', has no double dash and no dash at either end |
| CategorySlug.FoldFixed | pages/panel/categories/add.tsx:50-57 | lowercasing and folding leave slug-alphabet strings unchanged |
| CategorySlug.MaskFixed | pages/panel/categories/add.tsx:58 | masking leaves slug-alphabet strings unchanged |
| CategorySlug.CollapseFixed | pages/panel/categories/add.tsx:59 | collapsing leaves a string without double dashes unchanged |
| CategorySlug.TrimFixed | pages/panel/categories/add.tsx:60 | trimming leaves a string without edge dashes unchanged |
| CategorySlug.SlugIdempotent | pages/panel/categories/add.tsx:49-61 | the slug of a slug is the slug itself |
| CategorySlug.PiecesMask | pages/panel/categories/add.tsx:58 | masking does not move the boundaries between letter-digit runs |
| CategorySlug.WordsCollapse | pages/panel/categories/add.tsx:59 | collapsing dash runs keeps the letter-digit runs |
| CategorySlug.WordsTrim | pages/panel/categories/add.tsx:60 | trimming edge dashes keeps the letter-digit runs |
| CategorySlug.SlugIsJoinOfWords | pages/panel/categories/add.tsx:49-61 | a slug is its own letter-digit runs joined with single dashes |
| CategorySlug.SlugIsWordsJoined | pages/panel/categories/add.tsx:49-61 | the slug of a name is exactly the maximal letter-digit runs of the folded name, in order, joined with single dashes |
| CategorySlug.FoldExample | pages/panel/categories/add.tsx:50-57 | "Çağ Öğün" lowercases and folds to "cag ogun" |
| CategorySlug.SlugExample | pages/panel/categories/add.tsx:49-61 | "Çağ Öğün" has the slug "cag-ogun" |
| CategorySlug.NameChanged | pages/panel/categories/add.tsx:63-66 | typing a name sets the slug field to a well-formed slug made of the name's letter-digit runs |
| SectionContents.Lookup | pages/panel/lessons/contents.tsx:103-105 | the content of the first entry with the id, or "" when there is none |
| SectionContents.Replace | pages/panel/lessons/contents.tsx:87-89 | same length and ids; entries with the id get the new content, all others are untouched |
| SectionContents.Upsert | pages/panel/lessons/contents.tsx:84-92 | for an existing id, the entries with that id get the new content in place and every other entry, the ids and the length are kept; a new id is appended at the end |
| SectionContents.LookupReplace | pages/panel/lessons/contents.tsx:84-92 | after an in-place update, the id reads the new content and other ids read what they read before |
| SectionContents.LookupAppend | pages/panel/lessons/contents.tsx:91 | appending an entry is visible only for a new id |
| SectionContents.LookupUpsert | pages/panel/lessons/contents.tsx:84-92 | after saving, the saved id reads the new content and every other id reads what it read before |
| SectionContents.UpsertKeepsUnique | pages/panel/lessons/contents.tsx:84-92 | saving keeps section ids distinct |
| SectionContents.HasSelection | pages/panel/lessons/contents.tsx:82 | a section counts as selected when one is set and its id is not empty, the truthiness test of `!selectedSection`; Save states what follows |
| SectionContents.ModalVisible | pages/panel/lessons/contents.tsx:232 | the modal is on screen when it is open and a section is selected; CloseModal states that closing hides it |
| SectionContents.HandleSectionClick | pages/panel/lessons/contents.tsx:74-79 | opening a section loads its stored content (or "") into the text area, selects it and opens the modal, touching nothing else |
| SectionContents.CardClick | pages/panel/lessons/contents.tsx:197 | in preview mode a click does nothing; otherwise it opens the section |
| SectionContents.EditBuffer | pages/panel/lessons/contents.tsx:265 | typing changes only the text area |
| SectionContents.CloseModal | pages/panel/lessons/contents.tsx:241 | closing hides the modal and keeps the selection and the text |
| SectionContents.TogglePreview | pages/panel/lessons/contents.tsx:185 | the button flips preview mode and nothing else |
| SectionContents.SelectLesson | pages/panel/lessons/contents.tsx:119 | choosing a lesson changes only the chosen lesson |
| SectionContents.Save | pages/panel/lessons/contents.tsx:81-97 | with no selection (none, or the empty id) nothing happens; otherwise the text is upserted under the selected id, the modal closes and the selection and text are cleared |
| SectionContents.SaveStoresBuffer | pages/panel/lessons/contents.tsx:81-97 | after a save, the selected section reads the saved text and every other section is unchanged |
| SectionContents.ClickThenSaveChangesNothing | pages/panel/lessons/contents.tsx:74-97 | opening a section and saving without typing leaves every section's content as it was |
| SectionContents.RunKeepsUniqueIds | pages/panel/lessons/contents.tsx:74-105 | in any session, no two stored entries share a section id |
| Sequences.Filter | pages/exams.tsx:52-64 | `Array.prototype.filter`: never longer than its input; FilterMembers, FilterIsSubsequence and FilterConcat state that it keeps exactly the accepted elements, in order |
| Sequences.FilterMembers | pages/exams.tsx:52-64 | every output element is an input element that passes, and every passing input element is in the output |
| ExamCatalogue.FilteredExams | pages/exams.tsx:52-64 | the listed exams are exactly the catalogue's exams meeting all four conditions, in catalogue order |
| ExamCatalogue.Matches | pages/exams.tsx:52-63 | the conjunction of the four conditions: case-insensitive search, exact category, exact difficulty, and type contained in the title, with "Tümü" accepting all; FilteredExams states the listing it induces |
| ExamCatalogue.NoResultsShown | pages/exams.tsx:132 | the message shows when the filtered list is empty; NoResultsExactly states it in terms of the criteria |
| ExamCatalogue.NoResultsExactly | pages/exams.tsx:132 | the "no results" message shows if and only if no exam meets the criteria |
| ExamCatalogue.FilteredConcat | pages/exams.tsx:52-64 | filtering distributes over concatenation, so order is kept |
| ExamCatalogue.DefaultShowsAll | pages/exams.tsx:47-64 | in the initial state (empty search, every selector on "Tümü") every exam is listed in order |
| ExamCatalogue.FilterTwice | pages/exams.tsx:52-64 | filtering the listed exams again changes nothing |
| ExamCatalogue.SearchIgnoresQueryCase | pages/exams.tsx:53-55 | a query and its lower-case form list the same exams |
| ExamCatalogue.SelectorsExact | pages/exams.tsx:56-59 | a category or difficulty other than "Tümü" lists only exams with exactly that value |
| ExamCatalogue.TypeIsCaseSensitive | pages/exams.tsx:53-61 | the search box ignores case and the type selector does not: a title "tyt" matches the query "TYT" but not the type "TYT" |
| PanelSidebar.ToggleSubItems | components/layout/panelSidebar.tsx:58-64 | the toggled label's membership flips; every other label's membership is kept; a new label goes at the end; a removal gives a shorter subsequence; duplicates never appear |
| PanelSidebar.ToggleTwice | components/layout/panelSidebar.tsx:58-64 | toggling twice restores the expanded set, and restores the exact list when the label started collapsed |
| PanelSidebar.ToggleSidebar | components/layout/panelSidebar.tsx:53-56 | collapsing or reopening flips the flag and empties the expanded list |
| PanelSidebar.ClickItem | components/layout/panelSidebar.tsx:92 | a plain link changes nothing; an item with sub-items toggles its label, collapsed or not |
| PanelSidebar.SubItemsVisible | components/layout/panelSidebar.tsx:120 | sub-items show when the sidebar is open, the item has sub-items and its label is expanded; ClickFlipsVisibility and ToggleSidebarHidesAll state how clicks change it |
| PanelSidebar.ClickFlipsVisibility | components/layout/panelSidebar.tsx:92-120 | in an open sidebar, a click shows the item's sub-items if and only if they were hidden, and leaves items with other labels as they were |
| PanelSidebar.ToggleSidebarHidesAll | components/layout/panelSidebar.tsx:53-120 | after the collapse button no item's sub-items are visible |
| PanelSidebar.RunKeepsNoDup | components/layout/panelSidebar.tsx:53-64 | in any session, no label is listed twice as expanded |

## Left out

- The `image` field of a question, `selectedImage`, drag-and-drop and the file input (`handleDrag`, `handleDrop`, `handleImageChange`): they concern browser files and object URLs.
- The exam title, category, description and duration fields and all form submission: they are uncontrolled inputs with no state logic.
- `parseInt` of a cleared points input yields NaN. Points are modelled as integers, so NaN, IEEE comparison with NaN and the string-to-number step are not modelled.
- ExamEditor.AddQuestion: `addQuestion` calls `Date.now()` once for the question id (line 47) and once for each of the three option ids (line 51, inside the `map`); `addOption` calls it once more (line 73). The model takes one clock reading per handler call, passed in as a parameter, so all ids of one new question share it. Distinct clock readings are a precondition of the session lemma (`FreshClock`), not a fact about the clock.
- Text.Lower: covers ASCII A-Z, Ç Ğ Ö Ş Ü and İ. Other characters that `toLowerCase` changes (other scripts, the Kelvin sign) are left as they are, because the model has no Unicode case tables.
- Rendering: animations, icons, class names, and the markdown preview in the lesson modal.
- The label of the filter buttons and the exam cards of the catalogue page.
- The mock lesson and exam data. The model works on any list.
- ExamCatalogue.SearchIgnoresQueryCase: it holds only as far as `Text.Lower` models lowercasing.

## Findings

| source | as written | input that shows it | evidently intended | confidence | as-written member | corrected member |
|---|---|---|---|---|---|---|
| pages/panel/exams/add.tsx:127-141 | a points edit is refused only when the other questions' points plus the new value pass 150, so negative values are stored | two 10-point questions "1" and "2"; set "2" to -100 (others 10, accepted); set "1" to 240 (others -100, accepted); remove "2": total 240 > 150 | the value is also refused below the input's `min="1"` (line 408), so the 150-XP ceiling holds after every step | medium, not executed | ExamEditor.UpdateQuestionAsWritten (counterexamples: ExamEditor.AsWrittenExceedsBudget, ExamEditor.AsWrittenSessionLeavesBudget) | ExamEditor.UpdateQuestion (proved: ExamEditor.UpdatePointsBudget, ExamEditor.RunKeepsValid) |
