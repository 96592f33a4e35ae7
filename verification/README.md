# A study app's core, modelled in Dafny

This project models the logic of a client-side study app: test profiles with question banks, quizzes, flashcard decks, articles and two word/number games. The rendering is left out; the logic is kept.

The application's state lives in one reducer, `appReducer` in `components/ChatbotView.tsx`. Every screen reads that state and dispatches actions to it. The model follows that structure:

- `Store` and `Types`: the records of `types.ts` and the reducer's state and action types.
- `Reducer`: `appReducer` as a pure `(state, action, env) -> state` function, plus `ReduceAll` for a run of actions.
- `Translate`: the dotted-key lookup with its English fallback, and the `{key}` placeholder substitution.
- One module per screen:
  - `Quiz` (QuizView);
  - `QuestionImport` (the question bank's spreadsheet and JSON importers in SettingsView);
  - `QuestionForm` (CreateEditQuestionView);
  - `Modals` (the message and confirm boxes, and the spreadsheet column mapper);
  - `Wordle` (WordleLvView);
  - `NumberCruncher` (NumberCruncherView);
  - `FlashcardStudy`;
  - `ArticlesList`;
  - `Stats`.
- Shared helpers:
  - `Strings`: JavaScript's `trim`, `includes`, `indexOf`, `split`, `parseInt(s, 10)`, the radix-less `parseInt(s)` and `String(n)`, and `toLowerCase`/`toUpperCase` on the Latin and Cyrillic letters the app's languages use;
  - `Seqs`: `filter` and in-place `map`;
  - `Shuffle`: the Fisher–Yates `shuffleArray`;
  - `Wrappers`: `Option`.

A handler that dispatches returns the actions it dispatches; running them through `Reducer.ReduceAll` gives the next state.

Everything outside the reducer's inputs is a parameter:

- the clock is an `Env(now, freshId)` or an elapsed-milliseconds integer;
- each `Math.random()` call reads the next entry of a `seq<nat>` of draws;
- the translation tables are a `LanguagePacks` value;
- the contents of the unseen `constants.ts` are configuration records: the default settings, `MAX_FORM_OPTIONS`, the error cap, the word list and the Wordle sizes, and the mapping fields.

## Model

| member | source | states |
|---|---|---|
| Store.InitialState | components/ChatbotView.tsx:96-118 | The initial state is on the home screen with empty profiles, decks, articles and progress, the default general settings, no selection and every modal closed. The message and confirm contents have empty keys, and there is no sheet or file name. |
| Reducer.SetViewStep | components/ChatbotView.tsx:141-187 | Only navigation fields change. A supplied id always wins. Without one, the profile and deck selection is dropped for the eight unscoped screens and kept for all others, and the article id survives only a move to the article view. The editing question id is nulled except on the question editor, where it is the supplied id or the old one. The editing flashcard id is the supplied id or, without one, the active deck on the deck editor and the old card id on the card editor. |
| Reducer.SetViewIdempotentIff | components/ChatbotView.tsx:141-187 | Dispatching the same SET_VIEW twice equals dispatching it once, exactly when the request is not the deck-editor case that reads the previous state. |
| Reducer.ReplaceById | components/ChatbotView.tsx:274-286 | Updating a question keeps length, order and every id; it replaces exactly the same-id records; an absent id changes nothing. |
| Reducer.RemoveById | components/ChatbotView.tsx:287-299 | After deleting an id no record has it, every other record survives as often as it occurred, and the result is a subsequence of the input. |
| Reducer.RemoveAllById | components/ChatbotView.tsx:300-312 | Bulk deletion keeps exactly the records whose id is not listed, each as often as it occurred and in input order. |
| Reducer.RemoveAllOfOneIsRemove | components/ChatbotView.tsx:287-312 | Bulk deletion of a one-id list is single deletion. |
| Reducer.MergeSettings | components/ChatbotView.tsx:313-325 | The settings merge overrides exactly the fields the patch carries and keeps the rest. |
| Reducer.MergeSettingsCompose | components/ChatbotView.tsx:313-325 | Two merges in a row are one merge of the combined patch, and the same patch twice is once. |
| Reducer.MergeGeneral | components/ChatbotView.tsx:191-199 | The general-settings merge overrides exactly the supplied fields. |
| Reducer.EditProfile | components/ChatbotView.tsx:224-348 | A profile edit keeps the profile's id and creation time and stamps updatedAt with the current time. Details set name and description; settings are merged with the patch; question actions change only the question list (set, append, replace by id, remove by id, remove the listed ids), and history actions only the history (append, clear). |
| Reducer.EditDeck | components/ChatbotView.tsx:378-417 | A deck edit keeps the deck's id and creation time and stamps updatedAt with the current time. Details set name and description; card actions change only the card list (append, replace by id, remove by id). |
| Reducer.MarkRead | components/ChatbotView.tsx:420-425 | After marking read, the article has exactly one record, read at `now`, and the other articles' records are unchanged and in order. |
| Reducer.MarkUnread | components/ChatbotView.tsx:426-436 | Every record of the article becomes unread at `now`. One record is appended exactly when there was none. Other records keep their place. |
| Reducer.MarkReadIdempotent | components/ChatbotView.tsx:420-425 | Marking read twice is marking read once. |
| Reducer.ReadThenUnread | components/ChatbotView.tsx:420-436 | Reading then un-reading leaves one record for the article, unread. |
| Reducer.Reduce | components/ChatbotView.tsx:120-452 | Articles, general settings, profiles, decks and reading progress change only under the actions that own them. An in-place profile or deck edit never adds, drops or reorders records. |
| Reducer.EditProfiles | components/ChatbotView.tsx:252-348 | A profile-scoped action keeps the list's length and every id, and touches nothing but the profile list. |
| Reducer.EditDecks | components/ChatbotView.tsx:378-417 | A deck-scoped action keeps the list's length and every id, and touches nothing but the deck list. |
| Reducer.ProfileEditTouchesOnlyTarget | components/ChatbotView.tsx:252-348 | A profile-scoped action changes only the profile with the target id, which gets the edit and the timestamp; every other profile is unchanged. |
| Reducer.DeckEditTouchesOnlyTarget | components/ChatbotView.tsx:378-417 | A deck-scoped action changes only the deck with the target id. |
| Reducer.CreateProfileAppends | components/ChatbotView.tsx:200-222 | Creating a profile appends exactly one empty profile with the fresh id and the default settings after the unchanged profiles, and shows the test list with no selection. |
| Reducer.DeleteProfileRemoves | components/ChatbotView.tsx:237-250 | Deleting a profile removes exactly the profiles with that id, keeping order. The selection is cleared iff it was that id. The view is the test list iff a profile remains, and home otherwise. |
| Reducer.CreateDeckAppends | components/ChatbotView.tsx:363-376 | Creating a deck appends exactly one deck after the unchanged decks: the fresh id, the given name and description, no cards, and both timestamps at the current time. It then shows the deck list with no deck selected, and nothing else changes. |
| Reducer.DeleteDeckRemoves | components/ChatbotView.tsx:387-391 | Deleting a deck removes exactly the decks with that id and keeps the others in order. It keeps the screen, clears the selection iff it was that deck, and otherwise keeps the selection. |
| Reducer.ClearAllResets | components/ChatbotView.tsx:350-360 | Clearing all user data yields the initial state, whatever the state before. |
| Reducer.MessageModalOpenClose | components/ChatbotView.tsx:437-440 | Opening and then closing the message box leaves it closed, holding the last content. |
| Reducer.ConfirmModalOpenClose | components/ChatbotView.tsx:441-444 | Opening the confirm box stores its callback; closing it drops the callback. |
| Reducer.XlsxModalOpenClose | components/ChatbotView.tsx:445-448 | Closing the mapping box forgets the sheet, the file name and the callback. |
| Reducer.ReducePreservesWellFormed | components/ChatbotView.tsx:120-452 | Every action keeps profile, deck and article-progress ids unique, given unique loaded data and fresh new ids. |
| Reducer.ReduceAllAppend | components/ChatbotView.tsx:120-452 | Dispatching `xs` then `ys` equals dispatching `xs + ys`. |
| Reducer.ReduceAllPreservesWellFormed | components/ChatbotView.tsx:120-452 | Ids stay unique over any run of dispatches. |
| Reducer.InitialWellFormed | components/ChatbotView.tsx:96-118 | The initial state has unique ids. |
| Translate.Lookup | components/ChatbotView.tsx:552-579 | The lookup never fails. It returns the current language's string, the English string for another language, or the `KEY_NOT_FOUND` / `COMPLEX_KEY_NOT_FOUND` marker. |
| Translate.LookupByPath | components/ChatbotView.tsx:552-579 | A string at the dot path is returned. A path missing in the current language falls back to English unless the English text looks like a miss marker. A path ending at a sub-table gives the complex-key marker. |
| Translate.LookupMissing | components/ChatbotView.tsx:552-579 | A key absent from both tables yields `KEY_NOT_FOUND: key`. |
| Translate.SubstituteRenders | components/ChatbotView.tsx:31-33 | The sequential replace over the supplied keys fills every supplied `{k}` with its value and leaves other holes intact. This holds on strings of brace-free literals and holes, for values free of `{` and `$`. |
| Translate.Expand | components/ChatbotView.tsx:583-584 | A replacement value without `$` is inserted as written. |
| Translate.ReplaceMatchesLiteral | components/ChatbotView.tsx:583-584 | With a `$`-free value, the global replace is the plain literal replacement of every non-overlapping match, left to right. |
| Translate.DollarPatterns | components/ChatbotView.tsx:583-584 | `$&` puts the placeholder back, `$$` inserts one `$`, and `` $` `` / `$'` insert the text before / after the match. |
| Translate.RenderNoReplacements | components/ChatbotView.tsx:580-586 | With no replacements the text is returned unchanged. |
| Translate.PlaceholderMismatch | components/ChatbotView.tsx:581-584 | The placeholder of one brace-free name never matches at the start of another name's placeholder. |
| Quiz.FromCharCode | components/QuizView.tsx:15-27 | `String.fromCharCode` returns the code unit itself below the surrogate range. |
| Quiz.OptionPrefix | components/QuizView.tsx:15-27 | The prefix is empty iff the style is NONE, and otherwise ends in ". ". |
| Quiz.NumberPrefixParses | components/QuizView.tsx:15-27 | A numbered prefix parses back to the 1-based position. |
| Quiz.LetterPrefixIsAlphabet | components/QuizView.tsx:15-27 | Letter prefixes are the code point 65+i (or 97+i) followed by ". ". |
| Quiz.OptionPrefixInjective | components/QuizView.tsx:15-27 | Different positions get different prefixes for every numbering style. |
| Quiz.NumToTake | components/QuizView.tsx:148-157 | The count is all questions with useAllQuestions, numQuestions when it is between 0 and the number available, min(10, available) when it is ≤ 0, and all otherwise. It never exceeds the number available. |
| Quiz.RenderOptions | components/QuizView.tsx:159-168 | True/False renders exactly [True, False]. Other types render a permutation of their options, in order unless answers are randomised. |
| Quiz.RenderAll | components/QuizView.tsx:159-170 | One rendered question per selected question, each rendered from its own source. |
| Quiz.Setup | components/QuizView.tsx:120-185 | A new attempt has a cleared guard, one empty answer per question and index 0. Without a profile or questions nothing is selected and no timer starts. |
| Quiz.Attempt | components/QuizView.tsx:148-185 | A fresh attempt over a non-empty bank takes the configured number of questions, a sub-multiset of the bank and its leading questions in order when not randomised. Each question's options are rendered from its own source with its own draws. Every answer is empty, the cursor is at 0, and the timer starts at `now` with the full limit iff it is enabled with a positive duration. |
| Quiz.Begin | components/QuizView.tsx:171-184 | A started attempt holds the rendered questions, one empty answer each, cursor 0 and no results; the timer starts at `now` with the full limit iff it is enabled with a positive duration. |
| Quiz.CorrectCountIsSetSize | components/QuizView.tsx:68-84 | The score is the size of the set of correctly answered questions. |
| Quiz.AllCorrectFullScore | components/QuizView.tsx:68-84 | Answering every question correctly gives the full score. |
| Quiz.NoAnswersNoScore | components/QuizView.tsx:68-84 | An empty answer buffer scores 0. |
| Quiz.Percentage | components/QuizView.tsx:85 | The percentage is within 0..100. It is 100 for a full score and 0 for no score. |
| Quiz.TimeTaken | components/QuizView.tsx:87-92 | The time taken is None iff no timer ran. Otherwise it is the elapsed whole seconds, capped at the time limit. |
| Quiz.Entry | components/QuizView.tsx:68-111 | The recorded entry has 0 ≤ score ≤ totalPossible = questionsInQuiz = number of questions, and the score counts the correct answers. |
| Quiz.Submit | components/QuizView.tsx:51-117 | Submit does nothing while the guard is set or with no questions. History is recorded iff the guard is clear and the current question is answered or time is up. Recording sets the guard and shows the results. A blocked submit shows the please-answer message, and a time-up recording shows the time-up message. |
| Quiz.SubmitAtMostOnce | components/QuizView.tsx:51-66 | After a recording submit, every further submit is ignored. |
| Quiz.Tick | components/QuizView.tsx:213-243 | A tick only acts while the timer runs. Remaining time stays in 0..limit. A tick records history only at time-out. |
| Quiz.TimeUpSubmits | components/QuizView.tsx:220-230 | When the time runs out, the attempt is submitted even with unanswered questions. |
| Quiz.SetAt | components/QuizView.tsx:246-250 | Writing answer i sets slot i, keeps the other slots, and grows the buffer when i is past the end. |
| Quiz.SelectAnswer | components/QuizView.tsx:246-250 | Selecting an answer changes only the current slot. |
| Quiz.Next | components/QuizView.tsx:252-266 | Next advances by one iff there is a later question and the current one is answered (non-blank for fill-in-the-blank). Otherwise the index is unchanged, and an unanswered current question shows the enter-answer (fill-in-the-blank) or select-answer message. |
| Quiz.Previous | components/QuizView.tsx:545 | Previous moves back one, never below 0. |
| Quiz.StepKeepsSessionOk | components/QuizView.tsx:120-266 | Every event keeps one answer slot per question and the cursor on a question. |
| Quiz.RunKeepsSessionOk | components/QuizView.tsx:120-266 | That invariant holds over any run of events. |
| Quiz.SubmittedRunRecordsNothing | components/QuizView.tsx:51-66 | Once a result is recorded, no sequence of events records another. |
| QuestionImport.RowValue | components/SettingsView.tsx:176-181 | The value is "" when the field is unmapped, the header is absent or the cell is missing. Otherwise it is the trimmed cell under the header's first occurrence. |
| QuestionImport.RowValueIsTrimmed | components/SettingsView.tsx:176-181 | A row value has no surrounding whitespace. |
| QuestionImport.RowValueReadsMappedCell | components/SettingsView.tsx:176-181 | A mapped header present in the sheet, in a row that reaches it, yields that trimmed cell. |
| QuestionImport.InferType | components/SettingsView.tsx:189-192 | "true-false"/"tf" gives True/False; "fill-in-the-blank"/"fib"/"fill"/"blank" gives fill-in-the-blank; anything else gives multiple choice. |
| QuestionImport.InferTypeOfName | components/SettingsView.tsx:189-192 | The enum's own value is inferred back as that type. |
| QuestionImport.OptionTexts | components/SettingsView.tsx:199-201 | The options are exactly the non-empty option cells, in column order. |
| QuestionImport.ValidateRow | components/SettingsView.tsx:183-224 | Empty question text is rejected. MC needs two options and a correct answer equal to an option. TF normalises its answer to the localised label and uses [True, False]. FIB needs an answer and has no options. |
| QuestionImport.ValidateRowRoundTrip | components/SettingsView.tsx:183-224 | Reading an imported question back from its own fields gives the same question. |
| QuestionImport.RowResults | components/SettingsView.tsx:170-226 | There is one result per data row, each validated under its own fresh id. |
| QuestionImport.Gather | components/SettingsView.tsx:170-226 | Each row adds a question or an error, and errors carry row numbers 2..n+1. |
| QuestionImport.GatherReportsRejectedRows | components/SettingsView.tsx:173-187 | A row is reported with number i+2 iff it is rejected, and with its own problem. |
| QuestionImport.GatherWithoutErrors | components/SettingsView.tsx:170-226 | Without errors, one question is imported per row, in row order. |
| QuestionImport.Report | components/SettingsView.tsx:228-233 | The report shows the first `cap` errors, plus a count of the rest equal to total minus shown. |
| QuestionImport.ProcessSheet | components/SettingsView.tsx:145-249 | Reading fails iff the sheet, a non-empty file name or the profile is missing. The question-not-mapped message appears iff the sheet is readable and a required question column is unmapped. Past those, a report appears iff some row is rejected, an import is offered iff there are rows and all are accepted, and the no-data message iff there are no rows. The no-valid-questions notice is never reached. An offered import holds exactly the accepted questions. |
| QuestionImport.Settle | components/SettingsView.tsx:228-248 | From the row results alone: a report iff some row is rejected, an import of exactly the accepted questions iff there are rows and all are accepted, and the no-data message iff there are no rows. |
| QuestionImport.OneBadRowImportsNothing | components/SettingsView.tsx:228-242 | One rejected row is enough to import nothing. |
| QuestionImport.ImportAction | components/SettingsView.tsx:228-248 | The confirm callback sets the profile's questions and then shows a message; every other outcome is a message box. |
| QuestionImport.ConfirmedImportReplacesBank | components/SettingsView.tsx:234-240 | Confirming the import replaces the importing profile's questions with exactly the imported ones and leaves other profiles alone. |
| QuestionImport.ImportJson | components/SettingsView.tsx:114-132 | A parse failure is a read error. The import succeeds iff the value is an array whose every element passes the validity test, and then it takes every element. |
| QuestionImport.ImportJsonAllOrNothing | components/SettingsView.tsx:116-127 | One invalid element rejects the whole file. |
| QuestionImport.ExportedQuestionValid | components/SettingsView.tsx:90-121 | An exported question passes the import test iff its id and text are non-empty. |
| QuestionImport.ExportImportRoundTrip | components/SettingsView.tsx:90-123 | Exporting a bank whose questions have ids and text and importing it again gives every question back. |
| QuestionForm.SelectValue | components/CreateEditQuestionView.tsx:269-270 | The select value is the trimmed text, or the placeholder when the text is blank. |
| QuestionForm.BuildQuestion | components/CreateEditQuestionView.tsx:242-252 | The saved question has the given id, trimmed text and correct answer, and the trimmed topic or none when it is blank. |
| QuestionForm.CheckFormAsWritten | components/CreateEditQuestionView.tsx:196-240 | As written: blank question text is refused. A multiple-choice form is refused for want of options iff fewer than two have text or an image, and a saved one keeps the form's options and an answer that is not a placeholder as typed. A placeholder's index is read by the radix-less `parseInt`. True/false and fill-in forms are checked exactly as the corrected check does. |
| QuestionForm.PlaceholderChoiceAsWritten | components/CreateEditQuestionView.tsx:219-226 | As written, a placeholder answer is either saved or refused as image-only. When the parsed index names an option, the saved answer is that option's trimmed text, which is never blank. When it names no option, the saved answer is "". |
| QuestionForm.HexPlaceholderPicksOption | components/CreateEditQuestionView.tsx:219-226 | As written, an option text `__empty_or_image_0x1` is taken for a placeholder whose index `parseInt` reads in base 16 as 1, so option 1's text is saved. |
| Strings.ParseIntAnyRadixOfHex | components/CreateEditQuestionView.tsx:220 | The radix-less `parseInt` reads "0x" followed by hex digits as their base-16 value. |
| Strings.ParseIntAnyRadixDecimal | components/CreateEditQuestionView.tsx:220 | Without a "0x"/"0X" prefix after the sign, the radix-less `parseInt` agrees with `parseInt(s, 10)`. |
| Strings.RadixlessReadsHex | components/CreateEditQuestionView.tsx:220 | On "0x" followed by hex digits, such as "0x1", the radix-less `parseInt` gives their base-16 value while `parseInt(s, 10)` gives 0. |
| QuestionForm.ImageOnlyAnswerSavedBlank | components/CreateEditQuestionView.tsx:219-226 | As written, choosing an image-only option as the correct answer saves "" (Findings). |
| QuestionForm.BlankAnswerAcceptedAsWritten | components/CreateEditQuestionView.tsx:211-217 | As written, a blank correct answer passes when some option is blank (Findings). |
| QuestionForm.CheckForm | components/CreateEditQuestionView.tsx:196-240 | Corrected validation. MC needs two usable options and a non-blank correct answer. TF answers are one of the two labels. FIB needs an answer and saves no options. Every saved question is built from the form. |
| QuestionForm.SelectedOptionIsSaved | components/CreateEditQuestionView.tsx:219-226 | With the corrected rules, choosing option n saves that option's text, and an option without text is refused. |
| QuestionForm.SavedId | components/CreateEditQuestionView.tsx:242-243 | An edit keeps the edited question's id; a new question gets the fresh id. |
| QuestionForm.Submit | components/CreateEditQuestionView.tsx:188-265 | (corrected) With no profile, an error message. A refusal gives only its message. An edit dispatches UPDATE and a new question dispatches ADD. |
| QuestionForm.SubmitStoresOnlyCheckedQuestions | components/CreateEditQuestionView.tsx:242-265 | A submit never stores a question without text, and an update keeps the edited id. |
| QuestionForm.ResetForNew | components/CreateEditQuestionView.tsx:47-64 | After saving, the form keeps type and topic. It has empty text and two blank options, or the True/False pair with True selected. |
| QuestionForm.AddOption | components/CreateEditQuestionView.tsx:167-173 | One empty option is added only below the maximum; otherwise a message is shown. |
| QuestionForm.RemoveOption | components/CreateEditQuestionView.tsx:175-186 | Removal is refused for MC with ≤ 2 options. Otherwise exactly option `index` is removed, and the correct answer is kept or cleared. |
| QuestionForm.AddThenRemoveIsIdentity | components/CreateEditQuestionView.tsx:167-186 | Removing an option just added gives the form back. |
| Shuffle.Shuffle | components/FlashcardStudyView.tsx:10-17 | The shuffle returns a permutation of its input: same length and multiset. |
| Shuffle.ShuffleCanKeepOrder | components/FlashcardStudyView.tsx:10-17 | Some draw stream leaves the order unchanged. |
| FlashcardStudy.Initialize | components/FlashcardStudyView.tsx:27-41 | Without a deck the app returns to the deck list. Otherwise the session starts on card 0, unflipped, over a permutation of the deck's cards, in order when not shuffled. |
| FlashcardStudy.Flip | components/FlashcardStudyView.tsx:43 | Flip toggles only the flipped flag. |
| FlashcardStudy.Next | components/FlashcardStudyView.tsx:45-50 | Next moves one card on and shows the front, only before the last card. |
| FlashcardStudy.Previous | components/FlashcardStudyView.tsx:52-57 | Previous moves one card back and shows the front, only after the first card. |
| FlashcardStudy.ToggleShuffle | components/FlashcardStudyView.tsx:59-61 | Toggling flips the shuffle flag and restarts at card 0. |
| FlashcardStudy.EndStudy | components/FlashcardStudyView.tsx:63-67 | Ending the study returns to the active deck's hub. |
| FlashcardStudy.Shown | components/FlashcardStudyView.tsx:84-86 | The shown side is the back iff flipped, and nothing is shown for an empty session. |
| FlashcardStudy.NavigationStaysInBounds | components/FlashcardStudyView.tsx:43-57 | Flip, Next and Previous keep the index on a card and never change the cards. |
| FlashcardStudy.PreviousUndoesNext | components/FlashcardStudyView.tsx:45-57 | Previous undoes a Next that moved. |
| FlashcardStudy.ForwardWalksInOrder | components/FlashcardStudyView.tsx:45-50 | n Nexts from card i reach card min(i+n, count-1). |
| FlashcardStudy.ToggleTwiceRestoresOrder | components/FlashcardStudyView.tsx:27-61 | Toggling the shuffle twice returns to the deck's own order. |
| Modals.ShowMessage | components/Modals.tsx:8-33 | The box shows iff it is open. It is styled as an error iff the lower-cased title key contains "error". Title and text are translated with their own replacements. |
| Modals.MessageOkCloses | components/Modals.tsx:25 | OK closes the message box. |
| Modals.ShowConfirm | components/Modals.tsx:35-58 | The confirm box shows iff it is open. Its title and its text are each translated with the text replacements, as written. |
| Modals.Confirm | components/Modals.tsx:40-45 | Confirm runs the stored callback, if any, and then closes. |
| Modals.ConfirmRunsCallbackThenCloses | components/Modals.tsx:40-49 | After confirm, the state is the callback's effect followed by the close. Cancel only closes and drops the callback. |
| Modals.KeepAlnum | components/Modals.tsx:90-93 | Simplification keeps only [a-z0-9] characters: all-alphanumeric text is unchanged and all-punctuation text becomes "". |
| Modals.KeepAlnumKeepsExactly | components/Modals.tsx:90-93 | Simplification keeps every [a-z0-9] character as often as it occurs, in order, and drops every other character. |
| Modals.FirstMatch | components/Modals.tsx:91-94 | The match is the first header, in sheet order, whose simplified form contains or is contained in the label's, or equals the lower-cased key. |
| Modals.GuessAll | components/Modals.tsx:89-99 | There is one entry per app field, each the field's guess. |
| Modals.InitialMappingAsWritten | components/Modals.tsx:85-104 | As written: the mapping is {} unless the box is open on a sheet with a headers row. Then there is exactly one entry per field key, and each field's entry is its first matching header, a header that simplifies to "" included. |
| Modals.InitialMapping | components/Modals.tsx:85-104 | (corrected) The mapping is {} unless the box is open on a sheet with a headers row. Then there is exactly one entry per field key, and each field's entry is its first matching header, with headers that simplify to "" skipped. |
| Modals.PunctuationHeaderTakesEveryField | components/Modals.tsx:89-98 | As written, a first header that simplifies to "" is taken for every field, and the corrected mapping takes it for none (Findings). |
| Modals.GuessesHaveContent | components/Modals.tsx:89-98 | With the correction, a guessed header always has alphanumeric content. |
| Modals.SkipBlankIsConservative | components/Modals.tsx:89-98 | When no header simplifies to "", the corrected and the as-written matches agree. |
| Modals.ChangeMapping | components/Modals.tsx:113-115 | Changing a field sets that entry and keeps every other one. |
| Modals.Preview | components/Modals.tsx:110-111 | The preview is sheet rows 1..maxRows. |
| Modals.Import | components/Modals.tsx:117-122 | Import runs the stored callback with the mapping iff one is stored, and then closes. |
| Modals.CloseResetsMapping | components/Modals.tsx:85-104 | After closing, the mapping is {} and no callback is kept. |
| Wordle.Evaluate | components/WordleLvView.tsx:73-102 | Tile i is correct iff guess[i] = target[i], and no tile stays default. |
| Wordle.EvaluateCountsLetters | components/WordleLvView.tsx:73-102 | For each letter, correct plus present tiles = min(count in guess, count in target). |
| Wordle.EvaluateAbsentLetter | components/WordleLvView.tsx:86-102 | A letter absent from the target scores absent. |
| Wordle.KeysClimb | components/WordleLvView.tsx:75-106 | Key states never move down absent < present < correct. Only guessed letters change, and each ends at least as high as its tiles. |
| Wordle.Submit | components/WordleLvView.tsx:57-121 | A finished game ignores submits. A wrong length or unknown word only sets a message. An accepted guess fills row `attempt` and keeps every other row, advances the attempt, clears the guess, updates the keys, and ends the game iff won or out of attempts, with the lost message naming the target when out of attempts and no message while it goes on. The target and the hint flag are kept. |
| Wordle.KeyPress | components/WordleLvView.tsx:123-134 | A finished game ignores keys. ENTER submits, BACKSPACE drops the last letter, and a letter of the Latvian alphabet is appended while the guess is short. |
| Wordle.Hint | components/WordleLvView.tsx:149-191 | The hint is ignored when used, over or out of attempts, and reports that none is available when nothing differs. Otherwise it places the target letter at the chosen cell, pads any gap before it with empty cells and keeps the other cells. It marks only that letter's key correct, uses the hint and shows the letter; the board, attempt, target and end state are unchanged. |
| Wordle.HintTargetsDifferingCell | components/WordleLvView.tsx:155-168 | The hint cell differs from the target and is a preferred cell whenever one exists. |
| Wordle.HintUnavailableIffSpelled | components/WordleLvView.tsx:161-190 | The hint is unavailable iff the guess already spells the target. |
| Wordle.HintOnce | components/WordleLvView.tsx:150-183 | A second hint changes neither the guess nor the keys. |
| Wordle.Reset | components/WordleLvView.tsx:44-53 | A new game has the drawn target and an empty board of maxAttempts rows of wordLength tiles. It starts at attempt 0 with no guess, no keys, no message and the hint unused. |
| Wordle.StepKeepsSteady | components/WordleLvView.tsx:57-191 | Every key press or hint keeps the board shape, attempt ≤ max, guess length ≤ word length, and over whenever attempts run out. |
| Wordle.ResetIsSteady | components/WordleLvView.tsx:44-53 | A new game is in that invariant. |
| NumberCruncher.Generate | components/NumberCruncherView.tsx:37-104 | The operation is the chosen one, or the mixed draw. The answer is the operation's result: divisor ≠ 0 and dividend = divisor × answer. Operands are within the difficulty's range, and easy/medium subtraction is never negative. |
| NumberCruncher.MultiplierRange | components/NumberCruncherView.tsx:56-61 | Each multiplier range contains 0 and a positive value. |
| NumberCruncher.SolutionShowsAnswer | components/NumberCruncherView.tsx:139 | Replacing the "?" in the problem text shows the equation with the answer. |
| NumberCruncher.Start | components/NumberCruncherView.tsx:107-126 | Starting sets playing, score 0, 60 seconds, a fresh problem and a cleared answer. |
| NumberCruncher.Scored | components/NumberCruncherView.tsx:132-138 | A right answer adds 10. A wrong one gives score−5 when it is above 5 and 0 otherwise, so the score never goes negative and stays a multiple of 5. |
| NumberCruncher.SubmitAnswer | components/NumberCruncherView.tsx:128-143 | An empty answer or no problem changes nothing. Otherwise the answer is right iff it parses to the problem's answer; the score and feedback follow, and a new problem is drawn. |
| NumberCruncher.TypedAnswerScores | components/NumberCruncherView.tsx:131-135 | Typing the answer's decimal form scores +10. |
| NumberCruncher.Tick | components/NumberCruncherView.tsx:114-121 | A tick subtracts 1; at ≤ 1 it sets 0 and ends the game. |
| NumberCruncher.CountdownLasts | components/NumberCruncherView.tsx:114-121 | The game lasts exactly timeLeft ticks. |
| ArticlesList.Categories | components/ArticlesListView.tsx:15-18 | The list is strictly sorted and holds exactly the non-empty categories. |
| ArticlesList.CategoriesDistinct | components/ArticlesListView.tsx:15-18 | Each category appears once. |
| ArticlesList.LessTotal | components/ArticlesListView.tsx:17 | The category order is total on distinct strings. |
| ArticlesList.FilteredArticles | components/ArticlesListView.tsx:20-24 | The result is a newest-first permutation of the filtered articles in which articles of the same time keep their list order, as the stable `sort` leaves them. |
| ArticlesList.InsertNewestStable | components/ArticlesListView.tsx:24 | Inserting an article puts it before every article of its own time and keeps their order. |
| ArticlesList.SortNewestFirstStable | components/ArticlesListView.tsx:24 | For every time, the sorted list holds that time's articles in their input order. |
| ArticlesList.FilterByCategory | components/ArticlesListView.tsx:20-24 | An empty selection keeps every article; otherwise exactly the articles with that category are kept. |
| ArticlesList.StripTags | components/ArticlesListView.tsx:80 | Tag stripping leaves no '<' and keeps tag-free text unchanged. |
| ArticlesList.StripTagsKeepsText | components/ArticlesListView.tsx:80 | Text before the first '<' is kept as written, followed by the stripped rest. |
| ArticlesList.StripTagsDropsTag | components/ArticlesListView.tsx:80 | A tag `<t>` is dropped with the text around it kept, and an unclosed `<t` at the end is dropped to the end. |
| ArticlesList.FirstParagraph | components/ArticlesListView.tsx:78-79 | The result is the first paragraph block's text, or none when there is no paragraph. |
| ArticlesList.Truncate | components/ArticlesListView.tsx:81 | Text up to 150 characters is kept; longer text becomes its first 150 characters and "...", so the length is ≤ 153. |
| ArticlesList.DerivedExcerpt | components/ArticlesListView.tsx:76-82 | The excerpt is the truncated tag-free first paragraph, or "" without one. |
| ArticlesList.DisplayExcerpt | components/ArticlesListView.tsx:84 | The shown excerpt is a non-empty stored excerpt, else the derived one, else the fallback. |
| ArticlesList.FirstRecord | components/ArticlesListView.tsx:31 | The found record is the article's first progress record, or none. |
| ArticlesList.StatusFollowsMarks | components/ArticlesListView.tsx:30-33 | Marking read makes the status read, and marking unread makes it unread. |
| ArticlesList.ReadArticle | components/ArticlesListView.tsx:26-28 | Opening an article dispatches SET_VIEW to the article view with that id and no other id given. |
| ArticlesList.ReadArticleOpens | components/ArticlesListView.tsx:26-28 | The app then shows that article and keeps the selected profile and deck, with no question or card being edited. |
| Stats.DisplayTime | components/StatsView.tsx:10-19 | No time or a negative one means no timer. Otherwise minutes*60 + seconds = t with seconds < 60. |
| Stats.DisplayTimeUnique | components/StatsView.tsx:16-17 | That split is the only one with seconds below 60. |
| Stats.FormatDisplayTime | components/StatsView.tsx:10-19 | Without a timer the text is the translated `timerNotEnabled`. |
| Stats.Summarize | components/StatsView.tsx:36-39 | totalTests is the history length. Average and best are "0" (None) iff the history is empty, and otherwise the mean and the maximum. |
| Stats.Best | components/StatsView.tsx:39 | The best score bounds every percentage and is one of them. |
| Stats.AverageAtMostBest | components/StatsView.tsx:38-39 | The average never exceeds the best score. |
| Stats.Redirect | components/StatsView.tsx:25-29 | The screen leaves for the test list with no selection iff no profile is active on the stats view. |
| Stats.ClearHistory | components/StatsView.tsx:41-53 | Clearing asks for confirmation, naming the profile, and holds the clear-and-report callback. |
| Stats.ConfirmedClearEmptiesHistory | components/StatsView.tsx:41-53 | Confirming empties exactly that profile's history, leaves other profiles alone, shows the report and closes the confirm box. |

## Left out

- Persistence and I/O are not modelled: localStorage writes, `FileReader`, the XLSX library, file download, base64 image reading and the document language and title.
- React effects and intervals are not modelled. Each tick, key press or submit is an explicit event.
- The JSON-signature re-initialisation of the quiz, and the question editor's type-change effect (components/CreateEditQuestionView.tsx:98-122), are not modelled.
- Random choice is passed as draws: the shuffles, the problem generator and the Wordle word pick. `generateNewId` becomes `Env.freshId`, and `Date.now()` becomes a parameter.
- `constants.ts` and the translation tables are not part of this model. Their values are parameters.
- Thin view files with no logic beyond a dispatch are not modelled: Home, GamesHub, Layout, App, the hub and list views, the deck and card editors, GeneralSettings and ArticleView.
- QuestionImport.ImportJson: the importer stores the raw parsed objects; the model keeps the parsed elements and reads them back with `DecodeQuestion`, not the untyped objects themselves.
- QuestionImport.ProcessSheet: the per-row `try`/`catch` is not modelled, because nothing in the modelled row logic throws.
- Quiz.FromCharCode: a lone surrogate code unit is not a Dafny `char`, so it becomes U+FFFD.
- Quiz.Percentage: this is the exact ratio; `toFixed(1)` rounding and floating point are not modelled.
- Stats.Summarize: the average and best are exact reals; `toFixed(1)` and floating point are not modelled.
- Stats.FormatDisplayTime: its contract covers only the no-timer text; the minutes and seconds are stated on `Stats.DisplayTime`, because `{minutes}`/`{seconds}` substitution is the translator's concern.
- ArticlesList.Categories: `localeCompare` is replaced by code-point order, because locale collation is not available. Dafny characters are code points, so above U+FFFF this also differs from JavaScript's UTF-16 order: U+1F600 sorts after U+FF21 here and before it in JavaScript.
- ArticlesList.FilteredArticles: article dates are given as a `time` function, because `new Date(...)` parsing (and its NaN) is not modelled.
- ArticlesList.Truncate: lengths count Dafny characters, while JavaScript's `substring` counts UTF-16 code units.
- Wordle.Submit: the word list and target are assumed to have the configured length (`Playable`). The window key listener and its modifier-key filter are not modelled. `toUpperCase` is per character, so JavaScript's length-changing case mappings are not modelled.
- QuestionForm.Submit: it validates with the corrected `QuestionForm.CheckForm` (Findings rows 1 and 2). The code as written is modelled by `QuestionForm.CheckFormAsWritten`, and the two lemmas named there show where the two differ.
- Strings.ToLower: case mapping covers Basic Latin, Latin-1, Latin Extended-A and the basic Cyrillic block (U+0400–U+044F plus Ґ/ґ). Every other character, such as Greek or U+0130, is left unchanged, while JavaScript's `toLowerCase` would map it. `Strings.ToUpper` has the same ranges.
- Translate.SubstituteRenders: the template rendering is stated for values without `$`. `Translate.Substitute` itself models the `$$`, `$&`, `` $` `` and `$'` expansions, as `Translate.DollarPatterns` shows.
- Translate.Lookup: the source tests each path step with `in`, which also sees inherited properties, so a key such as "toString" gives the complex-key marker there and `KEY_NOT_FOUND` here. The tables are modelled as maps without a prototype, and every key the app passes is a constant that names no inherited property.
- Modals.InitialMapping: it skips headers that simplify to "" (Findings row 3). The mapping as written is `Modals.InitialMappingAsWritten`, and `Modals.PunctuationHeaderTakesEveryField` shows where the two differ.
- Translate.Substitute: replacements are applied in the order given. JavaScript's object-key order (integer-like keys first) is left to the caller.
- NumberCruncher.Generate: the `default` branch of the operation switch cannot be reached from the four operations and is not modelled. Input focus is not modelled.

## Findings

| source | as written | input that shows it | evidently intended | confidence | as-written member | corrected member |
|---|---|---|---|---|---|---|
| components/CreateEditQuestionView.tsx:219-226 | The index of a placeholder `__empty_or_image_N__` is read from the last `_` segment, which is always empty, so it is -1. The image-only check never fires, and the question is saved with correct answer "". | A multiple-choice form with option 1 "A" and option 2 image-only (blank text), with option 2 chosen as correct. | Resolve N from the placeholder and refuse an option without text as the correct answer. | medium, not executed | QuestionForm.ImageOnlyAnswerSavedBlank | QuestionForm.SelectedOptionIsSaved |
| components/CreateEditQuestionView.tsx:211-217 | A blank correct answer is refused only when no option's trimmed text equals it, so any blank option lets a blank answer through. | A multiple-choice form with options "A", "B" and "" and an empty correct answer. | Always refuse a blank correct answer. | medium, not executed | QuestionForm.BlankAnswerAcceptedAsWritten | QuestionForm.CheckForm |
| components/Modals.tsx:89-98 | A header whose simplified form is "" is contained in every label. The first such header is taken for every field, so later real matches are hidden. A header like "#" becomes every field's mapping; an empty header cell leaves every field unmapped. | Headers ["#", "Question"] with a "Question" field: the field maps to "#". | Skip headers that simplify to "" when guessing. | medium, not executed | Modals.PunctuationHeaderTakesEveryField | Modals.InitialMapping |
