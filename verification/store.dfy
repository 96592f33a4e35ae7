/**
 * The application store: the single state record every screen reads, and the
 * actions the screens dispatch to change it. The reducer that applies an
 * action is in module `Reducer`.
 */
module Store {
  import opened Wrappers
  import opened Types

  /** A `{key}` placeholder value passed to the translator; numbers arrive already formatted. */
  datatype Replacement = Replacement(key: string, value: string)

  datatype MessageContent = MessageContent(
    titleKey: string,
    textKey: string,
    titleReplacements: Option<seq<Replacement>>,
    textReplacements: Option<seq<Replacement>>)

  datatype ConfirmContent = ConfirmContent(titleKey: string, textKey: string, textReplacements: Option<seq<Replacement>>)

  /**
   * A payload property that may be left out (`Unset`, the source's `undefined`)
   * or given, possibly as `null` (`Set(None)`).
   */
  datatype Field<T> = Unset | Set(value: T)

  datatype ViewRequest = ViewRequest(
    view: AppView,
    editingId: Field<Option<string>>,
    activeTestProfileId: Field<Option<string>>,
    activeFlashcardDeckId: Field<Option<string>>,
    editingFlashcardId: Field<Option<string>>,
    activeArticleId: Field<Option<string>>)

  /**
   * What the spreadsheet-mapping modal runs when the user confirms a mapping:
   * the question bank's import of this sheet, read from the file of this name.
   */
  datatype XlsxCallback = ImportMappedSheet(sheet: seq<seq<string>>, fileName: string)

  datatype Action =
    | LoadInitialData(
        testProfiles: seq<TestProfile>,
        generalSettings: GeneralAppSettings,
        flashcardDecks: seq<FlashcardDeck>,
        articles: seq<Article>,
        articleProgress: seq<ArticleProgress>)
    | SetView(request: ViewRequest)
    | SetActiveTestProfileId(newActiveId: Option<string>)
    | UpdateGeneralSettings(generalPatch: GeneralSettingsPatch)
    | CreateTestProfile(name: string, description: Option<string>)
    | UpdateTestProfileDetails(id: string, name: string, description: Option<string>)
    | DeleteTestProfile(id: string)
    | SetQuestionsForProfile(profileId: string, questions: seq<Question>)
    | AddQuestionToProfile(profileId: string, question: Question)
    | UpdateQuestionInProfile(profileId: string, question: Question)
    | DeleteQuestionFromProfile(profileId: string, questionId: string)
    | DeleteBulkQuestionsFromProfile(profileId: string, questionIds: seq<string>)
    | UpdateTestSpecificSettings(profileId: string, patch: SettingsPatch)
    | AddHistoryToProfile(profileId: string, entry: QuizHistoryEntry)
    | ClearHistoryForProfile(profileId: string)
    | ClearAllUserData
    | OpenMessageModal(message: MessageContent)
    | CloseMessageModal
    | OpenConfirmModal(confirm: ConfirmContent, onConfirm: seq<Action>)
    | CloseConfirmModal
    | OpenXlsxMappingModal(sheetData: seq<seq<string>>, fileName: string, onMapping: XlsxCallback)
    | CloseXlsxMappingModal
    | CreateFlashcardDeck(name: string, description: Option<string>)
    | UpdateFlashcardDeckDetails(id: string, name: string, description: Option<string>)
    | DeleteFlashcardDeck(id: string)
    | AddFlashcardToDeck(deckId: string, card: Flashcard)
    | UpdateFlashcardInDeck(deckId: string, card: Flashcard)
    | DeleteFlashcardFromDeck(deckId: string, cardId: string)
    | MarkArticleAsRead(articleId: string)
    | MarkArticleAsUnread(articleId: string)

  /**
   * The confirm modal's callback is the list of actions it dispatches when run;
   * `None` is the source's `null` callback.
   */
  datatype AppState = AppState(
    testProfiles: seq<TestProfile>,
    flashcardDecks: seq<FlashcardDeck>,
    articles: seq<Article>,
    articleProgress: seq<ArticleProgress>,
    generalSettings: GeneralAppSettings,
    activeView: AppView,
    activeTestProfileId: Option<string>,
    editingQuestionId: Option<string>,
    activeFlashcardDeckId: Option<string>,
    editingFlashcardId: Option<string>,
    activeArticleId: Option<string>,
    isMessageModalOpen: bool,
    messageModalContent: MessageContent,
    isConfirmModalOpen: bool,
    confirmModalContent: ConfirmContent,
    confirmModalOnConfirm: Option<seq<Action>>,
    isXlsxMappingModalOpen: bool,
    xlsxSheetData: Option<seq<seq<string>>>,
    xlsxFileName: Option<string>,
    xlsxConfirmCallback: Option<XlsxCallback>)

  /** The values the app takes from its constants file. */
  datatype Defaults = Defaults(generalSettings: GeneralAppSettings, testSettings: TestSpecificSettings)

  /** What a reducer step reads from the outside world: the clock and a fresh id. */
  datatype Env = Env(now: string, freshId: string)

  const EmptyMessage := MessageContent("", "", None, None)
  const EmptyConfirm := ConfirmContent("", "", None)

  /** The state the app starts in (components/ChatbotView.tsx `initialState`). */
  function InitialState(defaults: Defaults): (s: AppState)
    ensures s.testProfiles == [] && s.flashcardDecks == [] && s.articles == [] && s.articleProgress == []
    ensures s.activeView == Home && s.generalSettings == defaults.generalSettings
    ensures s.activeTestProfileId.None? && s.editingQuestionId.None? && s.activeFlashcardDeckId.None?
    ensures s.editingFlashcardId.None? && s.activeArticleId.None?
    ensures !s.isMessageModalOpen && !s.isConfirmModalOpen && !s.isXlsxMappingModalOpen
    ensures s.confirmModalOnConfirm.None? && s.xlsxConfirmCallback.None?
    ensures s.messageModalContent == EmptyMessage && s.confirmModalContent == EmptyConfirm
    ensures s.xlsxSheetData.None? && s.xlsxFileName.None?
  {
    AppState(
      [], [], [], [], defaults.generalSettings, Home,
      None, None, None, None, None,
      false, EmptyMessage,
      false, EmptyConfirm, None,
      false, None, None, None)
  }
}
