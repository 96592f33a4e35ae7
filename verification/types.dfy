/**
 * The records and enumerations the study app stores and passes around:
 * test profiles with their questions, settings and quiz history, flashcard
 * decks, articles and reading progress. Optional properties (`x?: T`) and
 * nullable ones (`T | null`) are both `Option<T>`; timestamps are the ISO
 * strings the app stores, supplied by the caller.
 */
module Types {
  import opened Wrappers

  datatype Language = LV | EN | UK

  /** Every screen of the app. */
  datatype AppView =
    | Home
    | MyTests
    | TestProfileHub
    | Quiz
    | QuestionBank
    | CreateEditQuestion
    | Stats
    | TestSettings
    | GeneralSettings
    | GamesHub
    | WordleLv
    | NumberCruncher
    | FlashcardDecksList
    | FlashcardDeckHub
    | FlashcardCreateEditDeck
    | FlashcardCreateEditCard
    | FlashcardStudyMode
    | ArticlesList
    | ArticleView

  datatype QuestionType = MultipleChoice | TrueFalse | FillInTheBlank

  datatype QuestionOption = QuestionOption(text: string, imageURL: Option<string>)

  datatype Question = Question(
    id: string,
    qtype: QuestionType,
    question: string,
    topic: Option<string>,
    questionImageURL: Option<string>,
    options: seq<QuestionOption>,
    correctOptionText: string)

  /** The translated texts of the two True/False options (`optionTrue`, `optionFalse`). */
  datatype Labels = Labels(optionTrue: string, optionFalse: string)

  /** A question as a quiz attempt shows it: with the options in display order. */
  datatype RenderedQuestion = RenderedQuestion(source: Question, optionsRendered: seq<QuestionOption>)

  datatype AnswerNumberingStyle = Numbers | LettersUpper | LettersLower | NoNumbering

  datatype TestSpecificSettings = TestSpecificSettings(
    numQuestions: int,
    useAllQuestions: bool,
    randomizeQuestions: bool,
    randomizeAnswers: bool,
    answerNumberingStyle: AnswerNumberingStyle,
    enableTimer: bool,
    timerDurationMinutes: int)

  /** A partial settings object: the fields that are present override, the others are kept. */
  datatype SettingsPatch = SettingsPatch(
    numQuestions: Option<int>,
    useAllQuestions: Option<bool>,
    randomizeQuestions: Option<bool>,
    randomizeAnswers: Option<bool>,
    answerNumberingStyle: Option<AnswerNumberingStyle>,
    enableTimer: Option<bool>,
    timerDurationMinutes: Option<int>)

  datatype GeneralAppSettings = GeneralAppSettings(currentLanguage: Language, darkMode: bool)

  datatype GeneralSettingsPatch = GeneralSettingsPatch(currentLanguage: Option<Language>, darkMode: Option<bool>)

  /**
   * One finished quiz. `percentage` is the exact ratio `score / totalPossible * 100`;
   * the app rounds it to one decimal, which this model does not reproduce.
   */
  datatype QuizHistoryEntry = QuizHistoryEntry(
    date: string,
    score: int,
    totalPossible: int,
    percentage: real,
    questionsInQuiz: int,
    timeTakenSeconds: Option<int>)

  datatype TestProfile = TestProfile(
    id: string,
    name: string,
    description: Option<string>,
    questions: seq<Question>,
    settings: TestSpecificSettings,
    history: seq<QuizHistoryEntry>,
    createdAt: string,
    updatedAt: string)

  datatype Flashcard = Flashcard(
    id: string,
    frontText: string,
    backText: string,
    frontImageURL: Option<string>,
    backImageURL: Option<string>)

  datatype FlashcardDeck = FlashcardDeck(
    id: string,
    name: string,
    description: Option<string>,
    flashcards: seq<Flashcard>,
    createdAt: string,
    updatedAt: string)

  /** A block of article content; the three kinds the app renders. */
  datatype ArticleBlock =
    | Paragraph(blockId: string, text: string)
    | Heading(blockId: string, text: string, level: int)
    | Image(blockId: string, src: string, alt: Option<string>, caption: Option<string>)

  datatype Article = Article(
    id: string,
    title: string,
    excerpt: Option<string>,
    coverImage: Option<string>,
    author: Option<string>,
    category: Option<string>,
    tags: Option<seq<string>>,
    content: seq<ArticleBlock>,
    createdAt: string,
    updatedAt: string)

  datatype ArticleProgress = ArticleProgress(articleId: string, isRead: bool, lastReadAt: Option<string>)

  datatype GameDifficulty = Easy | Medium | Hard

  datatype OperationType = Add | Subtract | Multiply | Divide

  /** A Number Cruncher mode: one operation, or a random one per problem. */
  datatype GameMode = Single(op: OperationType) | Mixed
}
