/**
 * The app's reducer: how each dispatched action turns one store state into
 * the next. Persisting to local storage after a change is a side effect the
 * model leaves out; the clock and the id generator are the `Env` argument,
 * and the constants file's defaults are the `Defaults` argument.
 */
module Reducer {
  import opened Wrappers
  import opened Types
  import opened Store
  import Seqs

  // ---------------------------------------------------------------------------
  // SET_VIEW
  // ---------------------------------------------------------------------------

  /** The screens that belong to no test profile, deck or article. */
  predicate Unscoped(v: AppView)
  {
    v == Home || v == MyTests || v == GeneralSettings || v == GamesHub
    || v == WordleLv || v == NumberCruncher || v == FlashcardDecksList || v == ArticlesList
  }

  /** `payload.x !== undefined ? payload.x : fallback` */
  function Resolve<T>(f: Field<T>, fallback: T): T
  {
    match f
    case Set(v) => v
    case Unset => fallback
  }

  /** Only the screen and the five selection ids differ between `s` and `r`. */
  predicate OnlyNavigationChanged(s: AppState, r: AppState)
  {
    r == s.(activeView := r.activeView,
            activeTestProfileId := r.activeTestProfileId,
            editingQuestionId := r.editingQuestionId,
            activeFlashcardDeckId := r.activeFlashcardDeckId,
            editingFlashcardId := r.editingFlashcardId,
            activeArticleId := r.activeArticleId)
  }

  function SetViewStep(s: AppState, req: ViewRequest): (r: AppState)
    ensures r.activeView == req.view && OnlyNavigationChanged(s, r)
    // an id given in the request always wins
    ensures req.activeTestProfileId.Set? ==> r.activeTestProfileId == req.activeTestProfileId.value
    ensures req.activeFlashcardDeckId.Set? ==> r.activeFlashcardDeckId == req.activeFlashcardDeckId.value
    ensures req.activeArticleId.Set? ==> r.activeArticleId == req.activeArticleId.value
    // without one, a screen outside every profile or deck drops the selection and any other screen keeps it
    ensures req.activeTestProfileId.Unset? ==>
      r.activeTestProfileId == (if Unscoped(req.view) then None else s.activeTestProfileId)
    ensures req.activeFlashcardDeckId.Unset? ==>
      r.activeFlashcardDeckId == (if Unscoped(req.view) then None else s.activeFlashcardDeckId)
    // the open article survives only on the article screen
    ensures req.activeArticleId.Unset? ==>
      r.activeArticleId == (if req.view == ArticleView then s.activeArticleId else None)
    // an editing id is held only while its editor is on screen
    ensures r.editingQuestionId.Some? ==> req.view == CreateEditQuestion
    ensures r.editingFlashcardId.Some? ==> req.view == FlashcardCreateEditDeck || req.view == FlashcardCreateEditCard
    // on its editor, the editing id is the one supplied, else the question editor keeps the old one,
    // the deck editor falls back to the selected deck and the card editor keeps the old card
    ensures req.view == CreateEditQuestion ==> r.editingQuestionId == Resolve(req.editingId, s.editingQuestionId)
    ensures req.view == FlashcardCreateEditDeck ==> r.editingFlashcardId == Resolve(req.editingId, s.activeFlashcardDeckId)
    ensures req.view == FlashcardCreateEditCard ==> r.editingFlashcardId == Resolve(req.editingId, s.editingFlashcardId)
  {
    var profileId :=
      if req.activeTestProfileId.Unset? && Unscoped(req.view) then None
      else Resolve(req.activeTestProfileId, s.activeTestProfileId);
    var editingQuestion :=
      if req.view == CreateEditQuestion then Resolve(req.editingId, s.editingQuestionId) else None;
    var deckId :=
      if req.activeFlashcardDeckId.Unset? && Unscoped(req.view) then None
      else Resolve(req.activeFlashcardDeckId, s.activeFlashcardDeckId);
    var editingCard :=
      if req.view == FlashcardCreateEditDeck then Resolve(req.editingId, s.activeFlashcardDeckId)
      else if req.view == FlashcardCreateEditCard then Resolve(req.editingId, s.editingFlashcardId)
      else None;
    var articleId :=
      if req.activeArticleId.Unset? && (Unscoped(req.view) || req.view != ArticleView) then None
      else Resolve(req.activeArticleId, s.activeArticleId);
    s.(activeView := req.view,
       editingQuestionId := editingQuestion,
       activeTestProfileId := profileId,
       activeFlashcardDeckId := deckId,
       editingFlashcardId := editingCard,
       activeArticleId := articleId)
  }

  /**
   * The one request that lands somewhere else when dispatched twice: opening
   * the deck editor with a new deck id but no editing id edits the
   * previously active deck, and a second dispatch then edits the new one.
   */
  predicate DeckEditorSwitch(s: AppState, req: ViewRequest)
  {
    req.view == FlashcardCreateEditDeck && req.editingId.Unset?
    && req.activeFlashcardDeckId.Set? && req.activeFlashcardDeckId.value != s.activeFlashcardDeckId
  }

  /** Dispatching the same SET_VIEW twice is the same as once, except in the deck-editor case. */
  lemma SetViewIdempotentIff(s: AppState, req: ViewRequest)
    ensures SetViewStep(SetViewStep(s, req), req) == SetViewStep(s, req) <==> !DeckEditorSwitch(s, req)
  {
    var r := SetViewStep(s, req);
    var r2 := SetViewStep(r, req);
    if DeckEditorSwitch(s, req) {
      assert r2.editingFlashcardId == r.activeFlashcardDeckId;
      assert r2.editingFlashcardId != r.editingFlashcardId;
    }
  }

  // ---------------------------------------------------------------------------
  // Records and keys
  // ---------------------------------------------------------------------------

  function ProfileKey(p: TestProfile): string { p.id }
  function DeckKey(d: FlashcardDeck): string { d.id }
  function QuestionKey(q: Question): string { q.id }
  function CardKey(c: Flashcard): string { c.id }
  function ProgressKey(p: ArticleProgress): string { p.articleId }

  /**
   * `xs.map(y => key(y) === key(x) ? x : y)`: the record with `x`'s id is
   * replaced by `x`, every id stays where it was, and a replacement whose id
   * is absent changes nothing.
   */
  function ReplaceById<T>(xs: seq<T>, x: T, key: T -> string): (r: seq<T>)
    ensures |r| == |xs|
    ensures forall i :: 0 <= i < |xs| ==> key(r[i]) == key(xs[i])
    ensures forall i :: 0 <= i < |xs| && key(xs[i]) != key(x) ==> r[i] == xs[i]
    ensures forall i :: 0 <= i < |xs| && key(xs[i]) == key(x) ==> r[i] == x
    ensures (forall i :: 0 <= i < |xs| ==> key(xs[i]) != key(x)) ==> r == xs
  {
    Seqs.MapWhere(xs, y => key(y) == key(x), y => x)
  }

  /**
   * `xs.filter(y => key(y) !== k)`: no record keeps id `k`, every other one
   * stays as often as it occurred, in order.
   */
  function RemoveById<T(!new)>(xs: seq<T>, k: string, key: T -> string): (r: seq<T>)
    ensures |r| <= |xs|
    ensures forall y :: y in r ==> key(y) != k
    ensures forall y :: y in xs && key(y) != k ==> y in r
    ensures forall y :: multiset(r)[y] == if key(y) != k then multiset(xs)[y] else 0
    ensures Seqs.IsSubsequence(r, xs)
  {
    Seqs.FilterMultiplicity(xs, KeyIsNot(k, key));
    Seqs.Filter(xs, KeyIsNot(k, key))
  }

  function KeyIsNot<T>(k: string, key: T -> string): T -> bool { y => key(y) != k }
  function KeyNotIn<T>(ks: seq<string>, key: T -> string): T -> bool { y => key(y) !in ks }

  /**
   * `xs.filter(y => !ks.includes(key(y)))`: exactly the records whose id is
   * not listed are kept, each as often as it occurred, in order.
   */
  function RemoveAllById<T(!new)>(xs: seq<T>, ks: seq<string>, key: T -> string): (r: seq<T>)
    ensures |r| <= |xs|
    ensures forall y :: y in r <==> y in xs && key(y) !in ks
    ensures forall y :: multiset(r)[y] == if key(y) !in ks then multiset(xs)[y] else 0
    ensures Seqs.IsSubsequence(r, xs)
  {
    Seqs.FilterMultiplicity(xs, KeyNotIn(ks, key));
    Seqs.Filter(xs, KeyNotIn(ks, key))
  }

  /** Bulk deletion of a one-element id list is single deletion. */
  lemma RemoveAllOfOneIsRemove<T(!new)>(xs: seq<T>, k: string, key: T -> string)
    ensures RemoveAllById(xs, [k], key) == RemoveById(xs, k, key)
  {
    Seqs.FilterExtensional(xs, KeyNotIn([k], key), KeyIsNot(k, key));
  }

  // ---------------------------------------------------------------------------
  // Settings
  // ---------------------------------------------------------------------------

  /** `{ ...t, ...patch }`: each field the patch carries overrides, the rest are kept. */
  function MergeSettings(t: TestSpecificSettings, p: SettingsPatch): (r: TestSpecificSettings)
    ensures r.numQuestions == p.numQuestions.GetOr(t.numQuestions)
    ensures r.useAllQuestions == p.useAllQuestions.GetOr(t.useAllQuestions)
    ensures r.randomizeQuestions == p.randomizeQuestions.GetOr(t.randomizeQuestions)
    ensures r.randomizeAnswers == p.randomizeAnswers.GetOr(t.randomizeAnswers)
    ensures r.answerNumberingStyle == p.answerNumberingStyle.GetOr(t.answerNumberingStyle)
    ensures r.enableTimer == p.enableTimer.GetOr(t.enableTimer)
    ensures r.timerDurationMinutes == p.timerDurationMinutes.GetOr(t.timerDurationMinutes)
  {
    TestSpecificSettings(
      p.numQuestions.GetOr(t.numQuestions),
      p.useAllQuestions.GetOr(t.useAllQuestions),
      p.randomizeQuestions.GetOr(t.randomizeQuestions),
      p.randomizeAnswers.GetOr(t.randomizeAnswers),
      p.answerNumberingStyle.GetOr(t.answerNumberingStyle),
      p.enableTimer.GetOr(t.enableTimer),
      p.timerDurationMinutes.GetOr(t.timerDurationMinutes))
  }

  function FirstSome<T>(a: Option<T>, b: Option<T>): Option<T>
  {
    if b.Some? then b else a
  }

  /** `{ ...p, ...q }` on two patches. */
  function CombinePatches(p: SettingsPatch, q: SettingsPatch): SettingsPatch
  {
    SettingsPatch(
      FirstSome(p.numQuestions, q.numQuestions),
      FirstSome(p.useAllQuestions, q.useAllQuestions),
      FirstSome(p.randomizeQuestions, q.randomizeQuestions),
      FirstSome(p.randomizeAnswers, q.randomizeAnswers),
      FirstSome(p.answerNumberingStyle, q.answerNumberingStyle),
      FirstSome(p.enableTimer, q.enableTimer),
      FirstSome(p.timerDurationMinutes, q.timerDurationMinutes))
  }

  /** Two settings updates in a row are one update with the patches combined; the same patch twice is once. */
  lemma MergeSettingsCompose(t: TestSpecificSettings, p: SettingsPatch, q: SettingsPatch)
    ensures MergeSettings(MergeSettings(t, p), q) == MergeSettings(t, CombinePatches(p, q))
    ensures MergeSettings(MergeSettings(t, p), p) == MergeSettings(t, p)
  {
  }

  function MergeGeneral(g: GeneralAppSettings, p: GeneralSettingsPatch): (r: GeneralAppSettings)
    ensures r.currentLanguage == p.currentLanguage.GetOr(g.currentLanguage)
    ensures r.darkMode == p.darkMode.GetOr(g.darkMode)
  {
    GeneralAppSettings(p.currentLanguage.GetOr(g.currentLanguage), p.darkMode.GetOr(g.darkMode))
  }

  // ---------------------------------------------------------------------------
  // Test profiles
  // ---------------------------------------------------------------------------

  function NewProfile(name: string, description: Option<string>, env: Env, d: Defaults): TestProfile
  {
    TestProfile(env.freshId, name, description, [], d.testSettings, [], env.now, env.now)
  }

  /** The actions that change one test profile in place, picked by id. */
  predicate IsProfileEdit(a: Action)
  {
    a.UpdateTestProfileDetails? || a.SetQuestionsForProfile? || a.AddQuestionToProfile?
    || a.UpdateQuestionInProfile? || a.DeleteQuestionFromProfile? || a.DeleteBulkQuestionsFromProfile?
    || a.UpdateTestSpecificSettings? || a.AddHistoryToProfile? || a.ClearHistoryForProfile?
  }

  function ProfileTarget(a: Action): string
    requires IsProfileEdit(a)
  {
    if a.UpdateTestProfileDetails? then a.id else a.profileId
  }

  /** The profile actions that change only the question list. */
  predicate IsQuestionEdit(a: Action)
  {
    a.SetQuestionsForProfile? || a.AddQuestionToProfile? || a.UpdateQuestionInProfile?
    || a.DeleteQuestionFromProfile? || a.DeleteBulkQuestionsFromProfile?
  }

  /** The profile actions that change only the quiz history. */
  predicate IsHistoryEdit(a: Action)
  {
    a.AddHistoryToProfile? || a.ClearHistoryForProfile?
  }

  /**
   * One profile edit: the id and creation time stay, the update time is
   * `now`, and each action changes only its own part of the profile.
   */
  function EditProfile(p: TestProfile, a: Action, now: string): (r: TestProfile)
    requires IsProfileEdit(a)
    ensures r.id == p.id && r.createdAt == p.createdAt && r.updatedAt == now
    // what each action leaves alone
    ensures a.UpdateTestProfileDetails? ==> r == p.(name := a.name, description := a.description, updatedAt := now)
    ensures a.UpdateTestSpecificSettings? ==> r == p.(settings := MergeSettings(p.settings, a.patch), updatedAt := now)
    ensures IsQuestionEdit(a) ==> r == p.(questions := r.questions, updatedAt := now)
    ensures IsHistoryEdit(a) ==> r == p.(history := r.history, updatedAt := now)
    // what each action does to the questions
    ensures a.SetQuestionsForProfile? ==> r.questions == a.questions
    ensures a.AddQuestionToProfile? ==> r.questions == p.questions + [a.question]
    ensures a.UpdateQuestionInProfile? ==> r.questions == ReplaceById(p.questions, a.question, QuestionKey)
    ensures a.DeleteQuestionFromProfile? ==> r.questions == RemoveById(p.questions, a.questionId, QuestionKey)
    ensures a.DeleteBulkQuestionsFromProfile? ==> r.questions == RemoveAllById(p.questions, a.questionIds, QuestionKey)
    // and to the history
    ensures a.AddHistoryToProfile? ==> r.history == p.history + [a.entry]
    ensures a.ClearHistoryForProfile? ==> r.history == []
  {
    if IsQuestionEdit(a) then p.(questions := QuestionsAfter(p.questions, a), updatedAt := now)
    else if IsHistoryEdit(a) then p.(history := HistoryAfter(p.history, a), updatedAt := now)
    else if a.UpdateTestProfileDetails? then p.(name := a.name, description := a.description, updatedAt := now)
    else p.(settings := MergeSettings(p.settings, a.patch), updatedAt := now)
  }

  /** The question list after a question action. */
  function QuestionsAfter(qs: seq<Question>, a: Action): (r: seq<Question>)
    requires IsQuestionEdit(a)
    ensures a.SetQuestionsForProfile? ==> r == a.questions
    ensures a.AddQuestionToProfile? ==> r == qs + [a.question]
    ensures a.UpdateQuestionInProfile? ==> r == ReplaceById(qs, a.question, QuestionKey)
    ensures a.DeleteQuestionFromProfile? ==> r == RemoveById(qs, a.questionId, QuestionKey)
    ensures a.DeleteBulkQuestionsFromProfile? ==> r == RemoveAllById(qs, a.questionIds, QuestionKey)
  {
    match a
    case SetQuestionsForProfile(_, newQs) => newQs
    case AddQuestionToProfile(_, q) => qs + [q]
    case UpdateQuestionInProfile(_, q) => ReplaceById(qs, q, QuestionKey)
    case DeleteQuestionFromProfile(_, qid) => RemoveById(qs, qid, QuestionKey)
    case DeleteBulkQuestionsFromProfile(_, qids) => RemoveAllById(qs, qids, QuestionKey)
  }

  /** The quiz history after a history action. */
  function HistoryAfter(h: seq<QuizHistoryEntry>, a: Action): (r: seq<QuizHistoryEntry>)
    requires IsHistoryEdit(a)
    ensures a.AddHistoryToProfile? ==> r == h + [a.entry]
    ensures a.ClearHistoryForProfile? ==> r == []
  {
    if a.AddHistoryToProfile? then h + [a.entry] else []
  }

  function ProfileHit(id: string): TestProfile -> bool { (p: TestProfile) => p.id == id }

  function ProfileEditor(a: Action, now: string): TestProfile -> TestProfile
    requires IsProfileEdit(a)
  {
    p => EditProfile(p, a, now)
  }

  function DeleteProfileStep(s: AppState, id: string): (r: AppState)
  {
    var kept := RemoveById(s.testProfiles, id, ProfileKey);
    s.(testProfiles := kept,
       activeTestProfileId := if s.activeTestProfileId == Some(id) then None else s.activeTestProfileId,
       activeView := if |kept| > 0 then MyTests else Home)
  }

  // ---------------------------------------------------------------------------
  // Flashcard decks
  // ---------------------------------------------------------------------------

  function DeleteDeckStep(s: AppState, id: string): (r: AppState)
  {
    s.(flashcardDecks := RemoveById(s.flashcardDecks, id, DeckKey),
       activeFlashcardDeckId := if s.activeFlashcardDeckId == Some(id) then None else s.activeFlashcardDeckId)
  }

  function NewDeck(name: string, description: Option<string>, env: Env): FlashcardDeck
  {
    FlashcardDeck(env.freshId, name, description, [], env.now, env.now)
  }

  /** The actions that change one deck in place, picked by id. */
  predicate IsDeckEdit(a: Action)
  {
    a.UpdateFlashcardDeckDetails? || a.AddFlashcardToDeck? || a.UpdateFlashcardInDeck? || a.DeleteFlashcardFromDeck?
  }

  function DeckTarget(a: Action): string
    requires IsDeckEdit(a)
  {
    if a.UpdateFlashcardDeckDetails? then a.id else a.deckId
  }

  /**
   * One deck edit: the id and creation time stay, the update time is `now`;
   * the details update renames and the card actions change only the cards.
   */
  function EditDeck(d: FlashcardDeck, a: Action, now: string): (r: FlashcardDeck)
    requires IsDeckEdit(a)
    ensures r.id == d.id && r.createdAt == d.createdAt && r.updatedAt == now
    ensures a.UpdateFlashcardDeckDetails? ==> r == d.(name := a.name, description := a.description, updatedAt := now)
    ensures !a.UpdateFlashcardDeckDetails? ==> r == d.(flashcards := r.flashcards, updatedAt := now)
    ensures a.AddFlashcardToDeck? ==> r.flashcards == d.flashcards + [a.card]
    ensures a.UpdateFlashcardInDeck? ==> r.flashcards == ReplaceById(d.flashcards, a.card, CardKey)
    ensures a.DeleteFlashcardFromDeck? ==> r.flashcards == RemoveById(d.flashcards, a.cardId, CardKey)
  {
    var edited := match a
      case UpdateFlashcardDeckDetails(_, name, description) => d.(name := name, description := description)
      case AddFlashcardToDeck(_, c) => d.(flashcards := d.flashcards + [c])
      case UpdateFlashcardInDeck(_, c) => d.(flashcards := ReplaceById(d.flashcards, c, CardKey))
      case DeleteFlashcardFromDeck(_, cardId) => d.(flashcards := RemoveById(d.flashcards, cardId, CardKey))
      case _ => d;
    edited.(updatedAt := now)
  }

  function DeckHit(id: string): FlashcardDeck -> bool { (d: FlashcardDeck) => d.id == id }

  function DeckEditor(a: Action, now: string): FlashcardDeck -> FlashcardDeck
    requires IsDeckEdit(a)
  {
    d => EditDeck(d, a, now)
  }

  // ---------------------------------------------------------------------------
  // Article progress
  // ---------------------------------------------------------------------------

  function OtherArticle(id: string): ArticleProgress -> bool { (p: ArticleProgress) => p.articleId != id }
  function SameArticle(id: string): ArticleProgress -> bool { (p: ArticleProgress) => p.articleId == id }

  /** The progress records kept for one article. */
  function RecordsFor(ps: seq<ArticleProgress>, id: string): seq<ArticleProgress>
  {
    Seqs.Filter(ps, SameArticle(id))
  }

  /** MARK_ARTICLE_AS_READ: drop every record of the article, then append a fresh read one. */
  function MarkRead(ps: seq<ArticleProgress>, id: string, now: string): (r: seq<ArticleProgress>)
    ensures RecordsFor(r, id) == [ArticleProgress(id, true, Some(now))]
    ensures Seqs.Filter(r, OtherArticle(id)) == Seqs.Filter(ps, OtherArticle(id))
  {
    var others := Seqs.Filter(ps, OtherArticle(id));
    var record := ArticleProgress(id, true, Some(now));
    Seqs.FilterAppend(others, [record], SameArticle(id));
    Seqs.FilterNoneKept(others, SameArticle(id));
    Seqs.FilterAppend(others, [record], OtherArticle(id));
    Seqs.FilterIdempotent(ps, OtherArticle(id));
    others + [record]
  }

  function UnreadAt(id: string, now: string): ArticleProgress -> ArticleProgress
  {
    (p: ArticleProgress) => if p.articleId == id then p.(isRead := false, lastReadAt := Some(now)) else p
  }

  predicate HasRecord(ps: seq<ArticleProgress>, id: string)
  {
    exists i :: 0 <= i < |ps| && ps[i].articleId == id
  }

  /**
   * MARK_ARTICLE_AS_UNREAD: every record of the article becomes unread at
   * `now`; when there was none, an unread one is appended.
   */
  function MarkUnread(ps: seq<ArticleProgress>, id: string, now: string): (r: seq<ArticleProgress>)
    ensures |r| == |ps| + (if HasRecord(ps, id) then 0 else 1)
    ensures HasRecord(r, id)
    ensures forall i :: 0 <= i < |r| && r[i].articleId == id ==> !r[i].isRead && r[i].lastReadAt == Some(now)
    ensures forall i :: 0 <= i < |ps| && ps[i].articleId != id ==> r[i] == ps[i]
    ensures forall i :: 0 <= i < |ps| ==> r[i].articleId == ps[i].articleId
  {
    var mapped := Seqs.MapWhere(ps, SameArticle(id), UnreadAt(id, now));
    if HasRecord(mapped, id) then mapped
    else
      var r := mapped + [ArticleProgress(id, false, Some(now))];
      assert r[|mapped|].articleId == id;
      r
  }

  /** Marking read twice is marking read once. */
  lemma MarkReadIdempotent(ps: seq<ArticleProgress>, id: string, now: string)
    ensures MarkRead(MarkRead(ps, id, now), id, now) == MarkRead(ps, id, now)
  {
    var once := MarkRead(ps, id, now);
    var others := Seqs.Filter(ps, OtherArticle(id));
    var record := ArticleProgress(id, true, Some(now));
    assert once == others + [record];
    assert Seqs.Filter(once, OtherArticle(id)) == others;
  }

  /** Reading then un-reading leaves exactly one record for the article, unread. */
  lemma ReadThenUnread(ps: seq<ArticleProgress>, id: string, now: string, later: string)
    ensures RecordsFor(MarkUnread(MarkRead(ps, id, now), id, later), id) == [ArticleProgress(id, false, Some(later))]
  {
    var read := MarkRead(ps, id, now);
    var others := Seqs.Filter(ps, OtherArticle(id));
    var record := ArticleProgress(id, true, Some(now));
    assert read == others + [record];
    assert read[|others|] == record;
    assert HasRecord(read, id);
    var un := MarkUnread(read, id, later);
    assert un == Seqs.MapWhere(read, SameArticle(id), UnreadAt(id, later));
    assert un == Seqs.MapWhere(others, SameArticle(id), UnreadAt(id, later)) + [ArticleProgress(id, false, Some(later))];
    assert Seqs.MapWhere(others, SameArticle(id), UnreadAt(id, later)) == others by {
      forall i | 0 <= i < |others| ensures others[i].articleId != id {
        assert others[i] in others;
      }
    }
    Seqs.FilterAppend(others, [ArticleProgress(id, false, Some(later))], SameArticle(id));
    forall i | 0 <= i < |others| ensures !SameArticle(id)(others[i]) {
      assert others[i] in others;
    }
    Seqs.FilterNoneKept(others, SameArticle(id));
  }

  // ---------------------------------------------------------------------------
  // The reducer
  // ---------------------------------------------------------------------------

  /** The actions that may change the list of test profiles. */
  predicate OwnsProfiles(a: Action)
  {
    IsProfileEdit(a) || a.CreateTestProfile? || a.DeleteTestProfile? || a.LoadInitialData? || a.ClearAllUserData?
  }

  /** The actions that may change the list of flashcard decks. */
  predicate OwnsDecks(a: Action)
  {
    IsDeckEdit(a) || a.CreateFlashcardDeck? || a.DeleteFlashcardDeck? || a.LoadInitialData? || a.ClearAllUserData?
  }

  /** The actions that may change the reading progress. */
  predicate OwnsProgress(a: Action)
  {
    a.MarkArticleAsRead? || a.MarkArticleAsUnread? || a.LoadInitialData? || a.ClearAllUserData?
  }

  function Reduce(s: AppState, a: Action, env: Env, d: Defaults): (r: AppState)
    // the article list itself only ever changes by loading or clearing
    ensures !(a.LoadInitialData? || a.ClearAllUserData?) ==> r.articles == s.articles
    ensures !(a.LoadInitialData? || a.UpdateGeneralSettings? || a.ClearAllUserData?) ==>
      r.generalSettings == s.generalSettings
    // every other stored collection changes only under the actions that own it
    ensures !OwnsProfiles(a) ==> r.testProfiles == s.testProfiles
    ensures !OwnsDecks(a) ==> r.flashcardDecks == s.flashcardDecks
    ensures !OwnsProgress(a) ==> r.articleProgress == s.articleProgress
    // an in-place edit never adds, drops or reorders profiles or decks
    ensures IsProfileEdit(a) ==>
      (|r.testProfiles| == |s.testProfiles|
       && forall i :: 0 <= i < |s.testProfiles| ==> r.testProfiles[i].id == s.testProfiles[i].id)
    ensures IsDeckEdit(a) ==>
      (|r.flashcardDecks| == |s.flashcardDecks|
       && forall i :: 0 <= i < |s.flashcardDecks| ==> r.flashcardDecks[i].id == s.flashcardDecks[i].id)
  {
    if IsProfileEdit(a) then EditProfiles(s, a, env.now)
    else if IsDeckEdit(a) then EditDecks(s, a, env.now)
    else ReduceOther(s, a, env, d)
  }

  /** The actions that do not edit one profile or one deck in place. */
  function ReduceOther(s: AppState, a: Action, env: Env, d: Defaults): (r: AppState)
    requires !IsProfileEdit(a) && !IsDeckEdit(a)
    ensures !(a.LoadInitialData? || a.ClearAllUserData?) ==> r.articles == s.articles
    ensures !(a.LoadInitialData? || a.UpdateGeneralSettings? || a.ClearAllUserData?) ==>
      r.generalSettings == s.generalSettings
    ensures !OwnsProfiles(a) ==> r.testProfiles == s.testProfiles
    ensures !OwnsDecks(a) ==> r.flashcardDecks == s.flashcardDecks
    ensures !OwnsProgress(a) ==> r.articleProgress == s.articleProgress
  {
    match a
    case LoadInitialData(ps, g, ds, arts, prog) =>
      s.(testProfiles := ps, generalSettings := g, flashcardDecks := ds, articles := arts,
         articleProgress := prog, activeView := Home, activeTestProfileId := None, editingQuestionId := None,
         activeFlashcardDeckId := None, editingFlashcardId := None, activeArticleId := None)
    case SetView(req) => SetViewStep(s, req)
    case SetActiveTestProfileId(id) => s.(activeTestProfileId := id)
    case UpdateGeneralSettings(patch) => s.(generalSettings := MergeGeneral(s.generalSettings, patch))
    case CreateTestProfile(name, description) =>
      s.(testProfiles := s.testProfiles + [NewProfile(name, description, env, d)],
         activeView := MyTests, activeTestProfileId := None)
    case DeleteTestProfile(id) => DeleteProfileStep(s, id)
    case ClearAllUserData => InitialState(d)
    case CreateFlashcardDeck(name, description) =>
      s.(flashcardDecks := s.flashcardDecks + [NewDeck(name, description, env)],
         activeView := FlashcardDecksList, activeFlashcardDeckId := None)
    case DeleteFlashcardDeck(id) => DeleteDeckStep(s, id)
    case MarkArticleAsRead(id) => s.(articleProgress := MarkRead(s.articleProgress, id, env.now))
    case MarkArticleAsUnread(id) => s.(articleProgress := MarkUnread(s.articleProgress, id, env.now))
    case OpenMessageModal(m) => s.(isMessageModalOpen := true, messageModalContent := m)
    case CloseMessageModal => s.(isMessageModalOpen := false)
    case OpenConfirmModal(c, onConfirm) =>
      s.(isConfirmModalOpen := true, confirmModalContent := c, confirmModalOnConfirm := Some(onConfirm))
    case CloseConfirmModal => s.(isConfirmModalOpen := false, confirmModalOnConfirm := None)
    case OpenXlsxMappingModal(sheet, fileName, onMapping) =>
      s.(isXlsxMappingModalOpen := true, xlsxSheetData := Some(sheet), xlsxFileName := Some(fileName),
         xlsxConfirmCallback := Some(onMapping))
    case CloseXlsxMappingModal =>
      s.(isXlsxMappingModalOpen := false, xlsxSheetData := None, xlsxFileName := None, xlsxConfirmCallback := None)
  }

  function EditProfiles(s: AppState, a: Action, now: string): (r: AppState)
    requires IsProfileEdit(a)
    ensures r == s.(testProfiles := r.testProfiles)
    ensures |r.testProfiles| == |s.testProfiles|
    ensures forall i :: 0 <= i < |s.testProfiles| ==> r.testProfiles[i].id == s.testProfiles[i].id
  {
    s.(testProfiles := Seqs.MapWhere(s.testProfiles, ProfileHit(ProfileTarget(a)), ProfileEditor(a, now)))
  }

  function EditDecks(s: AppState, a: Action, now: string): (r: AppState)
    requires IsDeckEdit(a)
    ensures r == s.(flashcardDecks := r.flashcardDecks)
    ensures |r.flashcardDecks| == |s.flashcardDecks|
    ensures forall i :: 0 <= i < |s.flashcardDecks| ==> r.flashcardDecks[i].id == s.flashcardDecks[i].id
  {
    s.(flashcardDecks := Seqs.MapWhere(s.flashcardDecks, DeckHit(DeckTarget(a)), DeckEditor(a, now)))
  }

  // ---------------------------------------------------------------------------
  // Properties of single actions
  // ---------------------------------------------------------------------------

  /** A profile edit changes only the profile with the target id, and stamps it with the time. */
  lemma ProfileEditTouchesOnlyTarget(s: AppState, a: Action, env: Env, d: Defaults)
    requires IsProfileEdit(a)
    ensures var r := Reduce(s, a, env, d);
      r == s.(testProfiles := r.testProfiles)
      && forall i :: 0 <= i < |s.testProfiles| ==>
           if s.testProfiles[i].id == ProfileTarget(a)
           then r.testProfiles[i] == EditProfile(s.testProfiles[i], a, env.now) && r.testProfiles[i].updatedAt == env.now
           else r.testProfiles[i] == s.testProfiles[i]
  {
  }

  /** A deck edit changes only the deck with the target id. */
  lemma DeckEditTouchesOnlyTarget(s: AppState, a: Action, env: Env, d: Defaults)
    requires IsDeckEdit(a)
    ensures var r := Reduce(s, a, env, d);
      r == s.(flashcardDecks := r.flashcardDecks)
      && forall i :: 0 <= i < |s.flashcardDecks| ==>
           if s.flashcardDecks[i].id == DeckTarget(a)
           then r.flashcardDecks[i] == EditDeck(s.flashcardDecks[i], a, env.now)
           else r.flashcardDecks[i] == s.flashcardDecks[i]
  {
    ReduceIsDeckEdit(s, a, env, d);
  }

  /** A deck edit is handled by `EditDecks`. */
  lemma ReduceIsDeckEdit(s: AppState, a: Action, env: Env, d: Defaults)
    requires IsDeckEdit(a)
    ensures Reduce(s, a, env, d) == EditDecks(s, a, env.now)
  {
    assert !IsProfileEdit(a);
  }

  /** A new profile is appended last, empty, with the default settings; the app returns to the test list. */
  lemma CreateProfileAppends(s: AppState, name: string, description: Option<string>, env: Env, d: Defaults)
    ensures var r := Reduce(s, CreateTestProfile(name, description), env, d);
      |r.testProfiles| == |s.testProfiles| + 1
      && r.testProfiles[..|s.testProfiles|] == s.testProfiles
      && r.activeView == MyTests && r.activeTestProfileId.None?
      && (var p := r.testProfiles[|s.testProfiles|];
          p.id == env.freshId && p.name == name && p.questions == [] && p.history == []
          && p.settings == d.testSettings && p.createdAt == env.now)
  {
  }

  /**
   * Deleting a profile removes every profile with that id and keeps the
   * others in order; the selection is cleared exactly when it was the deleted
   * profile, and the app shows the test list, or the home screen once none is left.
   */
  lemma DeleteProfileRemoves(s: AppState, id: string, env: Env, d: Defaults)
    ensures var r := Reduce(s, DeleteTestProfile(id), env, d);
      (forall p :: p in r.testProfiles <==> p in s.testProfiles && p.id != id)
      && Seqs.IsSubsequence(r.testProfiles, s.testProfiles)
      && (r.activeTestProfileId.None? <==> s.activeTestProfileId.None? || s.activeTestProfileId == Some(id))
      && (s.activeTestProfileId != Some(id) ==> r.activeTestProfileId == s.activeTestProfileId)
      && (r.activeView == MyTests <==> exists p :: p in s.testProfiles && p.id != id)
      && (r.activeView != MyTests ==> r.activeView == Home)
  {
    assert Reduce(s, DeleteTestProfile(id), env, d) == ReduceOther(s, DeleteTestProfile(id), env, d) == DeleteProfileStep(s, id);
    DeleteProfileStepRemoves(s, id);
  }

  lemma DeleteProfileStepRemoves(s: AppState, id: string)
    ensures var r := DeleteProfileStep(s, id);
      (forall p :: p in r.testProfiles <==> p in s.testProfiles && p.id != id)
      && Seqs.IsSubsequence(r.testProfiles, s.testProfiles)
      && (r.activeTestProfileId.None? <==> s.activeTestProfileId.None? || s.activeTestProfileId == Some(id))
      && (s.activeTestProfileId != Some(id) ==> r.activeTestProfileId == s.activeTestProfileId)
      && (r.activeView == MyTests <==> exists p :: p in s.testProfiles && p.id != id)
      && (r.activeView != MyTests ==> r.activeView == Home)
  {
    var r := DeleteProfileStep(s, id);
    assert r.testProfiles == Seqs.Filter(s.testProfiles, KeyIsNot(id, ProfileKey));
    forall p ensures KeyIsNot(id, ProfileKey)(p) <==> p.id != id {
    }
    if exists p :: p in s.testProfiles && p.id != id {
      var p :| p in s.testProfiles && p.id != id;
      assert p in r.testProfiles;
    }
    if |r.testProfiles| > 0 {
      assert r.testProfiles[0] in r.testProfiles;
    }
  }

  /**
   * Creating a deck appends exactly one empty deck with the fresh id after the
   * unchanged decks, shows the deck list with no selection, and changes nothing else.
   */
  lemma CreateDeckAppends(s: AppState, name: string, description: Option<string>, env: Env, d: Defaults)
    ensures var r := Reduce(s, CreateFlashcardDeck(name, description), env, d);
      |r.flashcardDecks| == |s.flashcardDecks| + 1
      && r.flashcardDecks[..|s.flashcardDecks|] == s.flashcardDecks
      && r.activeView == FlashcardDecksList && r.activeFlashcardDeckId.None?
      && (var k := r.flashcardDecks[|s.flashcardDecks|];
          k.id == env.freshId && k.name == name && k.description == description && k.flashcards == []
          && k.createdAt == env.now && k.updatedAt == env.now)
      && r == s.(flashcardDecks := r.flashcardDecks, activeView := FlashcardDecksList, activeFlashcardDeckId := None)
  {
    var a := CreateFlashcardDeck(name, description);
    ReduceIsOther(s, a, env, d);
  }

  /**
   * Deleting a deck removes every deck with that id and keeps the others in
   * order; it keeps the screen, and clears the selection only if it was that deck.
   */
  lemma DeleteDeckRemoves(s: AppState, id: string, env: Env, d: Defaults)
    ensures var r := Reduce(s, DeleteFlashcardDeck(id), env, d);
      (forall x :: x in r.flashcardDecks <==> x in s.flashcardDecks && x.id != id)
      && Seqs.IsSubsequence(r.flashcardDecks, s.flashcardDecks)
      && r.activeView == s.activeView
      && (r.activeFlashcardDeckId.None? <==> s.activeFlashcardDeckId.None? || s.activeFlashcardDeckId == Some(id))
      && (s.activeFlashcardDeckId != Some(id) ==> r.activeFlashcardDeckId == s.activeFlashcardDeckId)
  {
    ReduceDeleteDeck(s, id, env, d);
    DeleteDeckStepRemoves(s, id);
  }

  lemma ReduceDeleteDeck(s: AppState, id: string, env: Env, d: Defaults)
    ensures Reduce(s, DeleteFlashcardDeck(id), env, d) == DeleteDeckStep(s, id)
  {
    var a := DeleteFlashcardDeck(id);
    ReduceIsOther(s, a, env, d);
    assert ReduceOther(s, a, env, d) == DeleteDeckStep(s, id);
  }

  /** An action that edits no single profile or deck is handled by `ReduceOther`. */
  lemma ReduceIsOther(s: AppState, a: Action, env: Env, d: Defaults)
    requires !IsProfileEdit(a) && !IsDeckEdit(a)
    ensures Reduce(s, a, env, d) == ReduceOther(s, a, env, d)
  {
  }

  lemma DeleteDeckStepRemoves(s: AppState, id: string)
    ensures var r := DeleteDeckStep(s, id);
      (forall x :: x in r.flashcardDecks <==> x in s.flashcardDecks && x.id != id)
      && Seqs.IsSubsequence(r.flashcardDecks, s.flashcardDecks)
      && r.activeView == s.activeView
      && (r.activeFlashcardDeckId.None? <==> s.activeFlashcardDeckId.None? || s.activeFlashcardDeckId == Some(id))
      && (s.activeFlashcardDeckId != Some(id) ==> r.activeFlashcardDeckId == s.activeFlashcardDeckId)
  {
    var r := DeleteDeckStep(s, id);
    assert r.flashcardDecks == Seqs.Filter(s.flashcardDecks, KeyIsNot(id, DeckKey));
    forall x ensures KeyIsNot(id, DeckKey)(x) <==> x.id != id {
    }
  }

  /** Clearing all user data is a reset to the initial state, whatever came before. */
  lemma ClearAllResets(s: AppState, t: AppState, env: Env, env2: Env, d: Defaults)
    ensures Reduce(s, ClearAllUserData, env, d) == InitialState(d)
    ensures Reduce(s, ClearAllUserData, env, d) == Reduce(t, ClearAllUserData, env2, d)
  {
  }

  /** Opening and then closing the message modal leaves it closed, showing the last message. */
  lemma MessageModalOpenClose(s: AppState, m: MessageContent, env: Env, d: Defaults)
    ensures Reduce(Reduce(s, OpenMessageModal(m), env, d), CloseMessageModal, env, d)
            == s.(isMessageModalOpen := false, messageModalContent := m)
  {
  }

  /** Closing the confirm modal drops its callback, so a confirmation cannot run twice. */
  lemma ConfirmModalOpenClose(s: AppState, c: ConfirmContent, cb: seq<Action>, env: Env, d: Defaults)
    ensures var shown := Reduce(s, OpenConfirmModal(c, cb), env, d);
      shown.isConfirmModalOpen && shown.confirmModalOnConfirm == Some(cb)
      && Reduce(shown, CloseConfirmModal, env, d)
         == s.(isConfirmModalOpen := false, confirmModalContent := c, confirmModalOnConfirm := None)
  {
  }

  /** Closing the spreadsheet-mapping modal forgets the sheet, the file name and the callback. */
  lemma XlsxModalOpenClose(s: AppState, sheet: seq<seq<string>>, name: string, x: XlsxCallback, env: Env, d: Defaults)
    ensures Reduce(Reduce(s, OpenXlsxMappingModal(sheet, name, x), env, d), CloseXlsxMappingModal, env, d)
            == s.(isXlsxMappingModalOpen := false, xlsxSheetData := None, xlsxFileName := None, xlsxConfirmCallback := None)
  {
  }

  // ---------------------------------------------------------------------------
  // The store invariant: ids are unique
  // ---------------------------------------------------------------------------

  /** No two profiles, no two decks and no two progress records share an id. */
  ghost predicate WellFormed(s: AppState)
  {
    Seqs.DistinctKeys(s.testProfiles, ProfileKey)
    && Seqs.DistinctKeys(s.flashcardDecks, DeckKey)
    && Seqs.DistinctKeys(s.articleProgress, ProgressKey)
  }

  /** What the environment must guarantee for a step: loaded data has unique ids and fresh ids are fresh. */
  ghost predicate StepOk(s: AppState, a: Action, env: Env)
  {
    match a
    case LoadInitialData(ps, _, ds, _, prog) =>
      Seqs.DistinctKeys(ps, ProfileKey) && Seqs.DistinctKeys(ds, DeckKey) && Seqs.DistinctKeys(prog, ProgressKey)
    case CreateTestProfile(_, _) => forall i :: 0 <= i < |s.testProfiles| ==> s.testProfiles[i].id != env.freshId
    case CreateFlashcardDeck(_, _) => forall i :: 0 <= i < |s.flashcardDecks| ==> s.flashcardDecks[i].id != env.freshId
    case _ => true
  }

  lemma MarkReadKeepsDistinct(ps: seq<ArticleProgress>, id: string, now: string)
    requires Seqs.DistinctKeys(ps, ProgressKey)
    ensures Seqs.DistinctKeys(MarkRead(ps, id, now), ProgressKey)
  {
    var others := Seqs.Filter(ps, OtherArticle(id));
    Seqs.FilterDistinctKeys(ps, OtherArticle(id), ProgressKey);
    forall i | 0 <= i < |others| ensures ProgressKey(others[i]) != id {
      assert others[i] in others;
    }
    Seqs.AppendDistinctKeys(others, ArticleProgress(id, true, Some(now)), ProgressKey);
  }

  lemma MarkUnreadKeepsDistinct(ps: seq<ArticleProgress>, id: string, now: string)
    requires Seqs.DistinctKeys(ps, ProgressKey)
    ensures Seqs.DistinctKeys(MarkUnread(ps, id, now), ProgressKey)
  {
    var mapped := Seqs.MapWhere(ps, SameArticle(id), UnreadAt(id, now));
    Seqs.MapWhereKeepsDistinctKeys(ps, SameArticle(id), UnreadAt(id, now), ProgressKey);
    if !HasRecord(mapped, id) {
      Seqs.AppendDistinctKeys(mapped, ArticleProgress(id, false, Some(now)), ProgressKey);
    }
  }

  /** Every action keeps ids unique, given unique loaded data and fresh new ids. */
  lemma ReducePreservesWellFormed(s: AppState, a: Action, env: Env, d: Defaults)
    requires WellFormed(s) && StepOk(s, a, env)
    ensures WellFormed(Reduce(s, a, env, d))
  {
    var r := Reduce(s, a, env, d);
    if IsProfileEdit(a) {
      Seqs.MapWhereKeepsDistinctKeys(s.testProfiles, ProfileHit(ProfileTarget(a)), ProfileEditor(a, env.now), ProfileKey);
    } else if IsDeckEdit(a) {
      Seqs.MapWhereKeepsDistinctKeys(s.flashcardDecks, DeckHit(DeckTarget(a)), DeckEditor(a, env.now), DeckKey);
    } else {
      match a
      case CreateTestProfile(name, description) =>
        Seqs.AppendDistinctKeys(s.testProfiles, NewProfile(name, description, env, d), ProfileKey);
      case CreateFlashcardDeck(name, description) =>
        Seqs.AppendDistinctKeys(s.flashcardDecks, NewDeck(name, description, env), DeckKey);
      case DeleteTestProfile(id) =>
        Seqs.FilterDistinctKeys(s.testProfiles, KeyIsNot(id, ProfileKey), ProfileKey);
      case DeleteFlashcardDeck(id) =>
        Seqs.FilterDistinctKeys(s.flashcardDecks, KeyIsNot(id, DeckKey), DeckKey);
      case MarkArticleAsRead(id) => MarkReadKeepsDistinct(s.articleProgress, id, env.now);
      case MarkArticleAsUnread(id) => MarkUnreadKeepsDistinct(s.articleProgress, id, env.now);
      case _ =>
    }
  }

  /** Dispatching a sequence of actions, each with its own clock reading and fresh id. */
  function ReduceAll(s: AppState, steps: seq<(Action, Env)>, d: Defaults): AppState
    decreases |steps|
  {
    if steps == [] then s else ReduceAll(Reduce(s, steps[0].0, steps[0].1, d), steps[1..], d)
  }

  /** Every step of the run meets `StepOk` in the state it is dispatched in. */
  ghost predicate RunOk(s: AppState, steps: seq<(Action, Env)>, d: Defaults)
    decreases |steps|
  {
    steps == [] || (StepOk(s, steps[0].0, steps[0].1) && RunOk(Reduce(s, steps[0].0, steps[0].1, d), steps[1..], d))
  }

  /** Dispatching `xs` then `ys` is dispatching `xs + ys`. */
  lemma {:induction false} ReduceAllAppend(s: AppState, xs: seq<(Action, Env)>, ys: seq<(Action, Env)>, d: Defaults)
    ensures ReduceAll(ReduceAll(s, xs, d), ys, d) == ReduceAll(s, xs + ys, d)
    decreases |xs|
  {
    if xs == [] {
      assert xs + ys == ys;
    } else {
      assert (xs + ys)[0] == xs[0];
      assert (xs + ys)[1..] == xs[1..] + ys;
      ReduceAllAppend(Reduce(s, xs[0].0, xs[0].1, d), xs[1..], ys, d);
    }
  }

  /** Ids stay unique over any run of the app that loads unique data and draws fresh ids. */
  lemma {:induction false} ReduceAllPreservesWellFormed(s: AppState, steps: seq<(Action, Env)>, d: Defaults)
    requires WellFormed(s) && RunOk(s, steps, d)
    ensures WellFormed(ReduceAll(s, steps, d))
    decreases |steps|
  {
    if steps != [] {
      ReducePreservesWellFormed(s, steps[0].0, steps[0].1, d);
      ReduceAllPreservesWellFormed(Reduce(s, steps[0].0, steps[0].1, d), steps[1..], d);
    }
  }

  /** The initial state is well formed. */
  lemma InitialWellFormed(d: Defaults)
    ensures WellFormed(InitialState(d))
  {
  }
}
