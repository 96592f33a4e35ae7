/**
 * The quiz screen's session engine: choosing and rendering the questions of
 * an attempt, the answer buffer, navigation, scoring, the countdown tick and
 * the guarded submit. Every handler is a function from the session (the
 * component's state and refs) and its inputs to the next session plus the
 * actions it dispatches; the clock (milliseconds), the ISO date stamp and
 * the shuffle draws are inputs.
 */
module Quiz {
  import opened Wrappers
  import opened Types
  import opened Strings
  import opened Store
  import Shuffle

  // ---------------------------------------------------------------------------
  // Answer numbering
  // ---------------------------------------------------------------------------

  /**
   * `String.fromCharCode(n)`: the code unit `n mod 2^16`. A lone surrogate
   * unit is not a Dafny `char`; it becomes U+FFFD here.
   */
  function FromCharCode(n: nat): (c: char)
    ensures n < 0xD800 ==> c as int == n
  {
    var u := n % 0x1_0000;
    if 0xD800 <= u < 0xE000 then '\U{FFFD}' else u as char
  }

  /** `getOptionPrefix` */
  function OptionPrefix(style: AnswerNumberingStyle, index: nat): (r: string)
    ensures style == NoNumbering <==> r == ""
    ensures style != NoNumbering ==> |r| >= 3 && r[|r| - 2..] == ". "
  {
    match style
    case Numbers => IntToString(index + 1) + ". "
    case LettersUpper => [FromCharCode(65 + index)] + ". "
    case LettersLower => [FromCharCode(97 + index)] + ". "
    case NoNumbering => ""
  }

  /** A numbered prefix reads back as the 1-based position. */
  lemma NumberPrefixParses(index: nat)
    ensures ParseInt(OptionPrefix(Numbers, index)) == Some(index + 1)
  {
    var d := NatToString(index + 1);
    assert IntToString(index + 1) == d;
    ParseIntOfDigitsThen(d, ". ");
    DigitsValueOfNatToString(index + 1);
  }

  /** Lettered prefixes run A, B, C, … (a, b, c, …) through the alphabet. */
  lemma LetterPrefixIsAlphabet(index: nat)
    requires index < 26
    ensures OptionPrefix(LettersUpper, index) == [('A' as int + index) as char] + ". "
    ensures OptionPrefix(LettersLower, index) == [('a' as int + index) as char] + ". "
  {
  }

  /** Different options get different prefixes (below the surrogate range of letters). */
  lemma OptionPrefixInjective(style: AnswerNumberingStyle, i: nat, j: nat)
    requires style != NoNumbering && i != j && i < 0xD800 - 97 && j < 0xD800 - 97
    ensures OptionPrefix(style, i) != OptionPrefix(style, j)
  {
    if style == Numbers {
      NumberPrefixInjective(i, j);
    } else {
      var a := OptionPrefix(style, i);
      var b := OptionPrefix(style, j);
      assert a[0] as int != b[0] as int;
    }
  }

  lemma NumberPrefixInjective(i: nat, j: nat)
    requires i != j
    ensures OptionPrefix(Numbers, i) != OptionPrefix(Numbers, j)
  {
    NumberPrefixParses(i);
    NumberPrefixParses(j);
  }

  // ---------------------------------------------------------------------------
  // Choosing and rendering the questions of an attempt
  // ---------------------------------------------------------------------------

  function Min(a: int, b: int): int { if a < b then a else b }
  function Max(a: int, b: int): int { if a < b then b else a }

  /** How many questions an attempt takes from the `available` ones. */
  function NumToTake(t: TestSpecificSettings, available: nat): (n: nat)
    ensures n <= available
    ensures available > 0 ==> n > 0
    ensures t.useAllQuestions ==> n == available
    ensures !t.useAllQuestions && 0 < t.numQuestions < available ==> n == t.numQuestions
    ensures !t.useAllQuestions && t.numQuestions <= 0 ==> n == Min(10, available)
    ensures t.numQuestions >= available ==> n == available
  {
    if !t.useAllQuestions && t.numQuestions > 0 && t.numQuestions < available then t.numQuestions
    else if !t.useAllQuestions && t.numQuestions <= 0 then Min(10, available)
    else available
  }

  /** The options a question shows: fixed for True/False, otherwise its own, shuffled on request. */
  function RenderOptions(q: Question, randomizeAnswers: bool, labels: Labels, draws: seq<nat>): (r: seq<QuestionOption>)
    ensures q.qtype == TrueFalse ==>
      r == [QuestionOption(labels.optionTrue, None), QuestionOption(labels.optionFalse, None)]
    ensures q.qtype != TrueFalse ==> multiset(r) == multiset(q.options)
    ensures q.qtype != TrueFalse && !randomizeAnswers ==> r == q.options
  {
    if q.qtype == TrueFalse then
      [QuestionOption(labels.optionTrue, None), QuestionOption(labels.optionFalse, None)]
    else if randomizeAnswers then Shuffle.Shuffle(q.options, draws)
    else q.options
  }

  /** The random draws of one attempt: one stream for the question order, one per question for its options. */
  datatype QuizDraws = QuizDraws(order: seq<nat>, options: seq<seq<nat>>)

  function OptionDraws(d: QuizDraws, i: nat): seq<nat>
  {
    if i < |d.options| then d.options[i] else []
  }

  function RenderAll(qs: seq<Question>, t: TestSpecificSettings, labels: Labels, d: QuizDraws): (r: seq<RenderedQuestion>)
    ensures |r| == |qs|
    ensures forall i :: 0 <= i < |qs| ==> r[i].source == qs[i]
    ensures forall i :: 0 <= i < |qs| ==>
      r[i].optionsRendered == RenderOptions(qs[i], t.randomizeAnswers, labels, OptionDraws(d, i))
  {
    seq(|qs|, i requires 0 <= i < |qs| => RenderedQuestion(qs[i], RenderOptions(qs[i], t.randomizeAnswers, labels, OptionDraws(d, i))))
  }

  function Sources(qs: seq<RenderedQuestion>): (r: seq<Question>)
    ensures |r| == |qs| && forall i :: 0 <= i < |qs| ==> r[i] == qs[i].source
  {
    seq(|qs|, i requires 0 <= i < |qs| => qs[i].source)
  }

  // ---------------------------------------------------------------------------
  // The session
  // ---------------------------------------------------------------------------

  /** A recorded answer: an option index (multiple choice, true/false) or typed text (fill in the blank). */
  datatype Answer = Choice(index: int) | Typed(text: string)

  datatype Session = Session(
    questions: seq<RenderedQuestion>,
    answers: seq<Option<Answer>>,
    index: nat,
    showResults: bool,
    settings: Option<TestSpecificSettings>,
    startTime: Option<int>,
    remaining: Option<int>,
    submitting: bool)

  /** The answer slot of question `i`; slots past the end of the buffer read as no answer. */
  function AnswerAt(answers: seq<Option<Answer>>, i: nat): Option<Answer>
  {
    if i < |answers| then answers[i] else None
  }

  /** When there are questions, there is one answer slot per question and the cursor is on one of them. */
  predicate SessionOk(s: Session)
  {
    |s.questions| > 0 ==> |s.answers| == |s.questions| && s.index < |s.questions|
  }

  /** `setupNewQuizAttempt` for the active profile (`None` when there is none). */
  function Setup(s: Session, profile: Option<TestProfile>, labels: Labels, d: QuizDraws, now: int): (r: Session)
    ensures !r.submitting && SessionOk(r)
    ensures profile.None? ==>
      r.questions == [] && r.settings.None? && !r.showResults && r.startTime.None? && r.remaining.None?
    ensures profile.Some? ==> r.settings == Some(profile.value.settings)
    ensures profile.Some? && profile.value.questions == [] ==>
      r.questions == [] && r.startTime.None? && r.remaining.None? && r.showResults == s.showResults
    ensures profile.Some? && profile.value.questions != [] ==>
      var t := profile.value.settings;
      |r.questions| == NumToTake(t, |profile.value.questions|)
      && multiset(Sources(r.questions)) <= multiset(profile.value.questions)
      && (!t.randomizeQuestions ==> Sources(r.questions) == profile.value.questions[..|r.questions|])
      && |r.answers| == |r.questions| && (forall i :: 0 <= i < |r.answers| ==> r.answers[i].None?)
      && r.index == 0 && !r.showResults
      && (r.startTime.Some? <==> t.enableTimer && t.timerDurationMinutes > 0)
      && (r.startTime.Some? ==> r.startTime == Some(now) && r.remaining == Some(t.timerDurationMinutes * 60))
      && (forall i :: 0 <= i < |r.questions| ==>
            r.questions[i].optionsRendered
            == RenderOptions(r.questions[i].source, t.randomizeAnswers, labels, OptionDraws(d, i)))
  {
    match profile
    case None =>
      s.(questions := [], settings := None, showResults := false, startTime := None, remaining := None,
         submitting := false)
    case Some(p) =>
      if p.questions == [] then
        s.(questions := [], settings := Some(p.settings), startTime := None, remaining := None, submitting := false)
      else Attempt(p, labels, d, now)
  }

  /** A fresh attempt over a profile that has questions. */
  function Attempt(p: TestProfile, labels: Labels, d: QuizDraws, now: int): (r: Session)
    requires p.questions != []
    ensures !r.submitting && SessionOk(r) && r.settings == Some(p.settings)
    ensures var t := p.settings;
      |r.questions| == NumToTake(t, |p.questions|)
      && multiset(Sources(r.questions)) <= multiset(p.questions)
      && (!t.randomizeQuestions ==> Sources(r.questions) == p.questions[..|r.questions|])
      && |r.answers| == |r.questions| && (forall i :: 0 <= i < |r.answers| ==> r.answers[i].None?)
      && r.index == 0 && !r.showResults
      && (r.startTime.Some? <==> t.enableTimer && t.timerDurationMinutes > 0)
      && (r.startTime.Some? ==> r.startTime == Some(now) && r.remaining == Some(t.timerDurationMinutes * 60))
    // each question shows the options rendered for it from its own draws
    ensures forall i :: 0 <= i < |r.questions| ==>
      r.questions[i].optionsRendered
      == RenderOptions(r.questions[i].source, p.settings.randomizeAnswers, labels, OptionDraws(d, i))
  {
    var t := p.settings;
    var ordered := if t.randomizeQuestions then Shuffle.Shuffle(p.questions, d.order) else p.questions;
    var n := NumToTake(t, |ordered|);
    var chosen := ordered[..n];
    PrefixMultiset(ordered, n);
    var rendered := RenderAll(chosen, t, labels, d);
    assert Sources(rendered) == chosen;
    Begin(rendered, t, now)
  }

  /** A session at the start of an attempt over the rendered questions: nothing answered, on the first question. */
  function Begin(qs: seq<RenderedQuestion>, t: TestSpecificSettings, now: int): (r: Session)
    ensures r.questions == qs && r.settings == Some(t) && !r.submitting && SessionOk(r)
    ensures |r.answers| == |qs| && (forall i :: 0 <= i < |r.answers| ==> r.answers[i].None?)
    ensures r.index == 0 && !r.showResults
    ensures r.startTime.Some? <==> t.enableTimer && t.timerDurationMinutes > 0
    ensures r.startTime.Some? ==> r.startTime == Some(now) && r.remaining == Some(t.timerDurationMinutes * 60)
  {
    var timed := t.enableTimer && t.timerDurationMinutes > 0;
    Session(qs, seq(|qs|, _ => None), 0, false, Some(t),
            if timed then Some(now) else None,
            if timed then Some(t.timerDurationMinutes * 60) else None,
            false)
  }

  lemma PrefixMultiset<T>(xs: seq<T>, n: nat)
    requires n <= |xs|
    ensures multiset(xs[..n]) <= multiset(xs)
  {
    assert xs == xs[..n] + xs[n..];
  }

  // ---------------------------------------------------------------------------
  // Scoring
  // ---------------------------------------------------------------------------

  /** Whether one question was answered correctly. */
  predicate IsCorrect(q: RenderedQuestion, a: Option<Answer>)
  {
    if q.source.qtype == FillInTheBlank then
      a.Some? && a.value.Typed? && ToLower(Trim(a.value.text)) == ToLower(Trim(q.source.correctOptionText))
    else
      a.Some? && a.value.Choice? && 0 <= a.value.index < |q.optionsRendered|
      && q.optionsRendered[a.value.index].text == q.source.correctOptionText
  }

  /** Whether each question is answered correctly. */
  function Graded(qs: seq<RenderedQuestion>, answers: seq<Option<Answer>>): (bs: seq<bool>)
    ensures |bs| == |qs|
    ensures forall i :: 0 <= i < |qs| ==> bs[i] == IsCorrect(qs[i], AnswerAt(answers, i))
  {
    seq(|qs|, i requires 0 <= i < |qs| => IsCorrect(qs[i], AnswerAt(answers, i)))
  }

  /** The number of `true` flags among the first `k`. */
  function CountTrue(bs: seq<bool>, k: nat): (n: nat)
    requires k <= |bs|
    ensures n <= k
  {
    if k == 0 then 0 else CountTrue(bs, k - 1) + (if bs[k - 1] then 1 else 0)
  }

  /** The positions of the `true` flags among the first `k`. */
  function TrueSet(bs: seq<bool>, k: nat): set<nat>
    requires k <= |bs|
  {
    set i: nat | i < k && bs[i]
  }

  lemma {:induction false} CountTrueIsSetSize(bs: seq<bool>, k: nat)
    requires k <= |bs|
    ensures CountTrue(bs, k) == |TrueSet(bs, k)|
  {
    if k > 0 {
      CountTrueIsSetSize(bs, k - 1);
      var prev := TrueSet(bs, k - 1);
      assert k - 1 !in prev;
      assert TrueSet(bs, k) == if bs[k - 1] then prev + {k - 1} else prev;
    }
  }

  /** The number of correctly answered questions among the first `k`. */
  function CorrectCount(qs: seq<RenderedQuestion>, answers: seq<Option<Answer>>, k: nat): (n: nat)
    requires k <= |qs|
    ensures n <= k
  {
    CountTrue(Graded(qs, answers), k)
  }

  function Score(qs: seq<RenderedQuestion>, answers: seq<Option<Answer>>): (n: nat)
    ensures n <= |qs|
  {
    CorrectCount(qs, answers, |qs|)
  }

  /** The indices of the correctly answered questions. */
  function CorrectSet(qs: seq<RenderedQuestion>, answers: seq<Option<Answer>>, k: nat): (c: set<nat>)
    requires k <= |qs|
    ensures forall i: nat :: i in c <==> i < k && IsCorrect(qs[i], AnswerAt(answers, i))
  {
    TrueSet(Graded(qs, answers), k)
  }

  /** The score is the size of the set of correctly answered questions. */
  lemma CorrectCountIsSetSize(qs: seq<RenderedQuestion>, answers: seq<Option<Answer>>, k: nat)
    requires k <= |qs|
    ensures CorrectCount(qs, answers, k) == |CorrectSet(qs, answers, k)|
  {
    CountTrueIsSetSize(Graded(qs, answers), k);
  }

  lemma {:induction false} AllTrueCount(bs: seq<bool>, k: nat)
    requires k <= |bs|
    requires forall i :: 0 <= i < |bs| ==> bs[i]
    ensures CountTrue(bs, k) == k
  {
    if k > 0 {
      AllTrueCount(bs, k - 1);
    }
  }

  /** Every question answered correctly gives the full score. */
  lemma AllCorrectFullScore(qs: seq<RenderedQuestion>, answers: seq<Option<Answer>>, k: nat)
    requires k <= |qs|
    requires forall i :: 0 <= i < |qs| ==> IsCorrect(qs[i], AnswerAt(answers, i))
    ensures CorrectCount(qs, answers, k) == k
  {
    AllTrueCount(Graded(qs, answers), k);
  }

  lemma {:induction false} NoTrueCount(bs: seq<bool>, k: nat)
    requires k <= |bs|
    requires forall i :: 0 <= i < |bs| ==> !bs[i]
    ensures CountTrue(bs, k) == 0
  {
    if k > 0 {
      NoTrueCount(bs, k - 1);
    }
  }

  /** An empty answer buffer scores zero. */
  lemma NoAnswersNoScore(qs: seq<RenderedQuestion>, k: nat)
    requires k <= |qs|
    ensures CorrectCount(qs, [], k) == 0
  {
    NoTrueCount(Graded(qs, []), k);
  }

  /** `score / totalPossible * 100`, exactly (the app then rounds it to one decimal). */
  function Percentage(score: nat, total: nat): (p: real)
    requires score <= total
    ensures 0.0 <= p <= 100.0
    ensures total > 0 && score == total ==> p == 100.0
    ensures score == 0 ==> p == 0.0
  {
    if total > 0 then (score as real / total as real) * 100.0 else 0.0
  }

  /** Seconds spent, capped at the time limit; `None` without a running timer. */
  function TimeTaken(settings: Option<TestSpecificSettings>, startTime: Option<int>, now: int): (r: Option<int>)
    ensures r.Some? <==> settings.Some? && settings.value.enableTimer && startTime.Some? && startTime.value != 0
    ensures r.Some? ==> r.value <= settings.value.timerDurationMinutes * 60
    ensures r.Some? && now >= startTime.value ==> r.value >= 0 || settings.value.timerDurationMinutes < 0
    ensures r.Some? && (now - startTime.value) / 1000 <= settings.value.timerDurationMinutes * 60 ==>
      r.value * 1000 <= now - startTime.value < (r.value + 1) * 1000
  {
    if settings.Some? && settings.value.enableTimer && startTime.Some? && startTime.value != 0 then
      Some(Min((now - startTime.value) / 1000, settings.value.timerDurationMinutes * 60))
    else None
  }

  // ---------------------------------------------------------------------------
  // Submitting
  // ---------------------------------------------------------------------------

  /** What a handler hands back: the next session and the actions it dispatched, in order. */
  datatype Outcome = Outcome(session: Session, dispatched: seq<Action>)

  function Message(titleKey: string, textKey: string): MessageContent
  {
    MessageContent(titleKey, textKey, None, None)
  }

  /** `String(answer)` of a recorded answer. */
  function AnswerText(a: Answer): string
  {
    match a
    case Typed(t) => t
    case Choice(i) => IntToString(i)
  }

  /** The question still lacks an answer: none recorded, or blank text for fill in the blank. */
  predicate Unanswered(q: RenderedQuestion, a: Option<Answer>)
  {
    if q.source.qtype == FillInTheBlank then a.None? || Trim(AnswerText(a.value)) == ""
    else a.None?
  }

  /** The submit would be turned back because the question on screen is unanswered. */
  predicate BlocksSubmit(s: Session, isTimeUp: bool)
  {
    !isTimeUp && s.index < |s.questions| && Unanswered(s.questions[s.index], AnswerAt(s.answers, s.index))
  }

  /** The history entry a submission records. */
  function Entry(s: Session, now: int, date: string): (e: QuizHistoryEntry)
    ensures 0 <= e.score <= e.totalPossible == e.questionsInQuiz == |s.questions|
    ensures e.score == |CorrectSet(s.questions, s.answers, |s.questions|)|
  {
    var score := Score(s.questions, s.answers);
    CorrectCountIsSetSize(s.questions, s.answers, |s.questions|);
    QuizHistoryEntry(date, score, |s.questions|, Percentage(score, |s.questions|), |s.questions|,
                     TimeTaken(s.settings, s.startTime, now))
  }

  predicate RecordsHistory(o: Outcome)
  {
    exists i :: 0 <= i < |o.dispatched| && o.dispatched[i].AddHistoryToProfile?
  }

  /** `handleSubmitQuiz(isTimeUp)` */
  function Submit(s: Session, profile: Option<TestProfile>, isTimeUp: bool, now: int, date: string): (o: Outcome)
    ensures s.submitting || profile.None? || s.questions == [] ==> o == Outcome(s, [])
    ensures RecordsHistory(o) <==>
      !s.submitting && profile.Some? && s.questions != [] && !BlocksSubmit(s, isTimeUp)
    ensures RecordsHistory(o) ==>
      o.session == s.(showResults := true, submitting := true)
      && o.dispatched[0] == AddHistoryToProfile(profile.value.id, Entry(s, now, date))
      && |o.dispatched| == (if isTimeUp then 2 else 1)
    ensures !RecordsHistory(o) ==> o.session == s
    // an unanswered question turns the submit back with a notice; time-out adds its own notice
    ensures !s.submitting && profile.Some? && s.questions != [] && BlocksSubmit(s, isTimeUp) ==>
      o.dispatched == [OpenMessageModal(Message("msgAttention", "msgPleaseAnswerLast"))]
    ensures RecordsHistory(o) && isTimeUp ==>
      o.dispatched[1] == OpenMessageModal(Message("quizTimeUpTitle", "quizTimeUpMessage"))
  {
    if profile.None? || |s.questions| == 0 || s.submitting then Outcome(s, [])
    else if BlocksSubmit(s, isTimeUp) then
      Outcome(s, [OpenMessageModal(Message("msgAttention", "msgPleaseAnswerLast"))])
    else
      var record := AddHistoryToProfile(profile.value.id, Entry(s, now, date));
      var o := Outcome(s.(showResults := true, submitting := true),
        [record] + (if isTimeUp then [OpenMessageModal(Message("quizTimeUpTitle", "quizTimeUpMessage"))] else []));
      assert o.dispatched[0] == record;
      o
  }

  /** Submission happens at most once per attempt: after it records a result, every further submit is ignored. */
  lemma SubmitAtMostOnce(s: Session, profile: Option<TestProfile>, isTimeUp: bool, now: int, date: string,
                         profile2: Option<TestProfile>, isTimeUp2: bool, now2: int, date2: string)
    requires RecordsHistory(Submit(s, profile, isTimeUp, now, date))
    ensures var s2 := Submit(s, profile, isTimeUp, now, date).session;
      Submit(s2, profile2, isTimeUp2, now2, date2) == Outcome(s2, [])
  {
  }

  // ---------------------------------------------------------------------------
  // The countdown
  // ---------------------------------------------------------------------------

  /** The interval is installed: a timed attempt with a start time, not yet showing results. */
  predicate TimerRunning(s: Session)
  {
    s.settings.Some? && s.settings.value.enableTimer && s.startTime.Some? && s.startTime.value != 0
    && !s.showResults && |s.questions| > 0
  }

  /** One firing of the one-second interval at clock reading `now`. */
  function Tick(s: Session, profile: Option<TestProfile>, now: int, date: string): (o: Outcome)
    ensures !TimerRunning(s) ==> o == Outcome(s, [])
    ensures TimerRunning(s) ==> o.session.remaining.Some? && o.session.remaining.value >= 0
    ensures TimerRunning(s) && now >= s.startTime.value ==>
      o.session.remaining.value <= Max(s.settings.value.timerDurationMinutes * 60, 0)
    ensures RecordsHistory(o) ==> TimerRunning(s) && o.session.remaining == Some(0)
  {
    if !TimerRunning(s) then Outcome(s, [])
    else
      var elapsed := (now - s.startTime.value) / 1000;
      var left := s.settings.value.timerDurationMinutes * 60 - elapsed;
      var s2 := s.(remaining := Some(if left > 0 then left else 0));
      if left <= 0 && !s.submitting then Submit(s2, profile, true, now, date)
      else Outcome(s2, [])
  }

  /** When time runs out, the attempt is submitted whatever is unanswered. */
  lemma TimeUpSubmits(s: Session, p: TestProfile, now: int, date: string)
    requires TimerRunning(s) && !s.submitting
    requires (now - s.startTime.value) / 1000 >= s.settings.value.timerDurationMinutes * 60
    ensures RecordsHistory(Tick(s, Some(p), now, date))
  {
  }

  // ---------------------------------------------------------------------------
  // Answering and moving between questions
  // ---------------------------------------------------------------------------

  /** `newAnswers[i] = v` on a copy: writing past the end lengthens the array with empty slots. */
  function SetAt(xs: seq<Option<Answer>>, i: nat, v: Option<Answer>): (r: seq<Option<Answer>>)
    ensures |r| == if i < |xs| then |xs| else i + 1
    ensures r[i] == v
    ensures forall k :: 0 <= k < |r| && k != i ==> r[k] == AnswerAt(xs, k)
  {
    if i < |xs| then xs[i := v]
    else xs + seq(i - |xs|, _ => None) + [v]
  }

  /** `handleAnswerSelect` */
  function SelectAnswer(s: Session, a: Answer): (r: Session)
    ensures r == s.(answers := r.answers)
    ensures AnswerAt(r.answers, s.index) == Some(a)
    ensures forall k: nat :: k != s.index ==> AnswerAt(r.answers, k) == AnswerAt(s.answers, k)
  {
    s.(answers := SetAt(s.answers, s.index, Some(a)))
  }

  /**
   * `handleNextQuestion`. The screen shows no question, and so no Next
   * button, when the cursor is past the last question; that case changes nothing.
   */
  function Next(s: Session): (o: Outcome)
    ensures o.session.index == s.index || o.session.index == s.index + 1
    ensures o.session == s.(index := o.session.index)
    ensures o.session.index == s.index + 1 <==>
      s.index + 1 < |s.questions| && !Unanswered(s.questions[s.index], AnswerAt(s.answers, s.index))
    // a notice is shown exactly when the question on screen is unanswered, asking to type or to choose
    ensures o.dispatched != [] <==>
      s.index < |s.questions| && Unanswered(s.questions[s.index], AnswerAt(s.answers, s.index))
    ensures o.dispatched != [] ==>
      o.dispatched == [OpenMessageModal(Message("msgAttention",
        if s.questions[s.index].source.qtype == FillInTheBlank then "msgPleaseEnterAnswer" else "msgPleaseSelectAnswer"))]
  {
    if |s.questions| == 0 || s.index >= |s.questions| then Outcome(s, [])
    else
      var q := s.questions[s.index];
      if Unanswered(q, AnswerAt(s.answers, s.index)) then
        var text := if q.source.qtype == FillInTheBlank then "msgPleaseEnterAnswer" else "msgPleaseSelectAnswer";
        Outcome(s, [OpenMessageModal(Message("msgAttention", text))])
      else if s.index < |s.questions| - 1 then Outcome(s.(index := s.index + 1), [])
      else Outcome(s, [])
  }

  /** The Previous button, disabled on the first question. */
  function Previous(s: Session): (r: Session)
    ensures r == s.(index := r.index)
    ensures r.index == if s.index > 0 then s.index - 1 else 0
  {
    if s.index > 0 then s.(index := s.index - 1) else s
  }

  // ---------------------------------------------------------------------------
  // The session as an event machine
  // ---------------------------------------------------------------------------

  datatype Event =
    | Start(labels: Labels, draws: QuizDraws, startNow: int)
    | Select(answer: Answer)
    | GoNext
    | GoPrevious
    | SubmitClick(now: int, date: string)
    | TimerTick(now: int, date: string)

  function Step(s: Session, profile: Option<TestProfile>, e: Event): Outcome
  {
    match e
    case Start(labels, draws, now) => Outcome(Setup(s, profile, labels, draws, now), [])
    case Select(a) => Outcome(SelectAnswer(s, a), [])
    case GoNext => Next(s)
    case GoPrevious => Outcome(Previous(s), [])
    case SubmitClick(now, date) => Submit(s, profile, false, now, date)
    case TimerTick(now, date) => Tick(s, profile, now, date)
  }

  /** Every event keeps one answer slot per question and the cursor on a question. */
  lemma StepKeepsSessionOk(s: Session, profile: Option<TestProfile>, e: Event)
    requires SessionOk(s)
    ensures SessionOk(Step(s, profile, e).session)
  {
    match e
    case Select(a) =>
      if |s.questions| > 0 {
        assert s.index < |s.answers|;
      }
    case _ =>
  }

  function Run(s: Session, profile: Option<TestProfile>, events: seq<Event>): (o: Outcome)
    decreases |events|
  {
    if events == [] then Outcome(s, [])
    else
      var first := Step(s, profile, events[0]);
      var rest := Run(first.session, profile, events[1..]);
      Outcome(rest.session, first.dispatched + rest.dispatched)
  }

  lemma {:induction false} RunKeepsSessionOk(s: Session, profile: Option<TestProfile>, events: seq<Event>)
    requires SessionOk(s)
    ensures SessionOk(Run(s, profile, events).session)
    decreases |events|
  {
    if events != [] {
      StepKeepsSessionOk(s, profile, events[0]);
      RunKeepsSessionOk(Step(s, profile, events[0]).session, profile, events[1..]);
    }
  }

  predicate NoHistory(actions: seq<Action>)
  {
    forall i :: 0 <= i < |actions| ==> !actions[i].AddHistoryToProfile?
  }

  /** Once a result is recorded, no event short of a new start records another. */
  lemma {:induction false} SubmittedRunRecordsNothing(s: Session, profile: Option<TestProfile>, events: seq<Event>)
    requires s.submitting
    requires forall i :: 0 <= i < |events| ==> !events[i].Start?
    ensures Run(s, profile, events).session.submitting
    ensures NoHistory(Run(s, profile, events).dispatched)
    decreases |events|
  {
    if events != [] {
      var first := Step(s, profile, events[0]);
      assert first.session.submitting && NoHistory(first.dispatched);
      SubmittedRunRecordsNothing(first.session, profile, events[1..]);
      var rest := Run(first.session, profile, events[1..]);
      assert Run(s, profile, events).dispatched == first.dispatched + rest.dispatched;
    }
  }
}
