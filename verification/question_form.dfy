/**
 * The add/edit question form (components/CreateEditQuestionView.tsx): the
 * checks `handleSubmit` runs before it builds a question, the question it
 * saves and the actions it dispatches, and the add/remove option buttons.
 *
 * The multiple-choice answer select gives an option with blank text the
 * value `__empty_or_image_N__`. `CheckFormAsWritten` is the submit check as
 * the component writes it; `CheckForm` is the corrected check the form uses
 * here (see the findings in the README).
 */
module QuestionForm {
  import opened Wrappers
  import opened Types
  import opened Strings
  import opened Store

  /** The form's state: what the user has typed and chosen so far. */
  datatype FormState = FormState(
    questionText: string,
    qtype: QuestionType,
    topic: string,
    questionImage: Option<string>,
    options: seq<QuestionOption>,
    correct: string)

  /** Why a submit is refused; each is the text key of the message shown. */
  datatype FormError =
    | SavingError                 // no active profile
    | QuestionTextMissing
    | NeedAtLeastTwoOptions
    | ChooseCorrectAnswer
    | OptionIsImageOnlyCorrect
    | MustEnterFillInAnswer

  datatype CheckResult = Saved(question: Question) | Refused(error: FormError)

  // ---------------------------------------------------------------------------
  // The answer select
  // ---------------------------------------------------------------------------

  const PlaceholderPrefix: string := "__empty_or_image_"

  /** The select value of option `index`: its trimmed text, or the placeholder when that is blank. */
  function SelectValue(o: QuestionOption, index: nat): (v: string)
    ensures Trim(o.text) != "" ==> v == Trim(o.text)
    ensures Trim(o.text) == "" ==> StartsWith(v, PlaceholderPrefix)
  {
    if Trim(o.text) != "" then Trim(o.text) else Placeholder(index)
  }

  function Placeholder(index: nat): (v: string)
    ensures StartsWith(v, PlaceholderPrefix) && v[|v| - 1] == '_'
  {
    var v := PlaceholderPrefix + IntToString(index) + "__";
    assert v[..|PlaceholderPrefix|] == PlaceholderPrefix;
    v
  }

  /** An option counts for multiple choice when its text is not blank (trims to non-empty) or it has an image. */
  predicate Usable(o: QuestionOption)
  {
    !AllWhitespace(o.text) || o.imageURL.Some?
  }

  function CountUsable(opts: seq<QuestionOption>): (n: nat)
    ensures n <= |opts|
  {
    if opts == [] then 0 else (if Usable(opts[0]) then 1 else 0) + CountUsable(opts[1..])
  }

  /** No option counts exactly when none has text or an image. */
  lemma {:induction false} CountUsableZero(opts: seq<QuestionOption>)
    ensures CountUsable(opts) == 0 <==> forall i :: 0 <= i < |opts| ==> !Usable(opts[i])
  {
    if opts != [] {
      CountUsableZero(opts[1..]);
      assert forall i :: 1 <= i < |opts| ==> opts[i] == opts[1..][i - 1];
    }
  }

  /** Some option's trimmed text is the trimmed correct answer. */
  predicate AmongOptions(opts: seq<QuestionOption>, correct: string)
  {
    exists i :: 0 <= i < |opts| && Trim(opts[i].text) == Trim(correct)
  }

  function TrueFalseOptions(labels: Labels): seq<QuestionOption>
  {
    [QuestionOption(labels.optionTrue, None), QuestionOption(labels.optionFalse, None)]
  }

  /** The question a passing submit saves, with the given options and correct answer. */
  function BuildQuestion(f: FormState, id: string, options: seq<QuestionOption>, correct: string): (q: Question)
    ensures q.id == id && q.qtype == f.qtype && q.question == Trim(f.questionText)
    ensures q.topic.None? <==> Trim(f.topic) == ""
    ensures q.topic.Some? ==> q.topic.value == Trim(f.topic)
    ensures q.questionImageURL == f.questionImage && q.options == options
    ensures q.correctOptionText == Trim(correct)
  {
    Question(id, f.qtype, Trim(f.questionText), if Trim(f.topic) == "" then None else Some(Trim(f.topic)),
             f.questionImage, options, Trim(correct))
  }

  // ---------------------------------------------------------------------------
  // The submit check as written
  // ---------------------------------------------------------------------------

  /**
   * `parseInt(correctOptionText.split('_').pop() || "-1")`, with no radix, so
   * a last part such as "0x1" is read in base 16; `None` is NaN.
   */
  function PlaceholderIndexAsWritten(correct: string): Option<int>
  {
    var last := LastPart(correct, '_');
    ParseIntAnyRadix(if last == "" then "-1" else last)
  }

  /** `handleSubmit`'s checks after the active-profile test, as the component writes them. */
  function CheckFormAsWritten(f: FormState, labels: Labels, id: string): (r: CheckResult)
    ensures Trim(f.questionText) == "" ==> r == Refused(QuestionTextMissing)
    ensures r.Saved? ==> r.question == BuildQuestion(f, id, r.question.options, r.question.correctOptionText)
    ensures r.Saved? ==> r.question.question != ""
    // multiple choice: refused for want of options exactly when fewer than two have text or an image
    ensures f.qtype == MultipleChoice && Trim(f.questionText) != "" ==>
      (r == Refused(NeedAtLeastTwoOptions) <==> CountUsable(f.options) < 2)
    ensures f.qtype == MultipleChoice && r.Saved? ==> CountUsable(f.options) >= 2 && r.question.options == f.options
    // an answer that is not a placeholder is saved as typed, even blank when some option is blank
    ensures f.qtype == MultipleChoice && r.Saved? && !StartsWith(f.correct, PlaceholderPrefix) ==>
      r.question.correctOptionText == Trim(f.correct)
    // true/false and fill in the blank are checked as the corrected check does
    ensures f.qtype != MultipleChoice ==> r == CheckForm(f, labels, id)
  {
    if Trim(f.questionText) == "" then Refused(QuestionTextMissing)
    else
      match f.qtype
      case MultipleChoice => CheckChoicesAsWritten(f, id)
      case TrueFalse =>
        if f.correct != labels.optionTrue && f.correct != labels.optionFalse then Refused(ChooseCorrectAnswer)
        else Saved(BuildQuestion(f, id, TrueFalseOptions(labels), f.correct))
      case FillInTheBlank =>
        if Trim(f.correct) == "" then Refused(MustEnterFillInAnswer)
        else Saved(BuildQuestion(f, id, [], f.correct))
  }

  /** The multiple-choice branch of `CheckFormAsWritten`. */
  function CheckChoicesAsWritten(f: FormState, id: string): (r: CheckResult)
    ensures r == Refused(NeedAtLeastTwoOptions) <==> CountUsable(f.options) < 2
    ensures r.Saved? ==> r.question == BuildQuestion(f, id, f.options, r.question.correctOptionText)
    ensures r.Saved? && !StartsWith(f.correct, PlaceholderPrefix) ==> r.question.correctOptionText == Trim(f.correct)
  {
    if CountUsable(f.options) < 2 then Refused(NeedAtLeastTwoOptions)
    else
      var placeholder := StartsWith(f.correct, PlaceholderPrefix);
      if !AmongOptions(f.options, f.correct) && !placeholder && Trim(f.correct) == "" then Refused(ChooseCorrectAnswer)
      else if !placeholder then Saved(BuildQuestion(f, id, f.options, f.correct))
      else PlaceholderChoiceAsWritten(f, id)
  }

  /**
   * A placeholder answer, as written: the option its parsed index names, refused
   * when that option has no text, and saved as "" when the index is out of range.
   */
  function PlaceholderChoiceAsWritten(f: FormState, id: string): (r: CheckResult)
    ensures r.Saved? || r == Refused(OptionIsImageOnlyCorrect)
    ensures var idx := PlaceholderIndexAsWritten(f.correct);
      r.Saved? ==> r.question == BuildQuestion(f, id, f.options, r.question.correctOptionText)
                   && (if idx.Some? && 0 <= idx.value < |f.options|
                       then r.question.correctOptionText == Trim(f.options[idx.value].text) != ""
                       else r.question.correctOptionText == "")
  {
    var idx := PlaceholderIndexAsWritten(f.correct);
    var inRange := idx.Some? && 0 <= idx.value < |f.options|;
    if inRange && Trim(f.options[idx.value].text) == "" then Refused(OptionIsImageOnlyCorrect)
    else
      var text := if inRange then Trim(f.options[idx.value].text) else "";
      TrimIdempotent(if inRange then f.options[idx.value].text else "");
      Saved(BuildQuestion(f, id, f.options, text))
  }

  /** The index the component reads from a generated placeholder is always -1. */
  lemma PlaceholderIndexAsWrittenIsMinusOne(index: nat)
    ensures PlaceholderIndexAsWritten(Placeholder(index)) == Some(-1)
  {
    LastPartAfterTrailingSep(Placeholder(index), '_');
    ParseMinusOne();
  }

  lemma ParseMinusOne()
    ensures ParseIntAnyRadix("-1") == Some(-1)
  {
    var s := "-1";
    var one := "1";
    assert TrimStart(s) == s by {
      assert !IsWhitespace(s[0]);
    }
    assert AfterSign(s) == one && !HasHexPrefix(one);
    assert AllDigits(one);
    ParseDigitsOfDigits(one);
    assert DigitsValue(one) == 1 by {
      assert one[..0] == [];
    }
  }

  /**
   * As written, an option whose text is `__empty_or_image_0x1` passes for a
   * placeholder, and its last part is read in base 16: the answer saved is
   * the text of option 1, not the option chosen.
   */
  lemma HexPlaceholderPicksOption(f: FormState, labels: Labels, id: string)
    requires f.qtype == MultipleChoice && Trim(f.questionText) != "" && CountUsable(f.options) >= 2
    requires |f.options| >= 2 && Trim(f.options[1].text) != ""
    requires f.correct == PlaceholderPrefix + "0x1"
    ensures PlaceholderIndexAsWritten(f.correct) == Some(1)
    ensures var r := CheckFormAsWritten(f, labels, id);
      r.Saved? && r.question.correctOptionText == Trim(f.options[1].text)
  {
    HexPlaceholderIndex();
    assert StartsWith(f.correct, PlaceholderPrefix) by {
      assert f.correct[..|PlaceholderPrefix|] == PlaceholderPrefix;
    }
    TrimIdempotent(f.options[1].text);
  }

  lemma HexPlaceholderIndex()
    ensures PlaceholderIndexAsWritten(PlaceholderPrefix + "0x1") == Some(1)
  {
    var h := "1";
    var last := "0x" + h;
    assert last == "0x1";
    LastPartAfterSep(PlaceholderPrefix, last, '_');
    RadixlessReadsHex(h);
    HexValueOfOneDigit('1');
  }

  /**
   * As written, choosing an option that has no text (an image-only option)
   * as the correct answer is accepted, and the question is saved with an
   * empty correct answer instead of being refused.
   */
  lemma ImageOnlyAnswerSavedBlank(f: FormState, labels: Labels, id: string, n: nat)
    requires f.qtype == MultipleChoice && Trim(f.questionText) != "" && CountUsable(f.options) >= 2
    requires n < |f.options| && Trim(f.options[n].text) == ""
    ensures var r := CheckFormAsWritten(f.(correct := SelectValue(f.options[n], n)), labels, id);
      r.Saved? && r.question.correctOptionText == ""
  {
    PlaceholderIndexAsWrittenIsMinusOne(n);
    TrimOfEmpty();
  }

  /**
   * As written, a blank correct answer passes whenever some option's text is
   * blank, so a multiple-choice question can be saved with no answer chosen.
   */
  lemma BlankAnswerAcceptedAsWritten(f: FormState, labels: Labels, id: string, n: nat)
    requires f.qtype == MultipleChoice && Trim(f.questionText) != "" && CountUsable(f.options) >= 2
    requires n < |f.options| && Trim(f.options[n].text) == "" && f.correct == ""
    ensures var r := CheckFormAsWritten(f, labels, id);
      r.Saved? && r.question.correctOptionText == ""
  {
    TrimOfEmpty();
    assert AmongOptions(f.options, f.correct);
  }

  lemma TrimOfEmpty()
    ensures Trim("") == ""
  {
  }

  // ---------------------------------------------------------------------------
  // The corrected submit check
  // ---------------------------------------------------------------------------

  /** The option number inside a placeholder: the digits after the prefix (`parseInt` stops at `__`). */
  function PlaceholderIndex(correct: string): Option<int>
    requires StartsWith(correct, PlaceholderPrefix)
  {
    ParseInt(correct[|PlaceholderPrefix|..])
  }

  lemma PlaceholderIndexOf(index: nat)
    ensures PlaceholderIndex(Placeholder(index)) == Some(index)
  {
    var v := Placeholder(index);
    var digits := NatToString(index);
    assert IntToString(index) == digits;
    assert v[|PlaceholderPrefix|..] == digits + "__";
    ParseIntOfDigitsThen(digits, "__");
    DigitsValueOfNatToString(index);
  }

  /**
   * `handleSubmit`'s checks with the two defects removed: a blank correct
   * answer is always refused, and a placeholder is resolved to the option it
   * names, which must exist and have text.
   */
  function CheckForm(f: FormState, labels: Labels, id: string): (r: CheckResult)
    ensures Trim(f.questionText) == "" ==> r == Refused(QuestionTextMissing)
    ensures r.Saved? ==> r.question == BuildQuestion(f, id, r.question.options, r.question.correctOptionText)
    ensures r.Saved? ==> r.question.question != ""
    // multiple choice: two usable options and a correct answer with text
    ensures f.qtype == MultipleChoice && r.Saved? ==>
      CountUsable(f.options) >= 2 && r.question.options == f.options && r.question.correctOptionText != ""
    // true/false: the two labels, and the answer is one of them
    ensures f.qtype == TrueFalse ==>
      (r.Saved? <==> Trim(f.questionText) != "" && (f.correct == labels.optionTrue || f.correct == labels.optionFalse))
    ensures f.qtype == TrueFalse && r.Saved? ==>
      r.question.options == TrueFalseOptions(labels) && r.question.correctOptionText == Trim(f.correct)
    // fill in the blank: an answer, and no options
    ensures f.qtype == FillInTheBlank ==>
      (r.Saved? <==> Trim(f.questionText) != "" && Trim(f.correct) != "")
    ensures f.qtype == FillInTheBlank && r.Saved? ==> r.question.options == []
  {
    if Trim(f.questionText) == "" then Refused(QuestionTextMissing)
    else
      match f.qtype
      case MultipleChoice =>
        if CountUsable(f.options) < 2 then Refused(NeedAtLeastTwoOptions)
        else if !StartsWith(f.correct, PlaceholderPrefix) then
          if Trim(f.correct) == "" then Refused(ChooseCorrectAnswer)
          else Saved(BuildQuestion(f, id, f.options, f.correct))
        else
          var idx := PlaceholderIndex(f.correct);
          if !(idx.Some? && 0 <= idx.value < |f.options|) then Refused(ChooseCorrectAnswer)
          else if Trim(f.options[idx.value].text) == "" then Refused(OptionIsImageOnlyCorrect)
          else
            var text := Trim(f.options[idx.value].text);
            TrimIdempotent(f.options[idx.value].text);
            Saved(BuildQuestion(f, id, f.options, text))
      case TrueFalse =>
        if f.correct != labels.optionTrue && f.correct != labels.optionFalse then Refused(ChooseCorrectAnswer)
        else Saved(BuildQuestion(f, id, TrueFalseOptions(labels), f.correct))
      case FillInTheBlank =>
        if Trim(f.correct) == "" then Refused(MustEnterFillInAnswer)
        else Saved(BuildQuestion(f, id, [], f.correct))
  }

  /**
   * Choosing option `n` in the select saves that option's text as the
   * correct answer, and an option without text cannot be the correct one.
   */
  lemma SelectedOptionIsSaved(f: FormState, labels: Labels, id: string, n: nat)
    requires f.qtype == MultipleChoice && Trim(f.questionText) != "" && CountUsable(f.options) >= 2
    requires n < |f.options|
    requires !StartsWith(Trim(f.options[n].text), PlaceholderPrefix)
    ensures var r := CheckForm(f.(correct := SelectValue(f.options[n], n)), labels, id);
      (Trim(f.options[n].text) == "" ==> r == Refused(OptionIsImageOnlyCorrect))
      && (Trim(f.options[n].text) != "" ==> r.Saved? && r.question.correctOptionText == Trim(f.options[n].text))
  {
    TrimIdempotent(f.options[n].text);
    if Trim(f.options[n].text) == "" {
      PlaceholderIndexOf(n);
    }
  }

  // ---------------------------------------------------------------------------
  // Submitting
  // ---------------------------------------------------------------------------

  function ValidationMessage(e: FormError): Action
  {
    var title := if e == SavingError then "msgError" else "msgValidationError";
    var text := match e
      case SavingError => "msgSavingErrorDetail"
      case QuestionTextMissing => "msgErrorQuestionTextMissing"
      case NeedAtLeastTwoOptions => "msgNeedAtLeastTwoOptions"
      case ChooseCorrectAnswer => "msgChooseCorrectAnswer"
      case OptionIsImageOnlyCorrect => "msgOptionIsImageOnlyCorrect"
      case MustEnterFillInAnswer => "msgMustEnterFillInAnswer";
    OpenMessageModal(MessageContent(title, text, None, None))
  }

  /** A question is being edited (the id is truthy), rather than added. */
  predicate Editing(editingId: Option<string>)
  {
    editingId.Some? && editingId.value != ""
  }

  /** The id the saved question gets: the edited question's, or a fresh one. */
  function SavedId(editingId: Option<string>, freshId: string): (id: string)
    ensures Editing(editingId) ==> id == editingId.value
    ensures !Editing(editingId) ==> id == freshId
  {
    if Editing(editingId) then editingId.value else freshId
  }

  /**
   * `handleSubmit`: the actions dispatched, including the return to the
   * question bank that an edit schedules. `freshId` is the id a new question gets.
   */
  function Submit(f: FormState, profileId: Option<string>, editingId: Option<string>, labels: Labels,
                  freshId: string): (actions: seq<Action>)
    ensures |actions| >= 1
    ensures profileId.None? ==> actions == [ValidationMessage(SavingError)]
    ensures profileId.Some? ==>
      var r := CheckForm(f, labels, SavedId(editingId, freshId));
      (r.Refused? ==> actions == [ValidationMessage(r.error)])
      && (r.Saved? && Editing(editingId) ==> actions[0] == UpdateQuestionInProfile(profileId.value, r.question))
      && (r.Saved? && !Editing(editingId) ==> actions == [AddQuestionToProfile(profileId.value, r.question)])
  {
    match profileId
    case None => [ValidationMessage(SavingError)]
    case Some(pid) =>
      match CheckForm(f, labels, SavedId(editingId, freshId))
      case Refused(e) => [ValidationMessage(e)]
      case Saved(q) =>
        if Editing(editingId) then
          [UpdateQuestionInProfile(pid, q),
           SetView(ViewRequest(QuestionBank, Unset, Set(Some(pid)), Unset, Unset, Unset))]
        else [AddQuestionToProfile(pid, q)]
  }

  /** A submit never stores a question without text, and an edit keeps the edited question's id. */
  lemma SubmitStoresOnlyCheckedQuestions(f: FormState, pid: string, editingId: Option<string>, labels: Labels,
                                         freshId: string, a: Action)
    requires a in Submit(f, Some(pid), editingId, labels, freshId)
    ensures a.AddQuestionToProfile? ==> a.question.question != "" && a.question.id == freshId && !Editing(editingId)
    ensures a.UpdateQuestionInProfile? ==>
      a.question.question != "" && Editing(editingId) && a.question.id == editingId.value
  {
    var id := SavedId(editingId, freshId);
    var r := CheckForm(f, labels, id);
    SubmitShape(f, pid, editingId, labels, freshId, r);
    StoredQuestionChecked(f, labels, id);
    ShapeStoresChecked(Submit(f, Some(pid), editingId, labels, freshId), r, pid, editingId, freshId, a);
  }

  /** Any list of that shape stores only a checked question, under the id it was saved with. */
  lemma ShapeStoresChecked(acts: seq<Action>, r: CheckResult, pid: string, editingId: Option<string>,
                           freshId: string, a: Action)
    requires acts == if r.Refused? then [ValidationMessage(r.error)]
                     else if Editing(editingId) then
                       [UpdateQuestionInProfile(pid, r.question),
                        SetView(ViewRequest(QuestionBank, Unset, Set(Some(pid)), Unset, Unset, Unset))]
                     else [AddQuestionToProfile(pid, r.question)]
    requires r.Saved? ==> r.question.id == SavedId(editingId, freshId) && r.question.question != ""
    requires a in acts
    ensures a.AddQuestionToProfile? ==> a.question.question != "" && a.question.id == freshId && !Editing(editingId)
    ensures a.UpdateQuestionInProfile? ==>
      a.question.question != "" && Editing(editingId) && a.question.id == editingId.value
  {
  }

  /** A question the check saves has the id it was given and non-empty text. */
  lemma StoredQuestionChecked(f: FormState, labels: Labels, id: string)
    ensures var r := CheckForm(f, labels, id);
      r.Saved? ==> r.question.id == id && r.question.question != ""
  {
  }

  /** The actions of a submit, spelled out from the check's result. */
  lemma SubmitShape(f: FormState, pid: string, editingId: Option<string>, labels: Labels, freshId: string,
                    r: CheckResult)
    requires r == CheckForm(f, labels, SavedId(editingId, freshId))
    ensures Submit(f, Some(pid), editingId, labels, freshId)
         == if r.Refused? then [ValidationMessage(r.error)]
            else if Editing(editingId) then
              [UpdateQuestionInProfile(pid, r.question),
               SetView(ViewRequest(QuestionBank, Unset, Set(Some(pid)), Unset, Unset, Unset))]
            else [AddQuestionToProfile(pid, r.question)]
  {
  }

  /** The form after an added question is saved (`resetFormForNewQuestion`); type and topic stay. */
  function ResetForNew(f: FormState, labels: Labels): (g: FormState)
    ensures g.qtype == f.qtype && g.topic == f.topic && g.questionText == "" && g.questionImage.None?
    ensures f.qtype == TrueFalse ==> g.options == TrueFalseOptions(labels) && g.correct == labels.optionTrue
    ensures f.qtype != TrueFalse ==> |g.options| == 2 && g.correct == ""
  {
    if f.qtype == TrueFalse then
      f.(questionText := "", questionImage := None, options := TrueFalseOptions(labels), correct := labels.optionTrue)
    else
      f.(questionText := "", questionImage := None,
         options := [QuestionOption("", None), QuestionOption("", None)], correct := "")
  }

  // ---------------------------------------------------------------------------
  // Adding and removing options
  // ---------------------------------------------------------------------------

  datatype Edit = Edit(form: FormState, dispatched: seq<Action>)

  /** `addOption`: one more empty option, up to `maxOptions`. */
  function AddOption(f: FormState, maxOptions: nat): (e: Edit)
    ensures |f.options| < maxOptions ==>
      e.form == f.(options := f.options + [QuestionOption("", None)]) && e.dispatched == []
    ensures |f.options| >= maxOptions ==> e.form == f && |e.dispatched| == 1
    ensures |f.options| <= maxOptions ==> |e.form.options| <= maxOptions
  {
    if |f.options| < maxOptions then Edit(f.(options := f.options + [QuestionOption("", None)]), [])
    else Edit(f, [OpenMessageModal(MessageContent("msgMaxOptionsReached", "msgMaxOptionsDetail", None,
                    Some([Replacement("max", IntToString(maxOptions))])))])
  }

  /** `removeOption(index)` */
  function RemoveOption(f: FormState, index: int): (e: Edit)
    ensures f.qtype == MultipleChoice && |f.options| <= 2 ==> e.form == f && |e.dispatched| == 1
    ensures !(f.qtype == MultipleChoice && |f.options| <= 2) ==>
      e.dispatched == [] && e.form == f.(options := e.form.options, correct := e.form.correct)
      && (0 <= index < |f.options| ==> e.form.options == f.options[..index] + f.options[index + 1..])
      && (!(0 <= index < |f.options|) ==> e.form.options == f.options)
      && (e.form.correct == f.correct || e.form.correct == "")
      && (e.form.correct == "" && f.correct != "" <==>
            0 <= index < |f.options| && f.options[index].text != ""
            && Trim(f.options[index].text) == Trim(f.correct) && Trim(f.correct) != "")
  {
    if f.qtype == MultipleChoice && |f.options| <= 2 then
      Edit(f, [OpenMessageModal(MessageContent("msgValidationError", "msgNeedAtLeastTwoOptions", None, None))])
    else
      var kept := if 0 <= index < |f.options| then f.options[..index] + f.options[index + 1..] else f.options;
      var clears := 0 <= index < |f.options| && f.options[index].text != ""
                    && Trim(f.options[index].text) == Trim(f.correct) && Trim(f.correct) != "";
      if clears then
        assert f.correct != "" by {
          TrimOfEmpty();
        }
        Edit(f.(options := kept, correct := ""), [])
      else Edit(f.(options := kept), [])
  }

  /** Removing an option that was just added gives the form back. */
  lemma AddThenRemoveIsIdentity(f: FormState, maxOptions: nat)
    requires |f.options| < maxOptions
    requires f.qtype != MultipleChoice || |f.options| >= 2
    ensures RemoveOption(AddOption(f, maxOptions).form, |f.options|).form == f
  {
    var g := AddOption(f, maxOptions).form;
    assert g.options[..|f.options|] + g.options[|f.options| + 1..] == f.options;
  }
}
