/**
 * The question bank's two importers (components/SettingsView.tsx).
 *
 * The spreadsheet importer (`processAndImportMappedData`) reads each data
 * row through the user's column mapping, infers the question type, checks
 * the row against the rules of that type and either builds a question or
 * records a row error; the batch then ends in an error report, a confirm
 * dialog that replaces the whole bank, or a notice.
 *
 * The JSON importer (`handleImportJson`) accepts a parsed array only when
 * every element passes the validity test, and otherwise changes nothing.
 * Parsing itself is left to the caller; `None` stands for a parse failure.
 */
module QuestionImport {
  import opened Wrappers
  import opened Types
  import opened Strings
  import opened Store
  import Seqs
  import Reducer

  /** The values the importer takes from the app's constants. */
  datatype ImportConfig = ImportConfig(
    maxFormOptions: nat,       // MAX_FORM_OPTIONS: option columns option1 … optionN
    maxErrorsToShow: nat,      // MAX_XLSX_IMPORT_ERRORS_TO_SHOW
    questionRequired: bool)    // the `required` flag of the `question` field

  /** App field key to sheet header; a missing or empty entry means "not mapped". */
  type Mapping = map<string, string>

  type Row = seq<string>

  // ---------------------------------------------------------------------------
  // Reading a row through the mapping
  // ---------------------------------------------------------------------------

  function MappedHeader(mapping: Mapping, fieldKey: string): string
  {
    if fieldKey in mapping then mapping[fieldKey] else ""
  }

  /** `getRowValue`: the trimmed cell under the first header that the field is mapped to. */
  function RowValue(mapping: Mapping, headers: Row, row: Row, fieldKey: string): (v: string)
    ensures MappedHeader(mapping, fieldKey) == "" || MappedHeader(mapping, fieldKey) !in headers ==> v == ""
    ensures v == "" || exists i :: 0 <= i < |headers| && i < |row| && headers[i] == MappedHeader(mapping, fieldKey)
                                   && headers[i] !in headers[..i] && v == Trim(row[i])
  {
    var h := MappedHeader(mapping, fieldKey);
    if h == "" then ""
    else
      var i := IndexOf(headers, h);
      if 0 <= i < |row| then Trim(row[i]) else ""
  }

  /** A cell value never has surrounding whitespace. */
  lemma RowValueIsTrimmed(mapping: Mapping, headers: Row, row: Row, fieldKey: string)
    ensures Trim(RowValue(mapping, headers, row, fieldKey)) == RowValue(mapping, headers, row, fieldKey)
  {
    var h := MappedHeader(mapping, fieldKey);
    if h != "" {
      var i := IndexOf(headers, h);
      if 0 <= i < |row| {
        TrimIdempotent(row[i]);
      }
    }
  }

  /** The cell is read when the field is mapped to a header present in the sheet and the row reaches it. */
  lemma RowValueReadsMappedCell(mapping: Mapping, headers: Row, row: Row, fieldKey: string, i: nat)
    requires i < |headers| && i < |row|
    requires fieldKey in mapping && mapping[fieldKey] != "" && headers[i] == mapping[fieldKey]
    requires headers[i] !in headers[..i]
    ensures RowValue(mapping, headers, row, fieldKey) == Trim(row[i])
  {
    IndexOfFirst(headers, i);
  }

  lemma IndexOfFirst(xs: seq<string>, i: nat)
    requires i < |xs| && xs[i] !in xs[..i]
    ensures IndexOf(xs, xs[i]) == i
  {
    var j := IndexOf(xs, xs[i]);
    assert xs[i] in xs;
    assert forall k :: 0 <= k < i ==> xs[..i][k] == xs[k];
    assert forall k :: 0 <= k < j ==> xs[..j][k] == xs[k];
  }

  /** The column key of the `i`-th option (1-based). */
  function OptionKey(i: nat): string
  {
    "option" + NatToString(i)
  }

  /** The fields of one row as the importer reads them, before validation. */
  datatype RowFields = RowFields(
    question: string,
    typeValue: string,
    topic: string,
    correct: string,
    optionCells: seq<string>)

  function ReadRow(cfg: ImportConfig, mapping: Mapping, headers: Row, row: Row): (f: RowFields)
    ensures |f.optionCells| == cfg.maxFormOptions
    ensures forall i :: 0 <= i < cfg.maxFormOptions ==>
      f.optionCells[i] == RowValue(mapping, headers, row, OptionKey(i + 1))
  {
    var cells := seq(cfg.maxFormOptions, i requires 0 <= i < cfg.maxFormOptions => RowValue(mapping, headers, row, OptionKey(i + 1)));
    RowFields(
      RowValue(mapping, headers, row, "question"),
      ToLower(RowValue(mapping, headers, row, "type")),
      RowValue(mapping, headers, row, "topic"),
      RowValue(mapping, headers, row, "correctOptionText"),
      cells)
  }

  // ---------------------------------------------------------------------------
  // Type inference and validation of one row
  // ---------------------------------------------------------------------------

  /** The type column, already lower-cased, names the question type; anything else is multiple choice. */
  function InferType(typeValue: string): (t: QuestionType)
    ensures t == TrueFalse <==> typeValue == "true-false" || typeValue == "tf"
    ensures t == FillInTheBlank <==>
      typeValue == "fill-in-the-blank" || typeValue == "fib" || typeValue == "fill" || typeValue == "blank"
  {
    if typeValue == "true-false" || typeValue == "tf" then TrueFalse
    else if typeValue in ["fill-in-the-blank", "fib", "fill", "blank"] then FillInTheBlank
    else MultipleChoice
  }

  /** The string value of a `QuestionType` in the app's enum. */
  function TypeName(t: QuestionType): string
  {
    match t
    case MultipleChoice => "multiple-choice"
    case TrueFalse => "true-false"
    case FillInTheBlank => "fill-in-the-blank"
  }

  /** The enum value of a type, and nothing else, decodes to that type. */
  function DecodeType(name: string): (t: Option<QuestionType>)
    ensures t.Some? ==> TypeName(t.value) == name
  {
    if name == "multiple-choice" then Some(MultipleChoice)
    else if name == "true-false" then Some(TrueFalse)
    else if name == "fill-in-the-blank" then Some(FillInTheBlank)
    else None
  }

  /** A type column holding the enum's own value is read back as that type. */
  lemma InferTypeOfName(t: QuestionType)
    ensures InferType(TypeName(t)) == t
    ensures DecodeType(TypeName(t)) == Some(t)
  {
  }

  predicate NonEmpty(s: string) { s != "" }

  function IsNonEmpty(): string -> bool { (s: string) => NonEmpty(s) }

  /** The option texts a row supplies: its non-empty option cells, in column order. */
  function OptionTexts(f: RowFields): (texts: seq<string>)
    ensures forall t :: t in texts <==> t in f.optionCells && t != ""
    ensures |texts| <= |f.optionCells|
  {
    Seqs.Filter(f.optionCells, IsNonEmpty())
  }

  function PlainOptions(texts: seq<string>): (opts: seq<QuestionOption>)
    ensures |opts| == |texts|
    ensures forall i :: 0 <= i < |texts| ==> opts[i] == QuestionOption(texts[i], None)
  {
    seq(|texts|, i requires 0 <= i < |texts| => QuestionOption(texts[i], None))
  }

  /** What is wrong with a rejected row; the row number is attached by the batch. */
  datatype RowProblem =
    | QuestionTextMissing
    | McqNeedsMinOptions(foundCount: nat)
    | CorrectAnswerMissingMcq
    | CorrectAnswerMismatchMcq(correctAnswer: string, optionList: seq<string>)
    | InvalidCorrectAnswerTf(providedAnswer: string)
    | CorrectAnswerMissingFib

  datatype RowResult = Accepted(question: Question) | Rejected(problem: RowProblem)

  /** The answer a True/False row gives, matched case-insensitively against "true"/"false" and the labels. */
  function TrueFalseAnswer(correct: string, labels: Labels): Option<string>
  {
    var lower := ToLower(correct);
    if lower == "true" || lower == ToLower(labels.optionTrue) then Some(labels.optionTrue)
    else if lower == "false" || lower == ToLower(labels.optionFalse) then Some(labels.optionFalse)
    else None
  }

  /** The per-row checks of the spreadsheet importer, building the question under id `id`. */
  function ValidateRow(f: RowFields, labels: Labels, id: string): (r: RowResult)
    ensures f.question == "" ==> r == Rejected(QuestionTextMissing)
    ensures r.Accepted? ==>
      var q := r.question;
      q.id == id && q.question == f.question && q.qtype == InferType(f.typeValue)
      && q.topic == Some(f.topic) && q.questionImageURL.None?
    // multiple choice: two options, a correct answer, and that answer among the options
    ensures InferType(f.typeValue) == MultipleChoice ==>
      (r.Accepted? <==>
        f.question != "" && |OptionTexts(f)| >= 2 && f.correct != "" && f.correct in OptionTexts(f))
    ensures InferType(f.typeValue) == MultipleChoice && r.Accepted? ==>
      r.question.options == PlainOptions(OptionTexts(f)) && r.question.correctOptionText == f.correct
      && exists i :: 0 <= i < |r.question.options| && r.question.options[i].text == r.question.correctOptionText
    // true/false: the answer names one of the two, and is saved as that label
    ensures InferType(f.typeValue) == TrueFalse ==>
      (r.Accepted? <==> f.question != "" && TrueFalseAnswer(f.correct, labels).Some?)
    ensures InferType(f.typeValue) == TrueFalse && r.Accepted? ==>
      r.question.options == [QuestionOption(labels.optionTrue, None), QuestionOption(labels.optionFalse, None)]
      && (r.question.correctOptionText == labels.optionTrue || r.question.correctOptionText == labels.optionFalse)
      && (ToLower(f.correct) == "true" ==> r.question.correctOptionText == labels.optionTrue)
    // fill in the blank: a correct answer, and no options
    ensures InferType(f.typeValue) == FillInTheBlank ==>
      (r.Accepted? <==> f.question != "" && f.correct != "")
    ensures InferType(f.typeValue) == FillInTheBlank && r.Accepted? ==>
      r.question.options == [] && r.question.correctOptionText == f.correct
  {
    if f.question == "" then Rejected(QuestionTextMissing)
    else
      var t := InferType(f.typeValue);
      var base := Question(id, t, f.question, Some(f.topic), None, [], f.correct);
      match t
      case MultipleChoice =>
        var texts := OptionTexts(f);
        if |texts| < 2 then Rejected(McqNeedsMinOptions(|texts|))
        else if f.correct == "" then Rejected(CorrectAnswerMissingMcq)
        else if f.correct !in texts then Rejected(CorrectAnswerMismatchMcq(f.correct, texts))
        else
          var opts := PlainOptions(texts);
          var i :| 0 <= i < |texts| && texts[i] == f.correct;
          assert opts[i].text == f.correct;
          Accepted(base.(options := opts))
      case TrueFalse =>
        var answer := TrueFalseAnswer(f.correct, labels);
        if answer.None? then Rejected(InvalidCorrectAnswerTf(f.correct))
        else
          Accepted(base.(options := [QuestionOption(labels.optionTrue, None), QuestionOption(labels.optionFalse, None)],
                         correctOptionText := answer.value))
      case FillInTheBlank =>
        if f.correct == "" then Rejected(CorrectAnswerMissingFib)
        else Accepted(base)
  }

  /** The row a question would be written back as: its own fields, its type's enum value, its option texts. */
  function FieldsOf(q: Question): RowFields
  {
    RowFields(q.question, TypeName(q.qtype), q.topic.GetOr(""), q.correctOptionText,
              seq(|q.options|, i requires 0 <= i < |q.options| => q.options[i].text))
  }

  /** Labels that a case-insensitive reader can tell apart from each other and from the other English word. */
  predicate DistinctLabels(labels: Labels)
  {
    var t := ToLower(labels.optionTrue);
    var f := ToLower(labels.optionFalse);
    t != f && t != "false" && f != "true"
  }

  /** Reading an imported question back from its own fields gives the same question again. */
  lemma ValidateRowRoundTrip(f: RowFields, labels: Labels, id: string)
    requires ValidateRow(f, labels, id).Accepted?
    requires DistinctLabels(labels)
    ensures ValidateRow(FieldsOf(ValidateRow(f, labels, id).question), labels, id) == ValidateRow(f, labels, id)
  {
    var q := ValidateRow(f, labels, id).question;
    InferTypeOfName(q.qtype);
    if q.qtype == MultipleChoice {
      MultipleChoiceRoundTrip(f, labels, id);
    } else if q.qtype == TrueFalse {
      ToLowerIdempotent(labels.optionTrue);
      ToLowerIdempotent(labels.optionFalse);
    }
  }

  lemma MultipleChoiceRoundTrip(f: RowFields, labels: Labels, id: string)
    requires ValidateRow(f, labels, id).Accepted? && InferType(f.typeValue) == MultipleChoice
    ensures OptionTexts(FieldsOf(ValidateRow(f, labels, id).question)) == OptionTexts(f)
  {
    var q := ValidateRow(f, labels, id).question;
    var texts := OptionTexts(f);
    assert FieldsOf(q).optionCells == texts;
    forall i | 0 <= i < |texts| ensures IsNonEmpty()(texts[i]) {
      assert texts[i] in texts;
    }
    Seqs.FilterKeepsAll(texts, IsNonEmpty());
  }

  // ---------------------------------------------------------------------------
  // The batch
  // ---------------------------------------------------------------------------

  datatype RowError = RowError(rowNum: nat, problem: RowProblem)

  /** Accepted questions and row errors, in row order; result `i` is that of sheet row `i + 2`. */
  datatype Collected = Collected(questions: seq<Question>, errors: seq<RowError>)

  /** The results of the data rows, each validated under its own fresh id. */
  function RowResults(cfg: ImportConfig, mapping: Mapping, sheet: seq<Row>, labels: Labels,
                      newId: nat -> string): (rs: seq<RowResult>)
    ensures |rs| == if |sheet| == 0 then 0 else |sheet| - 1
    ensures forall i :: 0 <= i < |rs| ==> rs[i] == ValidateRow(ReadRow(cfg, mapping, sheet[0], sheet[i + 1]), labels, newId(i))
  {
    if |sheet| == 0 then []
    else seq(|sheet| - 1, i requires 0 <= i < |sheet| - 1 =>
               ValidateRow(ReadRow(cfg, mapping, sheet[0], sheet[i + 1]), labels, newId(i)))
  }

  /** The `forEach` over the data rows: each row adds a question or an error. */
  function Gather(rs: seq<RowResult>): (c: Collected)
    ensures |c.questions| + |c.errors| == |rs|
    ensures forall e :: e in c.errors ==> 2 <= e.rowNum < |rs| + 2
  {
    if rs == [] then Collected([], [])
    else
      var c := Gather(rs[..|rs| - 1]);
      match rs[|rs| - 1]
      case Accepted(q) => c.(questions := c.questions + [q])
      case Rejected(p) => c.(errors := c.errors + [RowError(|rs| + 1, p)])
  }

  /** A data row is reported as an error exactly when it is rejected, and then with its own problem. */
  lemma {:induction false} GatherReportsRejectedRows(rs: seq<RowResult>, i: nat)
    requires i < |rs|
    ensures var c := Gather(rs);
      (rs[i].Rejected? <==> exists e :: e in c.errors && e.rowNum == i + 2)
      && (rs[i].Rejected? ==> RowError(i + 2, rs[i].problem) in c.errors)
  {
    var init := rs[..|rs| - 1];
    var prev := Gather(init);
    var last := rs[|rs| - 1];
    var c := Gather(rs);
    if i < |rs| - 1 {
      GatherReportsRejectedRows(init, i);
      assert init[i] == rs[i];
      if last.Rejected? {
        assert c.errors == prev.errors + [RowError(|rs| + 1, last.problem)];
      }
    } else {
      forall e | e in prev.errors ensures e.rowNum != i + 2 { }
      if last.Rejected? {
        assert c.errors == prev.errors + [RowError(|rs| + 1, last.problem)];
        assert c.errors[|prev.errors|] == RowError(i + 2, last.problem);
      }
    }
  }

  /** Rows that are all accepted import every question, in row order. */
  lemma {:induction false} GatherAllAccepted(rs: seq<RowResult>)
    requires forall i :: 0 <= i < |rs| ==> rs[i].Accepted?
    ensures var c := Gather(rs);
      c.errors == [] && |c.questions| == |rs| && forall i :: 0 <= i < |rs| ==> c.questions[i] == rs[i].question
  {
    if rs != [] {
      GatherAllAccepted(rs[..|rs| - 1]);
    }
  }

  lemma {:induction false} GatherErrorsHaveRejected(rs: seq<RowResult>)
    requires Gather(rs).errors != []
    ensures exists i :: 0 <= i < |rs| && rs[i].Rejected?
  {
    var init := rs[..|rs| - 1];
    var k := |rs| - 1;
    if rs[k].Accepted? {
      assert Gather(rs).errors == Gather(init).errors;
      GatherErrorsHaveRejected(init);
      var i :| 0 <= i < |init| && init[i].Rejected?;
      assert rs[i] == init[i];
    } else {
      assert rs[k].Rejected?;
    }
  }

  /** Without row errors, the batch imports one question per row, in row order. */
  lemma GatherWithoutErrors(rs: seq<RowResult>)
    requires Gather(rs).errors == []
    ensures |Gather(rs).questions| == |rs|
    ensures forall i :: 0 <= i < |rs| ==> rs[i] == Accepted(Gather(rs).questions[i])
  {
    forall i | 0 <= i < |rs| ensures rs[i].Accepted? {
      GatherReportsRejectedRows(rs, i);
    }
    GatherAllAccepted(rs);
  }

  /** How the batch ends. */
  datatype ImportOutcome =
    | ReadingFailed                     // no sheet, no file name, or no active profile
    | QuestionNotMapped                 // the required question column is not mapped
    | RowErrors(errorCount: nat, shown: seq<RowError>, moreCount: nat)
    | ConfirmImport(questions: seq<Question>)
    | NoValidQuestions                  // data rows, but none of them produced a question
    | NoDataRows

  /** The error report: the first `cap` errors and how many more there were. */
  function Report(errors: seq<RowError>, cap: nat): (o: ImportOutcome)
    requires errors != []
    ensures o.RowErrors? && o.errorCount == |errors|
    ensures |o.shown| <= cap && |o.shown| <= |errors| && o.shown == errors[..|o.shown|]
    ensures |o.shown| + o.moreCount == |errors|
    ensures |errors| <= cap ==> o.shown == errors && o.moreCount == 0
  {
    var n := if |errors| < cap then |errors| else cap;
    RowErrors(|errors|, errors[..n], |errors| - n)
  }

  /** The sheet, a non-empty file name and an active profile are all there. */
  predicate Readable(sheet: Option<seq<Row>>, fileName: Option<string>, hasProfile: bool)
  {
    sheet.Some? && fileName.Some? && fileName.value != "" && hasProfile
  }

  /** The question column is required but no header is mapped to it. */
  predicate QuestionUnmapped(cfg: ImportConfig, mapping: Mapping)
  {
    cfg.questionRequired && MappedHeader(mapping, "question") == ""
  }

  /**
   * `processAndImportMappedData`. Each outcome is stated both ways; the
   * "no valid questions" notice is never reached, because every data row
   * yields either a question or an error.
   */
  function ProcessSheet(cfg: ImportConfig, mapping: Mapping, sheet: Option<seq<Row>>, fileName: Option<string>,
                        hasProfile: bool, labels: Labels, newId: nat -> string): (o: ImportOutcome)
    ensures o == ReadingFailed <==> !Readable(sheet, fileName, hasProfile)
    ensures o == QuestionNotMapped <==> Readable(sheet, fileName, hasProfile) && QuestionUnmapped(cfg, mapping)
    ensures o != NoValidQuestions
    ensures Readable(sheet, fileName, hasProfile) && !QuestionUnmapped(cfg, mapping) ==>
      (var rs := RowResults(cfg, mapping, sheet.value, labels, newId);
       && (o.RowErrors? <==> exists i :: 0 <= i < |rs| && rs[i].Rejected?)
       && (o.ConfirmImport? <==> rs != [] && forall i :: 0 <= i < |rs| ==> rs[i].Accepted?)
       && (o == NoDataRows <==> rs == []))
    ensures o.ConfirmImport? ==>
      (var rs := RowResults(cfg, mapping, sheet.value, labels, newId);
       o.questions != [] && |o.questions| == |rs|
       && forall i :: 0 <= i < |rs| ==> rs[i] == Accepted(o.questions[i]))
    ensures o.RowErrors? ==>
      (var rs := RowResults(cfg, mapping, sheet.value, labels, newId);
       o.errorCount > 0 && |o.shown| <= cfg.maxErrorsToShow
       && exists i :: 0 <= i < |rs| && rs[i].Rejected?)
  {
    if !Readable(sheet, fileName, hasProfile) then ReadingFailed
    else if QuestionUnmapped(cfg, mapping) then QuestionNotMapped
    else Settle(RowResults(cfg, mapping, sheet.value, labels, newId), cfg.maxErrorsToShow)
  }

  /**
   * How a readable, mapped sheet ends, from its row results: a report when
   * some row is rejected, an import when every row is accepted, and the
   * no-data message for no rows.
   */
  function Settle(rs: seq<RowResult>, cap: nat): (o: ImportOutcome)
    ensures o.RowErrors? <==> exists i :: 0 <= i < |rs| && rs[i].Rejected?
    ensures o.ConfirmImport? <==> rs != [] && forall i :: 0 <= i < |rs| ==> rs[i].Accepted?
    ensures o == NoDataRows <==> rs == []
    ensures o.ConfirmImport? ==>
      o.questions != [] && |o.questions| == |rs| && forall i :: 0 <= i < |rs| ==> rs[i] == Accepted(o.questions[i])
    ensures o.RowErrors? ==> o.errorCount > 0 && |o.shown| <= cap
  {
    var c := Gather(rs);
    if c.errors != [] then
      GatherErrorsHaveRejected(rs);
      Report(c.errors, cap)
    else
      GatherWithoutErrors(rs);
      if c.questions != [] then ConfirmImport(c.questions)
      else if |rs| > 0 then assert false; NoValidQuestions
      else NoDataRows
  }

  /** One rejected row is enough to import nothing. */
  lemma OneBadRowImportsNothing(cfg: ImportConfig, mapping: Mapping, rows: seq<Row>, fileName: string,
                                labels: Labels, newId: nat -> string, i: nat)
    requires i + 1 < |rows| && fileName != ""
    requires ValidateRow(ReadRow(cfg, mapping, rows[0], rows[i + 1]), labels, newId(i)).Rejected?
    ensures !ProcessSheet(cfg, mapping, Some(rows), Some(fileName), true, labels, newId).ConfirmImport?
  {
  }

  /** How the report text and the success notice are worded: the translator, passed in. */
  datatype Wording = Wording(rowError: RowError -> string, moreErrors: nat -> string)

  /** The one action the importer dispatches for each outcome. */
  function ImportAction(o: ImportOutcome, profile: TestProfile, fileName: string, w: Wording): (a: Action)
    ensures o.ConfirmImport? ==>
      a.OpenConfirmModal? && |a.onConfirm| == 2
      && a.onConfirm[0] == SetQuestionsForProfile(profile.id, o.questions)
      && a.onConfirm[1].OpenMessageModal?
    ensures !o.ConfirmImport? ==> a.OpenMessageModal?
  {
    match o
    case ReadingFailed => OpenMessageModal(MessageContent("msgError", "msgImportErrorReadingFile", None, None))
    case QuestionNotMapped => OpenMessageModal(MessageContent("msgValidationError", "msgXlsxImportErrorMapping", None, None))
    case RowErrors(count, shown, more) =>
      var list := Join(seq(|shown|, i requires 0 <= i < |shown| => w.rowError(shown[i])), '\n')
        + (if more > 0 then "\n... (" + IntToString(more) + " " + w.moreErrors(more) + ")" else "");
      OpenMessageModal(MessageContent("msgXlsxImportCompletedWithRowErrorsTitle", "msgXlsxImportCompletedWithRowErrorsDetail",
        None, Some([Replacement("errorCount", IntToString(count)), Replacement("shownErrorCount", IntToString(|shown|)),
                    Replacement("errorListString", list)])))
    case ConfirmImport(qs) =>
      OpenConfirmModal(
        ConfirmContent("msgImportXlsxCsvConfirm", "msgImportXlsxCsvConfirmDetail",
          Some([Replacement("filename", fileName), Replacement("testName", profile.name)])),
        [SetQuestionsForProfile(profile.id, qs),
         OpenMessageModal(MessageContent("msgXlsxImportedSuccess", "msgXlsxImportedSuccessDetail", None,
           Some([Replacement("count", IntToString(|qs|)), Replacement("filename", fileName),
                 Replacement("testName", profile.name)])))])
    case NoValidQuestions => OpenMessageModal(MessageContent("modalNotificationTitle", "msgXlsxImportNoValidQuestionsFound", None, None))
    case NoDataRows =>
      OpenMessageModal(MessageContent("modalNotificationTitle", "qBankNoQuestions", None,
        Some([Replacement("name", profile.name)])))
  }

  /**
   * Confirming the import replaces the question list of the importing profile
   * with exactly the imported questions and leaves every other profile alone.
   */
  lemma ConfirmedImportReplacesBank(s: AppState, o: ImportOutcome, profile: TestProfile, fileName: string,
                                    w: Wording, env: Env, d: Defaults)
    requires o.ConfirmImport?
    ensures var cb := ImportAction(o, profile, fileName, w).onConfirm;
      var r := Reducer.ReduceAll(s, [(cb[0], env), (cb[1], env)], d);
      |r.testProfiles| == |s.testProfiles|
      && forall i :: 0 <= i < |s.testProfiles| ==>
           if s.testProfiles[i].id == profile.id
           then r.testProfiles[i].questions == o.questions && r.testProfiles[i].id == profile.id
           else r.testProfiles[i] == s.testProfiles[i]
  {
    var cb := ImportAction(o, profile, fileName, w).onConfirm;
    var steps := [(cb[0], env), (cb[1], env)];
    var mid := Reducer.Reduce(s, cb[0], env, d);
    Reducer.ProfileEditTouchesOnlyTarget(s, cb[0], env, d);
    var last := Reducer.Reduce(mid, cb[1], env, d);
    assert last.testProfiles == mid.testProfiles;
    assert steps[1..] == [(cb[1], env)] && steps[1..][1..] == [];
    assert Reducer.ReduceAll(s, steps, d) == Reducer.ReduceAll(mid, steps[1..], d);
    assert Reducer.ReduceAll(mid, steps[1..], d) == Reducer.ReduceAll(last, [], d);
  }

  // ---------------------------------------------------------------------------
  // JSON import
  // ---------------------------------------------------------------------------

  /** A parsed JSON value. */
  datatype Json =
    | JNull
    | JBool(b: bool)
    | JNumber(n: real)
    | JString(s: string)
    | JArray(items: seq<Json>)
    | JObject(fields: map<string, Json>)

  /** JavaScript truthiness of a JSON value. */
  predicate Truthy(j: Json)
  {
    match j
    case JNull => false
    case JBool(b) => b
    case JNumber(n) => n != 0.0
    case JString(s) => s != ""
    case JArray(_) => true
    case JObject(_) => true
  }

  /** `j.key`: a property of an object; `None` is `undefined`. */
  function Prop(j: Json, key: string): Option<Json>
  {
    if j.JObject? && key in j.fields then Some(j.fields[key]) else None
  }

  predicate TruthyProp(j: Json, key: string)
  {
    Prop(j, key).Some? && Truthy(Prop(j, key).value)
  }

  predicate IsStringProp(j: Json, key: string)
  {
    Prop(j, key).Some? && Prop(j, key).value.JString?
  }

  /** `opt && typeof opt.text === 'string' && (opt.imageURL === null || typeof opt.imageURL === 'string')` */
  predicate ValidOptionJson(o: Json)
  {
    Truthy(o) && IsStringProp(o, "text")
    && Prop(o, "imageURL").Some? && (Prop(o, "imageURL").value.JNull? || Prop(o, "imageURL").value.JString?)
  }

  /** The element test of the JSON import. */
  predicate ValidQuestionJson(q: Json)
  {
    Truthy(q) && TruthyProp(q, "id") && TruthyProp(q, "question")
    && Prop(q, "options").Some? && Prop(q, "options").value.JArray?
    && q.JObject? && "correctOptionText" in q.fields && "type" in q.fields
    && q.fields["type"] in [JString("multiple-choice"), JString("true-false"), JString("fill-in-the-blank")]
    && forall o :: o in Prop(q, "options").value.items ==> ValidOptionJson(o)
  }

  datatype JsonImportOutcome = Imported(items: seq<Json>) | InvalidFormat | ReadFileError

  /** What the confirmed JSON import does with the parsed file: all elements, or nothing. */
  function ImportJson(parsed: Option<Json>): (o: JsonImportOutcome)
    ensures parsed.None? <==> o == ReadFileError
    ensures o.Imported? <==>
      parsed.Some? && parsed.value.JArray? && forall i :: 0 <= i < |parsed.value.items| ==> ValidQuestionJson(parsed.value.items[i])
    ensures o.Imported? ==> o.items == parsed.value.items
  {
    match parsed
    case None => ReadFileError
    case Some(JArray(items)) =>
      if forall q :: q in items ==> ValidQuestionJson(q) then Imported(items) else InvalidFormat
    case Some(_) => InvalidFormat
  }

  /** One invalid element rejects the whole file. */
  lemma ImportJsonAllOrNothing(items: seq<Json>, i: nat)
    requires i < |items| && !ValidQuestionJson(items[i])
    ensures ImportJson(Some(JArray(items))) == InvalidFormat
  {
  }

  function OptionJson(o: QuestionOption): Json
  {
    JObject(map["text" := JString(o.text), "imageURL" := NullableJson(o.imageURL)])
  }

  function OptionsJson(opts: seq<QuestionOption>): (js: seq<Json>)
    ensures |js| == |opts| && forall i :: 0 <= i < |opts| ==> js[i] == OptionJson(opts[i])
  {
    seq(|opts|, i requires 0 <= i < |opts| => OptionJson(opts[i]))
  }

  function NullableJson(v: Option<string>): Json
  {
    match v
    case None => JNull
    case Some(s) => JString(s)
  }

  /** The bank export (`JSON.stringify` of the questions): `topic` is omitted when there is none. */
  function QuestionJson(q: Question): (j: Json)
  {
    var fields := map[
      "id" := JString(q.id),
      "type" := JString(TypeName(q.qtype)),
      "question" := JString(q.question),
      "questionImageURL" := NullableJson(q.questionImageURL),
      "options" := JArray(OptionsJson(q.options)),
      "correctOptionText" := JString(q.correctOptionText)];
    JObject(if q.topic.Some? then fields["topic" := JString(q.topic.value)] else fields)
  }

  function ExportJson(qs: seq<Question>): Json
  {
    JArray(seq(|qs|, i requires 0 <= i < |qs| => QuestionJson(qs[i])))
  }

  /** Reading a stored question back from an element (the inverse of `QuestionJson`). */
  function DecodeQuestion(j: Json): (q: Option<Question>)
    ensures q.Some? ==> j.JObject?
  {
    if !(j.JObject? && IsStringProp(j, "id") && IsStringProp(j, "question") && IsStringProp(j, "correctOptionText")
         && IsStringProp(j, "type") && Prop(j, "options").Some? && Prop(j, "options").value.JArray?
         && Prop(j, "questionImageURL").Some?) then None
    else
      var t := DecodeType(Prop(j, "type").value.s);
      var image := DecodeNullable(Prop(j, "questionImageURL").value);
      var opts := DecodeOptions(Prop(j, "options").value.items);
      var topic := if IsStringProp(j, "topic") then Some(Prop(j, "topic").value.s) else None;
      if t.None? || image.None? || opts.None? then None
      else Some(Question(Prop(j, "id").value.s, t.value, Prop(j, "question").value.s, topic, image.value, opts.value,
                         Prop(j, "correctOptionText").value.s))
  }

  function DecodeNullable(j: Json): Option<Option<string>>
  {
    match j
    case JNull => Some(None)
    case JString(s) => Some(Some(s))
    case _ => None
  }

  function DecodeOptions(items: seq<Json>): (r: Option<seq<QuestionOption>>)
    ensures r.Some? ==> |r.value| == |items|
  {
    if items == [] then Some([])
    else
      var first := items[0];
      var rest := DecodeOptions(items[1..]);
      if IsStringProp(first, "text") && Prop(first, "imageURL").Some?
         && DecodeNullable(Prop(first, "imageURL").value).Some? && rest.Some?
      then Some([QuestionOption(Prop(first, "text").value.s, DecodeNullable(Prop(first, "imageURL").value).value)] + rest.value)
      else None
  }

  lemma {:induction false} DecodeOptionsOfExport(opts: seq<QuestionOption>)
    ensures DecodeOptions(OptionsJson(opts)) == Some(opts)
  {
    var js := OptionsJson(opts);
    if opts != [] {
      assert js[1..] == OptionsJson(opts[1..]);
      DecodeOptionsOfExport(opts[1..]);
      assert opts == [opts[0]] + opts[1..];
      match opts[0].imageURL
      case None =>
      case Some(_) =>
    }
  }

  /** Decoding an exported question gives the question back. */
  lemma DecodeExported(q: Question)
    ensures DecodeQuestion(QuestionJson(q)) == Some(q)
  {
    var j := QuestionJson(q);
    assert Prop(j, "id") == Some(JString(q.id));
    assert Prop(j, "question") == Some(JString(q.question));
    assert Prop(j, "correctOptionText") == Some(JString(q.correctOptionText));
    assert Prop(j, "type") == Some(JString(TypeName(q.qtype)));
    assert Prop(j, "options") == Some(JArray(OptionsJson(q.options)));
    assert Prop(j, "questionImageURL") == Some(NullableJson(q.questionImageURL));
    if q.topic.Some? {
      assert Prop(j, "topic") == Some(JString(q.topic.value));
    } else {
      assert Prop(j, "topic") == None;
    }
    DecodeFromProps(j, q);
  }

  /** Decoding reads each field back from its own property. */
  lemma DecodeFromProps(j: Json, q: Question)
    requires j.JObject?
    requires Prop(j, "id") == Some(JString(q.id)) && Prop(j, "question") == Some(JString(q.question))
    requires Prop(j, "correctOptionText") == Some(JString(q.correctOptionText))
    requires Prop(j, "type") == Some(JString(TypeName(q.qtype)))
    requires Prop(j, "options") == Some(JArray(OptionsJson(q.options)))
    requires Prop(j, "questionImageURL") == Some(NullableJson(q.questionImageURL))
    requires Prop(j, "topic") == if q.topic.Some? then Some(JString(q.topic.value)) else None
    ensures DecodeQuestion(j) == Some(q)
  {
    DecodeOptionsOfExport(q.options);
    InferTypeOfName(q.qtype);
    assert DecodeNullable(NullableJson(q.questionImageURL)) == Some(q.questionImageURL);
  }

  /** An exported question passes the import test exactly when its id and question text are non-empty. */
  lemma ExportedQuestionValid(q: Question)
    ensures ValidQuestionJson(QuestionJson(q)) <==> q.id != "" && q.question != ""
  {
    var j := QuestionJson(q);
    var opts := Prop(j, "options").value.items;
    forall o | o in opts ensures ValidOptionJson(o) {
      var i :| 0 <= i < |opts| && opts[i] == o;
      assert o == OptionJson(q.options[i]);
    }
    match q.qtype
    case MultipleChoice =>
    case TrueFalse =>
    case FillInTheBlank =>
  }

  /** A bank whose questions all have ids and text can be exported and imported again unchanged. */
  lemma ExportImportRoundTrip(qs: seq<Question>)
    requires forall i :: 0 <= i < |qs| ==> qs[i].id != "" && qs[i].question != ""
    ensures ImportJson(Some(ExportJson(qs))) == Imported(ExportJson(qs).items)
    ensures forall i :: 0 <= i < |qs| ==> DecodeQuestion(ExportJson(qs).items[i]) == Some(qs[i])
  {
    var items := ExportJson(qs).items;
    forall i | 0 <= i < |qs| ensures ValidQuestionJson(items[i]) && DecodeQuestion(items[i]) == Some(qs[i]) {
      ExportedQuestionValid(qs[i]);
      DecodeExported(qs[i]);
    }
  }
}
