/**
 * The three app-wide modals: the message box, the confirm box (whose
 * callback is the list of actions it dispatches) and the spreadsheet column
 * mapping dialog, with its first guess at which column feeds which question
 * field, the user's changes to it, the data preview and the import button.
 * The field list and the preview size come from the app's constants file
 * and are inputs here; each field's label arrives already translated.
 */
module Modals {
  import opened Wrappers
  import opened Types
  import opened Strings
  import opened Store
  import Reducer
  import Translate
  import Seqs

  // ---------------------------------------------------------------------------
  // Message modal
  // ---------------------------------------------------------------------------

  /** What the open message box shows. */
  datatype MessageView = MessageView(title: string, text: string, isError: bool)

  function Reps(r: Option<seq<Replacement>>): seq<Replacement>
  {
    if r.Some? then r.value else []
  }

  /** `MessageModal`: nothing when closed; a title styled as an error when its key mentions "error". */
  function ShowMessage(s: AppState, packs: Translate.LanguagePacks): (v: Option<MessageView>)
    ensures v.None? <==> !s.isMessageModalOpen
    ensures v.Some? ==> (v.value.isError <==> Contains(ToLower(s.messageModalContent.titleKey), "error"))
    ensures v.Some? ==> v.value.title == Translate.Translate(packs, s.generalSettings.currentLanguage,
                          s.messageModalContent.titleKey, Reps(s.messageModalContent.titleReplacements))
    ensures v.Some? ==> v.value.text == Translate.Translate(packs, s.generalSettings.currentLanguage,
                          s.messageModalContent.textKey, Reps(s.messageModalContent.textReplacements))
  {
    if !s.isMessageModalOpen then None
    else
      var m := s.messageModalContent;
      var lang := s.generalSettings.currentLanguage;
      Some(MessageView(
        Translate.Translate(packs, lang, m.titleKey, Reps(m.titleReplacements)),
        Translate.Translate(packs, lang, m.textKey, Reps(m.textReplacements)),
        Contains(ToLower(m.titleKey), "error")))
  }

  /** The OK button. */
  const MessageOk: seq<Action> := [CloseMessageModal]

  /** Pressing OK hides the message box. */
  lemma MessageOkCloses(s: AppState, packs: Translate.LanguagePacks, env: Env, d: Defaults)
    ensures ShowMessage(Reducer.ReduceAll(s, Steps(MessageOk, env), d), packs).None?
  {
    assert Steps(MessageOk, env) == [(CloseMessageModal, env)];
  }

  // ---------------------------------------------------------------------------
  // Confirm modal
  // ---------------------------------------------------------------------------

  /** Every action of a handler dispatched with the same clock and id source. */
  function Steps(acts: seq<Action>, env: Env): (steps: seq<(Action, Env)>)
    ensures |steps| == |acts|
    ensures forall i :: 0 <= i < |acts| ==> steps[i] == (acts[i], env)
  {
    seq(|acts|, i requires 0 <= i < |acts| => (acts[i], env))
  }

  lemma StepsAppend(a: seq<Action>, b: seq<Action>, env: Env)
    ensures Steps(a + b, env) == Steps(a, env) + Steps(b, env)
  {
  }

  /** What the open confirm box shows; the title is filled from the text's replacements. */
  datatype ConfirmView = ConfirmView(title: string, text: string)

  function ShowConfirm(s: AppState, packs: Translate.LanguagePacks): (v: Option<ConfirmView>)
    ensures v.None? <==> !s.isConfirmModalOpen
    ensures v.Some? ==> v.value.title == Translate.Translate(packs, s.generalSettings.currentLanguage,
                          s.confirmModalContent.titleKey, Reps(s.confirmModalContent.textReplacements))
    ensures v.Some? ==> v.value.text == Translate.Translate(packs, s.generalSettings.currentLanguage,
                          s.confirmModalContent.textKey, Reps(s.confirmModalContent.textReplacements))
  {
    if !s.isConfirmModalOpen then None
    else
      var c := s.confirmModalContent;
      var lang := s.generalSettings.currentLanguage;
      Some(ConfirmView(
        Translate.Translate(packs, lang, c.titleKey, Reps(c.textReplacements)),
        Translate.Translate(packs, lang, c.textKey, Reps(c.textReplacements))))
  }

  /** `handleConfirm`: the callback's actions (if any), then the close. */
  function Confirm(s: AppState): (acts: seq<Action>)
    ensures |acts| >= 1 && acts[|acts| - 1] == CloseConfirmModal
    ensures s.confirmModalOnConfirm.Some? ==> acts == s.confirmModalOnConfirm.value + [CloseConfirmModal]
    ensures s.confirmModalOnConfirm.None? ==> acts == [CloseConfirmModal]
  {
    (if s.confirmModalOnConfirm.Some? then s.confirmModalOnConfirm.value else []) + [CloseConfirmModal]
  }

  /** `handleCancel`: only the close; the callback never runs. */
  const Cancel: seq<Action> := [CloseConfirmModal]

  /**
   * Confirming runs the stored callback and then closes the box, clearing
   * the callback (whatever the callback itself opened); cancelling only closes it.
   */
  lemma ConfirmRunsCallbackThenCloses(s: AppState, env: Env, d: Defaults)
    ensures var after := Reducer.ReduceAll(s, Steps(Confirm(s), env), d);
      && !after.isConfirmModalOpen && after.confirmModalOnConfirm.None?
      && (s.confirmModalOnConfirm.Some? ==>
            after == Reducer.Reduce(Reducer.ReduceAll(s, Steps(s.confirmModalOnConfirm.value, env), d),
                                    CloseConfirmModal, env, d))
    ensures Reducer.ReduceAll(s, Steps(Cancel, env), d)
         == s.(isConfirmModalOpen := false, confirmModalOnConfirm := None)
  {
    var cb := if s.confirmModalOnConfirm.Some? then s.confirmModalOnConfirm.value else [];
    StepsAppend(cb, [CloseConfirmModal], env);
    Reducer.ReduceAllAppend(s, Steps(cb, env), Steps([CloseConfirmModal], env), d);
    assert Steps([CloseConfirmModal], env) == [(CloseConfirmModal, env)];
    assert Steps(Cancel, env) == [(CloseConfirmModal, env)];
    CloseAfter(Reducer.ReduceAll(s, Steps(cb, env), d), env, d);
    CloseAfter(s, env, d);
  }

  /** Dispatching the close alone clears the box and its callback and nothing else. */
  lemma CloseAfter(x: AppState, env: Env, d: Defaults)
    ensures Reducer.ReduceAll(x, [(CloseConfirmModal, env)], d) == Reducer.Reduce(x, CloseConfirmModal, env, d)
    ensures Reducer.Reduce(x, CloseConfirmModal, env, d) == x.(isConfirmModalOpen := false, confirmModalOnConfirm := None)
  {
    assert [(CloseConfirmModal, env)][1..] == [];
  }

  // ---------------------------------------------------------------------------
  // Spreadsheet column mapping
  // ---------------------------------------------------------------------------

  /** A question field the user can map a column to, with its translated label. */
  datatype AppField = AppField(key: string, labelText: string, required: bool)

  type Mapping = map<string, string>

  predicate IsAlnum(c: char)
  {
    'a' <= c <= 'z' || 'A' <= c <= 'Z' || '0' <= c <= '9'
  }

  /** `s.replace(/[^a-z0-9]/gi, '')`. */
  function KeepAlnum(s: string): (r: string)
    ensures |r| <= |s|
    ensures forall i :: 0 <= i < |r| ==> IsAlnum(r[i])
    ensures (forall i :: 0 <= i < |s| ==> IsAlnum(s[i])) ==> r == s
    ensures (forall i :: 0 <= i < |s| ==> !IsAlnum(s[i])) ==> r == ""
  {
    if s == [] then ""
    else
      var rest := KeepAlnum(s[1..]);
      assert forall i :: 1 <= i < |s| ==> s[i] == s[1..][i - 1];
      if IsAlnum(s[0]) then [s[0]] + rest else rest
  }

  /**
   * The letters and digits of `s` are kept, each as often as it occurs and
   * in order, and nothing else is: the only subsequence with those counts.
   */
  lemma {:induction false} KeepAlnumKeepsExactly(s: string)
    ensures forall c :: multiset(KeepAlnum(s))[c] == if IsAlnum(c) then multiset(s)[c] else 0
    ensures Seqs.IsSubsequence(KeepAlnum(s), s)
    decreases |s|
  {
    if s != [] {
      var rest := KeepAlnum(s[1..]);
      KeepAlnumKeepsExactly(s[1..]);
      KeepAlnumStep(s, rest);
      Seqs.SubsequenceCons(rest, s);
      if IsAlnum(s[0]) {
        Seqs.SubsequenceBothCons(rest, s);
      }
    }
  }

  lemma KeepAlnumStep(s: string, rest: string)
    requires s != []
    requires forall c :: multiset(rest)[c] == if IsAlnum(c) then multiset(s[1..])[c] else 0
    ensures forall c :: multiset(if IsAlnum(s[0]) then [s[0]] + rest else rest)[c]
                        == if IsAlnum(c) then multiset(s)[c] else 0
  {
    assert s == [s[0]] + s[1..];
    assert multiset(s) == multiset{s[0]} + multiset(s[1..]);
    assert multiset([s[0]] + rest) == multiset{s[0]} + multiset(rest);
  }

  /** The form headers and labels are compared in: lower case, letters and digits only. */
  function Simplify(s: string): string
  {
    KeepAlnum(ToLower(s))
  }

  /**
   * Whether a header is a guess for a field: one simplified form contains
   * the other, or the header is the field's key. With `skipBlank` a header
   * whose simplified form is empty matches nothing.
   */
  predicate Matches(header: string, f: AppField, skipBlank: bool)
  {
    var hs := Simplify(header);
    var ls := Simplify(f.labelText);
    (!skipBlank || hs != "")
    && (Contains(hs, ls) || Contains(ls, hs) || ToLower(f.key) == hs)
  }

  /** The position of the first `true`, if any. */
  function FirstTrue(bs: seq<bool>): (r: Option<nat>)
    ensures r.None? ==> forall i :: 0 <= i < |bs| ==> !bs[i]
    ensures r.Some? ==> r.value < |bs| && bs[r.value] && forall i :: 0 <= i < r.value ==> !bs[i]
  {
    if bs == [] then None
    else if bs[0] then Some(0)
    else
      var rest := FirstTrue(bs[1..]);
      assert forall i :: 1 <= i < |bs| ==> bs[i] == bs[1..][i - 1];
      if rest.None? then None else Some(rest.value + 1)
  }

  function MatchFlags(headers: seq<string>, f: AppField, skipBlank: bool): (bs: seq<bool>)
    ensures |bs| == |headers|
    ensures forall i :: 0 <= i < |headers| ==> bs[i] == Matches(headers[i], f, skipBlank)
  {
    seq(|headers|, i requires 0 <= i < |headers| => Matches(headers[i], f, skipBlank))
  }

  /** `headers.find(...)`: the position of the first matching header. */
  function FirstMatch(headers: seq<string>, f: AppField, skipBlank: bool): (r: Option<nat>)
    ensures r.None? ==> forall i :: 0 <= i < |headers| ==> !Matches(headers[i], f, skipBlank)
    ensures r.Some? ==> r.value < |headers| && Matches(headers[r.value], f, skipBlank)
    ensures r.Some? ==> forall i :: 0 <= i < r.value ==> !Matches(headers[i], f, skipBlank)
  {
    FirstTrue(MatchFlags(headers, f, skipBlank))
  }

  /** The column first guessed for a field, or "" (do not import). */
  function Guess(headers: seq<string>, f: AppField, skipBlank: bool): (v: string)
    ensures v == "" || (v in headers && Matches(v, f, skipBlank))
  {
    match FirstMatch(headers, f, skipBlank)
    case None => ""
    case Some(i) => headers[i]
  }

  /** `record[key] = value` for each pair in turn: a later pair with the same key wins. */
  function Assign(pairs: seq<(string, string)>): (m: Mapping)
    ensures forall k :: k in m <==> exists i :: 0 <= i < |pairs| && pairs[i].0 == k
    ensures forall i :: 0 <= i < |pairs| && (forall j :: i < j < |pairs| ==> pairs[j].0 != pairs[i].0) ==>
      m[pairs[i].0] == pairs[i].1
    decreases |pairs|
  {
    if pairs == [] then map[]
    else
      var init := pairs[..|pairs| - 1];
      var last := pairs[|pairs| - 1];
      assert pairs == init + [last];
      AssignOneMore(Assign(init), init, last);
      Assign(init)[last.0 := last.1]
  }

  /** One more assignment keeps the keys-and-values property of `Assign`. */
  lemma AssignOneMore(m: Mapping, init: seq<(string, string)>, last: (string, string))
    requires forall k :: k in m <==> exists i :: 0 <= i < |init| && init[i].0 == k
    requires forall i :: 0 <= i < |init| && (forall j :: i < j < |init| ==> init[j].0 != init[i].0) ==>
      m[init[i].0] == init[i].1
    ensures var pairs, r := init + [last], m[last.0 := last.1];
      (forall k :: k in r <==> exists i :: 0 <= i < |pairs| && pairs[i].0 == k)
      && (forall i :: 0 <= i < |pairs| && (forall j :: i < j < |pairs| ==> pairs[j].0 != pairs[i].0) ==>
            r[pairs[i].0] == pairs[i].1)
  {
    var pairs, r := init + [last], m[last.0 := last.1];
    forall k
      ensures k in r <==> exists i :: 0 <= i < |pairs| && pairs[i].0 == k
    {
      if k in m && k != last.0 {
        var i :| 0 <= i < |init| && init[i].0 == k;
        assert pairs[i].0 == k;
      }
      if k == last.0 {
        assert pairs[|init|].0 == k;
      }
    }
    forall i | 0 <= i < |pairs| && (forall j :: i < j < |pairs| ==> pairs[j].0 != pairs[i].0)
      ensures r[pairs[i].0] == pairs[i].1
    {
      if i < |init| {
        assert pairs[|init|].0 != pairs[i].0;
        assert forall j :: i < j < |init| ==> init[j].0 == pairs[j].0;
      }
    }
  }

  /** The guesses for all fields; a later field with the same key overrides an earlier one. */
  function GuessAll(headers: seq<string>, fields: seq<AppField>, skipBlank: bool): (m: Mapping)
    ensures forall k :: k in m <==> exists i :: 0 <= i < |fields| && fields[i].key == k
    ensures forall i :: 0 <= i < |fields| && (forall j :: i < j < |fields| ==> fields[j].key != fields[i].key) ==>
      m[fields[i].key] == Guess(headers, fields[i], skipBlank)
  {
    var pairs := seq(|fields|, i requires 0 <= i < |fields| => (fields[i].key, Guess(headers, fields[i], skipBlank)));
    assert forall i :: 0 <= i < |fields| ==> pairs[i].0 == fields[i].key;
    assert forall i :: 0 <= i < |fields| ==> pairs[i].1 == Guess(headers, fields[i], skipBlank);
    Assign(pairs)
  }

  /** The headers row of the sheet, or none for an empty sheet. */
  function Headers(sheet: seq<seq<string>>): (h: seq<string>)
    ensures |sheet| > 0 ==> h == sheet[0]
    ensures |sheet| == 0 ==> h == []
  {
    if |sheet| > 0 then sheet[0] else []
  }

  /** The dialog is open on a sheet with a headers row: the case in which the mapping effect guesses. */
  predicate Guessing(s: AppState)
  {
    s.isXlsxMappingModalOpen && s.xlsxSheetData.Some? && |s.xlsxSheetData.value| > 0
  }

  /**
   * The mapping effect as written: every field matched against the headers
   * row, a header that simplifies to "" included.
   */
  function InitialMappingAsWritten(s: AppState, fields: seq<AppField>): (m: Mapping)
    ensures !Guessing(s) ==> m == map[]
    ensures Guessing(s) ==> forall k :: k in m <==> exists i :: 0 <= i < |fields| && fields[i].key == k
    ensures Guessing(s) ==> forall i :: 0 <= i < |fields| && (forall j :: i < j < |fields| ==> fields[j].key != fields[i].key) ==>
      m[fields[i].key] == Guess(s.xlsxSheetData.value[0], fields[i], false)
  {
    if Guessing(s)
    then GuessAll(s.xlsxSheetData.value[0], fields, false)
    else map[]
  }

  /**
   * The mapping effect with headers that simplify to nothing skipped: the
   * first guess for each field when the dialog opens on a sheet, nothing otherwise.
   */
  function InitialMapping(s: AppState, fields: seq<AppField>): (m: Mapping)
    ensures !Guessing(s) ==> m == map[]
    ensures Guessing(s) ==> forall k :: k in m <==> exists i :: 0 <= i < |fields| && fields[i].key == k
    ensures Guessing(s) ==> forall i :: 0 <= i < |fields| && (forall j :: i < j < |fields| ==> fields[j].key != fields[i].key) ==>
      m[fields[i].key] == Guess(s.xlsxSheetData.value[0], fields[i], true)
  {
    if Guessing(s)
    then GuessAll(s.xlsxSheetData.value[0], fields, true)
    else map[]
  }

  /**
   * As written, a first header made only of punctuation (such as "#")
   * simplifies to the empty string, which every label "includes": it is
   * taken as the column of every field. With blank headers skipped it is
   * taken for none.
   */
  lemma PunctuationHeaderTakesEveryField(s: AppState, fields: seq<AppField>, i: nat)
    requires Guessing(s)
    requires var headers := s.xlsxSheetData.value[0];
      |headers| > 0 && headers[0] != "" && Simplify(headers[0]) == ""
    requires i < |fields| && forall j :: i < j < |fields| ==> fields[j].key != fields[i].key
    ensures InitialMappingAsWritten(s, fields)[fields[i].key] == s.xlsxSheetData.value[0][0]
    ensures InitialMapping(s, fields)[fields[i].key] != s.xlsxSheetData.value[0][0]
  {
    var headers := s.xlsxSheetData.value[0];
    assert StartsWith(Simplify(fields[i].labelText), "");
    assert Matches(headers[0], fields[i], false);
    GuessesHaveContent(headers, fields[i]);
  }

  /** With blank headers skipped, every guessed column has a letter or digit to match on. */
  lemma GuessesHaveContent(headers: seq<string>, f: AppField)
    ensures Guess(headers, f, true) == "" || Simplify(Guess(headers, f, true)) != ""
  {
  }

  /** Skipping blank headers changes nothing for a sheet whose headers all have letters or digits. */
  lemma {:induction false} SkipBlankIsConservative(headers: seq<string>, f: AppField)
    requires forall i :: 0 <= i < |headers| ==> Simplify(headers[i]) != ""
    ensures FirstMatch(headers, f, true) == FirstMatch(headers, f, false)
    decreases |headers|
  {
    if headers != [] {
      assert Matches(headers[0], f, true) == Matches(headers[0], f, false);
      assert forall i :: 0 <= i < |headers[1..]| ==> headers[1..][i] == headers[i + 1];
      SkipBlankIsConservative(headers[1..], f);
    }
  }

  /** `handleMappingChange`: one field re-pointed, the others kept. */
  function ChangeMapping(m: Mapping, key: string, header: string): (r: Mapping)
    ensures key in r && r[key] == header
    ensures forall k :: k != key ==> (k in r <==> k in m) && (k in m ==> r[k] == m[k])
  {
    m[key := header]
  }

  /** `xlsxSheetData.slice(1, MAX_PREVIEW_ROWS + 1)`: the first data rows. */
  function Preview(sheet: seq<seq<string>>, maxRows: nat): (rows: seq<seq<string>>)
    ensures |rows| == if |sheet| == 0 then 0 else if |sheet| - 1 < maxRows then |sheet| - 1 else maxRows
    ensures forall i :: 0 <= i < |rows| ==> rows[i] == sheet[i + 1]
  {
    if |sheet| == 0 then []
    else if |sheet| - 1 < maxRows then sheet[1..]
    else sheet[1..maxRows + 1]
  }

  /** The import button: the stored callback, if any, runs on the user's mapping; then the dialog closes. */
  datatype ImportClick = ImportClick(run: Option<(XlsxCallback, Mapping)>, dispatched: seq<Action>)

  function Import(s: AppState, m: Mapping): (c: ImportClick)
    ensures c.dispatched == [CloseXlsxMappingModal]
    ensures c.run.Some? <==> s.xlsxConfirmCallback.Some?
    ensures c.run.Some? ==> c.run.value == (s.xlsxConfirmCallback.value, m)
  {
    ImportClick(if s.xlsxConfirmCallback.Some? then Some((s.xlsxConfirmCallback.value, m)) else None,
                [CloseXlsxMappingModal])
  }

  /** Closing the dialog (import or cancel) clears the sheet, so the mapping effect resets to nothing. */
  lemma CloseResetsMapping(s: AppState, fields: seq<AppField>, env: Env, d: Defaults)
    ensures InitialMapping(Reducer.Reduce(s, CloseXlsxMappingModal, env, d), fields) == map[]
    ensures Reducer.Reduce(s, CloseXlsxMappingModal, env, d).xlsxConfirmCallback.None?
  {
  }
}
