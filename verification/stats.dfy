/**
 * The statistics screen of a test profile: the time display, the summary
 * figures over the quiz history, the redirect when no profile is active and
 * the confirmed clearing of the history.
 */
module Stats {
  import opened Wrappers
  import opened Types
  import opened Strings
  import opened Store
  import Reducer
  import Translate
  import Seqs
  import Modals

  // ---------------------------------------------------------------------------
  // formatDisplayTime
  // ---------------------------------------------------------------------------

  /** What the time column shows. */
  datatype TimeDisplay = TimerNotEnabled | MinutesSeconds(minutes: nat, seconds: nat)

  /** `formatDisplayTime` before translation: no time, or a negative one, means no timer. */
  function DisplayTime(t: Option<int>): (d: TimeDisplay)
    ensures t.None? || t.value < 0 <==> d == TimerNotEnabled
    ensures d.MinutesSeconds? ==> d.minutes * 60 + d.seconds == t.value && d.seconds < 60
  {
    if t.None? || t.value < 0 then TimerNotEnabled
    else MinutesSeconds(t.value / 60, t.value % 60)
  }

  /** The translated time: `timerNotEnabled`, or `timeMinutesSeconds` filled with both numbers. */
  function FormatDisplayTime(packs: Translate.LanguagePacks, lang: Language, t: Option<int>): (text: string)
    ensures DisplayTime(t) == TimerNotEnabled ==> text == Translate.Translate(packs, lang, "timerNotEnabled", [])
  {
    match DisplayTime(t)
    case TimerNotEnabled => Translate.Translate(packs, lang, "timerNotEnabled", [])
    case MinutesSeconds(m, s) =>
      Translate.Translate(packs, lang, "timeMinutesSeconds",
        [Replacement("minutes", NatToString(m)), Replacement("seconds", NatToString(s))])
  }

  /** The split into minutes and seconds is the only one with seconds below 60. */
  lemma DisplayTimeUnique(t: nat, m: nat, s: nat)
    requires m * 60 + s == t && s < 60
    ensures DisplayTime(Some(t)) == MinutesSeconds(m, s)
  {
    var d := DisplayTime(Some(t));
    assert (d.minutes - m) * 60 == s - d.seconds;
  }

  // ---------------------------------------------------------------------------
  // Summary over the history
  // ---------------------------------------------------------------------------

  function Sum(h: seq<QuizHistoryEntry>): real
    decreases |h|
  {
    if h == [] then 0.0 else h[0].percentage + Sum(h[1..])
  }

  /** `Math.max(...percentages)` over a non-empty history. */
  function Best(h: seq<QuizHistoryEntry>): (b: real)
    requires h != []
    ensures forall i :: 0 <= i < |h| ==> h[i].percentage <= b
    ensures exists i :: 0 <= i < |h| && h[i].percentage == b
    decreases |h|
  {
    if |h| == 1 then h[0].percentage
    else
      var rest := Best(h[1..]);
      assert forall i :: 1 <= i < |h| ==> h[i] == h[1..][i - 1];
      if h[0].percentage >= rest then h[0].percentage else rest
  }

  /** The three summary figures; `None` stands for the "0" shown for an empty history. */
  datatype Summary = Summary(totalTests: nat, average: Option<real>, best: Option<real>)

  /** The summary figures, before `toFixed(1)` rounding. */
  function Summarize(h: seq<QuizHistoryEntry>): (s: Summary)
    ensures s.totalTests == |h|
    ensures h == [] <==> s.average.None?
    ensures h == [] <==> s.best.None?
    ensures h != [] ==> s.average == Some(Sum(h) / (|h| as real))
    ensures h != [] ==> s.best == Some(Best(h))
  {
    if h == [] then Summary(0, None, None)
    else Summary(|h|, Some(Sum(h) / (|h| as real)), Some(Best(h)))
  }

  /** The sum stays below the count times any upper bound of the entries. */
  lemma {:induction false} SumBounded(h: seq<QuizHistoryEntry>, b: real)
    requires forall i :: 0 <= i < |h| ==> h[i].percentage <= b
    ensures Sum(h) <= (|h| as real) * b
    decreases |h|
  {
    if h != [] {
      assert forall i :: 0 <= i < |h[1..]| ==> h[1..][i] == h[i + 1];
      SumBounded(h[1..], b);
    }
  }

  /** The average never exceeds the best score. */
  lemma AverageAtMostBest(h: seq<QuizHistoryEntry>)
    requires h != []
    ensures Summarize(h).average.value <= Summarize(h).best.value
  {
    SumBounded(h, Best(h));
    QuotientBounded(Sum(h), |h| as real, Best(h));
  }

  lemma QuotientBounded(x: real, n: real, b: real)
    requires n > 0.0 && x <= n * b
    ensures x / n <= b
  {
    assert x / n <= (n * b) / n;
  }

  // ---------------------------------------------------------------------------
  // Navigation and clearing the history
  // ---------------------------------------------------------------------------

  /** The effect that leaves the screen when no profile is active. */
  function Redirect(activeProfile: Option<TestProfile>, activeView: AppView): (acts: seq<Action>)
    ensures acts != [] <==> activeProfile.None? && activeView == Stats
    ensures acts != [] ==> acts == [SetView(ViewRequest(MyTests, Unset, Set(None), Unset, Unset, Unset))]
  {
    if activeProfile.None? && activeView == Stats
    then [SetView(ViewRequest(MyTests, Unset, Set(None), Unset, Unset, Unset))]
    else []
  }

  /** The actions the clear-history confirmation runs. */
  function ClearHistoryCallback(p: TestProfile): seq<Action>
  {
    [ClearHistoryForProfile(p.id),
     OpenMessageModal(MessageContent("statsHistoryCleared", "statsHistoryClearedDetail", None,
                                     Some([Replacement("name", p.name)])))]
  }

  /** `handleClearHistory`: ask first; the history is cleared only on confirmation. */
  function ClearHistory(p: TestProfile): (a: Action)
    ensures a.OpenConfirmModal? && a.onConfirm == ClearHistoryCallback(p)
    ensures a.confirm.textReplacements == Some([Replacement("name", p.name)])
  {
    OpenConfirmModal(
      ConfirmContent("statsClearHistoryConfirm", "statsClearHistoryConfirmDetail", Some([Replacement("name", p.name)])),
      ClearHistoryCallback(p))
  }

  /**
   * Confirming the request empties the history of exactly the profile
   * asked about, leaves every other profile as it was, and reports it in
   * a message box.
   */
  lemma ConfirmedClearEmptiesHistory(s: AppState, p: TestProfile, env: Env, d: Defaults)
    ensures var asked := Reducer.Reduce(s, ClearHistory(p), env, d);
      var after := Reducer.ReduceAll(asked, Modals.Steps(Modals.Confirm(asked), env), d);
      && |after.testProfiles| == |s.testProfiles|
      && (forall i :: 0 <= i < |s.testProfiles| && s.testProfiles[i].id == p.id ==> after.testProfiles[i].history == [])
      && (forall i :: 0 <= i < |s.testProfiles| && s.testProfiles[i].id != p.id ==> after.testProfiles[i] == s.testProfiles[i])
      && after.isMessageModalOpen && !after.isConfirmModalOpen
  {
    var asked := Reducer.Reduce(s, ClearHistory(p), env, d);
    AskLeavesProfiles(s, p, env, d);
    var acts := Modals.Confirm(asked);
    var s1 := Reducer.Reduce(asked, acts[0], env, d);
    var s2 := Reducer.Reduce(s1, acts[1], env, d);
    var s3 := Reducer.Reduce(s2, acts[2], env, d);
    ThreeSteps(asked, acts, env, d);
    ClearStep(asked, p.id, env, d);
    MessageStep(s1, acts[1], env, d);
    CloseStep(s2, env, d);
  }

  /** Asking only opens the confirmation, holding the callback. */
  lemma AskLeavesProfiles(s: AppState, p: TestProfile, env: Env, d: Defaults)
    ensures Reducer.Reduce(s, ClearHistory(p), env, d).testProfiles == s.testProfiles
    ensures Reducer.Reduce(s, ClearHistory(p), env, d).confirmModalOnConfirm == Some(ClearHistoryCallback(p))
  {
  }

  lemma ThreeSteps(s: AppState, acts: seq<Action>, env: Env, d: Defaults)
    requires |acts| == 3
    ensures Reducer.ReduceAll(s, Modals.Steps(acts, env), d)
         == Reducer.Reduce(Reducer.Reduce(Reducer.Reduce(s, acts[0], env, d), acts[1], env, d), acts[2], env, d)
  {
    var steps := Modals.Steps(acts, env);
    var s1 := Reducer.Reduce(s, acts[0], env, d);
    var s2 := Reducer.Reduce(s1, acts[1], env, d);
    var s3 := Reducer.Reduce(s2, acts[2], env, d);
    assert steps[1..][1..][1..] == [];
    assert Reducer.ReduceAll(s3, steps[1..][1..][1..], d) == s3;
    assert Reducer.ReduceAll(s2, steps[1..][1..], d) == s3;
    assert Reducer.ReduceAll(s1, steps[1..], d) == s3;
  }

  lemma ClearStep(s: AppState, id: string, env: Env, d: Defaults)
    ensures var r := Reducer.Reduce(s, ClearHistoryForProfile(id), env, d);
      && |r.testProfiles| == |s.testProfiles|
      && (forall i :: 0 <= i < |s.testProfiles| && s.testProfiles[i].id == id ==> r.testProfiles[i].history == [])
      && (forall i :: 0 <= i < |s.testProfiles| && s.testProfiles[i].id != id ==> r.testProfiles[i] == s.testProfiles[i])
  {
    var a := ClearHistoryForProfile(id);
    assert Reducer.Reduce(s, a, env, d) == Reducer.EditProfiles(s, a, env.now);
  }

  lemma MessageStep(s: AppState, a: Action, env: Env, d: Defaults)
    requires a.OpenMessageModal?
    ensures Reducer.Reduce(s, a, env, d).testProfiles == s.testProfiles
    ensures Reducer.Reduce(s, a, env, d).isMessageModalOpen
  {
  }

  lemma CloseStep(s: AppState, env: Env, d: Defaults)
    ensures Reducer.Reduce(s, CloseConfirmModal, env, d) == s.(isConfirmModalOpen := false, confirmModalOnConfirm := None)
  {
  }
}
